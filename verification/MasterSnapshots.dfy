/** class Snapshot, the server's full copy of all entities that a tick keeps up to date
    (src/nrg_snapshot.cpp:41-117), and what a client without entities makes of it. */
module MasterSnapshots {
  import opened Packets
  import opened Varints
  import opened Codecs
  import opened Deltas
  import opened Merges
  import opened Worlds
  import opened SnapshotWire
  import opened SnapshotRoundTrip
  import opened DeltaSnapshots

  // ---------------------------------------------------------------- one entity's bytes

  function Concat(images: seq<Bytes>): Bytes
  {
    if images == [] then [] else Concat(images[..|images| - 1]) + images[|images| - 1]
  }

  function Sizes(images: seq<Bytes>): (r: seq<nat>)
    ensures |r| == |images|
  {
    seq(|images|, i requires 0 <= i < |images| => |images[i]|)
  }

  /** getFieldOffset: the sum of the sizes before a field. */
  function SumOf(sizes: seq<nat>): nat
  {
    if sizes == [] then 0 else SumOf(sizes[..|sizes| - 1]) + sizes[|sizes| - 1]
  }

  function Images(e: ServerEntity): (r: seq<Bytes>)
    ensures |r| == |e.fields|
  {
    seq(|e.fields|, i requires 0 <= i < |e.fields| => e.fields[i].image)
  }

  lemma {:induction false} ConcatLength(images: seq<Bytes>)
    ensures |Concat(images)| == SumOf(Sizes(images))
  {
    if images != [] {
      var n := |images| - 1;
      ConcatLength(images[..n]);
      assert Sizes(images)[..n] == Sizes(images[..n]);
    }
  }

  lemma {:induction false} ConcatSlice(images: seq<Bytes>, i: nat)
    requires i < |images|
    ensures var at := |Concat(images[..i])|;
            at + |images[i]| <= |Concat(images)| && Concat(images)[at..at + |images[i]|] == images[i]
  {
    var n := |images| - 1;
    if i < n {
      ConcatSlice(images[..n], i);
      assert images[..n][..i] == images[..i];
    } else {
      assert images[..i] == images[..n];
    }
  }

  // ---------------------------------------------------------------- the class

  datatype EntityData = EntityData(eid: nat, etype: nat, fieldSizes: seq<nat>, fieldData: Bytes)

  // The std::map of records is the list its iterators walk: ascending by id.

  ghost predicate AscendingIds(edata: seq<EntityData>)
  {
    forall i, j | 0 <= i < j < |edata| :: edata[i].eid < edata[j].eid
  }

  function FindData(edata: seq<EntityData>, id: nat): (r: Option<EntityData>)
    ensures r.Some? ==> r.value.eid == id && r.value in edata
  {
    if edata == [] then None else if edata[0].eid == id then Some(edata[0]) else FindData(edata[1..], id)
  }

  function Put(edata: seq<EntityData>, ed: EntityData): (r: seq<EntityData>)
    ensures forall x | x in r :: x == ed || x in edata
  {
    if edata == [] || ed.eid < edata[0].eid then [ed] + edata
    else if ed.eid == edata[0].eid then [ed] + edata[1..]
    else [edata[0]] + Put(edata[1..], ed)
  }

  function Erase(edata: seq<EntityData>, id: nat): (r: seq<EntityData>)
    ensures forall x | x in r :: x in edata
  {
    if edata == [] then [] else if edata[0].eid == id then edata[1..] else [edata[0]] + Erase(edata[1..], id)
  }

  lemma {:induction false} PutFind(edata: seq<EntityData>, ed: EntityData, id: nat)
    requires AscendingIds(edata)
    ensures AscendingIds(Put(edata, ed))
    ensures FindData(Put(edata, ed), id) == if id == ed.eid then Some(ed) else FindData(edata, id)
  {
    if edata != [] && edata[0].eid < ed.eid {
      PutFind(edata[1..], ed, id);
    }
  }

  lemma {:induction false} EraseFind(edata: seq<EntityData>, gone: nat, id: nat)
    requires AscendingIds(edata)
    ensures AscendingIds(Erase(edata, gone))
    ensures FindData(Erase(edata, gone), id) == if id == gone then None else FindData(edata, id)
  {
    if edata != [] {
      if edata[0].eid == gone {
        FindBelow(edata[1..], gone);
      } else {
        EraseFind(edata[1..], gone, id);
      }
    }
  }

  lemma {:induction false} FindBelow(edata: seq<EntityData>, id: nat)
    requires forall x | x in edata :: id < x.eid
    ensures FindData(edata, id) == None
  {
    if edata != [] {
      FindBelow(edata[1..], id);
    }
  }

  /** The record holds exactly the entity's fields. */
  ghost predicate Represents(ed: EntityData, e: Entity)
  {
    ed.eid < 65536 && ed.etype == e.typ < 65536 && ed.fieldSizes == Sizes(e.fields) && ed.fieldData == Concat(e.fields)
  }

  ghost predicate RepresentsWorld(edata: seq<EntityData>, w: World)
  {
    && AscendingIds(edata)
    && forall id: nat ::
         match FindData(edata, id)
         case None => id !in w
         case Some(ed) => id in w && Represents(ed, w[id])
  }

  /** A field that has not been updated is still what the record holds, and every field before it
      still takes as many bytes: with fixed-size fields this is always so. */
  ghost predicate Refreshes(was: Entity, e: ServerEntity)
  {
    && was.typ == e.typ && |was.fields| == |e.fields|
    && (forall i | 0 <= i < |e.fields| && !e.fields[i].updated :: e.fields[i].image == was.fields[i])
    && (forall i | 0 <= i < |e.fields| && !e.fields[i].updated :: PrefixKept(was.fields, Images(e), i))
  }

  ghost predicate PrefixKept(was: seq<Bytes>, now: seq<Bytes>, i: nat)
    requires i <= |was| && i <= |now|
  {
    SumOf(Sizes(now[..i])) == SumOf(Sizes(was[..i]))
  }

  function Resized(sizes: seq<nat>, n: nat): (r: seq<nat>)
    ensures |r| == n
  {
    seq(n, i requires 0 <= i < n => if i < |sizes| then sizes[i] else 0)
  }

  /** The record before its fields are rewritten. */
  function FirstRecord(found: Option<EntityData>, eid: nat, e: ServerEntity): (r: EntityData)
    ensures |r.fieldSizes| == |e.fields|
  {
    EntityData(eid, e.typ, Resized(if found.Some? then found.value.fieldSizes else [], |e.fields|), [])
  }

  /** An updated field's image, or else the old bytes at the sum of the sizes before the field, as
      those sizes stand by then; None where that lies outside of the old bytes. */
  function RewriteField(f: FieldState, saved: Bytes, ed: EntityData, i: nat): (r: Option<EntityData>)
    requires i < |ed.fieldSizes|
    ensures r.Some? ==> |r.value.fieldSizes| == |ed.fieldSizes| && r.value.eid == ed.eid && r.value.etype == ed.etype
  {
    if f.updated then Some(ed.(fieldSizes := ed.fieldSizes[i := |f.image|], fieldData := ed.fieldData + f.image))
    else
      var at, size := SumOf(ed.fieldSizes[..i]), ed.fieldSizes[i];
      if at + size <= |saved| then Some(ed.(fieldData := ed.fieldData + saved[at..at + size])) else None
  }

  function RewriteFields(fields: seq<FieldState>, saved: Bytes, ed: EntityData, i: nat): (r: Option<EntityData>)
    requires i <= |fields| == |ed.fieldSizes|
    ensures r.Some? ==> |r.value.fieldSizes| == |fields| && r.value.eid == ed.eid && r.value.etype == ed.etype
    decreases |fields| - i
  {
    if i == |fields| then Some(ed)
    else match RewriteField(fields[i], saved, ed, i)
      case None => None
      case Some(next) => RewriteFields(fields, saved, next, i + 1)
  }

  function Rewritten(found: Option<EntityData>, eid: nat, e: ServerEntity): (r: Option<EntityData>)
    ensures r.Some? ==> r.value.eid == eid
  {
    RewriteFields(e.fields, if found.Some? then found.value.fieldData else [], FirstRecord(found, eid, e), 0)
  }

  class Snapshot {
    var id: nat
    var edata: seq<EntityData>
    const buffer: Packet

    ghost function Repr(): set<object>
      reads this, buffer
    {
      {this} + buffer.Repr()
    }

    ghost predicate Valid()
      reads this, buffer
    {
      buffer.Valid() && AscendingIds(edata)
    }

    constructor (i: nat)
      ensures Valid() && fresh(Repr()) && id == i && edata == []
    {
      id, edata := i, [];
      buffer := new Packet(MAX_PACKET_SIZE);
    }

    method RemoveEntityById(eid: nat)
      requires Valid()
      modifies this`edata
      ensures Valid() && edata == Erase(old(edata), eid)
    {
      EraseFind(edata, eid, eid);
      edata := Erase(edata, eid);
    }

    /** Takes an entity's record out for rewriting, its old bytes saved in the buffer. */
    method StartRecord(eid: nat, e: ServerEntity) returns (ed: EntityData)
      requires Valid()
      modifies buffer.Repr()
      ensures Valid() && (buffer.data == old(buffer.data) || fresh(buffer.data))
      ensures ed == FirstRecord(FindData(edata, eid), eid, e)
      ensures FindData(edata, eid).Some? ==> buffer.Contents() == FindData(edata, eid).value.fieldData
    {
      var found := FindData(edata, eid);
      ed := if found.Some? then found.value.(etype := e.typ) else EntityData(eid, e.typ, [], []);
      if found.Some? {
        buffer.Reset();
        buffer.WriteArray(ed.fieldData);
        ed := ed.(fieldData := []);
      }
      if |ed.fieldSizes| != |e.fields| {
        ed := ed.(fieldSizes := Resized(ed.fieldSizes, |e.fields|));
      }
    }

    /** Rewrites an entity's record, for an entity without one only if all fields are updated. Copies
        must not reach outside the old bytes. */
    method AddEntity(eid: nat, e: ServerEntity)
      requires Valid() && Rewritten(FindData(edata, eid), eid, e).Some?
      requires FindData(edata, eid).None? ==> forall f | f in e.fields :: f.updated
      modifies Repr()
      ensures Valid() && fresh(Repr() - old(Repr())) && id == old(id)
      ensures edata == Put(old(edata), Rewritten(old(FindData(edata, eid)), eid, e).value)
    {
      hide Put, FirstRecord, SumOf;
      ghost var found := FindData(edata, eid);
      ghost var saved := if found.Some? then found.value.fieldData else [];
      var ed := StartRecord(eid, e);
      for i := 0 to |e.fields|
        invariant Valid() && fresh(Repr() - old(Repr())) && id == old(id) && edata == old(edata)
        invariant found.Some? ==> buffer.Contents() == saved
        invariant |ed.fieldSizes| == |e.fields| && RewriteFields(e.fields, saved, ed, i) == Rewritten(found, eid, e)
      {
        var f := e.fields[i];
        if f.updated {
          ed := ed.(fieldSizes := ed.fieldSizes[i := |f.image|], fieldData := ed.fieldData + f.image);
        } else {
          var offset, size := SumOf(ed.fieldSizes[..i]), ed.fieldSizes[i];
          ed := ed.(fieldData := ed.fieldData + buffer.Peek(offset, size));
        }
      }
      PutFind(edata, ed, eid);
      edata := Put(edata, ed);
    }

    /** writeToPacket: one FULL section with every entity, in the map's order. */
    method WriteToPacket(p: Packet)
      requires Valid() && p.Valid() && p.pos == p.used && p.Repr() !! Repr() && |edata| < Pow2(64)
      requires forall ed | ed in edata :: ed.eid < 65536 && ed.etype < 65536
      modifies p.Repr()
      ensures p.Valid() && p.pos == p.used && (p.data == old(p.data) || fresh(p.data))
      ensures p.Contents() == old(p.Contents()) + MasterBytes(edata)
    {
      hide Enc, Pow2, Overwrite, EntryBytes, Entries;
      if |edata| == 0 {
        p.Write8(0);
        return;
      }
      WriteStart(p);
      ghost var total := p.Contents() + Entries(edata);
      assert total == old(p.Contents()) + ([0x40] + Enc(|edata|) + Entries(edata));
      for i := 0 to |edata|
        invariant p.Valid() && p.pos == p.used && (p.data == old(p.data) || fresh(p.data))
        invariant p.Repr() !! Repr() && p.Contents() + Entries(edata[i..]) == total
      {
        EntriesTurn(edata, i);
        WriteEntry(p, edata[i], Entries(edata[i + 1..]), total);
      }
      EntriesTurn(edata, |edata|);
      assert p.Contents() + [] == total;
    }

    /** The section flag and the number of records. */
    method WriteStart(p: Packet)
      requires p.Valid() && p.pos == p.used && p.Repr() !! Repr() && |edata| < Pow2(64)
      modifies p.Repr()
      ensures p.Valid() && p.pos == p.used && (p.data == old(p.data) || fresh(p.data))
      ensures p.Contents() == old(p.Contents()) + ([0x40] + Enc(|edata|))
    {
      hide Enc, Pow2, Overwrite;
      p.Write8(0x40);
      var n := Encode(p, 64, |edata|);
    }

    method WriteEntry(p: Packet, ed: EntityData, ghost rest: Bytes, ghost total: Bytes)
      requires p.Valid() && p.pos == p.used && p.Repr() !! Repr() && ed.eid < 65536 && ed.etype < 65536
      requires p.Contents() + (EntryBytes(ed) + rest) == total
      modifies p.Repr()
      ensures p.Valid() && p.pos == p.used && (p.data == old(p.data) || fresh(p.data))
      ensures p.Contents() + rest == total
    {
      hide Enc, Pow2, Overwrite;
      Below64();
      var n := Encode(p, 64, ed.eid);
      n := Encode(p, 64, ed.etype);
      p.WriteArray(ed.fieldData);
      assert old(p.Contents()) + (EntryBytes(ed) + rest) ==
             old(p.Contents()) + Enc(ed.eid) + Enc(ed.etype) + ed.fieldData + rest;
    }
  }

  function EntryBytes(ed: EntityData): Bytes
  {
    Enc(ed.eid) + Enc(ed.etype) + ed.fieldData
  }

  function Entries(edata: seq<EntityData>): Bytes
  {
    if edata == [] then [] else EntryBytes(edata[0]) + Entries(edata[1..])
  }

  function MasterBytes(edata: seq<EntityData>): Bytes
  {
    if |edata| == 0 then [0] else [0x40] + Enc(|edata|) + Entries(edata)
  }

  lemma EntriesTurn(edata: seq<EntityData>, i: nat)
    requires i <= |edata|
    ensures Entries(edata[i..]) == if i == |edata| then [] else EntryBytes(edata[i]) + Entries(edata[i + 1..])
    ensures edata[0..] == edata
  {
    hide EntryBytes;
    if i < |edata| {
      assert edata[i..][1..] == edata[i + 1..];
    }
  }

  // ---------------------------------------------------------------- when the copies are right

  /** The bytes that the code copies for field i are those it should hold now. */
  predicate CopiedRight(saved: Bytes, now: seq<Bytes>, i: nat)
    requires i < |now|
  {
    var at := SumOf(Sizes(now[..i]));
    at + |now[i]| <= |saved| && saved[at..at + |now[i]|] == now[i]
  }

  ghost predicate CopiesRight(saved: Bytes, e: ServerEntity, i: nat)
    requires i <= |e.fields|
  {
    forall j :: i <= j < |e.fields| && !e.fields[j].updated ==> CopiedRight(saved, Images(e), j)
  }

  /** The sizes of what has not been updated are as recorded. */
  ghost predicate SizesKnown(sizes: seq<nat>, e: ServerEntity, i: nat)
    requires i <= |e.fields|
  {
    forall j :: i <= j < |e.fields| && !e.fields[j].updated ==> j < |sizes| && sizes[j] == |e.fields[j].image|
  }

  lemma ConcatNext(now: seq<Bytes>, i: nat)
    requires i < |now|
    ensures Concat(now[..i + 1]) == Concat(now[..i]) + now[i] && Sizes(now[..i + 1]) == Sizes(now[..i]) + [|now[i]|]
  {
    assert now[..i + 1][..i] == now[..i];
  }

  lemma SameParts(x: Bytes, y: Bytes, a: Bytes, b: Bytes)
    requires |x| == |y|
    ensures x + a == y + b <==> x == y && a == b
  {
    if x + a == y + b {
      assert (x + a)[..|x|] == x && (y + b)[..|y|] == y;
      assert (x + a)[|x|..] == a && (y + b)[|y|..] == b;
    }
  }

  /** From field i on: the record ends up right if and only if it is so far and every copy is. */
  lemma {:induction false} RewriteFieldsIff(e: ServerEntity, saved: Bytes, ed: EntityData, i: nat)
    requires i <= |e.fields| == |ed.fieldSizes| && ed.fieldSizes[..i] == Sizes(Images(e)[..i])
    requires |ed.fieldData| == |Concat(Images(e)[..i])| && SizesKnown(ed.fieldSizes, e, i)
    ensures var r := RewriteFields(e.fields, saved, ed, i);
            r.Some? && r.value.fieldSizes == Sizes(Images(e)) && r.value.fieldData == Concat(Images(e)) <==>
            ed.fieldData == Concat(Images(e)[..i]) && CopiesRight(saved, e, i)
    decreases |e.fields| - i
  {
    hide Concat, SumOf, RewriteFields;
    var now := Images(e);
    if i == |e.fields| {
      LastRewrite(e.fields, saved, ed);
      assert now[..i] == now && ed.fieldSizes[..i] == ed.fieldSizes;
    } else {
      ConcatNext(now, i);
      RewriteTurn(e.fields, saved, ed, i);
      assert now[i] == e.fields[i].image;
      var next := RewriteField(e.fields[i], saved, ed, i);
      if next.Some? {
        var piece := if e.fields[i].updated then now[i] else saved[SumOf(ed.fieldSizes[..i])..][..ed.fieldSizes[i]];
        assert next.value.fieldData == ed.fieldData + piece;
        assert next.value.fieldSizes[..i + 1] == Sizes(now[..i + 1]);
        SameParts(ed.fieldData, Concat(now[..i]), piece, now[i]);
        RewriteFieldsIff(e, saved, next.value, i + 1);
      }
      CopiesTurn(saved, e, i);
    }
  }

  lemma CopiesTurn(saved: Bytes, e: ServerEntity, i: nat)
    requires i < |e.fields|
    ensures CopiesRight(saved, e, i) <==>
            CopiesRight(saved, e, i + 1) && (e.fields[i].updated || CopiedRight(saved, Images(e), i))
  {
    hide CopiedRight;
  }

  lemma LastRewrite(fields: seq<FieldState>, saved: Bytes, ed: EntityData)
    requires |fields| == |ed.fieldSizes|
    ensures RewriteFields(fields, saved, ed, |fields|) == Some(ed)
  {
  }

  lemma RewriteTurn(fields: seq<FieldState>, saved: Bytes, ed: EntityData, i: nat)
    requires i < |fields| == |ed.fieldSizes|
    ensures RewriteFields(fields, saved, ed, i) ==
            match RewriteField(fields[i], saved, ed, i)
            case None => None
            case Some(next) => RewriteFields(fields, saved, next, i + 1)
  {
    hide RewriteField;
  }

  /** The rewritten record is the entity's if and only if every copied field is. */
  lemma RewrittenIff(found: Option<EntityData>, eid: nat, e: ServerEntity)
    requires eid < 65536 && e.typ < 65536 && SizesKnown(if found.Some? then found.value.fieldSizes else [], e, 0)
    ensures var r := Rewritten(found, eid, e);
            r.Some? && Represents(r.value, Entity(e.typ, Images(e))) <==>
            CopiesRight(if found.Some? then found.value.fieldData else [], e, 0)
  {
    hide RewriteFields, SumOf, CopiesRight;
    RewriteFieldsIff(e, if found.Some? then found.value.fieldData else [], FirstRecord(found, eid, e), 0);
  }

  /** It is where the sizes before each copied field add up to what they did. */
  lemma RefreshedRight(found: Option<EntityData>, was: Option<Entity>, eid: nat, e: ServerEntity)
    requires eid < 65536 && e.typ < 65536 && (found.Some? <==> was.Some?)
    requires was.Some? ==> Represents(found.value, was.value) && Refreshes(was.value, e)
    requires was.None? ==> forall f | f in e.fields :: f.updated
    ensures Rewritten(found, eid, e).Some? && Represents(Rewritten(found, eid, e).value, Entity(e.typ, Images(e)))
  {
    hide Rewritten, SumOf, Concat;
    RewrittenIff(found, eid, e);
    if was.Some? {
      forall i | 0 <= i < |e.fields| && !e.fields[i].updated
        ensures CopiedRight(Concat(was.value.fields), Images(e), i)
      {
        KeptIsRight(was.value.fields, Images(e), i);
      }
    }
  }

  lemma KeptIsRight(was: seq<Bytes>, now: seq<Bytes>, i: nat)
    requires i < |was| == |now| && was[i] == now[i] && PrefixKept(was, now, i)
    ensures CopiedRight(Concat(was), now, i)
  {
    ConcatLength(was[..i]);
    ConcatSlice(was, i);
  }

  // ---------------------------------------------------------------- a client without entities

  function EntityItems(id: nat, fields: seq<Bytes>, i: nat): Items
    requires i <= |fields|
    decreases |fields| - i
  {
    if i == |fields| then [] else [Item(id, i, fields[i])] + EntityItems(id, fields, i + 1)
  }

  /** Records and entities side by side: what the full copy holds of a world. */
  ghost predicate EachRepresents(edata: seq<EntityData>, w: World)
  {
    forall x | x in edata :: x.eid in w && Represents(x, w[x.eid])
  }

  ghost function FullEntities(edata: seq<EntityData>, w: World): seq<EntityInfo>
    requires EachRepresents(edata, w)
  {
    if edata == [] then []
    else [EntityInfo(|w[edata[0].eid].fields|, edata[0].eid, edata[0].etype, true)] + FullEntities(edata[1..], w)
  }

  ghost function FullItems(edata: seq<EntityData>, w: World): Items
    requires EachRepresents(edata, w)
  {
    if edata == [] then [] else EntityItems(edata[0].eid, w[edata[0].eid].fields, 0) + FullItems(edata[1..], w)
  }

  lemma HoldsTail(edata: seq<EntityData>, w: World)
    requires EachRepresents(edata, w) && edata != []
    ensures EachRepresents(edata[1..], w) && edata[0].eid in w && Represents(edata[0], w[edata[0].eid])
  {
  }

  lemma {:induction false} EntityItemsSize(id: nat, fields: seq<Bytes>, i: nat)
    requires i <= |fields|
    ensures |EntityItems(id, fields, i)| == |fields| - i
    decreases |fields| - i
  {
    if i < |fields| {
      EntityItemsSize(id, fields, i + 1);
    }
  }

  lemma {:induction false} EntityItem(id: nat, fields: seq<Bytes>, i: nat, j: nat)
    requires i + j < |fields| && |EntityItems(id, fields, i)| == |fields| - i
    ensures EntityItems(id, fields, i)[j] == Item(id, i + j, fields[i + j])
    decreases j
  {
    if j > 0 {
      EntityItemsSize(id, fields, i + 1);
      EntityItem(id, fields, i + 1, j - 1);
    }
  }

  lemma EntityItemsAt(id: nat, fields: seq<Bytes>, i: nat)
    requires i <= |fields|
    ensures var r := EntityItems(id, fields, i);
            |r| == |fields| - i && forall j | 0 <= j < |r| :: r[j] == Item(id, i + j, fields[i + j])
  {
    EntityItemsSize(id, fields, i);
    forall j: nat | j < |fields| - i ensures EntityItems(id, fields, i)[j] == Item(id, i + j, fields[i + j]) {
      EntityItem(id, fields, i, j);
    }
  }

  lemma {:induction false} EntityItemsData(id: nat, fields: seq<Bytes>, i: nat)
    requires i <= |fields|
    ensures Concat(fields) == Concat(fields[..i]) + DataOf(EntityItems(id, fields, i))
    decreases |fields| - i
  {
    if i == |fields| {
      assert fields[..i] == fields;
    } else {
      EntityItemsData(id, fields, i + 1);
      assert fields[..i + 1][..i] == fields[..i];
    }
  }

  lemma {:induction false} EntityItemsFields(id: nat, fields: seq<Bytes>, i: nat)
    requires i <= |fields|
    ensures forall k: nat | i <= k < |fields| ::
              k in Fields(EntityItems(id, fields, i)) && Fields(EntityItems(id, fields, i))[k] == fields[k]
    decreases |fields| - i
  {
    if i < |fields| {
      EntityItemsFields(id, fields, i + 1);
    }
  }

  lemma {:induction false} FullEntitiesLookup(edata: seq<EntityData>, w: World, id: nat)
    requires EachRepresents(edata, w)
    ensures Lookup(FullEntities(edata, w), id) ==
            if FindData(edata, id).Some? then Some(EntityInfo(|w[id].fields|, id, w[id].typ, true)) else None
  {
    if edata != [] {
      FullEntitiesLookup(edata[1..], w, id);
    }
  }

  lemma {:induction false} FullEntitiesSize(edata: seq<EntityData>, w: World)
    requires EachRepresents(edata, w)
    ensures |FullEntities(edata, w)| == |edata|
  {
    if edata != [] {
      FullEntitiesSize(edata[1..], w);
    }
  }

  lemma {:induction false} FullEntityAt(edata: seq<EntityData>, w: World, i: nat)
    requires EachRepresents(edata, w) && |FullEntities(edata, w)| == |edata| && i < |edata|
    ensures FullEntities(edata, w)[i].id == edata[i].eid
  {
    if i > 0 {
      FullEntityAt(edata[1..], w, i - 1);
    }
  }

  lemma FullEntitiesAscend(edata: seq<EntityData>, w: World)
    requires EachRepresents(edata, w) && AscendingIds(edata)
    ensures Ascending(FullEntities(edata, w)) && |FullEntities(edata, w)| == |edata|
  {
    FullEntitiesSize(edata, w);
    forall i, j | 0 <= i < j < |edata| ensures FullEntities(edata, w)[i].id < FullEntities(edata, w)[j].id {
      FullEntityAt(edata, w, i);
      FullEntityAt(edata, w, j);
    }
  }

  lemma {:induction false} FullItemsOwned(edata: seq<EntityData>, w: World)
    requires EachRepresents(edata, w)
    ensures forall i | 0 <= i < |FullItems(edata, w)| :: FindData(edata, FullItems(edata, w)[i].entity).Some?
  {
    if edata != [] {
      EntityItemsAt(edata[0].eid, w[edata[0].eid].fields, 0);
      FullItemsOwned(edata[1..], w);
    }
  }

  lemma {:induction false} FullItemsOrdered(edata: seq<EntityData>, w: World)
    requires EachRepresents(edata, w) && AscendingIds(edata)
    ensures Ordered(FullItems(edata, w))
  {
    if edata != [] {
      var x, y := EntityItems(edata[0].eid, w[edata[0].eid].fields, 0), FullItems(edata[1..], w);
      EntityItemsAt(edata[0].eid, w[edata[0].eid].fields, 0);
      FullItemsOrdered(edata[1..], w);
      FullItemsOwned(edata[1..], w);
      forall j | 0 <= j < |y| ensures edata[0].eid <= y[j].entity {
        var owner := FindData(edata[1..], y[j].entity);
        assert owner.value in edata[1..];
      }
      ConcatOrdered(x, y);
    }
  }

  lemma {:induction false} FullItemsOf(edata: seq<EntityData>, w: World, id: nat)
    requires EachRepresents(edata, w) && AscendingIds(edata)
    ensures Of(FullItems(edata, w), id) == if FindData(edata, id).Some? then EntityItems(id, w[id].fields, 0) else []
  {
    if edata != [] {
      var e := edata[0];
      EntityItemsAt(e.eid, w[e.eid].fields, 0);
      FullItemsOf(edata[1..], w, id);
      OfPrepend(EntityItems(e.eid, w[e.eid].fields, 0), FullItems(edata[1..], w), e.eid, id);
      if e.eid == id {
        FindBelow(edata[1..], id);
        assert EntityItems(id, w[id].fields, 0) + [] == EntityItems(id, w[id].fields, 0);
      }
    }
  }

  /** The full copy as the delta that creates all of it. */
  ghost function FullDelta(edata: seq<EntityData>, w: World): Delta
    requires EachRepresents(edata, w)
  {
    Delta(FullEntities(edata, w), FullItems(edata, w))
  }

  /** The world consists of registered types with well-encoded fields. */
  ghost predicate Registered(schema: Schema, w: World)
  {
    forall id | id in w ::
      && id < 65536 && w[id].typ < 65536 && w[id].typ in schema && |w[id].fields| == |schema[w[id].typ]|
      && forall i | 0 <= i < |w[id].fields| :: WellEncoded(schema[w[id].typ][i].kind, w[id].fields[i])
  }

  lemma EntityRun(schema: Schema, w: World, e: EntityInfo)
    requires Registered(schema, w) && e.id in w && e == EntityInfo(|w[e.id].fields|, e.id, w[e.id].typ, true)
    ensures var run := EntityItems(e.id, w[e.id].fields, 0);
            RunFits(e, run) && e.typ in schema && Encoded(schema[e.typ], run)
  {
    hide WellEncoded;
    EntityItemsAt(e.id, w[e.id].fields, 0);
  }

  lemma FullRunFits(schema: Schema, edata: seq<EntityData>, w: World, e: EntityInfo)
    requires EachRepresents(edata, w) && AscendingIds(edata) && Registered(schema, w) && e in FullEntities(edata, w)
    ensures var d := FullDelta(edata, w); RunFits(e, Of(d.items, e.id)) && Known(schema, d.items, e) && e.full
  {
    hide WellEncoded, Encoded, RunFits, FullEntities, FullItems, Of;
    FullEntitiesAscend(edata, w);
    LookupMember(FullEntities(edata, w), e);
    FullEntitiesLookup(edata, w, e.id);
    FullItemsOf(edata, w, e.id);
    EntityRun(schema, w, e);
  }

  lemma FullDeltaWellFormed(schema: Schema, edata: seq<EntityData>, w: World)
    requires EachRepresents(edata, w) && AscendingIds(edata) && Registered(schema, w)
    ensures var d := FullDelta(edata, w); WellFormed(d) && Ordered(d.items) && Describes(schema, d)
  {
    hide Known, RunFits;
    var d := FullDelta(edata, w);
    FullEntitiesAscend(edata, w);
    FullItemsOrdered(edata, w);
    OrderedIsGrouped(d.items);
    FullItemsOwned(edata, w);
    forall e | e in d.entities ensures RunFits(e, Of(d.items, e.id)) && Known(schema, d.items, e) {
      FullRunFits(schema, edata, w, e);
    }
    forall i | 0 <= i < |d.items| ensures Lookup(d.entities, d.items[i].entity).Some? {
      FullEntitiesLookup(edata, w, d.items[i].entity);
    }
  }

  lemma FullDeltaStep(schema: Schema, edata: seq<EntityData>, w: World)
    requires RepresentsWorld(edata, w) && EachRepresents(edata, w) && Registered(schema, w)
    ensures Step(FullDelta(edata, w), map[], w)
  {
    var d := FullDelta(edata, w);
    forall id: nat
      ensures Applicable(ChangeOf(d, id), Get(map[], id)) && Apply(ChangeOf(d, id), Get(map[], id)) == Get(w, id)
    {
      FullEntityCreated(schema, edata, w, id);
    }
  }

  lemma FullEntityCreated(schema: Schema, edata: seq<EntityData>, w: World, id: nat)
    requires RepresentsWorld(edata, w) && EachRepresents(edata, w) && Registered(schema, w)
    ensures var c := ChangeOf(FullDelta(edata, w), id); Applicable(c, None) && Apply(c, None) == Get(w, id)
  {
    FullEntitiesLookup(edata, w, id);
    FullItemsOf(edata, w, id);
    if id in w {
      EntityItemsFields(id, w[id].fields, 0);
      assert Apply(ChangeOf(FullDelta(edata, w), id), None).value.fields == w[id].fields;
    }
  }

  lemma EntrySame(all: seq<EntityData>, w: World, x: EntityData)
    requires EachRepresents(all, w) && AscendingIds(all) && x in all
    ensures var e := EntityInfo(|w[x.eid].fields|, x.eid, x.etype, true);
            FullBytes(FullItems(all, w), e) == EntryBytes(x)
  {
    hide Enc, SeekRun, DataOf, Of;
    var items, fields := FullItems(all, w), w[x.eid].fields;
    FullItemsOrdered(all, w);
    SeekRunOrdered(items, x.eid);
    FullItemsOf(all, w, x.eid);
    FoundMember(all, x);
    EntityItemsData(x.eid, fields, 0);
    assert Concat(fields[..0]) + DataOf(EntityItems(x.eid, fields, 0)) == DataOf(EntityItems(x.eid, fields, 0));
  }

  lemma {:induction false} FoundMember(edata: seq<EntityData>, x: EntityData)
    requires AscendingIds(edata) && x in edata
    ensures FindData(edata, x.eid) == Some(x)
  {
    if edata[0] != x {
      FoundMember(edata[1..], x);
    }
  }

  lemma {:induction false} FullBytesSame(all: seq<EntityData>, edata: seq<EntityData>, w: World)
    requires EachRepresents(all, w) && AscendingIds(all) && EachRepresents(edata, w) && forall x | x in edata :: x in all
    requires forall x | x in edata :: |w[x.eid].fields| > 0
    ensures FullsBytes(FullItems(all, w), FullEntities(edata, w)) == Entries(edata)
    ensures ExactCounts(FullEntities(edata, w)) == Counts(0, |edata|, 0)
  {
    hide FullBytes, EntryBytes, FullItems;
    if edata != [] {
      EntrySame(all, w, edata[0]);
      FullBytesSame(all, edata[1..], w);
      HoldsTail(edata, w);
      assert FullEntities(edata, w)[1..] == FullEntities(edata[1..], w);
    }
  }

  lemma MasterIsFullDelta(schema: Schema, edata: seq<EntityData>, w: World)
    requires RepresentsWorld(edata, w) && EachRepresents(edata, w) && Registered(schema, w)
    ensures var d := FullDelta(edata, w); MasterBytes(edata) == SnapshotBytes(d, ExactCounts(d.entities))
  {
    hide FullsBytes, Entries, FullEntities, FullItems, SnapshotBytes, ExactCounts;
    FullBytesSame(edata, edata, w);
    FullEntitiesAscend(edata, w);
    OnlyFull(FullDelta(edata, w), |edata|);
  }

  /** The wire form of a delta that announces nothing but n full records. */
  lemma OnlyFull(d: Delta, n: nat)
    ensures SnapshotBytes(d, Counts(0, n, 0)) ==
            if n == 0 then [0] else [0x40] + Enc(n) + FullsBytes(d.items, d.entities)
  {
    hide FullsBytes, Enc, DelBytes, UpdsBytes;
    assert [0x40] + [] + (Enc(n) + FullsBytes(d.items, d.entities)) + [] == [0x40] + Enc(n) + FullsBytes(d.items, d.entities);
  }

  lemma RepresentedIsHeld(edata: seq<EntityData>, w: World)
    requires RepresentsWorld(edata, w)
    ensures EachRepresents(edata, w)
  {
    forall x | x in edata ensures x.eid in w && Represents(x, w[x.eid]) {
      FoundMember(edata, x);
    }
  }

  /** A client without entities that reads the full copy reaches the world the copy represents. */
  lemma MasterReadBack(schema: Schema, edata: seq<EntityData>, w: World, buf: Bytes, pos: nat)
    requires RepresentsWorld(edata, w) && Registered(schema, w)
    requires pos <= |buf| && At(buf, pos, MasterBytes(edata))
    ensures ReadSnapshot(schema, buf, pos, map[]) == Done(w, pos + |MasterBytes(edata)|)
  {
    hide At, ReadSnapshot, SnapshotBytes, MasterBytes, WorldAfter, WellEncoded;
    RepresentedIsHeld(edata, w);
    var d := FullDelta(edata, w);
    MasterIsFullDelta(schema, edata, w);
    FullDeltaWellFormed(schema, edata, w);
    FullDeltaStep(schema, edata, w);
    NothingPartial(schema, edata, w);
    ReadBack(schema, d, buf, pos, map[]);
    StepDeterministic(d, map[], WorldAfter(d, map[]), w);
  }

  lemma NothingPartial(schema: Schema, edata: seq<EntityData>, w: World)
    requires EachRepresents(edata, w) && AscendingIds(edata) && Registered(schema, w)
    ensures Holds(FullDelta(edata, w), map[])
  {
    forall e | e in FullEntities(edata, w) ensures e.full {
      FullRunFits(schema, edata, w, e);
    }
  }

  /** No entity a client holds has another type or number of fields in the published world. */
  ghost predicate SameTypes(held: World, w: World)
  {
    forall id | id in held && id in w :: held[id].typ == w[id].typ && |held[id].fields| == |w[id].fields|
  }

  lemma FullChange(schema: Schema, edata: seq<EntityData>, w: World, held: World, id: nat)
    requires RepresentsWorld(edata, w) && EachRepresents(edata, w) && Registered(schema, w) && SameTypes(held, w)
    ensures var c := ChangeOf(FullDelta(edata, w), id);
            Applicable(c, Get(held, id)) && Apply(c, Get(held, id)) == if id in w then Get(w, id) else Get(held, id)
  {
    hide WellEncoded, FullEntities, FullItems, Of, Fields;
    FullEntitiesLookup(edata, w, id);
    FullItemsOf(edata, w, id);
    if id in w {
      FullRunAssigns(id, w[id].fields);
      assert Apply(ChangeOf(FullDelta(edata, w), id), Get(held, id)).value.fields == w[id].fields;
    }
  }

  lemma FullRunAssigns(id: nat, fields: seq<Bytes>)
    ensures var m := Fields(EntityItems(id, fields, 0));
            forall k: nat :: k < |fields| ==> k in m && m[k] == fields[k]
  {
    EntityItemsFields(id, fields, 0);
  }

  /** The full copy has no DEL section: a client that already holds entities ends up in the published
      world if and only if each of them is still there. */
  lemma MasterOntoHoldingIff(schema: Schema, edata: seq<EntityData>, w: World, held: World, buf: Bytes, pos: nat)
    requires RepresentsWorld(edata, w) && Registered(schema, w)
    requires Conforms(schema, held) && SameTypes(held, w)
    requires pos <= |buf| && At(buf, pos, MasterBytes(edata))
    ensures ReadSnapshot(schema, buf, pos, held).Done?
    ensures ReadSnapshot(schema, buf, pos, held) == Done(w, pos + |MasterBytes(edata)|) <==> held.Keys <= w.Keys
  {
    hide At, ReadSnapshot, SnapshotBytes, MasterBytes, WorldAfter, WellEncoded, RepresentsWorld, EachRepresents, Registered,
      FullDelta, ChangeOf, Applicable, Apply, WellFormed, Ordered, Describes;
    RepresentedIsHeld(edata, w);
    var d := FullDelta(edata, w);
    MasterIsFullDelta(schema, edata, w);
    RepresentsAscends(edata, w);
    FullDeltaWellFormed(schema, edata, w);
    forall id: nat
      ensures Applicable(ChangeOf(d, id), Get(held, id))
      ensures Apply(ChangeOf(d, id), Get(held, id)) == if id in w then Get(w, id) else Get(held, id)
    {
      FullChange(schema, edata, w, held, id);
    }
    HoldsIsSuited(d, held);
    ReadBack(schema, d, buf, pos, held);
    var r := ReadSnapshot(schema, buf, pos, held).world;
    if held.Keys <= w.Keys {
      forall id: nat
        ensures Get(r, id) == Get(w, id)
      {
        assert Apply(ChangeOf(d, id), Get(held, id)) == Get(r, id);
      }
      SameWorld(r, w);
    } else {
      var id :| id in held && id !in w;
      assert Apply(ChangeOf(d, id), Get(held, id)) == Get(r, id);
    }
  }

  lemma RepresentsAscends(edata: seq<EntityData>, w: World)
    requires RepresentsWorld(edata, w)
    ensures AscendingIds(edata)
  {
  }

  /** The worlds that the deltas of every tick, one after the other, take an empty client through. */
  ghost predicate Replay(ds: seq<Delta>, ws: seq<World>)
  {
    |ws| == |ds| + 1 && ws[0] == map[] && forall i :: 0 <= i < |ds| ==> Step(ds[i], ws[i], ws[i + 1])
  }

  lemma {:induction false} ReplayUnique(ds: seq<Delta>, ws: seq<World>, vs: seq<World>, i: nat)
    requires Replay(ds, ws) && Replay(ds, vs) && i <= |ds|
    ensures ws[i] == vs[i]
  {
    hide Step;
    if i > 0 {
      ReplayUnique(ds, ws, vs, i - 1);
      assert Step(ds[i - 1], ws[i - 1], ws[i - 1 + 1]) && Step(ds[i - 1], vs[i - 1], vs[i - 1 + 1]);
      StepDeterministic(ds[i - 1], ws[i - 1], ws[i], vs[i]);
    }
  }

  /** One read of the full copy brings an empty client exactly where replaying every tick would. */
  lemma MasterReadsAsReplay(schema: Schema, edata: seq<EntityData>, ds: seq<Delta>, ws: seq<World>, vs: seq<World>,
                            buf: Bytes, pos: nat)
    requires Replay(ds, ws) && RepresentsWorld(edata, ws[|ds|]) && Registered(schema, ws[|ds|])
    requires Replay(ds, vs)
    requires pos <= |buf| && At(buf, pos, MasterBytes(edata))
    ensures ReadSnapshot(schema, buf, pos, map[]) == Done(vs[|ds|], pos + |MasterBytes(edata)|)
  {
    hide ReadSnapshot, MasterBytes, RepresentsWorld, Registered, Step;
    ReplayUnique(ds, ws, vs, |ds|);
    MasterReadBack(schema, edata, ws[|ds|], buf, pos);
  }
}
