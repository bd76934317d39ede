/** The server's entity table and its tick: what changed since the last tick goes into a new delta
    and into the full copy (src/nrg_server.cpp:178-200, 259-283; src/nrg_entity.cpp:35-40). */
module Servers {
  import opened Packets
  import opened Codecs
  import opened Deltas
  import opened Merges
  import opened Worlds
  import opened DeltaSnapshots
  import opened MasterSnapshots
  import opened Histories
  import opened RingBuffers
  import opened SnapshotWire
  import opened SnapshotRoundTrip


  type Table = map<nat, ServerEntity>

  function ImageOf(e: ServerEntity): Entity
  {
    Entity(e.typ, Images(e))
  }

  /** The world the server means its clients to see. */
  function ImageWorld(table: Table): World
  {
    map id | id in table :: ImageOf(table[id])
  }

  // ---------------------------------------------------------------- the delta of a tick

  function TickRecord(table: Table, id: nat): EntityInfo
  {
    if id in table then RecordOf(id, table[id]) else EntityInfo(0, id, 0, false)
  }

  function TickChunk(table: Table, id: nat): Items
  {
    if id in table then UpdatedItems(id, table[id].fields, 0) else []
  }

  /** Records and items for the ids in turn. */
  function TickDelta(table: Table, ids: seq<nat>): Delta
  {
    if ids == [] then EMPTY_DELTA
    else
      var n := |ids| - 1;
      var d := TickDelta(table, ids[..n]);
      Delta(d.entities + [TickRecord(table, ids[n])], d.items + TickChunk(table, ids[n]))
  }

  ghost predicate Increasing(ids: seq<nat>)
  {
    forall i, j | 0 <= i < j < |ids| :: ids[i] < ids[j]
  }

  /** A changed entity: what is not flagged is as published, and a new one is flagged throughout. */
  ghost predicate Flagged(published: World, table: Table, id: nat)
  {
    id in table ==>
      if id in published
      then && published[id].typ == table[id].typ && |published[id].fields| == |table[id].fields|
           && forall i | 0 <= i < |table[id].fields| && !table[id].fields[i].updated ::
                table[id].fields[i].image == published[id].fields[i]
      else forall f | f in table[id].fields :: f.updated
  }

  ghost predicate SaneEntity(id: nat, e: ServerEntity)
  {
    id < 65536 && e.typ < 65536 && e.fields != []
  }

  lemma {:induction false} UpdatedItemsRun(id: nat, fields: seq<FieldState>, i: nat)
    requires i <= |fields|
    ensures var r := UpdatedItems(id, fields, i);
            OwnedBy(r, id) && AscendingNumbers(r) && Above(r, i - 1) && Below(r, |fields|) && |r| <= |fields| - i
    decreases |fields| - i
  {
    if i < |fields| {
      UpdatedItemsRun(id, fields, i + 1);
      var rest := UpdatedItems(id, fields, i + 1);
      PrependItem(Item(id, i, fields[i].image), rest);
      assert UpdatedItems(id, fields, i) == if fields[i].updated then [Item(id, i, fields[i].image)] + rest else rest;
    }
  }

  lemma UpdatedItemsAssign(id: nat, fields: seq<FieldState>, i: nat)
    requires i < |fields|
    ensures var rest := Fields(UpdatedItems(id, fields, i + 1));
            Fields(UpdatedItems(id, fields, i)) == if fields[i].updated then rest[i := fields[i].image] else rest
  {
    var x, rest := Item(id, i, fields[i].image), UpdatedItems(id, fields, i + 1);
    if fields[i].updated {
      assert UpdatedItems(id, fields, i) == [x] + rest;
      assert ([x] + rest)[1..] == rest;
    } else {
      assert UpdatedItems(id, fields, i) == rest;
    }
  }

  lemma {:induction false} UpdatedItemsFields(id: nat, fields: seq<FieldState>, i: nat, k: nat)
    requires i <= k < |fields|
    ensures var m := Fields(UpdatedItems(id, fields, i));
            (k in m <==> fields[k].updated) && (k in m ==> m[k] == fields[k].image)
    decreases |fields| - i
  {
    hide Fields, UpdatedItems;
    UpdatedItemsAssign(id, fields, i);
    if i < k {
      UpdatedItemsFields(id, fields, i + 1, k);
    } else {
      UpdatedItemsRun(id, fields, i + 1);
      FieldsBounds(UpdatedItems(id, fields, i + 1), i, 0);
    }
  }

  lemma UpdatedItemsSize(id: nat, fields: seq<FieldState>, i: nat)
    requires i <= |fields|
    ensures |UpdatedItems(id, fields, i)| ==
            if i == |fields| then 0
            else (if fields[i].updated then 1 else 0) + |UpdatedItems(id, fields, i + 1)|
  {
  }

  lemma {:induction false} UpdatedItemsFull(id: nat, fields: seq<FieldState>, i: nat)
    requires i <= |fields|
    ensures |UpdatedItems(id, fields, i)| == |fields| - i <==> forall k | i <= k < |fields| :: fields[k].updated
    decreases |fields| - i
  {
    hide OwnedBy, AscendingNumbers, Above, Below, UpdatedItems;
    UpdatedItemsSize(id, fields, i);
    if i < |fields| {
      UpdatedItemsFull(id, fields, i + 1);
      UpdatedItemsRun(id, fields, i + 1);
      assert (forall k | i <= k < |fields| :: fields[k].updated) <==>
             fields[i].updated && forall k | i + 1 <= k < |fields| :: fields[k].updated;
    }
  }

  lemma ChunkFits(table: Table, id: nat)
    requires id in table ==> table[id].fields != []
    ensures OwnedBy(TickChunk(table, id), id) && RunFits(TickRecord(table, id), TickChunk(table, id))
  {
    if id in table {
      UpdatedItemsRun(id, table[id].fields, 0);
    }
  }

  lemma TickRecordId(table: Table, id: nat)
    ensures TickRecord(table, id).id == id
  {
  }

  lemma {:induction false} TickRecords(table: Table, ids: seq<nat>)
    ensures var d := TickDelta(table, ids);
            |d.entities| == |ids| &&
            forall i | 0 <= i < |ids| :: d.entities[i] == TickRecord(table, ids[i]) && d.entities[i].id == ids[i]
  {
    hide TickRecord, TickChunk;
    if ids != [] {
      var n := |ids| - 1;
      TickRecords(table, ids[..n]);
      assert TickDelta(table, ids).entities == TickDelta(table, ids[..n]).entities + [TickRecord(table, ids[n])];
      TickRecordId(table, ids[n]);
    }
  }

  lemma TickLookup(table: Table, ids: seq<nat>, id: nat)
    requires Increasing(ids)
    ensures Ascending(TickDelta(table, ids).entities)
    ensures Lookup(TickDelta(table, ids).entities, id) == if id in ids then Some(TickRecord(table, id)) else None
  {
    hide TickDelta, TickRecord, Lookup;
    TickRecords(table, ids);
    var es := TickDelta(table, ids).entities;
    if id in ids {
      var i :| 0 <= i < |ids| && ids[i] == id;
      assert es[i] == TickRecord(table, id);
      LookupMember(es, es[i]);
    }
  }

  lemma {:induction false} TickItems(table: Table, ids: seq<nat>)
    requires Increasing(ids) && forall id | id in ids && id in table :: table[id].fields != []
    ensures Ordered(TickDelta(table, ids).items)
    ensures forall i | 0 <= i < |TickDelta(table, ids).items| :: TickDelta(table, ids).items[i].entity in ids
  {
    if ids != [] {
      var n := |ids| - 1;
      TickItems(table, ids[..n]);
      ChunkFits(table, ids[n]);
      ConcatOrdered(TickDelta(table, ids[..n]).items, TickChunk(table, ids[n]));
    }
  }

  lemma {:induction false} TickOf(table: Table, ids: seq<nat>, id: nat)
    requires Increasing(ids) && forall x | x in ids && x in table :: table[x].fields != []
    ensures Of(TickDelta(table, ids).items, id) == if id in ids then TickChunk(table, id) else []
  {
    hide TickChunk, TickRecord;
    if ids != [] {
      var n := |ids| - 1;
      var last := ids[n];
      assert ids == ids[..n] + [last];
      TickOf(table, ids[..n], id);
      ChunkFits(table, last);
      OfConcat(TickDelta(table, ids[..n]).items, TickChunk(table, last), id);
      OfUniform(TickChunk(table, last), last, id);
    }
  }

  lemma TickWellFormed(table: Table, ids: seq<nat>)
    requires Increasing(ids) && forall id | id in ids && id in table :: table[id].fields != []
    ensures WellFormed(TickDelta(table, ids)) && Ordered(TickDelta(table, ids).items)
  {
    hide RunFits, TickChunk, TickRecord;
    var d := TickDelta(table, ids);
    TickItems(table, ids);
    OrderedIsGrouped(d.items);
    TickLookup(table, ids, 0);
    forall e | e in d.entities ensures RunFits(e, Of(d.items, e.id)) {
      LookupMember(d.entities, e);
      TickLookup(table, ids, e.id);
      TickOf(table, ids, e.id);
      ChunkFits(table, e.id);
    }
    forall i | 0 <= i < |d.items| ensures Lookup(d.entities, d.items[i].entity).Some? {
      TickLookup(table, ids, d.items[i].entity);
    }
  }

  lemma TickTouch(published: World, table: Table, id: nat)
    requires id in table && table[id].fields != [] && Flagged(published, table, id)
    ensures var e := table[id];
            var c := Touch(e.typ, |e.fields|, RecordOf(id, e).full, Fields(TickChunk(table, id)));
            Applicable(c, Get(published, id)) && Apply(c, Get(published, id)) == Some(ImageOf(e))
  {
    var e := table[id];
    UpdatedItemsFull(id, e.fields, 0);
    var c := Touch(e.typ, |e.fields|, RecordOf(id, e).full, Fields(TickChunk(table, id)));
    var r := Apply(c, Get(published, id)).value;
    forall k: nat | k < |e.fields| ensures r.fields[k] == Images(e)[k] {
      UpdatedItemsFields(id, e.fields, 0, k);
    }
    assert r.fields == Images(e);
  }

  lemma TickChange(table: Table, ids: seq<nat>, id: nat)
    requires Increasing(ids) && forall x | x in ids && x in table :: table[x].fields != []
    ensures ChangeOf(TickDelta(table, ids), id) ==
            if id !in ids then Keep else if id !in table then Remove
            else Touch(table[id].typ, |table[id].fields|, RecordOf(id, table[id]).full, Fields(TickChunk(table, id)))
  {
    TickLookup(table, ids, id);
    TickOf(table, ids, id);
  }

  /** The tick's delta takes the published world to the one the table now means. */
  lemma TickStep(published: World, table: Table, ids: seq<nat>)
    requires Increasing(ids) && forall id | id in ids && id in table :: table[id].fields != []
    requires forall id | id in ids :: Flagged(published, table, id)
    requires forall id: nat | id !in ids :: Get(published, id) == Get(ImageWorld(table), id)
    ensures Step(TickDelta(table, ids), published, ImageWorld(table))
  {
    hide Flagged, TickDelta, ChangeOf, TickChunk;
    forall id: nat
      ensures Applicable(ChangeOf(TickDelta(table, ids), id), Get(published, id)) &&
              Apply(ChangeOf(TickDelta(table, ids), id), Get(published, id)) == Get(ImageWorld(table), id)
    {
      TickChange(table, ids, id);
      if id in ids && id in table {
        TickTouch(published, table, id);
      }
    }
  }

  // ---------------------------------------------------------------- sorting the updated ids

  function Insert(s: seq<nat>, x: nat): seq<nat>
  {
    if s == [] || x <= s[0] then [x] + s else [s[0]] + Insert(s[1..], x)
  }

  /** sort(updated_entities.begin(), updated_entities.end()) */
  function Sort(s: seq<nat>): seq<nat>
  {
    if s == [] then [] else Insert(Sort(s[1..]), s[0])
  }

  ghost predicate Distinct(s: seq<nat>)
  {
    forall i, j | 0 <= i < j < |s| :: s[i] != s[j]
  }

  /** One more id keeps a list free of repeats exactly when the list does not name it yet. */
  lemma OneMoreDistinct(s: seq<nat>, id: nat)
    ensures Distinct(s + [id]) <==> Distinct(s) && id !in s
  {
    var t := s + [id];
    if Distinct(t) {
      assert forall i, j | 0 <= i < j < |s| :: t[i] == s[i] && t[j] == s[j];
      forall i | 0 <= i < |s| ensures s[i] != id {
        assert t[i] != t[|s|];
      }
    }
  }

  lemma PrependId(x: nat, rest: seq<nat>)
    requires Increasing(rest) && forall y | y in rest :: x < y
    ensures Increasing([x] + rest)
  {
    forall i, j | 0 <= i < j < |[x] + rest| ensures ([x] + rest)[i] < ([x] + rest)[j] {
      assert rest[j - 1] in rest;
    }
  }

  lemma {:induction false} InsertIncreasing(s: seq<nat>, x: nat)
    requires Increasing(s) && x !in s
    ensures Increasing(Insert(s, x)) && forall y: nat :: y in Insert(s, x) <==> y == x || y in s
  {
    if s == [] || x <= s[0] {
      PrependId(x, s);
    } else {
      InsertIncreasing(s[1..], x);
      assert s == [s[0]] + s[1..];
      assert forall y | y in s[1..] :: s[0] < y;
      PrependId(s[0], Insert(s[1..], x));
    }
  }

  lemma {:induction false} SortIncreasing(s: seq<nat>)
    requires Distinct(s)
    ensures Increasing(Sort(s)) && forall y: nat :: y in Sort(s) <==> y in s
  {
    if s != [] {
      SortIncreasing(s[1..]);
      InsertIncreasing(Sort(s[1..]), s[0]);
      assert s == [s[0]] + s[1..];
    }
  }

  // ---------------------------------------------------------------- the full copy, entity by entity

  /** The published world with the ids' entities as the table has them. */
  ghost function Patched(published: World, table: Table, ids: seq<nat>): World
  {
    if ids == [] then published
    else
      var n := |ids| - 1;
      var w := Patched(published, table, ids[..n]);
      if ids[n] in table then w[ids[n] := ImageOf(table[ids[n]])] else w - {ids[n]}
  }

  lemma {:induction false} PatchedGet(published: World, table: Table, ids: seq<nat>, id: nat)
    ensures Get(Patched(published, table, ids), id) ==
            if id in ids then Get(ImageWorld(table), id) else Get(published, id)
  {
    if ids != [] {
      var n := |ids| - 1;
      assert ids == ids[..n] + [ids[n]];
      PatchedGet(published, table, ids[..n], id);
    }
  }

  lemma PutRepresents(edata: seq<EntityData>, w: World, ed: EntityData, e: Entity)
    requires RepresentsWorld(edata, w) && Represents(ed, e)
    ensures RepresentsWorld(Put(edata, ed), w[ed.eid := e])
  {
    hide Represents, Put;
    PutFind(edata, ed, ed.eid);
    forall id: nat
      ensures match FindData(Put(edata, ed), id)
              case None => id !in w[ed.eid := e]
              case Some(x) => id in w[ed.eid := e] && Represents(x, w[ed.eid := e][id])
    {
      PutFind(edata, ed, id);
    }
  }

  lemma EraseRepresents(edata: seq<EntityData>, w: World, gone: nat)
    requires RepresentsWorld(edata, w)
    ensures RepresentsWorld(Erase(edata, gone), w - {gone})
  {
    hide Represents, Erase;
    EraseFind(edata, gone, gone);
    forall id: nat
      ensures match FindData(Erase(edata, gone), id)
              case None => id !in w - {gone}
              case Some(x) => id in w - {gone} && Represents(x, (w - {gone})[id])
    {
      EraseFind(edata, gone, id);
    }
  }

  /** The fields in front of one that has not been updated take as many bytes as they did: with
      fixed-size fields this is always so. */
  ghost predicate OffsetsKept(published: World, table: Table, id: nat)
  {
    id in table && id in published && |published[id].fields| == |table[id].fields| ==>
      forall i | 0 <= i < |table[id].fields| && !table[id].fields[i].updated ::
        PrefixKept(published[id].fields, Images(table[id]), i)
  }

  lemma FlaggedRefreshes(published: World, table: Table, id: nat)
    requires id in table && id in published && Flagged(published, table, id) && OffsetsKept(published, table, id)
    ensures Refreshes(published[id], table[id])
  {
  }

  // ---------------------------------------------------------------- the server

  /** clearEntityUpdated */
  function Cleared(e: ServerEntity): ServerEntity
  {
    ServerEntity(e.typ, seq(|e.fields|, i requires 0 <= i < |e.fields| => e.fields[i].(updated := false)), false)
  }

  ghost predicate Unflagged(table: Table, id: nat)
  {
    id in table ==> !table[id].marked && forall f | f in table[id].fields :: !f.updated
  }

  function ClearedTable(table: Table, ids: seq<nat>): Table
  {
    map id | id in table :: if id in ids then Cleared(table[id]) else table[id]
  }

  ghost predicate Recordable(published: World, table: Table, ids: seq<nat>)
  {
    && Increasing(ids)
    && (forall id | id in ids :: id < 65536 && Flagged(published, table, id) && OffsetsKept(published, table, id))
    && (forall id | id in table :: SaneEntity(id, table[id]))
  }

  class Server {
    var entities: Table
    var updatedEntities: seq<nat>
    const master: Snapshot
    /** The deltas of the last ticks. */
    const snaps: RingBuffer<Image>
    /** Every delta so far, the worlds they take an empty one through, and the last of those. */
    ghost var deltas: seq<Delta>
    /** The id of every tick so far. */
    ghost var ids: seq<nat>
    ghost var worlds: seq<World>
    ghost var published: World

    ghost function Repr(): set<object>
      reads this, master, master.buffer
    {
      {this, snaps, snaps.data} + master.Repr()
    }

    ghost predicate Valid()
      reads this, master, master.buffer, snaps, snaps.data
    {
      Current() && snaps.Valid() && Chronicle(deltas, worlds, published, snaps.Window()) && Remembered()
    }

    /** The ring is of the size it was given, and holds the last ticks under their ids. */
    ghost predicate Remembered()
      requires snaps.Valid()
      reads `ids, `deltas, snaps, snaps.data
    {
      snaps.data.Length == NUM_PAST_SNAPSHOTS && |ids| == |deltas| && Kept(ids, snaps.Window())
    }

    /** The full copy represents the published world, and every later change is listed. */
    ghost predicate Current()
      reads `updatedEntities, `entities, `published, master, master.buffer
    {
      && master.Valid() && RepresentsWorld(master.edata, published)
      && (forall id | id in entities :: SaneEntity(id, entities[id]))
      && (forall id | id in updatedEntities :: id < 65536)
      && (forall id | id in entities && entities[id].marked :: id in updatedEntities)
      && forall id: nat :: Tracked(id)
    }

    /** An id the tick will not look at is as published; one it will look at once is flagged. */
    ghost predicate Tracked(id: nat)
      reads `updatedEntities, `entities, `published
    {
      && (id !in updatedEntities ==> Get(published, id) == Get(ImageWorld(entities), id) && Unflagged(entities, id))
      && (multiset(updatedEntities)[id] == 1 ==> Flagged(published, entities, id))
    }

    constructor ()
      ensures Valid() && fresh(Repr()) && entities == map[] && updatedEntities == [] && published == map[]
      ensures deltas == [] && ids == []
    {
      hide Chronicle, Current, RingBuffer.Window, RingBuffer.Valid, Snapshot.Valid;
      entities, updatedEntities, published := map[], [], map[];
      deltas, ids, worlds := [], [], [map[]];
      master := new Snapshot(0);
      snaps := new RingBuffer(NUM_PAST_SNAPSHOTS, Image(0, [], [], []));
      new;
      ChronicleStarts();
      StartsCurrent();
    }

    lemma StartsCurrent()
      requires entities == map[] && updatedEntities == [] && published == map[] && master.Valid() && master.edata == []
      ensures Current()
    {
      hide RepresentsWorld;
      NothingRepresented();
      assert ImageWorld(entities) == map[];
      assert forall x: nat :: Tracked(x);
    }

    /** The id is one that entity_ids.acquire has just handed out; a new entity's fields are all flagged. */
    method RegisterEntity(id: nat, e: ServerEntity)
      requires Valid() && id !in entities && SaneEntity(id, e) && forall f | f in e.fields :: f.updated
      modifies this`entities, this`updatedEntities
      ensures Valid() && entities == old(entities)[id := e] && updatedEntities == old(updatedEntities) + [id]
      ensures Distinct(updatedEntities) <==> old(Distinct(updatedEntities)) && id !in old(updatedEntities)
    {
      hide Chronicle, RepresentsWorld;
      OneMoreDistinct(updatedEntities, id);
      entities := entities[id := e];
      updatedEntities := updatedEntities + [id];
      forall x: nat ensures Tracked(x) {
        assert old(Tracked(x));
      }
    }

    method UnregisterEntity(id: nat)
      requires Valid()
      modifies this`entities, this`updatedEntities
      ensures Valid() && entities == old(entities) - {id}
      ensures updatedEntities == if id in old(entities) then old(updatedEntities) + [id] else old(updatedEntities)
      ensures id in old(entities) ==>
                (Distinct(updatedEntities) <==> old(Distinct(updatedEntities)) && id !in old(updatedEntities))
    {
      hide Chronicle, RepresentsWorld, Distinct, RingBuffer.Window;
      OneMoreDistinct(updatedEntities, id);
      if id in entities {
        updatedEntities := updatedEntities + [id];
        entities := entities - {id};
        forall x: nat ensures Tracked(x) {
          assert old(Tracked(x));
        }
      }
    }

    method MarkEntityUpdated(id: nat)
      requires Valid() && id < 65536
      modifies this`updatedEntities
      ensures Valid()
      ensures updatedEntities == if id in old(updatedEntities) then old(updatedEntities) else old(updatedEntities) + [id]
      ensures Distinct(updatedEntities) <==> old(Distinct(updatedEntities))
    {
      hide Chronicle, RepresentsWorld, Distinct, RingBuffer.Window;
      OneMoreDistinct(updatedEntities, id);
      if id !in updatedEntities {
        updatedEntities := updatedEntities + [id];
        forall x: nat ensures Tracked(x) {
          assert old(Tracked(x));
        }
      }
    }

    /** Field::operator=: a new value is stored, flagged, and reported to the server once. */
    method SetField(id: nat, k: nat, image: Bytes)
      requires Valid() && id in entities && k < |entities[id].fields|
      modifies this`entities, this`updatedEntities
      ensures Valid() && id in entities && entities == old(entities)[id := entities[id]]
      ensures ImageOf(entities[id]) == Entity(old(entities)[id].typ, Images(old(entities)[id])[k := image])
      ensures Distinct(updatedEntities) <==> old(Distinct(updatedEntities))
      ensures image != old(entities)[id].fields[k].image ==> id in updatedEntities
    {
      hide Chronicle, RepresentsWorld, Distinct, RingBuffer.Window, Tracked, Unflagged;
      var e := entities[id];
      if e.fields[k].image != image {
        if !e.marked {
          MarkEntityUpdated(id);
        }
        StoreField(id, k, image);
      }
      assert Images(e)[k := e.fields[k].image] == Images(e);
    }

    /** data = other, with both updated flags set: the field's and the entity's. */
    method StoreField(id: nat, k: nat, image: Bytes)
      requires Valid() && id in entities && k < |entities[id].fields| && id in updatedEntities
      modifies this`entities
      ensures Valid() && id in entities && entities == old(entities)[id := entities[id]]
      ensures ImageOf(entities[id]) == Entity(old(entities)[id].typ, Images(old(entities)[id])[k := image])
    {
      hide Chronicle, RepresentsWorld, Distinct, RingBuffer.Window;
      var e := entities[id];
      entities := entities[id := ServerEntity(e.typ, e.fields[k := FieldState(true, image)], true)];
      forall x: nat ensures Tracked(x) {
        assert old(Tracked(x));
      }
      assert Images(entities[id]) == Images(e)[k := image];
    }

    /** The tick: one new delta, the full copy brought up to date, and every flag cleared. The new
        delta takes the published world to what the table means, and the full copy represents it;
        the history and the ring have that delta as their newest. */
    method Tick(delta: DeltaSnapshot, timer: nat)
      requires Valid() && delta.Valid() && delta.Repr() !! Repr() && Distinct(updatedEntities)
      requires forall id | id in updatedEntities :: OffsetsKept(published, entities, id)
      modifies Repr(), delta.Repr()
      ensures Valid() && delta.Valid() && updatedEntities == []
      ensures published == ImageWorld(entities) == ImageWorld(old(entities))
      ensures WellFormed(delta.View()) && Ordered(delta.View().items)
      ensures Step(delta.View(), old(published), published) && delta.id == timer / 1000 % 65536 == master.id
      ensures deltas == old(deltas) + [delta.View()] && worlds == old(worlds) + [published]
      ensures ids == old(ids) + [delta.id]
    {
      hide Chronicle, Current, RepresentsWorld, Step, Flagged, OffsetsKept, Kept;
      ghost var was := published;
      MakeDelta(delta, timer);
      RecordTick(delta, was);
    }

    /** The delta goes into the ring. */
    method RecordTick(delta: DeltaSnapshot, ghost was: World)
      requires Current() && snaps.Valid() && Chronicle(deltas, worlds, was, snaps.Window()) && Remembered()
      requires delta.Valid() && delta.Repr() !! Repr() && delta.id < 65536
      requires WellFormed(delta.View()) && Ordered(delta.View().items) && Step(delta.View(), was, published)
      modifies this`deltas, this`ids, this`worlds, snaps, snaps.data
      ensures Valid() && delta.Valid() && delta.View() == old(delta.View()) && ids == old(ids) + [delta.id]
      ensures deltas == old(deltas) + [delta.View()] && worlds == old(worlds) + [published]
    {
      hide Chronicle, Current, RepresentsWorld, Step, RingBuffer.Window, WellFormed, Ordered, Kept;
      var image := delta.ToImage();
      KeptGrows(ids, snaps.Window(), image);
      snaps.Push(image);
      ChronicleGrows(deltas, worlds, was, old(snaps.Window()), image, published, snaps.Window());
      deltas, ids, worlds := deltas + [delta.View()], ids + [delta.id], worlds + [published];
    }

    method MakeDelta(delta: DeltaSnapshot, timer: nat)
      requires Current() && delta.Valid() && delta.Repr() !! Repr() && Distinct(updatedEntities)
      requires forall id | id in updatedEntities :: OffsetsKept(published, entities, id)
      modifies this`entities, this`updatedEntities, this`published, master.Repr(), delta.Repr()
      ensures Current() && delta.Valid() && updatedEntities == []
      ensures fresh(master.Repr() - old(master.Repr())) && fresh(delta.Repr() - old(delta.Repr())) && delta.Repr() !! Repr()
      ensures published == ImageWorld(entities) == ImageWorld(old(entities))
      ensures WellFormed(delta.View()) && Ordered(delta.View().items)
      ensures Step(delta.View(), old(published), published) && delta.id == timer / 1000 % 65536 == master.id
    {
      hide Flagged, OffsetsKept, RepresentsWorld, TickDelta, Patched, ClearedTable, ImageWorld, WellFormed, Ordered, Step,
        Recordable, Tracked, Snapshot.Valid;
      ghost var table, was := entities, published;
      SortIncreasing(updatedEntities);
      var ids := Sort(updatedEntities);
      ChangesFlagged(ids);
      AllRecordable(ids);
      FillDelta(delta, timer, ids);
      TickWellFormed(table, ids);
      TickStep(was, table, ids);
      Settle(table, ids);
    }

    method FillDelta(delta: DeltaSnapshot, timer: nat, ids: seq<nat>)
      requires delta.Valid() && delta.Repr() !! Repr() && Recordable(published, entities, ids)
      requires master.Valid() && RepresentsWorld(master.edata, published)
      modifies this`entities, master.Repr(), delta.Repr()
      ensures master.Valid() && delta.Valid() && delta.Repr() !! Repr()
      ensures fresh(master.Repr() - old(master.Repr())) && fresh(delta.Repr() - old(delta.Repr()))
      ensures delta.id == timer / 1000 % 65536 == master.id && entities == ClearedTable(old(entities), ids)
      ensures RepresentsWorld(master.edata, Patched(published, old(entities), ids))
      ensures delta.View() == TickDelta(old(entities), ids)
    {
      hide Recordable, RepresentsWorld, TickDelta, Patched, ClearedTable, Snapshot.Valid;
      StartDelta(delta, timer);
      RecordAll(delta, ids);
      assert ids[..|ids|] == ids;
    }

    method StartDelta(delta: DeltaSnapshot, timer: nat)
      requires master.Valid() && delta.Valid() && delta.Repr() !! Repr()
      modifies master`id, delta.Repr()
      ensures master.Valid() && delta.Valid() && delta.Repr() == old(delta.Repr()) && master.edata == old(master.edata)
      ensures delta.View() == EMPTY_DELTA && delta.id == timer / 1000 % 65536 == master.id
    {
      delta.Reset();
      delta.id := timer / 1000 % 65536;
      master.id := timer / 1000 % 65536;
    }

    /** updated_entities.clear() */
    method Settle(ghost table: Table, ghost ids: seq<nat>)
      requires master.Valid() && RepresentsWorld(master.edata, Patched(published, table, ids))
      requires entities == ClearedTable(table, ids) && forall id | id in table :: SaneEntity(id, table[id])
      requires forall id: nat | id !in ids :: Get(published, id) == Get(ImageWorld(table), id) && Unflagged(table, id)
      modifies this`updatedEntities, this`published
      ensures Current() && updatedEntities == [] && published == ImageWorld(entities) == ImageWorld(table)
    {
      hide RepresentsWorld, Patched, Flagged, ImageWorld;
      PatchedAll(published, table, ids);
      ClearedMeans(table, ids);
      ClearedFlags(table, ids);
      published := ImageWorld(entities);
      updatedEntities := [];
      assert forall x: nat :: Tracked(x);
    }

    /** One changed entity, in the full copy and in the delta. */
    method RecordEntity(delta: DeltaSnapshot, id: nat, ghost w: World)
      requires master.Valid() && RepresentsWorld(master.edata, w) && id < 65536
      requires delta.Valid() && delta.Repr() !! Repr() && Lookup(delta.entities, id).None?
      requires id in entities ==> SaneEntity(id, entities[id])
      requires id in entities && id in w ==> Refreshes(w[id], entities[id])
      requires id in entities && id !in w ==> forall f | f in entities[id].fields :: f.updated
      modifies this`entities, master.Repr(), delta.Repr()
      ensures master.Valid() && delta.Valid() && delta.Repr() !! Repr()
      ensures fresh(Repr() - old(Repr())) && fresh(delta.Repr() - old(delta.Repr()))
      ensures delta.id == old(delta.id) && master.id == old(master.id)
      ensures entities == if id in old(entities) then old(entities)[id := Cleared(old(entities)[id])] else old(entities)
      ensures RepresentsWorld(master.edata, if id in entities then w[id := ImageOf(old(entities)[id])] else w - {id})
      ensures delta.View() == Delta(old(delta.View()).entities + [TickRecord(old(entities), id)],
                                    old(delta.View()).items + TickChunk(old(entities), id))
    {
      hide RepresentsWorld, Refreshes, UpdatedItems, RecordOf, ImageOf, Cleared, Snapshot.Valid;
      RecordMaster(id, w);
      RecordDelta(delta, id);
    }

    method RecordDelta(delta: DeltaSnapshot, id: nat)
      requires delta.Valid() && delta.Repr() !! Repr() && Lookup(delta.entities, id).None? && id < 65536
      requires id in entities ==> SaneEntity(id, entities[id])
      modifies this`entities, delta.Repr()
      ensures delta.Valid() && delta.Repr() !! Repr() && fresh(delta.Repr() - old(delta.Repr())) && delta.id == old(delta.id)
      ensures entities == if id in old(entities) then old(entities)[id := Cleared(old(entities)[id])] else old(entities)
      ensures delta.View() == Delta(old(delta.View()).entities + [TickRecord(old(entities), id)],
                                    old(delta.View()).items + TickChunk(old(entities), id))
    {
      hide UpdatedItems, RecordOf, Cleared, DeltaSnapshot.Valid;
      if id in entities {
        delta.AddEntity(id, entities[id]);
        entities := entities[id := Cleared(entities[id])];
      } else {
        delta.RemoveEntityById(id);
      }
    }

    method RecordMaster(id: nat, ghost w: World)
      requires master.Valid() && RepresentsWorld(master.edata, w) && id < 65536
      requires id in entities ==> SaneEntity(id, entities[id])
      requires id in entities && id in w ==> Refreshes(w[id], entities[id])
      requires id in entities && id !in w ==> forall f | f in entities[id].fields :: f.updated
      modifies master.Repr()
      ensures master.Valid() && fresh(master.Repr() - old(master.Repr())) && master.id == old(master.id)
      ensures RepresentsWorld(master.edata, if id in entities then w[id := ImageOf(entities[id])] else w - {id})
    {
      hide Put, Erase, Refreshes, Represents, Rewritten;
      if id in entities {
        var e := entities[id];
        ghost var found := FindData(master.edata, id);
        RefreshedRight(found, Get(w, id), id, e);
        master.AddEntity(id, e);
        PutRepresents(old(master.edata), w, Rewritten(found, id, e).value, ImageOf(e));
      } else {
        EraseRepresents(master.edata, w, id);
        master.RemoveEntityById(id);
      }
    }

    /** The first i ids are recorded in the full copy and in the delta, and their flags cleared. */
    ghost predicate Recorded(delta: DeltaSnapshot, table: Table, ids: seq<nat>, i: nat)
      requires i <= |ids|
      reads this, master, master.buffer, delta, delta.fieldData, delta.buffer, delta.Repr()
    {
      && master.Valid() && delta.Valid() && delta.Repr() !! Repr()
      && entities == ClearedTable(table, ids[..i])
      && RepresentsWorld(master.edata, Patched(published, table, ids[..i]))
      && delta.View() == TickDelta(table, ids[..i])
    }

    method RecordNext(delta: DeltaSnapshot, ghost table: Table, ids: seq<nat>, i: nat)
      requires i < |ids| && Recordable(published, table, ids) && Recorded(delta, table, ids, i)
      modifies this`entities, master.Repr(), delta.Repr()
      ensures fresh(Repr() - old(Repr())) && fresh(delta.Repr() - old(delta.Repr()))
      ensures delta.id == old(delta.id) && master.id == old(master.id)
      ensures Recorded(delta, table, ids, i + 1)
    {
      hide Flagged, OffsetsKept, Patched, TickDelta, RepresentsWorld, TickChunk, TickRecord, ClearedTable, SaneEntity;
      RecordReady(published, table, ids, i);
      RecordStep(published, table, ids, i);
      SameChunk(table, entities, ids[i]);
      RecordEntity(delta, ids[i], Patched(published, table, ids[..i]));
    }

    /** The tick's loop over the sorted ids. */
    method RecordAll(delta: DeltaSnapshot, ids: seq<nat>)
      requires delta.Valid() && delta.Repr() !! Repr() && delta.View() == EMPTY_DELTA && Recordable(published, entities, ids)
      requires master.Valid() && RepresentsWorld(master.edata, published)
      modifies this`entities, master.Repr(), delta.Repr()
      ensures fresh(Repr() - old(Repr())) && fresh(delta.Repr() - old(delta.Repr()))
      ensures delta.id == old(delta.id) && master.id == old(master.id)
      ensures Recorded(delta, old(entities), ids, |ids|)
    {
      hide Recordable, Flagged, OffsetsKept, Patched, TickDelta, RepresentsWorld, ClearedTable;
      ghost var table := entities;
      RecordNothing(published, table);
      for i := 0 to |ids|
        invariant fresh(Repr() - old(Repr())) && fresh(delta.Repr() - old(delta.Repr()))
        invariant delta.id == old(delta.id) && master.id == old(master.id)
        invariant Recordable(published, table, ids) && Recorded(delta, table, ids, i)
      {
        RecordNext(delta, table, ids, i);
      }
    }

    /** One read of the full copy brings an empty client exactly where replaying the delta of every
        tick so far would. */
    lemma ReadsAsReplay(schema: Schema, vs: seq<World>, buf: Bytes, pos: nat)
      requires Valid() && Registered(schema, published) && Replay(deltas, vs)
      requires pos <= |buf| && At(buf, pos, MasterBytes(master.edata))
      ensures ReadSnapshot(schema, buf, pos, map[]) == Done(vs[|deltas|], pos + |MasterBytes(master.edata)|)
    {
      hide ReadSnapshot, MasterBytes, RepresentsWorld, Registered, Tracked;
      HistoryReplays(deltas, worlds);
      MasterReadsAsReplay(schema, master.edata, deltas, worlds, vs, buf, pos);
    }

    /** The ring holds the newest deltas of the history, up to 31 of them, between the newest worlds and
        under the ids of their ticks. */
    lemma RingIsRecent()
      requires Valid()
      ensures var w, n := snaps.Window(), |deltas|;
              |w| == (if n < 32 then n else 31) && n == |worlds| - 1 && Records(w, worlds[n - |w|..]) && worlds[n] == published && Kept(ids, w)
    {
      hide Current, History, Records, RingBuffer.Window;
      ChronicleEnds(deltas, worlds, published, snaps.Window());
      RingRecords(deltas, worlds, published, snaps.Window());
    }

    lemma AllRecordable(ids: seq<nat>)
      requires Current() && Increasing(ids) && forall y: nat :: y in ids <==> y in updatedEntities
      requires forall id | id in updatedEntities :: OffsetsKept(published, entities, id)
      requires forall id | id in ids :: Flagged(published, entities, id)
      ensures Recordable(published, entities, ids)
      ensures forall id | id in ids && id in entities :: entities[id].fields != []
    {
      hide Flagged, OffsetsKept, Tracked, RepresentsWorld;
    }

    lemma ChangesFlagged(ids: seq<nat>)
      requires Current() && Distinct(updatedEntities) && forall y: nat :: y in ids <==> y in updatedEntities
      ensures forall id | id in ids :: Flagged(published, entities, id)
      ensures forall id: nat | id !in ids ::
                Get(published, id) == Get(ImageWorld(entities), id) && Unflagged(entities, id)
    {
      hide Flagged;
      forall id | id in ids ensures Flagged(published, entities, id) {
        OnceEach(updatedEntities, id);
        assert Tracked(id);
      }
      forall id: nat | id !in ids
        ensures Get(published, id) == Get(ImageWorld(entities), id) && Unflagged(entities, id)
      {
        assert Tracked(id);
      }
    }
  }

  lemma NothingRepresented()
    ensures RepresentsWorld([], map[])
  {
  }

  lemma HistoryReplays(ds: seq<Delta>, ws: seq<World>)
    requires History(ds, ws) && ws[0] == map[]
    ensures Replay(ds, ws)
  {
  }

  lemma RecordNothing(published: World, table: Table)
    ensures Patched(published, table, []) == published && TickDelta(table, []) == EMPTY_DELTA
    ensures ClearedTable(table, []) == table
  {
  }

  /** Before the i-th id its entity is as the tick found it, in all three places. */
  lemma RecordReady(published: World, table: Table, ids: seq<nat>, i: nat)
    requires Increasing(ids) && i < |ids| && Flagged(published, table, ids[i]) && OffsetsKept(published, table, ids[i])
    ensures var id, cur, w := ids[i], ClearedTable(table, ids[..i]), Patched(published, table, ids[..i]);
            && (id in cur <==> id in table)
            && (id in table ==> cur[id] == table[id])
            && (id in table && id in w ==> Refreshes(w[id], table[id]))
            && (id in table && id !in w ==> forall f | f in table[id].fields :: f.updated)
            && Lookup(TickDelta(table, ids[..i]).entities, id).None?
  {
    hide Refreshes;
    var id := ids[i];
    assert id !in ids[..i];
    PatchedGet(published, table, ids[..i], id);
    TickLookup(table, ids[..i], id);
    if id in table && id in published {
      FlaggedRefreshes(published, table, id);
    }
  }

  lemma RecordStep(published: World, table: Table, ids: seq<nat>, i: nat)
    requires Increasing(ids) && i < |ids|
    ensures var id, cur, w := ids[i], ClearedTable(table, ids[..i]), Patched(published, table, ids[..i]);
            var d := TickDelta(table, ids[..i]);
            && ClearedTable(table, ids[..i + 1]) == (if id in table then cur[id := Cleared(table[id])] else cur)
            && Patched(published, table, ids[..i + 1]) == (if id in table then w[id := ImageOf(table[id])] else w - {id})
            && TickDelta(table, ids[..i + 1]) ==
               Delta(d.entities + [TickRecord(table, id)], d.items + TickChunk(table, id))
  {
    assert ids[..i + 1] == ids[..i] + [ids[i]];
    assert ids[..i + 1][..i] == ids[..i];
  }

  lemma SameChunk(table: Table, cur: Table, id: nat)
    requires id in cur <==> id in table
    requires id in table ==> cur[id] == table[id]
    ensures TickChunk(cur, id) == TickChunk(table, id) && TickRecord(cur, id) == TickRecord(table, id)
  {
  }

  lemma {:induction false} OnceEach(s: seq<nat>, x: nat)
    requires Distinct(s) && x in s
    ensures multiset(s)[x] == 1
  {
    assert s == [s[0]] + s[1..];
    if s[0] == x {
      assert x !in s[1..];
    } else {
      OnceEach(s[1..], x);
    }
  }

  lemma PatchedAll(published: World, table: Table, ids: seq<nat>)
    requires forall id: nat | id !in ids :: Get(published, id) == Get(ImageWorld(table), id)
    ensures Patched(published, table, ids) == ImageWorld(table)
  {
    forall id: nat ensures Get(Patched(published, table, ids), id) == Get(ImageWorld(table), id) {
      PatchedGet(published, table, ids, id);
    }
    SameWorld(Patched(published, table, ids), ImageWorld(table));
  }

  lemma ClearedFlags(table: Table, ids: seq<nat>)
    requires forall id | id in table :: SaneEntity(id, table[id])
    requires forall id: nat | id !in ids :: Unflagged(table, id)
    ensures forall id: nat :: Unflagged(ClearedTable(table, ids), id)
    ensures forall id | id in ClearedTable(table, ids) ::
              SaneEntity(id, ClearedTable(table, ids)[id]) && !ClearedTable(table, ids)[id].marked
  {
    forall id: nat ensures Unflagged(ClearedTable(table, ids), id) {
      assert id !in ids ==> Unflagged(table, id);
    }
    forall id | id in table && id !in ids ensures !table[id].marked {
      assert Unflagged(table, id);
    }
  }

  lemma ClearedMeans(table: Table, ids: seq<nat>)
    ensures ImageWorld(ClearedTable(table, ids)) == ImageWorld(table)
  {
    forall id | id in table ensures ImageOf(ClearedTable(table, ids)[id]) == ImageOf(table[id]) {
      assert Images(Cleared(table[id])) == Images(table[id]);
    }
  }

  // ---------------------------------------------------------------- creations

  /** A tick's record is full if and only if every field of the entity is flagged. */
  lemma RecordFullIff(id: nat, e: ServerEntity)
    requires e.fields != []
    ensures RecordOf(id, e).full <==> forall f | f in e.fields :: f.updated
  {
    UpdatedItemsFull(id, e.fields, 0);
    if forall k | 0 <= k < |e.fields| :: e.fields[k].updated {
      forall f | f in e.fields ensures f.updated {
      }
    }
  }

  /** So a client that does not hold the entity can create it from such a record if and only if it was
      registered with every field flagged; an entity whose flags a tick has cleared, registered again,
      is one that clients reject. */
  lemma CreatableIff(id: nat, e: ServerEntity, d: Delta)
    requires e.fields != [] && Lookup(d.entities, id) == Some(RecordOf(id, e))
    ensures Applicable(ChangeOf(d, id), None) <==> forall f | f in e.fields :: f.updated
    ensures !Applicable(ChangeOf(d, id), None) ==> IsPartial(RecordOf(id, e))
  {
    RecordFullIff(id, e);
  }

  lemma ClearedUncreatable(id: nat, e: ServerEntity, d: Delta)
    requires e.fields != [] && Lookup(d.entities, id) == Some(RecordOf(id, Cleared(e)))
    ensures !Applicable(ChangeOf(d, id), None)
  {
    CreatableIff(id, Cleared(e), d);
    assert Cleared(e).fields[0] in Cleared(e).fields;
  }

  // ---------------------------------------------------------------- ids listed twice

  /** The tick's demand is kept by every operation but the listing of an id that is listed already;
      three ways to do that between two ticks follow. A change, then unregistering: */
  method ChangeThenUnregister(s: Server, id: nat, k: nat, image: Bytes)
    requires s.Valid() && id in s.entities && k < |s.entities[id].fields| && image != s.entities[id].fields[k].image
    modifies s`entities, s`updatedEntities
    ensures s.Valid() && !Distinct(s.updatedEntities)
  {
    hide Server.Valid, Distinct, ImageOf;
    s.SetField(id, k, image);
    s.UnregisterEntity(id);
  }

  /** registering, then unregistering: */
  method RegisterThenUnregister(s: Server, id: nat, e: ServerEntity)
    requires s.Valid() && id !in s.entities && SaneEntity(id, e) && forall f | f in e.fields :: f.updated
    modifies s`entities, s`updatedEntities
    ensures s.Valid() && !Distinct(s.updatedEntities)
  {
    hide Server.Valid, Distinct, SaneEntity;
    s.RegisterEntity(id, e);
    s.UnregisterEntity(id);
  }

  /** unregistering, then registering another entity under the id, which is the least free one. */
  method UnregisterThenRegister(s: Server, id: nat, e: ServerEntity)
    requires s.Valid() && id in s.entities && SaneEntity(id, e) && forall f | f in e.fields :: f.updated
    modifies s`entities, s`updatedEntities
    ensures s.Valid() && !Distinct(s.updatedEntities)
  {
    hide Server.Valid, Distinct, SaneEntity;
    s.UnregisterEntity(id);
    s.RegisterEntity(id, e);
  }

  /** What the last of them costs. The tick records the new entity twice, and the second time with
      its flags already cleared: a record that is full, and behind it one that updates nothing. */
  lemma SecondRecordPartial(id: nat, e: ServerEntity)
    requires e.fields != [] && forall f | f in e.fields :: f.updated
    ensures RecordOf(id, e).full && !RecordOf(id, Cleared(e)).full && UpdatedItems(id, Cleared(e).fields, 0) == []
  {
    AllUpdated(id, e.fields, 0);
    NoneUpdated(id, Cleared(e).fields, 0);
  }

  lemma {:induction false} AllUpdated(id: nat, fields: seq<FieldState>, i: nat)
    requires i <= |fields| && forall f | f in fields :: f.updated
    ensures |UpdatedItems(id, fields, i)| == |fields| - i
    decreases |fields| - i
  {
    if i < |fields| {
      AllUpdated(id, fields, i + 1);
    }
  }

  lemma {:induction false} NoneUpdated(id: nat, fields: seq<FieldState>, i: nat)
    requires i <= |fields| && forall f | f in fields :: !f.updated
    ensures UpdatedItems(id, fields, i) == []
    decreases |fields| - i
  {
    if i < |fields| {
      NoneUpdated(id, fields, i + 1);
    }
  }

  /** The union of records keeps the second one, so the creation is lost. */
  lemma CreationLost(id: nat, e: ServerEntity)
    requires e.fields != [] && forall f | f in e.fields :: f.updated
    ensures Union([], [RecordOf(id, e), RecordOf(id, Cleared(e))]) == [RecordOf(id, Cleared(e))]
    ensures !RecordOf(id, Cleared(e)).full && RecordOf(id, Cleared(e)).numFields > 0
  {
    hide UpdatedItems, RecordOf, Cleared;
    SecondRecordPartial(id, e);
    SameId(id, e);
    UnionOfTwo(RecordOf(id, e), RecordOf(id, Cleared(e)));
  }

  lemma SameId(id: nat, e: ServerEntity)
    ensures RecordOf(id, e).id == RecordOf(id, Cleared(e)).id == id && RecordOf(id, Cleared(e)).numFields == |e.fields|
  {
    hide UpdatedItems;
  }

  lemma UnionOfTwo(a: EntityInfo, b: EntityInfo)
    requires a.id == b.id
    ensures Union([], [a, b]) == [b]
  {
    assert StableMerge([], [a, b]) == [a, b];
    assert [a, b][1..] == [b];
    assert KeepLast([b]) == [b];
    assert KeepLast([a, b]) == KeepLast([a, b][1..]);
  }
}
