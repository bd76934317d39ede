/** class DeltaSnapshot: entity and field records in vectors, the fields' bytes in one packet
    (src/nrg_deltasnapshot.cpp, include/nrg_snapshot.h:71-110). */
module DeltaSnapshots {
  import opened Packets
  import opened Varints
  import opened BitIO
  import opened Codecs
  import opened Deltas
  import opened Merges
  import opened SnapshotWire

  /** Where a field's bytes lie in the snapshot's data. */
  datatype FieldInfo = FieldInfo(entity: nat, number: nat, size: nat, offset: nat)

  predicate InBounds(fields: seq<FieldInfo>, n: nat)
  {
    forall i | 0 <= i < |fields| :: fields[i].offset + fields[i].size <= n
  }

  function ItemAt(f: FieldInfo, data: Bytes): Item
    requires f.offset + f.size <= |data|
  {
    Item(f.entity, f.number, data[f.offset..f.offset + f.size])
  }

  ghost predicate Lists(fields: seq<FieldInfo>, data: Bytes, items: Items)
    requires InBounds(fields, |data|)
  {
    |items| == |fields| && forall i | 0 <= i < |fields| :: items[i] == ItemAt(fields[i], data)
  }

  /** The items that field records stand for. */
  function ItemsOf(fields: seq<FieldInfo>, data: Bytes): (items: Items)
    requires InBounds(fields, |data|)
    ensures Lists(fields, data, items)
  {
    seq(|fields|, i requires 0 <= i < |fields| => ItemAt(fields[i], data))
  }

  /** What a `const DeltaSnapshot&` gives access to. */
  datatype Image = Image(id: nat, entities: seq<EntityInfo>, fields: seq<FieldInfo>, data: Bytes)
  {
    ghost predicate Valid()
    {
      InBounds(fields, |data|) && forall e | e in entities :: e.id < 65536 && e.typ < 65536
    }

    ghost function View(): Delta
      requires Valid()
    {
      Delta(entities, ItemsOf(fields, data))
    }
  }

  /** A field: its updated flag and the bytes it would write now. */
  datatype FieldState = FieldState(updated: bool, image: Bytes)

  /** A server-side entity: its fields, and whether it has reported itself to the server since the
      last tick. */
  datatype ServerEntity = ServerEntity(typ: nat, fields: seq<FieldState>, marked: bool)

  /** The items a tick records for an entity, from field i on. */
  function UpdatedItems(id: nat, fields: seq<FieldState>, i: nat): Items
    requires i <= |fields|
    decreases |fields| - i
  {
    if i == |fields| then []
    else (if fields[i].updated then [Item(id, i, fields[i].image)] else []) + UpdatedItems(id, fields, i + 1)
  }

  function RecordOf(id: nat, e: ServerEntity): EntityInfo
  {
    EntityInfo(|e.fields|, id, e.typ, |UpdatedItems(id, e.fields, 0)| == |e.fields|)
  }

  lemma ItemsOfGrows(fields: seq<FieldInfo>, data: Bytes, more: Bytes)
    requires InBounds(fields, |data|)
    ensures InBounds(fields, |data + more|) && ItemsOf(fields, data + more) == ItemsOf(fields, data)
  {
    forall i | 0 <= i < |fields| ensures ItemAt(fields[i], data + more) == ItemAt(fields[i], data) {
      var f := fields[i];
      assert (data + more)[f.offset..f.offset + f.size] == data[f.offset..f.offset + f.size];
    }
  }

  /** Appending a record whose bytes have just been appended to the data. */
  lemma ItemsOfAppend(fields: seq<FieldInfo>, data: Bytes, f: FieldInfo, bytes: Bytes)
    requires InBounds(fields, |data|) && f.offset == |data| && f.size == |bytes|
    ensures InBounds(fields + [f], |data + bytes|)
    ensures ItemsOf(fields + [f], data + bytes) == ItemsOf(fields, data) + [Item(f.entity, f.number, bytes)]
  {
    ItemsOfGrows(fields, data, bytes);
    assert (data + bytes)[f.offset..f.offset + f.size] == bytes;
  }

  lemma {:induction false} CountsAppend(es: seq<EntityInfo>, e: EntityInfo)
    ensures var c, r := CountOf(e), ExactCounts(es);
            ExactCounts(es + [e]) == Counts(r.del + c.del, r.full + c.full, r.upd + c.upd)
  {
    if es == [] {
      assert [] + [e] == [e] && [e][1..] == [];
    } else {
      assert (es + [e])[1..] == es[1..] + [e];
      CountsAppend(es[1..], e);
    }
  }

  // ---------------------------------------------------------------- searches over the records

  /** find(fields.begin(), fields.end(), eid) */
  method FindField(fields: seq<FieldInfo>, data: Bytes, ghost items: Items, eid: nat) returns (k: nat)
    requires InBounds(fields, |data|) && Lists(fields, data, items)
    ensures k == Find(items, eid, 0)
  {
    k := 0;
    while k < |fields| && fields[k].entity != eid
      invariant k <= |fields|
      invariant Find(items, eid, k) == Find(items, eid, 0)
    {
      k := k + 1;
    }
  }

  /** lower_bound(fields.begin(), fields.end(), eid) */
  method LowerBoundField(fields: seq<FieldInfo>, data: Bytes, ghost items: Items, eid: nat) returns (k: nat)
    requires InBounds(fields, |data|) && Lists(fields, data, items)
    ensures k == LowerBound(items, eid, 0, |fields|)
  {
    hide LowerBound;
    var len: nat := |fields|;
    k := 0;
    while len > 0
      invariant k + len <= |items|
      invariant LowerBound(items, eid, k, k + len) == LowerBound(items, eid, 0, |fields|)
      decreases len
    {
      var half := len / 2;
      HalvingTurn(items, eid, k, len);
      if fields[k + half].entity < eid {
        k, len := k + half + 1, len - half - 1;
      } else {
        len := half;
      }
    }
  }

  lemma HalvingTurn(items: Items, eid: nat, k: nat, len: nat)
    requires 0 < len && k + len <= |items|
    ensures var half := len / 2;
            LowerBound(items, eid, k, k + len) ==
            if items[k + half].entity < eid then LowerBound(items, eid, k + half + 1, k + len)
            else LowerBound(items, eid, k, k + half)
  {
  }

  // ---------------------------------------------------------------- one turn of the merge loop

  lemma RunsExhausted(fields: seq<FieldInfo>, data: Bytes, k: nat, items: Items, eid: nat)
    requires InBounds(fields, |data|) && Lists(fields, data, items)
    requires k < |fields| ==> fields[k].entity != eid
    ensures !OnRun(items, k, eid)
  {
  }

  lemma Reassociate(g: Items, x: Item, rest: Items)
    ensures g + ([x] + rest) == g + [x] + rest
  {
  }

  predicate OnRun(items: Items, k: nat, eid: nat)
  {
    k < |items| && items[k].entity == eid
  }

  predicate TakesNewer(older: Items, i: nat, newer: Items, j: nat, eid: nat)
  {
    !OnRun(older, i, eid) || (OnRun(newer, j, eid) && newer[j].number <= older[i].number)
  }

  lemma MergeRunsTurn(older: Items, i: nat, newer: Items, j: nat, eid: nat)
    requires i <= |older| && j <= |newer|
    ensures !OnRun(older, i, eid) && !OnRun(newer, j, eid) ==>
              MergeRuns(RunAt(older, i, eid), RunAt(newer, j, eid)) == []
    ensures (OnRun(older, i, eid) || OnRun(newer, j, eid)) && TakesNewer(older, i, newer, j, eid) ==>
              var i' := if OnRun(older, i, eid) && newer[j].number == older[i].number then i + 1 else i;
              MergeRuns(RunAt(older, i, eid), RunAt(newer, j, eid)) ==
              [newer[j]] + MergeRuns(RunAt(older, i', eid), RunAt(newer, j + 1, eid))
    ensures (OnRun(older, i, eid) || OnRun(newer, j, eid)) && !TakesNewer(older, i, newer, j, eid) ==>
              MergeRuns(RunAt(older, i, eid), RunAt(newer, j, eid)) ==
              [older[i]] + MergeRuns(RunAt(older, i + 1, eid), RunAt(newer, j, eid))
  {
  }

  // ---------------------------------------------------------------- the class

  class DeltaSnapshot {
    var id: nat
    var entities: seq<EntityInfo>
    var fields: seq<FieldInfo>
    var tmpFields: seq<FieldInfo>
    var fullCount: nat
    var delCount: nat
    var updCount: nat
    const fieldData: Packet
    const buffer: Packet

    ghost function Repr(): set<object>
      reads this, fieldData, buffer
    {
      {this} + fieldData.Repr() + buffer.Repr()
    }

    ghost predicate Valid()
      reads this, fieldData, buffer
    {
      && fieldData.Valid() && buffer.Valid() && fieldData != buffer && fieldData.data != buffer.data
      && fieldData.pos == fieldData.used && InBounds(fields, fieldData.used)
      && forall e | e in entities :: e.id < 65536 && e.typ < 65536
    }

    ghost function View(): Delta
      requires Valid()
      reads this, fieldData, buffer, Repr()
    {
      Delta(entities, ItemsOf(fields, fieldData.Contents()))
    }

    function Counted(): Counts
      reads this
    {
      Counts(delCount, fullCount, updCount)
    }

    /** The snapshot as others see it through a const reference. */
    function ToImage(): (image: Image)
      requires Valid()
      reads this, fieldData, buffer, Repr()
      ensures image.Valid() && image.id == id && image.View() == View()
    {
      Image(id, entities, fields, fieldData.Peek(0, fieldData.used))
    }

    constructor (i: nat)
      ensures Valid() && fresh(Repr()) && id == i && View() == EMPTY_DELTA && Counted() == Counts(0, 0, 0)
    {
      id, fullCount, delCount, updCount := i, 0, 0, 0;
      entities, fields, tmpFields := [], [], [];
      fieldData := new Packet(MAX_PACKET_SIZE);
      buffer := new Packet(MAX_PACKET_SIZE);
    }

    /** Empties the records and the data but leaves the three counts as they were. */
    method Reset()
      requires Valid()
      modifies Repr()
      ensures Valid() && Repr() == old(Repr())
      ensures View() == EMPTY_DELTA && id == 0 && Counted() == old(Counted())
    {
      entities, fields := [], [];
      fieldData.Reset();
      id := 0;
    }

    /** Records every updated field of an entity that is not recorded yet. */
    method AddEntity(eid: nat, e: ServerEntity)
      requires Valid() && Lookup(entities, eid).None? && eid < 65536 && e.typ < 65536
      modifies Repr()
      ensures Valid() && fresh(Repr() - old(Repr())) && id == old(id)
      ensures View().entities == old(View().entities) + [RecordOf(eid, e)]
      ensures View().items == old(View().items) + UpdatedItems(eid, e.fields, 0)
      ensures Counted() == if RecordOf(eid, e).full then old(Counted()).(full := old(fullCount) + 1)
                           else old(Counted()).(upd := old(updCount) + 1)
    {
      hide ItemsOf, InBounds;
      ghost var total := View().items + UpdatedItems(eid, e.fields, 0);
      var i, upd := 0, 0;
      while i < |e.fields|
        invariant i <= |e.fields| && Valid() && fresh(Repr() - old(Repr())) && id == old(id)
        invariant entities == old(entities) && Counted() == old(Counted())
        invariant upd + |UpdatedItems(eid, e.fields, i)| == |UpdatedItems(eid, e.fields, 0)|
        invariant View().items + UpdatedItems(eid, e.fields, i) == total
      {
        var f := e.fields[i];
        i := i + 1;
        if f.updated {
          upd := upd + 1;
          Reassociate(View().items, Item(eid, i - 1, f.image), UpdatedItems(eid, e.fields, i));
          RecordField(eid, i - 1, f.image);
        }
      }
      var record := EntityInfo(|e.fields|, eid, e.typ, upd == |e.fields|);
      entities := entities + [record];
      if record.full {
        fullCount := fullCount + 1;
      } else {
        updCount := updCount + 1;
      }
    }

    /** Writes one field's bytes to the data and records where they are. */
    method RecordField(eid: nat, number: nat, image: Bytes)
      requires Valid()
      modifies this`fields, fieldData.Repr()
      ensures Valid() && fresh(Repr() - old(Repr()))
      ensures View().items == old(View().items) + [Item(eid, number, image)]
    {
      hide ItemsOf;
      var info := FieldInfo(eid, number, |image|, fieldData.pos);
      ItemsOfAppend(fields, fieldData.Contents(), info, image);
      fieldData.WriteArray(image);
      fields := fields + [info];
    }

    method RemoveEntityById(eid: nat)
      requires Valid() && Lookup(entities, eid).None? && eid < 65536
      modifies this
      ensures Valid() && id == old(id)
      ensures View() == Delta(old(View().entities) + [EntityInfo(0, eid, 0, false)], old(View().items))
      ensures Counted() == old(Counted()).(del := old(delCount) + 1)
    {
      entities := entities + [EntityInfo(0, eid, 0, false)];
      delCount := delCount + 1;
    }

    // -------------------------------------------------------------- merging

    /** The items gathered so far in tmpFields and buffer. */
    ghost predicate Gathering()
      reads this, fieldData, buffer
    {
      Valid() && buffer.pos == buffer.used && InBounds(tmpFields, buffer.used)
    }

    ghost function Gathered(): Items
      requires Gathering()
      reads this, fieldData, buffer, Repr()
    {
      ItemsOf(tmpFields, buffer.Contents())
    }

    /** What stays put while items are gathered. */
    twostate predicate OnlyGathers()
      reads this, fieldData, buffer, fieldData.data
    {
      && id == old(id) && entities == old(entities) && fields == old(fields) && Counted() == old(Counted())
      && old(fieldData.Valid()) && fieldData.Valid() && fieldData.data == old(fieldData.data)
      && fieldData.Contents() == old(fieldData.Contents()) && fieldData.pos == old(fieldData.pos)
    }

    /** write_fn */
    method Gather(f: FieldInfo, data: Bytes)
      requires Gathering() && f.offset + f.size <= |data|
      modifies this`tmpFields, buffer.Repr()
      ensures Gathering() && OnlyGathers() && (buffer.data == old(buffer.data) || fresh(buffer.data))
      ensures Gathered() == old(Gathered()) + [ItemAt(f, data)]
    {
      var bytes, info := data[f.offset..f.offset + f.size], f.(offset := buffer.pos);
      ItemsOfAppend(tmpFields, buffer.Contents(), info, bytes);
      tmpFields := tmpFields + [info];
      buffer.WriteArray(bytes);
    }

    /** Gathers the first of the items that are still to come. */
    method GatherNext(f: FieldInfo, data: Bytes, ghost x: Item, ghost rest: Items, ghost total: Items)
      requires Gathering() && f.offset + f.size <= |data| && x == ItemAt(f, data)
      requires Gathered() + ([x] + rest) == total
      modifies this`tmpFields, buffer.Repr()
      ensures Gathering() && OnlyGathers() && (buffer.data == old(buffer.data) || fresh(buffer.data))
      ensures Gathered() + rest == total
    {
      hide ItemsOf;
      Reassociate(Gathered(), x, rest);
      Gather(f, data);
    }

    method GatherRun(fs: seq<FieldInfo>, data: Bytes, ghost items: Items, start: nat, eid: nat)
      requires Gathering() && InBounds(fs, |data|) && Lists(fs, data, items) && start <= |fs|
      modifies this`tmpFields, buffer.Repr()
      ensures Gathering() && OnlyGathers() && (buffer.data == old(buffer.data) || fresh(buffer.data))
      ensures Gathered() == old(Gathered()) + RunAt(items, start, eid)
    {
      hide ItemsOf, Gathered;
      var it: nat := start;
      ghost var total := Gathered() + RunAt(items, start, eid);
      while it < |fs| && fs[it].entity == eid
        invariant it <= |fs| && Gathering() && OnlyGathers() && (buffer.data == old(buffer.data) || fresh(buffer.data))
        invariant Gathered() + RunAt(items, it, eid) == total
      {
        GatherNext(fs[it], data, items[it], RunAt(items, it + 1, eid), total);
        it := it + 1;
      }
    }

    /** The entities that only one of the snapshots names. */
    method GatherOneSided(that: Image, eid: nat)
      requires Gathering() && that.Valid()
      modifies this`tmpFields, buffer.Repr()
      ensures Gathering() && OnlyGathers() && (buffer.data == old(buffer.data) || fresh(buffer.data))
      ensures Gathered() == old(Gathered()) + OneSidedChunk(old(View()), that.View(), eid)
    {
      hide ItemsOf;
      ghost var mine, theirs := View().items, that.View().items;
      var it := FindField(fields, fieldData.Peek(0, fieldData.used), mine, eid);
      if it == |fields| {
        it := FindField(that.fields, that.data, theirs, eid);
        GatherRun(that.fields, that.data, theirs, it, eid);
      } else {
        GatherRun(fields, fieldData.Peek(0, fieldData.used), mine, it, eid);
      }
    }

    /** An entity that both snapshots name. */
    method GatherShared(that: Image, e: EntityInfo)
      requires Gathering() && that.Valid()
      modifies this`tmpFields, buffer.Repr()
      ensures Gathering() && OnlyGathers() && (buffer.data == old(buffer.data) || fresh(buffer.data))
      ensures Gathered() == old(Gathered()) + SharedChunk(old(View()), that.View(), e)
    {
      if e.numFields > 0 {
        hide ItemsOf, RunAt, LowerBound, MergeRuns;
        ghost var olds, news := View().items, that.View().items;
        var oldIt := LowerBoundField(fields, fieldData.Peek(0, fieldData.used), olds, e.id);
        var newIt := LowerBoundField(that.fields, that.data, news, e.id);
        GatherRuns(oldIt, olds, that, newIt, news, e.id);
      }
    }

    /** The merge loop over the two runs. */
    method GatherRuns(start: nat, ghost olds: Items, that: Image, start': nat, ghost news: Items, eid: nat)
      requires Gathering() && that.Valid() && start <= |fields| && start' <= |that.fields|
      requires olds == View().items && news == that.View().items
      modifies this`tmpFields, buffer.Repr()
      ensures Gathering() && OnlyGathers() && (buffer.data == old(buffer.data) || fresh(buffer.data))
      ensures Gathered() == old(Gathered()) + MergeRuns(RunAt(olds, start, eid), RunAt(news, start', eid))
    {
      hide MergeRuns, RunAt, ItemsOf, Gathered;
      var oldIt: nat, newIt: nat := start, start';
      ghost var total := Gathered() + MergeRuns(RunAt(olds, start, eid), RunAt(news, start', eid));
      while (oldIt < |fields| && fields[oldIt].entity == eid)
            || (newIt < |that.fields| && that.fields[newIt].entity == eid)
        invariant oldIt <= |fields| && newIt <= |that.fields|
        invariant Gathering() && OnlyGathers() && (buffer.data == old(buffer.data) || fresh(buffer.data))
        invariant Gathered() + MergeRuns(RunAt(olds, oldIt, eid), RunAt(news, newIt, eid)) == total
        decreases |fields| - oldIt + |that.fields| - newIt
      {
        oldIt, newIt := GatherTurn(oldIt, olds, that, newIt, news, eid, total);
      }
      RunsExhausted(fields, fieldData.Contents(), oldIt, olds, eid);
      RunsExhausted(that.fields, that.data, newIt, news, eid);
      MergeRunsTurn(olds, oldIt, news, newIt, eid);
    }

    /** One turn: the newer item if there is no older one before it, skipping an older one of the
        same number; otherwise the older item. */
    method GatherTurn(oldIt: nat, ghost olds: Items, that: Image, newIt: nat, ghost news: Items, eid: nat,
                      ghost total: Items) returns (oldIt': nat, newIt': nat)
      requires Gathering() && that.Valid() && oldIt <= |fields| && newIt <= |that.fields|
      requires olds == View().items && news == that.View().items
      requires (oldIt < |fields| && fields[oldIt].entity == eid)
               || (newIt < |that.fields| && that.fields[newIt].entity == eid)
      requires Gathered() + MergeRuns(RunAt(olds, oldIt, eid), RunAt(news, newIt, eid)) == total
      modifies this`tmpFields, buffer.Repr()
      ensures Gathering() && OnlyGathers() && (buffer.data == old(buffer.data) || fresh(buffer.data))
      ensures oldIt <= oldIt' <= |fields| && newIt <= newIt' <= |that.fields| && oldIt + newIt < oldIt' + newIt'
      ensures Gathered() + MergeRuns(RunAt(olds, oldIt', eid), RunAt(news, newIt', eid)) == total
    {
      hide MergeRuns, RunAt, ItemsOf, Gathered;
      var ob := oldIt < |fields| && fields[oldIt].entity == eid;
      var nb := newIt < |that.fields| && that.fields[newIt].entity == eid;
      MergeRunsTurn(olds, oldIt, news, newIt, eid);
      oldIt', newIt' := oldIt, newIt;
      if !ob || (nb && that.fields[newIt].number <= fields[oldIt].number) {
        if ob && that.fields[newIt].number == fields[oldIt].number {
          oldIt' := oldIt + 1;
        }
        newIt' := newIt + 1;
        GatherNext(that.fields[newIt], that.data, news[newIt],
                   MergeRuns(RunAt(olds, oldIt', eid), RunAt(news, newIt', eid)), total);
      } else {
        oldIt' := oldIt + 1;
        GatherNext(fields[oldIt], fieldData.Peek(0, fieldData.used), olds[oldIt],
                   MergeRuns(RunAt(olds, oldIt', eid), RunAt(news, newIt', eid)), total);
      }
    }

    /** The counting loop at the end of a merge. */
    method Recount()
      modifies this`fullCount, this`delCount, this`updCount
      ensures Counted() == ExactCounts(entities)
    {
      fullCount, delCount, updCount := 0, 0, 0;
      for i := 0 to |entities|
        invariant Counted() == ExactCounts(entities[..i])
      {
        CountsAppend(entities[..i], entities[i]);
        assert entities[..i + 1] == entities[..i] + [entities[i]];
        if entities[i].numFields == 0 {
          delCount := delCount + 1;
        } else if entities[i].full {
          fullCount := fullCount + 1;
        } else {
          updCount := updCount + 1;
        }
      }
      assert entities[..|entities|] == entities;
    }

    /** One of the two passes over appended records: each appended record's items are gathered. */
    method GatherAll(that: Image, shared: bool, es: seq<EntityInfo>)
      requires Gathering() && that.Valid()
      modifies this`tmpFields, buffer.Repr()
      ensures Gathering() && OnlyGathers() && (buffer.data == old(buffer.data) || fresh(buffer.data))
      ensures Gathered() == old(Gathered()) + Emit(old(View()), that.View(), shared, es)
    {
      hide ItemsOf, Chunk, SharedChunk, OneSidedChunk;
      ghost var a, b := View(), that.View();
      ghost var total := Gathered() + Emit(a, b, shared, es);
      var i := 0;
      while i < |es|
        invariant i <= |es| && Gathering() && OnlyGathers() && View() == a
        invariant buffer.data == old(buffer.data) || fresh(buffer.data)
        invariant Gathered() + Emit(a, b, shared, es[i..]) == total
      {
        ChunkCase(a, b, shared, es[i]);
        EmitNext(a, b, shared, es, i);
        ghost var done := Gathered();
        if shared {
          GatherShared(that, es[i]);
        } else {
          GatherOneSided(that, es[i].id);
        }
        i := i + 1;
        assert done + (Chunk(a, b, shared, es[i - 1]) + Emit(a, b, shared, es[i..])) ==
               done + Chunk(a, b, shared, es[i - 1]) + Emit(a, b, shared, es[i..]);
      }
    }

    /** This snapshot becomes the merge of itself and the next one, with exact counts. */
    method MergeWithNext(that: Image)
      requires Valid() && that.Valid()
      modifies Repr()
      ensures Valid() && fresh(Repr() - old(Repr()))
      ensures View() == Merge(old(View()), that.View()) && id == that.id
      ensures Counted() == ExactCounts(entities)
    {
      hide ItemsOf, Merge, Union, InBounds;
      ghost var a := View();
      id := that.id;
      GatherMerge(that);
      UnionMembers(entities, that.entities);
      MergeParts(a, that.View());
      entities := Union(entities, that.entities);
      TakeGathered();
      Recount();
    }

    /** fields = tmp_fields; field_data = buffer */
    method TakeGathered()
      requires Gathering()
      modifies this`fields, fieldData.Repr()
      ensures Valid() && fresh(Repr() - old(Repr()))
      ensures View().items == old(Gathered())
    {
      hide ItemsOf;
      fields := tmpFields;
      fieldData.Assign(buffer);
    }

    /** Both passes, into an empty buffer. */
    method GatherMerge(that: Image)
      requires Valid() && that.Valid()
      modifies this`tmpFields, buffer, buffer.data
      ensures Gathering() && OnlyGathers() && (buffer.data == old(buffer.data) || fresh(buffer.data))
      ensures Gathered() == OneSidedItems(old(View()), that.View()) + SharedItems(old(View()), that.View())
    {
      hide ItemsOf, Emit, SymDiff, Intersect;
      ghost var a := View();
      tmpFields := [];
      buffer.Reset();
      assert Gathered() == [];
      GatherAll(that, false, SymDiff(that.entities, entities));
      assert Gathered() == OneSidedItems(a, that.View());
      GatherAll(that, true, Intersect(that.entities, entities));
    }

    // -------------------------------------------------------------- writing

    /** Can be written: a foreign packet at its end, and counts and ids that fit their types. */
    ghost predicate CanWrite(p: Packet)
      reads this, fieldData, buffer, p
    {
      && Valid() && p.Valid() && p.pos == p.used && p.Repr() !! Repr()
      && delCount < Pow2(64) && fullCount < Pow2(64) && updCount < Pow2(64)
    }

    /** p.writeArray(i->get(field_data), i->size), in front of what is still to come. */
    method WriteField(p: Packet, f: FieldInfo, ghost x: Item, ghost rest: Bytes, ghost total: Bytes)
      requires CanWrite(p) && f in fields && x == ItemAt(f, fieldData.Contents())
      requires p.Contents() + (x.data + rest) == total
      modifies p.Repr()
      ensures CanWrite(p) && (p.data == old(p.data) || fresh(p.data))
      ensures p.Contents() + rest == total
    {
      hide ItemsOf, Pow2;
      assert p.Contents() + (x.data + rest) == p.Contents() + x.data + rest;
      p.WriteArray(fieldData.Peek(f.offset, f.size));
    }

    /** Appends the data of a run of field records. */
    method WriteRun(p: Packet, ghost items: Items, start: nat, eid: nat)
      requires CanWrite(p) && start <= |fields| && items == View().items
      modifies p.Repr()
      ensures CanWrite(p) && (p.data == old(p.data) || fresh(p.data))
      ensures p.Contents() == old(p.Contents()) + DataOf(RunAt(items, start, eid))
    {
      hide ItemsOf, Pow2, DataOf, RunAt, InBounds;
      ghost var data := fieldData.Contents();
      ghost var total := p.Contents() + DataOf(RunAt(items, start, eid));
      var i: nat := start;
      while i < |fields| && fields[i].entity == eid
        invariant i <= |fields| && CanWrite(p) && (p.data == old(p.data) || fresh(p.data))
        invariant data == fieldData.Contents() && Lists(fields, data, items)
        invariant p.Contents() + DataOf(RunAt(items, i, eid)) == total
      {
        RunDataTurn(items, i, eid);
        WriteField(p, fields[i], items[i], DataOf(RunAt(items, i + 1, eid)), total);
        i := i + 1;
      }
      RunDataTurn(items, i, eid);
    }

    method WriteVarint(p: Packet, v: nat, ghost rest: Bytes, ghost total: Bytes)
      requires CanWrite(p) && v < Pow2(64) && p.Contents() + (Enc(v) + rest) == total
      modifies p.Repr()
      ensures CanWrite(p) && (p.data == old(p.data) || fresh(p.data))
      ensures p.Contents() + rest == total
    {
      hide Enc, Pow2, Overwrite;
      assert p.Contents() + (Enc(v) + rest) == p.Contents() + Enc(v) + rest;
      var n := Encode(p, 64, v);
    }

    method WriteDels(p: Packet)
      requires CanWrite(p)
      modifies p.Repr()
      ensures CanWrite(p) && (p.data == old(p.data) || fresh(p.data))
      ensures p.Contents() == old(p.Contents()) + DelBytes(entities)
    {
      hide Enc, Pow2, Overwrite, DelBytes;
      ghost var total := p.Contents() + DelBytes(entities);
      for i := 0 to |entities|
        invariant CanWrite(p) && (p.data == old(p.data) || fresh(p.data))
        invariant p.Contents() + DelBytes(entities[i..]) == total
      {
        DelTurn(entities, i);
        if entities[i].numFields == 0 {
          Below64();
          WriteVarint(p, entities[i].id, DelBytes(entities[i + 1..]), total);
        }
      }
      DelTurn(entities, |entities|);
    }

    /** One entity of the FULL section. */
    method WriteFull(p: Packet, ghost items: Items, e: EntityInfo, ghost rest: Bytes, ghost total: Bytes)
      requires CanWrite(p) && e in entities && items == View().items
      requires p.Contents() + (FullBytes(items, e) + rest) == total
      modifies p.Repr()
      ensures CanWrite(p) && (p.data == old(p.data) || fresh(p.data))
      ensures p.Contents() + rest == total
    {
      hide Enc, Pow2, Overwrite, DataOf, RunAt, LowerBound, ItemsOf;
      Below64();
      ghost var data := DataOf(SeekRun(items, e.id));
      FullLayout(p.Contents(), items, e, rest);
      WriteVarint(p, e.id, Enc(e.typ) + (data + rest), total);
      WriteVarint(p, e.typ, data + rest, total);
      var it := LowerBoundField(fields, fieldData.Peek(0, fieldData.used), items, e.id);
      assert p.Contents() + (data + rest) == p.Contents() + data + rest;
      WriteRun(p, items, it, e.id);
    }

    method WriteFulls(p: Packet)
      requires CanWrite(p)
      modifies p.Repr()
      ensures CanWrite(p) && (p.data == old(p.data) || fresh(p.data))
      ensures p.Contents() == old(p.Contents()) + FullsBytes(View().items, entities)
    {
      hide Enc, Pow2, Overwrite, FullBytes, FullsBytes, ItemsOf;
      ghost var items := View().items;
      ghost var total := p.Contents() + FullsBytes(items, entities);
      for i := 0 to |entities|
        invariant CanWrite(p) && (p.data == old(p.data) || fresh(p.data)) && items == View().items
        invariant p.Contents() + FullsBytes(items, entities[i..]) == total
      {
        FullTurn(items, entities, i);
        if entities[i].full {
          WriteFull(p, items, entities[i], FullsBytes(items, entities[i + 1..]), total);
        }
      }
      FullTurn(items, entities, |entities|);
    }

    /** One bit, in front of what is still to come. */
    method WriteBit(p: Packet, writer: BitWriter, b: bool, ghost rest: Bits, ghost total: Bits)
      requires CanWrite(p) && writer.Valid() && writer.p == p && writer !in Repr()
      requires writer.Written() + ([b] + rest) == total
      modifies writer, p.Repr()
      ensures CanWrite(p) && writer.Valid() && (p.data == old(p.data) || fresh(p.data))
      ensures writer.Written() + rest == total
    {
      hide Pack, Pow2, Value;
      assert writer.Written() + ([b] + rest) == writer.Written() + [b] + rest;
      writer.Write(b);
    }

    /** The bit of field x: set where the run has an item for it, which is then behind us. */
    method WriteFieldBit(p: Packet, writer: BitWriter, ghost items: Items, i: nat, e: EntityInfo, x: nat, ghost total: Bits)
      returns (next: nat)
      requires CanWrite(p) && writer.Valid() && writer.p == p && writer !in Repr()
      requires i <= |fields| && items == View().items && x < e.numFields
      requires writer.Written() + BitsFrom(RunAt(items, i, e.id), x, e.numFields) == total
      modifies writer, p.Repr()
      ensures CanWrite(p) && writer.Valid() && (p.data == old(p.data) || fresh(p.data)) && next <= |fields|
      ensures writer.Written() + BitsFrom(RunAt(items, next, e.id), x + 1, e.numFields) == total
    {
      hide Pack, Pow2, ItemsOf, RunAt, BitsFrom, Value, BitAt, BitWriter.Written;
      BitTurn(items, i, e.id, x, e.numFields);
      var b := i < |fields| && fields[i].entity == e.id && fields[i].number == x;
      next := if b then i + 1 else i;
      WriteBit(p, writer, b, BitsFrom(RunAt(items, next, e.id), x + 1, e.numFields), total);
    }

    /** BitWriter(p).writeFunc: a bit for every field of the entity, set where the run has an item. */
    method WriteBitmap(p: Packet, ghost items: Items, start: nat, e: EntityInfo)
      requires CanWrite(p) && start <= |fields| && items == View().items
      modifies p.Repr()
      ensures CanWrite(p) && (p.data == old(p.data) || fresh(p.data))
      ensures p.Contents() == old(p.Contents()) + Pack(BitsFrom(RunAt(items, start, e.id), 0, e.numFields))
    {
      hide Pack, Pow2, ItemsOf, RunAt, BitsFrom, Value, BitAt, Packet.Contents, BitWriter.Written, InBounds;
      var writer := new BitWriter(p);
      ghost var total := BitsFrom(RunAt(items, start, e.id), 0, e.numFields);
      assert writer.Written() + total == total;
      var i: nat := start;
      for x := 0 to e.numFields
        invariant i <= |fields| && writer.Valid() && fresh(writer) && CanWrite(p)
        invariant p.data == old(p.data) || fresh(p.data)
        invariant items == View().items
        invariant writer.Written() + BitsFrom(RunAt(items, i, e.id), x, e.numFields) == total
      {
        i := WriteFieldBit(p, writer, items, i, e, x, total);
      }
      BitTurn(items, i, e.id, e.numFields, e.numFields);
      assert writer.Written() + [] == writer.Written();
      writer.Flush();
    }

    /** One entity of the UPD section. */
    method WriteUpd(p: Packet, ghost items: Items, e: EntityInfo, ghost rest: Bytes, ghost total: Bytes)
      requires CanWrite(p) && e in entities && items == View().items
      requires p.Contents() + (UpdBytes(items, e) + rest) == total
      modifies p.Repr()
      ensures CanWrite(p) && (p.data == old(p.data) || fresh(p.data))
      ensures p.Contents() + rest == total
    {
      hide Enc, Pow2, Overwrite, DataOf, RunAt, LowerBound, ItemsOf, Pack, BitsFrom;
      Below64();
      ghost var run := SeekRun(items, e.id);
      ghost var bitmap, data := Pack(BitsFrom(run, 0, e.numFields)), DataOf(run);
      UpdLayout(p.Contents(), items, e, rest);
      WriteVarint(p, e.id, bitmap + (data + rest), total);
      var it := LowerBoundField(fields, fieldData.Peek(0, fieldData.used), items, e.id);
      assert p.Contents() + (bitmap + (data + rest)) == p.Contents() + bitmap + data + rest;
      WriteBitmap(p, items, it, e);
      WriteRun(p, items, it, e.id);
    }

    method WriteUpds(p: Packet)
      requires CanWrite(p)
      modifies p.Repr()
      ensures CanWrite(p) && (p.data == old(p.data) || fresh(p.data))
      ensures p.Contents() == old(p.Contents()) + UpdsBytes(View().items, entities)
    {
      hide Enc, Pow2, Overwrite, UpdBytes, UpdsBytes, ItemsOf;
      ghost var items := View().items;
      ghost var total := p.Contents() + UpdsBytes(items, entities);
      for i := 0 to |entities|
        invariant CanWrite(p) && (p.data == old(p.data) || fresh(p.data)) && items == View().items
        invariant p.Contents() + UpdsBytes(items, entities[i..]) == total
      {
        UpdTurn(items, entities, i);
        if !entities[i].full && entities[i].numFields != 0 {
          WriteUpd(p, items, entities[i], UpdsBytes(items, entities[i + 1..]), total);
        }
      }
      UpdTurn(items, entities, |entities|);
    }

    method WriteDelSection(p: Packet)
      requires CanWrite(p)
      modifies p.Repr()
      ensures CanWrite(p) && (p.data == old(p.data) || fresh(p.data))
      ensures p.Contents() == old(p.Contents()) + Section(delCount, DelBytes(entities))
    {
      hide Enc, Pow2, Overwrite, DelBytes;
      if delCount > 0 {
        var n := Encode(p, 64, delCount);
        WriteDels(p);
      }
    }

    method WriteFullSection(p: Packet)
      requires CanWrite(p)
      modifies p.Repr()
      ensures CanWrite(p) && (p.data == old(p.data) || fresh(p.data))
      ensures p.Contents() == old(p.Contents()) + Section(fullCount, FullsBytes(View().items, entities))
    {
      hide Enc, Pow2, Overwrite, FullsBytes, ItemsOf;
      if fullCount > 0 {
        var n := Encode(p, 64, fullCount);
        WriteFulls(p);
      }
    }

    method WriteUpdSection(p: Packet)
      requires CanWrite(p)
      modifies p.Repr()
      ensures CanWrite(p) && (p.data == old(p.data) || fresh(p.data))
      ensures p.Contents() == old(p.Contents()) + Section(updCount, UpdsBytes(View().items, entities))
    {
      hide Enc, Pow2, Overwrite, UpdsBytes, ItemsOf;
      if updCount > 0 {
        var n := Encode(p, 64, updCount);
        WriteUpds(p);
      }
    }

    /** Writes the snapshot as the three counters announce it. */
    method WriteToPacket(p: Packet)
      requires CanWrite(p)
      modifies p.Repr()
      ensures CanWrite(p) && (p.data == old(p.data) || fresh(p.data))
      ensures p.Contents() == old(p.Contents()) + SnapshotBytes(View(), Counted())
    {
      hide Pow2, UpdsBytes, FullsBytes, DelBytes, ItemsOf, Section, SectionBits;
      p.Write8(SectionBits(Counted()));
      WriteDelSection(p);
      WriteFullSection(p);
      WriteUpdSection(p);
    }
  }

  lemma DelTurn(es: seq<EntityInfo>, i: nat)
    requires i <= |es|
    ensures DelBytes(es[i..]) ==
            if i == |es| then [] else (if es[i].numFields == 0 then Enc(es[i].id) else []) + DelBytes(es[i + 1..])
    ensures i < |es| && es[i].numFields != 0 ==> DelBytes(es[i..]) == DelBytes(es[i + 1..])
    ensures es[0..] == es
  {
    hide Enc;
    if i < |es| {
      assert es[i..][1..] == es[i + 1..];
    }
  }

  lemma FullTurn(items: Items, es: seq<EntityInfo>, i: nat)
    requires i <= |es|
    ensures i == |es| ==> FullsBytes(items, es[i..]) == []
    ensures i < |es| && es[i].full ==>
              FullsBytes(items, es[i..]) == FullBytes(items, es[i]) + FullsBytes(items, es[i + 1..])
    ensures i < |es| && !es[i].full ==> FullsBytes(items, es[i..]) == FullsBytes(items, es[i + 1..])
    ensures es[0..] == es
  {
    hide FullBytes;
    if i < |es| {
      assert es[i..][1..] == es[i + 1..];
    }
  }

  lemma UpdTurn(items: Items, es: seq<EntityInfo>, i: nat)
    requires i <= |es|
    ensures i == |es| ==> UpdsBytes(items, es[i..]) == []
    ensures i < |es| && IsPartial(es[i]) ==>
              UpdsBytes(items, es[i..]) == UpdBytes(items, es[i]) + UpdsBytes(items, es[i + 1..])
    ensures i < |es| && !IsPartial(es[i]) ==> UpdsBytes(items, es[i..]) == UpdsBytes(items, es[i + 1..])
    ensures es[0..] == es
  {
    hide UpdBytes;
    if i < |es| {
      assert es[i..][1..] == es[i + 1..];
    }
  }

  lemma FullLayout(before: Bytes, items: Items, e: EntityInfo, rest: Bytes)
    ensures before + (FullBytes(items, e) + rest) ==
            before + (Enc(e.id) + (Enc(e.typ) + (DataOf(SeekRun(items, e.id)) + rest)))
  {
    hide Enc, DataOf, SeekRun;
  }

  lemma UpdLayout(before: Bytes, items: Items, e: EntityInfo, rest: Bytes)
    ensures var run := SeekRun(items, e.id);
            before + (UpdBytes(items, e) + rest) ==
            before + (Enc(e.id) + (Pack(BitsFrom(run, 0, e.numFields)) + (DataOf(run) + rest)))
  {
    hide Enc, DataOf, SeekRun, Pack, BitsFrom;
  }

  lemma BitTurn(items: Items, i: nat, eid: nat, x: nat, n: nat)
    requires i <= |items| && x <= n
    ensures x == n ==> BitsFrom(RunAt(items, i, eid), x, n) == []
    ensures x < n ==>
              var b := OnRun(items, i, eid) && items[i].number == x;
              BitsFrom(RunAt(items, i, eid), x, n) ==
              [b] + BitsFrom(RunAt(items, if b then i + 1 else i, eid), x + 1, n)
  {
  }

  lemma RunDataTurn(items: Items, i: nat, eid: nat)
    requires i <= |items|
    ensures DataOf(RunAt(items, i, eid)) ==
            if OnRun(items, i, eid) then items[i].data + DataOf(RunAt(items, i + 1, eid)) else []
  {
  }

  lemma MergeParts(a: Delta, b: Delta)
    ensures Merge(a, b) == Delta(Union(a.entities, b.entities), OneSidedItems(a, b) + SharedItems(a, b))
  {
  }

  lemma ChunkCase(a: Delta, b: Delta, shared: bool, e: EntityInfo)
    ensures Chunk(a, b, shared, e) == if shared then SharedChunk(a, b, e) else OneSidedChunk(a, b, e.id)
  {
  }

  lemma EmitNext(a: Delta, b: Delta, shared: bool, es: seq<EntityInfo>, i: nat)
    requires i < |es|
    ensures Emit(a, b, shared, es[i..]) == Chunk(a, b, shared, es[i]) + Emit(a, b, shared, es[i + 1..])
  {
    assert es[i..][1..] == es[i + 1..];
  }

  lemma UnionMembers(older: seq<EntityInfo>, newer: seq<EntityInfo>)
    ensures forall e | e in Union(older, newer) :: e in older || e in newer
  {
  }
}
