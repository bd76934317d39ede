/** DeltaSnapshot::mergeWithNext as a function of its two snapshots, and what the result holds
    (src/nrg_deltasnapshot.cpp:154-235). */
module Merges {
  import opened Packets
  import opened Codecs
  import opened Deltas

  // ---------------------------------------------------------------- the merge

  /** The loop over two runs of one entity: ascending by number, the newer item winning a tie. */
  function MergeRuns(older: Items, newer: Items): (r: Items)
    decreases |older| + |newer|
  {
    if older == [] then newer
    else if newer != [] && newer[0].number <= older[0].number then
      [newer[0]] + MergeRuns(if newer[0].number == older[0].number then older[1..] else older, newer[1..])
    else [older[0]] + MergeRuns(older[1..], newer)
  }

  /** An entity only one snapshot names: its run from whichever snapshot has items of it. */
  function OneSidedChunk(a: Delta, b: Delta, eid: nat): Items
  {
    var k := Find(a.items, eid, 0);
    if k < |a.items| then RunAt(a.items, k, eid) else RunAt(b.items, Find(b.items, eid, 0), eid)
  }

  /** An entity both name; `e` is the newer record. A deletion drops the older items. */
  function SharedChunk(a: Delta, b: Delta, e: EntityInfo): Items
  {
    if e.numFields == 0 then [] else MergeRuns(SeekRun(a.items, e.id), SeekRun(b.items, e.id))
  }

  function Chunk(a: Delta, b: Delta, shared: bool, e: EntityInfo): Items
  {
    if shared then SharedChunk(a, b, e) else OneSidedChunk(a, b, e.id)
  }

  function Emit(a: Delta, b: Delta, shared: bool, es: seq<EntityInfo>): Items
  {
    if es == [] then [] else Chunk(a, b, shared, es[0]) + Emit(a, b, shared, es[1..])
  }

  function OneSidedItems(a: Delta, b: Delta): Items
  {
    Emit(a, b, false, SymDiff(b.entities, a.entities))
  }

  function SharedItems(a: Delta, b: Delta): Items
  {
    Emit(a, b, true, Intersect(b.entities, a.entities))
  }

  function Merge(a: Delta, b: Delta): Delta
  {
    Delta(Union(a.entities, b.entities), OneSidedItems(a, b) + SharedItems(a, b))
  }

  // ---------------------------------------------------------------- well-formed snapshots

  ghost predicate AscendingNumbers(run: Items)
  {
    forall i, j | 0 <= i < j < |run| :: run[i].number < run[j].number
  }

  /** What a run assigns to the numbered fields of its entity. */
  function Fields(run: Items): map<nat, Bytes>
  {
    if run == [] then map[] else Fields(run[1..])[run[0].number := run[0].data]
  }

  ghost predicate Above(run: Items, lo: int)
  {
    forall i | 0 <= i < |run| :: lo < run[i].number
  }

  ghost predicate Below(run: Items, hi: int)
  {
    forall i | 0 <= i < |run| :: run[i].number < hi
  }

  ghost predicate OwnedBy(run: Items, eid: nat)
  {
    forall i | 0 <= i < |run| :: run[i].entity == eid
  }

  ghost predicate RunFits(e: EntityInfo, run: Items)
  {
    && AscendingNumbers(run) && Below(run, e.numFields)
    && (e.full ==> 0 < e.numFields == |run|)
  }

  ghost predicate WellFormed(d: Delta)
  {
    && Ascending(d.entities) && Grouped(d.items)
    && (forall e | e in d.entities :: RunFits(e, Of(d.items, e.id)))
    && (forall i | 0 <= i < |d.items| :: Lookup(d.entities, d.items[i].entity).Some?)
  }

  /** An entity that both snapshots touch without deleting it keeps its type. */
  ghost predicate Compatible(a: Delta, b: Delta)
  {
    forall id: nat ::
      var x, y := Lookup(a.entities, id), Lookup(b.entities, id);
      x.Some? && y.Some? && x.value.numFields > 0 && y.value.numFields > 0 ==>
        x.value.numFields == y.value.numFields && x.value.typ == y.value.typ
  }

  // ---------------------------------------------------------------- merging two runs

  lemma {:induction false} MergeRunsOwned(older: Items, newer: Items, eid: nat)
    requires OwnedBy(older, eid) && OwnedBy(newer, eid)
    ensures OwnedBy(MergeRuns(older, newer), eid)
    decreases |older| + |newer|
  {
    if older != [] {
      if newer != [] && newer[0].number <= older[0].number {
        MergeRunsOwned(if newer[0].number == older[0].number then older[1..] else older, newer[1..], eid);
      } else {
        MergeRunsOwned(older[1..], newer, eid);
      }
    }
  }

  lemma {:induction false} MergeRunsAbove(older: Items, newer: Items, lo: int)
    requires Above(older, lo) && Above(newer, lo)
    ensures Above(MergeRuns(older, newer), lo)
    decreases |older| + |newer|
  {
    if older != [] {
      if newer != [] && newer[0].number <= older[0].number {
        MergeRunsAbove(if newer[0].number == older[0].number then older[1..] else older, newer[1..], lo);
      } else {
        MergeRunsAbove(older[1..], newer, lo);
      }
    }
  }

  lemma {:induction false} MergeRunsBelow(older: Items, newer: Items, hi: int)
    requires Below(older, hi) && Below(newer, hi)
    ensures Below(MergeRuns(older, newer), hi)
    decreases |older| + |newer|
  {
    if older != [] {
      if newer != [] && newer[0].number <= older[0].number {
        MergeRunsBelow(if newer[0].number == older[0].number then older[1..] else older, newer[1..], hi);
      } else {
        MergeRunsBelow(older[1..], newer, hi);
      }
    }
  }

  lemma MergeRunsKeeps(older: Items, newer: Items, eid: nat, lo: int, hi: int)
    ensures OwnedBy(older, eid) && OwnedBy(newer, eid) ==> OwnedBy(MergeRuns(older, newer), eid)
    ensures Above(older, lo) && Above(newer, lo) ==> Above(MergeRuns(older, newer), lo)
    ensures Below(older, hi) && Below(newer, hi) ==> Below(MergeRuns(older, newer), hi)
  {
    hide OwnedBy, Above, Below, MergeRuns;
    if OwnedBy(older, eid) && OwnedBy(newer, eid) {
      MergeRunsOwned(older, newer, eid);
    }
    if Above(older, lo) && Above(newer, lo) {
      MergeRunsAbove(older, newer, lo);
    }
    if Below(older, hi) && Below(newer, hi) {
      MergeRunsBelow(older, newer, hi);
    }
  }

  lemma PrependItem(x: Item, rest: Items)
    requires AscendingNumbers(rest) && Above(rest, x.number)
    ensures AscendingNumbers([x] + rest)
  {
  }

  lemma {:induction false} MergeRunsAscending(older: Items, newer: Items)
    requires AscendingNumbers(older) && AscendingNumbers(newer)
    ensures AscendingNumbers(MergeRuns(older, newer))
    decreases |older| + |newer|
  {
    if older != [] {
      if newer != [] && newer[0].number <= older[0].number {
        var left := if newer[0].number == older[0].number then older[1..] else older;
        MergeRunsAscending(left, newer[1..]);
        MergeRunsKeeps(left, newer[1..], 0, newer[0].number, 0);
        PrependItem(newer[0], MergeRuns(left, newer[1..]));
      } else {
        MergeRunsAscending(older[1..], newer);
        MergeRunsKeeps(older[1..], newer, 0, older[0].number, 0);
        PrependItem(older[0], MergeRuns(older[1..], newer));
      }
    }
  }

  lemma {:induction false} FieldsBounds(run: Items, lo: int, hi: int)
    ensures Above(run, lo) ==> forall k | k in Fields(run) :: lo < k
    ensures Below(run, hi) ==> forall k | k in Fields(run) :: k < hi
  {
    if run != [] {
      FieldsBounds(run[1..], lo, hi);
    }
  }

  lemma UpdateRight<K, V>(x: map<K, V>, y: map<K, V>, k: K, v: V)
    ensures (x + y)[k := v] == x + y[k := v] == x[k := v] + y[k := v]
  {
  }

  lemma UpdateLeft<K, V>(x: map<K, V>, y: map<K, V>, k: K, v: V)
    requires k !in y
    ensures (x + y)[k := v] == x[k := v] + y
  {
  }

  /** What the merged run assigns: the newer run's bytes over the older run's. */
  lemma {:induction false} MergeRunsFields(older: Items, newer: Items)
    requires AscendingNumbers(older) && AscendingNumbers(newer)
    ensures Fields(MergeRuns(older, newer)) == Fields(older) + Fields(newer)
    decreases |older| + |newer|
  {
    if older == [] {
      assert Fields(older) + Fields(newer) == Fields(newer);
    } else if newer != [] && newer[0].number <= older[0].number {
      var n, k, v := newer[1..], newer[0].number, newer[0].data;
      if k == older[0].number {
        MergeRunsFields(older[1..], n);
        UpdateRight(Fields(older[1..]), Fields(n), k, v);
        UpdateRight(Fields(older), Fields(n), k, v);
        assert Fields(older)[k := v] == Fields(older[1..])[k := v];
      } else {
        MergeRunsFields(older, n);
        UpdateRight(Fields(older), Fields(n), k, v);
      }
    } else {
      var k := older[0].number;
      MergeRunsFields(older[1..], newer);
      FieldsBounds(newer, k, 0);
      UpdateLeft(Fields(older[1..]), Fields(newer), k, older[0].data);
    }
  }

  /** Ascending numbers below n, and n of them: every number occurs. */
  lemma FullRun(run: Items, n: nat, i: nat)
    requires AscendingNumbers(run) && |run| == n && i < n && Below(run, n)
    ensures run[i].number == i
  {
    NumbersGrow(run, 0, i);
    NumbersGrow(run, i, n - 1);
  }

  lemma {:induction false} NumbersGrow(run: Items, i: nat, j: nat)
    requires AscendingNumbers(run) && i <= j < |run|
    ensures run[j].number >= run[i].number + (j - i)
  {
    if i < j {
      NumbersGrow(run, i, j - 1);
    }
  }

  lemma {:induction false} FieldsAt(run: Items, i: nat)
    requires AscendingNumbers(run) && i < |run|
    ensures run[i].number in Fields(run) && Fields(run)[run[i].number] == run[i].data
  {
    if i > 0 {
      FieldsAt(run[1..], i - 1);
    }
  }

  lemma {:induction false} FieldsSize(run: Items)
    requires AscendingNumbers(run)
    ensures |Fields(run)| == |run|
  {
    if run != [] {
      FieldsSize(run[1..]);
      FieldsBounds(run[1..], run[0].number, 0);
      assert run[0].number !in Fields(run[1..]);
    }
  }

  // ---------------------------------------------------------------- what a merge holds

  lemma ChunkOwned(a: Delta, b: Delta, shared: bool, e: EntityInfo)
    ensures OwnedBy(Chunk(a, b, shared, e), e.id)
  {
    if shared && e.numFields > 0 {
      MergeRunsKeeps(SeekRun(a.items, e.id), SeekRun(b.items, e.id), e.id, 0, 0);
    }
  }

  lemma {:induction false} EmitOwners(a: Delta, b: Delta, shared: bool, es: seq<EntityInfo>)
    ensures forall i | 0 <= i < |Emit(a, b, shared, es)| ::
              Lookup(es, Emit(a, b, shared, es)[i].entity).Some?
  {
    if es != [] {
      ChunkOwned(a, b, shared, es[0]);
      EmitOwners(a, b, shared, es[1..]);
    }
  }

  lemma OfPrepend(c: Items, rest: Items, owner: nat, id: nat)
    requires OwnedBy(c, owner)
    ensures Of(c + rest, id) == if id == owner then c + Of(rest, id) else Of(rest, id)
  {
    OfUniform(c, owner, id);
    OfConcat(c, rest, id);
    assert [] + Of(rest, id) == Of(rest, id);
  }

  lemma {:induction false} EmitOf(a: Delta, b: Delta, shared: bool, es: seq<EntityInfo>, id: nat)
    requires Ascending(es)
    ensures Of(Emit(a, b, shared, es), id) ==
            if Lookup(es, id).Some? then Chunk(a, b, shared, Lookup(es, id).value) else []
  {
    if es != [] {
      var c := Chunk(a, b, shared, es[0]);
      ChunkOwned(a, b, shared, es[0]);
      EmitOf(a, b, shared, es[1..], id);
      OfPrepend(c, Emit(a, b, shared, es[1..]), es[0].id, id);
      if es[0].id == id {
        LookupBelow(es[1..], id);
        assert c + [] == c;
      }
    }
  }

  lemma {:induction false} EmitOrdered(a: Delta, b: Delta, shared: bool, es: seq<EntityInfo>)
    requires Ascending(es)
    ensures Ordered(Emit(a, b, shared, es))
  {
    if es != [] {
      var c, rest := Chunk(a, b, shared, es[0]), Emit(a, b, shared, es[1..]);
      ChunkOwned(a, b, shared, es[0]);
      EmitOrdered(a, b, shared, es[1..]);
      EmitOwners(a, b, shared, es[1..]);
      forall i | 0 <= i < |rest| ensures es[0].id < rest[i].entity {
        var owner := Lookup(es[1..], rest[i].entity);
        assert owner.value in es[1..];
      }
    }
  }

  /** Items of an entity in a merge, for snapshots whose items are ordered by entity. */
  function MergedRun(a: Delta, b: Delta, id: nat): Items
  {
    var x, y := Lookup(a.entities, id), Lookup(b.entities, id);
    if y.None? then Of(a.items, id)
    else if x.None? then Of(b.items, id)
    else if y.value.numFields == 0 then []
    else MergeRuns(Of(a.items, id), Of(b.items, id))
  }

  lemma NoRecordNoItems(d: Delta, id: nat)
    requires WellFormed(d) && Lookup(d.entities, id).None?
    ensures Of(d.items, id) == []
  {
    OfAbsent(d.items, id);
  }

  lemma OneSidedExact(a: Delta, b: Delta, id: nat)
    requires WellFormed(a) && WellFormed(b)
    requires Lookup(a.entities, id).None? != Lookup(b.entities, id).None?
    ensures OneSidedChunk(a, b, id) == MergedRun(a, b, id)
  {
    FindRun(a.items, id);
    FindRun(b.items, id);
    if Lookup(a.entities, id).None? {
      NoRecordNoItems(a, id);
    } else {
      NoRecordNoItems(b, id);
    }
  }

  lemma SharedExact(a: Delta, b: Delta, e: EntityInfo)
    requires Ordered(a.items) && Ordered(b.items)
    requires Lookup(a.entities, e.id).Some? && Lookup(b.entities, e.id) == Some(e)
    ensures SharedChunk(a, b, e) == MergedRun(a, b, e.id)
  {
    SeekRunOrdered(a.items, e.id);
    SeekRunOrdered(b.items, e.id);
  }

  /** The merged items of every entity: deletion masks, the newer bytes win, nothing is lost. */
  lemma MergeOf(a: Delta, b: Delta, id: nat)
    requires WellFormed(a) && WellFormed(b) && Ordered(a.items) && Ordered(b.items)
    ensures Of(Merge(a, b).items, id) == MergedRun(a, b, id)
  {
    var one, both := SymDiff(b.entities, a.entities), Intersect(b.entities, a.entities);
    SymDiffAscending(b.entities, a.entities);
    SymDiffLookup(b.entities, a.entities, id);
    IntersectAscending(b.entities, a.entities);
    IntersectLookup(b.entities, a.entities, id);
    EmitOf(a, b, false, one, id);
    EmitOf(a, b, true, both, id);
    OfConcat(OneSidedItems(a, b), SharedItems(a, b), id);
    var x, y := Lookup(a.entities, id), Lookup(b.entities, id);
    if x.None? != y.None? {
      OneSidedExact(a, b, id);
    } else if x.Some? {
      SharedExact(a, b, y.value);
    } else {
      NoRecordNoItems(a, id);
    }
  }

  lemma ConcatGrouped(x: Items, y: Items)
    requires Grouped(x) && Grouped(y)
    requires forall i, j | 0 <= i < |x| && 0 <= j < |y| :: x[i].entity != y[j].entity
    ensures Grouped(x + y)
  {
    var z := x + y;
    forall i, j, k | 0 <= i < j < k < |z| && z[i].entity == z[k].entity
      ensures z[j].entity == z[i].entity
    {
      if k < |x| {
        assert z[i] == x[i] && z[j] == x[j] && z[k] == x[k];
      } else if i >= |x| {
        assert z[i] == y[i - |x|] && z[j] == y[j - |x|] && z[k] == y[k - |x|];
      }
    }
  }

  lemma MergeGrouped(a: Delta, b: Delta)
    requires Ascending(a.entities) && Ascending(b.entities)
    ensures Grouped(Merge(a, b).items)
  {
    var x, y := OneSidedItems(a, b), SharedItems(a, b);
    var one, both := SymDiff(b.entities, a.entities), Intersect(b.entities, a.entities);
    SymDiffAscending(b.entities, a.entities);
    IntersectAscending(b.entities, a.entities);
    EmitOrdered(a, b, false, one);
    EmitOrdered(a, b, true, both);
    EmitOwners(a, b, false, one);
    EmitOwners(a, b, true, both);
    forall i, j | 0 <= i < |x| && 0 <= j < |y| ensures x[i].entity != y[j].entity {
      SymDiffLookup(b.entities, a.entities, x[i].entity);
      IntersectLookup(b.entities, a.entities, x[i].entity);
    }
    ConcatGrouped(x, y);
  }

  lemma MergedRunFits(a: Delta, b: Delta, e: EntityInfo)
    requires WellFormed(a) && WellFormed(b) && Compatible(a, b)
    requires Lookup(Union(a.entities, b.entities), e.id) == Some(e)
    ensures RunFits(e, MergedRun(a, b, e.id))
  {
    UnionLookup(a.entities, b.entities, e.id);
    var x, y := Lookup(a.entities, e.id), Lookup(b.entities, e.id);
    if x.Some? && y.Some? && e.numFields > 0 {
      var older, newer := Of(a.items, e.id), Of(b.items, e.id);
      assert RunFits(x.value, older) && RunFits(e, newer);
      MergeRunsAscending(older, newer);
      MergeRunsKeeps(older, newer, 0, 0, e.numFields);
      if e.full {
        FullMerge(older, newer, e.numFields);
      }
    }
  }

  lemma FullMerge(older: Items, newer: Items, n: nat)
    requires AscendingNumbers(older) && AscendingNumbers(newer) && |newer| == n
    requires Below(older, n) && Below(newer, n)
    ensures |MergeRuns(older, newer)| == n
  {
    MergeRunsAscending(older, newer);
    MergeRunsFields(older, newer);
    FieldsSize(MergeRuns(older, newer));
    FieldsSize(newer);
    FieldsBounds(older, 0, n);
    forall k | k in Fields(older) ensures k in Fields(newer) {
      FullRun(newer, n, k);
      FieldsAt(newer, k);
    }
    assert Fields(older) + Fields(newer) == Fields(newer);
  }

  /** A merge of well-formed ordered snapshots is well formed again, though not always ordered. */
  lemma MergeWellFormed(a: Delta, b: Delta)
    requires WellFormed(a) && WellFormed(b) && Ordered(a.items) && Ordered(b.items) && Compatible(a, b)
    ensures WellFormed(Merge(a, b))
  {
    var m := Merge(a, b);
    MergeGrouped(a, b);
    UnionLookup(a.entities, b.entities, 0);
    forall e | e in m.entities ensures RunFits(e, Of(m.items, e.id)) {
      LookupMember(m.entities, e);
      MergedRunFits(a, b, e);
      MergeOf(a, b, e.id);
    }
    forall i | 0 <= i < |m.items| ensures Lookup(m.entities, m.items[i].entity).Some? {
      var id := m.items[i].entity;
      UnionLookup(a.entities, b.entities, id);
      if i < |OneSidedItems(a, b)| {
        EmitOwners(a, b, false, SymDiff(b.entities, a.entities));
        SymDiffLookup(b.entities, a.entities, id);
      } else {
        EmitOwners(a, b, true, Intersect(b.entities, a.entities));
        IntersectLookup(b.entities, a.entities, id);
      }
    }
  }

  // ---------------------------------------------------------------- when a merge stays ordered

  /** Entity `id` is named by one snapshot only, and brings items along. */
  predicate OneSided(a: Delta, b: Delta, id: nat)
  {
    Lookup(a.entities, id).None? != Lookup(b.entities, id).None? && MergedRun(a, b, id) != []
  }

  /** Entity `id` is named by both snapshots, and items of it survive. */
  predicate Shared(a: Delta, b: Delta, id: nat)
  {
    Lookup(a.entities, id).Some? && Lookup(b.entities, id).Some? && MergedRun(a, b, id) != []
  }

  lemma OfFirst(items: Items, id: nat) returns (i: nat)
    requires Of(items, id) != []
    ensures i < |items| && items[i].entity == id
  {
    i := Find(items, id, 0);
    if i == |items| {
      OfAbsent(items, id);
    }
  }

  lemma OfNonempty(items: Items, i: nat)
    requires i < |items|
    ensures Of(items, items[i].entity) != []
  {
    OfCounts(items, i, items[i].entity);
  }

  lemma OneSidedItem(a: Delta, b: Delta, id: nat)
    requires WellFormed(a) && WellFormed(b)
    ensures Of(OneSidedItems(a, b), id) == if OneSided(a, b, id) then MergedRun(a, b, id) else []
  {
    var one := SymDiff(b.entities, a.entities);
    SymDiffAscending(b.entities, a.entities);
    SymDiffLookup(b.entities, a.entities, id);
    EmitOf(a, b, false, one, id);
    if Lookup(a.entities, id).None? != Lookup(b.entities, id).None? {
      OneSidedExact(a, b, id);
    }
  }

  lemma SharedItem(a: Delta, b: Delta, id: nat)
    requires WellFormed(a) && WellFormed(b) && Ordered(a.items) && Ordered(b.items)
    ensures Of(SharedItems(a, b), id) == if Shared(a, b, id) then MergedRun(a, b, id) else []
  {
    var both := Intersect(b.entities, a.entities);
    IntersectAscending(b.entities, a.entities);
    IntersectLookup(b.entities, a.entities, id);
    EmitOf(a, b, true, both, id);
    if Lookup(a.entities, id).Some? && Lookup(b.entities, id).Some? {
      SharedExact(a, b, Lookup(b.entities, id).value);
    }
  }

  lemma ConcatOrdered(x: Items, y: Items)
    requires Ordered(x) && Ordered(y)
    ensures Ordered(x + y) <==> forall i, j | 0 <= i < |x| && 0 <= j < |y| :: x[i].entity <= y[j].entity
  {
    if Ordered(x + y) {
      forall i, j | 0 <= i < |x| && 0 <= j < |y| ensures x[i].entity <= y[j].entity {
        assert (x + y)[i] == x[i] && (x + y)[|x| + j] == y[j];
      }
    }
  }

  lemma PartsOrdered(a: Delta, b: Delta)
    requires Ascending(a.entities) && Ascending(b.entities)
    ensures Ordered(OneSidedItems(a, b)) && Ordered(SharedItems(a, b))
  {
    SymDiffAscending(b.entities, a.entities);
    IntersectAscending(b.entities, a.entities);
    EmitOrdered(a, b, false, SymDiff(b.entities, a.entities));
    EmitOrdered(a, b, true, Intersect(b.entities, a.entities));
  }

  /** The caller's view of the order of a merge. */
  ghost predicate OneSidedFirst(a: Delta, b: Delta)
  {
    forall p: nat, q: nat :: OneSided(a, b, p) && Shared(a, b, q) ==> p < q
  }

  lemma PartsFollow(a: Delta, b: Delta, i: nat, j: nat)
    requires WellFormed(a) && WellFormed(b) && Ordered(a.items) && Ordered(b.items) && OneSidedFirst(a, b)
    requires i < |OneSidedItems(a, b)| && j < |SharedItems(a, b)|
    ensures OneSidedItems(a, b)[i].entity < SharedItems(a, b)[j].entity
  {
    var p, q := OneSidedItems(a, b)[i].entity, SharedItems(a, b)[j].entity;
    OfNonempty(OneSidedItems(a, b), i);
    OneSidedItem(a, b, p);
    OfNonempty(SharedItems(a, b), j);
    SharedItem(a, b, q);
  }

  lemma PartsMeet(a: Delta, b: Delta, p: nat, q: nat) returns (i: nat, j: nat)
    requires WellFormed(a) && WellFormed(b) && Ordered(a.items) && Ordered(b.items)
    requires OneSided(a, b, p) && Shared(a, b, q)
    ensures i < |OneSidedItems(a, b)| && OneSidedItems(a, b)[i].entity == p
    ensures j < |SharedItems(a, b)| && SharedItems(a, b)[j].entity == q
  {
    OneSidedItem(a, b, p);
    i := OfFirst(OneSidedItems(a, b), p);
    SharedItem(a, b, q);
    j := OfFirst(SharedItems(a, b), q);
  }

  /** The merge writes one-sided entities first and shared ones second, so its items are ordered
      exactly when every one-sided entity with items precedes every shared one with items. */
  lemma MergeOrderedIff(a: Delta, b: Delta)
    requires WellFormed(a) && WellFormed(b) && Ordered(a.items) && Ordered(b.items)
    ensures Ordered(Merge(a, b).items) <==> OneSidedFirst(a, b)
  {
    var x, y := OneSidedItems(a, b), SharedItems(a, b);
    PartsOrdered(a, b);
    ConcatOrdered(x, y);
    if Ordered(x + y) {
      forall p: nat, q: nat | OneSided(a, b, p) && Shared(a, b, q) ensures p < q {
        var i, j := PartsMeet(a, b, p, q);
        assert x[i].entity <= y[j].entity;
      }
    }
    if OneSidedFirst(a, b) {
      forall i, j | 0 <= i < |x| && 0 <= j < |y| ensures x[i].entity <= y[j].entity {
        PartsFollow(a, b, i, j);
      }
    }
  }

  lemma MergeIntoEmptyOf(b: Delta, id: nat)
    requires WellFormed(b)
    ensures Of(Merge(EMPTY_DELTA, b).items, id) == Of(b.items, id)
  {
    assert SymDiff(b.entities, []) == b.entities;
    EmitOf(EMPTY_DELTA, b, false, b.entities, id);
    assert Merge(EMPTY_DELTA, b).items == OneSidedItems(EMPTY_DELTA, b);
    FindRun(b.items, id);
    if Lookup(b.entities, id).None? {
      NoRecordNoItems(b, id);
    }
  }

  /** Merging into a snapshot that has just been reset gives the other snapshot, ordered. */
  lemma MergeIntoEmpty(b: Delta)
    requires WellFormed(b)
    ensures Merge(EMPTY_DELTA, b).entities == b.entities && Ordered(Merge(EMPTY_DELTA, b).items)
    ensures forall id: nat :: Of(Merge(EMPTY_DELTA, b).items, id) == Of(b.items, id)
  {
    assert StableMerge([], b.entities) == b.entities;
    KeepLastAscending(b.entities);
    assert SymDiff(b.entities, []) == b.entities;
    EmitOrdered(EMPTY_DELTA, b, false, b.entities);
    assert Merge(EMPTY_DELTA, b).items == OneSidedItems(EMPTY_DELTA, b);
    forall id: nat ensures Of(Merge(EMPTY_DELTA, b).items, id) == Of(b.items, id) {
      MergeIntoEmptyOf(b, id);
    }
  }
}
