/** What a delta does to a world, and what merging does to the meaning of deltas: one merge equals
    two steps, and a merged window absorbs a stale acknowledgement. */
module Worlds {
  import opened Packets
  import opened Codecs
  import opened Deltas
  import opened Merges

  datatype Entity = Entity(typ: nat, fields: seq<Bytes>)

  type World = map<nat, Entity>

  function Get(w: World, id: nat): Option<Entity>
  {
    if id in w then Some(w[id]) else None
  }

  // ---------------------------------------------------------------- the meaning of a delta

  /** What one delta says about one entity. */
  datatype Change = Keep | Remove | Touch(typ: nat, count: nat, full: bool, fields: map<nat, Bytes>)

  function ChangeOf(d: Delta, id: nat): Change
  {
    match Lookup(d.entities, id)
    case None => Keep
    case Some(e) =>
      if e.numFields == 0 then Remove else Touch(e.typ, e.numFields, e.full, Fields(Of(d.items, id)))
  }

  /** The client can carry the change out: a partial one needs the entity, and no touch may
      meet an entity of another type. */
  predicate Applicable(c: Change, held: Option<Entity>)
  {
    c.Touch? ==>
      if held.None? then c.full else held.value.typ == c.typ && |held.value.fields| == c.count
  }

  function Apply(c: Change, held: Option<Entity>): Option<Entity>
    requires Applicable(c, held)
  {
    match c
    case Keep => held
    case Remove => None
    case Touch(typ, count, full, fields) =>
      Some(Entity(typ, seq(count, i requires 0 <= i < count =>
        if i in fields then fields[i] else if held.Some? then held.value.fields[i] else [])))
  }

  /** d takes world w to world w'. */
  ghost predicate Step(d: Delta, w: World, w': World)
  {
    forall id: nat :: Applicable(ChangeOf(d, id), Get(w, id)) && Apply(ChangeOf(d, id), Get(w, id)) == Get(w', id)
  }

  lemma StepDeterministic(d: Delta, w: World, w1: World, w2: World)
    requires Step(d, w, w1) && Step(d, w, w2)
    ensures w1 == w2
  {
    forall id: nat ensures Get(w1, id) == Get(w2, id) {
      assert Apply(ChangeOf(d, id), Get(w, id)) == Get(w1, id) == Get(w2, id);
    }
    SameWorld(w1, w2);
  }

  lemma SameWorld(w1: World, w2: World)
    requires forall id: nat :: Get(w1, id) == Get(w2, id)
    ensures w1 == w2
  {
    forall id: nat ensures id in w1 <==> id in w2 {
      assert Get(w1, id) == Get(w2, id);
    }
    forall id: nat | id in w1 ensures w1[id] == w2[id] {
      assert Get(w1, id) == Get(w2, id);
    }
  }

  // ---------------------------------------------------------------- two changes in one

  function Compose(first: Change, second: Change): Change
  {
    if second.Keep? then first
    else if second.Touch? && first.Touch? then second.(fields := first.fields + second.fields)
    else second
  }

  lemma RecordFits(d: Delta, id: nat)
    requires WellFormed(d) && Lookup(d.entities, id).Some?
    ensures RunFits(Lookup(d.entities, id).value, Of(d.items, id))
  {
  }

  lemma ChangeOfShared(a: Delta, b: Delta, id: nat)
    requires WellFormed(a) && WellFormed(b) && Ordered(a.items) && Ordered(b.items)
    requires Lookup(a.entities, id).Some? && Lookup(b.entities, id).Some?
    ensures ChangeOf(Merge(a, b), id) == Compose(ChangeOf(a, id), ChangeOf(b, id))
  {
    UnionLookup(a.entities, b.entities, id);
    MergeOf(a, b, id);
    RecordFits(a, id);
    RecordFits(b, id);
    var older, newer := Of(a.items, id), Of(b.items, id);
    if Lookup(b.entities, id).value.numFields > 0 {
      MergeRunsFields(older, newer);
      if Lookup(a.entities, id).value.numFields == 0 {
        assert older == [];
      }
    }
  }

  lemma ChangeOfMerge(a: Delta, b: Delta, id: nat)
    requires WellFormed(a) && WellFormed(b) && Ordered(a.items) && Ordered(b.items)
    ensures ChangeOf(Merge(a, b), id) == Compose(ChangeOf(a, id), ChangeOf(b, id))
  {
    if Lookup(a.entities, id).Some? && Lookup(b.entities, id).Some? {
      ChangeOfShared(a, b, id);
    } else {
      UnionLookup(a.entities, b.entities, id);
      MergeOf(a, b, id);
    }
  }

  /** Every field number a delta assigns exists, and a full record assigns them all. */
  ghost predicate Fits(c: Change)
  {
    c.Touch? ==> (forall k | k in c.fields :: k < c.count) && (c.full ==> forall k: nat | k < c.count :: k in c.fields)
  }

  lemma ChangeFits(d: Delta, id: nat)
    requires WellFormed(d)
    ensures Fits(ChangeOf(d, id))
  {
    var e := Lookup(d.entities, id);
    if e.Some? {
      var run := Of(d.items, id);
      assert RunFits(e.value, run);
      FieldsBounds(run, 0, e.value.numFields);
      if e.value.full {
        forall k: nat | k < e.value.numFields ensures k in Fields(run) {
          FullRun(run, e.value.numFields, k);
          FieldsAt(run, k);
        }
      }
    }
  }

  /** One change after another is their composition, unless the composition hides a creation
      behind a partial update or a deletion behind a creation with another type. */
  predicate Composable(first: Change, second: Change, held: Option<Entity>)
  {
    && (first.Touch? && first.full && second.Touch? && !second.full ==> held.Some?)
    && (first.Remove? && second.Touch? && held.Some? ==>
          held.value.typ == second.typ && |held.value.fields| == second.count)
  }

  lemma ComposeExact(first: Change, second: Change, held: Option<Entity>)
    requires Fits(first) && Fits(second)
    requires Applicable(first, held) && Applicable(second, Apply(first, held))
    ensures Applicable(Compose(first, second), held) <==> Composable(first, second, held)
    ensures Composable(first, second, held) ==>
              Apply(Compose(first, second), held) == Apply(second, Apply(first, held))
  {
    if Composable(first, second, held) && second.Touch? {
      var once, twice := Apply(Compose(first, second), held).value, Apply(second, Apply(first, held)).value;
      assert once.fields == twice.fields;
      assert Apply(Compose(first, second), held) == Some(once);
    }
  }

  /** The caller's view: what the two snapshots record and the world holds. */
  ghost predicate MergeSafe(a: Delta, b: Delta, w: World)
  {
    forall id: nat :: Composable(ChangeOf(a, id), ChangeOf(b, id), Get(w, id))
  }

  /** Merging preserves meaning: where the two deltas take w to w2, their merge does so if and
      only if it is safe for w. */
  lemma MergePreservesMeaning(a: Delta, b: Delta, w: World, w1: World, w2: World)
    requires WellFormed(a) && WellFormed(b) && Ordered(a.items) && Ordered(b.items)
    requires Step(a, w, w1) && Step(b, w1, w2)
    ensures Step(Merge(a, b), w, w2) <==> MergeSafe(a, b, w)
  {
    forall id: nat
      ensures Applicable(ChangeOf(Merge(a, b), id), Get(w, id)) <==>
              Composable(ChangeOf(a, id), ChangeOf(b, id), Get(w, id))
      ensures Composable(ChangeOf(a, id), ChangeOf(b, id), Get(w, id)) ==>
                Apply(ChangeOf(Merge(a, b), id), Get(w, id)) == Get(w2, id)
    {
      ChangeOfMerge(a, b, id);
      ChangeFits(a, id);
      ChangeFits(b, id);
      assert Apply(ChangeOf(a, id), Get(w, id)) == Get(w1, id);
      assert Apply(ChangeOf(b, id), Get(w1, id)) == Get(w2, id);
      ComposeExact(ChangeOf(a, id), ChangeOf(b, id), Get(w, id));
    }
  }

  // ---------------------------------------------------------------- a window of deltas

  /** The snapshot that has been reset and then merged with each delta of the window in turn. */
  function MergeAll(ds: seq<Delta>): Delta
  {
    if ds == [] then EMPTY_DELTA else Merge(MergeAll(ds[..|ds| - 1]), ds[|ds| - 1])
  }

  /** ws are the worlds before, between and after the deltas of the window. */
  ghost predicate History(ds: seq<Delta>, ws: seq<World>)
  {
    && |ws| == |ds| + 1
    && (forall i | 0 <= i < |ds| :: WellFormed(ds[i]) && Ordered(ds[i].items))
    && (forall i | 0 <= i < |ds| :: Step(ds[i], ws[i], ws[i + 1]))
  }

  /** Every merge of the window but the last hands an ordered list to the next. */
  ghost predicate OrderedBefore(ds: seq<Delta>)
  {
    forall k | 0 <= k < |ds| :: Ordered(MergeAll(ds[..k]).items)
  }

  /** What the composition c of changes up to `now` says to an entity as it was `then`. */
  ghost predicate Accounts(c: Change, earlier: Option<Entity>, now: Option<Entity>)
  {
    match c
    case Keep => earlier == now
    case Remove => now.None?
    case Touch(typ, count, full, fields) =>
      && now.Some? && now.value.typ == typ && |now.value.fields| == count
      && (forall k | k in fields :: k < count && now.value.fields[k] == fields[k])
      && (full ==> forall k: nat | k < count :: k in fields)
      && (earlier.Some? && earlier.value.typ == typ && |earlier.value.fields| == count ==>
            forall k: nat | k < count && k !in fields :: earlier.value.fields[k] == now.value.fields[k])
  }

  lemma AccountsStep(c: Change, next: Change, earlier: Option<Entity>, now: Option<Entity>)
    requires Accounts(c, earlier, now) && Fits(next) && Applicable(next, now)
    ensures Accounts(Compose(c, next), earlier, Apply(next, now))
  {
  }

  lemma AccountsExact(c: Change, earlier: Option<Entity>, now: Option<Entity>)
    requires Accounts(c, earlier, now)
    ensures Applicable(c, earlier) ==> Apply(c, earlier) == now
  {
    if Applicable(c, earlier) && c.Touch? {
      assert Apply(c, earlier).value.fields == now.value.fields;
    }
  }

  ghost predicate AccountsWorld(d: Delta, w: World, w': World)
  {
    forall id: nat :: Accounts(ChangeOf(d, id), Get(w, id), Get(w', id))
  }

  lemma AccountsCompatible(d: Delta, next: Delta, w: World, w': World, w'': World)
    requires AccountsWorld(d, w, w') && Step(next, w', w'')
    ensures Compatible(d, next)
  {
    forall id: nat | Lookup(d.entities, id).Some? && Lookup(next.entities, id).Some?
      ensures Lookup(d.entities, id).value.numFields > 0 && Lookup(next.entities, id).value.numFields > 0 ==>
                Lookup(d.entities, id).value.numFields == Lookup(next.entities, id).value.numFields &&
                Lookup(d.entities, id).value.typ == Lookup(next.entities, id).value.typ
    {
      assert Accounts(ChangeOf(d, id), Get(w, id), Get(w', id));
      assert Applicable(ChangeOf(next, id), Get(w', id));
    }
  }

  lemma AccountsMerge(d: Delta, next: Delta, w: World, w': World, w'': World)
    requires WellFormed(d) && Ordered(d.items) && WellFormed(next) && Ordered(next.items)
    requires AccountsWorld(d, w, w') && Step(next, w', w'')
    ensures AccountsWorld(Merge(d, next), w, w'')
  {
    forall id: nat ensures Accounts(ChangeOf(Merge(d, next), id), Get(w, id), Get(w'', id)) {
      ChangeOfMerge(d, next, id);
      ChangeFits(next, id);
      assert Applicable(ChangeOf(next, id), Get(w', id)) && Apply(ChangeOf(next, id), Get(w', id)) == Get(w'', id);
      assert Accounts(ChangeOf(d, id), Get(w, id), Get(w', id));
      AccountsStep(ChangeOf(d, id), ChangeOf(next, id), Get(w, id), Get(w', id));
    }
  }

  lemma AccountsReflexive(d: Delta, w: World, w': World)
    requires AccountsWorld(d, w, w')
    ensures AccountsWorld(d, w', w')
  {
    forall id: nat ensures Accounts(ChangeOf(d, id), Get(w', id), Get(w', id)) {
      assert Accounts(ChangeOf(d, id), Get(w, id), Get(w', id));
    }
  }

  lemma WindowGrows(d: Delta, next: Delta, w: World, w': World, w'': World)
    requires WellFormed(d) && Ordered(d.items) && WellFormed(next) && Ordered(next.items)
    requires AccountsWorld(d, w, w') && Step(next, w', w'')
    ensures WellFormed(Merge(d, next))
    ensures AccountsWorld(Merge(d, next), w, w'') && AccountsWorld(Merge(d, next), w'', w'')
  {
    AccountsCompatible(d, next, w, w', w'');
    MergeWellFormed(d, next);
    AccountsMerge(d, next, w, w', w'');
    AccountsReflexive(Merge(d, next), w, w'');
  }

  /** A window without its last tick. */
  lemma WindowInit(ds: seq<Delta>, ws: seq<World>)
    requires ds != [] && History(ds, ws) && OrderedBefore(ds)
    ensures var n := |ds| - 1;
            History(ds[..n], ws[..n + 1]) && OrderedBefore(ds[..n]) && MergeAll(ds) == Merge(MergeAll(ds[..n]), ds[n])
    ensures var n := |ds| - 1;
            WellFormed(ds[n]) && Ordered(ds[n].items) && Ordered(MergeAll(ds[..n]).items) && Step(ds[n], ws[n], ws[n + 1])
  {
    hide Ordered, WellFormed, Step, Merge;
    var n := |ds| - 1;
    forall k | 0 <= k < n
      ensures Ordered(MergeAll(ds[..n][..k]).items)
    {
      assert ds[..n][..k] == ds[..k];
    }
  }

  lemma NothingAccounts(w: World)
    ensures WellFormed(MergeAll([])) && AccountsWorld(MergeAll([]), w, w)
  {
    assert forall id: nat :: ChangeOf(EMPTY_DELTA, id) == Keep;
  }

  /** The merge of the window accounts for the way from every world of it to the last. */
  lemma {:induction false} WindowAccounts(ds: seq<Delta>, ws: seq<World>, t: nat)
    requires |ws| == |ds| + 1 && History(ds, ws) && OrderedBefore(ds) && t <= |ds|
    ensures WellFormed(MergeAll(ds))
    ensures AccountsWorld(MergeAll(ds), ws[t], ws[|ds|])
    decreases |ds|
  {
    hide History, OrderedBefore, MergeAll, WellFormed, AccountsWorld, Step, Ordered, Merge;
    if ds == [] {
      NothingAccounts(ws[t]);
    } else {
      var n := |ds| - 1;
      var init, past := ds[..n], ws[..n + 1];
      WindowInit(ds, ws);
      var s := if t <= n then t else n;
      WindowAccounts(init, past, s);
      WindowGrows(MergeAll(init), ds[n], past[s], past[n], ws[n + 1]);
    }
  }

  /** A client that has already reached any world of the window is taken to the newest world by the
      merge of the whole window, if and only if the merge applies to what it holds. */
  lemma MergedStepIff(ds: seq<Delta>, ws: seq<World>, t: nat)
    requires History(ds, ws) && OrderedBefore(ds) && t <= |ds|
    ensures Step(MergeAll(ds), ws[t], ws[|ds|]) <==>
            forall id: nat :: Applicable(ChangeOf(MergeAll(ds), id), Get(ws[t], id))
  {
    WindowAccounts(ds, ws, t);
    forall id: nat
      ensures Applicable(ChangeOf(MergeAll(ds), id), Get(ws[t], id)) ==>
                Apply(ChangeOf(MergeAll(ds), id), Get(ws[t], id)) == Get(ws[|ds|], id)
    {
      assert Accounts(ChangeOf(MergeAll(ds), id), Get(ws[t], id), Get(ws[|ds|], id));
      AccountsExact(ChangeOf(MergeAll(ds), id), Get(ws[t], id), Get(ws[|ds|], id));
    }
  }

  // ---------------------------------------------------------------- where the shipped order fails

  /** Two ticks: both update entity 1, the first also entity 2. */
  const FIRST_TICK := Delta([EntityInfo(2, 1, 0, false), EntityInfo(2, 2, 0, false)],
                           [Item(1, 0, [10]), Item(2, 0, [20])])
  const SECOND_TICK := Delta([EntityInfo(2, 1, 0, false)], [Item(1, 1, [11])])

  lemma OfPair(x: Item, y: Item, eid: nat)
    ensures Of([x], eid) == if x.entity == eid then [x] else []
    ensures Of([x, y], eid) == (if x.entity == eid then [x] else []) + Of([y], eid)
    ensures Of([y], eid) == if y.entity == eid then [y] else []
  {
    assert [x, y][1..] == [y] && [y][1..] == [] && [x][1..] == [];
  }

  lemma FirstOnly()
    ensures OneSidedItems(FIRST_TICK, SECOND_TICK) == [Item(2, 0, [20])]
  {
    var a, b, y := FIRST_TICK, SECOND_TICK, Item(2, 0, [20]);
    var e, f := a.entities[0], a.entities[1];
    assert SymDiff([e], [e, f]) == [f] by {
      assert [e][1..] == [] && [e, f][1..] == [f];
    }
    assert Find(a.items, 2, 0) == 1 && RunAt(a.items, 2, 2) == [];
    assert OneSidedChunk(a, b, 2) == [y];
    assert Emit(a, b, false, [f]) == [y] + Emit(a, b, false, []);
  }

  lemma Both()
    ensures SharedItems(FIRST_TICK, SECOND_TICK) == [Item(1, 0, [10]), Item(1, 1, [11])]
  {
    var a, b, x, z := FIRST_TICK, SECOND_TICK, Item(1, 0, [10]), Item(1, 1, [11]);
    var e, f := a.entities[0], a.entities[1];
    assert Intersect([e], [e, f]) == [e] by {
      assert [e][1..] == [] && [e, f][1..] == [f];
    }
    SeekRunOrdered(a.items, 1);
    SeekRunOrdered(b.items, 1);
    OfPair(x, a.items[1], 1);
    OfPair(z, z, 1);
    assert MergeRuns([x], [z]) == [x] + MergeRuns([], [z]);
    assert SharedChunk(a, b, e) == [x, z];
    assert Emit(a, b, true, [e]) == [x, z] + Emit(a, b, true, []);
  }

  /** Their merge holds both updates of entity 1, but behind entity 2, where the binary search of
      the writer and of the next merge does not find them. */
  lemma UnorderedMergeHidesFields()
    ensures Ordered(FIRST_TICK.items) && Ordered(SECOND_TICK.items)
    ensures Merge(FIRST_TICK, SECOND_TICK).items == [Item(2, 0, [20]), Item(1, 0, [10]), Item(1, 1, [11])]
    ensures SeekRun(Merge(FIRST_TICK, SECOND_TICK).items, 1) == []
    ensures Of(Merge(FIRST_TICK, SECOND_TICK).items, 1) == [Item(1, 0, [10]), Item(1, 1, [11])]
  {
    var x, y, z := Item(1, 0, [10]), Item(2, 0, [20]), Item(1, 1, [11]);
    FirstOnly();
    Both();
    var m := [y, x, z];
    assert LowerBound(m, 1, 0, 1) == 0;
    assert LowerBound(m, 1, 0, 3) == LowerBound(m, 1, 0, 1);
    assert m[1..] == [x, z];
    OfPair(x, z, 1);
  }
}
