/** What a merged window does, in terms of the ticks in it: which record of an entity counts, when
    the merged list stays ordered, and which clients the merge takes to the newest world. */
module Windows {
  import opened Packets
  import opened Codecs
  import opened Deltas
  import opened Merges
  import opened Worlds

  // ---------------------------------------------------------------- records

  /** The record of the last tick that names the entity. */
  function NewestRecord(ds: seq<Delta>, id: nat): Option<EntityInfo>
  {
    if ds == [] then None
    else
      var e := Lookup(ds[|ds| - 1].entities, id);
      if e.Some? then e else NewestRecord(ds[..|ds| - 1], id)
  }

  ghost predicate AllAscend(ds: seq<Delta>)
  {
    forall i :: 0 <= i < |ds| ==> Ascending(ds[i].entities)
  }

  /** The merge of the window records, of every entity, what the last tick that names it did. */
  lemma {:induction false} MergeAllLookup(ds: seq<Delta>, id: nat)
    requires AllAscend(ds)
    ensures Ascending(MergeAll(ds).entities)
    ensures Lookup(MergeAll(ds).entities, id) == NewestRecord(ds, id)
  {
    hide Ascending, Merge;
    if ds == [] {
      NothingNamed(id);
    } else {
      var n := |ds| - 1;
      MergeAllLookup(ds[..n], id);
      MergedRecords(MergeAll(ds[..n]), ds[n]);
      UnionLookup(MergeAll(ds[..n]).entities, ds[n].entities, id);
    }
  }

  lemma NothingNamed(id: nat)
    ensures Ascending(EMPTY_DELTA.entities) && Lookup(EMPTY_DELTA.entities, id).None?
  {
  }

  lemma MergedRecords(a: Delta, b: Delta)
    ensures Merge(a, b).entities == Union(a.entities, b.entities)
  {
    hide Union;
  }

  lemma HistoryAscends(ds: seq<Delta>, ws: seq<World>)
    requires History(ds, ws)
    ensures AllAscend(ds)
  {
    hide Step, Ordered;
  }

  // ---------------------------------------------------------------- items

  /** Whether the window still holds fields of the entity: some tick since its last deletion gave it some. */
  function Carries(ds: seq<Delta>, id: nat): bool
  {
    ds != [] &&
    var d := ds[|ds| - 1];
    match Lookup(d.entities, id)
    case None => Carries(ds[..|ds| - 1], id)
    case Some(e) => e.numFields > 0 && (Of(d.items, id) != [] || Carries(ds[..|ds| - 1], id))
  }

  lemma MergeRunsNonempty(older: Items, newer: Items)
    ensures MergeRuns(older, newer) == [] <==> older == [] && newer == []
  {
  }

  /** The fields of one entity after one more merge. */
  lemma CarriesNext(a: Delta, b: Delta, id: nat)
    requires WellFormed(a) && WellFormed(b) && Ordered(a.items) && Ordered(b.items)
    ensures Of(Merge(a, b).items, id) == MergedRun(a, b, id)
    ensures MergedRun(a, b, id) != [] <==>
            match Lookup(b.entities, id)
            case None => Of(a.items, id) != []
            case Some(e) => e.numFields > 0 && (Of(b.items, id) != [] || Of(a.items, id) != [])
  {
    hide MergeRuns, Of, WellFormed, Ordered;
    MergeOf(a, b, id);
    MergeRunsNonempty(Of(a.items, id), Of(b.items, id));
    if Lookup(a.entities, id).None? {
      NoRecordNoItems(a, id);
    }
    if Lookup(b.entities, id).Some? && Lookup(b.entities, id).value.numFields == 0 {
      DeletionCarriesNone(b, id);
    }
  }

  lemma DeletionCarriesNone(d: Delta, id: nat)
    requires WellFormed(d) && Lookup(d.entities, id).Some? && Lookup(d.entities, id).value.numFields == 0
    ensures Of(d.items, id) == []
  {
    var run := Of(d.items, id);
    RecordFits(d, id);
    FieldsBounds(run, 0, 0);
    if run != [] {
      FieldsAt(run, run[0].number);
    }
  }

  lemma {:induction false} CarriesIff(ds: seq<Delta>, ws: seq<World>, id: nat)
    requires |ws| == |ds| + 1 && History(ds, ws) && OrderedBefore(ds)
    ensures Of(MergeAll(ds).items, id) != [] <==> Carries(ds, id)
  {
    hide History, OrderedBefore, Merge, WellFormed, Ordered, Step, Of, AccountsWorld;
    if ds == [] {
      NothingOf(id);
    } else {
      var n := |ds| - 1;
      WindowInit(ds, ws);
      CarriesIff(ds[..n], ws[..n + 1], id);
      WindowAccounts(ds[..n], ws[..n + 1], 0);
      CarriesNext(MergeAll(ds[..n]), ds[n], id);
    }
  }

  lemma NothingOf(id: nat)
    ensures Of(EMPTY_DELTA.items, id) == []
  {
  }

  // ---------------------------------------------------------------- order

  /** Entity p is named by tick k or by the window before it but not by both, and has fields. */
  predicate JoinsAlone(ds: seq<Delta>, k: nat, p: nat)
    requires k < |ds|
  {
    NewestRecord(ds[..k], p).Some? != Lookup(ds[k].entities, p).Some? && Carries(ds[..k + 1], p)
  }

  /** Entity q is named by both, and has fields. */
  predicate MeetsAgain(ds: seq<Delta>, k: nat, q: nat)
    requires k < |ds|
  {
    NewestRecord(ds[..k], q).Some? && Lookup(ds[k].entities, q).Some? && Carries(ds[..k + 1], q)
  }

  /** The entities that only one side names come before those that both name. */
  ghost predicate InOrderAt(ds: seq<Delta>, k: nat)
    requires k < |ds|
  {
    forall p: nat, q: nat :: JoinsAlone(ds, k, p) && MeetsAgain(ds, k, q) ==> p < q
  }

  ghost predicate InOrderUpTo(ds: seq<Delta>, n: nat)
    requires n <= |ds|
  {
    forall k: nat :: k < n ==> InOrderAt(ds, k)
  }

  /** So of every tick of the window. */
  ghost predicate TicksInOrder(ds: seq<Delta>)
  {
    InOrderUpTo(ds, |ds|)
  }

  ghost predicate OrderedUpTo(ds: seq<Delta>, n: nat)
    requires n <= |ds|
  {
    forall k: nat :: k <= n ==> Ordered(MergeAll(ds[..k]).items)
  }

  lemma PrefixHistory(ds: seq<Delta>, ws: seq<World>, k: nat)
    requires History(ds, ws) && k <= |ds|
    ensures History(ds[..k], ws[..k + 1])
  {
    hide Step, WellFormed, Ordered;
  }

  lemma PrefixOrdered(ds: seq<Delta>, n: nat)
    requires n <= |ds| && OrderedUpTo(ds, n)
    ensures OrderedBefore(ds[..n])
  {
    hide Ordered, MergeAll;
    forall k | 0 <= k < n
      ensures Ordered(MergeAll(ds[..n][..k]).items)
    {
      assert ds[..n][..k] == ds[..k];
    }
  }

  /** One more merge of a window ordered so far. */
  lemma OrderedNext(ds: seq<Delta>, ws: seq<World>, k: nat)
    requires History(ds, ws) && k < |ds| && OrderedUpTo(ds, k)
    ensures Ordered(MergeAll(ds[..k + 1]).items) <==> InOrderAt(ds, k)
  {
    hide History, OrderedBefore, OrderedUpTo, Merge, WellFormed, Ordered, Step, AccountsWorld, MergedRun, Carries, NewestRecord;
    PrefixHistory(ds, ws, k);
    PrefixOrdered(ds, k);
    var m := MergeAll(ds[..k]);
    LastMerge(ds, ws, k);
    LengthOf(ds, ws);
    WindowAccounts(ds[..k], ws[..k + 1], 0);
    MergeOrderedIff(m, ds[k]);
    HistoryAscends(ds, ws);
    forall id: nat
      ensures OneSided(m, ds[k], id) <==> JoinsAlone(ds, k, id)
      ensures Shared(m, ds[k], id) <==> MeetsAgain(ds, k, id)
    {
      SidesAre(ds, ws, k, id);
    }
  }

  lemma LengthOf(ds: seq<Delta>, ws: seq<World>)
    requires History(ds, ws)
    ensures |ws| == |ds| + 1
  {
  }

  lemma LastMerge(ds: seq<Delta>, ws: seq<World>, k: nat)
    requires History(ds, ws) && k < |ds| && OrderedUpTo(ds, k)
    ensures MergeAll(ds[..k + 1]) == Merge(MergeAll(ds[..k]), ds[k])
    ensures WellFormed(ds[k]) && Ordered(ds[k].items) && Ordered(MergeAll(ds[..k]).items)
  {
    hide Merge, WellFormed, Ordered, Step;
    assert ds[..k + 1][..k] == ds[..k];
  }

  lemma SidesAre(ds: seq<Delta>, ws: seq<World>, k: nat, id: nat)
    requires History(ds, ws) && k < |ds| && OrderedUpTo(ds, k)
    ensures var m := MergeAll(ds[..k]);
            && (OneSided(m, ds[k], id) <==> JoinsAlone(ds, k, id))
            && (Shared(m, ds[k], id) <==> MeetsAgain(ds, k, id))
  {
    hide History, OrderedBefore, OrderedUpTo, Merge, MergeAll, WellFormed, Ordered, Step, AccountsWorld, MergedRun,
      NewestRecord, Of, AllAscend;
    var m := MergeAll(ds[..k]);
    PrefixHistory(ds, ws, k);
    PrefixOrdered(ds, k);
    LengthOf(ds, ws);
    LastMerge(ds, ws, k);
    WindowAccounts(ds[..k], ws[..k + 1], 0);
    HistoryAscends(ds[..k], ws[..k + 1]);
    MergeAllLookup(ds[..k], id);
    CarriesIff(ds[..k], ws[..k + 1], id);
    CarriesNext(m, ds[k], id);
    CarriesTurn(ds, k, id);
  }

  lemma CarriesTurn(ds: seq<Delta>, k: nat, id: nat)
    requires k < |ds|
    ensures Carries(ds[..k + 1], id) <==>
            match Lookup(ds[k].entities, id)
            case None => Carries(ds[..k], id)
            case Some(e) => e.numFields > 0 && (Of(ds[k].items, id) != [] || Carries(ds[..k], id))
  {
    hide Of;
    assert ds[..k + 1][..k] == ds[..k];
  }

  lemma {:induction false} OrderedUpToIff(ds: seq<Delta>, ws: seq<World>, n: nat)
    requires History(ds, ws) && n <= |ds|
    ensures OrderedUpTo(ds, n) <==> InOrderUpTo(ds, n)
  {
    hide History, InOrderAt, Ordered, MergeAll;
    if n == 0 {
      NothingOrdered();
      assert ds[..0] == [];
    } else {
      OrderedUpToIff(ds, ws, n - 1);
      OneMoreOrdered(ds, n - 1);
      if OrderedUpTo(ds, n - 1) {
        OrderedNext(ds, ws, n - 1);
      }
    }
  }

  lemma NothingOrdered()
    ensures Ordered(MergeAll([]).items)
  {
  }

  lemma OneMoreOrdered(ds: seq<Delta>, n: nat)
    requires n < |ds|
    ensures OrderedUpTo(ds, n + 1) <==> OrderedUpTo(ds, n) && Ordered(MergeAll(ds[..n + 1]).items)
    ensures InOrderUpTo(ds, n + 1) <==> InOrderUpTo(ds, n) && InOrderAt(ds, n)
  {
    hide Ordered, MergeAll, InOrderAt;
    if OrderedUpTo(ds, n) && Ordered(MergeAll(ds[..n + 1]).items) {
      forall k: nat | k <= n + 1
        ensures Ordered(MergeAll(ds[..k]).items)
      {
        if k <= n {
          assert Ordered(MergeAll(ds[..k]).items);
        }
      }
    }
  }

  /** All merges of the window hand an ordered list on, the last one to the writer, if and only if
      at every tick the entities it shares with the ticks before come last. */
  lemma WindowOrderedIff(ds: seq<Delta>, ws: seq<World>)
    requires History(ds, ws)
    ensures OrderedBefore(ds) && Ordered(MergeAll(ds).items) <==> TicksInOrder(ds)
  {
    hide History, InOrderAt, Ordered, MergeAll;
    OrderedUpToIff(ds, ws, |ds|);
    assert ds[..|ds|] == ds;
    if OrderedBefore(ds) && Ordered(MergeAll(ds).items) {
      forall k: nat | k <= |ds|
        ensures Ordered(MergeAll(ds[..k]).items)
      {
        if k < |ds| {
          assert Ordered(MergeAll(ds[..k]).items);
        }
      }
    }
  }

  // ---------------------------------------------------------------- who is taken to the newest world

  /** What a record asks of a client: to hold what it updates partially, and to hold nothing of
      another type or number of fields under its id unless it deletes it. */
  predicate Meets(e: EntityInfo, held: Option<Entity>)
  {
    e.numFields == 0 ||
    if held.None? then e.full else held.value.typ == e.typ && |held.value.fields| == e.numFields
  }

  ghost predicate MeetsNewest(ds: seq<Delta>, w: World)
  {
    forall id: nat :: NewestRecord(ds, id).Some? ==> Meets(NewestRecord(ds, id).value, Get(w, id))
  }

  lemma RecordApplies(d: Delta, id: nat, held: Option<Entity>)
    ensures Applicable(ChangeOf(d, id), held) <==>
            (Lookup(d.entities, id).Some? ==> Meets(Lookup(d.entities, id).value, held))
  {
  }

  /** Stale acknowledgements are absorbed. A client that has already reached any world of the window
      is taken to the newest world by the merge of the whole window, if and only if, for every
      entity the window names, the last tick that names it deletes it, updates it as the client
      holds it, or creates it where the client holds nothing else. */
  lemma StaleAckAbsorbed(ds: seq<Delta>, ws: seq<World>, t: nat)
    requires History(ds, ws) && InOrderUpTo(ds, if ds == [] then 0 else |ds| - 1) && t <= |ds|
    ensures Step(MergeAll(ds), ws[t], ws[|ds|]) <==> MeetsNewest(ds, ws[t])
  {
    hide History, Step, MergeAll, NewestRecord, Meets, InOrderUpTo, OrderedUpTo, Applicable, ChangeOf;
    var n := if ds == [] then 0 else |ds| - 1;
    OrderedUpToIff(ds, ws, n);
    BeforeLast(ds);
    LengthOf(ds, ws);
    MergedStepIff(ds, ws, t);
    HistoryAscends(ds, ws);
    forall id: nat
      ensures Applicable(ChangeOf(MergeAll(ds), id), Get(ws[t], id)) <==>
              (NewestRecord(ds, id).Some? ==> Meets(NewestRecord(ds, id).value, Get(ws[t], id)))
    {
      MergeAllLookup(ds, id);
      RecordApplies(MergeAll(ds), id, Get(ws[t], id));
    }
  }

  lemma BeforeLast(ds: seq<Delta>)
    requires OrderedUpTo(ds, if ds == [] then 0 else |ds| - 1)
    ensures OrderedBefore(ds)
  {
    hide Ordered, MergeAll;
  }

  /** Ticks that all name the same entities are always in order. */
  lemma SameEntitiesInOrder(ds: seq<Delta>, ws: seq<World>)
    requires History(ds, ws)
    requires forall i, id: nat :: 0 <= i < |ds| ==> (Lookup(ds[i].entities, id).Some? <==> Lookup(ds[0].entities, id).Some?)
    ensures TicksInOrder(ds)
  {
    hide History, Carries;
    forall k: nat | k < |ds|
      ensures InOrderAt(ds, k)
    {
      if k == 0 {
        assert ds[..0] == [];
        assert forall id: nat :: NewestRecord(ds[..0], id).None?;
      } else {
        forall id: nat
          ensures !JoinsAlone(ds, k, id)
        {
          SameNamed(ds, k, id);
        }
      }
    }
  }

  lemma {:induction false} SameNamed(ds: seq<Delta>, k: nat, id: nat)
    requires 0 < k <= |ds|
    requires forall i :: 0 <= i < |ds| ==> (Lookup(ds[i].entities, id).Some? <==> Lookup(ds[0].entities, id).Some?)
    ensures NewestRecord(ds[..k], id).Some? <==> Lookup(ds[0].entities, id).Some?
  {
    assert ds[..k][..k - 1] == ds[..k - 1];
    if k > 1 {
      SameNamed(ds, k - 1, id);
    } else {
      assert ds[..k - 1] == [];
    }
  }
}
