/** From the server's ring of deltas to the client's world: the bytes of a merged window bring every
    client inside the window to the newest world (src/nrg_serverstate.cpp:250-281). */
module StaleAcks {
  import opened Packets
  import opened Codecs
  import opened Deltas
  import opened Merges
  import opened Worlds
  import opened Windows
  import opened SnapshotWire
  import opened SnapshotRoundTrip

  lemma {:induction false} MergeRunsEncoded(spec: EntityType, older: Items, newer: Items)
    requires Encoded(spec, older) && Encoded(spec, newer)
    ensures Encoded(spec, MergeRuns(older, newer))
    decreases |older| + |newer|
  {
    hide WellEncoded;
    if older != [] {
      if newer != [] && newer[0].number <= older[0].number {
        MergeRunsEncoded(spec, if newer[0].number == older[0].number then older[1..] else older, newer[1..]);
      } else {
        MergeRunsEncoded(spec, older[1..], newer);
      }
    }
  }

  lemma KnownMerge(schema: Schema, a: Delta, b: Delta, e: EntityInfo)
    requires WellFormed(a) && WellFormed(b) && Ordered(a.items) && Ordered(b.items) && Compatible(a, b)
    requires Describes(schema, a) && Describes(schema, b)
    requires e in Merge(a, b).entities && Lookup(Merge(a, b).entities, e.id) == Some(e)
    ensures Known(schema, Merge(a, b).items, e)
  {
    hide Encoded, Of;
    MergeOf(a, b, e.id);
    UnionLookup(a.entities, b.entities, e.id);
    var x, y := Lookup(a.entities, e.id), Lookup(b.entities, e.id);
    assert x.Some? ==> Known(schema, a.items, x.value);
    assert y.Some? ==> Known(schema, b.items, y.value);
    if x.Some? && y.Some? && e.numFields > 0 {
      if x.value.numFields == 0 {
        RecordFits(a, e.id);
        DeletionCarriesNone(a, e.id);
        EncodedNone(schema[e.typ]);
      }
      MergeRunsEncoded(schema[e.typ], Of(a.items, e.id), Of(b.items, e.id));
    }
  }

  lemma EncodedNone(spec: EntityType)
    ensures Encoded(spec, [])
  {
  }

  lemma DescribesMerge(schema: Schema, a: Delta, b: Delta)
    requires WellFormed(a) && WellFormed(b) && Ordered(a.items) && Ordered(b.items) && Compatible(a, b)
    requires Describes(schema, a) && Describes(schema, b)
    ensures Describes(schema, Merge(a, b))
  {
    forall e | e in Merge(a, b).entities ensures Known(schema, Merge(a, b).items, e) {
      UnionLookup(a.entities, b.entities, e.id);
      LookupMember(Merge(a, b).entities, e);
      KnownMerge(schema, a, b, e);
    }
  }

  lemma HistoryInit(ds: seq<Delta>, ws: seq<World>)
    requires History(ds, ws) && OrderedBefore(ds) && ds != []
    ensures var n := |ds| - 1; History(ds[..n], ws[..n + 1]) && OrderedBefore(ds[..n])
  {
    hide Step, WellFormed, Ordered, MergeAll;
    var n := |ds| - 1;
    forall k | 0 <= k < n ensures Ordered(MergeAll(ds[..n][..k]).items) {
      assert ds[..n][..k] == ds[..k];
    }
  }

  lemma {:induction false} WindowDescribes(schema: Schema, ds: seq<Delta>, ws: seq<World>)
    requires History(ds, ws) && OrderedBefore(ds) && forall d | d in ds :: Describes(schema, d)
    ensures Describes(schema, MergeAll(ds))
    decreases |ds|
  {
    hide Describes, Merge, Step, AccountsWorld, WellFormed, Ordered;
    if ds == [] {
      NothingDescribed(schema);
    } else {
      var n := |ds| - 1;
      HistoryInit(ds, ws);
      WindowDescribes(schema, ds[..n], ws[..n + 1]);
      WindowAccounts(ds[..n], ws[..n + 1], 0);
      AccountsCompatible(MergeAll(ds[..n]), ds[n], ws[0], ws[n], ws[n + 1]);
      DescribesMerge(schema, MergeAll(ds[..n]), ds[n]);
    }
  }

  lemma NothingDescribed(schema: Schema)
    ensures Describes(schema, EMPTY_DELTA)
  {
  }

  /** The merged window read back by a client at world t of it, in terms of the merge. */
  lemma MergedDelivered(schema: Schema, ds: seq<Delta>, ws: seq<World>, t: nat, buf: Bytes, pos: nat)
    requires History(ds, ws) && OrderedBefore(ds) && Ordered(MergeAll(ds).items) && t <= |ds|
    requires forall d | d in ds :: Describes(schema, d)
    requires Conforms(schema, ws[t]) && NoClash(MergeAll(ds), MergeAll(ds).entities, ws[t])
    requires pos <= |buf| && At(buf, pos, SnapshotBytes(MergeAll(ds), ExactCounts(MergeAll(ds).entities)))
    ensures var d := MergeAll(ds); var r := ReadSnapshot(schema, buf, pos, ws[t]);
            if Holds(d, ws[t]) then r == Done(ws[|ds|], pos + |SnapshotBytes(d, ExactCounts(d.entities))|)
            else r.Rejected?
  {
    hide At, ReadSnapshot, SnapshotBytes, WorldAfter;
    var d := MergeAll(ds);
    WindowAccounts(ds, ws, t);
    WindowDescribes(schema, ds, ws);
    ReadBack(schema, d, buf, pos, ws[t]);
    HoldsIsSuited(d, ws[t]);
    MergedStepIff(ds, ws, t);
    if Holds(d, ws[t]) {
      StepDeterministic(d, ws[t], WorldAfter(d, ws[t]), ws[|ds|]);
    }
  }

  /** No entity the client holds was last recorded with another type or number of fields. */
  ghost predicate TypesKept(ds: seq<Delta>, w: World)
  {
    forall id: nat :: NewestRecord(ds, id).Some? && id in w ==> Meets(NewestRecord(ds, id).value, Get(w, id))
  }

  /** The client holds every entity whose last record in the window is a partial one. */
  ghost predicate HoldsUpdated(ds: seq<Delta>, w: World)
  {
    forall id: nat :: NewestRecord(ds, id).Some? && IsPartial(NewestRecord(ds, id).value) ==> id in w
  }

  lemma TypesKeptIsNoClash(ds: seq<Delta>, w: World)
    requires AllAscend(ds)
    ensures TypesKept(ds, w) <==> NoClash(MergeAll(ds), MergeAll(ds).entities, w)
  {
    hide MergeAll, NewestRecord, Meets, Applicable, ChangeOf, AllAscend;
    var d := MergeAll(ds);
    if TypesKept(ds, w) {
      forall e | e in d.entities && e.id in w
        ensures Applicable(ChangeOf(d, e.id), Get(w, e.id))
      {
        MergeAllLookup(ds, e.id);
        LookupMember(d.entities, e);
        RecordApplies(d, e.id, Get(w, e.id));
      }
    }
    if NoClash(d, d.entities, w) {
      forall id: nat | NewestRecord(ds, id).Some? && id in w
        ensures Meets(NewestRecord(ds, id).value, Get(w, id))
      {
        MergeAllLookup(ds, id);
        RecordApplies(d, id, Get(w, id));
        assert Lookup(d.entities, id).value in d.entities;
      }
    }
  }

  lemma HoldsUpdatedIsHolds(ds: seq<Delta>, w: World)
    requires AllAscend(ds)
    ensures HoldsUpdated(ds, w) <==> Holds(MergeAll(ds), w)
  {
    hide MergeAll, NewestRecord, AllAscend, IsPartial;
    var d := MergeAll(ds);
    if HoldsUpdated(ds, w) {
      forall e | e in d.entities && IsPartial(e)
        ensures e.id in w
      {
        MergeAllLookup(ds, e.id);
        LookupMember(d.entities, e);
      }
    }
    if Holds(d, w) {
      forall id: nat | NewestRecord(ds, id).Some? && IsPartial(NewestRecord(ds, id).value)
        ensures id in w
      {
        MergeAllLookup(ds, id);
        assert Lookup(d.entities, id).value in d.entities;
      }
    }
  }

  /** Stale acknowledgements on the wire. The server merges everything since the acknowledged tick
      and writes the result; a client already at any later tick t of the window reads the bytes and
      is then exactly at the newest world, if it holds the entities that the window last updates
      partially. If it does not, it rejects the packet. */
  lemma WindowDelivered(schema: Schema, ds: seq<Delta>, ws: seq<World>, t: nat, buf: Bytes, pos: nat)
    requires History(ds, ws) && TicksInOrder(ds) && t <= |ds|
    requires forall d | d in ds :: Describes(schema, d)
    requires Conforms(schema, ws[t]) && TypesKept(ds, ws[t])
    requires pos <= |buf| && At(buf, pos, SnapshotBytes(MergeAll(ds), ExactCounts(MergeAll(ds).entities)))
    ensures var d := MergeAll(ds); var r := ReadSnapshot(schema, buf, pos, ws[t]);
            if HoldsUpdated(ds, ws[t]) then r == Done(ws[|ds|], pos + |SnapshotBytes(d, ExactCounts(d.entities))|)
            else r.Rejected?
  {
    hide History, OrderedBefore, TicksInOrder, MergeAll, Describes, Conforms, TypesKept, HoldsUpdated, Holds, NoClash,
      At, SnapshotBytes, ReadSnapshot, Ordered, AllAscend;
    LengthOf(ds, ws);
    WindowOrderedIff(ds, ws);
    HistoryAscends(ds, ws);
    TypesKeptIsNoClash(ds, ws[t]);
    HoldsUpdatedIsHolds(ds, ws[t]);
    MergedDelivered(schema, ds, ws, t, buf, pos);
  }
}
