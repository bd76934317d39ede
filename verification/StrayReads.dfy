/** What happens when a delta packet is read outside its window: because a newer packet overtook it and
    it was let through all the same, or because the acknowledgement it was merged behind was taken for
    a later tick. */
module StrayReads {
  import opened Packets
  import opened Codecs
  import opened Deltas
  import opened Merges
  import opened Worlds
  import opened Windows
  import opened SnapshotWire
  import opened SnapshotRoundTrip
  import opened StaleAcks
  import opened MasterSnapshots
  import opened ArrayMerges
  import opened Replication

  // ---------------------------------------------------------------- two worlds in one

  /** What one entity is pieced together from. Ticks that do not name it leave it as it was held; if the
      last one that does deletes it, it is gone; otherwise the fields they carry are as in the world the
      packet was made for, and the others as they were held. */
  predicate PiecedAt(ds: seq<Delta>, id: nat, held: Option<Entity>, made: Option<Entity>, now: Option<Entity>)
  {
    match NewestRecord(ds, id)
    case None => now == held
    case Some(e) =>
      if e.numFields == 0 then now.None?
      else
        && now.Some? && made.Some? && now.value.typ == made.value.typ && |now.value.fields| == |made.value.fields|
        && forall k: nat :: k < |now.value.fields| ==>
             now.value.fields[k] ==
             if NewestImage(ds, id, k).None? && held.Some? && k < |held.value.fields| then held.value.fields[k]
             else made.value.fields[k]
  }

  /** The ticks ds, made for world `made`, put onto world `held`. */
  ghost predicate Pieced(ds: seq<Delta>, held: World, made: World, now: World)
  {
    forall id: nat :: PiecedAt(ds, id, Get(held, id), Get(made, id), Get(now, id))
  }

  lemma PiecedOnce(ds: seq<Delta>, held: World, made: World, now: World, other: World)
    requires Pieced(ds, held, made, now)
    ensures now == other <==> Pieced(ds, held, made, other)
  {
    hide NewestImage, NewestRecord;
    if Pieced(ds, held, made, other) {
      forall id: nat
        ensures Get(now, id) == Get(other, id)
      {
        assert PiecedAt(ds, id, Get(held, id), Get(made, id), Get(now, id));
        assert PiecedAt(ds, id, Get(held, id), Get(made, id), Get(other, id));
        PiecedSame(ds, id, Get(held, id), Get(made, id), Get(now, id), Get(other, id));
      }
      SameWorld(now, other);
    }
  }

  lemma PiecedSame(ds: seq<Delta>, id: nat, held: Option<Entity>, made: Option<Entity>,
                   now: Option<Entity>, other: Option<Entity>)
    requires PiecedAt(ds, id, held, made, now) && PiecedAt(ds, id, held, made, other)
    ensures now == other
  {
    hide NewestImage, NewestRecord;
    if now.Some? && other.Some? && NewestRecord(ds, id).Some? {
      assert now.value.fields == other.value.fields;
    }
  }

  /** One entity, carried out as the merge says. */
  lemma PiecedEntity(ds: seq<Delta>, ws: seq<World>, id: nat, held: Option<Entity>)
    requires History(ds, ws) && OrderedBefore(ds) && |ws| == |ds| + 1
    requires Applicable(ChangeOf(MergeAll(ds), id), held)
    ensures PiecedAt(ds, id, held, Get(ws[|ds|], id), Apply(ChangeOf(MergeAll(ds), id), held))
  {
    hide History, OrderedBefore, MergeAll, NewestImage, NewestRecord, Of, Fields, AllAscend, WellFormed;
    var d := MergeAll(ds);
    HistoryAscends(ds, ws);
    MergeAllLookup(ds, id);
    WindowAccounts(ds, ws, 0);
    assert Accounts(ChangeOf(d, id), Get(ws[0], id), Get(ws[|ds|], id));
    ChangeFits(d, id);
    forall k: nat
      ensures k in Fields(Of(d.items, id)) <==> NewestImage(ds, id, k).Some?
    {
      MergeAllField(ds, ws, id, k);
    }
  }

  /** A packet merged from the ticks ds and read by a client at any world at all, of the same types: it
      is rejected if the client does not hold what those ticks update partially, and otherwise pieces
      that world together with the one it was made for. */
  lemma ReadAnywhere(schema: Schema, ds: seq<Delta>, ws: seq<World>, held: World, buf: Bytes, at: nat)
    requires History(ds, ws) && TicksInOrder(ds) && |ws| == |ds| + 1
    requires forall d | d in ds :: Describes(schema, d)
    requires Conforms(schema, held) && TypesKept(ds, held) && at <= |buf|
    requires At(buf, at, SnapshotBytes(MergeAll(ds), ExactCounts(MergeAll(ds).entities)))
    ensures match ReadSnapshot(schema, buf, at, held)
            case Done(now, _) => HoldsUpdated(ds, held) && Pieced(ds, held, ws[|ds|], now)
            case Rejected(_) => !HoldsUpdated(ds, held)
            case Faulted => false
  {
    hide History, OrderedBefore, TicksInOrder, MergeAll, Describes, Conforms, TypesKept, HoldsUpdated, Holds, NoClash,
      At, SnapshotBytes, ReadSnapshot, Ordered, AllAscend, PiecedAt, WellFormed, Applicable, ChangeOf, Apply, ExactCounts,
      WorldAfter;
    WindowOrderedIff(ds, ws);
    HistoryAscends(ds, ws);
    TypesKeptIsNoClash(ds, held);
    HoldsUpdatedIsHolds(ds, held);
    WindowAccounts(ds, ws, 0);
    WindowDescribes(schema, ds, ws);
    ReadBack(schema, MergeAll(ds), buf, at, held);
    var r := ReadSnapshot(schema, buf, at, held);
    if r.Done? {
      forall id: nat
        ensures PiecedAt(ds, id, Get(held, id), Get(ws[|ds|], id), Get(r.world, id))
      {
        assert Applicable(ChangeOf(MergeAll(ds), id), Get(held, id));
        PiecedEntity(ds, ws, id, Get(held, id));
      }
    }
  }

  // ---------------------------------------------------------------- in the runs

  lemma {:induction false} StableKeptAnywhere(ds: seq<Delta>, ws: seq<World>, held: World)
    requires History(ds, ws) && forall j :: 0 <= j < |ws| ==> SameTypes(held, ws[j])
    ensures TypesKept(ds, held)
  {
    hide History, NewestRecord;
    forall id: nat | NewestRecord(ds, id).Some? && id in held
      ensures Meets(NewestRecord(ds, id).value, Get(held, id))
    {
      if NewestRecord(ds, id).value.numFields > 0 {
        var j := RecordedIn(ds, ws, id);
        assert SameTypes(held, ws[j]);
      }
    }
  }

  /** A delta packet read by a client at tick t, before, inside or behind the packet's window. It is at
      the published world v afterwards if and only if that world is pieced together from the one it was
      at and the packet's newest. */
  lemma {:induction false} StrayReadIff(schema: Schema, s: System, p: Update, t: nat, v: nat)
    requires HistoryOk(schema, s) && |s.worlds| == |s.deltas| + 1 && t <= |s.deltas| && v <= |s.deltas|
    requires PacketOk(schema, s, p) && p.since.Some? && Conforms(schema, s.worlds[t])
    ensures p.since.value <= p.upTo <= |s.deltas|
    ensures var ds := s.deltas[p.since.value..p.upTo];
            match ReadSnapshot(schema, p.bytes, Start(p), s.worlds[t])
            case Done(now, _) =>
              Pieced(ds, s.worlds[t], s.worlds[p.upTo], now) &&
              (now == s.worlds[v] <==> Pieced(ds, s.worlds[t], s.worlds[p.upTo], s.worlds[v]))
            case Rejected(_) => !HoldsUpdated(ds, s.worlds[t])
            case Faulted => false
  {
    hide History, StableTypes, TicksInOrder, MergeAll, Describes, Conforms, HoldsUpdated, At,
      SnapshotBytes, ReadSnapshot, ExactCounts, HistoryOk, Pieced, SameTypes, TypesKept;
    var k, n := p.since.value, p.upTo;
    var ds, ws := s.deltas[k..n], s.worlds[k..n + 1];
    WindowFacts(schema, s, k, n);
    SliceAt(s.worlds, k, n, n);
    forall j | 0 <= j < |ws|
      ensures SameTypes(s.worlds[t], ws[j])
    {
      WorldFacts(schema, s, t, k + j);
    }
    StableKeptAnywhere(ds, ws, s.worlds[t]);
    ReadAnywhere(schema, ds, ws, s.worlds[t], p.bytes, Start(p));
    var r := ReadSnapshot(schema, p.bytes, Start(p), s.worlds[t]);
    if r.Done? {
      PiecedOnce(ds, s.worlds[t], s.worlds[n], r.world, s.worlds[v]);
    }
  }
}
