/** A run in which a client is taken to a world the server never published: one packet overtakes another
    where the sequence number wraps, and the older one is read after it. */
module OvertakenRuns {
  import opened Packets
  import opened Varints
  import opened BitIO
  import opened Codecs
  import opened Deltas
  import opened Merges
  import opened Worlds
  import opened Windows
  import opened SnapshotWire
  import opened SnapshotRoundTrip
  import opened StaleAcks
  import opened MasterSnapshots
  import opened Connections
  import opened ConnectionRuns
  import opened Acknowledgements
  import opened Histories
  import opened GamePackets
  import opened ArrayMerges
  import opened Replication
  import opened StrayReads
  import Sending

  // ---------------------------------------------------------------- proper runs, event by event

  /** A proper run ends in this state. */
  ghost predicate Reached(schema: Schema, s: System)
  {
    exists ss: seq<System>, events: seq<Event> ::
      Run(schema, ss, events) && ProperUpTo(schema, ss, events, |events|) && ss[|events|] == s
  }

  lemma {:induction false} ReachedStart(schema: Schema, s: System)
    requires Starts(s)
    ensures Reached(schema, s)
  {
    hide Starts;
    assert Run(schema, [s], []) && ProperUpTo(schema, [s], [], 0);
  }

  lemma {:induction false} ReachedNext(schema: Schema, s: System, e: Event)
    requires Reached(schema, s) && Enabled(schema, s, e) && Proper(schema, s, e)
    ensures Reached(schema, StepOn(schema, s, e))
  {
    hide Starts, Enabled, Proper, StepOn;
    var ss: seq<System>, events: seq<Event> :|
      Run(schema, ss, events) && ProperUpTo(schema, ss, events, |events|) && ss[|events|] == s;
    var n, ss', events' := |events|, ss + [StepOn(schema, s, e)], events + [e];
    forall i | 0 <= i < n + 1
      ensures Enabled(schema, ss'[i], events'[i]) && Proper(schema, ss'[i], events'[i])
      ensures ss'[i + 1] == StepOn(schema, ss'[i], events'[i])
    {
      if i < n {
        assert Enabled(schema, ss[i], events[i]) && Proper(schema, ss[i], events[i]);
      }
    }
    assert Run(schema, ss', events') && ProperUpTo(schema, ss', events', n + 1) && ss'[n + 1] == StepOn(schema, s, e);
  }

  lemma {:induction false} ReachedOk(schema: Schema, s: System)
    requires Reached(schema, s)
    ensures Ok(schema, s)
  {
    hide ProperUpTo, Ok, Starts, Enabled, StepOn;
    var ss: seq<System>, events: seq<Event> :|
      Run(schema, ss, events) && ProperUpTo(schema, ss, events, |events|) && ss[|events|] == s;
    RunKeeps(schema, ss, events, |events|);
  }

  // ---------------------------------------------------------------- the ticks

  const KINDS: EntityType := [FieldSpec(Fixed(1), [0]), FieldSpec(Fixed(1), [0])]

  const SCHEMA: Schema := map[1 := KINDS]

  /** One entity with two fields of one byte. */
  function Pair(x: byte, y: byte): World
  {
    map[1 := Entity(1, [[x], [y]])]
  }

  const NONE: World := map[]

  /** The items of a tick that sets both fields, or the first alone. */
  function Both(x: byte, y: byte): Items
  {
    [Item(1, 0, [x]), Item(1, 1, [y])]
  }

  function First(x: byte): Items
  {
    [Item(1, 0, [x])]
  }

  function About(full: bool, items: Items): Delta
  {
    Delta([EntityInfo(2, 1, 1, full)], items)
  }

  /** Tick 1 creates the entity, tick 2 sets its first field, tick 3 sets both. */
  const CREATED := About(true, Both(1, 1))
  const FIRST_SET := About(false, First(2))
  const BOTH_SET := About(false, Both(3, 3))

  lemma {:induction false} RunOf(items: Items)
    requires forall i | 0 <= i < |items| :: items[i].entity == 1
    ensures Of(items, 1) == items && forall id: nat | id != 1 :: Of(items, id) == []
  {
    OfUniform(items, 1, 1);
    forall id: nat | id != 1
      ensures Of(items, id) == []
    {
      OfUniform(items, 1, id);
    }
  }

  lemma {:induction false} GoodDelta(full: bool, items: Items)
    requires forall i | 0 <= i < |items| :: items[i].entity == 1 && items[i].number < 2 && |items[i].data| == 1
    requires AscendingNumbers(items) && (full ==> |items| == 2)
    ensures var d := About(full, items); WellFormed(d) && Ordered(d.items) && Describes(SCHEMA, d)
  {
    hide Of, Known;
    RunOf(items);
    var d, e := About(full, items), EntityInfo(2, 1, 1, full);
    assert RunFits(e, Of(items, 1));
    assert Lookup(d.entities, 1) == Some(e);
    KnownPair(full, items);
  }

  lemma {:induction false} KnownPair(full: bool, items: Items)
    requires forall i | 0 <= i < |items| :: items[i].entity == 1 && items[i].number < 2 && |items[i].data| == 1
    ensures Known(SCHEMA, items, EntityInfo(2, 1, 1, full))
  {
    RunOf(items);
  }

  lemma {:induction false} FieldsOfBoth(x: byte, y: byte)
    ensures Fields(Both(x, y)) == map[0 := [x], 1 := [y]]
  {
    assert Both(x, y)[1..] == [Item(1, 1, [y])];
    assert Fields([Item(1, 1, [y])]) == map[1 := [y]];
  }

  lemma {:induction false} FieldsOfFirst(x: byte)
    ensures Fields(First(x)) == map[0 := [x]]
  {
    assert First(x)[1..] == [];
  }

  lemma {:induction false} OnlyEntity(full: bool, items: Items, id: nat)
    requires forall i | 0 <= i < |items| :: items[i].entity == 1
    ensures ChangeOf(About(full, items), id) == if id == 1 then Touch(1, 2, full, Fields(items)) else Keep
  {
    hide Fields;
    RunOf(items);
  }

  lemma {:induction false} BothStep(full: bool, x: byte, y: byte, w: World)
    requires if full then w == NONE else exists a: byte, b: byte :: w == Pair(a, b)
    ensures Step(About(full, Both(x, y)), w, Pair(x, y))
  {
    hide Fields;
    FieldsOfBoth(x, y);
    forall id: nat
      ensures var c := ChangeOf(About(full, Both(x, y)), id);
              Applicable(c, Get(w, id)) && Apply(c, Get(w, id)) == Get(Pair(x, y), id)
    {
      OnlyEntity(full, Both(x, y), id);
      if id == 1 {
        var c := ChangeOf(About(full, Both(x, y)), id);
        assert Apply(c, Get(w, id)).value.fields == [[x], [y]];
      }
    }
  }

  lemma {:induction false} FirstStep(x: byte, a: byte, b: byte)
    ensures Step(About(false, First(x)), Pair(a, b), Pair(x, b))
  {
    hide Fields;
    FieldsOfFirst(x);
    forall id: nat
      ensures var c := ChangeOf(About(false, First(x)), id);
              Applicable(c, Get(Pair(a, b), id)) && Apply(c, Get(Pair(a, b), id)) == Get(Pair(x, b), id)
    {
      OnlyEntity(false, First(x), id);
      if id == 1 {
        var c := ChangeOf(About(false, First(x)), id);
        assert Apply(c, Get(Pair(a, b), id)).value.fields == [[x], [b]];
      }
    }
  }

  lemma {:induction false} PairRegistered(x: byte, y: byte)
    ensures Registered(SCHEMA, Pair(x, y)) && Conforms(SCHEMA, Pair(x, y))
  {
  }

  // ---------------------------------------------------------------- the packets

  lemma {:induction false} Alone(full: bool, items: Items)
    requires |items| > 0 && forall i | 0 <= i < |items| :: items[i].entity == 1
    ensures Merge(EMPTY_DELTA, About(full, items)) == About(full, items)
  {
    var d := About(full, items);
    RunThrough(items, 0);
    assert SymDiff(d.entities, []) == d.entities && Intersect(d.entities, []) == [];
    assert OneSidedChunk(EMPTY_DELTA, d, 1) == items;
    assert d.entities[1..] == [] && Emit(EMPTY_DELTA, d, false, []) == [];
    assert Union([], d.entities) == d.entities;
  }

  lemma {:induction false} RunThrough(items: Items, k: nat)
    requires k <= |items| && forall i | 0 <= i < |items| :: items[i].entity == 1
    ensures RunAt(items, k, 1) == items[k..]
    decreases |items| - k
  {
    if k < |items| {
      RunThrough(items, k + 1);
    }
  }

  lemma {:induction false} SeekAll(items: Items)
    requires forall i | 0 <= i < |items| :: items[i].entity == 1
    ensures SeekRun(items, 1) == items
  {
    RunOf(items);
    SearchExactIff(items);
  }

  lemma {:induction false} TwoMerged(x: byte, a: byte, b: byte)
    ensures Merge(About(false, First(x)), About(false, Both(a, b))) == About(false, Both(a, b))
  {
    hide SeekRun;
    var d, e := About(false, First(x)), About(false, Both(a, b));
    SeekAll(First(x));
    SeekAll(Both(a, b));
    assert SymDiff(e.entities, d.entities) == [] && Intersect(e.entities, d.entities) == e.entities;
    assert First(x)[1..] == [] && Both(a, b)[1..] == [Item(1, 1, [b])];
    assert MergeRuns([], [Item(1, 1, [b])]) == [Item(1, 1, [b])];
    assert MergeRuns(First(x), Both(a, b)) == [Item(1, 0, [a])] + [Item(1, 1, [b])] == Both(a, b);
    assert SharedChunk(d, e, e.entities[0]) == Both(a, b);
    assert e.entities[1..] == [] && Emit(d, e, true, []) == [];
    assert Emit(d, e, true, e.entities) == Both(a, b) + [];
    SameUnion(e.entities[0]);
  }

  lemma {:induction false} SameUnion(e: EntityInfo)
    ensures Union([e], [e]) == [e]
  {
    assert [e][1..] == [] && StableMerge([], [e]) == [e];
    assert StableMerge([e], [e]) == [e] + [e];
    assert ([e] + [e])[1..] == [e];
    assert KeepLast([e] + [e]) == KeepLast([e]) == [e];
  }

  lemma {:induction false} FirstMerged()
    ensures MergeAll([FIRST_SET]) == FIRST_SET
  {
    assert [FIRST_SET][..0] == [];
    Alone(false, First(2));
  }

  lemma {:induction false} BothMerged()
    ensures MergeAll([FIRST_SET, BOTH_SET]) == BOTH_SET
  {
    assert [FIRST_SET, BOTH_SET][..1] == [FIRST_SET];
    FirstMerged();
    TwoMerged(2, 3, 3);
  }

  lemma {:induction false} DataSize(run: Items)
    requires forall i | 0 <= i < |run| :: |run[i].data| == 1
    ensures |DataOf(run)| == |run|
  {
    if run != [] {
      DataSize(run[1..]);
    }
  }

  lemma {:induction false} SmallPacket(items: Items)
    requires |items| <= 2 && forall i | 0 <= i < |items| :: items[i].entity == 1 && |items[i].data| == 1
    ensures var d := About(false, items); |SnapshotBytes(d, ExactCounts(d.entities))| <= 10
  {
    hide SeekRun;
    var d, e := About(false, items), EntityInfo(2, 1, 1, false);
    SeekAll(items);
    DataSize(items);
    PackSize(BitsFrom(items, 0, 2));
    assert d.entities[1..] == [] && Enc(1) == [1];
    assert ExactCounts([]) == Counts(0, 0, 0);
    assert ExactCounts(d.entities) == Counts(0, 0, 1);
    assert |UpdBytes(items, e)| <= 4;
    assert UpdsBytes(items, []) == [];
    assert UpdsBytes(items, d.entities) == UpdBytes(items, e) + [];
  }

  const RECORD := EntityData(1, 1, [1, 1], [1, 1])

  lemma {:induction false} RecordedWorld()
    ensures RepresentsWorld([RECORD], Pair(1, 1)) && |MasterBytes([RECORD])| <= 10
  {
    var images: seq<Bytes> := [[1], [1]];
    assert images[..1] == [[1]] && images[..1][..0] == [];
    assert Concat(images) == [1, 1];
    assert Sizes(images) == [1, 1];
    assert [RECORD][1..] == [] && Enc(1) == [1];
    assert Entries([RECORD]) == EntryBytes(RECORD) + Entries([]);
  }

  // ---------------------------------------------------------------- the run

  const CREATION: Event := Event.Tick(CREATED, Pair(1, 1), 10)
  const FULL_COPY: Event := SendFull([RECORD], 0, 0, [])
  const SEND: Event := SendDelta(0, 0, [])

  /** The server has the acknowledgement of tick 1. */
  predicate Acked(s: System)
  {
    s.acked.Some? && s.acked.value.tick == 1 && ReadAck(s.acked.value.bytes, 0).AckRead? &&
    ReadAck(s.acked.value.bytes, 0).ackTime == 10
  }

  /** The client has read a full copy of tick 1, number 65534, and acknowledged it. */
  ghost predicate Synced(s: System)
  {
    && s.deltas == [CREATED] && s.worlds == [NONE, Pair(1, 1)] && s.ids == [10] && Acked(s)
    && s.number == 65534 && |s.sent| == 1 && s.client == Pair(1, 1) && s.tick == 1 && s.alive
    && s.log.newest == 65534 && s.log.accepted == [65534]
  }

  lemma {:induction false} FirstTick(s: System)
    requires Starts(s)
    ensures Enabled(SCHEMA, s, CREATION) && Proper(SCHEMA, s, CREATION)
  {
    hide LinkOk, Step;
    FieldsOfBoth(1, 1);
    GoodDelta(true, Both(1, 1));
    BothStep(true, 1, 1, NONE);
    PairRegistered(1, 1);
  }

  /** A packet whose number is the next to come is read, and not stray. */
  lemma {:induction false} NextReads(s: System, i: nat)
    requires LinkOk(s) && i < |s.sent| && s.sent[i].number <= s.number
    requires s.log.accepted != [] ==> s.log.newest < s.sent[i].number < s.log.newest + WINDOW
    ensures Reads(s, i) && !Stray(s, i)
    ensures CameIn(s, i).log.newest == s.sent[i].number
    ensures CameIn(s, i).log.accepted == s.log.accepted + [s.sent[i].number]
  {
    hide SlotsTrack, Reaches, LogArrival, Receive;
    TrackFacts(s);
    TakenRight(s, i);
    var a := Taken(s, i);
    ReachesIff(s.conn, s.log, a);
    LogAfter(s.conn, s.log, a);
  }

  /** Reading it, a client inside its window that holds what it updates is at its newest tick. */
  lemma {:induction false} NextDelivered(s: System, i: nat)
    requires Reached(SCHEMA, s) && s.alive && i < |s.sent| && |s.sent[i].bytes| <= 20 && Conforms(SCHEMA, s.client)
    requires s.log.accepted != [] ==> s.log.newest < s.sent[i].number < s.log.newest + WINDOW
    requires if s.sent[i].since.None? then s.client == NONE
             else s.sent[i].since.value <= s.sent[i].upTo <= |s.deltas| &&
                  HoldsUpdated(s.deltas[s.sent[i].since.value..s.sent[i].upTo], s.client)
    ensures Enabled(SCHEMA, s, Deliver(i)) && s.sent[i].upTo < |s.worlds|
    ensures var t := StepOn(SCHEMA, s, Deliver(i));
            && Reached(SCHEMA, t) && t.log.accepted == s.log.accepted + [s.sent[i].number]
            && t.log.newest == s.sent[i].number
            && t == s.(client := s.worlds[s.sent[i].upTo], tick := s.sent[i].upTo, named := t.named,
                    conn := t.conn, log := t.log)
  {
    hide Run, HistoryOk, PacketOk, Tracks, SlotsTrack, Reads, Stray, CameIn, ReadSnapshot, Reached, HoldsUpdated, InOrder;
    ReachedOk(SCHEMA, s);
    assert PacketOk(SCHEMA, s, s.sent[i]) && Useful(s, s.sent[i]);
    TrackFacts(s);
    NextReads(s, i);
    PacketPlace(s, s.sent[i]);
    ReadDelivered(SCHEMA, s, i);
    OnlyLink(s, i);
    ReachedNext(SCHEMA, s, Deliver(i));
  }

  lemma {:induction false} PacketPlace(s: System, p: Update)
    requires |s.worlds| == |s.deltas| + 1 && PacketOk(SCHEMA, s, p)
    ensures p.upTo < |s.worlds| && ReadUpdateHeader(p.bytes).HeaderRead?
  {
  }

  lemma {:induction false} OnlyLink(s: System, i: nat)
    requires i < |s.sent| && s.conn.Valid() && |s.log.stored| == WINDOW
    ensures var t := CameIn(s, i); t == s.(conn := t.conn, log := t.log)
  {
    hide Taken, LogArrival, Receive;
  }

  /** A connection on which nothing has come in yet. */
  const FRESH := System([], [NONE], [], None, 65533, [], {}, NONE, 0, 0, true, Fresh(0), NewLog())

  lemma {:induction false} SmallHead(id: nat)
    ensures |UpdateHeader(id, 0, 0)| == 4
  {
    hide BigEndian;
    assert Enc(0) == [0];
  }

  /** The run as far as the full copy's arrival. */
  lemma {:induction false} RunToCopy() returns (s: System)
    ensures Reached(SCHEMA, s) && s.deltas == [CREATED] && s.worlds == [NONE, Pair(1, 1)] && s.ids == [10]
    ensures s.number == 65534 && |s.sent| == 1 && s.client == Pair(1, 1) && s.tick == 1 && s.alive && s.acks == {}
    ensures s.log.newest == 65534 && s.log.accepted == [65534]
  {
    hide Reached, Tracks, SlotsTrack, Step, MasterBytes, RepresentsWorld, Describes, Registered, WellFormed, Ordered,
      UpdateHeader, ReadUpdateHeader;
    FreshTracks(0);
    ReachedStart(SCHEMA, FRESH);
    FirstTick(FRESH);
    ReachedNext(SCHEMA, FRESH, CREATION);
    s := StepOn(SCHEMA, FRESH, CREATION);
    RecordedWorld();
    SmallHead(10);
    ReachedNext(SCHEMA, s, FULL_COPY);
    s := StepOn(SCHEMA, s, FULL_COPY);
    NextDelivered(s, 0);
    s := StepOn(SCHEMA, s, Deliver(0));
  }

  lemma {:induction false} RunToSynced() returns (s: System)
    ensures Reached(SCHEMA, s) && Synced(s)
  {
    hide Reached, Tracks, SlotsTrack, HistoryOk, PacketOk, AckBytes, ReadAck, SentOk, LinkOk;
    s := RunToCopy();
    ReachedOk(SCHEMA, s);
    AckReadsBack([], 10, 0, []);
    assert [] + AckBytes(10, 0) + [] == AckBytes(10, 0) == AckBytes(10, 0) + [];
    ReachedNext(SCHEMA, s, Acknowledge(0, []));
    s := StepOn(SCHEMA, s, Acknowledge(0, []));
    var ack := Ack(1, AckBytes(10, 0));
    ReachedNext(SCHEMA, s, Hear(ack));
    s := StepOn(SCHEMA, s, Hear(ack));
  }

  lemma {:induction false} InOrderSoFar()
    ensures TicksInOrder([FIRST_SET]) && TicksInOrder([FIRST_SET, BOTH_SET])
  {
    hide Step, TicksInOrder, WellFormed, Ordered;
    GoodDelta(false, First(2));
    GoodDelta(false, Both(3, 3));
    FirstStep(2, 1, 1);
    BothStep(false, 3, 3, Pair(2, 1));
    SameNames();
    SameEntitiesInOrder([FIRST_SET], [Pair(1, 1), Pair(2, 1)]);
    SameEntitiesInOrder([FIRST_SET, BOTH_SET], [Pair(1, 1), Pair(2, 1), Pair(3, 3)]);
  }

  lemma {:induction false} SameNames()
    ensures forall id: nat :: Lookup(FIRST_SET.entities, id).Some? <==> Lookup(BOTH_SET.entities, id).Some?
  {
    assert FIRST_SET.entities == BOTH_SET.entities;
  }

  /** A tick that changes the pair. */
  lemma {:induction false} TickOn(s: System, d: Delta, w: World, id: nat)
    requires Reached(SCHEMA, s) && |s.worlds| == |s.deltas| + 1 && Registered(SCHEMA, w)
    requires WellFormed(d) && Ordered(d.items) && Describes(SCHEMA, d) && Step(d, s.worlds[|s.deltas|], w)
    requires StableTypes(s.worlds + [w]) && id < 65536
    ensures Reached(SCHEMA, s.(deltas := s.deltas + [d], worlds := s.worlds + [w], ids := s.ids + [id]))
  {
    hide Reached, Step, Describes, Registered, WellFormed, Ordered, StableTypes;
    ReachedNext(SCHEMA, s, Event.Tick(d, w, id));
  }

  /** A packet for tick 1's acknowledgement. */
  lemma {:induction false} SendOn(s: System, ds: seq<Delta>, d: Delta)
    requires Reached(SCHEMA, s) && Acked(s) && Base(s) == Some(1) && |s.deltas| > 1 && |s.ids| == |s.deltas|
    requires s.deltas[1..] == ds && TicksInOrder(ds) && MergeAll(ds) == d
    ensures var head := UpdateHeader(s.ids[|s.ids| - 1], 0, 0);
            var p := Update(s.number + 1, head + SnapshotBytes(d, ExactCounts(d.entities)), |s.deltas|, Some(1));
            Reached(SCHEMA, s.(sent := s.sent + [p], number := s.number + 1))
  {
    hide Reached, MergeAll, SnapshotBytes, ExactCounts, TicksInOrder, Base, UpdateHeader, ReadAck;
    ReachedNext(SCHEMA, s, SEND);
    var bytes := UpdateHeader(s.ids[|s.ids| - 1], 0, 0) + SnapshotBytes(d, ExactCounts(d.entities));
    assert bytes + [] == bytes;
  }

  lemma {:induction false} PairsStable(ws: seq<World>)
    requires forall w | w in ws :: w == NONE || exists x: byte, y: byte :: w == Pair(x, y)
    ensures StableTypes(ws)
  {
    forall i, j | 0 <= i < |ws| && 0 <= j < |ws|
      ensures SameTypes(ws[i], ws[j])
    {
      assert ws[i] in ws && ws[j] in ws;
    }
  }

  lemma {:induction false} OldestNamed(ids: seq<nat>)
    requires ids == [10, 20] || ids == [10, 20, 30]
    ensures Resolve(ids, 10) == Some(1)
  {
    hide ResolveIn;
    var r := ResolveIn(ids, Held(|ids|), 10);
    assert Held(|ids|) == |ids| && ids[0] == 10;
  }

  /** The second tick, and the packet that brings it. */
  lemma {:induction false} SecondSent(s: System) returns (t: System)
    requires Reached(SCHEMA, s) && Synced(s)
    ensures Reached(SCHEMA, t)
    ensures var bytes := UpdateHeader(20, 0, 0) + SnapshotBytes(FIRST_SET, ExactCounts(FIRST_SET.entities));
            t == s.(deltas := [CREATED, FIRST_SET], worlds := [NONE, Pair(1, 1), Pair(2, 1)], ids := [10, 20],
                    sent := s.sent + [Update(65535, bytes, 2, Some(1))], number := 65535)
  {
    hide Reached, Step, Describes, Registered, WellFormed, Ordered, MergeAll, SnapshotBytes, ExactCounts, TicksInOrder,
      Resolve, StableTypes, UpdateHeader, ReadAck;
    GoodDelta(false, First(2));
    FirstStep(2, 1, 1);
    PairRegistered(2, 1);
    PairsStable([NONE, Pair(1, 1), Pair(2, 1)]);
    assert s.worlds + [Pair(2, 1)] == [NONE, Pair(1, 1), Pair(2, 1)];
    TickOn(s, FIRST_SET, Pair(2, 1), 20);
    t := s.(deltas := [CREATED, FIRST_SET], worlds := [NONE, Pair(1, 1), Pair(2, 1)], ids := [10, 20]);
    assert t == s.(deltas := s.deltas + [FIRST_SET], worlds := s.worlds + [Pair(2, 1)], ids := s.ids + [20]);
    InOrderSoFar();
    FirstMerged();
    OldestNamed(t.ids);
    SendOn(t, [FIRST_SET], FIRST_SET);
    var bytes := UpdateHeader(20, 0, 0) + SnapshotBytes(FIRST_SET, ExactCounts(FIRST_SET.entities));
    t := t.(sent := t.sent + [Update(65535, bytes, 2, Some(1))], number := 65535);
  }

  /** The third tick, and the packet that brings both. */
  lemma {:induction false} ThirdSent(s: System) returns (t: System)
    requires Reached(SCHEMA, s) && Acked(s) && s.number == 65535
    requires s.deltas == [CREATED, FIRST_SET] && s.worlds == [NONE, Pair(1, 1), Pair(2, 1)] && s.ids == [10, 20]
    ensures Reached(SCHEMA, t)
    ensures var bytes := UpdateHeader(30, 0, 0) + SnapshotBytes(BOTH_SET, ExactCounts(BOTH_SET.entities));
            t == s.(deltas := [CREATED, FIRST_SET, BOTH_SET], worlds := [NONE, Pair(1, 1), Pair(2, 1), Pair(3, 3)],
                    ids := [10, 20, 30], sent := s.sent + [Update(65536, bytes, 3, Some(1))], number := 65536)
  {
    hide Reached, Step, Describes, Registered, WellFormed, Ordered, MergeAll, SnapshotBytes, ExactCounts, TicksInOrder,
      Resolve, StableTypes, UpdateHeader, ReadAck;
    GoodDelta(false, Both(3, 3));
    BothStep(false, 3, 3, Pair(2, 1));
    PairRegistered(3, 3);
    PairsStable([NONE, Pair(1, 1), Pair(2, 1), Pair(3, 3)]);
    assert s.worlds + [Pair(3, 3)] == [NONE, Pair(1, 1), Pair(2, 1), Pair(3, 3)];
    TickOn(s, BOTH_SET, Pair(3, 3), 30);
    t := s.(deltas := [CREATED, FIRST_SET, BOTH_SET], worlds := [NONE, Pair(1, 1), Pair(2, 1), Pair(3, 3)],
            ids := [10, 20, 30]);
    assert t == s.(deltas := s.deltas + [BOTH_SET], worlds := s.worlds + [Pair(3, 3)], ids := s.ids + [30]);
    InOrderSoFar();
    BothMerged();
    OldestNamed(t.ids);
    SendOn(t, [FIRST_SET, BOTH_SET], BOTH_SET);
    var bytes := UpdateHeader(30, 0, 0) + SnapshotBytes(BOTH_SET, ExactCounts(BOTH_SET.entities));
    t := t.(sent := t.sent + [Update(65536, bytes, 3, Some(1))], number := 65536);
  }

  /** Tick 2 put onto world 3: its first field, and the second field of tick 3. */
  lemma {:induction false} FirstOntoThird(now: World)
    requires Pieced([FIRST_SET], Pair(3, 3), Pair(2, 1), now)
    ensures now == Pair(2, 3)
  {
    hide NewestImage, NewestRecord;
    FirstNamed();
    forall id: nat
      ensures PiecedAt([FIRST_SET], id, Get(Pair(3, 3), id), Get(Pair(2, 1), id), Get(Pair(2, 3), id))
    {
      FirstNames(id);
    }
    PiecedOnce([FIRST_SET], Pair(3, 3), Pair(2, 1), now, Pair(2, 3));
  }

  lemma {:induction false} FirstNames(id: nat)
    ensures NewestRecord([FIRST_SET], id) == if id == 1 then Some(EntityInfo(2, 1, 1, false)) else None
  {
    assert [FIRST_SET][..0] == [];
  }

  lemma {:induction false} FirstNamed()
    ensures NewestImage([FIRST_SET], 1, 0).Some? && NewestImage([FIRST_SET], 1, 1).None?
  {
    hide Of, Fields;
    assert [FIRST_SET][..0] == [];
    RunOf(First(2));
    FieldsOfFirst(2);
  }

  lemma {:induction false} HeldUpdated(ds: seq<Delta>, x: byte, y: byte)
    requires ds == [FIRST_SET] || ds == [FIRST_SET, BOTH_SET]
    ensures HoldsUpdated(ds, Pair(x, y))
  {
    forall id: nat | NewestRecord(ds, id).Some?
      ensures id in Pair(x, y)
    {
      FirstNames(id);
      assert ds == [FIRST_SET] || ds[..1] == [FIRST_SET];
    }
  }

  /** The third packet is read before the second one. */
  lemma {:induction false} ThirdRead() returns (s: System)
    ensures Reached(SCHEMA, s) && |s.sent| == 3 && s.deltas == [CREATED, FIRST_SET, BOTH_SET] && s.alive
    ensures s.worlds == [NONE, Pair(1, 1), Pair(2, 1), Pair(3, 3)] && s.client == Pair(3, 3) && s.tick == 3
    ensures s.sent[1].since == Some(1) && s.sent[1].upTo == 2 && s.sent[1].number == 65535 && |s.sent[1].bytes| <= 20
    ensures s.log.newest == 65536 && 65535 !in s.log.accepted && s.log.accepted != []
  {
    hide Reached, Tracks, SlotsTrack, SnapshotBytes, ReadSnapshot, HoldsUpdated, Pieced, PacketOk, HistoryOk, Reads,
      InOrder, CameIn, ExactCounts, StepOn, Stray;
    s := RunToSynced();
    s := SecondSent(s);
    s := ThirdSent(s);
    SmallPacket(First(2));
    SmallPacket(Both(3, 3));
    SmallHead(20);
    SmallHead(30);
    PairRegistered(1, 1);
    HeldUpdated([FIRST_SET, BOTH_SET], 1, 1);
    assert s.deltas[1..3] == [FIRST_SET, BOTH_SET];
    NextDelivered(s, 2);
    s := StepOn(SCHEMA, s, Deliver(2));
  }

  /** So it has overtaken it. */
  lemma {:induction false} SecondOvertaken() returns (s: System)
    ensures Reached(SCHEMA, s) && Ok(SCHEMA, s) && |s.sent| == 3 && s.deltas == [CREATED, FIRST_SET, BOTH_SET] && s.alive
    ensures s.worlds == [NONE, Pair(1, 1), Pair(2, 1), Pair(3, 3)] && s.client == Pair(3, 3) && s.tick == 3
    ensures s.sent[1].since == Some(1) && s.sent[1].upTo == 2 && s.sent[1].number == 65535
    ensures Enabled(SCHEMA, s, Deliver(1)) && s.log.newest == 65536 && Stray(s, 1)
  {
    hide Reached, Tracks, SlotsTrack, SnapshotBytes, ReadSnapshot, HoldsUpdated, Pieced, PacketOk, HistoryOk, Reads,
      InOrder, CameIn, ExactCounts, StepOn;
    s := ThirdRead();
    ReachedOk(SCHEMA, s);
    TrackFacts(s);
    PairRegistered(3, 3);
    StrayIff(s, 1);
  }

  /** The guarantees end where a packet strays. In a run proper so far the client is at tick 3, which
      came under number 65536; number 65535, which brings tick 2, arrives after it and is read. The
      client is then at a world that was never published. */
  lemma {:induction false} NeverPublished() returns (s: System)
    ensures Reached(SCHEMA, s) && Enabled(SCHEMA, s, Deliver(1)) && Stray(s, 1)
    ensures s.sent[1].number == 65535 && s.log.newest == 65536 && s.worlds == [NONE, Pair(1, 1), Pair(2, 1), Pair(3, 3)]
    ensures s.tick == 3 && s.client == Pair(3, 3)
    ensures var t := StepOn(SCHEMA, s, Deliver(1));
            t.alive && t.tick == 2 && t.client == Pair(2, 3) && t.client !in t.worlds
  {
    hide Reached, Tracks, SlotsTrack, SnapshotBytes, ReadSnapshot, HoldsUpdated, Pieced, PacketOk, HistoryOk, Reads,
      InOrder, CameIn, ExactCounts;
    s := SecondOvertaken();
    LateOne(s);
  }

  lemma {:induction false} LateOne(s: System)
    requires Ok(SCHEMA, s) && |s.sent| == 3 && s.deltas == [CREATED, FIRST_SET, BOTH_SET] && s.alive
    requires s.worlds == [NONE, Pair(1, 1), Pair(2, 1), Pair(3, 3)] && s.client == Pair(3, 3)
    requires s.sent[1].since == Some(1) && s.sent[1].upTo == 2
    requires Enabled(SCHEMA, s, Deliver(1)) && Reads(s, 1)
    ensures var t := StepOn(SCHEMA, s, Deliver(1)); t.alive && t.tick == 2 && t.client == Pair(2, 3) && t.worlds == s.worlds
    ensures Pair(2, 3) !in s.worlds
  {
    hide Tracks, SlotsTrack, SnapshotBytes, ReadSnapshot, HoldsUpdated, Pieced, PacketOk, HistoryOk, Reads, InOrder, CameIn;
    var p := s.sent[1];
    assert PacketOk(SCHEMA, s, p);
    HeldUpdated([FIRST_SET], 3, 3);
    assert s.deltas[1..2] == [FIRST_SET];
    PacketHeaded(SCHEMA, s, p);
    StrayReadIff(SCHEMA, s, p, 3, 3);
    var r := ReadSnapshot(SCHEMA, p.bytes, Start(p), s.client);
    if r.Done? {
      FirstOntoThird(r.world);
    }
    OnlyLink(s, 1);
    assert Pair(2, 3)[1].fields == [[2], [3]];
  }
}
