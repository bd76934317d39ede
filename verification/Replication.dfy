/** The whole of snapshot replication for one client: the server ticks and sends, packets and
    acknowledgements are lost, repeated and late, and the client stays on the server's history
    (src/nrg_server.cpp:178-200, src/nrg_serverstate.cpp:212-288, src/nrg_clientstate.cpp:195-252),
    unless the receiving end lets a late packet through or an acknowledgement names another tick. */
module Replication {
  import opened Packets
  import opened Codecs
  import opened Deltas
  import opened Merges
  import opened Worlds
  import opened Windows
  import opened SnapshotWire
  import opened SnapshotRoundTrip
  import opened StaleAcks
  import opened MasterSnapshots
  import opened DeltaSnapshots
  import opened Histories
  import opened PacketHeaders
  import opened Connections
  import opened ConnectionRuns
  import opened Acknowledgements
  import opened Varints
  import opened GamePackets
  import Sending

  /** A packet to the client under its unbounded sequence number: header, snapshot, messages. The rest
      is bookkeeping: the newest tick in it, and the tick behind which it was merged, if it is not a
      full copy. */
  datatype Update = Update(number: int, bytes: Bytes, upTo: nat, since: Option<nat>)

  /** What a client sends back, and which tick it means by it. */
  datatype Ack = Ack(tick: nat, bytes: Bytes)

  /** The server: its history, the ticks' sixteen-bit ids, the acknowledgement it goes by, the last
      sequence number and every packet sent. The client: every acknowledgement it has sent, its
      entities, the tick they are at and the sixteen bits it knows that tick by, whether it still
      plays, its receiving end, and what an unbounded receiving end would remember. Ticks count
      from 1. */
  datatype System = System(
    deltas: seq<Delta>, worlds: seq<World>, ids: seq<nat>, acked: Option<Ack>, number: int, sent: seq<Update>,
    acks: set<Ack>, client: World, tick: nat, named: nat, alive: bool, conn: Receiver, log: Log)

  /** Deliver(i) brings the i-th packet ever sent, in any order, any number of times or never. Hear
      takes up any acknowledgement ever sent. */
  datatype Event =
    | Tick(delta: Delta, world: World, id: nat)
    | SendDelta(seqNum: nat, ping: nat, messages: Bytes)
    | SendFull(edata: seq<EntityData>, fullSeq: nat, fullPing: nat, trailer: Bytes)
    | Deliver(i: nat)
    | Acknowledge(since: nat, input: Bytes)
    | Hear(ack: Ack)

  /** Nothing has happened yet but what the handshake left in the receiving end. */
  ghost predicate Starts(s: System)
  {
    && s.deltas == [] && s.worlds == [map[]] && s.ids == [] && s.acked.None? && s.sent == [] && s.acks == {}
    && s.client == map[] && s.tick == 0 && s.alive && LinkOk(s)
  }

  /** The receiving end has accepted nothing that has not been sent. */
  ghost predicate LinkOk(s: System)
  {
    && Tracks(s.conn, s.log) && SlotsTrack(s.conn, s.log) && !s.conn.newPacket
    && (s.log.accepted != [] ==> s.log.newest <= s.number)
  }

  /** Where the server starts merging: behind the newest tick in the ring with the id it has read. */
  function Base(s: System): (r: Option<nat>)
    ensures r.Some? ==> 0 < r.value <= |s.ids|
  {
    if s.acked.None? || !ReadAck(s.acked.value.bytes, 0).AckRead? then None
    else Resolve(s.ids, ReadAck(s.acked.value.bytes, 0).ackTime)
  }

  /** What a tick is, and what the server sends by which acknowledgement: it ticks between hearing and
      sending, and merges nothing only where the id is that of the newest tick. A client reads packets
      of one datagram. */
  ghost predicate Enabled(schema: Schema, s: System, e: Event)
  {
    match e
    case Tick(d, w, id) =>
      |s.worlds| == |s.deltas| + 1 && id < 65536 && WellFormed(d) && Ordered(d.items) && Describes(schema, d) && Registered(schema, w) &&
      Step(d, s.worlds[|s.deltas|], w)
    case SendDelta(seqNum, ping, _) =>
      CanHead(s, seqNum, ping) && Base(s).Some? && Base(s).value < |s.deltas|
    case SendFull(edata, seqNum, ping, _) =>
      CanHead(s, seqNum, ping) && |s.worlds| == |s.deltas| + 1 && RepresentsWorld(edata, s.worlds[|s.deltas|])
    case Deliver(i) =>
      s.alive && i < |s.sent| && |s.sent[i].bytes| <= Sending.MAX_PAYLOAD &&
      Conforms(schema, s.client) && s.conn.Valid() && |s.log.stored| == WINDOW
    case Acknowledge(since, _) => s.alive && s.tick > 0 && since < 65536
    case Hear(ack) => ack in s.acks
  }

  /** There is a tick to name, and the ping is one that reads back. */
  predicate CanHead(s: System, seqNum: nat, ping: nat)
  {
    s.ids != [] && seqNum < 256 && ping < 0x8000_0000
  }

  function Datagram(p: Update): (a: Arrival)
    ensures a.Valid() && Ordinary(a.header)
  {
    Arrival(p.number, PacketHeaders.Header(p.number % SEQ_SPACE, 0, 0, 0), p.bytes)
  }

  /** The packet under the number the client takes it to have. */
  function Taken(s: System, i: nat): (a: Arrival)
    requires i < |s.sent| && s.conn.Valid()
    ensures a.Valid() && Ordinary(a.header) && a.payload == s.sent[i].bytes
  {
    Renumber(s.conn, s.log, Datagram(s.sent[i]))
  }

  /** It gets through to the client's state, which reads it. */
  predicate Reads(s: System, i: nat)
    requires i < |s.sent| && s.conn.Valid()
  {
    Reaches(s.conn, Taken(s, i))
  }

  /** A packet is read that something newer has overtaken, or under a wrong number. */
  predicate Stray(s: System, i: nat)
    requires i < |s.sent| && s.conn.Valid()
  {
    Reads(s, i) &&
    (Taken(s, i).number != s.sent[i].number || (s.log.accepted != [] && s.sent[i].number < s.log.newest))
  }

  /** Under one id there is only ever one type of entity. */
  ghost predicate StableTypes(worlds: seq<World>)
  {
    forall i, j :: 0 <= i < |worlds| && 0 <= j < |worlds| ==> SameTypes(worlds[i], worlds[j])
  }

  /** What the guarantees ask of each event: types stay; a delta is merged in order and from the tick
      that was acknowledged; nothing stray is read, nor a full copy by a client that holds an entity
      since gone. */
  ghost predicate Proper(schema: Schema, s: System, e: Event)
    requires Enabled(schema, s, e)
  {
    match e
    case Tick(_, w, _) => StableTypes(s.worlds + [w])
    case SendDelta(_, _, _) => Base(s) == Some(s.acked.value.tick) && TicksInOrder(s.deltas[Base(s).value..])
    case Deliver(i) =>
      !Stray(s, i) &&
      (Reads(s, i) && s.sent[i].since.None? ==>
         s.sent[i].upTo < |s.worlds| && s.client.Keys <= s.worlds[s.sent[i].upTo].Keys)
    case _ => true
  }

  /** In front of the snapshot: the newest tick's id. */
  function Head(s: System, seqNum: nat, ping: nat): Bytes
    requires CanHead(s, seqNum, ping)
  {
    UpdateHeader(s.ids[|s.ids| - 1], seqNum, ping)
  }

  function DeltaPacket(s: System, seqNum: nat, ping: nat, messages: Bytes): Update
    requires CanHead(s, seqNum, ping) && Base(s).Some? && Base(s).value <= |s.deltas|
  {
    var d := MergeAll(s.deltas[Base(s).value..]);
    Update(s.number + 1, Head(s, seqNum, ping) + SnapshotBytes(d, ExactCounts(d.entities)) + messages, |s.deltas|, Base(s))
  }

  function FullPacket(s: System, edata: seq<EntityData>, seqNum: nat, ping: nat, messages: Bytes): Update
    requires CanHead(s, seqNum, ping)
  {
    Update(s.number + 1, Head(s, seqNum, ping) + MasterBytes(edata) + messages, |s.deltas|, None)
  }

  /** Where the client finds the snapshot in it. */
  function Start(p: Update): (at: nat)
    ensures at <= |p.bytes|
  {
    var h := ReadUpdateHeader(p.bytes);
    if h.HeaderRead? then h.next else 0
  }

  /** The packet is the one the player's state writes from the ring, where k is the position its search
      for the acknowledged id ends at. */
  lemma DeltaPacketIsRing(s: System, published: World, ring: seq<Image>, seqNum: nat, ping: nat, messages: Bytes)
    requires Chronicle(s.deltas, s.worlds, published, ring) && Kept(s.ids, ring) && |s.ids| == |s.deltas|
    requires CanHead(s, seqNum, ping) && s.acked.Some? && ReadAck(s.acked.value.bytes, 0).AckRead?
    ensures var k := PlayerStates.Behind(ring, ReadAck(s.acked.value.bytes, 0).ackTime);
            && (k == 0 <==> Base(s).None?) && (forall im | im in ring[k..] :: im.Valid())
            && (k > 0 ==>
                  var d := MergeAll(Views(ring[k..]));
                  DeltaPacket(s, seqNum, ping, messages).bytes ==
                    Head(s, seqNum, ping) + SnapshotBytes(d, ExactCounts(d.entities)) + messages)
  {
    hide Chronicle, MergeAll, SnapshotBytes, ExactCounts, Kept, Views, Image.Valid, PlayerStates.Behind, Resolve, ReadAck,
      UpdateHeader;
    var id := ReadAck(s.acked.value.bytes, 0).ackTime;
    ResolveIsBehind(s.ids, ring, id);
    RingSuffix(s.deltas, s.worlds, published, ring, PlayerStates.Behind(ring, id));
    SameLength(s.ids, ring);
  }

  lemma SameLength(ids: seq<nat>, ring: seq<Image>)
    requires Kept(ids, ring)
    ensures |ring| == Held(|ids|)
  {
  }

  /** What the client makes of the packet, by what reading it gave. */
  function TakeIn(s: System, p: Update, r: ReadResult): System
  {
    match r
    case Done(world, _) => s.(client := world, tick := p.upTo)
    case Rejected(world) => s.(client := world, alive := false)
    case Faulted => s.(alive := false)
  }

  /** The receiving end after the i-th packet has come in. */
  function CameIn(s: System, i: nat): System
    requires i < |s.sent| && s.conn.Valid() && |s.log.stored| == WINDOW
  {
    var a := Taken(s, i);
    s.(conn := Receive(s.conn, a.header, a.payload).conn.(newPacket := false), log := LogArrival(s.conn, s.log, a))
  }

  /** The client reads the header, takes the tick's name from it, and reads on. */
  function ReadOn(schema: Schema, s: System, i: nat): System
    requires i < |s.sent| && s.conn.Valid() && |s.log.stored| == WINDOW && Conforms(schema, s.client)
  {
    var p, t := s.sent[i], CameIn(s, i);
    match ReadUpdateHeader(p.bytes)
    case HeaderRead(serverMs, _, _, next) =>
      TakeIn(t.(named := serverMs), p, ReadSnapshot(schema, p.bytes, next, s.client))
    case _ => t.(alive := false)
  }

  ghost function StepOn(schema: Schema, s: System, e: Event): System
    requires Enabled(schema, s, e)
  {
    match e
    case Tick(d, w, id) => s.(deltas := s.deltas + [d], worlds := s.worlds + [w], ids := s.ids + [id])
    case SendDelta(seqNum, ping, messages) =>
      s.(sent := s.sent + [DeltaPacket(s, seqNum, ping, messages)], number := s.number + 1)
    case SendFull(edata, seqNum, ping, messages) =>
      s.(sent := s.sent + [FullPacket(s, edata, seqNum, ping, messages)], number := s.number + 1)
    case Deliver(i) => if Reads(s, i) then ReadOn(schema, s, i) else CameIn(s, i)
    case Acknowledge(since, input) => s.(acks := s.acks + {Ack(s.tick, AckBytes(s.named, since) + input)})
    case Hear(ack) => s.(acked := Some(ack))
  }

  // ---------------------------------------------------------------- what strays

  /** Within half the sequence space a packet strays if and only if the receiving end sees it for the
      first time, inside the window, late by more than the newest raw sequence number. */
  lemma StrayIff(s: System, i: nat)
    requires LinkOk(s) && i < |s.sent| && Faithful(s.log, s.sent[i].number)
    ensures var n, log := s.sent[i].number, s.log;
            Stray(s, i) <==>
            log.accepted != [] && n < log.newest && Wanted(log, n, 0) && log.newest - n > log.newest % SEQ_SPACE
  {
    hide Tracks, SlotsTrack, Wanted, Reaches;
    TrackFacts(s);
    TakenRight(s, i);
    ReachesIff(s.conn, s.log, Taken(s, i));
  }

  /** And outside of it if and only if the number it passes for is wanted and newest, or so late. */
  lemma MistakenIff(s: System, i: nat)
    requires LinkOk(s) && i < |s.sent| && !Faithful(s.log, s.sent[i].number)
    ensures s.log.accepted != [] && s.conn.seqNum == s.log.newest % SEQ_SPACE
    ensures var m, log := Perceived(s.conn, s.log, s.sent[i].number % SEQ_SPACE), s.log;
            Stray(s, i) <==> Wanted(log, m, 0) && (m > log.newest || log.newest - m > log.newest % SEQ_SPACE)
  {
    hide Tracks, SlotsTrack, Wanted, Reaches;
    TrackFacts(s);
    TakenFaithful(s, i);
    ReachesIff(s.conn, s.log, Taken(s, i));
    if Reads(s, i) {
      WantedIsNew(s.log, Taken(s, i).number, 0);
    }
  }

  lemma TrackFacts(s: System)
    requires LinkOk(s)
    ensures s.conn.Valid() && |s.log.stored| == WINDOW
    ensures s.log.accepted != [] ==> s.conn.seqNum == s.log.newest % SEQ_SPACE && s.log.newest in s.log.accepted
  {
  }

  lemma WantedIsNew(log: Log, n: int, flags: nat)
    requires log.accepted != [] ==> log.newest in log.accepted
    requires Wanted(log, n, flags) && log.accepted != []
    ensures n != log.newest
  {
  }

  lemma TakenRight(s: System, i: nat)
    requires LinkOk(s) && i < |s.sent| && Faithful(s.log, s.sent[i].number)
    ensures Taken(s, i).number == s.sent[i].number && Faithful(s.log, Taken(s, i).number)
  {
    hide SlotsTrack;
    if s.log.accepted != [] {
      PerceivedIff(s.conn, s.log, s.sent[i].number);
    }
  }

  lemma TakenFaithful(s: System, i: nat)
    requires LinkOk(s) && i < |s.sent|
    ensures Faithful(s.log, Taken(s, i).number)
    ensures s.log.accepted != [] ==> Taken(s, i).number == Perceived(s.conn, s.log, s.sent[i].number % SEQ_SPACE)
    ensures s.log.accepted != [] && !Faithful(s.log, s.sent[i].number) ==> Taken(s, i).number != s.sent[i].number
  {
    hide SlotsTrack;
  }

  /** What has come in leaves the receiving end in order; only what is read can be the newest. */
  lemma ReceivedLink(s: System, i: nat)
    requires LinkOk(s) && i < |s.sent| && s.sent[i].number <= s.number && !Stray(s, i)
    ensures var t := CameIn(s, i);
            && LinkOk(t)
            && if Reads(s, i)
               then t.log.accepted != [] && t.log.newest == s.sent[i].number &&
                    (s.log.accepted != [] ==> s.log.newest < s.sent[i].number)
               else t.log.newest == s.log.newest && (s.log.accepted != [] <==> t.log.accepted != [])
  {
    hide Tracks, SlotsTrack, Wanted, Reaches, LogArrival, Receive, Faithful;
    TrackFacts(s);
    TakenFaithful(s, i);
    var a := Taken(s, i);
    ReachesIff(s.conn, s.log, a);
    ArrivalTracks(s.conn, s.log, a);
    Polled(Receive(s.conn, a.header, a.payload).conn, LogArrival(s.conn, s.log, a));
    LogAfter(s.conn, s.log, a);
    if Reads(s, i) && s.log.accepted != [] {
      WantedIsNew(s.log, a.number, 0);
    }
  }

  lemma Polled(c: Receiver, log: Log)
    requires c.Valid() && |log.stored| == WINDOW && Tracks(c, log) && SlotsTrack(c, log)
    ensures Tracks(c.(newPacket := false), log) && SlotsTrack(c.(newPacket := false), log)
  {
  }

  lemma LogAfter(c: Receiver, log: Log, a: Arrival)
    requires Tracks(c, log) && a.Valid() && Faithful(log, a.number) && a.header.version == 0
    ensures var next := LogArrival(c, log, a);
            if Wanted(log, a.number, a.header.flags)
            then next.newest == NewestAfter(log, a.number) && next.accepted == log.accepted + [a.number]
            else next == log
  {
    hide Wanted, Tracks, Admit;
    AdmitsWanted(c, log, a);
  }

  // ---------------------------------------------------------------- the invariant

  ghost predicate HistoryOk(schema: Schema, s: System)
  {
    History(s.deltas, s.worlds) && s.worlds[0] == map[] && StableTypes(s.worlds) && |s.ids| == |s.deltas| &&
    (forall d :: d in s.deltas ==> Describes(schema, d)) &&
    (forall w :: w in s.worlds ==> Registered(schema, w))
  }

  /** The packet's header names its newest tick. */
  predicate Headed(s: System, p: Update)
  {
    0 < p.upTo <= |s.ids| && ReadUpdateHeader(p.bytes).HeaderRead? && ReadUpdateHeader(p.bytes).serverMs == s.ids[p.upTo - 1]
  }

  /** A packet merges the ticks behind one, in order, or is a full copy, behind such a header. */
  ghost predicate PacketOk(schema: Schema, s: System, p: Update)
    requires |s.worlds| == |s.deltas| + 1
  {
    p.upTo <= |s.deltas| && Headed(s, p) &&
    match p.since
    case None =>
      exists edata :: RepresentsWorld(edata, s.worlds[p.upTo]) && At(p.bytes, Start(p), MasterBytes(edata))
    case Some(k) =>
      k < p.upTo && TicksInOrder(s.deltas[k..p.upTo]) &&
      var d := MergeAll(s.deltas[k..p.upTo]);
      At(p.bytes, Start(p), SnapshotBytes(d, ExactCounts(d.entities)))
  }

  /** Nothing newer than the packet has been accepted. */
  predicate Ahead(s: System, p: Update)
  {
    s.log.accepted != [] ==> s.log.newest < p.number
  }

  /** It was merged from where the client had been, and reaches as far as the client while it is
      ahead of what has come in. */
  predicate Useful(s: System, p: Update)
  {
    p.number <= s.number && (p.since.Some? ==> p.since.value <= s.tick) && (Ahead(s, p) ==> s.tick <= p.upTo)
  }

  /** Packets are numbered, and reach further and further, in the order sent. */
  predicate InOrder(sent: seq<Update>)
  {
    forall i, j :: 0 <= i < j < |sent| ==> sent[i].number < sent[j].number && sent[i].upTo <= sent[j].upTo
  }

  /** The acknowledgement is of a tick the client has reached, and the server reads that tick's id. */
  predicate AckOk(s: System, a: Ack)
  {
    0 < a.tick <= s.tick && a.tick <= |s.ids| && ReadAck(a.bytes, 0).AckRead? &&
    ReadAck(a.bytes, 0).ackTime == s.ids[a.tick - 1]
  }

  /** The client is at a published world, knows its tick, and has acknowledged ticks it has reached. */
  predicate ClientOk(s: System)
  {
    && s.tick <= |s.deltas| < |s.worlds| && |s.ids| == |s.deltas| && (s.alive ==> s.client == s.worlds[s.tick])
    && (s.alive && s.tick > 0 ==> s.named == s.ids[s.tick - 1])
    && (forall id :: id in s.ids ==> id < 65536)
    && (forall a :: a in s.acks ==> AckOk(s, a)) && (s.acked.Some? ==> s.acked.value in s.acks)
  }

  ghost predicate SentOk(schema: Schema, s: System)
    requires |s.worlds| == |s.deltas| + 1
  {
    InOrder(s.sent) && forall i :: 0 <= i < |s.sent| ==> PacketOk(schema, s, s.sent[i]) && Useful(s, s.sent[i])
  }

  ghost predicate Ok(schema: Schema, s: System)
  {
    HistoryOk(schema, s) && |s.worlds| == |s.deltas| + 1 && ClientOk(s) && LinkOk(s) && SentOk(schema, s)
  }

  /** A packet speaks of the past, so later ticks leave it alone. */
  lemma {:induction false} PacketStays(schema: Schema, s: System, t: System, d: Delta, w: World, p: Update)
    requires |s.worlds| == |s.deltas| + 1 && PacketOk(schema, s, p)
    requires t.deltas == s.deltas + [d] && t.worlds == s.worlds + [w] && s.ids <= t.ids
    ensures PacketOk(schema, t, p)
  {
    hide RepresentsWorld, At, MergeAll, SnapshotBytes, MasterBytes, TicksInOrder, ExactCounts;
    if p.since.Some? {
      assert t.deltas[p.since.value..p.upTo] == s.deltas[p.since.value..p.upTo];
    }
  }

  lemma {:induction false} HistoryTicks(schema: Schema, s: System, d: Delta, w: World, id: nat)
    requires HistoryOk(schema, s) && Enabled(schema, s, Tick(d, w, id)) && Proper(schema, s, Tick(d, w, id))
    ensures HistoryOk(schema, StepOn(schema, s, Tick(d, w, id)))
  {
    hide WellFormed, Ordered, Describes, Registered, Step, StableTypes, TicksInOrder;
    var ds, ws := s.deltas + [d], s.worlds + [w];
    forall i | 0 <= i < |ds| ensures Step(ds[i], ws[i], ws[i + 1]) {
      if i < |s.deltas| {
        assert Step(s.deltas[i], s.worlds[i], s.worlds[i + 1]);
      }
    }
  }

  lemma {:induction false} TickKeeps(schema: Schema, s: System, d: Delta, w: World, id: nat)
    requires Ok(schema, s) && Enabled(schema, s, Tick(d, w, id)) && Proper(schema, s, Tick(d, w, id))
    ensures Ok(schema, StepOn(schema, s, Tick(d, w, id)))
  {
    hide HistoryOk, PacketOk, StableTypes, TicksInOrder, Describes, Registered, Step, WellFormed, Ordered, Tracks,
      SlotsTrack, InOrder;
    HistoryTicks(schema, s, d, w, id);
    var t := StepOn(schema, s, Tick(d, w, id));
    forall i | 0 <= i < |s.sent|
      ensures PacketOk(schema, t, s.sent[i])
    {
      PacketStays(schema, s, t, d, w, s.sent[i]);
    }
  }

  lemma {:induction false} HeadRead(s: System, seqNum: nat, ping: nat, rest: Bytes)
    requires CanHead(s, seqNum, ping) && forall id :: id in s.ids ==> id < 65536
    ensures ReadUpdateHeader(Head(s, seqNum, ping) + rest) == HeaderRead(s.ids[|s.ids| - 1], seqNum, ping, |Head(s, seqNum, ping)|)
  {
    hide UpdateHeader, ReadUpdateHeader, Pow2;
    Below64();
    assert s.ids[|s.ids| - 1] in s.ids;
    HeaderReadsBackIff(s.ids[|s.ids| - 1], seqNum, ping, rest);
  }

  lemma {:induction false} DeltaSent(schema: Schema, s: System, seqNum: nat, ping: nat, messages: Bytes)
    requires |s.worlds| == |s.deltas| + 1 && ClientOk(s) && Enabled(schema, s, SendDelta(seqNum, ping, messages))
    requires Proper(schema, s, SendDelta(seqNum, ping, messages))
    ensures PacketOk(schema, s, DeltaPacket(s, seqNum, ping, messages))
  {
    hide At, MergeAll, SnapshotBytes, TicksInOrder, ExactCounts, ReadUpdateHeader, UpdateHeader, Head;
    var k := Base(s).value;
    var d := MergeAll(s.deltas[k..]);
    var head, body := Head(s, seqNum, ping), SnapshotBytes(d, ExactCounts(d.entities));
    assert s.deltas[k..|s.deltas|] == s.deltas[k..];
    Placed(head, body, messages);
    HeadRead(s, seqNum, ping, body + messages);
    assert head + body + messages == head + (body + messages);
  }

  lemma {:induction false} FullSent(
    schema: Schema, s: System, edata: seq<EntityData>, seqNum: nat, ping: nat, messages: Bytes)
    requires |s.worlds| == |s.deltas| + 1 && ClientOk(s) && Enabled(schema, s, SendFull(edata, seqNum, ping, messages))
    ensures PacketOk(schema, s, FullPacket(s, edata, seqNum, ping, messages))
  {
    hide At, RepresentsWorld, MasterBytes, ReadUpdateHeader, UpdateHeader, Head;
    var head, body := Head(s, seqNum, ping), MasterBytes(edata);
    Placed(head, body, messages);
    HeadRead(s, seqNum, ping, body + messages);
    assert head + body + messages == head + (body + messages);
  }

  lemma {:induction false} SendKeeps(schema: Schema, s: System, p: Update)
    requires Ok(schema, s) && PacketOk(schema, s, p) && p.upTo == |s.deltas| && p.number == s.number + 1
    requires p.since.Some? ==> p.since.value <= s.tick
    ensures Ok(schema, s.(sent := s.sent + [p], number := s.number + 1))
  {
    hide HistoryOk, PacketOk, Tracks, SlotsTrack;
    var t := s.(sent := s.sent + [p], number := s.number + 1);
    forall i | 0 <= i < |t.sent|
      ensures PacketOk(schema, t, t.sent[i]) && Useful(t, t.sent[i])
      ensures i < |s.sent| ==> t.sent[i].number < p.number && t.sent[i].upTo <= p.upTo
    {
      if i < |s.sent| {
        assert PacketOk(schema, s, s.sent[i]) && Useful(s, s.sent[i]);
        PacketPast(schema, s, s.sent[i]);
      }
      SamePacket(schema, s, t, t.sent[i]);
    }
    SameHistory(schema, s, t);
  }

  lemma {:induction false} PacketPast(schema: Schema, s: System, p: Update)
    requires |s.worlds| == |s.deltas| + 1 && PacketOk(schema, s, p)
    ensures p.upTo <= |s.deltas|
  {
  }

  lemma {:induction false} SamePacket(schema: Schema, s: System, t: System, p: Update)
    requires |s.worlds| == |s.deltas| + 1 && PacketOk(schema, s, p) && t.deltas == s.deltas && t.worlds == s.worlds
    requires t.ids == s.ids
    ensures PacketOk(schema, t, p)
  {
    hide RepresentsWorld, At, MergeAll, SnapshotBytes, MasterBytes, TicksInOrder, ExactCounts;
  }

  lemma {:induction false} SameHistory(schema: Schema, s: System, t: System)
    requires HistoryOk(schema, s) && t.deltas == s.deltas && t.worlds == s.worlds && t.ids == s.ids
    ensures HistoryOk(schema, t)
  {
    hide History, StableTypes, Describes, Registered;
  }

  // ---------------------------------------------------------------- delivery

  /** The type and size of an entity's last record are those it has in some world of the window. */
  lemma {:induction false} RecordedIn(ds: seq<Delta>, ws: seq<World>, id: nat) returns (j: nat)
    requires History(ds, ws) && NewestRecord(ds, id).Some? && NewestRecord(ds, id).value.numFields > 0
    ensures j < |ws| && id in ws[j]
    ensures ws[j][id].typ == NewestRecord(ds, id).value.typ && |ws[j][id].fields| == NewestRecord(ds, id).value.numFields
    decreases |ds|
  {
    hide WellFormed, Ordered;
    var n := |ds| - 1;
    var e := Lookup(ds[n].entities, id);
    if e.Some? {
      j := n + 1;
      assert Step(ds[n], ws[n], ws[n + 1]);
      assert Applicable(ChangeOf(ds[n], id), Get(ws[n], id)) &&
             Apply(ChangeOf(ds[n], id), Get(ws[n], id)) == Get(ws[n + 1], id);
    } else {
      InitHistory(ds, ws);
      j := RecordedIn(ds[..n], ws[..n + 1], id);
    }
  }

  lemma InitHistory(ds: seq<Delta>, ws: seq<World>)
    requires History(ds, ws) && ds != []
    ensures History(ds[..|ds| - 1], ws[..|ds|])
  {
    hide WellFormed, Ordered, Step;
  }

  lemma StableKept(ds: seq<Delta>, ws: seq<World>, t: nat)
    requires History(ds, ws) && StableTypes(ws) && t < |ws|
    ensures TypesKept(ds, ws[t])
  {
    hide History, NewestRecord;
    forall id: nat | NewestRecord(ds, id).Some? && id in ws[t]
      ensures Meets(NewestRecord(ds, id).value, Get(ws[t], id))
    {
      if NewestRecord(ds, id).value.numFields > 0 {
        var j := RecordedIn(ds, ws, id);
        assert SameTypes(ws[t], ws[j]);
      }
    }
  }

  lemma WindowHistory(ds: seq<Delta>, ws: seq<World>, k: nat, n: nat)
    requires History(ds, ws) && k <= n <= |ds|
    ensures History(ds[k..n], ws[k..n + 1]) && (StableTypes(ws) ==> StableTypes(ws[k..n + 1]))
  {
    hide WellFormed, Ordered, Step, SameTypes;
    var d, w := ds[k..n], ws[k..n + 1];
    forall i | 0 <= i < |d| ensures Step(d[i], w[i], w[i + 1]) && WellFormed(d[i]) && Ordered(d[i].items) {
      assert Step(ds[k + i], ws[k + i], ws[k + i + 1]) && WellFormed(ds[k + i]);
    }
  }

  lemma {:induction false} RegisteredConforms(schema: Schema, w: World)
    requires Registered(schema, w)
    ensures Conforms(schema, w)
  {
  }

  lemma {:induction false} WindowFacts(schema: Schema, s: System, k: nat, n: nat)
    requires HistoryOk(schema, s) && |s.worlds| == |s.deltas| + 1 && k <= n <= |s.deltas|
    ensures History(s.deltas[k..n], s.worlds[k..n + 1]) && StableTypes(s.worlds[k..n + 1])
    ensures forall d | d in s.deltas[k..n] :: Describes(schema, d)
  {
    hide History, StableTypes, Describes, Registered;
    WindowHistory(s.deltas, s.worlds, k, n);
  }

  lemma {:induction false} WorldFacts(schema: Schema, s: System, t: nat, n: nat)
    requires HistoryOk(schema, s) && |s.worlds| == |s.deltas| + 1 && t < |s.worlds| && n < |s.worlds|
    ensures Conforms(schema, s.worlds[t]) && Registered(schema, s.worlds[n]) && SameTypes(s.worlds[t], s.worlds[n])
  {
    hide History, Describes, Registered, SameTypes, Conforms;
    assert s.worlds[n] in s.worlds && s.worlds[t] in s.worlds;
    RegisteredConforms(schema, s.worlds[t]);
  }

  /** A merged window read by a client inside it: at its newest world, or rejected. */
  lemma {:induction false} WindowRead(schema: Schema, ds: seq<Delta>, ws: seq<World>, t: nat, buf: Bytes, at: nat)
    requires History(ds, ws) && StableTypes(ws) && TicksInOrder(ds) && t <= |ds| == |ws| - 1
    requires forall d | d in ds :: Describes(schema, d)
    requires Conforms(schema, ws[t]) && at <= |buf|
    requires At(buf, at, SnapshotBytes(MergeAll(ds), ExactCounts(MergeAll(ds).entities)))
    ensures match ReadSnapshot(schema, buf, at, ws[t])
            case Done(world, _) => world == ws[|ds|]
            case Rejected(_) => !HoldsUpdated(ds, ws[t])
            case Faulted => false
  {
    hide History, StableTypes, TicksInOrder, MergeAll, Describes, Conforms, TypesKept, HoldsUpdated, At,
      SnapshotBytes, ReadSnapshot, ExactCounts;
    StableKept(ds, ws, t);
    WindowDelivered(schema, ds, ws, t, buf, at);
  }

  /** A delta packet takes a client inside its window to its newest tick, or is rejected. */
  lemma {:induction false} DeltaDelivered(schema: Schema, s: System, p: Update)
    requires HistoryOk(schema, s) && |s.worlds| == |s.deltas| + 1 && s.tick <= |s.deltas| && s.client == s.worlds[s.tick]
    requires PacketOk(schema, s, p) && Conforms(schema, s.client)
    requires p.since.Some? && p.since.value <= s.tick <= p.upTo
    ensures match ReadSnapshot(schema, p.bytes, Start(p), s.client)
            case Done(world, _) => world == s.worlds[p.upTo]
            case Rejected(_) => !HoldsUpdated(s.deltas[p.since.value..p.upTo], s.client)
            case Faulted => false
  {
    hide History, StableTypes, TicksInOrder, MergeAll, Describes, Conforms, HoldsUpdated, At,
      SnapshotBytes, ReadSnapshot, ExactCounts, HistoryOk;
    var k, n := p.since.value, p.upTo;
    WindowFacts(schema, s, k, n);
    SliceAt(s.worlds, k, n, s.tick);
    WindowRead(schema, s.deltas[k..n], s.worlds[k..n + 1], s.tick - k, p.bytes, Start(p));
  }

  lemma SliceAt(ws: seq<World>, k: nat, n: nat, t: nat)
    requires k <= t <= n < |ws|
    ensures ws[k..n + 1][t - k] == ws[t] && ws[k..n + 1][n - k] == ws[n]
  {
  }

  /** So does a full copy, for a client whose entities are all still there. */
  lemma {:induction false} FullDelivered(schema: Schema, s: System, p: Update)
    requires HistoryOk(schema, s) && |s.worlds| == |s.deltas| + 1 && s.tick <= |s.deltas| && s.client == s.worlds[s.tick]
    requires PacketOk(schema, s, p) && Conforms(schema, s.client)
    requires p.since.None? && s.client.Keys <= s.worlds[p.upTo].Keys
    ensures var r := ReadSnapshot(schema, p.bytes, Start(p), s.client); r.Done? && r.world == s.worlds[p.upTo]
  {
    hide History, Describes, Registered, Conforms, At, MasterBytes, ReadSnapshot, RepresentsWorld, HistoryOk, SameTypes,
      TicksInOrder, SnapshotBytes, MergeAll, ExactCounts;
    var w := s.worlds[p.upTo];
    var edata :| RepresentsWorld(edata, w) && At(p.bytes, Start(p), MasterBytes(edata));
    WorldFacts(schema, s, s.tick, p.upTo);
    MasterOntoHoldingIff(schema, edata, w, s.client, p.bytes, Start(p));
  }

  lemma {:induction false} PacketHeaded(schema: Schema, s: System, p: Update)
    requires |s.worlds| == |s.deltas| + 1 && PacketOk(schema, s, p)
    ensures Headed(s, p)
  {
    hide Headed;
  }

  /** What reading the i-th packet gives, when it does not stray. */
  lemma {:induction false} ReadDelivered(schema: Schema, s: System, i: nat)
    requires Ok(schema, s) && Enabled(schema, s, Deliver(i)) && Proper(schema, s, Deliver(i)) && Reads(s, i)
    ensures var p := s.sent[i];
            && s.tick <= p.upTo <= |s.deltas| && (p.since.Some? ==> p.since.value <= p.upTo) && Headed(s, p)
            && match ReadSnapshot(schema, p.bytes, Start(p), s.client)
               case Done(world, _) => world == s.worlds[p.upTo]
               case Rejected(_) => p.since.Some? && !HoldsUpdated(s.deltas[p.since.value..p.upTo], s.client)
               case Faulted => false
  {
    hide HistoryOk, ReadSnapshot, PacketOk, StableTypes, Conforms, HoldsUpdated, Tracks, SlotsTrack, Taken, Reaches,
      InOrder;
    var p := s.sent[i];
    assert PacketOk(schema, s, p) && Useful(s, p);
    PacketPast(schema, s, p);
    PacketHeaded(schema, s, p);
    ReceivedLink(s, i);
    if p.since.Some? {
      DeltaDelivered(schema, s, p);
    } else {
      FullDelivered(schema, s, p);
    }
  }

  /** Later packets reach at least as far as one that has been read. */
  lemma UsefulAfter(s: System, t: System, i: nat, j: nat)
    requires InOrder(s.sent) && i < |s.sent| && j < |s.sent| && Useful(s, s.sent[j]) && t.number == s.number
    requires t.log.accepted != [] && t.log.newest == s.sent[i].number
    requires s.tick <= t.tick <= s.sent[i].upTo
    ensures Useful(t, s.sent[j])
  {
    if j < i {
      assert s.sent[j].number < s.sent[i].number;
    }
  }

  lemma {:induction false} DeliverKeeps(schema: Schema, s: System, i: nat)
    requires Ok(schema, s) && Enabled(schema, s, Deliver(i)) && Proper(schema, s, Deliver(i))
    ensures Ok(schema, StepOn(schema, s, Deliver(i)))
    ensures s.tick <= StepOn(schema, s, Deliver(i)).tick
  {
    hide HistoryOk, ReadSnapshot, PacketOk, StableTypes, Conforms, HoldsUpdated, Tracks, SlotsTrack, Taken, Reaches,
      InOrder, LogArrival, Receive, Useful, ReadUpdateHeader, ClientOk;
    var t := StepOn(schema, s, Deliver(i));
    ReceivedLinked(schema, s, i);
    ClientReads(schema, s, i);
    forall j | 0 <= j < |s.sent|
      ensures PacketOk(schema, t, s.sent[j]) && Useful(t, s.sent[j])
    {
      assert PacketOk(schema, s, s.sent[j]) && Useful(s, s.sent[j]);
      SamePacket(schema, s, t, s.sent[j]);
      if Reads(s, i) {
        UsefulAfter(s, t, i, j);
      } else {
        StillUseful(s, t, s.sent[j]);
      }
    }
    SameHistory(schema, s, t);
  }

  /** What becomes of the client: it is where the packet leads, and knows that tick by its id. */
  lemma {:induction false} ClientReads(schema: Schema, s: System, i: nat)
    requires Ok(schema, s) && Enabled(schema, s, Deliver(i)) && Proper(schema, s, Deliver(i))
    ensures var t := StepOn(schema, s, Deliver(i));
            && ClientOk(t) && s.tick <= t.tick && (t.tick <= s.sent[i].upTo || !Reads(s, i)) && (!Reads(s, i) ==> t.tick == s.tick)
            && t == CameIn(s, i).(client := t.client, tick := t.tick, named := t.named, alive := t.alive)
  {
    hide HistoryOk, ReadSnapshot, PacketOk, StableTypes, Conforms, HoldsUpdated, Tracks, SlotsTrack, Taken, Reaches,
      InOrder, LogArrival, Receive, Useful, ReadUpdateHeader, ReadAck;
    var t := StepOn(schema, s, Deliver(i));
    if Reads(s, i) {
      ReadDelivered(schema, s, i);
    }
    forall a | a in t.acks
      ensures AckOk(t, a)
    {
      assert AckOk(s, a);
    }
  }

  lemma {:induction false} ReceivedLinked(schema: Schema, s: System, i: nat)
    requires Ok(schema, s) && Enabled(schema, s, Deliver(i)) && Proper(schema, s, Deliver(i))
    ensures var t := CameIn(s, i);
            && LinkOk(t)
            && if Reads(s, i) then t.log.accepted != [] && t.log.newest == s.sent[i].number
               else t.log.newest == s.log.newest && (s.log.accepted != [] <==> t.log.accepted != [])
  {
    hide HistoryOk, PacketOk, Conforms, Tracks, SlotsTrack, Taken, Reaches, InOrder;
    assert Useful(s, s.sent[i]);
    ReceivedLink(s, i);
  }

  lemma StillUseful(s: System, t: System, p: Update)
    requires Useful(s, p) && t.number == s.number && t.tick == s.tick && t.log.newest == s.log.newest
    requires s.log.accepted != [] <==> t.log.accepted != []
    ensures Useful(t, p)
  {
  }

  /** The acknowledgement names the client's tick. */
  lemma AckSent(s: System, since: nat, input: Bytes)
    requires ClientOk(s) && s.alive && s.tick > 0 && since < 65536
    ensures AckOk(s, Ack(s.tick, AckBytes(s.named, since) + input))
  {
    hide AckBytes, ReadAck;
    assert s.ids[s.tick - 1] in s.ids;
    AckReadsBack([], s.named, since, input);
    assert [] + AckBytes(s.named, since) + input == AckBytes(s.named, since) + input;
  }

  lemma {:induction false} AcksKeep(schema: Schema, s: System, e: Event)
    requires Ok(schema, s) && Enabled(schema, s, e) && (e.Acknowledge? || e.Hear?)
    ensures Ok(schema, StepOn(schema, s, e))
  {
    hide HistoryOk, PacketOk, StableTypes, Tracks, SlotsTrack, InOrder, AckBytes, ReadAck;
    var t := StepOn(schema, s, e);
    SameHistory(schema, s, t);
    forall i | 0 <= i < |s.sent|
      ensures PacketOk(schema, t, s.sent[i])
    {
      SamePacket(schema, s, t, s.sent[i]);
    }
    if e.Acknowledge? {
      AckSent(s, e.since, e.input);
    }
    forall a | a in t.acks
      ensures AckOk(t, a)
    {
      assert a in s.acks ==> AckOk(s, a);
    }
  }

  /** A delta is merged behind a tick the client has reached. */
  lemma AckedReached(schema: Schema, s: System, e: Event)
    requires ClientOk(s) && Enabled(schema, s, e) && Proper(schema, s, e)
    ensures e.SendDelta? ==> Base(s).Some? && Base(s).value <= s.tick
  {
    hide ReadAck, Resolve;
    if e.SendDelta? {
      assert AckOk(s, s.acked.value);
    }
  }

  lemma {:induction false} StepKeeps(schema: Schema, s: System, e: Event)
    requires Ok(schema, s) && Enabled(schema, s, e) && Proper(schema, s, e)
    ensures var t := StepOn(schema, s, e); Ok(schema, t) && s.tick <= t.tick
  {
    hide HistoryOk, PacketOk, ReadSnapshot, StableTypes, LinkOk, Stray, Reads, CameIn, SentOk, ReadUpdateHeader, ReadAck,
      UpdateHeader, AckBytes, Resolve, MergeAll, SnapshotBytes, MasterBytes;
    AckedReached(schema, s, e);
    match e
    case Tick(d, w, id) => TickKeeps(schema, s, d, w, id);
    case SendDelta(seqNum, ping, messages) =>
      DeltaSent(schema, s, seqNum, ping, messages);
      SendKeeps(schema, s, DeltaPacket(s, seqNum, ping, messages));
    case SendFull(edata, seqNum, ping, messages) =>
      FullSent(schema, s, edata, seqNum, ping, messages);
      SendKeeps(schema, s, FullPacket(s, edata, seqNum, ping, messages));
    case Deliver(i) => DeliverKeeps(schema, s, i);
    case _ => AcksKeep(schema, s, e);
  }

  // ---------------------------------------------------------------- runs

  ghost predicate Run(schema: Schema, ss: seq<System>, events: seq<Event>)
  {
    |ss| == |events| + 1 && Starts(ss[0]) &&
    forall i :: 0 <= i < |events| ==> Enabled(schema, ss[i], events[i]) && ss[i + 1] == StepOn(schema, ss[i], events[i])
  }

  /** A run without stray packets, misnamed ticks, merges out of order, full copies over entities since
      gone and changes of type, up to its n-th event. */
  ghost predicate ProperUpTo(schema: Schema, ss: seq<System>, events: seq<Event>, n: nat)
    requires Run(schema, ss, events) && n <= |events|
  {
    forall i :: 0 <= i < n ==> Proper(schema, ss[i], events[i])
  }

  lemma {:induction false} StartOk(schema: Schema, s: System)
    requires Starts(s)
    ensures Ok(schema, s)
  {
    hide Tracks, SlotsTrack;
  }

  lemma {:induction false} RunKeeps(schema: Schema, ss: seq<System>, events: seq<Event>, i: nat)
    requires Run(schema, ss, events) && i < |ss| && ProperUpTo(schema, ss, events, i)
    ensures Ok(schema, ss[i])
  {
    hide Ok, Enabled, StepOn, Proper, Starts;
    if i == 0 {
      StartOk(schema, ss[0]);
    } else {
      RunKeeps(schema, ss, events, i - 1);
      assert Enabled(schema, ss[i - 1], events[i - 1]) && ss[i - 1 + 1] == StepOn(schema, ss[i - 1], events[i - 1]);
      StepKeeps(schema, ss[i - 1], events[i - 1]);
    }
  }

  /** Whatever is lost, repeated, reordered or late, in a proper run a client that still plays is always
      exactly at one of the worlds the server has published. */
  lemma {:induction false} AlwaysPublished(schema: Schema, ss: seq<System>, events: seq<Event>, i: nat)
    requires Run(schema, ss, events) && i < |ss| && ProperUpTo(schema, ss, events, i)
    ensures ss[i].tick < |ss[i].worlds|
    ensures ss[i].alive ==> ss[i].client == ss[i].worlds[ss[i].tick]
  {
    hide Run, PacketOk, StableTypes, HistoryOk, SentOk, LinkOk, ProperUpTo;
    RunKeeps(schema, ss, events, i);
  }

  /** And it never goes back. */
  lemma {:induction false} NeverBack(schema: Schema, ss: seq<System>, events: seq<Event>, i: nat, j: nat)
    requires Run(schema, ss, events) && i <= j < |ss| && ProperUpTo(schema, ss, events, j)
    ensures ss[i].tick <= ss[j].tick
    decreases j
  {
    hide Ok, Enabled, StepOn, Proper, Starts;
    if i < j {
      NeverBack(schema, ss, events, i, j - 1);
      RunKeeps(schema, ss, events, j - 1);
      assert Enabled(schema, ss[j - 1], events[j - 1]) && ss[j - 1 + 1] == StepOn(schema, ss[j - 1], events[j - 1]);
      StepKeeps(schema, ss[j - 1], events[j - 1]);
    }
  }

  /** It stops playing only on a delta packet that updates an entity it does not hold. */
  lemma {:induction false} StopsOnlyOnUnknown(schema: Schema, ss: seq<System>, events: seq<Event>, i: nat)
    requires Run(schema, ss, events) && i < |events| && ProperUpTo(schema, ss, events, i + 1)
    requires ss[i].alive && !ss[i + 1].alive
    ensures events[i].Deliver? && events[i].i < |ss[i].sent|
    ensures var p := ss[i].sent[events[i].i];
            p.since.Some? && p.since.value <= p.upTo <= |ss[i].deltas| &&
            !HoldsUpdated(ss[i].deltas[p.since.value..p.upTo], ss[i].client)
  {
    hide Ok, HistoryOk, ReadSnapshot, StableTypes, HoldsUpdated, At, MergeAll, SnapshotBytes, MasterBytes, Conforms,
      Stray, Reads, CameIn, Starts;
    var s, e := ss[i], events[i];
    RunKeeps(schema, ss, events, i);
    assert Enabled(schema, s, e) && Proper(schema, s, e) && ss[i + 1] == StepOn(schema, s, e);
    AliveAfter(schema, s, e);
    ReadDelivered(schema, s, e.i);
    assert ReadUpdateHeader(s.sent[e.i].bytes).HeaderRead?;
  }

  /** Every acknowledgement ever sent is of a tick the client had reached, and is read by the server as
      that tick's id. */
  lemma {:induction false} AcksNameTicks(schema: Schema, ss: seq<System>, events: seq<Event>, i: nat, a: Ack)
    requires Run(schema, ss, events) && i < |ss| && ProperUpTo(schema, ss, events, i) && a in ss[i].acks
    ensures 0 < a.tick <= ss[i].tick && a.tick <= |ss[i].ids|
    ensures ReadAck(a.bytes, 0).AckRead? && ReadAck(a.bytes, 0).ackTime == ss[i].ids[a.tick - 1]
  {
    hide Run, PacketOk, StableTypes, HistoryOk, SentOk, LinkOk, ProperUpTo, ReadAck;
    RunKeeps(schema, ss, events, i);
    assert AckOk(ss[i], a);
  }

  lemma {:induction false} AliveAfter(schema: Schema, s: System, e: Event)
    requires Enabled(schema, s, e) && s.alive && !StepOn(schema, s, e).alive
    ensures e.Deliver? && Reads(s, e.i)
    ensures ReadUpdateHeader(s.sent[e.i].bytes).HeaderRead? ==>
              !ReadSnapshot(schema, s.sent[e.i].bytes, Start(s.sent[e.i]), s.client).Done?
  {
    hide ReadSnapshot, Reads, Taken, Receive, LogArrival;
  }
}
