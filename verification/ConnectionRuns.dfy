/** What the receiving end guarantees over whole runs: sixteen bits and a shift register act like
    the set of all numbers ever accepted, and fragments come together in any order. */
module ConnectionRuns {
  import opened Packets
  import opened PacketHeaders
  import opened Connections

  /** A datagram off the network. `number` is the sender's unbounded count; the wire carries
      only its low sixteen bits. */
  datatype Arrival = Arrival(number: int, header: Header, payload: Bytes)
  {
    predicate Valid()
    {
      header.Valid() && header.fragIndex < WINDOW && number % SEQ_SPACE == header.seqNum
    }
  }

  /** A connection and everything its owner has taken from it. */
  datatype Endpoint = Endpoint(conn: Receiver, delivered: seq<Bytes>)

  /** addPacket, then getLatestPacket when there is a new one (src/nrg_client.cpp:109-110). */
  function Handle(e: Endpoint, a: Arrival): (r: Endpoint)
    requires e.conn.Valid() && a.Valid()
    ensures r.conn.Valid()
  {
    var r := Receive(e.conn, a.header, a.payload);
    if r.ok && r.conn.newPacket then Endpoint(r.conn.(newPacket := false), e.delivered + [r.conn.latest])
    else Endpoint(r.conn, e.delivered)
  }

  predicate AllValid(arrivals: seq<Arrival>)
  {
    forall i :: 0 <= i < |arrivals| ==> arrivals[i].Valid()
  }

  function HandleAll(e: Endpoint, arrivals: seq<Arrival>): (r: Endpoint)
    requires e.conn.Valid() && AllValid(arrivals)
    ensures r.conn.Valid()
  {
    if arrivals == [] then e
    else Handle(HandleAll(e, arrivals[..|arrivals| - 1]), arrivals[|arrivals| - 1])
  }

  // ---------------------------------------------------------------- the ideal filter

  /** What an unbounded receiver would remember: every number accepted, in order, the newest,
      and the number of the fragment each slot holds. */
  datatype Log = Log(newest: int, accepted: seq<int>, stored: seq<int>)

  function NewLog(): (log: Log)
    ensures |log.stored| == WINDOW
  {
    Log(0, [], seq(WINDOW, _ => 0))
  }

  /** The ideal filter: new, within the window, and not an old retransmission. */
  predicate Wanted(log: Log, n: int, flags: nat)
  {
    log.accepted == [] ||
    (log.newest - 32 < n < log.newest + 32 && n !in log.accepted && !(n < log.newest && Has(flags, RETRANSMISSION)))
  }

  function NewestAfter(log: Log, n: int): int
  {
    if log.accepted == [] || n > log.newest then n else log.newest
  }

  function Accept(log: Log, n: int): Log
  {
    log.(newest := NewestAfter(log, n), accepted := log.accepted + [n])
  }

  /** Whether an admitted packet's payload ends up in a slot. */
  predicate Stores(c: Receiver, a: Arrival, age: nat)
    requires c.Valid() && a.Valid()
  {
    IsFragment(a.header) && !(Has(a.header.flags, FINISHED) && c.seqNum != a.header.seqNum) &&
    (c.slots[a.header.fragIndex].age < 0 || age <= c.slots[a.header.fragIndex].age)
  }

  function LogArrival(c: Receiver, log: Log, a: Arrival): (r: Log)
    requires c.Valid() && a.Valid() && |log.stored| == WINDOW
    ensures |r.stored| == WINDOW
  {
    if a.header.version != 0 then log
    else match Admit(c, a.header)
      case Ignored => log
      case Admitted(conn, age) =>
        var r := Accept(log, a.number);
        if Stores(conn, a, age) then r.(stored := r.stored[a.header.fragIndex := a.number]) else r
  }

  function LogAll(e: Endpoint, log: Log, arrivals: seq<Arrival>): (r: Log)
    requires e.conn.Valid() && AllValid(arrivals) && |log.stored| == WINDOW
    ensures |r.stored| == WINDOW
  {
    if arrivals == [] then log
    else
      var before := arrivals[..|arrivals| - 1];
      LogArrival(HandleAll(e, before).conn, LogAll(e, log, before), arrivals[|arrivals| - 1])
  }

  lemma OneMore(e: Endpoint, log: Log, arrivals: seq<Arrival>, a: Arrival)
    requires e.conn.Valid() && AllValid(arrivals) && a.Valid() && |log.stored| == WINDOW
    ensures AllValid(arrivals + [a])
    ensures HandleAll(e, arrivals + [a]) == Handle(HandleAll(e, arrivals), a)
    ensures LogAll(e, log, arrivals + [a]) == LogArrival(HandleAll(e, arrivals).conn, LogAll(e, log, arrivals), a)
  {
    hide Handle, LogArrival;
    assert (arrivals + [a])[..|arrivals|] == arrivals;
  }

  /** The bits say what the set says: bit k is set exactly when newest - k was accepted, and
      nothing was accepted twice. */
  ghost predicate Tracks(c: Receiver, log: Log)
  {
    c.Valid() && |log.stored| == WINDOW &&
    (NoHistory(c.history) <==> log.accepted == []) &&
    (log.accepted != [] ==> log.newest in log.accepted && c.seqNum == log.newest % SEQ_SPACE) &&
    (forall n :: n in log.accepted ==> n <= log.newest) &&
    (forall i, j :: 0 <= i < j < |log.accepted| ==> log.accepted[i] != log.accepted[j]) &&
    forall k :: 0 <= k < WINDOW ==> (c.history[k] <==> log.newest - k in log.accepted)
  }

  /** A slot's age is how far its fragment lies behind the newest number; unused slots are empty. */
  ghost predicate SlotsTrack(c: Receiver, log: Log)
    requires c.Valid() && |log.stored| == WINDOW
  {
    forall i :: 0 <= i < WINDOW ==>
      if c.slots[i].age < 0 then c.slots[i].age == -1 && c.slots[i].data == []
      else c.slots[i].age <= WINDOW && c.slots[i].age == log.newest - log.stored[i] && log.accepted != []
  }

  /** The number a receiver takes sixteen bits to mean: the nearest to its newest. */
  function Perceived(c: Receiver, log: Log, seqNum: nat): (n: int)
    requires c.Valid() && seqNum < SEQ_SPACE
    requires log.accepted != [] ==> c.seqNum == log.newest % SEQ_SPACE
    ensures n % SEQ_SPACE == seqNum
  {
    if log.accepted == [] then seqNum
    else
      assert (log.newest + Distance(seqNum, c.seqNum)) % SEQ_SPACE == seqNum;
      log.newest + Distance(seqNum, c.seqNum)
  }

  /** Perception is right exactly within half the sequence space. */
  lemma PerceivedIff(c: Receiver, log: Log, n: int)
    requires Tracks(c, log) && log.accepted != []
    ensures Perceived(c, log, n % SEQ_SPACE) == n <==> -32768 <= n - log.newest < 32768
  {
  }

  predicate Faithful(log: Log, n: int)
  {
    log.accepted != [] ==> -32768 <= n - log.newest < 32768
  }

  /** The shift register admits exactly what the ideal filter wants. */
  lemma AdmitsWanted(c: Receiver, log: Log, a: Arrival)
    requires Tracks(c, log) && a.Valid() && Faithful(log, a.number)
    ensures Admit(c, a.header).Admitted? <==> Wanted(log, a.number, a.header.flags)
    ensures Admit(c, a.header).Admitted? ==>
              Admit(c, a.header).age == NewestAfter(log, a.number) - a.number
  {
    if log.accepted != [] {
      PerceivedIff(c, log, a.number);
    }
  }

  /** Outside half the space a packet is misjudged exactly when the number it passes for is wanted. */
  lemma MisjudgedIff(c: Receiver, log: Log, a: Arrival)
    requires Tracks(c, log) && a.Valid() && log.accepted != [] && !Faithful(log, a.number)
    ensures !Wanted(log, a.number, a.header.flags)
    ensures Admit(c, a.header).Admitted? <==>
            Wanted(log, Perceived(c, log, a.header.seqNum), a.header.flags)
  {
    AdmitsWanted(c, log, a.(number := Perceived(c, log, a.header.seqNum)));
  }

  lemma AcceptKeepsLog(log: Log, n: int, flags: nat)
    requires Wanted(log, n, flags)
    requires log.accepted != [] ==> log.newest in log.accepted
    requires forall m :: m in log.accepted ==> m <= log.newest
    requires forall i, j :: 0 <= i < j < |log.accepted| ==> log.accepted[i] != log.accepted[j]
    ensures var next := Accept(log, n);
            next.newest in next.accepted && (forall m :: m in next.accepted ==> m <= next.newest) &&
            (forall i, j :: 0 <= i < j < |next.accepted| ==> next.accepted[i] != next.accepted[j]) &&
            forall m :: m in next.accepted <==> m in log.accepted || m == n
  {
    var next := Accept(log, n);
    assert next.accepted[|log.accepted|] == n;
    forall m
      ensures m in next.accepted <==> m in log.accepted || m == n
    {
      assert m in log.accepted ==> m in log.accepted + [n];
    }
  }

  /** The bits after an admission, by what the history was before it. */
  lemma AdmissionBits(c: Receiver, log: Log, a: Arrival, k: nat)
    requires Tracks(c, log) && a.Valid() && Faithful(log, a.number) && Admit(c, a.header).Admitted? && k < WINDOW
    ensures var m := NewestAfter(log, a.number) - k;
            Admit(c, a.header).conn.history[k] <==> m in log.accepted || m == a.number
  {
    if log.accepted == [] {
      assert !c.history[k];
    } else {
      PerceivedIff(c, log, a.number);
      var d := a.number - log.newest;
      assert c.history[k] <==> log.newest - k in log.accepted;
      if 0 < d <= k {
        assert c.history[k - d] <==> log.newest - (k - d) in log.accepted;
      }
    }
  }

  lemma AdmissionTracks(c: Receiver, log: Log, a: Arrival)
    requires Tracks(c, log) && a.Valid() && Faithful(log, a.number) && Admit(c, a.header).Admitted?
    ensures Tracks(Admit(c, a.header).conn, Accept(log, a.number))
  {
    hide Wanted, Shifted, Aged, Faithful;
    var n, r, next := a.number, Admit(c, a.header).conn, Accept(log, a.number);
    AdmitsWanted(c, log, a);
    AcceptKeepsLog(log, n, a.header.flags);
    forall k | 0 <= k < WINDOW
      ensures r.history[k] <==> next.newest - k in next.accepted
    {
      AdmissionBits(c, log, a, k);
    }
    AdmissionSeqNum(c, log, a);
    AdmissionBits(c, log, a, next.newest - n);
  }

  lemma AdmissionSeqNum(c: Receiver, log: Log, a: Arrival)
    requires Tracks(c, log) && a.Valid() && Faithful(log, a.number) && Admit(c, a.header).Admitted?
    ensures Admit(c, a.header).conn.seqNum == NewestAfter(log, a.number) % SEQ_SPACE
  {
    if log.accepted != [] {
      PerceivedIff(c, log, a.number);
    }
  }

  lemma AdmissionAgesSlots(c: Receiver, log: Log, a: Arrival)
    requires c.Valid() && |log.stored| == WINDOW
    requires Tracks(c, log) && SlotsTrack(c, log) && a.Valid() && Faithful(log, a.number)
    requires Admit(c, a.header).Admitted?
    ensures SlotsTrack(Admit(c, a.header).conn, Accept(log, a.number))
  {
    hide Wanted, Shifted, Tracks, AgedSlot;
    AdmissionSlots(c, log, a);
    var r, next, d := Admit(c, a.header).conn, Accept(log, a.number), NewestAfter(log, a.number) - log.newest;
    forall i | 0 <= i < WINDOW
      ensures if r.slots[i].age < 0 then r.slots[i].age == -1 && r.slots[i].data == []
              else r.slots[i].age <= WINDOW && r.slots[i].age == next.newest - next.stored[i]
    {
      if log.accepted != [] && d > 0 {
        assert r.slots[i] == AgedSlot(c.slots[i], d);
        AgedSlotTracks(c.slots[i], d);
      }
    }
  }

  lemma AdmissionSlots(c: Receiver, log: Log, a: Arrival)
    requires Tracks(c, log) && a.Valid() && Faithful(log, a.number) && Admit(c, a.header).Admitted?
    ensures var d := NewestAfter(log, a.number) - log.newest;
            Admit(c, a.header).conn.slots == if log.accepted != [] && d > 0 then Aged(c.slots, d) else c.slots
  {
    if log.accepted != [] {
      PerceivedIff(c, log, a.number);
    }
  }

  lemma AgedSlotTracks(s: Slot, d: nat)
    requires s.age < 0 ==> s.age == -1 && s.data == []
    ensures var r := AgedSlot(s, d);
            if r.age < 0 then r.age == -1 && r.data == [] else r.age <= WINDOW && s.age >= 0 && r.age == s.age + d
  {
  }

  lemma PlacementTracks(c: Receiver, log: Log, a: Arrival, age: nat)
    requires Tracks(c, log) && SlotsTrack(c, log) && a.Valid()
    requires age < WINDOW && age == log.newest - a.number && log.accepted != []
    ensures var r := Place(c, a.header, a.payload, age);
            var taken := c.slots[a.header.fragIndex].age < 0 || age <= c.slots[a.header.fragIndex].age;
            SlotsTrack(r, if taken then log.(stored := log.stored[a.header.fragIndex := a.number]) else log)
  {
    hide Complete, FlushEnd, Joined, RunEnd;
  }

  lemma ArrivalTracks(c: Receiver, log: Log, a: Arrival)
    requires Tracks(c, log) && SlotsTrack(c, log) && a.Valid() && Faithful(log, a.number)
    ensures Tracks(Receive(c, a.header, a.payload).conn, LogArrival(c, log, a))
    ensures SlotsTrack(Receive(c, a.header, a.payload).conn, LogArrival(c, log, a))
  {
    if a.header.version == 0 && Admit(c, a.header).Admitted? {
      AdmitsWanted(c, log, a);
      AdmissionTracks(c, log, a);
      AdmissionAgesSlots(c, log, a);
      SettledTracks(c, log, a);
    }
  }

  lemma SettledTracks(c: Receiver, log: Log, a: Arrival)
    requires c.Valid() && a.Valid() && a.header.version == 0 && Admit(c, a.header).Admitted?
    requires Tracks(Admit(c, a.header).conn, Accept(log, a.number))
    requires SlotsTrack(Admit(c, a.header).conn, Accept(log, a.number))
    requires Admit(c, a.header).age == NewestAfter(log, a.number) - a.number
    ensures Tracks(Receive(c, a.header, a.payload).conn, LogArrival(c, log, a))
    ensures SlotsTrack(Receive(c, a.header, a.payload).conn, LogArrival(c, log, a))
  {
    hide Admit, Place, Wanted;
    var conn, age := Admit(c, a.header).conn, Admit(c, a.header).age;
    if !(Has(a.header.flags, FINISHED) && conn.seqNum != a.header.seqNum) && IsFragment(a.header) {
      PlacementTracks(conn.(newPacket := true), Accept(log, a.number), a, age);
    }
  }

  // ---------------------------------------------------------------- whole runs

  /** Every arrival lies within half the sequence space of the newest number before it. */
  ghost predicate FaithfulRun(e: Endpoint, log: Log, arrivals: seq<Arrival>)
    requires e.conn.Valid() && AllValid(arrivals) && |log.stored| == WINDOW
  {
    arrivals != [] ==>
      var before := arrivals[..|arrivals| - 1];
      FaithfulRun(e, log, before) && Faithful(LogAll(e, log, before), arrivals[|arrivals| - 1].number)
  }

  /** In every reachable state, across any number of wraps, the connection is the ideal filter. */
  lemma {:induction false} RunTracks(e: Endpoint, log: Log, arrivals: seq<Arrival>)
    requires e.conn.Valid() && |log.stored| == WINDOW && AllValid(arrivals)
    requires Tracks(e.conn, log) && SlotsTrack(e.conn, log) && FaithfulRun(e, log, arrivals)
    ensures Tracks(HandleAll(e, arrivals).conn, LogAll(e, log, arrivals))
    ensures SlotsTrack(HandleAll(e, arrivals).conn, LogAll(e, log, arrivals))
  {
    hide Receive, LogArrival, Tracks, SlotsTrack;
    if arrivals != [] {
      var before := arrivals[..|arrivals| - 1];
      RunTracks(e, log, before);
      ArrivalTracks(HandleAll(e, before).conn, LogAll(e, log, before), arrivals[|arrivals| - 1]);
      PollTracks(HandleAll(e, before), arrivals[|arrivals| - 1], LogAll(e, log, arrivals));
    }
  }

  lemma PollTracks(e: Endpoint, a: Arrival, log: Log)
    requires e.conn.Valid() && a.Valid()
    requires Tracks(Receive(e.conn, a.header, a.payload).conn, log)
    requires SlotsTrack(Receive(e.conn, a.header, a.payload).conn, log)
    ensures Tracks(Handle(e, a).conn, log) && SlotsTrack(Handle(e, a).conn, log)
  {
    hide Receive;
  }

  lemma FreshTracks(seed: nat)
    requires seed < SEQ_SPACE
    ensures Tracks(Fresh(seed), NewLog()) && SlotsTrack(Fresh(seed), NewLog())
  {
  }

  /** From a fresh connection: no datagram is accepted twice, however often it is repeated. */
  lemma AcceptedOnce(seed: nat, arrivals: seq<Arrival>)
    requires seed < SEQ_SPACE && AllValid(arrivals)
    requires FaithfulRun(Endpoint(Fresh(seed), []), NewLog(), arrivals)
    ensures var log := LogAll(Endpoint(Fresh(seed), []), NewLog(), arrivals);
            forall i, j :: 0 <= i < j < |log.accepted| ==> log.accepted[i] != log.accepted[j]
  {
    FreshTracks(seed);
    RunTracks(Endpoint(Fresh(seed), []), NewLog(), arrivals);
  }

  function Renumber(c: Receiver, log: Log, a: Arrival): (r: Arrival)
    requires c.Valid() && a.Valid()
    ensures r.Valid() && r.header == a.header && r.payload == a.payload
  {
    if log.accepted != [] && c.seqNum == log.newest % SEQ_SPACE
    then a.(number := Perceived(c, log, a.header.seqNum))
    else a
  }

  /** The same datagrams under the numbers the receiver takes them to have. */
  ghost function Renumbered(e: Endpoint, log: Log, arrivals: seq<Arrival>): (r: seq<Arrival>)
    requires AllValid(arrivals) && e.conn.Valid() && |log.stored| == WINDOW
    ensures |r| == |arrivals| && AllValid(r)
    ensures forall i :: 0 <= i < |r| ==> r[i].header == arrivals[i].header && r[i].payload == arrivals[i].payload
  {
    if arrivals == [] then []
    else
      var before := Renumbered(e, log, arrivals[..|arrivals| - 1]);
      var last := arrivals[|arrivals| - 1];
      before + [Renumber(HandleAll(e, before).conn, LogAll(e, log, before), last)]
  }

  /** So no run at all, faithful or not, takes the connection outside the invariant. */
  lemma {:induction false} EveryRunTracks(e: Endpoint, log: Log, arrivals: seq<Arrival>)
    requires e.conn.Valid() && |log.stored| == WINDOW && AllValid(arrivals)
    requires Tracks(e.conn, log) && SlotsTrack(e.conn, log)
    ensures HandleAll(e, arrivals) == HandleAll(e, Renumbered(e, log, arrivals))
    ensures Tracks(HandleAll(e, arrivals).conn, LogAll(e, log, Renumbered(e, log, arrivals)))
    ensures SlotsTrack(HandleAll(e, arrivals).conn, LogAll(e, log, Renumbered(e, log, arrivals)))
  {
    hide SlotsTrack;
    RenumberedFaithful(e, log, arrivals);
    NumbersUnseen(e, arrivals, Renumbered(e, log, arrivals));
    RunTracks(e, log, Renumbered(e, log, arrivals));
  }

  lemma {:induction false} RenumberedFaithful(e: Endpoint, log: Log, arrivals: seq<Arrival>)
    requires e.conn.Valid() && |log.stored| == WINDOW && AllValid(arrivals)
    requires Tracks(e.conn, log) && SlotsTrack(e.conn, log)
    ensures FaithfulRun(e, log, Renumbered(e, log, arrivals))
  {
    hide SlotsTrack, LogAll, HandleAll;
    if arrivals != [] {
      var before := arrivals[..|arrivals| - 1];
      var r := Renumbered(e, log, before);
      RenumberedFaithful(e, log, before);
      RunTracks(e, log, r);
      assert Renumbered(e, log, arrivals)[..|arrivals| - 1] == r;
    }
  }

  lemma {:induction false} NumbersUnseen(e: Endpoint, a: seq<Arrival>, b: seq<Arrival>)
    requires e.conn.Valid() && AllValid(a) && AllValid(b) && |a| == |b|
    requires forall i :: 0 <= i < |a| ==> a[i].header == b[i].header && a[i].payload == b[i].payload
    ensures HandleAll(e, a) == HandleAll(e, b)
  {
    if a != [] {
      NumbersUnseen(e, a[..|a| - 1], b[..|b| - 1]);
    }
  }

  // ---------------------------------------------------------------- OUT_OF_ORDER

  /** The flag means "older than the newest" except where the newest has wrapped past zero:
      it is raised exactly when 0 < age <= seqNum. A flagged packet is always truly older. */
  lemma FlaggedIff(c: Receiver, log: Log, a: Arrival)
    requires Tracks(c, log) && a.Valid() && Faithful(log, a.number) && Admit(c, a.header).Admitted?
    requires !Has(a.header.flags, OUT_OF_ORDER)
    ensures var conn, age := Admit(c, a.header).conn, Admit(c, a.header).age;
            Has(FlagsFor(conn.seqNum, a.header), OUT_OF_ORDER) <==> 0 < age <= conn.seqNum
    ensures Has(FlagsFor(Admit(c, a.header).conn.seqNum, a.header), OUT_OF_ORDER) ==>
              a.number < NewestAfter(log, a.number)
  {
    AdmitsWanted(c, log, a);
    AdmissionTracks(c, log, a);
  }

  /** The whole datagram gets through to the connection's owner, and not under OUT_OF_ORDER. */
  predicate Reaches(c: Receiver, a: Arrival)
    requires c.Valid() && a.Valid()
  {
    var r := Receive(c, a.header, a.payload);
    r.ok && r.conn.newPacket && !Has(r.conn.latestFlags, OUT_OF_ORDER)
  }

  /** Nothing in the header that bears on admission, fragments or the flag. */
  predicate Ordinary(h: Header)
  {
    h.version == 0 && !IsFragment(h) && !Has(h.flags, FINISHED) && !Has(h.flags, RETRANSMISSION) &&
    !Has(h.flags, OUT_OF_ORDER)
  }

  /** An ordinary datagram reaches the owner, as it was sent, if and only if the ideal filter wants it
      and it is the newest or older by more than the newest raw sequence number. */
  lemma ReachesIff(c: Receiver, log: Log, a: Arrival)
    requires Tracks(c, log) && a.Valid() && Faithful(log, a.number) && Ordinary(a.header) && !c.newPacket
    ensures var age := NewestAfter(log, a.number) - a.number;
            Reaches(c, a) <==>
            Wanted(log, a.number, a.header.flags) && (age == 0 || age > NewestAfter(log, a.number) % SEQ_SPACE)
    ensures Reaches(c, a) ==> Receive(c, a.header, a.payload).conn.latest == a.payload
  {
    hide Wanted, NewestAfter, Admit, NoHistory;
    AdmitsWanted(c, log, a);
    if Admit(c, a.header).Admitted? {
      FlaggedIff(c, log, a);
      AdmissionSeqNum(c, log, a);
    } else {
      IgnoredStays(c, a);
    }
  }

  lemma IgnoredStays(c: Receiver, a: Arrival)
    requires c.Valid() && a.Valid() && Admit(c, a.header).Ignored?
    ensures Receive(c, a.header, a.payload).conn == c
  {
    hide Admit;
  }

  /** So a datagram overtaken by a newer one, and not seen before, is handed on as if it were in order
      if and only if it is older by more than the newest raw sequence number: behind a wrap. */
  lemma LateReadIff(c: Receiver, log: Log, a: Arrival)
    requires Tracks(c, log) && a.Valid() && Ordinary(a.header) && !c.newPacket
    requires log.accepted != [] && log.newest - WINDOW < a.number < log.newest && a.number !in log.accepted
    ensures Reaches(c, a) <==> log.newest - a.number > log.newest % SEQ_SPACE
  {
    hide Tracks;
    ReachesIff(c, log, a);
  }

  /** The smallest instance: number 65536 arrives before number 65535. */
  lemma LateAcrossWrap(seed: nat, first: Bytes, second: Bytes)
    requires seed < SEQ_SPACE
    ensures var newer, older := Arrival(65536, Header(0, 0, 0, 0), second), Arrival(65535, Header(65535, 0, 0, 0), first);
            var e := Handle(Endpoint(Fresh(seed), []), newer);
            e.delivered == [second] && Reaches(e.conn, older) && Handle(e, older).delivered == [second, first]
  {
    var newer, older := Arrival(65536, Header(0, 0, 0, 0), second), Arrival(65535, Header(65535, 0, 0, 0), first);
    var e := Handle(Endpoint(Fresh(seed), []), newer);
    assert !e.conn.history[1] && e.conn.history[0];
  }

  /** A repeat of a datagram already accepted and still in the window is dropped, the newest
      included, whatever its flags. */
  lemma RepeatsDropped(c: Receiver, log: Log, a: Arrival)
    requires Tracks(c, log) && a.Valid() && a.number in log.accepted && log.newest - WINDOW < a.number
    ensures Receive(c, a.header, a.payload).conn == c
  {
    AdmitsWanted(c, log, a);
  }

  /** A FINISHED packet that counts is handed on exactly when nothing newer has been seen. */
  lemma FinishedOnlyAsNewest(e: Endpoint, log: Log, a: Arrival)
    requires Tracks(e.conn, log) && a.Valid() && Faithful(log, a.number) && Wanted(log, a.number, a.header.flags)
    requires a.header.version == 0 && Has(a.header.flags, FINISHED) && !IsFragment(a.header) && !e.conn.newPacket
    ensures Receive(e.conn, a.header, a.payload).ok <==> log.accepted == [] || a.number > log.newest
    ensures Handle(e, a).delivered ==
            e.delivered + if log.accepted == [] || a.number > log.newest then [a.payload] else []
  {
    AdmitsWanted(e.conn, log, a);
    AdmissionTracks(e.conn, log, a);
    if log.accepted != [] && a.number <= log.newest {
      assert log.newest in log.accepted;
      assert a.number < log.newest;
    }
  }
}
