/** Both ends of a connection together: every datagram of one packet carries that packet's one
    sequence number, so a packet gets through exactly when it fits a single datagram. */
module Delivery {
  import opened Packets
  import opened PacketHeaders
  import opened Connections
  import opened ConnectionRuns
  import opened Reassembly
  import opened Sending

  /** Datagram k of a packet as it reaches the other side: all share the packet's number. */
  function Sent(p: Bytes, number: int, flags: nat, k: nat): (a: Arrival)
    requires flags < 256 && k < Count(|p|)
    ensures a.Valid()
  {
    var h := Header(number % SEQ_SPACE, flags, 0, 0);
    DatagramShapes(p, h);
    Arrival(number, HeaderOf(|p|, h, k), Payload(Datagrams(p, h)[k]))
  }

  lemma {:induction false} SentShape(p: Bytes, number: int, flags: nat, k: nat)
    requires Plain(flags) && k < Count(|p|)
    ensures var a := Sent(p, number, flags, k);
            a.number == number && a.header.version == 0 && !Has(a.header.flags, FINISHED) &&
            !Has(a.header.flags, RETRANSMISSION) && (IsFragment(a.header) <==> |p| > MAX_PAYLOAD) &&
            (|p| > MAX_PAYLOAD ==> Has(a.header.flags, CONTINUED)) && (|p| <= MAX_PAYLOAD ==> a.payload == p) &&
            a.header.fragIndex == k % 32
  {
    ContinuedOnly(flags);
    if |p| <= MAX_PAYLOAD {
      assert Payload(HeaderBytes(Header(number % SEQ_SPACE, flags, 0, 0)) + p) == p;
    }
  }

  // ---------------------------------------------------------------- slots that only hold pieces

  /** Whatever is in a slot expects another piece behind it: the sender never clears CONTINUED. */
  predicate OnlyPieces(slots: seq<Slot>)
  {
    forall i :: 0 <= i < |slots| ==> slots[i].age >= -1 && (slots[i].age >= 0 ==> slots[i].continued)
  }

  /** All slots are used, each one tick younger than the one before it. */
  predicate AllInStep(slots: seq<Slot>)
  {
    forall i :: 0 <= i < |slots| ==> InStep(slots, i)
  }

  /** Where the check would stop short, it stops at a slot never used. */
  lemma StopsUnused(slots: seq<Slot>)
    requires OnlyPieces(slots) && RunEnd(slots, 0) < |slots|
    ensures !InStep(slots, RunEnd(slots, 0) - 1)
  {
  }

  /** Among pieces only, the completeness check succeeds exactly on a full row of slots. */
  lemma CompleteIffAll(slots: seq<Slot>)
    requires OnlyPieces(slots)
    ensures Complete(slots) <==> AllInStep(slots)
  {
    if RunEnd(slots, 0) < |slots| {
      StopsUnused(slots);
    }
  }

  /** The slots once a piece has been put into its own. */
  function WithPiece(c: Receiver, h: Header, payload: Bytes, age: nat): (r: seq<Slot>)
    requires c.Valid() && h.Valid() && h.fragIndex < WINDOW
    ensures |r| == WINDOW
  {
    c.slots[h.fragIndex := Slot(c.slots[h.fragIndex].data + payload, age, Has(h.flags, CONTINUED))]
  }

  /** The piece goes behind what its slot holds, unless that is of a newer packet. */
  predicate Taken(c: Receiver, h: Header, age: nat)
    requires c.Valid() && h.fragIndex < WINDOW
  {
    c.slots[h.fragIndex].age < 0 || age <= c.slots[h.fragIndex].age
  }

  /** A piece completes something, and then a packet that nobody sent, exactly when it fills the
      last gap in a full row of 32 slots. */
  lemma PieceCompletesIff(c: Receiver, h: Header, payload: Bytes, age: nat)
    requires c.Valid() && h.Valid() && h.fragIndex < WINDOW && Has(h.flags, CONTINUED) && OnlyPieces(c.slots)
    ensures Place(c, h, payload, age).newPacket <==> Taken(c, h, age) && AllInStep(WithPiece(c, h, payload, age))
    ensures OnlyPieces(Place(c, h, payload, age).slots)
  {
    hide Complete, RunEnd, FlushEnd, Joined, Cleared, AllInStep;
    if Taken(c, h, age) {
      CompleteIffAll(WithPiece(c, h, payload, age));
    }
  }

  /** A slot that already holds bytes keeps them in front: the piece alone is in it if and only if
      the slot was empty. */
  lemma PieceAloneIff(c: Receiver, h: Header, payload: Bytes, age: nat)
    requires c.Valid() && h.Valid() && h.fragIndex < WINDOW
    ensures WithPiece(c, h, payload, age)[h.fragIndex].data == payload <==> c.slots[h.fragIndex].data == []
  {
    var held := c.slots[h.fragIndex].data;
    if held != [] {
      assert |held + payload| > |payload|;
    } else {
      assert held + payload == payload;
    }
  }

  lemma AdmissionKeepsPieces(c: Receiver, h: Header)
    requires c.Valid() && h.Valid() && Admit(c, h).Admitted? && OnlyPieces(c.slots)
    ensures OnlyPieces(Admit(c, h).conn.slots)
  {
    hide Shifted;
  }

  // ---------------------------------------------------------------- one arrival

  /** A connection between arrivals. */
  ghost predicate Calm(e: Endpoint, log: Log)
  {
    e.conn.Valid() && |log.stored| == WINDOW && Tracks(e.conn, log) && SlotsTrack(e.conn, log) &&
    OnlyPieces(e.conn.slots) && !e.conn.newPacket
  }

  /** The arrival is admitted and fills the last gap. */
  ghost predicate FillsUp(e: Endpoint, a: Arrival)
    requires e.conn.Valid() && a.Valid()
  {
    IsFragment(a.header) && Admit(e.conn, a.header).Admitted? &&
    var r := Admit(e.conn, a.header);
    Taken(r.conn, a.header, r.age) && AllInStep(WithPiece(r.conn, a.header, a.payload, r.age))
  }

  /** A whole packet that is admitted is handed over as it is, whatever the slots hold. */
  lemma HandleWhole(e: Endpoint, a: Arrival)
    requires e.conn.Valid() && a.Valid() && Admit(e.conn, a.header).Admitted?
    requires !IsFragment(a.header) && !Has(a.header.flags, FINISHED) && a.header.version == 0
    ensures Handle(e, a).delivered == e.delivered + [a.payload] && !Handle(e, a).conn.newPacket
    ensures Handle(e, a).conn.slots == Admit(e.conn, a.header).conn.slots
  {
    hide Admit;
  }

  /** A piece that is admitted hands something over exactly when it fills the last gap. */
  lemma HandlePiece(e: Endpoint, log: Log, a: Arrival)
    requires Calm(e, log) && a.Valid() && Admit(e.conn, a.header).Admitted?
    requires IsFragment(a.header) && Has(a.header.flags, CONTINUED) && !Has(a.header.flags, FINISHED) && a.header.version == 0
    ensures var r := Handle(e, a);
            !r.conn.newPacket && OnlyPieces(r.conn.slots) &&
            if FillsUp(e, a) then |r.delivered| == |e.delivered| + 1 else r.delivered == e.delivered
  {
    hide Admit, Place, AllInStep, Handle, LogArrival, Tracks, SlotsTrack, OnlyPieces, Has, WithPiece;
    var r := Admit(e.conn, a.header);
    var c := r.conn.(newPacket := true);
    AdmissionKeepsPieces(e.conn, a.header);
    PieceCompletesIff(c, a.header, a.payload, r.age);
    HandleFragment(e, log, a);
    SamePieces(r.conn, c, a.header, a.payload, r.age);
  }

  lemma SamePieces(c: Receiver, d: Receiver, h: Header, payload: Bytes, age: nat)
    requires c.Valid() && h.Valid() && h.fragIndex < WINDOW && d == c.(newPacket := d.newPacket)
    ensures WithPiece(d, h, payload, age) == WithPiece(c, h, payload, age) && Taken(d, h, age) == Taken(c, h, age)
  {
  }

  lemma NowAccepted(c: Receiver, log: Log, a: Arrival)
    requires Tracks(c, log) && a.Valid() && Faithful(log, a.number) && a.header.version == 0
    ensures LogArrival(c, log, a).accepted == log.accepted + if Wanted(log, a.number, a.header.flags) then [a.number] else []
    ensures Wanted(log, a.number, a.header.flags) <==> Admit(c, a.header).Admitted?
  {
    AdmitsWanted(c, log, a);
    assert log.accepted + [] == log.accepted;
  }

  lemma NotAdmitted(e: Endpoint, a: Arrival)
    requires e.conn.Valid() && a.Valid() && Admit(e.conn, a.header).Ignored? && a.header.version == 0 && !e.conn.newPacket
    ensures Handle(e, a) == e
  {
    hide Admit;
  }

  /** One datagram, from any state: a small packet not seen yet is handed over, a piece is not, but
      for the row of 32. */
  lemma {:induction false} DatagramArrives(e: Endpoint, log: Log, p: Bytes, number: int, flags: nat, k: nat)
    requires Calm(e, log) && Plain(flags) && k < Count(|p|) && Faithful(log, number)
    ensures var a := Sent(p, number, flags, k);
            var r, next, counts := Handle(e, a), LogArrival(e.conn, log, a), Wanted(log, number, flags);
            && Calm(r, next) && next.accepted == log.accepted + (if counts then [number] else [])
            && (FillsUp(e, a) ==> counts && |p| > MAX_PAYLOAD)
            && if FillsUp(e, a) then |r.delivered| == |e.delivered| + 1
               else r.delivered == e.delivered + if counts && |p| <= MAX_PAYLOAD then [p] else []
  {
    hide Place, Datagrams, Distance, Shifted, Aged, Sent, Admit, LogArrival, Handle, Receive, Has, With, HeaderOf, Tracks,
      SlotsTrack, AllInStep, OnlyPieces, WithPiece, Taken, Faithful, NewestAfter;
    var a := Sent(p, number, flags, k);
    SentShape(p, number, flags, k);
    PlainWanted(log, number, flags, a.header.flags);
    NowAccepted(e.conn, log, a);
    ArrivalTracks(e.conn, log, a);
    PollTracks(e, a, LogArrival(e.conn, log, a));
    if Admit(e.conn, a.header).Ignored? {
      NotAdmitted(e, a);
    } else if |p| > MAX_PAYLOAD {
      HandlePiece(e, log, a);
    } else {
      AdmissionKeepsPieces(e.conn, a.header);
      HandleWhole(e, a);
    }
  }

  lemma PlainWanted(log: Log, number: int, flags: nat, sent: nat)
    requires Plain(flags) && !Has(sent, RETRANSMISSION)
    ensures Wanted(log, number, sent) <==> Wanted(log, number, flags)
  {
  }

  // ---------------------------------------------------------------- a run over many packets

  /** Datagram k of the j-th packet. */
  datatype Piece = Piece(j: nat, k: nat)

  predicate Among(packets: seq<Bytes>, pieces: seq<Piece>)
  {
    forall i :: 0 <= i < |pieces| ==> pieces[i].j < |packets| && pieces[i].k < Count(|packets[pieces[i].j]|)
  }

  /** What reaches the other side, when packet j carries the number base + j. */
  function Arrivals(packets: seq<Bytes>, base: int, flags: nat, pieces: seq<Piece>): (r: seq<Arrival>)
    requires flags < 256 && Among(packets, pieces)
    ensures |r| == |pieces| && AllValid(r)
  {
    if pieces == [] then []
    else
      var last := pieces[|pieces| - 1];
      Arrivals(packets, base, flags, pieces[..|pieces| - 1]) + [Sent(packets[last.j], base + last.j, flags, last.k)]
  }

  /** The packets of one datagram among the numbers accepted, in the order of acceptance. */
  function Wholes(packets: seq<Bytes>, base: int, accepted: seq<int>): seq<Bytes>
  {
    if accepted == [] then []
    else
      var before, n := Wholes(packets, base, accepted[..|accepted| - 1]), accepted[|accepted| - 1] - base;
      if 0 <= n < |packets| && |packets[n]| <= MAX_PAYLOAD then before + [packets[n]] else before
  }

  /** How often a piece fills the last gap. */
  ghost function Fills(e: Endpoint, arrivals: seq<Arrival>): nat
    requires e.conn.Valid() && AllValid(arrivals)
  {
    if arrivals == [] then 0
    else
      var before := arrivals[..|arrivals| - 1];
      Fills(e, before) + if FillsUp(HandleAll(e, before), arrivals[|arrivals| - 1]) then 1 else 0
  }

  lemma LastOfRun(packets: seq<Bytes>, base: int, flags: nat, pieces: seq<Piece>)
    requires flags < 256 && Among(packets, pieces) && pieces != []
    ensures var before, last := pieces[..|pieces| - 1], pieces[|pieces| - 1];
            && Among(packets, before) && last.j < |packets| && last.k < Count(|packets[last.j]|)
            && Arrivals(packets, base, flags, pieces) ==
               Arrivals(packets, base, flags, before) + [Sent(packets[last.j], base + last.j, flags, last.k)]
  {
    hide Sent, Count;
  }

  lemma OneMoreFill(e: Endpoint, arrivals: seq<Arrival>, a: Arrival)
    requires e.conn.Valid() && AllValid(arrivals) && a.Valid()
    ensures AllValid(arrivals + [a])
    ensures Fills(e, arrivals + [a]) == Fills(e, arrivals) + if FillsUp(HandleAll(e, arrivals), a) then 1 else 0
  {
    hide FillsUp, HandleAll;
    assert (arrivals + [a])[..|arrivals|] == arrivals;
  }

  lemma FaithfulSoFar(e: Endpoint, log: Log, arrivals: seq<Arrival>, a: Arrival)
    requires e.conn.Valid() && |log.stored| == WINDOW && AllValid(arrivals) && a.Valid()
    requires AllValid(arrivals + [a]) && FaithfulRun(e, log, arrivals + [a])
    ensures FaithfulRun(e, log, arrivals) && Faithful(LogAll(e, log, arrivals), a.number)
  {
    hide LogAll, Faithful;
    assert (arrivals + [a])[..|arrivals|] == arrivals;
  }

  lemma WholesMore(packets: seq<Bytes>, base: int, accepted: seq<int>, j: nat)
    requires j < |packets|
    ensures Wholes(packets, base, accepted + [base + j]) ==
            Wholes(packets, base, accepted) + if |packets[j]| <= MAX_PAYLOAD then [packets[j]] else []
  {
    assert (accepted + [base + j])[..|accepted|] == accepted;
    assert Wholes(packets, base, accepted) + [] == Wholes(packets, base, accepted);
  }

  /** The state after a run, from any calm one. */
  lemma {:induction false} RunDelivers(
    e: Endpoint, log: Log, packets: seq<Bytes>, base: int, flags: nat, pieces: seq<Piece>)
    requires Calm(e, log) && e.conn.Valid() && |log.stored| == WINDOW && Plain(flags) && flags < 256
    requires Among(packets, pieces) && FaithfulRun(e, log, Arrivals(packets, base, flags, pieces))
    ensures var arrivals := Arrivals(packets, base, flags, pieces);
            var r, next := HandleAll(e, arrivals), LogAll(e, log, arrivals);
            && Calm(r, next) && log.accepted <= next.accepted
            && |r.delivered| == |e.delivered| + |Wholes(packets, base, next.accepted[|log.accepted|..])| + Fills(e, arrivals)
            && (Fills(e, arrivals) == 0 ==>
                  r.delivered == e.delivered + Wholes(packets, base, next.accepted[|log.accepted|..]))
    decreases |pieces|
  {
    hide Calm, Plain, Sent, HandleAll, LogAll, Handle, LogArrival, Fills, FillsUp, FaithfulRun, Faithful, Wanted, Wholes,
      Arrivals, Among, Count, Receiver.Valid;
    if pieces == [] {
      EmptyRun(e, log, packets, base, flags, pieces);
    } else {
      var before, last := pieces[..|pieces| - 1], pieces[|pieces| - 1];
      LastOfRun(packets, base, flags, pieces);
      var earlier, a := Arrivals(packets, base, flags, before), Sent(packets[last.j], base + last.j, flags, last.k);
      FaithfulSoFar(e, log, earlier, a);
      SentNumber(packets[last.j], base + last.j, flags, last.k);
      RunDelivers(e, log, packets, base, flags, before);
      OneMore(e, log, earlier, a);
      OneMoreFill(e, earlier, a);
      DatagramArrives(HandleAll(e, earlier), LogAll(e, log, earlier), packets[last.j], base + last.j, flags, last.k);
      NextAccepted(log.accepted, LogAll(e, log, earlier).accepted, packets, base, last.j,
                   Wanted(LogAll(e, log, earlier), base + last.j, flags));
    }
  }

  lemma SentNumber(p: Bytes, number: int, flags: nat, k: nat)
    requires flags < 256 && k < Count(|p|)
    ensures Sent(p, number, flags, k).number == number
  {
  }

  lemma EmptyRun(e: Endpoint, log: Log, packets: seq<Bytes>, base: int, flags: nat, pieces: seq<Piece>)
    requires e.conn.Valid() && |log.stored| == WINDOW && flags < 256 && pieces == []
    ensures Arrivals(packets, base, flags, pieces) == []
    ensures HandleAll(e, []) == e && LogAll(e, log, []) == log && Fills(e, []) == 0
    ensures Wholes(packets, base, log.accepted[|log.accepted|..]) == []
    ensures e.delivered + [] == e.delivered
  {
  }

  lemma NextAccepted(first: seq<int>, accepted: seq<int>, packets: seq<Bytes>, base: int, j: nat, more: bool)
    requires first <= accepted && j < |packets|
    ensures var next := accepted + if more then [base + j] else [];
            first <= next &&
            Wholes(packets, base, next[|first|..]) ==
              Wholes(packets, base, accepted[|first|..]) + if more && |packets[j]| <= MAX_PAYLOAD then [packets[j]] else []
  {
    hide Wholes;
    var s := accepted[|first|..];
    WholesMore(packets, base, s, j);
    if more {
      assert (accepted + [base + j])[|first|..] == s + [base + j];
    } else {
      assert accepted + [] == accepted;
      assert Wholes(packets, base, s) + [] == Wholes(packets, base, s);
    }
  }

  /** Over any run of arrivals of what is sent for many packets, split or not, in any order and with
      any repeats: exactly the packets of one datagram are handed over, each once, in the order in
      which they are first seen, if and only if no piece ever fills the last gap in a row of 32. */
  lemma DeliveredIffWhole(e: Endpoint, log: Log, packets: seq<Bytes>, base: int, flags: nat, pieces: seq<Piece>)
    requires Calm(e, log) && Plain(flags) && flags < 256
    requires Among(packets, pieces) && FaithfulRun(e, log, Arrivals(packets, base, flags, pieces))
    ensures var arrivals := Arrivals(packets, base, flags, pieces);
            var r, next := HandleAll(e, arrivals), LogAll(e, log, arrivals);
            log.accepted <= next.accepted &&
            (r.delivered == e.delivered + Wholes(packets, base, next.accepted[|log.accepted|..]) <==> Fills(e, arrivals) == 0)
  {
    hide HandleAll, LogAll, Fills, FaithfulRun, Wholes, Arrivals, Among, Plain, Tracks, SlotsTrack, OnlyPieces;
    RunDelivers(e, log, packets, base, flags, pieces);
  }

  // ---------------------------------------------------------------- packets of fewer than 32 pieces

  /** No packet has as many pieces as there are slots. */
  predicate Short(packets: seq<Bytes>)
  {
    forall j :: 0 <= j < |packets| ==> Count(|packets[j]|) < WINDOW
  }

  predicate LastUnused(c: Receiver)
    requires c.Valid()
  {
    c.slots[WINDOW - 1].age == -1
  }

  /** Then the last slot is never used, and no row ever filled. */
  lemma {:induction false} ShortNeverFills(e: Endpoint, log: Log, p: Bytes, number: int, flags: nat, k: nat)
    requires Calm(e, log) && LastUnused(e.conn) && Plain(flags) && k < Count(|p|) < WINDOW
    ensures var a := Sent(p, number, flags, k); !FillsUp(e, a) && LastUnused(Handle(e, a).conn)
  {
    hide Tracks, SlotsTrack, OnlyPieces, Datagrams, HeaderOf, Has, With, Sent;
    var a := Sent(p, number, flags, k);
    SentShape(p, number, flags, k);
    LastStaysUnused(e.conn, a.header, a.payload);
  }

  lemma LastStaysUnused(c: Receiver, h: Header, payload: Bytes)
    requires c.Valid() && h.Valid() && h.fragIndex < WINDOW - 1 && LastUnused(c)
    ensures LastUnused(Receive(c, h, payload).conn)
    ensures Admit(c, h).Admitted? ==>
              LastUnused(Admit(c, h).conn) && !AllInStep(WithPiece(Admit(c, h).conn, h, payload, Admit(c, h).age))
  {
    hide Complete, FlushEnd, Joined, Shifted, Distance, NoHistory;
    if Admit(c, h).Admitted? {
      assert Admit(c, h).conn.slots[WINDOW - 1].age == -1;
      assert !InStep(WithPiece(Admit(c, h).conn, h, payload, Admit(c, h).age), WINDOW - 1);
    }
  }

  lemma {:induction false} ShortRunNeverFills(
    e: Endpoint, log: Log, packets: seq<Bytes>, base: int, flags: nat, pieces: seq<Piece>)
    requires Calm(e, log) && e.conn.Valid() && |log.stored| == WINDOW && LastUnused(e.conn) && Plain(flags) && flags < 256
    requires Among(packets, pieces) && Short(packets) && FaithfulRun(e, log, Arrivals(packets, base, flags, pieces))
    ensures var arrivals := Arrivals(packets, base, flags, pieces);
            Fills(e, arrivals) == 0 && LastUnused(HandleAll(e, arrivals).conn)
    decreases |pieces|
  {
    hide Calm, Plain, Sent, HandleAll, LogAll, Handle, LogArrival, Fills, FillsUp, FaithfulRun, Faithful, Wanted, Wholes,
      Arrivals, Among, Count, Receiver.Valid, LastUnused;
    if pieces == [] {
      EmptyRun(e, log, packets, base, flags, pieces);
    } else {
      var before, last := pieces[..|pieces| - 1], pieces[|pieces| - 1];
      LastOfRun(packets, base, flags, pieces);
      var earlier, a := Arrivals(packets, base, flags, before), Sent(packets[last.j], base + last.j, flags, last.k);
      FaithfulSoFar(e, log, earlier, a);
      ShortRunNeverFills(e, log, packets, base, flags, before);
      RunDelivers(e, log, packets, base, flags, before);
      OneMore(e, log, earlier, a);
      OneMoreFill(e, earlier, a);
      ShortNeverFills(HandleAll(e, earlier), LogAll(e, log, earlier), packets[last.j], base + last.j, flags, last.k);
    }
  }

  /** So for packets of fewer than 32 pieces, from a fresh connection on, a packet is delivered if and
      only if it fits one datagram and a copy of it is accepted. */
  lemma ShortDelivered(seed: nat, packets: seq<Bytes>, base: int, flags: nat, pieces: seq<Piece>)
    requires seed < SEQ_SPACE && Plain(flags) && flags < 256 && Among(packets, pieces) && Short(packets)
    requires FaithfulRun(Endpoint(Fresh(seed), []), NewLog(), Arrivals(packets, base, flags, pieces))
    ensures var e, arrivals := Endpoint(Fresh(seed), []), Arrivals(packets, base, flags, pieces);
            HandleAll(e, arrivals).delivered == Wholes(packets, base, LogAll(e, NewLog(), arrivals).accepted)
  {
    hide HandleAll, LogAll, Fills, FaithfulRun, Wholes, Arrivals, Among, Plain, Short;
    var e, arrivals := Endpoint(Fresh(seed), []), Arrivals(packets, base, flags, pieces);
    FreshTracks(seed);
    ShortRunNeverFills(e, NewLog(), packets, base, flags, pieces);
    RunDelivers(e, NewLog(), packets, base, flags, pieces);
    var accepted := LogAll(e, NewLog(), arrivals).accepted;
    assert accepted[0..] == accepted;
    assert [] + Wholes(packets, base, accepted) == Wholes(packets, base, accepted);
  }
}
