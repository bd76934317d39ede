/** Putting a split packet back together (src/nrg_connection.cpp:111-151): fragments numbered
    consecutively come together in any arrival order, with any repeats; fragments that share
    one number never do. */
module Reassembly {
  import opened Packets
  import opened PacketHeaders
  import opened Connections
  import opened ConnectionRuns

  /** The flags a whole packet may carry: none that bear on fragments or admission. */
  predicate Plain(flags: nat)
  {
    flags < 256 && !Has(flags, CONTINUED) && !Has(flags, FINISHED) && !Has(flags, RETRANSMISSION)
  }

  lemma ContinuedOnly(flags: nat)
    requires Plain(flags)
    ensures var f := With(flags, CONTINUED);
            f < 256 && Has(f, CONTINUED) && !Has(f, FINISHED) && !Has(f, RETRANSMISSION)
  {
  }

  /** Fragment i of a packet whose fragments take the numbers base, base + 1, ... */
  function Fragment(base: int, payloads: seq<Bytes>, flags: nat, i: nat): (a: Arrival)
    requires 2 <= |payloads| <= WINDOW && i < |payloads| && Plain(flags)
    ensures a.Valid() && IsFragment(a.header)
  {
    ContinuedOnly(flags);
    var f := if i < |payloads| - 1 then With(flags, CONTINUED) else flags;
    Arrival(base + i, Header((base + i) % SEQ_SPACE, f, 0, i), payloads[i])
  }

  function Fragments(base: int, payloads: seq<Bytes>, flags: nat, order: seq<nat>): (r: seq<Arrival>)
    requires 2 <= |payloads| <= WINDOW && Plain(flags)
    requires forall k :: 0 <= k < |order| ==> order[k] < |payloads|
    ensures |r| == |order| && AllValid(r)
    ensures forall k :: 0 <= k < |r| ==> r[k] == Fragment(base, payloads, flags, order[k])
  {
    if order == [] then []
    else Fragments(base, payloads, flags, order[..|order| - 1]) + [Fragment(base, payloads, flags, order[|order| - 1])]
  }

  function Concat(payloads: seq<Bytes>): Bytes
  {
    if payloads == [] then [] else Concat(payloads[..|payloads| - 1]) + payloads[|payloads| - 1]
  }

  // ---------------------------------------------------------------- the slots meanwhile

  /** Slot i while the fragments in `got` are here and the newest number is `newest`. */
  function SlotFor(base: int, payloads: seq<Bytes>, newest: int, i: nat): Slot
    requires i < |payloads|
  {
    Slot(payloads[i], newest - (base + i), i < |payloads| - 1)
  }

  ghost predicate Holding(slots: seq<Slot>, base: int, payloads: seq<Bytes>, newest: int, got: set<nat>)
  {
    |slots| == WINDOW && |payloads| <= WINDOW && (forall i :: i in got ==> i < |payloads|) &&
    forall i: nat :: i < WINDOW ==>
      if i in got then slots[i] == SlotFor(base, payloads, newest, i) else slots[i].age == -1 && slots[i].data == []
  }

  function AllOf(m: nat): (s: set<nat>)
    ensures forall i: nat :: i in s <==> i < m
  {
    if m == 0 then {} else AllOf(m - 1) + {m - 1}
  }

  lemma HasAll(got: set<nat>, m: nat)
    requires (forall k: nat :: k in got ==> k < m) && forall k: nat :: k < m ==> k in got
    ensures got == AllOf(m)
  {
  }

  /** While one fragment is missing the check fails at it. */
  lemma MissingOne(slots: seq<Slot>, base: int, payloads: seq<Bytes>, newest: int, got: set<nat>)
    requires Holding(slots, base, payloads, newest, got) && 2 <= |payloads| && got != AllOf(|payloads|)
    ensures !Complete(slots)
  {
    var j := FirstMissing(got, |payloads|);
    ReachesMissing(slots, j, 0);
    assert slots[j].age == -1;
    assert !InStep(slots, j);
  }

  lemma FirstMissing(got: set<nat>, m: nat) returns (j: nat)
    requires got != AllOf(m) && forall k: nat :: k in got ==> k < m
    ensures j < m && j !in got && forall k: nat :: k < j ==> k in got
  {
    j := 0;
    while j in got
      invariant j <= m && forall k: nat :: k < j ==> k in got
      decreases m - j
    {
      j := j + 1;
    }
    assert j == m ==> got == AllOf(m) by {
      if j == m {
        HasAll(got, m);
      }
    }
  }

  lemma {:induction false} ReachesMissing(slots: seq<Slot>, j: nat, i: nat)
    requires i <= j < |slots| && forall k :: i <= k < j ==> slots[k].continued
    ensures RunEnd(slots, i) > j
    decreases j - i
  {
    if i < j {
      ReachesMissing(slots, j, i + 1);
    }
  }

  /** All fragments are here, and the slots behind them are unused or hold something older. */
  ghost predicate Whole(slots: seq<Slot>, base: int, payloads: seq<Bytes>, newest: int)
  {
    && |slots| == WINDOW && |payloads| <= WINDOW
    && (forall i: nat :: i < |payloads| ==> slots[i] == SlotFor(base, payloads, newest, i))
    && forall k: nat :: |payloads| <= k < WINDOW ==>
         (slots[k].age == -1 && slots[k].data == []) || slots[k].age > newest - base
  }

  lemma HoldingWhole(slots: seq<Slot>, base: int, payloads: seq<Bytes>, newest: int)
    requires Holding(slots, base, payloads, newest, AllOf(|payloads|))
    ensures Whole(slots, base, payloads, newest)
  {
  }

  /** With all fragments here the packet is whole, and the flush takes them (and at most one
      empty slot more). */
  lemma AllHere(slots: seq<Slot>, base: int, payloads: seq<Bytes>, newest: int)
    requires Whole(slots, base, payloads, newest) && 2 <= |payloads| && newest - base >= |payloads| - 1
    ensures Complete(slots)
    ensures |payloads| <= FlushEnd(slots, 0, slots[0].age) <= |payloads| + 1
    ensures Joined(slots[..FlushEnd(slots, 0, slots[0].age)]) == Concat(payloads)
  {
    hide Joined, Concat, RunEnd, FlushEnd, Whole;
    var m := |payloads|;
    HeldSlots(slots, base, payloads, newest);
    LastEnds(slots, m, 0);
    forall i | 0 <= i < m
      ensures InStep(slots, i)
    {
      assert slots[i] == SlotFor(base, payloads, newest, i);
      assert i > 0 ==> slots[i - 1] == SlotFor(base, payloads, newest, i - 1);
    }
    assert slots[0] == SlotFor(base, payloads, newest, 0);
    FlushReaches(slots, m, 0, newest - base);
    JoinedConcat(slots, base, payloads, newest, m);
    var n := FlushEnd(slots, 0, slots[0].age);
    if n > m {
      FlushPast(slots, base, payloads, newest, m);
      FlushPast(slots, base, payloads, newest, n - 1);
      JoinedTurn(slots, m);
    }
  }

  lemma HeldSlots(slots: seq<Slot>, base: int, payloads: seq<Bytes>, newest: int)
    requires Whole(slots, base, payloads, newest)
    ensures |payloads| <= WINDOW == |slots|
    ensures forall i: nat :: i < |payloads| ==> slots[i] == SlotFor(base, payloads, newest, i)
  {
  }

  /** The flush goes past the packet only over the one slot where -1 is the next age. */
  lemma FlushPast(slots: seq<Slot>, base: int, payloads: seq<Bytes>, newest: int, k: nat)
    requires Whole(slots, base, payloads, newest) && 2 <= |payloads|
    requires |payloads| <= k < FlushEnd(slots, 0, newest - base)
    ensures k == newest - base + 1 && slots[k].data == []
  {
    assert slots[k].age == newest - base - k;
  }

  lemma {:induction false} LastEnds(slots: seq<Slot>, m: nat, i: nat)
    requires i < m <= |slots| && (forall k :: i <= k < m - 1 ==> slots[k].continued) && !slots[m - 1].continued
    ensures RunEnd(slots, i) == m
    decreases m - i
  {
    if i < m - 1 {
      LastEnds(slots, m, i + 1);
    }
  }

  lemma {:induction false} FlushReaches(slots: seq<Slot>, m: nat, i: nat, age: int)
    requires i <= m <= |slots| && forall k :: i <= k < m ==> slots[k].age == age - (k - i)
    ensures FlushEnd(slots, i, age) >= m
    decreases m - i
  {
    if i < m {
      FlushReaches(slots, m, i + 1, age - 1);
    }
  }

  lemma {:induction false} JoinedConcat(slots: seq<Slot>, base: int, payloads: seq<Bytes>, newest: int, n: nat)
    requires Whole(slots, base, payloads, newest) && n <= |payloads|
    ensures Joined(slots[..n]) == Concat(payloads[..n])
    ensures n == |payloads| ==> payloads[..n] == payloads
  {
    if n > 0 {
      JoinedConcat(slots, base, payloads, newest, n - 1);
      JoinedTurn(slots, n - 1);
      assert payloads[..n][..n - 1] == payloads[..n - 1];
      assert slots[n - 1] == SlotFor(base, payloads, newest, n - 1);
    }
  }

  // ---------------------------------------------------------------- one fragment's arrival

  /** Between arrivals: the fragments in `got` are held or, once all were seen, handed over. */
  ghost predicate Assembling(e: Endpoint, log: Log, base: int, payloads: seq<Bytes>, got: set<nat>)
  {
    Tracks(e.conn, log) && !e.conn.newPacket && |payloads| <= WINDOW &&
    (log.accepted != [] ==> log.newest < base + WINDOW) &&
    (got != {} ==> log.accepted != [] && base <= log.newest) &&
    (forall i: nat :: i < |payloads| ==> (base + i in log.accepted <==> i in got)) &&
    (forall i :: i in got ==> i < |payloads|) &&
    Holding(e.conn.slots, base, payloads, log.newest, if got == AllOf(|payloads|) then {} else got)
  }

  /** The fragment is close enough to what the connection has seen. */
  predicate InReach(log: Log, n: int)
  {
    log.accepted != [] ==> n < log.newest + WINDOW
  }

  lemma RepeatIgnored(e: Endpoint, log: Log, base: int, payloads: seq<Bytes>, flags: nat, got: set<nat>, i: nat)
    requires 2 <= |payloads| && i < |payloads| && Plain(flags) && i in got
    requires Assembling(e, log, base, payloads, got)
    ensures Handle(e, Fragment(base, payloads, flags, i)) == e
    ensures LogArrival(e.conn, log, Fragment(base, payloads, flags, i)) == log
  {
    hide LogArrival, Admit, Holding;
    var a := Fragment(base, payloads, flags, i);
    RepeatsDropped(e.conn, log, a);
    IgnoredLog(e.conn, log, a);
  }

  lemma IgnoredLog(c: Receiver, log: Log, a: Arrival)
    requires Tracks(c, log) && a.Valid() && a.number in log.accepted && log.newest - WINDOW < a.number
    ensures LogArrival(c, log, a) == log
  {
    AdmitsWanted(c, log, a);
  }

  lemma NotAllYet(got: set<nat>, m: nat, i: nat)
    requires i < m && i !in got
    ensures got != AllOf(m)
  {
  }

  /** Admission of a fragment not seen before: only the ages of the slots move. */
  lemma FragmentAdmitted(e: Endpoint, log: Log, base: int, payloads: seq<Bytes>, flags: nat, got: set<nat>, i: nat)
    requires 2 <= |payloads| && i < |payloads| && Plain(flags) && i !in got && InReach(log, base + i)
    requires Assembling(e, log, base, payloads, got)
    ensures var a, next := Fragment(base, payloads, flags, i), Accept(log, base + i);
            Admit(e.conn, a.header).Admitted? && Tracks(Admit(e.conn, a.header).conn, next) &&
            (forall n :: n in next.accepted ==> n <= next.newest) &&
            Admit(e.conn, a.header).age == next.newest - (base + i) &&
            base <= next.newest < base + WINDOW &&
            Holding(Admit(e.conn, a.header).conn.slots, base, payloads, next.newest, got)
  {
    hide Distance, Shifted, Aged, Holding, Has, With, NoHistory, AllOf;
    var a, next := Fragment(base, payloads, flags, i), Accept(log, base + i);
    FragmentFlags(base, payloads, flags, i);
    NotAllYet(got, |payloads|, i);
    AdmitsWanted(e.conn, log, a);
    AdmissionTracks(e.conn, log, a);
    AdmissionSlots(e.conn, log, a);
    HoldingAged(e.conn.slots, base, payloads, log, base + i, got);
  }

  lemma HoldingAged(slots: seq<Slot>, base: int, payloads: seq<Bytes>, log: Log, n: int, got: set<nat>)
    requires Holding(slots, base, payloads, log.newest, got)
    requires log.accepted == [] ==> got == {}
    requires forall i :: i in got ==> base + i <= log.newest
    requires NewestAfter(log, n) < base + WINDOW
    ensures var d := NewestAfter(log, n) - log.newest;
            Holding(if log.accepted != [] && d > 0 then Aged(slots, d) else slots, base, payloads, NewestAfter(log, n), got)
  {
  }

  /** What Place makes of it, when the packet stays incomplete and when it becomes whole. */
  lemma FragmentPlaced(c: Receiver, base: int, payloads: seq<Bytes>, flags: nat, newest: int, got: set<nat>, i: nat)
    requires 2 <= |payloads| <= WINDOW && i < |payloads| && Plain(flags) && i !in got && c.Valid() && c.newPacket
    requires Holding(c.slots, base, payloads, newest, got) && base + i <= newest < base + i + WINDOW
    requires got + {i} == AllOf(|payloads|) ==> newest - base >= |payloads| - 1
    ensures var a := Fragment(base, payloads, flags, i);
            var r := Place(c, a.header, a.payload, newest - (base + i));
            if got + {i} == AllOf(|payloads|)
            then r.newPacket && r.latest == Concat(payloads) && Holding(r.slots, base, payloads, newest, {})
            else !r.newPacket && Holding(r.slots, base, payloads, newest, got + {i})
  {
    hide Complete, Concat, Joined, RunEnd, FlushEnd, Cleared, Holding, AllOf, Has, With;
    var a := Fragment(base, payloads, flags, i);
    FragmentFlags(base, payloads, flags, i);
    UnusedSlot(c.slots, base, payloads, newest, got, i);
    var slots := c.slots[i := Slot([] + a.payload, newest - (base + i), Has(a.header.flags, CONTINUED))];
    assert [] + a.payload == a.payload;
    HoldingWith(c.slots, base, payloads, newest, got, i);
    if got + {i} == AllOf(|payloads|) {
      HoldingWhole(slots, base, payloads, newest);
      AllHere(slots, base, payloads, newest);
      HoldingNone(slots, base, payloads, newest, FlushEnd(slots, 0, slots[0].age));
    } else {
      MissingOne(slots, base, payloads, newest, got + {i});
    }
  }

  lemma UnusedSlot(slots: seq<Slot>, base: int, payloads: seq<Bytes>, newest: int, got: set<nat>, i: nat)
    requires Holding(slots, base, payloads, newest, got) && i < |payloads| && i !in got
    ensures slots[i].age == -1 && slots[i].data == []
  {
  }

  lemma HoldingWith(slots: seq<Slot>, base: int, payloads: seq<Bytes>, newest: int, got: set<nat>, i: nat)
    requires Holding(slots, base, payloads, newest, got) && i < |payloads|
    ensures Holding(slots[i := SlotFor(base, payloads, newest, i)], base, payloads, newest, got + {i})
  {
  }

  lemma HoldingNone(slots: seq<Slot>, base: int, payloads: seq<Bytes>, newest: int, n: nat)
    requires Holding(slots, base, payloads, newest, AllOf(|payloads|)) && |payloads| <= n <= |slots|
    ensures Holding(Cleared(slots, n), base, payloads, newest, {})
  {
    hide Cleared;
  }

  /** A fragment that is admitted goes through Place and nothing else. */
  lemma HandleFragment(e: Endpoint, log: Log, a: Arrival)
    requires e.conn.Valid() && a.Valid() && |log.stored| == WINDOW && Admit(e.conn, a.header).Admitted?
    requires IsFragment(a.header) && !Has(a.header.flags, FINISHED) && a.header.version == 0
    ensures var r, c := Admit(e.conn, a.header), Admit(e.conn, a.header).conn.(newPacket := true);
            var p := Place(c, a.header, a.payload, r.age);
            Handle(e, a).delivered == e.delivered + (if p.newPacket then [p.latest] else []) &&
            Handle(e, a).conn == p.(newPacket := false, latestFlags := FlagsFor(c.seqNum, a.header))
    ensures var next := LogArrival(e.conn, log, a);
            next == Accept(log, a.number).(stored := next.stored)
  {
    hide Admit, Place;
  }

  lemma SameTracks(c: Receiver, d: Receiver, log: Log, next: Log)
    requires Tracks(c, log) && d.Valid() && d.seqNum == c.seqNum && d.history == c.history
    requires |next.stored| == WINDOW && next == log.(stored := next.stored)
    ensures Tracks(d, next)
  {
  }

  lemma FragmentArrives(e: Endpoint, log: Log, base: int, payloads: seq<Bytes>, flags: nat, got: set<nat>, i: nat)
    requires e.conn.Valid() && |log.stored| == WINDOW
    requires 2 <= |payloads| <= WINDOW && i < |payloads| && Plain(flags) && i !in got && InReach(log, base + i)
    requires Assembling(e, log, base, payloads, got)
    ensures var a := Fragment(base, payloads, flags, i);
            var r := Handle(e, a);
            Assembling(r, LogArrival(e.conn, log, a), base, payloads, got + {i}) &&
            r.delivered == e.delivered + if got + {i} == AllOf(|payloads|) then [Concat(payloads)] else []
  {
    hide Admit, Place, Holding, Concat, Handle, LogArrival, AllOf, FlagsFor, Has, With, Tracks, Assembling, Plain, InReach,
      NewestAfter;
    var a, next := Fragment(base, payloads, flags, i), Accept(log, base + i);
    FragmentFlags(base, payloads, flags, i);
    NumbersSeen(e, log, base, payloads, got, i);
    FragmentAdmitted(e, log, base, payloads, flags, got, i);
    var c := Admit(e.conn, a.header).conn.(newPacket := true);
    AllSeen(next, base, |payloads|, got + {i});
    FragmentPlaced(c, base, payloads, flags, next.newest, got, i);
    HandleFragment(e, log, a);
    SameTracks(Admit(e.conn, a.header).conn, Handle(e, a).conn, next, LogArrival(e.conn, log, a));
    Assembled(Handle(e, a), LogArrival(e.conn, log, a), base, payloads, got + {i});
  }

  lemma Assembled(e: Endpoint, log: Log, base: int, payloads: seq<Bytes>, got: set<nat>)
    requires Tracks(e.conn, log) && !e.conn.newPacket && |payloads| <= WINDOW && log.accepted != []
    requires base <= log.newest < base + WINDOW && forall i :: i in got ==> i < |payloads|
    requires forall i: nat :: i < |payloads| ==> (base + i in log.accepted <==> i in got)
    requires Holding(e.conn.slots, base, payloads, log.newest, if got == AllOf(|payloads|) then {} else got)
    ensures Assembling(e, log, base, payloads, got)
  {
    hide Tracks, Holding, AllOf;
  }

  lemma FragmentFlags(base: int, payloads: seq<Bytes>, flags: nat, i: nat)
    requires 2 <= |payloads| <= WINDOW && i < |payloads| && Plain(flags)
    ensures var h := Fragment(base, payloads, flags, i).header;
            !Has(h.flags, FINISHED) && !Has(h.flags, RETRANSMISSION) && h.version == 0 && h.fragIndex == i
    ensures Has(Fragment(base, payloads, flags, i).header.flags, CONTINUED) == (i < |payloads| - 1)
    ensures Fragment(base, payloads, flags, i).number == base + i
  {
    ContinuedOnly(flags);
  }

  lemma TracksSizes(c: Receiver, log: Log)
    requires Tracks(c, log)
    ensures c.Valid() && |log.stored| == WINDOW
  {
  }

  lemma NumbersSeen(e: Endpoint, log: Log, base: int, payloads: seq<Bytes>, got: set<nat>, i: nat)
    requires Assembling(e, log, base, payloads, got) && i < |payloads|
    ensures var next := Accept(log, base + i);
            next.accepted != [] && |payloads| <= WINDOW && forall k :: k in got + {i} ==> k < |payloads|
    ensures forall k: nat :: k < |payloads| ==> (base + k in Accept(log, base + i).accepted <==> k in got + {i})
    ensures e.conn.Valid() && |log.stored| == WINDOW && i !in got ==> got != AllOf(|payloads|)
  {
    hide Holding, Tracks;
    TracksSizes(e.conn, log);
    assert (log.accepted + [base + i])[|log.accepted|] == base + i;
  }

  /** All numbers accepted puts the newest at least at the last fragment's. */
  lemma AllSeen(log: Log, base: int, m: nat, got: set<nat>)
    requires m > 0 && forall n :: n in log.accepted ==> n <= log.newest
    requires forall i: nat :: i < m && i in got ==> base + i in log.accepted
    ensures got == AllOf(m) ==> log.newest - base >= m - 1
  {
    if got == AllOf(m) {
      assert m - 1 in got;
    }
  }

  // ---------------------------------------------------------------- any order, any repeats

  function Seen(order: seq<nat>): (s: set<nat>)
    ensures forall i :: i in s <==> i in order
  {
    if order == [] then {} else Seen(order[..|order| - 1]) + {order[|order| - 1]}
  }

  /** The same from any point of the assembly on: `got` has been seen already. */
  lemma {:induction false} AnyOrderFrom(
    e: Endpoint, log: Log, base: int, payloads: seq<Bytes>, flags: nat, got: set<nat>, order: seq<nat>)
    requires e.conn.Valid() && |log.stored| == WINDOW && 2 <= |payloads| <= WINDOW && Plain(flags)
    requires forall k :: 0 <= k < |order| ==> order[k] < |payloads|
    requires Assembling(e, log, base, payloads, got)
    requires got == {} && order != [] ==> InReach(log, base + order[0])
    ensures var arrivals := Fragments(base, payloads, flags, order);
            var whole := got != AllOf(|payloads|) && got + Seen(order) == AllOf(|payloads|);
            Assembling(HandleAll(e, arrivals), LogAll(e, log, arrivals), base, payloads, got + Seen(order)) &&
            HandleAll(e, arrivals).delivered == e.delivered + if whole then [Concat(payloads)] else []
    decreases |order|
  {
    hide Assembling, Concat, Handle, LogArrival, AllOf, InReach, Plain, Fragment, HandleAll, LogAll,
      Seen, Fragments, Receiver.Valid;
    if order == [] {
      assert Seen(order) == {} && got + {} == got;
      NothingHandled(e, log, Fragments(base, payloads, flags, order));
    } else {
      var before, i := order[..|order| - 1], order[|order| - 1];
      AnyOrderFrom(e, log, base, payloads, flags, got, before);
      var earlier := Fragments(base, payloads, flags, before);
      OneMore(e, log, earlier, Fragment(base, payloads, flags, i));
      LastArrival(base, payloads, flags, order);
      if before == [] {
        NothingHandled(e, log, earlier);
      } else {
        assert before[0] in got + Seen(before) && before[0] == order[0];
      }
      NextFragment(HandleAll(e, earlier), LogAll(e, log, earlier), base, payloads, flags, got + Seen(before), i);
      assert got + Seen(order) == got + Seen(before) + {i};
      StaysWhole(got, Seen(before), i, |payloads|, base, payloads, HandleAll(e, earlier), LogAll(e, log, earlier));
    }
  }

  /** Once everything has been seen, more fragments add nothing. */
  lemma StaysWhole(got: set<nat>, seen: set<nat>, i: nat, m: nat, base: int, payloads: seq<Bytes>, e: Endpoint, log: Log)
    requires Assembling(e, log, base, payloads, got + seen) && m == |payloads| && i < m
    ensures got + seen == AllOf(m) ==> got + seen + {i} == AllOf(m)
    ensures got == AllOf(m) ==> got + seen == AllOf(m)
  {
    hide Holding, Tracks;
    if got == AllOf(m) {
      HasAll(got + seen, m);
    }
    if got + seen == AllOf(m) {
      HasAll(got + seen + {i}, m);
    }
  }

  /** Whatever the order and however often fragments repeat, nothing is delivered until the last
      missing one arrives, and then exactly once: the payloads in fragment order. */
  lemma AnyOrder(e: Endpoint, log: Log, base: int, payloads: seq<Bytes>, flags: nat, order: seq<nat>)
    requires e.conn.Valid() && |log.stored| == WINDOW && 2 <= |payloads| <= WINDOW && Plain(flags)
    requires forall k :: 0 <= k < |order| ==> order[k] < |payloads|
    requires Assembling(e, log, base, payloads, {})
    requires order != [] ==> InReach(log, base + order[0])
    ensures var arrivals := Fragments(base, payloads, flags, order);
            Assembling(HandleAll(e, arrivals), LogAll(e, log, arrivals), base, payloads, Seen(order)) &&
            HandleAll(e, arrivals).delivered ==
              e.delivered + if Seen(order) == AllOf(|payloads|) then [Concat(payloads)] else []
  {
    hide Assembling, Concat, AllOf, InReach, Plain, HandleAll, LogAll, Seen, Fragments, Receiver.Valid;
    SomeExpected(|payloads|);
    AnyOrderFrom(e, log, base, payloads, flags, {}, order);
    assert {} + Seen(order) == Seen(order);
  }

  lemma LastArrival(base: int, payloads: seq<Bytes>, flags: nat, order: seq<nat>)
    requires 2 <= |payloads| <= WINDOW && Plain(flags) && order != []
    requires forall k :: 0 <= k < |order| ==> order[k] < |payloads|
    ensures var before, i := order[..|order| - 1], order[|order| - 1];
            Seen(order) == Seen(before) + {i} && Seen([]) == {} &&
            Fragments(base, payloads, flags, order) ==
              Fragments(base, payloads, flags, before) + [Fragment(base, payloads, flags, i)]
  {
    hide Fragment, Plain;
  }

  lemma NothingHandled(e: Endpoint, log: Log, none: seq<Arrival>)
    requires e.conn.Valid() && |log.stored| == WINDOW && none == []
    ensures HandleAll(e, none) == e && LogAll(e, log, none) == log
  {
  }

  lemma SomeExpected(m: nat)
    requires m > 0
    ensures AllOf(m) != {}
  {
    assert 0 in AllOf(m);
  }

  /** A fragment, new or repeated, in any state the run can be in. */
  lemma NextFragment(e: Endpoint, log: Log, base: int, payloads: seq<Bytes>, flags: nat, got: set<nat>, i: nat)
    requires e.conn.Valid() && |log.stored| == WINDOW && 2 <= |payloads| <= WINDOW && i < |payloads| && Plain(flags)
    requires Assembling(e, log, base, payloads, got)
    requires got == {} ==> InReach(log, base + i)
    ensures var a := Fragment(base, payloads, flags, i);
            var r := Handle(e, a);
            Assembling(r, LogArrival(e.conn, log, a), base, payloads, got + {i}) &&
            r.delivered == e.delivered +
              if got != AllOf(|payloads|) && got + {i} == AllOf(|payloads|) then [Concat(payloads)] else []
  {
    hide Assembling, Concat, Handle, LogArrival, AllOf, InReach, Plain, Fragment;
    if i in got {
      RepeatIgnored(e, log, base, payloads, flags, got, i);
      assert got + {i} == got;
    } else {
      if got != {} {
        StillInReach(e, log, base, payloads, got, i);
      }
      NotAllYet(got, |payloads|, i);
      FragmentArrives(e, log, base, payloads, flags, got, i);
    }
  }

  lemma StillInReach(e: Endpoint, log: Log, base: int, payloads: seq<Bytes>, got: set<nat>, i: nat)
    requires Assembling(e, log, base, payloads, got) && got != {} && i < |payloads|
    ensures InReach(log, base + i)
  {
  }

  /** A fresh connection is ready for any split packet, and one that has handed a packet over is
      ready for the one numbered right behind it. */
  lemma ReadyForNext(e: Endpoint, log: Log, base: int, payloads: seq<Bytes>, next: seq<Bytes>)
    requires 2 <= |payloads| && 2 <= |next| <= WINDOW
    requires Assembling(e, log, base, payloads, AllOf(|payloads|)) && log.newest < base + |payloads|
    ensures Assembling(e, log, base + |payloads|, next, {})
  {
    assert 0 in AllOf(|next|);
  }

  /** From a fresh connection, in any order and with any repeats: the payload, once all its
      fragments have been seen, and nothing before. */
  lemma AnyOrderFromFresh(seed: nat, base: int, payloads: seq<Bytes>, flags: nat, order: seq<nat>)
    requires seed < SEQ_SPACE && 2 <= |payloads| <= WINDOW && Plain(flags)
    requires forall k :: 0 <= k < |order| ==> order[k] < |payloads|
    ensures HandleAll(Endpoint(Fresh(seed), []), Fragments(base, payloads, flags, order)).delivered ==
            if Seen(order) == AllOf(|payloads|) then [Concat(payloads)] else []
  {
    hide HandleAll, Fragments, Concat, Seen, Tracks, Plain;
    var e := Endpoint(Fresh(seed), []);
    FreshReady(seed, base, payloads);
    AnyOrder(e, NewLog(), base, payloads, flags, order);
  }

  lemma FreshReady(seed: nat, base: int, payloads: seq<Bytes>)
    requires seed < SEQ_SPACE && 2 <= |payloads| <= WINDOW
    ensures Assembling(Endpoint(Fresh(seed), []), NewLog(), base, payloads, {})
  {
    assert 0 in AllOf(|payloads|);
    FreshTracks(seed);
  }
}
