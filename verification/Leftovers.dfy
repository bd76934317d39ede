/** A fragment slot is written behind whatever it still holds (src/nrg_connection.cpp:118-125): when
    packets were never completed, the bytes they left corrupt the next one in the same slots. */
module Leftovers {
  import opened Packets
  import opened PacketHeaders
  import opened Connections
  import opened ConnectionRuns
  import opened Reassembly

  // ---------------------------------------------------------------- no reachable state is complete

  /** A row of slots that is complete after ageing was complete before. */
  lemma AgeingCompletesNothing(slots: seq<Slot>, d: nat)
    requires |slots| == WINDOW && Complete(Aged(slots, d))
    ensures Complete(slots)
  {
    hide Aged;
    SameEnd(slots, Aged(slots, d), 0);
    forall i | 0 <= i < RunEnd(slots, 0)
      ensures InStep(slots, i)
    {
      assert InStep(Aged(slots, d), i);
      assert i > 0 ==> InStep(Aged(slots, d), i - 1);
      AgedUsed(slots[i], d);
    }
  }

  lemma AgedUsed(s: Slot, d: nat)
    ensures AgedSlot(s, d).age != -1 ==> AgedSlot(s, d).age == if s.age < 0 then s.age else s.age + d
    ensures AgedSlot(s, d).continued == s.continued
  {
  }

  lemma {:induction false} SameEnd(a: seq<Slot>, b: seq<Slot>, i: nat)
    requires |a| == |b| && i <= |a| && forall k :: 0 <= k < |a| ==> a[k].continued == b[k].continued
    ensures RunEnd(a, i) == RunEnd(b, i)
    decreases |a| - i
  {
    if i < |a| && a[i].continued {
      SameEnd(a, b, i + 1);
    }
  }

  lemma UnusedFirst(slots: seq<Slot>)
    requires |slots| > 0 && slots[0].age == -1
    ensures !Complete(slots)
  {
    assert !InStep(slots, 0);
  }

  /** Between arrivals no complete packet lies in the slots. */
  lemma NeverComplete(e: Endpoint, a: Arrival)
    requires e.conn.Valid() && a.Valid() && !Complete(e.conn.slots)
    ensures !Complete(Handle(e, a).conn.slots)
  {
    hide Complete, Aged, Shifted, NoHistory, Distance, Joined, FlushEnd, Cleared;
    if a.header.version == 0 && Admit(e.conn, a.header).Admitted? {
      AdmissionIncomplete(e.conn, a.header);
      var r := Admit(e.conn, a.header);
      PlacementIncomplete(r.conn.(newPacket := true), a.header, a.payload, r.age);
    }
  }

  lemma AdmissionIncomplete(c: Receiver, h: Header)
    requires c.Valid() && h.Valid() && Admit(c, h).Admitted? && !Complete(c.slots)
    ensures !Complete(Admit(c, h).conn.slots)
  {
    hide Complete, Aged, Shifted, NoHistory;
    var d := Distance(h.seqNum, c.seqNum);
    if d > 0 && Complete(Aged(c.slots, d)) {
      AgeingCompletesNothing(c.slots, d);
    }
  }

  lemma PlacementIncomplete(c: Receiver, h: Header, payload: Bytes, age: nat)
    requires c.Valid() && h.Valid() && h.fragIndex < WINDOW && !Complete(c.slots)
    ensures !Complete(Place(c, h, payload, age).slots)
  {
    hide Joined, Cleared;
    var held := c.slots[h.fragIndex];
    var slots := c.slots[h.fragIndex := Slot(held.data + payload, age, Has(h.flags, CONTINUED))];
    if Complete(slots) && !(held.age >= 0 && age > held.age) {
      var n := FlushEnd(slots, 0, slots[0].age);
      UnusedFirst(Cleared(slots, n));
    }
  }

  // ---------------------------------------------------------------- what is left, and for how long

  /** The newest number once the fragments of `order` have come. */
  function Top(newest: int, base: int, order: seq<nat>): (n: int)
    ensures n >= newest && forall k :: 0 <= k < |order| ==> n >= base + order[k]
    ensures n == newest || exists k :: 0 <= k < |order| && n == base + order[k]
  {
    if order == [] then newest
    else
      var before, n := Top(newest, base, order[..|order| - 1]), base + order[|order| - 1];
      if n > before then n else before
  }

  /** The bytes that slot i still holds when fragment i first comes: by then they may be too old. */
  function LeftWhen(slots: seq<Slot>, newest: int, base: int, order: seq<nat>, i: nat): Bytes
    requires i < |slots|
  {
    if order == [] then []
    else if i in order[..|order| - 1] then LeftWhen(slots, newest, base, order[..|order| - 1], i)
    else if order[|order| - 1] == i then AgedSlot(slots[i], Top(newest, base, order) - newest).data
    else []
  }

  /** Each fragment behind what its slot held. */
  function Mixed(slots: seq<Slot>, newest: int, base: int, payloads: seq<Bytes>, order: seq<nat>): (r: seq<Bytes>)
    requires |payloads| <= |slots|
    ensures |r| == |payloads|
  {
    seq(|payloads|, i requires 0 <= i < |payloads| => LeftWhen(slots, newest, base, order, i) + payloads[i])
  }

  // ---------------------------------------------------------------- the slots meanwhile

  /** Slots as any run leaves them: unused and empty, or young enough to stay. */
  predicate Settled(slots: seq<Slot>)
  {
    |slots| == WINDOW &&
    forall i :: 0 <= i < WINDOW ==> (slots[i].age == -1 && slots[i].data == []) || 0 <= slots[i].age <= WINDOW
  }

  /** The fragments in `got` lie over what was in the slots, d numbers ago. */
  ghost predicate Overlaid(slots: seq<Slot>, before: seq<Slot>, d: nat, base: int, payloads: seq<Bytes>, newest: int,
                           got: set<nat>)
  {
    && |slots| == WINDOW == |before| && |payloads| <= WINDOW && (forall i :: i in got ==> i < |payloads|)
    && forall i: nat :: i < WINDOW ==>
         slots[i] == if i in got then SlotFor(base, payloads, newest, i) else AgedSlot(before[i], d)
  }

  lemma AgedAgain(s: Slot, d: nat, more: nat)
    requires s.age >= -1
    ensures AgedSlot(AgedSlot(s, d), more) == AgedSlot(s, d + more)
  {
  }

  lemma AgedNot(s: Slot)
    requires s.age <= WINDOW
    ensures AgedSlot(s, 0) == s
  {
  }

  /** The newest number moves on. */
  lemma OverlaidAged(slots: seq<Slot>, before: seq<Slot>, d: nat, base: int, payloads: seq<Bytes>, newest: int,
                     got: set<nat>, more: nat)
    requires Overlaid(slots, before, d, base, payloads, newest, got) && Settled(before)
    requires base <= newest || got == {}
    requires forall i :: i in got ==> newest + more - (base + i) <= WINDOW && base + i <= newest
    ensures Overlaid(Aged(slots, more), before, d + more, base, payloads, newest + more, got)
  {
    hide AgedSlot, Aged;
    forall i: nat | i < WINDOW
      ensures Aged(slots, more)[i] ==
              if i in got then SlotFor(base, payloads, newest + more, i) else AgedSlot(before[i], d + more)
    {
      assert Aged(slots, more)[i] == AgedSlot(slots[i], more);
      if i in got {
        OneAged(base, payloads, newest, i, more);
      } else {
        AgedAgain(before[i], d, more);
      }
    }
  }

  lemma OneAged(base: int, payloads: seq<Bytes>, newest: int, i: nat, more: nat)
    requires i < |payloads| && base + i <= newest && newest + more - (base + i) <= WINDOW
    ensures AgedSlot(SlotFor(base, payloads, newest, i), more) == SlotFor(base, payloads, newest + more, i)
  {
  }

  /** While a fragment is missing nothing is complete: what was left is of lower numbers, and was not
      complete by itself. */
  lemma OverlaidIncomplete(slots: seq<Slot>, before: seq<Slot>, d: nat, base: int, payloads: seq<Bytes>, newest: int,
                           got: set<nat>)
    requires Overlaid(slots, before, d, base, payloads, newest, got) && got != AllOf(|payloads|) && 2 <= |payloads|
    requires Settled(before) && !Complete(before) && newest - d < base
    ensures !Complete(slots)
  {
    hide AllOf, Aged, RunEnd;
    if Complete(slots) {
      var n := RunEnd(slots, 0);
      RunNotEmpty(slots);
      assert InStep(slots, 0);
      StepsDown(slots, n);
      if 0 in got {
        var j := FirstMissing(got, |payloads|);
        ReachesMissing(slots, j, 0);
        assert slots[j].age == slots[0].age - j;
        OldIsOlder(before[j], d, newest - base);
        assert false;
      } else {
        OldIsOlder(before[0], d, newest - base);
        OldRun(slots, before, d, base, payloads, newest, got, n);
        assert false;
      }
    }
  }

  lemma RunNotEmpty(slots: seq<Slot>)
    requires |slots| > 0
    ensures RunEnd(slots, 0) > 0
  {
  }

  /** In a complete row ages count down one by one. */
  lemma {:induction false} StepsDown(slots: seq<Slot>, n: nat)
    requires Complete(slots) && 0 < n <= RunEnd(slots, 0) <= |slots|
    ensures forall i :: 0 <= i < n ==> slots[i].age != -1 && slots[i].age == slots[0].age - i
  {
    hide RunEnd;
    if n > 1 {
      StepsDown(slots, n - 1);
    }
    assert InStep(slots, n - 1);
  }

  lemma OldIsOlder(s: Slot, d: nat, gap: int)
    requires s.age >= -1 && gap < d
    ensures AgedSlot(s, d).age == -1 || AgedSlot(s, d).age > gap
  {
  }

  /** What is older than the packet's fragment would be is not that fragment. */
  lemma OldThere(slots: seq<Slot>, before: seq<Slot>, d: nat, base: int, payloads: seq<Bytes>, newest: int, got: set<nat>,
                 i: nat)
    requires Overlaid(slots, before, d, base, payloads, newest, got) && i < WINDOW && slots[i].age > newest - (base + i)
    ensures i !in got && slots[i] == AgedSlot(before[i], d)
  {
    hide AgedSlot;
  }

  /** A complete row that starts with something left has nothing else in it. */
  lemma OldRun(slots: seq<Slot>, before: seq<Slot>, d: nat, base: int, payloads: seq<Bytes>, newest: int,
               got: set<nat>, n: nat)
    requires Overlaid(slots, before, d, base, payloads, newest, got) && Settled(before) && n == RunEnd(slots, 0)
    requires slots[0].age > newest - base
    requires forall i :: 0 <= i < n ==> slots[i].age != -1 && slots[i].age == slots[0].age - i
    ensures Complete(before)
  {
    hide Aged, Complete;
    forall i: nat | i < n
      ensures i !in got && slots[i] == AgedSlot(before[i], d)
    {
      OldThere(slots, before, d, base, payloads, newest, got, i);
    }
    OldRunEnds(slots, before, d, 0);
    RowIsComplete(slots, before, d, n);
  }

  lemma {:induction false} OldRunEnds(slots: seq<Slot>, before: seq<Slot>, d: nat, i: nat)
    requires |slots| == |before| && i <= |slots|
    requires forall k :: i <= k < RunEnd(slots, i) ==> slots[k] == AgedSlot(before[k], d)
    ensures RunEnd(before, i) == RunEnd(slots, i)
    decreases |slots| - i
  {
    if i < |slots| {
      assert slots[i] == AgedSlot(before[i], d);
      if slots[i].continued {
        OldRunEnds(slots, before, d, i + 1);
      }
    }
  }

  lemma RowIsComplete(slots: seq<Slot>, before: seq<Slot>, d: nat, n: nat)
    requires |slots| == |before| && n == RunEnd(before, 0) <= |slots|
    requires forall i :: 0 <= i < n ==> slots[i] == AgedSlot(before[i], d)
    requires forall i :: 0 <= i < n ==> slots[i].age != -1 && slots[i].age == slots[0].age - i
    requires forall i :: 0 <= i < |before| ==> before[i].age >= -1
    ensures Complete(before)
  {
    hide RunEnd;
    forall i | 0 <= i < n
      ensures InStep(before, i)
    {
      AgedUsed(before[i], d);
      if i > 0 {
        AgedUsed(before[i - 1], d);
        assert slots[i - 1].age == slots[0].age - (i - 1);
      }
    }
  }

  // ---------------------------------------------------------------- one fragment's arrival

  /** The next packet starts at number `base`, newer than anything seen, over whatever is left. */
  ghost predicate Littered(e: Endpoint, log: Log, base: int)
  {
    && Tracks(e.conn, log) && Settled(e.conn.slots) && !Complete(e.conn.slots) && !e.conn.newPacket
    && log.accepted != [] && log.newest < base
  }

  lemma {:induction false} RunNeverComplete(e: Endpoint, arrivals: seq<Arrival>)
    requires e.conn.Valid() && AllValid(arrivals) && !Complete(e.conn.slots) && !e.conn.newPacket
    ensures !Complete(HandleAll(e, arrivals).conn.slots) && !HandleAll(e, arrivals).conn.newPacket
  {
    hide Handle, Complete;
    if arrivals != [] {
      var before := arrivals[..|arrivals| - 1];
      RunNeverComplete(e, before);
      NeverComplete(HandleAll(e, before), arrivals[|arrivals| - 1]);
      NothingWaits(HandleAll(e, before), arrivals[|arrivals| - 1]);
    }
  }

  lemma NothingWaits(e: Endpoint, a: Arrival)
    requires e.conn.Valid() && a.Valid() && !e.conn.newPacket
    ensures !Handle(e, a).conn.newPacket
  {
    hide Place, Shifted, Aged, NoHistory;
  }

  /** That is what every run from a fresh connection leads to, for any packet newer than it has seen. */
  lemma EveryRunLitters(seed: nat, arrivals: seq<Arrival>, base: int)
    requires seed < SEQ_SPACE && AllValid(arrivals) && FaithfulRun(Endpoint(Fresh(seed), []), NewLog(), arrivals)
    requires var log := LogAll(Endpoint(Fresh(seed), []), NewLog(), arrivals); log.accepted != [] && log.newest < base
    ensures var e := Endpoint(Fresh(seed), []); Littered(HandleAll(e, arrivals), LogAll(e, NewLog(), arrivals), base)
  {
    hide HandleAll, LogAll, Tracks, Complete, FaithfulRun;
    var e := Endpoint(Fresh(seed), []);
    FreshTracks(seed);
    RunTracks(e, NewLog(), arrivals);
    UnusedFirst(e.conn.slots);
    RunNeverComplete(e, arrivals);
    TrackedSettled(HandleAll(e, arrivals).conn, LogAll(e, NewLog(), arrivals));
  }

  lemma TrackedSettled(c: Receiver, log: Log)
    requires c.Valid() && |log.stored| == WINDOW && Tracks(c, log) && SlotsTrack(c, log)
    ensures Settled(c.slots)
  {
    forall i | 0 <= i < WINDOW && c.slots[i].age >= 0
      ensures c.slots[i].age <= WINDOW
    {
    }
  }

  /** Between arrivals, when `first` was the state before them: the fragments in `got` lie over what was
      left or, once all were seen, have been handed over. */
  ghost predicate Gathering(e: Endpoint, log: Log, first: seq<Slot>, start: int, base: int, payloads: seq<Bytes>,
                            got: set<nat>)
  {
    && Tracks(e.conn, log) && !e.conn.newPacket && |payloads| <= WINDOW && log.accepted != []
    && start <= log.newest < base + WINDOW && (got != {} ==> base <= log.newest) && (got == {} ==> log.newest == start)
    && (forall i: nat :: i < |payloads| ==> (base + i in log.accepted <==> i in got))
    && (forall i :: i in got ==> i < |payloads|)
    && (got != AllOf(|payloads|) ==>
          Overlaid(e.conn.slots, first, log.newest - start, base, payloads, log.newest, got))
  }

  lemma GatheringStarts(e: Endpoint, log: Log, base: int, payloads: seq<Bytes>)
    requires Littered(e, log, base) && 0 < |payloads| <= WINDOW
    ensures Gathering(e, log, e.conn.slots, log.newest, base, payloads, {})
  {
    forall i: nat | i < WINDOW
      ensures e.conn.slots[i] == AgedSlot(e.conn.slots[i], 0)
    {
      AgedNot(e.conn.slots[i]);
    }
  }

  /** A fragment seen already changes nothing. */
  lemma SeenAlready(e: Endpoint, log: Log, first: seq<Slot>, start: int, base: int, payloads: seq<Bytes>, flags: nat,
                    got: set<nat>, sent: seq<Bytes>, i: nat)
    requires e.conn.Valid() && |log.stored| == WINDOW && Gathering(e, log, first, start, base, payloads, got) && i in got
    requires 2 <= |payloads| == |sent| && Plain(flags)
    ensures var a := Fragment(base, sent, flags, i); Handle(e, a) == e && LogArrival(e.conn, log, a) == log
  {
    hide LogArrival, Admit, Overlaid;
    var a := Fragment(base, sent, flags, i);
    RepeatsDropped(e.conn, log, a);
    IgnoredLog(e.conn, log, a);
  }

  /** What the admission of a new fragment leaves. */
  lemma {:induction false} Admitting(e: Endpoint, log: Log, first: seq<Slot>, start: int, base: int, payloads: seq<Bytes>,
                                     sent: seq<Bytes>, flags: nat, got: set<nat>, i: nat)
    requires Gathering(e, log, first, start, base, payloads, got) && Settled(first)
    requires 2 <= |payloads| == |sent| && i < |payloads| && i !in got && Plain(flags) && base + i < log.newest + WINDOW
    ensures var a, next := Fragment(base, sent, flags, i), Accept(log, base + i);
            && e.conn.Valid() && |log.stored| == WINDOW && Admit(e.conn, a.header).Admitted?
            && Tracks(Admit(e.conn, a.header).conn, next)
            && Admit(e.conn, a.header).age == next.newest - (base + i) && base <= next.newest < base + WINDOW
            && Overlaid(Admit(e.conn, a.header).conn.slots, first, next.newest - start, base, payloads, next.newest, got)
  {
    hide Distance, Shifted, Aged, Overlaid, Has, With, NoHistory, AllOf, Settled;
    var a, next := Fragment(base, sent, flags, i), Accept(log, base + i);
    FragmentFlags(base, sent, flags, i);
    NotAllYet(got, |payloads|, i);
    AdmitsWanted(e.conn, log, a);
    AdmissionTracks(e.conn, log, a);
    AdmissionSlots(e.conn, log, a);
    if next.newest > log.newest {
      GotNumbers(e.conn, log, base, |payloads|, got);
      OverlaidAged(e.conn.slots, first, log.newest - start, base, payloads, log.newest, got, next.newest - log.newest);
    }
  }

  lemma GotNumbers(c: Receiver, log: Log, base: int, m: nat, got: set<nat>)
    requires Tracks(c, log) && forall i: nat :: i < m ==> (base + i in log.accepted <==> i in got)
    requires forall i :: i in got ==> i < m
    ensures forall i :: i in got ==> base + i <= log.newest
  {
    forall i | i in got
      ensures base + i <= log.newest
    {
      assert base + i in log.accepted;
    }
  }

  /** The payloads once fragment i has gone behind what its slot holds. */
  lemma OverlaidWith(slots: seq<Slot>, before: seq<Slot>, d: nat, base: int, payloads: seq<Bytes>, newest: int,
                     got: set<nat>, i: nat, payload: Bytes)
    requires Overlaid(slots, before, d, base, payloads, newest, got) && i < |payloads| && i !in got
    ensures slots[i] == AgedSlot(before[i], d)
    ensures var mixed := payloads[i := AgedSlot(before[i], d).data + payload];
            Overlaid(slots[i := Slot(slots[i].data + payload, newest - (base + i), i < |payloads| - 1)],
                     before, d, base, mixed, newest, got + {i})
  {
    hide AgedSlot;
    var mixed := payloads[i := AgedSlot(before[i], d).data + payload];
    forall k | k in got
      ensures SlotFor(base, mixed, newest, k) == SlotFor(base, payloads, newest, k)
    {
    }
  }

  lemma OverlaidWhole(slots: seq<Slot>, before: seq<Slot>, d: nat, base: int, payloads: seq<Bytes>, newest: int)
    requires Overlaid(slots, before, d, base, payloads, newest, AllOf(|payloads|)) && Settled(before) && newest - d < base
    ensures Whole(slots, base, payloads, newest)
  {
    hide AgedSlot, Overlaid, Settled, AllOf;
    OverlaidSizes(slots, before, d, base, payloads, newest, AllOf(|payloads|));
    forall k: nat | k < WINDOW
      ensures k < |payloads| ==> slots[k] == SlotFor(base, payloads, newest, k)
      ensures k >= |payloads| ==> (slots[k].age == -1 && slots[k].data == []) || slots[k].age > newest - base
    {
      OverlaidSlot(slots, before, d, base, payloads, newest, k);
      SettledAges(before, k);
      OldIsOlder(before[k], d, newest - base);
      OldIsEmpty(before[k], d);
    }
  }

  lemma OverlaidSizes(slots: seq<Slot>, before: seq<Slot>, d: nat, base: int, payloads: seq<Bytes>, newest: int,
                      got: set<nat>)
    requires Overlaid(slots, before, d, base, payloads, newest, got)
    ensures |slots| == WINDOW && |before| == WINDOW && |payloads| <= WINDOW
  {
  }

  lemma OverlaidSlot(slots: seq<Slot>, before: seq<Slot>, d: nat, base: int, payloads: seq<Bytes>, newest: int, k: nat)
    requires Overlaid(slots, before, d, base, payloads, newest, AllOf(|payloads|)) && k < WINDOW
    ensures slots[k] == if k < |payloads| then SlotFor(base, payloads, newest, k) else AgedSlot(before[k], d)
  {
    hide AgedSlot;
  }

  lemma OldIsEmpty(s: Slot, d: nat)
    requires s.age == -1 ==> s.data == []
    requires s.age >= -1
    ensures AgedSlot(s, d).age == -1 ==> AgedSlot(s, d).data == []
  {
  }

  /** What Place makes of it. */
  lemma {:induction false} Placing(c: Receiver, first: seq<Slot>, d: nat, base: int, payloads: seq<Bytes>,
                                   sent: seq<Bytes>, flags: nat, newest: int, got: set<nat>, i: nat)
    requires 2 <= |payloads| == |sent| <= WINDOW && i < |payloads| && Plain(flags) && i !in got && c.Valid() && c.newPacket
    requires Overlaid(c.slots, first, d, base, payloads, newest, got) && Settled(first) && !Complete(first)
    requires newest - d < base && base + i <= newest < base + i + WINDOW
    requires got + {i} == AllOf(|payloads|) ==> newest - base >= |payloads| - 1
    ensures var a := Fragment(base, sent, flags, i);
            var mixed := payloads[i := AgedSlot(first[i], d).data + sent[i]];
            var r := Place(c, a.header, a.payload, newest - (base + i));
            if got + {i} == AllOf(|payloads|)
            then r.newPacket && r.latest == Concat(mixed)
            else !r.newPacket && Overlaid(r.slots, first, d, base, mixed, newest, got + {i})
  {
    hide Complete, Concat, Joined, RunEnd, FlushEnd, Cleared, Overlaid, AllOf, Has, With, AgedSlot, Settled, Whole;
    SettledAges(first, i);
    var a := Fragment(base, sent, flags, i);
    var mixed := payloads[i := AgedSlot(first[i], d).data + sent[i]];
    FragmentFlags(base, sent, flags, i);
    OverlaidWith(c.slots, first, d, base, payloads, newest, got, i, sent[i]);
    OldIsOlder(first[i], d, newest - base);
    var slots := c.slots[i := Slot(c.slots[i].data + a.payload, newest - (base + i), Has(a.header.flags, CONTINUED))];
    if got + {i} == AllOf(|payloads|) {
      OverlaidWhole(slots, first, d, base, mixed, newest);
      AllHere(slots, base, mixed, newest);
    } else {
      OverlaidIncomplete(slots, first, d, base, mixed, newest, got + {i});
    }
  }

  lemma SettledAges(slots: seq<Slot>, i: nat)
    requires Settled(slots) && i < WINDOW
    ensures |slots| == WINDOW && slots[i].age >= -1 && (slots[i].age == -1 ==> slots[i].data == [])
  {
  }

  /** A new fragment's arrival: it is taken as if it had been sent with the old bytes in front. */
  lemma {:induction false} Arriving(e: Endpoint, log: Log, first: seq<Slot>, start: int, base: int, payloads: seq<Bytes>,
                                    sent: seq<Bytes>, flags: nat, got: set<nat>, i: nat)
    requires Gathering(e, log, first, start, base, payloads, got) && Settled(first) && !Complete(first) && start < base
    requires 2 <= |payloads| == |sent| && i < |payloads| && i !in got && Plain(flags) && base + i < log.newest + WINDOW
    ensures e.conn.Valid() && |log.stored| == WINDOW
    ensures var a := Fragment(base, sent, flags, i);
            var mixed := payloads[i := AgedSlot(first[i], NewestAfter(log, base + i) - start).data + sent[i]];
            var r := Handle(e, a);
            && Gathering(r, LogArrival(e.conn, log, a), first, start, base, mixed, got + {i})
            && LogArrival(e.conn, log, a).newest == NewestAfter(log, base + i)
            && r.delivered == e.delivered + if got + {i} == AllOf(|payloads|) then [Concat(mixed)] else []
  {
    hide Admit, Place, Overlaid, Concat, Handle, LogArrival, AllOf, FlagsFor, Has, With, Tracks, Plain, Settled, Complete,
      AgedSlot;
    var a, next := Fragment(base, sent, flags, i), Accept(log, base + i);
    Admitting(e, log, first, start, base, payloads, sent, flags, got, i);
    FragmentFlags(base, sent, flags, i);
    NumbersNow(log, base, |payloads|, got, i);
    TrackedBelow(Admit(e.conn, a.header).conn, next);
    AllSeen(next, base, |payloads|, got + {i});
    var c := Admit(e.conn, a.header).conn.(newPacket := true);
    Placing(c, first, next.newest - start, base, payloads, sent, flags, next.newest, got, i);
    HandleFragment(e, log, a);
    SameTracks(Admit(e.conn, a.header).conn, Handle(e, a).conn, next, LogArrival(e.conn, log, a));
  }

  lemma TrackedBelow(c: Receiver, log: Log)
    requires Tracks(c, log)
    ensures forall n :: n in log.accepted ==> n <= log.newest
  {
  }

  lemma NumbersNow(log: Log, base: int, m: nat, got: set<nat>, i: nat)
    requires i < m && forall k: nat :: k < m ==> (base + k in log.accepted <==> k in got)
    ensures forall k: nat :: k < m ==> (base + k in Accept(log, base + i).accepted <==> k in got + {i})
  {
    assert (log.accepted + [base + i])[|log.accepted|] == base + i;
  }

  // ---------------------------------------------------------------- any order, any repeats

  lemma MixedNext(slots: seq<Slot>, newest: int, base: int, payloads: seq<Bytes>, order: seq<nat>)
    requires |payloads| <= |slots| && order != [] && order[|order| - 1] < |payloads|
    ensures var before, i := order[..|order| - 1], order[|order| - 1];
            Mixed(slots, newest, base, payloads, order) ==
            if i in before then Mixed(slots, newest, base, payloads, before)
            else Mixed(slots, newest, base, payloads, before)
                   [i := AgedSlot(slots[i], Top(newest, base, order) - newest).data + payloads[i]]
  {
    hide AgedSlot, Top;
    var before, i := order[..|order| - 1], order[|order| - 1];
    forall k: nat | k < |payloads|
      ensures LeftWhen(slots, newest, base, order, k) ==
              if k == i && i !in before then AgedSlot(slots[i], Top(newest, base, order) - newest).data
              else LeftWhen(slots, newest, base, before, k)
    {
      if k !in before && k != i {
        NothingYet(slots, newest, base, before, k);
      }
    }
  }

  lemma {:induction false} NothingYet(slots: seq<Slot>, newest: int, base: int, order: seq<nat>, i: nat)
    requires i < |slots| && i !in order
    ensures LeftWhen(slots, newest, base, order, i) == []
  {
    if order != [] {
      assert i !in order[..|order| - 1];
    }
  }

  lemma MixedNone(slots: seq<Slot>, newest: int, base: int, payloads: seq<Bytes>)
    requires |payloads| <= |slots|
    ensures Mixed(slots, newest, base, payloads, []) == payloads
  {
    forall i | 0 <= i < |payloads|
      ensures Mixed(slots, newest, base, payloads, [])[i] == payloads[i]
    {
      assert [] + payloads[i] == payloads[i];
    }
  }

  lemma TopNext(newest: int, base: int, order: seq<nat>)
    requires order != []
    ensures var before, n := Top(newest, base, order[..|order| - 1]), base + order[|order| - 1];
            Top(newest, base, order) == (if n > before then n else before) &&
            (order[|order| - 1] in order[..|order| - 1] ==> Top(newest, base, order) == before)
  {
  }

  /** Over anything left in the slots, in any order and with any repeats: nothing is handed over until
      the last fragment, and then one packet, each fragment of it behind what was left in its slot. */
  lemma {:induction false} AnyOrderOver(e: Endpoint, log: Log, base: int, payloads: seq<Bytes>, flags: nat, order: seq<nat>)
    requires e.conn.Valid() && |log.stored| == WINDOW && Littered(e, log, base)
    requires 2 <= |payloads| <= WINDOW && Plain(flags) && forall k :: 0 <= k < |order| ==> order[k] < |payloads|
    requires order != [] ==> base + order[0] < log.newest + WINDOW
    ensures var arrivals := Fragments(base, payloads, flags, order);
            var mixed := Mixed(e.conn.slots, log.newest, base, payloads, order);
            var r, next := HandleAll(e, arrivals), LogAll(e, log, arrivals);
            && Gathering(r, next, e.conn.slots, log.newest, base, mixed, Seen(order))
            && next.newest == Top(log.newest, base, order)
            && r.delivered == e.delivered + if Seen(order) == AllOf(|payloads|) then [Concat(mixed)] else []
    decreases |order|
  {
    hide Gathering, Concat, Handle, LogArrival, AllOf, Plain, Fragment, HandleAll, LogAll, Seen, Fragments, Receiver.Valid,
      Tracks, Settled, Complete, Mixed, Top, AgedSlot;
    LitteredIs(e, log, base);
    if order == [] {
      NothingHandled(e, log, Fragments(base, payloads, flags, order));
      MixedNone(e.conn.slots, log.newest, base, payloads);
      GatheringStarts(e, log, base, payloads);
      SomeExpected(|payloads|);
      NoneSeen(order);
      assert Top(log.newest, base, []) == log.newest;
    } else {
      var before, i := order[..|order| - 1], order[|order| - 1];
      AnyOrderOver(e, log, base, payloads, flags, before);
      var earlier := Fragments(base, payloads, flags, before);
      OneMore(e, log, earlier, Fragment(base, payloads, flags, i));
      LastArrival(base, payloads, flags, order);
      MixedNext(e.conn.slots, log.newest, base, payloads, order);
      TopNext(log.newest, base, order);
      NextOver(HandleAll(e, earlier), LogAll(e, log, earlier), e.conn.slots, log.newest, base,
               Mixed(e.conn.slots, log.newest, base, payloads, before), payloads, flags, before, order[0], i);
    }
  }

  lemma LitteredIs(e: Endpoint, log: Log, base: int)
    requires Littered(e, log, base)
    ensures Settled(e.conn.slots) && |e.conn.slots| == WINDOW && !Complete(e.conn.slots) && log.newest < base
  {
  }

  lemma NoneSeen(order: seq<nat>)
    requires order == []
    ensures Seen(order) == {}
  {
  }

  /** One more fragment, new or repeated, in any state the run can be in. */
  lemma {:induction false} NextOver(e: Endpoint, log: Log, first: seq<Slot>, start: int, base: int, payloads: seq<Bytes>,
                                    sent: seq<Bytes>, flags: nat, before: seq<nat>, head: nat, i: nat)
    requires e.conn.Valid() && |log.stored| == WINDOW
    requires Gathering(e, log, first, start, base, payloads, Seen(before)) && Settled(first) && !Complete(first)
    requires start < base && 2 <= |payloads| == |sent| <= WINDOW && i < |payloads| && Plain(flags)
    requires base + head < start + WINDOW && if before == [] then head == i else head == before[0]
    ensures var a := Fragment(base, sent, flags, i);
            var r, next := Handle(e, a), LogArrival(e.conn, log, a);
            var all := Seen(before) + {i};
            var top := NewestAfter(log, base + i);
            if i in before
            then r == e && next == log && all == Seen(before)
            else var mixed := payloads[i := AgedSlot(first[i], top - start).data + sent[i]];
                 && Gathering(r, next, first, start, base, mixed, all) && Seen(before) != AllOf(|payloads|)
                 && next.newest == top && top == (if base + i > log.newest then base + i else log.newest)
                 && r.delivered == e.delivered + if all == AllOf(|payloads|) then [Concat(mixed)] else []
  {
    hide Concat, Handle, LogArrival, AllOf, Plain, Fragment, Seen, Tracks, Settled, Complete, AgedSlot, Overlaid;
    if i in before {
      SeenAlready(e, log, first, start, base, payloads, flags, Seen(before), sent, i);
      assert Seen(before) + {i} == Seen(before);
    } else {
      NotAllYet(Seen(before), |payloads|, i);
      if before != [] {
        assert before[0] in Seen(before);
      } else {
        NoneSeen(before);
      }
      Arriving(e, log, first, start, base, payloads, sent, flags, Seen(before), i);
    }
  }

  // ---------------------------------------------------------------- what comes out

  function Size(payloads: seq<Bytes>): nat
  {
    if payloads == [] then 0 else Size(payloads[..|payloads| - 1]) + |payloads[|payloads| - 1]|
  }

  lemma {:induction false} ConcatSize(payloads: seq<Bytes>)
    ensures |Concat(payloads)| == Size(payloads)
  {
    if payloads != [] {
      ConcatSize(payloads[..|payloads| - 1]);
    }
  }

  /** Longer payloads make a longer packet, unless all are as long. */
  lemma {:induction false} SizesAdd(payloads: seq<Bytes>, longer: seq<Bytes>)
    requires |payloads| == |longer| && forall i :: 0 <= i < |payloads| ==> |payloads[i]| <= |longer[i]|
    ensures Size(payloads) <= Size(longer)
    ensures Size(payloads) == Size(longer) ==> forall i :: 0 <= i < |payloads| ==> |payloads[i]| == |longer[i]|
  {
    if payloads != [] {
      var n := |payloads| - 1;
      SizesAdd(payloads[..n], longer[..n]);
      if Size(payloads) == Size(longer) {
        forall i | 0 <= i < n
          ensures |payloads[i]| == |longer[i]|
        {
          assert payloads[..n][i] == payloads[i] && longer[..n][i] == longer[i];
        }
      }
    }
  }

  ghost predicate NothingLeft(slots: seq<Slot>, newest: int, base: int, order: seq<nat>, m: nat)
    requires m <= |slots|
  {
    forall i: nat :: i < m ==> LeftWhen(slots, newest, base, order, i) == []
  }

  lemma MixedIff(slots: seq<Slot>, newest: int, base: int, payloads: seq<Bytes>, order: seq<nat>)
    requires |payloads| <= |slots|
    ensures Concat(Mixed(slots, newest, base, payloads, order)) == Concat(payloads) <==>
            NothingLeft(slots, newest, base, order, |payloads|)
  {
    hide Concat, Size, LeftWhen;
    var mixed := Mixed(slots, newest, base, payloads, order);
    ConcatSize(payloads);
    ConcatSize(mixed);
    SizesAdd(payloads, mixed);
    if Concat(mixed) == Concat(payloads) {
      forall i: nat | i < |payloads|
        ensures LeftWhen(slots, newest, base, order, i) == []
      {
        assert |payloads[i]| == |mixed[i]|;
      }
    }
    if NothingLeft(slots, newest, base, order, |payloads|) {
      forall i | 0 <= i < |payloads|
        ensures mixed[i] == payloads[i]
      {
        assert LeftWhen(slots, newest, base, order, i) == [] && [] + payloads[i] == payloads[i];
      }
      assert mixed == payloads;
    }
  }

  /** Once all fragments of the next packet have come, in any order and with any repeats, one packet is
      handed over: the one that was sent if and only if nothing was left, by the time its fragment came,
      in any of its slots. */
  lemma LeftoversSpoilIff(e: Endpoint, log: Log, base: int, payloads: seq<Bytes>, flags: nat, order: seq<nat>)
    requires e.conn.Valid() && |log.stored| == WINDOW && Littered(e, log, base)
    requires 2 <= |payloads| <= WINDOW && Plain(flags) && forall k :: 0 <= k < |order| ==> order[k] < |payloads|
    requires order != [] && base + order[0] < log.newest + WINDOW && Seen(order) == AllOf(|payloads|)
    ensures var r := HandleAll(e, Fragments(base, payloads, flags, order));
            && r.delivered == e.delivered + [Concat(Mixed(e.conn.slots, log.newest, base, payloads, order))]
            && (r.delivered == e.delivered + [Concat(payloads)] <==>
                  NothingLeft(e.conn.slots, log.newest, base, order, |payloads|))
  {
    hide Gathering, Concat, HandleAll, LogAll, AllOf, Seen, Plain, Tracks, Settled, Complete, Mixed, NothingLeft, Fragments;
    LitteredIs(e, log, base);
    AnyOrderOver(e, log, base, payloads, flags, order);
    MixedIff(e.conn.slots, log.newest, base, payloads, order);
    LastDiffers(e.delivered, Concat(Mixed(e.conn.slots, log.newest, base, payloads, order)), Concat(payloads));
  }

  lemma LastDiffers(s: seq<Bytes>, x: Bytes, y: Bytes)
    ensures s + [x] == s + [y] <==> x == y
  {
    if s + [x] == s + [y] {
      assert (s + [x])[|s|] == (s + [y])[|s|];
    }
  }

  /** What is young enough to outlast the packet is there whenever its fragment comes. */
  lemma {:induction false} StillLeft(slots: seq<Slot>, newest: int, base: int, order: seq<nat>, m: nat, i: nat)
    requires i < m <= |slots| && i in order && forall k :: 0 <= k < |order| ==> order[k] < m
    requires newest < base && -1 <= slots[i].age && (slots[i].age == -1 ==> slots[i].data == [])
    requires slots[i].age + (base + m - 1 - newest) <= WINDOW
    ensures LeftWhen(slots, newest, base, order, i) == slots[i].data
  {
    var before := order[..|order| - 1];
    if i in before {
      StillLeft(slots, newest, base, before, m, i);
    } else {
      assert order[|order| - 1] == i;
      assert Top(newest, base, order) <= base + m - 1;
    }
  }

  /** So if all of it is, the packet comes out as sent if and only if every one of its slots is empty. */
  lemma YoungLeftoversSpoilIff(e: Endpoint, log: Log, base: int, payloads: seq<Bytes>, flags: nat, order: seq<nat>)
    requires e.conn.Valid() && |log.stored| == WINDOW && Littered(e, log, base)
    requires 2 <= |payloads| <= WINDOW && Plain(flags) && forall k :: 0 <= k < |order| ==> order[k] < |payloads|
    requires order != [] && base + order[0] < log.newest + WINDOW && Seen(order) == AllOf(|payloads|)
    requires forall i :: 0 <= i < |payloads| ==> e.conn.slots[i].age + (base + |payloads| - 1 - log.newest) <= WINDOW
    ensures HandleAll(e, Fragments(base, payloads, flags, order)).delivered == e.delivered + [Concat(payloads)] <==>
            forall i :: 0 <= i < |payloads| ==> e.conn.slots[i].data == []
  {
    hide Concat, HandleAll, Seen, Plain, Tracks, Complete, Mixed, Fragments, LeftWhen, Top, AllOf;
    LitteredIs(e, log, base);
    LeftoversSpoilIff(e, log, base, payloads, flags, order);
    forall i: nat | i < |payloads|
      ensures LeftWhen(e.conn.slots, log.newest, base, order, i) == e.conn.slots[i].data
    {
      assert i in AllOf(|payloads|) && i in Seen(order);
      StillLeft(e.conn.slots, log.newest, base, order, |payloads|, i);
    }
  }
}
