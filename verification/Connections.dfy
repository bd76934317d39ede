/** The receiving end of a connection (src/nrg_connection.cpp:43-172): a sixteen-bit newest
    sequence number, a 32-bit shift register of the packets seen lately, and 32 fragment slots. */
module Connections {
  import opened Packets
  import opened PacketHeaders

  /** NRG_CONN_PACKET_HISTORY */
  const WINDOW: nat := 32

  const SEQ_SPACE: nat := 65536

  /** One fragment slot. Age -1 marks it unused. */
  datatype Slot = Slot(data: Bytes, age: int, continued: bool)

  const UNUSED := Slot([], -1, false)

  datatype Receiver = Receiver(
    seqNum: nat, history: seq<bool>, slots: seq<Slot>, newPacket: bool, latest: Bytes, latestFlags: nat)
  {
    predicate Valid()
    {
      seqNum < SEQ_SPACE && |history| == WINDOW && |slots| == WINDOW
    }
  }

  // ---------------------------------------------------------------- the duplicate window

  /** static_cast<int16_t>(a - b) */
  function Distance(a: nat, b: nat): (d: int)
    requires a < SEQ_SPACE && b < SEQ_SPACE
    ensures -32768 <= d < 32768 && (b + d) % SEQ_SPACE == a
  {
    if a - b >= 32768 then a - b - SEQ_SPACE else if a - b < -32768 then a - b + SEQ_SPACE else a - b
  }

  predicate NoHistory(history: seq<bool>)
  {
    forall k :: 0 <= k < |history| ==> !history[k]
  }

  /** packet_history <<= d, then bit 0 set. */
  function Shifted(history: seq<bool>, d: nat): (r: seq<bool>)
    requires |history| == WINDOW && 0 < d < WINDOW
    ensures |r| == WINDOW
    ensures forall k :: 0 <= k < WINDOW ==> r[k] == (k == 0 || (k >= d && history[k - d]))
  {
    [true] + seq(d - 1, _ => false) + history[..WINDOW - d]
  }

  /** A slot after the newest number moved on by d. */
  function AgedSlot(s: Slot, d: nat): Slot
  {
    if s.age < 0 then s
    else if s.age + d > WINDOW then s.(data := [], age := -1)
    else s.(age := s.age + d)
  }

  function Aged(slots: seq<Slot>, d: nat): (r: seq<Slot>)
    ensures |r| == |slots|
    ensures forall i :: 0 <= i < |slots| ==> r[i] == AgedSlot(slots[i], d)
  {
    if slots == [] then [] else Aged(slots[..|slots| - 1], d) + [AgedSlot(slots[|slots| - 1], d)]
  }

  datatype Admission = Ignored | Admitted(conn: Receiver, age: nat)

  /** Whether a packet counts, and how far behind the newest it is. */
  function Admit(c: Receiver, h: Header): (r: Admission)
    requires c.Valid() && h.Valid()
    ensures r.Admitted? ==> r.conn.Valid() && r.age < WINDOW
  {
    var d := Distance(h.seqNum, c.seqNum);
    if NoHistory(c.history) then Admitted(c.(seqNum := h.seqNum, history := c.history[0 := true]), 0)
    else if d >= WINDOW || -d >= WINDOW then Ignored
    else if d < 0 && Has(h.flags, RETRANSMISSION) then Ignored
    else if d > 0 then
      Admitted(c.(seqNum := h.seqNum, history := Shifted(c.history, d), slots := Aged(c.slots, d)), 0)
    else if c.history[-d] then Ignored
    else Admitted(c.(history := c.history[-d := true]), -d)
  }

  // ---------------------------------------------------------------- reassembly

  /** Slots the completeness check looks at from i on: up to the first that is not continued. */
  function RunEnd(slots: seq<Slot>, i: nat): (r: nat)
    requires i <= |slots|
    ensures i <= r <= |slots|
    ensures forall k :: i <= k < r - 1 ==> slots[k].continued
    ensures r < |slots| ==> i < r && !slots[r - 1].continued
    decreases |slots| - i
  {
    if i == |slots| then i else if !slots[i].continued then i + 1 else RunEnd(slots, i + 1)
  }

  predicate InStep(slots: seq<Slot>, i: nat)
    requires i < |slots|
  {
    slots[i].age != -1 && (i > 0 ==> slots[i].age == slots[i - 1].age - 1)
  }

  predicate Complete(slots: seq<Slot>)
  {
    forall i :: 0 <= i < RunEnd(slots, 0) ==> InStep(slots, i)
  }

  /** Slots the flush takes: as long as ages count down one by one. */
  function FlushEnd(slots: seq<Slot>, i: nat, age: int): (r: nat)
    requires i <= |slots|
    ensures i <= r <= |slots|
    ensures forall k :: i <= k < r ==> slots[k].age == age - (k - i)
    ensures r < |slots| ==> slots[r].age != age - (r - i)
    decreases |slots| - i
  {
    if i == |slots| || slots[i].age != age then i else FlushEnd(slots, i + 1, age - 1)
  }

  function Joined(slots: seq<Slot>): (s: Bytes)
  {
    if slots == [] then [] else Joined(slots[..|slots| - 1]) + slots[|slots| - 1].data
  }

  lemma JoinedNone(slots: seq<Slot>)
    ensures Joined(slots[..0]) == []
  {
  }

  lemma JoinedTurn(slots: seq<Slot>, n: nat)
    requires n < |slots|
    ensures Joined(slots[..n + 1]) == Joined(slots[..n]) + slots[n].data
  {
    assert slots[..n + 1][..n] == slots[..n];
  }

  /** The first n slots given up. */
  function Cleared(slots: seq<Slot>, n: nat): (r: seq<Slot>)
    requires n <= |slots|
    ensures |r| == |slots|
    ensures forall i :: 0 <= i < |slots| ==> r[i] == if i < n then slots[i].(data := [], age := -1) else slots[i]
  {
    if n == 0 then slots else Cleared(slots, n - 1)[n - 1 := slots[n - 1].(data := [], age := -1)]
  }

  lemma ClearedNone(slots: seq<Slot>)
    ensures Cleared(slots, 0) == slots
  {
  }

  lemma ClearedTurn(slots: seq<Slot>, n: nat)
    requires n < |slots|
    ensures Cleared(slots, n + 1) == Cleared(slots, n)[n := Cleared(slots, n)[n].(data := [], age := -1)]
    ensures Cleared(slots, n)[n] == slots[n]
  {
  }

  /** One round of the flush. */
  lemma FlushTurn(slots: seq<Slot>, i: nat, age: int)
    requires i <= |slots|
    ensures FlushEnd(slots, i, age) ==
            if i == |slots| || slots[i].age != age then i else FlushEnd(slots, i + 1, age - 1)
    ensures i < |slots| ==> Cleared(slots, i)[i] == slots[i]
  {
    hide Cleared;
  }

  /** A fragment goes into its slot, behind whatever that slot still holds, and may complete a packet. */
  function Place(c: Receiver, h: Header, payload: Bytes, age: nat): (r: Receiver)
    requires c.Valid() && h.Valid() && h.fragIndex < WINDOW
    ensures r.Valid() && r.seqNum == c.seqNum && r.history == c.history
  {
    var held := c.slots[h.fragIndex];
    if held.age >= 0 && age > held.age then c.(newPacket := false)
    else
      var slots := c.slots[h.fragIndex := Slot(held.data + payload, age, Has(h.flags, CONTINUED))];
      if Complete(slots) then
        var n := FlushEnd(slots, 0, slots[0].age);
        c.(newPacket := true, latest := Joined(slots[..n]), slots := Cleared(slots, n))
      else c.(newPacket := false, slots := slots)
  }

  predicate IsFragment(h: Header)
  {
    h.fragIndex > 0 || Has(h.flags, CONTINUED)
  }

  /** The flags handed on: the comparison of raw sequence numbers decides OUT_OF_ORDER. */
  function FlagsFor(seqNum: nat, h: Header): nat
  {
    if seqNum > h.seqNum then With(h.flags, OUT_OF_ORDER) else h.flags
  }

  datatype Received = Received(conn: Receiver, ok: bool)

  /** What one parsed datagram does. */
  function Receive(c: Receiver, h: Header, payload: Bytes): (r: Received)
    requires c.Valid() && h.Valid() && h.fragIndex < WINDOW
    ensures r.conn.Valid()
  {
    if h.version != 0 then Received(c, false)
    else match Admit(c, h)
      case Ignored => Received(c, true)
      case Admitted(a, age) =>
        if Has(h.flags, FINISHED) && a.seqNum != h.seqNum then Received(a, false)
        else
          var b := a.(newPacket := true);
          var r := if IsFragment(h) then Place(b, h, payload, age) else b.(latest := payload);
          Received(r.(latestFlags := FlagsFor(a.seqNum, h)), true)
  }

  function Fresh(seqNum: nat): (c: Receiver)
    requires seqNum < SEQ_SPACE
    ensures c.Valid()
  {
    Receiver(seqNum, seq(WINDOW, _ => false), seq(WINDOW, _ => UNUSED), false, [], 0)
  }

  // ---------------------------------------------------------------- the class

  class ConnectionIn {
    var seqNum: nat
    var history: seq<bool>
    const slots: array<Slot>
    var newPacket: bool
    const latest: Packet
    var latestFlags: nat

    ghost function Repr(): set<object>
      reads this, latest
    {
      {this, slots} + latest.Repr()
    }

    ghost predicate Valid()
      reads this, latest
    {
      seqNum < SEQ_SPACE && |history| == WINDOW && slots.Length == WINDOW && latest.Valid()
    }

    ghost function State(): (c: Receiver)
      requires Valid()
      reads this, slots, latest, latest.data
      ensures c.Valid()
    {
      Receiver(seqNum, history, slots[..], newPacket, latest.Contents(), latestFlags)
    }

    /** seed stands for the random number the first packet will overwrite. */
    constructor (seed: nat)
      requires seed < SEQ_SPACE
      ensures Valid() && fresh(Repr()) && State() == Fresh(seed)
    {
      seqNum := seed;
      history := seq(WINDOW, _ => false);
      slots := new Slot[WINDOW](_ => UNUSED);
      newPacket := false;
      latest := new Packet(MAX_PACKET_SIZE);
      latestFlags := 0;
      new;
      assert slots[..] == seq(WINDOW, _ => UNUSED);
      assert history == seq(WINDOW, _ => false);
    }

    method AgeSlots(d: nat)
      requires slots.Length == WINDOW
      modifies slots
      ensures slots[..] == Aged(old(slots[..]), d)
    {
      for i := 0 to slots.Length
        invariant forall k :: 0 <= k < i ==> slots[k] == AgedSlot(old(slots[k]), d)
        invariant forall k :: i <= k < slots.Length ==> slots[k] == old(slots[k])
      {
        var s := slots[i];
        if s.age >= 0 {
          s := s.(age := s.age + d);
        }
        if s.age > WINDOW {
          s := s.(age := -1, data := []);
        }
        slots[i] := s;
      }
      assert forall k :: 0 <= k < slots.Length ==> slots[..][k] == Aged(old(slots[..]), d)[k];
    }

    method AdmitPacket(h: Header) returns (counts: bool, age: nat)
      requires Valid() && h.Valid()
      modifies this, slots
      ensures Valid() && newPacket == old(newPacket) && latestFlags == old(latestFlags)
      ensures counts ==> Admit(old(State()), h) == Admitted(State(), age)
      ensures !counts ==> Admit(old(State()), h) == Ignored && State() == old(State())
    {
      hide Aged, AgedSlot;
      counts, age := true, 0;
      if NoHistory(history) {
        seqNum := h.seqNum;
        history := history[0 := true];
      } else {
        var d := Distance(h.seqNum, seqNum);
        if d >= WINDOW || -d >= WINDOW || (d < 0 && Has(h.flags, RETRANSMISSION)) {
          counts := false;
        } else if d > 0 {
          history := Shifted(history, d);
          seqNum := h.seqNum;
          AgeSlots(d);
        } else if history[-d] {
          counts := false;
        } else {
          history := history[-d := true];
          age := -d;
        }
      }
    }

    /** The loop that looks for a whole packet among the slots. */
    method CheckComplete() returns (whole: bool)
      requires slots.Length == WINDOW
      ensures whole == Complete(slots[..])
    {
      whole := true;
      var i := 0;
      while i < slots.Length
        invariant 0 <= i <= slots.Length
        invariant RunEnd(slots[..], 0) == RunEnd(slots[..], i)
        invariant whole <==> forall k :: 0 <= k < i ==> InStep(slots[..], k)
      {
        if slots[i].age == -1 || (i > 0 && slots[i].age != slots[i - 1].age - 1) {
          assert !InStep(slots[..], i);
          whole := false;
        }
        if !slots[i].continued {
          assert RunEnd(slots[..], i) == i + 1;
          break;
        }
        i := i + 1;
      }
    }

    /** The loop that writes a whole packet out and empties its slots. */
    method Flush()
      requires Valid()
      modifies slots, latest.Repr()
      ensures Valid()
      ensures var was, n := old(slots[..]), FlushEnd(old(slots[..]), 0, old(slots[0]).age);
              latest.Contents() == Joined(was[..n]) && slots[..] == Cleared(was, n)
    {
      hide Joined, Cleared, FlushEnd, Packet.Contents;
      latest.Reset();
      ghost var was := slots[..];
      JoinedNone(was);
      ClearedNone(was);
      var counter := slots[0].age;
      var i: nat := 0;
      while i < slots.Length && slots[i].age == counter
        invariant i <= slots.Length && Valid() && latest.pos == latest.used
        invariant latest.data == old(latest.data) || fresh(latest.data)
        invariant latest.Contents() == Joined(was[..i]) && slots[..] == Cleared(was, i)
        invariant FlushEnd(was, 0, was[0].age) == FlushEnd(was, i, counter)
      {
        JoinedTurn(was, i);
        ClearedTurn(was, i);
        FlushTurn(was, i, counter);
        TakeSlot(i);
        counter := counter - 1;
        i := i + 1;
      }
      FlushTurn(was, i, counter);
    }

    /** One slot's data goes out; the slot is empty again. */
    method TakeSlot(i: nat)
      requires Valid() && i < slots.Length && latest.pos == latest.used
      modifies slots, latest.Repr()
      ensures Valid() && latest.pos == latest.used && (latest.data == old(latest.data) || fresh(latest.data))
      ensures latest.Contents() == old(latest.Contents()) + old(slots[i]).data
      ensures slots[..] == old(slots[..])[i := old(slots[i]).(data := [], age := -1)]
    {
      hide Overwrite;
      latest.WriteArray(slots[i].data);
      slots[i] := slots[i].(data := [], age := -1);
    }

    method PlaceFragment(h: Header, payload: Bytes, age: nat)
      requires Valid() && h.Valid() && h.fragIndex < WINDOW && newPacket
      modifies `newPacket, slots, latest.Repr()
      ensures Valid() && State() == Place(old(State()), h, payload, age)
    {
      hide RunEnd, FlushEnd, Joined, Cleared, Complete;
      var frag := slots[h.fragIndex];
      if frag.age >= 0 && age > frag.age {
        newPacket := false;
      } else {
        slots[h.fragIndex] := Slot(frag.data + payload, age, Has(h.flags, CONTINUED));
        assert slots[..] == old(slots[..])[h.fragIndex := Slot(frag.data + payload, age, Has(h.flags, CONTINUED))];
        newPacket := CheckComplete();
        if newPacket {
          Flush();
        }
      }
    }

    method AddPacket(p: Packet) returns (ok: bool)
      requires Valid() && p.Valid() && p.used < SIZE_T / 2 && p.Repr() !! Repr()
      modifies Repr(), p`pos
      ensures Valid()
      ensures match ParseHeader(old(p.Contents()[p.pos..]))
                case TooShort => !ok && State() == old(State())
                case Parsed(h) =>
                  Received(State(), ok) == Receive(old(State()), h, old(p.Contents()[p.pos..])[HEADER_SIZE..])
    {
      hide Admit, Place;
      ghost var input := p.Contents()[p.pos..];
      var parsed := ReadHeader(p);
      if parsed.TooShort? || parsed.header.version != 0 {
        return false;
      }
      var h := parsed.header;
      var payload := p.Peek(p.pos, p.used - p.pos);
      assert payload == input[HEADER_SIZE..];
      var counts, age := AdmitPacket(h);
      if !counts {
        return true;
      }
      if Has(h.flags, FINISHED) && seqNum != h.seqNum {
        return false;
      }
      newPacket := true;
      if IsFragment(h) {
        PlaceFragment(h, payload, age);
      } else {
        latest.Reset();
        latest.WriteArray(payload);
      }
      latestFlags := FlagsFor(seqNum, h);
      return true;
    }

    /** getLatestPacket: the newest payload goes to the caller, once. */
    method GetLatestPacket(p: Packet) returns (flags: nat)
      requires Valid() && p.Valid() && p.pos == p.used && p.Repr() !! Repr()
      modifies `newPacket, p.Repr()
      ensures Valid() && p.Valid() && State() == old(State()).(newPacket := false)
      ensures p.Contents() == old(p.Contents()) + latest.Contents() && p.pos == 0 && flags == latestFlags
    {
      p.WriteArray(latest.Peek(0, latest.used));
      p.SeekSet(0);
      newPacket := false;
      flags := latestFlags;
    }
  }
}
