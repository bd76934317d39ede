/** What becomes of a packet's flags on their way from one end of a connection to the other
    (src/nrg_connection.cpp:156-157 and 181-229). */
module Flags {
  import opened Divisions
  import opened Packets
  import opened PacketHeaders
  import opened Connections
  import opened ConnectionRuns
  import opened Sending

  /** One of the eight bits of a flags byte. */
  predicate SingleBit(bit: nat): (single: bool)
    ensures single ==> bit > 0
  {
    bit == 1 || bit == 2 || bit == 4 || bit == 8 || bit == 16 || bit == 32 || bit == 64 || bit == 128
  }

  /** Adding a bit that is not set carries into no other. */
  lemma AddBit(flags: nat, bit: nat, other: nat)
    requires SingleBit(bit) && SingleBit(other) && !Has(flags, bit)
    ensures Has(flags + bit, other) <==> Has(flags, other) || other == bit
  {
    hide SingleBit, Has;
    BitsDivide(bit, other);
    if bit > other {
      AboveStays(flags, other, bit / other);
    } else if bit < other {
      BelowStays(flags, bit, other / bit / 2);
    } else {
      Toggles(flags, bit);
    }
  }

  lemma Toggles(flags: nat, bit: nat)
    requires bit > 0
    ensures Has(flags + bit, bit) <==> !Has(flags, bit)
  {
    DivAdd(flags, bit, 1);
  }

  lemma AboveStays(flags: nat, other: nat, k: nat)
    requires other > 0 && k % 2 == 0
    ensures Has(flags + other * k, other) <==> Has(flags, other)
  {
    DivAdd(flags, other, k);
  }

  lemma BelowStays(flags: nat, bit: nat, m: nat)
    requires bit > 0 && m > 0 && !Has(flags, bit)
    ensures bit * (2 * m) > 0
    ensures Has(flags + bit, bit * (2 * m)) <==> Has(flags, bit * (2 * m))
  {
    NoCarry(flags, bit, m);
  }

  lemma NoCarry(flags: nat, bit: nat, m: nat)
    requires bit > 0 && m > 0 && !Has(flags, bit)
    ensures bit * (2 * m) > 0 && (flags + bit) / (bit * (2 * m)) == flags / (bit * (2 * m))
  {
    DivAdd(flags, bit, 1);
    DivDiv(flags, bit, 2 * m);
    DivDiv(flags + bit, bit, 2 * m);
    HalfEven(flags / bit, m);
  }

  lemma HalfEven(q: nat, m: nat)
    requires q % 2 == 0 && m > 0
    ensures (q + 1) / (2 * m) == q / (2 * m)
  {
    DivDiv(q, 2, m);
    DivDiv(q + 1, 2, m);
    assert (q + 1) / 2 == q / 2;
  }

  lemma BitsDivide(bit: nat, other: nat)
    requires SingleBit(bit) && SingleBit(other)
    ensures bit > 0 && other > 0
    ensures bit > other ==> bit / other % 2 == 0 && other * (bit / other) == bit
    ensures bit < other ==> other / bit / 2 > 0 && bit * (2 * (other / bit / 2)) == other
  {
  }

  /** Setting a bit sets that bit and no other. */
  lemma WithIff(flags: nat, bit: nat, other: nat)
    requires SingleBit(bit) && SingleBit(other)
    ensures Has(With(flags, bit), other) <==> Has(flags, other) || other == bit
  {
    hide Has, SingleBit;
    if !Has(flags, bit) {
      AddBit(flags, bit, other);
    }
  }

  /** Clearing a bit clears that bit and no other. */
  lemma WithoutIff(flags: nat, bit: nat, other: nat)
    requires SingleBit(bit) && SingleBit(other)
    ensures Has(Without(flags, bit), other) <==> Has(flags, other) && other != bit
  {
    hide Has, SingleBit;
    if Has(flags, bit) {
      TakeBit(flags, bit);
      AddBit(flags - bit, bit, other);
    }
  }

  lemma BitBound(flags: nat, bit: nat)
    requires bit > 0 && Has(flags, bit)
    ensures flags >= bit
  {
    if flags < bit {
      DivIs(flags, bit, 0, flags);
    }
  }

  lemma TakeBit(flags: nat, bit: nat)
    requires SingleBit(bit) && Has(flags, bit)
    ensures flags >= bit && !Has(flags - bit, bit)
  {
    hide SingleBit, Has;
    BitBound(flags, bit);
    Toggles(flags - bit, bit);
  }

  /** The datagram counts: the window admits it and it is not refused. */
  predicate Accepted(c: Receiver, h: Header, payload: Bytes)
    requires c.Valid() && h.Valid() && h.fragIndex < WINDOW
  {
    h.version == 0 && Admit(c, h).Admitted? && Receive(c, h, payload).ok
  }

  /** Every bit of an accepted datagram comes through as it is in the header. Only OUT_OF_ORDER may
      be raised on the way, and it is exactly when the newest raw number is the larger one. */
  lemma FlagsArriveIff(c: Receiver, h: Header, payload: Bytes, bit: nat)
    requires c.Valid() && h.Valid() && h.fragIndex < WINDOW && SingleBit(bit) && Accepted(c, h, payload)
    ensures var r := Receive(c, h, payload).conn;
            Has(r.latestFlags, bit) <==> Has(h.flags, bit) || (bit == OUT_OF_ORDER && r.seqNum > h.seqNum)
  {
    hide Admit, Place, With, Has, FlagsFor;
    var seqNum := Admit(c, h).conn.seqNum;
    assert Receive(c, h, payload).conn.latestFlags == FlagsFor(seqNum, h);
    assert Receive(c, h, payload).conn.seqNum == seqNum;
    RaisedIff(seqNum, h, bit);
  }

  lemma RaisedIff(seqNum: nat, h: Header, bit: nat)
    requires h.Valid() && SingleBit(bit)
    ensures Has(FlagsFor(seqNum, h), bit) <==> Has(h.flags, bit) || (bit == OUT_OF_ORDER && seqNum > h.seqNum)
  {
    hide With, Has, SingleBit;
    assert SingleBit(OUT_OF_ORDER) by { BitsAreSingle(); }
    WithIff(h.flags, OUT_OF_ORDER, bit);
  }

  lemma BitsAreSingle()
    ensures SingleBit(OUT_OF_ORDER) && SingleBit(CONTINUED) && SingleBit(FINISHED) && SingleBit(RETRANSMISSION)
  {
  }

  /** A datagram that does not count leaves the flags of the last one that did. */
  lemma FlagsStay(c: Receiver, h: Header, payload: Bytes)
    requires c.Valid() && h.Valid() && h.fragIndex < WINDOW && !Accepted(c, h, payload)
    ensures Receive(c, h, payload).conn.latestFlags == c.latestFlags
  {
    hide Place;
  }

  /** A datagram is refused exactly if it is of another version, or claims the end of the stream
      although the ideal filter has seen a newer number. */
  lemma RefusedIff(c: Receiver, log: Log, a: Arrival)
    requires Tracks(c, log) && a.Valid() && Faithful(log, a.number)
    ensures !Receive(c, a.header, a.payload).ok <==>
            a.header.version != 0 ||
            (Has(a.header.flags, FINISHED) && Wanted(log, a.number, a.header.flags) &&
             a.number != NewestAfter(log, a.number))
    ensures a.header.version != 0 ==> Receive(c, a.header, a.payload).conn == c
  {
    hide Wanted, Has, Place;
    if a.header.version == 0 {
      AdmitsWanted(c, log, a);
      if Admit(c, a.header).Admitted? {
        AdmissionSeqNum(c, log, a);
      }
    }
  }

  // ---------------------------------------------------------------- from end to end

  /** The flags a packet is given are those it arrives with: each of its datagrams, accepted by
      whatever connection, has every bit but two if and only if the sender's header has it. CONTINUED
      is on all datagrams of a split packet, OUT_OF_ORDER on those that come late. */
  lemma {:induction false} FlagsTravel(p: Bytes, h: Header, k: nat, c: Receiver, bit: nat)
    requires h.Valid() && h.version == 0 && k < |Datagrams(p, h)| && c.Valid() && SingleBit(bit)
    requires var d := ParseHeader(Datagrams(p, h)[k]);
             d.Parsed? && Accepted(c, d.header, Payload(Datagrams(p, h)[k]))
    ensures var r := Receive(c, ParseHeader(Datagrams(p, h)[k]).header, Payload(Datagrams(p, h)[k])).conn;
            Has(r.latestFlags, bit) <==>
            Has(h.flags, bit) || (bit == CONTINUED && |p| > MAX_PAYLOAD) ||
            (bit == OUT_OF_ORDER && r.seqNum > h.seqNum)
  {
    hide Receive, Accepted, Datagrams, ParseHeader, Payload, Has, With, SingleBit;
    DatagramHeaders(p, h, k);
    FlagsArriveIff(c, HeaderOf(|p|, h, k), Payload(Datagrams(p, h)[k]), bit);
    BitsAreSingle();
    WithIff(h.flags, CONTINUED, bit);
  }

  /** SendPacket: whatever the caller put on a packet, and no OUT_OF_ORDER of its own. */
  lemma SentFlagsTravel(p: Bytes, seqNum: nat, flags: nat, k: nat, c: Receiver, bit: nat)
    requires seqNum < SEQ_SPACE && flags < 256 && c.Valid() && SingleBit(bit)
    requires var all := Datagrams(p, Header(seqNum, Without(flags, OUT_OF_ORDER), 0, 0));
             k < |all| && ParseHeader(all[k]).Parsed? && Accepted(c, ParseHeader(all[k]).header, Payload(all[k]))
    ensures var all := Datagrams(p, Header(seqNum, Without(flags, OUT_OF_ORDER), 0, 0));
            var r := Receive(c, ParseHeader(all[k]).header, Payload(all[k])).conn;
            Has(r.latestFlags, bit) <==>
            if bit == OUT_OF_ORDER then r.seqNum > seqNum
            else Has(flags, bit) || (bit == CONTINUED && |p| > MAX_PAYLOAD)
  {
    hide Receive, Accepted, Datagrams, ParseHeader, Payload, Has, With, Without, SingleBit;
    BitsAreSingle();
    WithoutIff(flags, OUT_OF_ORDER, bit);
    FlagsTravel(p, Header(seqNum, Without(flags, OUT_OF_ORDER), 0, 0), k, c, bit);
  }

  /** ResendLastPacket: the same flags again, and RETRANSMISSION. */
  lemma ResentFlagsTravel(p: Bytes, h: Header, k: nat, c: Receiver, bit: nat)
    requires h.Valid() && h.version == 0 && With(h.flags, RETRANSMISSION) < 256 && c.Valid() && SingleBit(bit)
    requires var all := Datagrams(p, h.(flags := With(h.flags, RETRANSMISSION)));
             k < |all| && ParseHeader(all[k]).Parsed? && Accepted(c, ParseHeader(all[k]).header, Payload(all[k]))
    ensures var all := Datagrams(p, h.(flags := With(h.flags, RETRANSMISSION)));
            var r := Receive(c, ParseHeader(all[k]).header, Payload(all[k])).conn;
            Has(r.latestFlags, bit) <==>
            Has(h.flags, bit) || bit == RETRANSMISSION || (bit == CONTINUED && |p| > MAX_PAYLOAD) ||
            (bit == OUT_OF_ORDER && r.seqNum > h.seqNum)
  {
    hide Receive, Accepted, Datagrams, ParseHeader, Payload, Has, With, SingleBit;
    BitsAreSingle();
    WithIff(h.flags, RETRANSMISSION, bit);
    FlagsTravel(p, h.(flags := With(h.flags, RETRANSMISSION)), k, c, bit);
  }
}
