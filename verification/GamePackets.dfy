/** What stands in front of the snapshot in a packet to a client, and what a client answers it with: the
    tick it has read is named by the sixteen bits the server put there (src/nrg_serverstate.cpp:212-222,
    279-280, src/nrg_clientstate.cpp:195-228, 262-268). */
module GamePackets {
  import opened Packets
  import opened Varints
  import opened Codecs

  // ---------------------------------------------------------------- to the client

  /** The tick's id, the packet's sequence number and the ping. */
  function UpdateHeader(id: nat, seqNum: nat, ping: nat): (s: Bytes)
    requires seqNum < 256
    ensures |s| > 3
  {
    BigEndian(2, id) + [seqNum] + Enc(ping)
  }

  /** NRG_CGS_HEADER_SIZE */
  const MIN_UPDATE_LEN: nat := 4

  datatype HeaderRead =
    | HeaderRead(serverMs: nat, serverSeq: nat, ping: nat, next: nat)
    | HeaderTooShort
    | HeaderUndefined

  /** What the client reads in front of the snapshot. */
  function ReadUpdateHeader(buf: Bytes): (r: HeaderRead)
    ensures r.HeaderTooShort? <==> |buf| < 4
    ensures r.HeaderRead? ==> r.serverMs < 65536 && r.serverSeq < 256 && 3 <= r.next <= |buf|
  {
    if |buf| < MIN_UPDATE_LEN then HeaderTooShort
    else
      TwoBytes();
      match Decode(64, buf, 3)
      case Overflow => HeaderUndefined
      case Decoded(v, next, _) => HeaderRead(FromBigEndian(buf[..2]), buf[2], v, next)
  }

  lemma TwoBytes()
    ensures Pow256(2) == 65536
  {
  }

  lemma HeaderParts(id: nat, seqNum: nat, ping: nat, tail: Bytes)
    requires id < 65536 && seqNum < 256
    ensures var buf := UpdateHeader(id, seqNum, ping) + tail;
            && FromBigEndian(buf[..2]) == id && buf[2] == seqNum
            && buf == BigEndian(2, id) + [seqNum] + Enc(ping) + tail && |BigEndian(2, id) + [seqNum]| == 3
  {
    hide BigEndian, FromBigEndian, Enc;
    TwoBytes();
    BigEndianRoundTrip(2, id);
    assert (UpdateHeader(id, seqNum, ping) + tail)[..2] == BigEndian(2, id);
  }

  /** The client reads the tick, the sequence number and the ping that were sent, and stops where the
      snapshot starts, if and only if the ping is below 2^31; a greater one shifts out of `int`. */
  lemma HeaderReadsBackIff(id: nat, seqNum: nat, ping: nat, tail: Bytes)
    requires id < 65536 && seqNum < 256 && ping < Pow2(64)
    ensures var head := UpdateHeader(id, seqNum, ping);
            ReadUpdateHeader(head + tail) == HeaderRead(id, seqNum, ping, |head|) <==> ping < 0x8000_0000
    ensures ping >= 0x8000_0000 ==> ReadUpdateHeader(UpdateHeader(id, seqNum, ping) + tail).HeaderUndefined?
  {
    hide BigEndian, FromBigEndian, Enc, Decode, Pow2;
    HeaderParts(id, seqNum, ping, tail);
    RoundTrip(64, BigEndian(2, id) + [seqNum], ping, tail);
  }

  // ---------------------------------------------------------------- and back

  /** server_ms_prev and the time since. */
  function AckBytes(serverMs: nat, since: nat): (s: Bytes)
    ensures |s| >= 3
  {
    BigEndian(2, serverMs) + Enc(since)
  }

  const MIN_PACKET_LEN: nat := 3

  datatype AckRead = AckRead(ackTime: nat, cTime: nat, next: nat) | AckTooShort

  /** What the server reads in front of the player's input. */
  function ReadAck(buf: Bytes, at: nat): (r: AckRead)
    requires at <= |buf|
    ensures r.AckRead? <==> |buf| - at >= 3
    ensures r.AckRead? ==> r.ackTime < 65536 && r.cTime < 65536 && at <= r.next <= |buf|
  {
    if |buf| - at < MIN_PACKET_LEN then AckTooShort
    else
      TwoBytes();
      NeverOverflows(buf, at + 2);
      var ackTime, d := FromBigEndian(buf[at..at + 2]), Decode(16, buf, at + 2);
      AckRead(ackTime, (ackTime + d.value) % 65536, d.next)
  }

  lemma {:induction false} NeverOverflowsFrom(buf: Bytes, pos: nat, i: nat, acc: nat)
    requires pos <= |buf|
    ensures DecodeFrom(16, buf, pos, i, acc).Decoded?
    decreases MaxBytes(16) - i
  {
    if i < MaxBytes(16) && pos < |buf| {
      ShiftDefinedIff(i, buf[pos] % 128);
      NeverOverflowsFrom(buf, pos + 1, i + 1, (acc + buf[pos] % 128 * Pow128(i)) % Pow2(16));
    }
  }

  /** Sixteen bits take at most three groups, whose shifts are defined. */
  lemma NeverOverflows(buf: Bytes, pos: nat)
    requires pos <= |buf|
    ensures Decode(16, buf, pos).Decoded?
  {
    NeverOverflowsFrom(buf, pos, 0, 0);
  }

  lemma Pow2Of16()
    ensures Pow2(16) == 65536
  {
    assert Pow2(8) == 256;
    assert Pow2(16) == 2 * Pow2(15) == 4 * Pow2(14) == 8 * Pow2(13) == 16 * Pow2(12);
    assert Pow2(12) == 2 * Pow2(11) == 4 * Pow2(10) == 8 * Pow2(9) == 16 * Pow2(8);
  }

  /** The server reads the tick that the client named and, modulo the sixteen bits of its clock, the
      client's time; the input follows. */
  lemma AckReadsBack(pre: Bytes, serverMs: nat, since: nat, tail: Bytes)
    requires serverMs < 65536 && since < 65536
    ensures var ack := AckBytes(serverMs, since);
            ReadAck(pre + ack + tail, |pre|) == AckRead(serverMs, (serverMs + since) % 65536, |pre| + |ack|)
  {
    hide BigEndian, FromBigEndian, Enc, Decode, Pow2;
    TwoBytes();
    Pow2Of16();
    BigEndianRoundTrip(2, serverMs);
    var buf, head := pre + AckBytes(serverMs, since) + tail, pre + BigEndian(2, serverMs);
    assert buf[|pre|..|pre| + 2] == BigEndian(2, serverMs);
    assert buf == head + Enc(since) + tail;
    DecodeEnc(16, head, since, tail);
  }

  /** A client that has read a packet of tick `id` names exactly that tick to the server, whatever it
      was that followed in either packet. */
  lemma AckNamesTick(id: nat, seqNum: nat, ping: nat, snapshot: Bytes, since: nat, input: Bytes)
    requires id < 65536 && seqNum < 256 && ping < 0x8000_0000 && since < 65536
    ensures ReadUpdateHeader(UpdateHeader(id, seqNum, ping) + snapshot).HeaderRead?
    ensures var heard := ReadUpdateHeader(UpdateHeader(id, seqNum, ping) + snapshot);
            ReadAck(AckBytes(heard.serverMs, since) + input, 0) ==
              AckRead(id, (id + since) % 65536, |AckBytes(id, since)|)
  {
    hide ReadUpdateHeader, ReadAck, AckBytes, UpdateHeader, Pow2;
    Below64();
    HeaderReadsBackIff(id, seqNum, ping, snapshot);
    AckReadsBack([], id, since, input);
    assert [] + AckBytes(id, since) + input == AckBytes(id, since) + input;
  }
}
