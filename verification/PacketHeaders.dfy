/** The four bytes in front of every datagram (include/nrg_packet_header.h) and the packet flags
    (include/nrg_connection.h:38-52). */
module PacketHeaders {
  import opened Packets

  const HEADER_SIZE: nat := 4

  const OUT_OF_ORDER: nat := 0x01
  const CONTINUED: nat := 0x02
  const FINISHED: nat := 0x04
  const RETRANSMISSION: nat := 0x08

  /** flags & bit, for a single bit. */
  predicate Has(flags: nat, bit: nat)
    requires bit > 0
  {
    flags / bit % 2 == 1
  }

  /** flags | bit */
  function With(flags: nat, bit: nat): (r: nat)
    requires bit > 0
    ensures Has(flags, bit) ==> r == flags
  {
    if Has(flags, bit) then flags else flags + bit
  }

  /** flags & ~bit */
  function Without(flags: nat, bit: nat): (r: nat)
    requires bit > 0
    ensures r <= flags
  {
    if Has(flags, bit) then flags - bit else flags
  }

  datatype Header = Header(seqNum: nat, flags: nat, version: nat, fragIndex: nat)
  {
    predicate Valid()
    {
      seqNum < 65536 && flags < 256 && version < 2
    }
  }

  /** write: the fragment index keeps its low five bits, the version its lowest. */
  function HeaderBytes(h: Header): (s: Bytes)
    requires h.Valid()
    ensures |s| == HEADER_SIZE
  {
    [h.version * 128 + h.fragIndex % 32, h.flags] + BigEndian(2, h.seqNum)
  }

  datatype Parsed = Parsed(header: Header) | TooShort

  /** read */
  function ParseHeader(s: Bytes): (r: Parsed)
    ensures r.Parsed? <==> |s| >= HEADER_SIZE
    ensures r.Parsed? ==> r.header.Valid() && r.header.fragIndex < 32
  {
    if |s| < HEADER_SIZE then TooShort
    else
      assert Pow256(2) == 65536;
      Parsed(Header(FromBigEndian(s[2..4]), s[1], s[0] / 128, s[0] % 32))
  }

  /** A header survives the wire exactly when its fragment index fits five bits. */
  lemma HeaderRoundTrip(h: Header, tail: Bytes)
    requires h.Valid()
    ensures h.fragIndex < 32 <==> ParseHeader(HeaderBytes(h) + tail) == Parsed(h)
    ensures ParseHeader(HeaderBytes(h) + tail) == Parsed(h.(fragIndex := h.fragIndex % 32))
  {
    assert Pow256(2) == 65536;
    BigEndianRoundTrip(2, h.seqNum);
    var s := HeaderBytes(h) + tail;
    assert s[2..4] == BigEndian(2, h.seqNum);
  }

  method WriteHeader(p: Packet, h: Header)
    requires p.Valid() && p.pos == p.used && h.Valid()
    modifies p.Repr()
    ensures p.Valid() && p.pos == p.used && (p.data == old(p.data) || fresh(p.data))
    ensures p.Contents() == old(p.Contents()) + HeaderBytes(h)
  {
    p.Write8(h.version * 128 + h.fragIndex % 32);
    p.Write8(h.flags);
    p.WriteBE(2, h.seqNum);
  }

  method ReadHeader(p: Packet) returns (r: Parsed)
    requires p.Valid() && p.used < SIZE_T / 2
    modifies p`pos
    ensures p.Valid() && p.Contents() == old(p.Contents())
    ensures r == ParseHeader(old(p.Contents())[old(p.pos)..])
    ensures p.pos == if r.Parsed? then old(p.pos) + HEADER_SIZE else old(p.pos)
  {
    if p.used - p.pos < HEADER_SIZE {
      return TooShort;
    }
    ghost var rest := p.Contents()[p.pos..];
    var verIdx := p.Read8(0);
    var flags := p.Read8(0);
    ghost var at := p.pos;
    var seqNum := p.ReadBE(2);
    assert rest[2..4] == p.Contents()[at..at + 2];
    assert Pow256(2) == 65536;
    r := Parsed(Header(seqNum, flags, verIdx / 128, verIdx % 32));
  }
}
