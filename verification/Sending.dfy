/** The sending end of a connection (src/nrg_connection.cpp:181-229): cutting a packet into
    datagrams. */
module Sending {
  import opened Packets
  import opened PacketHeaders

  const MAX_PAYLOAD: nat := MAX_PACKET_SIZE - HEADER_SIZE

  /** The datagrams for what is left of a packet. CONTINUED, once set, is never cleared. */
  function Datagrams(p: Bytes, h: Header): (r: seq<Bytes>)
    requires h.Valid()
    ensures r != []
  {
    if |p| <= MAX_PAYLOAD then [HeaderBytes(h) + p]
    else
      var c := Continued(h);
      [HeaderBytes(c) + p[..MAX_PAYLOAD]] + Datagrams(p[MAX_PAYLOAD..], c.(fragIndex := c.fragIndex + 1))
  }

  function Continued(h: Header): (c: Header)
    requires h.Valid()
    ensures c.Valid() && Has(c.flags, CONTINUED)
  {
    ContinuedFits(h.flags);
    h.(flags := With(h.flags, CONTINUED))
  }

  lemma ContinuedFits(flags: nat)
    requires flags < 256
    ensures With(flags, CONTINUED) < 256 && Has(With(flags, CONTINUED), CONTINUED)
    ensures With(flags, RETRANSMISSION) < 256 && Has(With(flags, RETRANSMISSION), RETRANSMISSION)
  {
  }

  // ---------------------------------------------------------------- what the datagrams are

  /** max(1, ceil(size / 1396)) */
  function Count(size: nat): nat
  {
    if size <= MAX_PAYLOAD then 1 else (size + MAX_PAYLOAD - 1) / MAX_PAYLOAD
  }

  function Payload(datagram: Bytes): Bytes
  {
    if |datagram| < HEADER_SIZE then [] else datagram[HEADER_SIZE..]
  }

  function Payloads(datagrams: seq<Bytes>): Bytes
  {
    if datagrams == [] then [] else Payload(datagrams[0]) + Payloads(datagrams[1..])
  }

  /** The header every datagram of a packet carries, its own index apart. */
  function HeaderOf(size: nat, h: Header, k: nat): (r: Header)
    requires h.Valid()
    ensures r.Valid()
  {
    (if size > MAX_PAYLOAD then Continued(h) else h).(fragIndex := (h.fragIndex + k) % 32)
  }

  lemma LastDatagram(rest: Bytes, h: Header)
    requires h.Valid() && |rest| <= MAX_PAYLOAD
    ensures Datagrams(rest, h) == [HeaderBytes(h) + rest]
  {
    hide HeaderBytes;
  }

  lemma NextDatagram(rest: Bytes, h: Header)
    requires h.Valid() && |rest| > MAX_PAYLOAD
    ensures var c := Continued(h);
            Datagrams(rest, h) ==
              [HeaderBytes(c) + rest[..MAX_PAYLOAD]] + Datagrams(rest[MAX_PAYLOAD..], c.(fragIndex := c.fragIndex + 1))
  {
    hide HeaderBytes, Has, With, Continued;
  }

  lemma PayloadsTurn(first: Bytes, rest: seq<Bytes>)
    ensures Payloads([first] + rest) == Payload(first) + Payloads(rest)
  {
    assert ([first] + rest)[1..] == rest;
  }

  /** As many as are needed, none over the limit, and the packet again when put end to end. */
  lemma {:induction false} DatagramShapes(p: Bytes, h: Header)
    requires h.Valid()
    ensures |Datagrams(p, h)| == Count(|p|)
    ensures Payloads(Datagrams(p, h)) == p
    ensures forall k :: 0 <= k < |Datagrams(p, h)| ==> 4 <= |Datagrams(p, h)[k]| <= 1400
  {
    hide Datagrams, HeaderBytes, Has, With, Continued, Payloads;
    if |p| <= MAX_PAYLOAD {
      LastDatagram(p, h);
      PayloadsTurn(HeaderBytes(h) + p, []);
      assert [HeaderBytes(h) + p] + [] == [HeaderBytes(h) + p];
      assert Payload(HeaderBytes(h) + p) == p;
      NoPayloads();
      assert p + [] == p;
    } else {
      NextDatagram(p, h);
      var c := Continued(h);
      var rest := Datagrams(p[MAX_PAYLOAD..], c.(fragIndex := c.fragIndex + 1));
      DatagramShapes(p[MAX_PAYLOAD..], c.(fragIndex := c.fragIndex + 1));
      PayloadsTurn(HeaderBytes(c) + p[..MAX_PAYLOAD], rest);
      assert Payload(HeaderBytes(c) + p[..MAX_PAYLOAD]) == p[..MAX_PAYLOAD];
      assert p == p[..MAX_PAYLOAD] + p[MAX_PAYLOAD..];
    }
  }

  lemma NoPayloads()
    ensures Payloads([]) == []
  {
  }

  /** Every datagram of a packet carries the same number and, when there are several, CONTINUED:
      the last one too. */
  lemma {:induction false} DatagramHeaders(p: Bytes, h: Header, k: nat)
    requires h.Valid() && k < |Datagrams(p, h)|
    ensures ParseHeader(Datagrams(p, h)[k]) == Parsed(HeaderOf(|p|, h, k))
  {
    hide Has, With;
    if |p| <= MAX_PAYLOAD {
      HeaderRoundTrip(h, p);
    } else {
      var c := Continued(h);
      if k == 0 {
        HeaderRoundTrip(c, p[..MAX_PAYLOAD]);
      } else {
        DatagramHeaders(p[MAX_PAYLOAD..], c.(fragIndex := c.fragIndex + 1), k - 1);
      }
    }
  }

  /** A resend differs from the first sending in the RETRANSMISSION bit of each header only. */
  lemma ResendAlike(p: Bytes, h: Header, k: nat)
    requires h.Valid() && With(h.flags, RETRANSMISSION) < 256 && k < |Datagrams(p, h)|
    ensures var again := Datagrams(p, h.(flags := With(h.flags, RETRANSMISSION)));
            |again| == |Datagrams(p, h)| &&
            Payload(again[k]) == Payload(Datagrams(p, h)[k]) &&
            ParseHeader(again[k]) == Parsed(HeaderOf(|p|, h, k).(flags := With(HeaderOf(|p|, h, k).flags, RETRANSMISSION)))
  {
    hide Datagrams, Has, With, HeaderBytes, ParseHeader, Payload;
    var r := h.(flags := With(h.flags, RETRANSMISSION));
    DatagramShapes(p, h);
    DatagramShapes(p, r);
    DatagramHeaders(p, r, k);
    PayloadsAlike(p, h, r, k);
    BitsCommute(h.flags);
  }

  lemma BitsCommute(flags: nat)
    ensures With(With(flags, RETRANSMISSION), CONTINUED) == With(With(flags, CONTINUED), RETRANSMISSION)
  {
  }

  lemma {:induction false} PayloadsAlike(p: Bytes, g: Header, h: Header, k: nat)
    requires g.Valid() && h.Valid() && k < |Datagrams(p, g)| && k < |Datagrams(p, h)|
    ensures Payload(Datagrams(p, g)[k]) == Payload(Datagrams(p, h)[k])
  {
    hide Has, With, HeaderBytes;
    if |p| <= MAX_PAYLOAD {
      assert Payload(HeaderBytes(g) + p) == p == Payload(HeaderBytes(h) + p);
    } else {
      var c, d := Continued(g), Continued(h);
      if k == 0 {
        assert Payload(HeaderBytes(c) + p[..MAX_PAYLOAD]) == p[..MAX_PAYLOAD] == Payload(HeaderBytes(d) + p[..MAX_PAYLOAD]);
      } else {
        PayloadsAlike(p[MAX_PAYLOAD..], c.(fragIndex := c.fragIndex + 1), d.(fragIndex := d.fragIndex + 1), k - 1);
      }
    }
  }

  // ---------------------------------------------------------------- the class

  /** A UDP socket that takes `credit` more datagrams and then fails. */
  class Socket {
    var sent: seq<Bytes>
    var credit: nat

    constructor (credit: nat)
      ensures sent == [] && this.credit == credit
    {
      sent, this.credit := [], credit;
    }

    method SendPacket(p: Packet) returns (ok: bool)
      requires p.Valid()
      modifies this
      ensures ok == (old(credit) > 0)
      ensures if ok then sent == old(sent) + [p.Contents()] && credit == old(credit) - 1
              else sent == old(sent) && credit == old(credit)
    {
      ok := credit > 0;
      if ok {
        sent := sent + [p.Peek(0, p.used)];
        credit := credit - 1;
      }
    }
  }

  /** The first n of a sequence, or all of it. */
  function UpTo<T>(s: seq<T>, n: nat): (r: seq<T>)
    ensures |r| == if n < |s| then n else |s|
  {
    if n < |s| then s[..n] else s
  }

  class ConnectionOut {
    var seqNum: nat
    const sock: Socket
    const buffer: Packet
    const last: Packet
    var lastHeader: Header
    var lastOk: bool

    ghost function Repr(): set<object>
      reads buffer, last
    {
      {this, sock} + buffer.Repr() + last.Repr()
    }

    ghost predicate Valid()
      reads this, buffer, last
    {
      seqNum < 65536 && lastHeader.Valid() && lastHeader.fragIndex == 0 && buffer.Valid() && last.Valid() &&
      buffer.Repr() !! last.Repr() && last.used < SIZE_T / 2
    }

    constructor (seed: nat, sock: Socket)
      requires seed < 65536
      ensures Valid() && this.sock == sock && fresh(Repr() - {sock}) && seqNum == seed && lastOk
      ensures last.Contents() == []
    {
      this.sock := sock;
      seqNum := seed;
      buffer := new Packet(MAX_PACKET_SIZE);
      last := new Packet(MAX_PACKET_SIZE);
      lastHeader := Header(0, 0, 0, 0);
      lastOk := true;
    }

    /** Header and payload, into the scratch buffer. */
    method FillBuffer(h: Header, v: Bytes)
      requires buffer.Valid() && h.Valid()
      modifies buffer.Repr()
      ensures buffer.Valid() && (buffer.data == old(buffer.data) || fresh(buffer.data))
      ensures buffer.Contents() == HeaderBytes(h) + v
    {
      hide HeaderBytes;
      buffer.Reset();
      WriteHeader(buffer, h);
      assert buffer.Contents() == HeaderBytes(h);
      buffer.WriteArray(v);
    }

    /** One round of the loop. */
    method SendOne(p: Packet, h: Header) returns (ok: bool, next: Header)
      requires p.Valid() && buffer.Valid() && h.Valid() && p.Repr() !! buffer.Repr()
      requires p.used < SIZE_T / 2
      modifies sock, buffer.Repr(), p`pos
      ensures p.Valid() && buffer.Valid() && (buffer.data == old(buffer.data) || fresh(buffer.data))
      ensures p.Contents() == old(p.Contents()) && ok == (old(sock.credit) > 0)
      ensures next.Valid() && p.pos >= old(p.pos)
      ensures var all := Datagrams(old(p.Contents()[p.pos..]), h);
              ok ==> if p.pos < p.used
                     then |all| > 1 && p.pos > old(p.pos) && all[1..] == Datagrams(p.Contents()[p.pos..], next)
                     else |all| == 1
      ensures var rest := old(p.Contents()[p.pos..]);
              var all := Datagrams(rest, h);
              if ok
              then sock.sent == old(sock.sent) + [all[0]] && sock.credit == old(sock.credit) - 1
              else sock.sent == old(sock.sent) && sock.credit == old(sock.credit) && p.pos == old(p.pos)
    {
      hide Datagrams, HeaderBytes, Has, With, Continued;
      next := h;
      ghost var rest := p.Contents()[p.pos..];
      if |rest| <= MAX_PAYLOAD {
        LastDatagram(rest, h);
      } else {
        NextDatagram(rest, h);
      }
      var n := if p.used - p.pos < MAX_PAYLOAD then p.used - p.pos else MAX_PAYLOAD;
      if p.used - p.pos > MAX_PAYLOAD {
        next := Continued(next);
      }
      var v := p.Peek(p.pos, n);
      assert v == rest[..n];
      FillBuffer(next, v);
      ok := sock.SendPacket(buffer);
      if ok {
        p.SeekSet(p.pos + n);
        next := next.(fragIndex := next.fragIndex + 1);
        assert p.Contents()[p.pos..] == rest[n..];
      }
    }

    method SendPacketWithHeader(p: Packet, h: Header)
      requires buffer.Valid() && p.Valid() && h.Valid() && p.Repr() !! buffer.Repr() && p.used < SIZE_T / 2
      modifies `lastOk, sock, buffer.Repr(), p`pos
      ensures buffer.Valid() && p.Valid() && p.Contents() == old(p.Contents())
      ensures buffer.data == old(buffer.data) || fresh(buffer.data)
      ensures var all := Datagrams(old(p.Contents()[p.pos..]), h);
              sock.sent == old(sock.sent) + UpTo(all, old(sock.credit)) && lastOk == (|all| <= old(sock.credit))
    {
      hide Datagrams;
      var header := h;
      var ok: bool;
      ghost var all := Datagrams(p.Contents()[p.pos..], h);
      ghost var done: nat := 0;
      var more := true;
      while more
        invariant p.Valid() && buffer.Valid() && header.Valid() && p.Contents() == old(p.Contents())
        invariant buffer.data == old(buffer.data) || fresh(buffer.data)
        invariant done <= |all| && sock.credit + done == old(sock.credit)
        invariant sock.sent == old(sock.sent) + all[..done]
        invariant more ==> Datagrams(p.Contents()[p.pos..], header) == all[done..]
        invariant !more ==> done == |all|
        decreases p.used - p.pos, more
      {
        ok, header := SendOne(p, header);
        if !ok {
          lastOk := false;
          return;
        }
        assert all[..done] + [all[done..][0]] == all[..done + 1];
        assert all[done..][1..] == all[done + 1..];
        done := done + 1;
        more := p.used - p.pos > 0;
      }
      lastOk := true;
    }

    method SendPacket(p: Packet, flags: nat) returns (ok: bool)
      requires Valid() && p.Valid() && flags < 256 && p.Repr() !! Repr() && p.used < SIZE_T / 2
      modifies Repr(), p`pos
      ensures Valid() && p.Valid() && p.Contents() == old(p.Contents()) && p.pos == old(p.pos)
      ensures seqNum == (old(seqNum) + 1) % 65536 && last.Contents() == p.Contents()
      ensures lastHeader == Header(old(seqNum), Without(flags, OUT_OF_ORDER), 0, 0)
      ensures sock.sent == old(sock.sent) + UpTo(Datagrams(p.Contents(), lastHeader), old(sock.credit))
      ensures ok == lastOk == (|Datagrams(p.Contents(), lastHeader)| <= old(sock.credit))
    {
      hide Datagrams, Without;
      var o := p.pos;
      p.SeekSet(0);
      var v := p.Peek(0, p.used);
      last.Reset();
      last.WriteArray(v);
      lastHeader := Header(seqNum, Without(flags, OUT_OF_ORDER), 0, 0);
      seqNum := (seqNum + 1) % 65536;
      assert p.Contents()[0..] == p.Contents();
      SendPacketWithHeader(p, lastHeader);
      p.SeekSet(o);
      ok := lastOk;
    }

    method ResendLastPacket() returns (ok: bool)
      requires Valid()
      modifies `lastOk, sock, buffer.Repr(), last`pos
      ensures Valid() && last.Contents() == old(last.Contents())
      ensures With(lastHeader.flags, RETRANSMISSION) < 256
      ensures var all := Datagrams(last.Contents(), lastHeader.(flags := With(lastHeader.flags, RETRANSMISSION)));
              sock.sent == old(sock.sent) + UpTo(all, old(sock.credit)) && ok == lastOk == (|all| <= old(sock.credit))
    {
      hide Datagrams, With;
      ContinuedFits(lastHeader.flags);
      var h := lastHeader.(flags := With(lastHeader.flags, RETRANSMISSION));
      last.SeekSet(0);
      assert last.Contents()[0..] == last.Contents();
      SendPacketWithHeader(last, h);
      ok := lastOk;
    }

    method SendDisconnect(p: Packet) returns (ok: bool)
      requires Valid() && p.Valid() && p.Repr() !! Repr() && p.used < SIZE_T / 2
      modifies Repr(), p`pos
      ensures Valid() && p.Valid() && p.Contents() == old(p.Contents()) && p.pos == old(p.pos)
      ensures seqNum == (old(seqNum) + 1) % 65536 && last.Contents() == p.Contents()
      ensures lastHeader == Header(old(seqNum), FINISHED, 0, 0)
      ensures sock.sent == old(sock.sent) + UpTo(Datagrams(p.Contents(), lastHeader), old(sock.credit))
      ensures ok == lastOk == (|Datagrams(p.Contents(), lastHeader)| <= old(sock.credit))
    {
      hide Datagrams;
      var o := p.pos;
      p.SeekSet(0);
      var v := p.Peek(p.pos, p.used - p.pos);
      assert v == p.Contents();
      last.Reset();
      last.WriteArray(v);
      lastHeader := Header(seqNum, FINISHED, 0, 0);
      seqNum := (seqNum + 1) % 65536;
      last.SeekSet(0);
      assert last.Contents()[0..] == last.Contents();
      SendPacketWithHeader(last, lastHeader);
      p.SeekSet(o);
      ok := lastOk;
    }
  }
}
