/** Byte strings in network order, and the growing cursor buffer that every codec writes to
    and reads from (src/nrg_packet.cpp, include/nrg_packet.h). */
module Packets {
  import opened Divisions

  type byte = b: int | 0 <= b < 256
  type Bytes = seq<byte>

  const MAX_PACKET_SIZE: nat := 1400

  /** Bytes written by the widest scalar; a buffer never starts smaller than this. */
  const MIN_CAPACITY: nat := 8

  // ---------------------------------------------------------------- network byte order

  function Pow256(n: nat): (r: nat)
    ensures r >= 1
  {
    if n == 0 then 1 else 256 * Pow256(n - 1)
  }

  function BigEndian(n: nat, v: nat): (s: Bytes)
    ensures |s| == n
  {
    if n == 0 then [] else BigEndian(n - 1, v / 256) + [v % 256]
  }

  function FromBigEndian(s: Bytes): (v: nat)
    ensures v < Pow256(|s|)
  {
    if s == [] then 0 else 256 * FromBigEndian(s[..|s| - 1]) + s[|s| - 1]
  }

  lemma {:induction false} BigEndianRoundTrip(n: nat, v: nat)
    requires v < Pow256(n)
    ensures FromBigEndian(BigEndian(n, v)) == v
  {
    if n > 0 {
      BigEndianRoundTrip(n - 1, v / 256);
      assert BigEndian(n, v)[..n - 1] == BigEndian(n - 1, v / 256);
    }
  }

  lemma {:induction false} BigEndianSurjective(s: Bytes)
    ensures BigEndian(|s|, FromBigEndian(s)) == s
  {
    if s != [] {
      BigEndianSurjective(s[..|s| - 1]);
      assert s == s[..|s| - 1] + [s[|s| - 1]];
    }
  }

  /** Byte i is the digit of weight 256^(n - 1 - i): the most significant comes first. */
  lemma {:induction false} MostSignificantFirst(n: nat, v: nat, i: nat)
    requires i < n
    ensures BigEndian(n, v)[i] == v / Pow256(n - 1 - i) % 256
  {
    if i < n - 1 {
      MostSignificantFirst(n - 1, v / 256, i);
      DivDiv(v, 256, Pow256(n - 2 - i));
    }
  }

  // ---------------------------------------------------------------- the read guard

  const SIZE_T: nat := 0x1_0000_0000_0000_0000

  /** The test every read makes, in the unsigned arithmetic of `size_t`. */
  predicate ReadGuard(pos: nat, used: nat, n: nat)
  {
    pos <= (used - n) % SIZE_T
  }

  /** The guard means "n bytes remain" exactly when the packet holds at least n bytes in all;
      on a shorter packet the subtraction wraps and lets the read through. */
  lemma ReadGuardExact(pos: nat, used: nat, n: nat)
    requires pos <= used < SIZE_T / 2 && 0 < n < SIZE_T / 2
    ensures (ReadGuard(pos, used, n) <==> pos + n <= used) <==> n <= used
  {
    if n <= used {
      assert (used - n) % SIZE_T == used - n;
    } else {
      assert (used - n) % SIZE_T == used - n + SIZE_T;
    }
  }

  // ---------------------------------------------------------------- the buffer

  /** What a write of v at a cursor leaves in the used part of the buffer. */
  function Overwrite(s: Bytes, at: nat, v: Bytes): (r: Bytes)
    requires at <= |s|
    ensures |r| == if at + |v| <= |s| then |s| else at + |v|
  {
    s[..at] + v + if at + |v| <= |s| then s[at + |v|..] else []
  }

  /** Byte by byte: the write's own bytes where it landed, the old ones elsewhere. */
  lemma OverwriteBytes(s: Bytes, at: nat, v: Bytes, after: Bytes)
    requires at <= |s| && |after| == |Overwrite(s, at, v)|
    requires forall k :: 0 <= k < |after| ==> after[k] == if at <= k < at + |v| then v[k - at] else s[k]
    ensures after == Overwrite(s, at, v)
  {
    forall k | 0 <= k < |after|
      ensures after[k] == Overwrite(s, at, v)[k]
    {
      if k < at {
        assert (s[..at] + v)[k] == s[k];
      } else if k < at + |v| {
        assert (s[..at] + v)[k] == v[k - at];
      } else {
        assert s[at + |v|..][k - at - |v|] == s[k];
      }
    }
  }

  /** Where a seek lands: clamped to the used part. */
  function Clamp(offset: int, used: nat): (r: nat)
    ensures r <= used
  {
    if offset < 0 then 0 else if offset > used then used else offset
  }

  /** That is the place in the packet next to where the seek aims: no other lies between the two. */
  lemma ClampNext(offset: int, used: nat, k: nat)
    requires k <= used
    ensures k <= offset ==> k <= Clamp(offset, used) <= offset
    ensures offset <= k ==> offset <= Clamp(offset, used) <= k
  {
  }

  const SEEK_SET: nat := 0
  const SEEK_CUR: nat := 1
  const SEEK_END: nat := 2

  /** Where a seek aims: from the start, from the cursor, backwards from the end; any other origin
      leaves the cursor where it is. */
  function SeekTarget(offset: int, whence: nat, pos: nat, used: nat): int
  {
    if whence == SEEK_CUR then pos + offset
    else if whence == SEEK_SET then offset
    else if whence == SEEK_END then used - offset
    else pos
  }

  class Packet {
    var data: array<byte>
    var pos: nat
    var used: nat

    ghost function Repr(): set<object>
      reads this
    {
      {this, data}
    }

    ghost predicate Valid()
      reads this
    {
      MIN_CAPACITY <= data.Length && pos <= used <= data.Length
    }

    ghost function Contents(): (s: Bytes)
      requires Valid()
      reads this, data
      ensures |s| == used
    {
      data[..used]
    }

    /** Bytes at an offset from the base pointer, whatever the cursor. */
    function Peek(offset: nat, size: nat): (v: Bytes)
      requires Valid() && offset + size <= used
      reads this, data
      ensures v == Contents()[offset..offset + size]
    {
      data[offset..offset + size]
    }

    constructor (capacity: nat)
      requires MIN_CAPACITY <= capacity
      ensures Valid() && fresh(data) && Contents() == [] && pos == 0
    {
      data := new byte[capacity];
      pos, used := 0, 0;
    }

    method Reset()
      requires Valid()
      modifies this
      ensures Valid() && data == old(data)
      ensures Contents() == [] && pos == 0
    {
      used := 0;
      pos := 0;
    }

    /** Doubles the capacity, keeping every byte and the cursor. */
    method Resize()
      requires Valid()
      modifies this
      ensures Valid() && fresh(data) && data.Length == 2 * old(data.Length)
      ensures Contents() == old(Contents()) && pos == old(pos) && used == old(used)
    {
      var grown := new byte[data.Length * 2];
      forall i | 0 <= i < data.Length {
        grown[i] := data[i];
      }
      data := grown;
    }

    method WriteArray(v: Bytes)
      requires Valid()
      modifies Repr()
      ensures Valid() && (data == old(data) || fresh(data))
      ensures Contents() == Overwrite(old(Contents()), old(pos), v) && pos == old(pos) + |v|
      ensures old(pos) == old(used) ==> Contents() == old(Contents()) + v && pos == used
    {
      while data.Length - pos < |v|
        invariant Valid() && (data == old(data) || fresh(data))
        invariant pos == old(pos) && used == old(used) && Contents() == old(Contents())
        decreases |v| - (data.Length - pos)
      {
        Resize();
      }
      ghost var before, was := Contents(), data[..];
      forall i | pos <= i < pos + |v| {
        data[i] := v[i - pos];
      }
      assert forall k :: 0 <= k < data.Length ==> data[k] == if pos <= k < pos + |v| then v[k - pos] else was[k];
      pos := pos + |v|;
      used := if used < pos then pos else used;
      OverwriteBytes(before, old(pos), v, Contents());
    }

    method Write8(v: byte)
      requires Valid()
      modifies Repr()
      ensures Valid() && (data == old(data) || fresh(data))
      ensures Contents() == Overwrite(old(Contents()), old(pos), [v]) && pos == old(pos) + 1
      ensures old(pos) == old(used) ==> Contents() == old(Contents()) + [v] && pos == used
    {
      while pos > data.Length - 1
        invariant Valid() && (data == old(data) || fresh(data))
        invariant pos == old(pos) && used == old(used) && Contents() == old(Contents())
        decreases pos - data.Length + 1
      {
        Resize();
      }
      ghost var before := Contents();
      data[pos] := v;
      pos := pos + 1;
      used := if used < pos then pos else used;
      OverwriteBytes(before, old(pos), [v], Contents());
    }

    /** write16, write32, write64 and the generic write: n bytes, most significant first. */
    method WriteBE(n: nat, v: nat)
      requires Valid() && n <= MIN_CAPACITY
      modifies Repr()
      ensures Valid() && (data == old(data) || fresh(data))
      ensures Contents() == Overwrite(old(Contents()), old(pos), BigEndian(n, v)) && pos == old(pos) + n
      ensures old(pos) == old(used) ==> Contents() == old(Contents()) + BigEndian(n, v) && pos == used
    {
      WriteArray(BigEndian(n, v));
    }

    /** A read leaves the destination alone when the guard fails. */
    method Read8(v: byte) returns (r: byte)
      requires Valid() && 1 <= used < SIZE_T / 2
      modifies `pos
      ensures Valid() && Contents() == old(Contents())
      ensures old(pos) < used ==> r == Contents()[old(pos)] && pos == old(pos) + 1
      ensures old(pos) == used ==> r == v && pos == used
    {
      r := v;
      ReadGuardExact(pos, used, 1);
      if pos <= (used - 1) % SIZE_T {
        r := data[pos];
        pos := pos + 1;
      }
    }

    /** A number of n bytes. With too few bytes left the cursor stays and v is unspecified; on a
        packet that holds fewer than n bytes in all the guard would let the read run past the end. */
    method ReadBE(n: nat) returns (v: nat)
      requires Valid() && 0 < n <= used < SIZE_T / 2
      modifies `pos
      ensures Valid() && Contents() == old(Contents())
      ensures if old(pos) + n <= used
              then pos == old(pos) + n && v == FromBigEndian(Contents()[old(pos)..pos])
              else pos == old(pos)
    {
      ReadGuardExact(pos, used, n);
      if pos <= (used - n) % SIZE_T {
        v := FromBigEndian(data[pos..pos + n]);
        pos := pos + n;
        assert Contents()[old(pos)..pos] == data[old(pos)..pos];
      } else {
        v := *;
      }
    }

    method Seek(offset: int, whence: nat)
      requires Valid()
      modifies `pos
      ensures Valid() && Contents() == old(Contents())
      ensures pos == Clamp(SeekTarget(offset, whence, old(pos), used), used)
    {
      var target := pos;
      if whence == SEEK_CUR {
        target := target + offset;
      } else if whence == SEEK_SET {
        target := offset;
      } else if whence == SEEK_END {
        target := used - offset;
      }
      pos := Clamp(target, used);
    }

    method SeekSet(offset: int)
      requires Valid()
      modifies `pos
      ensures Valid() && Contents() == old(Contents()) && pos == Clamp(offset, used)
    {
      Seek(offset, SEEK_SET);
    }

    /** operator=: the other packet's bytes and cursor, in this packet's own (grown) storage. */
    method Assign(other: Packet)
      requires Valid() && other.Valid() && other != this && other.data != data
      modifies Repr()
      ensures Valid() && (data == old(data) || fresh(data))
      ensures Contents() == other.Contents() && pos == other.pos
      ensures other.Valid() && other.Contents() == old(other.Contents()) && other.data == old(other.data)
    {
      Reset();
      while data.Length < other.used
        invariant Valid() && (data == old(data) || fresh(data)) && used == 0 && pos == 0
        decreases other.used - data.Length
      {
        Resize();
      }
      used := other.used;
      forall i | 0 <= i < other.used {
        data[i] := other.data[i];
      }
      pos := other.pos;
    }
  }

  /** Whatever is written at the end of a packet reads back from where it was written. */
  method WriteThenReadBE(p: Packet, n: nat, v: nat) returns (r: nat)
    requires p.Valid() && p.pos == p.used && 0 < n <= MIN_CAPACITY && v < Pow256(n) && p.used + n < SIZE_T / 2
    modifies p.Repr()
    ensures r == v && p.Valid() && p.pos == p.used && p.Contents() == old(p.Contents()) + BigEndian(n, v)
  {
    var start := p.pos;
    p.WriteBE(n, v);
    p.SeekSet(start);
    assert p.Contents()[start..start + n] == BigEndian(n, v);
    BigEndianRoundTrip(n, v);
    r := p.ReadBE(n);
  }
}
