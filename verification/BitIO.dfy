/** Bit streams over a packet (include/nrg_bit_io.h): most significant bit first, zero padded. */
module BitIO {
  import opened Packets
  import Varints

  type Bits = seq<bool>

  /** The weight of bit k of a byte: 1 << (7 - k). */
  function Weight(k: nat): (w: nat)
    requires k < 8
    ensures 1 <= w <= 128
  {
    if k == 0 then 128 else if k == 1 then 64 else if k == 2 then 32 else if k == 3 then 16
    else if k == 4 then 8 else if k == 5 then 4 else if k == 6 then 2 else 1
  }

  function BitAt(b: byte, k: nat): bool
    requires k < 8
  {
    b / Weight(k) % 2 == 1
  }

  /** The bits from index k on, at their weights. */
  function Value(bits: Bits, k: nat): (v: nat)
    requires k + |bits| <= 8
    ensures v + (if k + |bits| == 8 then 0 else Weight(k + |bits|)) < 2 * (if k == 8 then 1 else Weight(k))
    decreases |bits|
  {
    if bits == [] then 0 else (if bits[0] then Weight(k) else 0) + Value(bits[1..], k + 1)
  }

  function ByteOf(bits: Bits): (b: byte)
    requires |bits| <= 8
  {
    Value(bits, 0)
  }

  /** The bytes a writer has emitted once it is flushed. */
  function Pack(bits: Bits): (s: Bytes)
  {
    if bits == [] then [] else if |bits| <= 8 then [ByteOf(bits)] else [ByteOf(bits[..8])] + Pack(bits[8..])
  }

  /** Bytes that n bits take: 1 + (n-1)/8 in the reader's arithmetic. */
  function BitmapSize(n: nat): nat
  {
    if n == 0 then 0 else 1 + (n - 1) / 8
  }

  lemma {:induction false} PackSize(bits: Bits)
    ensures |Pack(bits)| == BitmapSize(|bits|)
  {
    if |bits| > 8 {
      PackSize(bits[8..]);
    }
  }

  lemma {:induction false} ValueAppend(bits: Bits, k: nat, b: bool)
    requires k + |bits| < 8
    ensures Value(bits + [b], k) == Value(bits, k) + if b then Weight(k + |bits|) else 0
  {
    if bits == [] {
      assert ([] + [b])[1..] == [];
    } else {
      assert (bits + [b])[1..] == bits[1..] + [b];
      ValueAppend(bits[1..], k + 1, b);
    }
  }

  lemma WeightMultiple(k: nat, j: nat)
    requires k < j < 8
    ensures Weight(k) == 2 * Weight(j) * Weight(8 - (j - k))
  {
  }

  /** A bit with its weight w, below a multiple of 2w and above something less than w. */
  lemma MiddleBit(v: nat, hi: nat, b: bool, lo: nat, k: nat)
    requires k < 8 && lo < Weight(k) && v == (2 * hi + if b then 1 else 0) * Weight(k) + lo
    ensures v / Weight(k) % 2 == 1 <==> b
  {
    var w, q := Weight(k), 2 * hi + if b then 1 else 0;
    assert v / w == q by {
      if w == 128 {} else if w == 64 {} else if w == 32 {} else if w == 16 {}
      else if w == 8 {} else if w == 4 {} else if w == 2 {} else {}
    }
  }

  lemma AddHigh(hi: nat, m: nat, b: nat, w: nat)
    ensures (2 * (hi + m) + b) * w == (2 * hi + b) * w + 2 * w * m
  {
  }

  /** The bits behind the first weigh less than it. */
  lemma LowPart(bits: Bits, k: nat)
    requires bits != [] && k + |bits| <= 8
    ensures Value(bits[1..], k + 1) < Weight(k)
  {
  }

  lemma {:induction false} Split(bits: Bits, k: nat, j: nat) returns (hi: nat, lo: nat)
    requires k + |bits| <= 8 && k <= j < k + |bits|
    ensures lo < Weight(j)
    ensures Value(bits, k) == (2 * hi + if bits[j - k] then 1 else 0) * Weight(j) + lo
  {
    hide Weight;
    var b := if bits[j - k] then 1 else 0;
    if j == k {
      LowPart(bits, k);
      hi, lo := 0, Value(bits[1..], k + 1);
    } else {
      assert bits[1..][j - (k + 1)] == bits[j - k];
      hi, lo := Split(bits[1..], k + 1, j);
      if bits[0] {
        WeightMultiple(k, j);
        var m := Weight(8 - (j - k));
        AddHigh(hi, m, b, Weight(j));
        hi := hi + m;
      }
    }
  }

  /** Each bit of a packed byte is the bit that was written there. */
  lemma ByteHolds(bits: Bits, j: nat)
    requires j < |bits| <= 8
    ensures BitAt(ByteOf(bits), j) == bits[j]
  {
    var hi, lo := Split(bits, 0, j);
    MiddleBit(ByteOf(bits), hi, bits[j], lo, j);
  }

  lemma BackEight(i: nat)
    requires i >= 8
    ensures (i - 8) / 8 == i / 8 - 1 && (i - 8) % 8 == i % 8
  {
  }

  /** The bitmap's bit i sits in byte i/8, and the reader's mask finds it there. */
  lemma {:induction false} PackHolds(bits: Bits, i: nat)
    requires i < |bits|
    ensures i / 8 < |Pack(bits)| && BitAt(Pack(bits)[i / 8], i % 8) == bits[i]
  {
    if i < 8 {
      ByteHolds(if |bits| <= 8 then bits else bits[..8], i);
    } else {
      PackHolds(bits[8..], i - 8);
      BackEight(i);
      assert Pack(bits)[i / 8] == Pack(bits[8..])[i / 8 - 1];
    }
  }

  /** Which is the bit of weight 2^(7 - i % 8) of that byte: the first bit of eight is the highest. */
  lemma HighestFirst(bits: Bits, i: nat)
    requires i < |bits|
    ensures i / 8 < |Pack(bits)| && (Pack(bits)[i / 8] / Varints.Pow2(7 - i % 8) % 2 == 1 <==> bits[i])
  {
    hide Pack, Weight;
    PackHolds(bits, i);
    WeightIs(i % 8);
  }

  lemma WeightIs(k: nat)
    requires k < 8
    ensures Weight(k) == Varints.Pow2(7 - k)
  {
    assert Varints.Pow2(3) == 8 && Varints.Pow2(5) == 32;
  }

  lemma PackFirst(bits: Bits)
    requires |bits| >= 8
    ensures Pack(bits) == [ByteOf(bits[..8])] + Pack(bits[8..])
  {
    hide Value;
    if |bits| == 8 {
      assert bits[..8] == bits && bits[8..] == [];
    }
  }

  lemma {:induction false} PackSplit(a: Bits, b: Bits)
    requires |a| % 8 == 0
    ensures Pack(a + b) == Pack(a) + Pack(b)
    decreases a, 1
  {
    if a == [] {
      assert a + b == b;
      assert Pack(a) + Pack(b) == Pack(b);
    } else {
      PackSplitStep(a, b);
    }
  }

  lemma {:induction false} PackSplitStep(a: Bits, b: Bits)
    requires |a| % 8 == 0 && a != []
    ensures Pack(a + b) == Pack(a) + Pack(b)
    decreases a, 0
  {
    hide Pack, ByteOf, Value;
    PackFirst(a);
    PackFirst(a + b);
    assert (a + b)[..8] == a[..8] && (a + b)[8..] == a[8..] + b;
    PackSplit(a[8..], b);
    assert [ByteOf(a[..8])] + (Pack(a[8..]) + Pack(b)) == [ByteOf(a[..8])] + Pack(a[8..]) + Pack(b);
  }

  // ---------------------------------------------------------------- the writer

  class BitWriter {
    var bits: nat
    var count: nat
    const p: Packet
    ghost const start: Bytes
    ghost var flushed: Bits
    ghost var pending: Bits

    /** Everything written so far. */
    ghost function Written(): Bits
      reads this
    {
      flushed + pending
    }

    ghost predicate Valid()
      reads this, p, p.data
    {
      && p.Valid() && p.pos == p.used
      && count == |pending| < 8 && bits == Value(pending, 0)
      && |flushed| % 8 == 0 && p.Contents() == start + Pack(flushed)
    }

    constructor (q: Packet)
      requires q.Valid() && q.pos == q.used
      ensures Valid() && p == q && start == q.Contents() && Written() == []
    {
      bits, count, p, start, flushed, pending := 0, 0, q, q.Contents(), [], [];
    }

    method Write(b: bool)
      requires Valid()
      modifies this, p, p.data
      ensures Valid() && Written() == old(Written()) + [b] && (p.data == old(p.data) || fresh(p.data))
    {
      ValueAppend(pending, 0, b);
      if b {
        bits := bits + Weight(count);
      }
      count := count + 1;
      pending := pending + [b];
      assert Written() == old(Written()) + [b];
      if count > 7 {
        EmitByte();
      }
    }

    /** write8(bits); clear() */
    method EmitByte()
      requires p.Valid() && p.pos == p.used && 1 <= count == |pending| <= 8 && bits == Value(pending, 0)
      requires |flushed| % 8 == 0 && p.Contents() == start + Pack(flushed)
      modifies this, p, p.data
      ensures p.Valid() && p.pos == p.used && (p.data == old(p.data) || fresh(p.data))
      ensures bits == 0 && count == 0 && pending == [] && flushed == old(Written())
      ensures p.Contents() == start + Pack(flushed)
    {
      PackSplit(flushed, pending);
      p.Write8(bits);
      bits, count, flushed, pending := 0, 0, flushed + pending, [];
    }

    /** The destructor's flush: the whole stream is now in the packet. */
    method Flush()
      requires Valid()
      modifies this, p, p.data
      ensures p.Valid() && p.pos == p.used && (p.data == old(p.data) || fresh(p.data))
      ensures p.Contents() == start + Pack(old(Written()))
    {
      if count == 0 {
        assert Written() == flushed;
        return;
      }
      EmitByte();
    }
  }

  // ---------------------------------------------------------------- the reader

  /** A reader holds one byte at a time and takes the next one from wherever its cursor is. */
  datatype Reader = Reader(bits: byte, count: nat)

  const NEW_READER := Reader(0, 0)

  /** The reader, its cursor and the bit after one read. At the end of the packet the byte
      stays what it was. */
  function ReadBit(r: Reader, buf: Bytes, pos: nat): (Reader, nat, bool)
    requires r.count < 8 && pos <= |buf|
  {
    var fetch := r.count == 0 && pos < |buf|;
    var bits := if fetch then buf[pos] else r.bits;
    (Reader(bits, (r.count + 1) % 8), if fetch then pos + 1 else pos, BitAt(bits, r.count))
  }

  /** The next n bits. */
  function ReadBits(r: Reader, buf: Bytes, pos: nat, n: nat): (bits: Bits)
    requires r.count < 8 && pos <= |buf|
    ensures |bits| == n
    decreases n
  {
    if n == 0 then []
    else
      var (reader, next, bit) := ReadBit(r, buf, pos);
      [bit] + ReadBits(reader, buf, next, n - 1)
  }

  /** Behind the end of the packet the bits of the last byte come round again and again. */
  lemma {:induction false} BitsComeRound(r: Reader, buf: Bytes, n: nat, i: nat)
    requires r.count < 8 && i < n
    ensures ReadBits(r, buf, |buf|, n)[i] == BitAt(r.bits, (r.count + i) % 8)
    decreases n
  {
    hide BitAt;
    if i > 0 {
      BitsComeRound(Reader(r.bits, (r.count + 1) % 8), buf, n - 1, i - 1);
    }
  }

  /** Where the reader stands after i bits of a bitmap that starts at `at`. */
  function ReaderAfter(buf: Bytes, at: nat, i: nat): Reader
    requires at + BitmapSize(i) <= |buf|
  {
    if i == 0 then NEW_READER else Reader(buf[at + (i - 1) / 8], i % 8)
  }

  lemma BitmapSizeStep(i: nat)
    ensures BitmapSize(i + 1) == i / 8 + 1
    ensures BitmapSize(i) == if i % 8 == 0 then i / 8 else i / 8 + 1
    ensures i % 8 != 0 ==> (i - 1) / 8 == i / 8
  {
  }

  /** Reading bit i gives the bit written there. Only the reader's own cursor matters, so a caller
      may move the packet's cursor away and back between any two reads. */
  lemma ReadBitOfPack(buf: Bytes, at: nat, bits: Bits, i: nat)
    requires i < |bits| && at + |Pack(bits)| <= |buf| && buf[at..at + |Pack(bits)|] == Pack(bits)
    ensures BitmapSize(i) <= BitmapSize(i + 1) <= |Pack(bits)|
    ensures ReadBit(ReaderAfter(buf, at, i), buf, at + BitmapSize(i)) ==
            (ReaderAfter(buf, at, i + 1), at + BitmapSize(i + 1), bits[i])
  {
    hide Pack, BitAt, ByteOf, BitmapSize;
    PackHolds(bits, i);
    PackSize(bits);
    BitmapGrows(i, |bits|);
    var k := i / 8;
    assert buf[at + k] == buf[at..at + |Pack(bits)|][k];
    ReadsBit(buf, at, i, bits[i]);
  }

  lemma BitmapGrows(i: nat, n: nat)
    requires i < n
    ensures BitmapSize(i) <= BitmapSize(i + 1) <= BitmapSize(n)
  {
    BitmapSizeStep(i);
  }

  /** One read of bit i, given the byte it is in. */
  lemma ReadsBit(buf: Bytes, at: nat, i: nat, b: bool)
    requires at + i / 8 < |buf| && BitAt(buf[at + i / 8], i % 8) == b
    ensures at + BitmapSize(i) <= at + BitmapSize(i + 1) <= |buf|
    ensures ReadBit(ReaderAfter(buf, at, i), buf, at + BitmapSize(i)) ==
            (ReaderAfter(buf, at, i + 1), at + BitmapSize(i + 1), b)
  {
    hide BitAt, BitmapSize;
    BitmapSizeStep(i);
    NextBit(i);
  }

  lemma NextBit(i: nat)
    ensures (i % 8 + 1) % 8 == (i + 1) % 8
    ensures i % 8 == 0 <==> i == 0 || i / 8 == (i - 1) / 8 + 1
  {
  }
}
