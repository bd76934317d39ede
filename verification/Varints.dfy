/** Base-128 varints and zigzag (include/nrg_varint.h), in the format of the sections "Base 128
    Varints" and "Signed Integers" of the Protocol Buffers encoding specification. */
module Varints {
  import opened Divisions
  import opened Packets

  function Pow2(n: nat): (r: nat)
    ensures r >= 1
  {
    if n == 0 then 1 else 2 * Pow2(n - 1)
  }

  function Pow128(n: nat): (r: nat)
    ensures r >= 1
  {
    if n == 0 then 1 else 128 * Pow128(n - 1)
  }

  /** Bytes a w-bit number can need. */
  function MaxBytes(w: nat): nat
    requires w > 0
  {
    1 + (w - 1) / 7
  }

  // ---------------------------------------------------------------- the encoding

  function Enc(v: nat): (s: Bytes)
    ensures |s| >= 1
  {
    if v < 128 then [v] else [128 + v % 128] + Enc(v / 128)
  }

  /** Byte i is the digit of weight 128^i, with the highest bit set on every byte but the last. */
  lemma {:induction false} LeastSignificantFirst(v: nat, i: nat)
    requires i < |Enc(v)|
    ensures Enc(v)[i] == v / Pow128(i) % 128 + if i + 1 < |Enc(v)| then 128 else 0
  {
    if i > 0 {
      LeastSignificantFirst(v / 128, i - 1);
      DivDiv(v, 128, Pow128(i - 1));
    }
  }

  lemma {:induction false} EncFits(v: nat, k: nat)
    requires k >= 1 && v < Pow128(k)
    ensures |Enc(v)| <= k
  {
    if v >= 128 {
      EncFits(v / 128, k - 1);
    }
  }

  lemma {:induction false} EncNeeds(v: nat, k: nat)
    requires v >= Pow128(k)
    ensures |Enc(v)| > k
  {
    if k > 0 {
      EncNeeds(v / 128, k - 1);
    }
  }

  lemma {:induction false} Pow128IsPow2(n: nat)
    ensures Pow128(n) == Pow2(7 * n)
  {
    if n > 0 {
      Pow128IsPow2(n - 1);
      var m := 7 * (n - 1);
      assert Pow2(m + 7) == 2 * Pow2(m + 6) == 4 * Pow2(m + 5) == 8 * Pow2(m + 4);
      assert Pow2(m + 4) == 2 * Pow2(m + 3) == 4 * Pow2(m + 2) == 8 * Pow2(m + 1) == 16 * Pow2(m);
    }
  }

  lemma {:induction false} Pow2Monotone(m: nat, n: nat)
    requires m <= n
    ensures Pow2(m) <= Pow2(n)
  {
    if m < n {
      Pow2Monotone(m, n - 1);
    }
  }

  lemma {:induction false} Pow128Monotone(m: nat, n: nat)
    requires m <= n
    ensures Pow128(m) <= Pow128(n)
  {
    if m < n {
      Pow128Monotone(m, n - 1);
    }
  }

  lemma WidthFits(w: nat)
    requires w > 0
    ensures Pow2(w) <= Pow128(MaxBytes(w))
  {
    Pow128IsPow2(MaxBytes(w));
    Pow2Monotone(w, 7 * MaxBytes(w));
  }

  /** A w-bit number never needs more than 1 + (w-1)/7 bytes. */
  lemma EncLength(w: nat, v: nat)
    requires w > 0 && v < Pow2(w)
    ensures |Enc(v)| <= MaxBytes(w)
  {
    WidthFits(w);
    EncFits(v, MaxBytes(w));
  }

  // ---------------------------------------------------------------- the decoder

  /** What the decode loop leaves behind: the value and its length in bytes, length 0 when the
      bytes ran out, or Overflow when it would shift a bit past the 31 value bits of `int`. */
  datatype Decoded = Decoded(value: nat, next: nat, len: nat) | Overflow

  predicate ShiftDefined(i: nat, x: nat)
  {
    7 * i < 32 && x * Pow128(i) < 0x8000_0000
  }

  function DecodeFrom(w: nat, buf: Bytes, pos: nat, i: nat, acc: nat): (d: Decoded)
    requires w > 0 && pos <= |buf|
    ensures d.Decoded? ==> pos <= d.next <= |buf|
    ensures d.Decoded? && pos < |buf| && i < MaxBytes(w) ==> pos < d.next
    decreases MaxBytes(w) - i
  {
    if i >= MaxBytes(w) then Decoded(acc, pos, i)
    else if pos == |buf| then Decoded(acc, pos, 0)
    else if !ShiftDefined(i, buf[pos] % 128) then Overflow
    else
      var sum := (acc + buf[pos] % 128 * Pow128(i)) % Pow2(w);
      if buf[pos] < 128 then Decoded(sum, pos + 1, i + 1) else DecodeFrom(w, buf, pos + 1, i + 1, sum)
  }

  function Decode(w: nat, buf: Bytes, pos: nat): (d: Decoded)
    requires w > 0 && pos <= |buf|
    ensures d.Decoded? ==> pos <= d.next <= |buf|
    ensures d.Decoded? && pos < |buf| ==> pos < d.next
  {
    DecodeFrom(w, buf, pos, 0, 0)
  }

  /** What n bytes say: seven bits each, the first the least. */
  function Groups(buf: Bytes, pos: nat, n: nat): nat
    requires pos + n <= |buf|
  {
    if n == 0 then 0 else Groups(buf, pos, n - 1) + buf[pos + n - 1] % 128 * Pow128(n - 1)
  }

  /** Of any bytes at all, encoded or not, cut short or not, the decoder takes those up to the first below
      128, but no more than the width allows, and its value is what they say, in that width. */
  lemma {:induction false} DecodesGroups(w: nat, buf: Bytes, start: nat, i: nat, acc: nat)
    requires w > 0 && start + i <= |buf| && i <= MaxBytes(w) && acc == Groups(buf, start, i) % Pow2(w)
    ensures var d := DecodeFrom(w, buf, start + i, i, acc);
            d.Decoded? ==>
              && start + i <= d.next <= |buf| && d.value == Groups(buf, start, d.next - start) % Pow2(w)
              && (forall k :: start + i <= k < d.next - 1 ==> buf[k] >= 128)
              && (d.len == 0 || d.len == d.next - start)
    decreases MaxBytes(w) - i
  {
    hide Pow2, Pow128, ShiftDefined;
    if i < MaxBytes(w) && start + i < |buf| {
      var x := buf[start + i] % 128 * Pow128(i);
      ModSum(Groups(buf, start, i), x, Pow2(w));
      assert Groups(buf, start, i + 1) == Groups(buf, start, i) + x;
      if buf[start + i] >= 128 {
        DecodesGroups(w, buf, start, i + 1, (acc + x) % Pow2(w));
      }
    }
  }

  lemma ModSum(a: nat, b: nat, m: nat)
    requires m > 0
    ensures (a % m + b) % m == (a + b) % m
  {
    var x, k := a % m + b, a / m;
    assert a + b == x + m * k;
    DivAdd(x, m, k);
    assert m * (x / m + k) == m * (x / m) + m * k;
  }

  // ---------------------------------------------------------------- round trip

  lemma ModShift(a: int, m: nat)
    requires m > 0
    ensures 0 <= a < m ==> a % m == a
    ensures 0 <= a + m < m ==> a % m == a + m
  {
    if 0 <= a + m < m {
      assert a == -1 * m + (a + m);
    }
  }

  lemma Distribute(v: nat, x: nat, q: nat, p: nat)
    requires v == x + 128 * q && x < 128
    ensures v * p == x * p + q * (128 * p)
    ensures x * p <= 127 * p && v * p >= 0 && q * (128 * p) >= 0
    ensures v > 0 ==> v * p >= p
  {
    assert (128 * q) * p == q * (128 * p);
  }

  lemma GroupSplit(v: nat, p: nat)
    requires p >= 1
    ensures v * p == v % 128 * p + v / 128 * (128 * p)
    ensures 0 <= v % 128 * p <= 127 * p && 0 <= v / 128 * (128 * p)
    ensures v > 0 ==> v * p >= p
  {
    var x: nat, q: nat := v % 128, v / 128;
    Distribute(v, x, q, p);
  }

  /** A group that carries a number below both limits is decoded by a defined shift. */
  lemma GroupInRange(w: nat, v: nat, i: nat, acc: nat)
    requires w > 0 && (v > 0 || i == 0)
    requires acc + v * Pow128(i) < Pow2(w) && acc + v * Pow128(i) < 0x8000_0000
    ensures i < MaxBytes(w) && ShiftDefined(i, v % 128)
    ensures (acc + v % 128 * Pow128(i)) % Pow2(w) == acc + v % 128 * Pow128(i)
  {
    var p := Pow128(i);
    GroupSplit(v, p);
    var low := v % 128 * p;
    assert 0 <= low && acc + low < Pow2(w);
    ModShift(acc + low, Pow2(w));
    if v > 0 && i >= MaxBytes(w) {
      WidthFits(w);
      Pow128Monotone(MaxBytes(w), i);
      assert false;
    }
    assert Pow128(5) == 128 * Pow128(4) == 0x8_0000_0000;
    if v > 0 && i >= 5 {
      Pow128Monotone(5, i);
      assert false;
    }
  }

  /** One turn of the loop on a byte whose group is in range. */
  lemma DecodeStep(w: nat, buf: Bytes, pos: nat, i: nat, acc: nat, x: nat, sum: nat)
    requires w > 0 && pos < |buf| && buf[pos] % 128 == x
    requires i < MaxBytes(w) && ShiftDefined(i, x)
    requires sum == acc + x * Pow128(i) && sum % Pow2(w) == sum
    ensures DecodeFrom(w, buf, pos, i, acc) ==
            if buf[pos] < 128 then Decoded(sum, pos + 1, i + 1) else DecodeFrom(w, buf, pos + 1, i + 1, sum)
  {
  }

  /** The first byte of an encoding, and the rest of it. */
  lemma EncLies(buf: Bytes, pos: nat, v: nat)
    requires pos + |Enc(v)| <= |buf| && buf[pos..pos + |Enc(v)|] == Enc(v)
    ensures buf[pos] == if v < 128 then v else 128 + v % 128
    ensures v < 128 ==> |Enc(v)| == 1
    ensures v >= 128 ==> |Enc(v)| == 1 + |Enc(v / 128)| && buf[pos + 1..pos + 1 + |Enc(v / 128)|] == Enc(v / 128)
  {
    assert buf[pos] == Enc(v)[0];
    if v >= 128 {
      assert Enc(v)[1..] == Enc(v / 128);
      assert buf[pos + 1..pos + 1 + |Enc(v / 128)|] == buf[pos..pos + |Enc(v)|][1..];
    }
  }

  lemma {:induction false} DecodeFromEnc(w: nat, buf: Bytes, pos: nat, v: nat, i: nat, acc: nat)
    requires w > 0 && pos + |Enc(v)| <= |buf| && buf[pos..pos + |Enc(v)|] == Enc(v)
    requires v > 0 || i == 0
    requires acc < Pow128(i)
    requires acc + v * Pow128(i) < Pow2(w) && acc + v * Pow128(i) < 0x8000_0000
    ensures DecodeFrom(w, buf, pos, i, acc) == Decoded(acc + v * Pow128(i), pos + |Enc(v)|, i + |Enc(v)|)
    decreases v
  {
    hide DecodeFrom, ShiftDefined, Enc;
    var x: nat, q: nat, p := v % 128, v / 128, Pow128(i);
    Distribute(v, x, q, p);
    GroupInRange(w, v, i, acc);
    var sum := acc + x * p;
    EncLies(buf, pos, v);
    DecodeStep(w, buf, pos, i, acc, x, sum);
    if v >= 128 {
      assert Pow128(i + 1) == 128 * p;
      DecodeFromEnc(w, buf, pos + 1, q, i + 1, sum);
    }
  }

  /** 2^31 in units of the i-th group. */
  function Threshold(i: nat): nat
    requires i < 5
  {
    if i == 0 then 0x8000_0000 else if i == 1 then 0x100_0000 else if i == 2 then 0x2_0000
    else if i == 3 then 0x400 else 8
  }

  /** The decoder's shift keeps within `int` for the first four groups and for three bits of the
      fifth; from the sixth group on even a group of zeros shifts by more than the width. */
  lemma ShiftDefinedIff(i: nat, x: nat)
    requires x < 128
    ensures ShiftDefined(i, x) <==> i < 4 || (i == 4 && x < 8)
  {
    assert Pow128(0) == 1 && Pow128(1) == 128 && Pow128(2) == 16384 && Pow128(3) == 2097152;
    assert Pow128(4) == 0x1000_0000;
  }

  lemma {:induction false} DecodeFromOverflows(w: nat, buf: Bytes, pos: nat, v: nat, i: nat, acc: nat)
    requires w >= 32 && i <= 5 && pos + |Enc(v)| <= |buf| && buf[pos..pos + |Enc(v)|] == Enc(v)
    requires i < 5 ==> v >= Threshold(i)
    requires i + |Enc(v)| <= MaxBytes(w)
    ensures DecodeFrom(w, buf, pos, i, acc).Overflow?
    decreases v
  {
    var x: nat, q: nat := v % 128, v / 128;
    assert buf[pos] == Enc(v)[0];
    if i < 5 {
      ShiftDefinedIff(i, x);
      if i < 4 || x < 8 {
        assert Enc(v)[1..] == Enc(q);
        assert buf[pos + 1..pos + 1 + |Enc(q)|] == buf[pos..pos + |Enc(v)|][1..];
        var sum := (acc + buf[pos] % 128 * Pow128(i)) % Pow2(w);
        DecodeFromOverflows(w, buf, pos + 1, q, i + 1, sum);
      }
    }
  }

  /** The widths of the unsigned integer types. */
  predicate Width(w: nat)
  {
    w == 8 || w == 16 || w == 32 || w == 64
  }

  lemma NarrowBelow31(w: nat)
    requires w == 8 || w == 16
    ensures Pow2(w) <= 65536
  {
    Pow128IsPow2(1);
    Pow128IsPow2(2);
    assert Pow128(1) == 128 && Pow128(2) == 16384;
    assert Pow2(14) == 16384 && Pow2(15) == 2 * Pow2(14) && Pow2(16) == 2 * Pow2(15);
    Pow2Monotone(w, 16);
  }

  lemma DecodeEnc(w: nat, pre: Bytes, v: nat, tail: Bytes)
    requires w > 0 && v < Pow2(w) && v < 0x8000_0000
    ensures Decode(w, pre + Enc(v) + tail, |pre|) == Decoded(v, |pre| + |Enc(v)|, |Enc(v)|)
  {
    var buf := pre + Enc(v) + tail;
    assert buf[|pre|..|pre| + |Enc(v)|] == Enc(v);
    assert Pow128(0) == 1;
    DecodeFromEnc(w, buf, |pre|, v, 0, 0);
  }

  lemma DecodeEncOverflows(w: nat, pre: Bytes, v: nat, tail: Bytes)
    requires w >= 32 && v < Pow2(w) && v >= 0x8000_0000
    ensures Decode(w, pre + Enc(v) + tail, |pre|).Overflow?
  {
    var buf := pre + Enc(v) + tail;
    assert buf[|pre|..|pre| + |Enc(v)|] == Enc(v);
    EncLength(w, v);
    DecodeFromOverflows(w, buf, |pre|, v, 0, 0);
  }

  /** Decoding an encoded w-bit number gives it back, and stops right behind it, exactly when the
      number is below 2^31; from there on the decoder's shift leaves the range of `int`. */
  lemma RoundTrip(w: nat, pre: Bytes, v: nat, tail: Bytes)
    requires Width(w) && v < Pow2(w)
    ensures v < 0x8000_0000 <==>
            Decode(w, pre + Enc(v) + tail, |pre|) == Decoded(v, |pre| + |Enc(v)|, |Enc(v)|)
    ensures v >= 0x8000_0000 ==> Decode(w, pre + Enc(v) + tail, |pre|).Overflow?
  {
    if v < 0x8000_0000 {
      DecodeEnc(w, pre, v, tail);
    } else if w >= 32 {
      DecodeEncOverflows(w, pre, v, tail);
    } else {
      NarrowBelow31(w);
    }
  }

  // ---------------------------------------------------------------- the loops

  /** varint_encode: fills a local array, setting the continuation bit on every byte but the last. */
  method Encode(p: Packet, w: nat, num: nat) returns (n: nat)
    requires p.Valid() && w > 0 && num < Pow2(w)
    modifies p.Repr()
    ensures p.Valid() && (p.data == old(p.data) || fresh(p.data))
    ensures n == |Enc(num)| && p.pos == old(p.pos) + n
    ensures p.Contents() == Overwrite(old(p.Contents()), old(p.pos), Enc(num))
    ensures old(p.pos) == old(p.used) ==> p.Contents() == old(p.Contents()) + Enc(num) && p.pos == p.used
  {
    EncLength(w, num);
    var enc := new byte[MaxBytes(w)];
    var rest := num;
    enc[0] := rest % 128;
    n, rest := 1, rest / 128;
    while rest != 0
      invariant 1 <= n <= enc.Length && enc[n - 1] < 128
      invariant rest != 0 ==> n + |Enc(rest)| == |Enc(num)| <= enc.Length
      invariant rest != 0 ==> enc[..n - 1] + [128 + enc[n - 1]] + Enc(rest) == Enc(num)
      invariant rest == 0 ==> enc[..n] == Enc(num)
      invariant fresh(enc)
      invariant p.Valid() && p.data == old(p.data) && p.Contents() == old(p.Contents()) && p.pos == old(p.pos)
      decreases rest
    {
      ghost var done, low, left := enc[..n - 1], enc[n - 1], rest;
      enc[n - 1] := enc[n - 1] + 128;
      enc[n] := rest % 128;
      n, rest := n + 1, rest / 128;
      assert enc[..n - 1] == done + [128 + low];
      assert enc[..n] == enc[..n - 1] + [enc[n - 1]];
    }
    p.WriteArray(enc[..n]);
  }

  /** One round of the decoder. */
  lemma DecodeTurn(w: nat, buf: Bytes, pos: nat, i: nat, acc: nat)
    requires w > 0 && pos <= |buf|
    ensures i >= MaxBytes(w) ==> DecodeFrom(w, buf, pos, i, acc) == Decoded(acc, pos, i)
    ensures i < MaxBytes(w) && pos == |buf| ==> DecodeFrom(w, buf, pos, i, acc) == Decoded(acc, pos, 0)
    ensures i < MaxBytes(w) && pos < |buf| && DecodeFrom(w, buf, pos, i, acc).Decoded? ==>
              var sum := (acc + buf[pos] % 128 * Pow128(i)) % Pow2(w);
              DecodeFrom(w, buf, pos, i, acc) ==
                if buf[pos] < 128 then Decoded(sum, pos + 1, i + 1) else DecodeFrom(w, buf, pos + 1, i + 1, sum)
  {
    hide Pow2, Pow128;
  }

  /** varint_decode, for the numbers whose shifts `int` can hold. */
  method DecodePacket(p: Packet, w: nat) returns (ans: nat, n: nat)
    requires p.Valid() && w > 0 && p.used < SIZE_T / 2
    requires Decode(w, p.Contents(), p.pos).Decoded?
    modifies p`pos
    ensures p.Valid() && p.Contents() == old(p.Contents())
    ensures Decode(w, p.Contents(), old(p.pos)) == Decoded(ans, p.pos, n)
  {
    hide DecodeFrom, Pow2, Pow128, MaxBytes, Packet.Contents;
    ans, n := 0, 0;
    var more: byte := 0x80;
    ghost var buf := p.Contents();
    while n < MaxBytes(w) && more >= 128
      invariant p.Valid() && p.Contents() == old(p.Contents()) == buf && n <= MaxBytes(w)
      invariant more >= 128 ==>
                  DecodeFrom(w, p.Contents(), p.pos, n, ans) == Decode(w, p.Contents(), old(p.pos))
      invariant more < 128 ==> Decode(w, p.Contents(), old(p.pos)) == Decoded(ans, p.pos, n)
      decreases MaxBytes(w) - n
    {
      DecodeTurn(w, buf, p.pos, n, ans);
      if p.used - p.pos == 0 {
        n := 0;
        return;
      }
      more := p.Read8(more);
      ans := (ans + more % 128 * Pow128(n)) % Pow2(w);
      n := n + 1;
    }
    if more >= 128 {
      DecodeTurn(w, buf, p.pos, n, ans);
    }
  }

  /** requiredBytes counts exactly the bytes that encoding writes. */
  method RequiredBytes(num: nat) returns (n: nat)
    ensures n == |Enc(num)|
  {
    n := 1;
    var rest: nat := num / 128;
    while rest != 0
      invariant n + (if rest == 0 then 0 else |Enc(rest)|) == |Enc(num)|
      decreases rest
    {
      n, rest := n + 1, rest / 128;
    }
  }

  // ---------------------------------------------------------------- zigzag

  predicate Signed(w: nat, i: int)
    requires w > 0
  {
    0 <= i + Pow2(w - 1) < Pow2(w)
  }

  /** (i << 1) ^ (i >> digits): the arithmetic shift is all ones for a negative number, and xor
      with all ones is the complement. */
  function ZigZag(w: nat, i: int): (u: nat)
    requires w > 0 && Signed(w, i)
    ensures u < Pow2(w)
  {
    var shifted := (2 * i) % Pow2(w);
    if i < 0 then Pow2(w) - 1 - shifted else shifted
  }

  /** (i >> 1) ^ -(i & 1), read as a two's complement w-bit number. */
  function ZagZig(w: nat, u: nat): (i: int)
    requires w > 0 && u < Pow2(w)
    ensures Signed(w, i)
  {
    var bits := if u % 2 == 1 then Pow2(w) - 1 - u / 2 else u / 2;
    if bits >= Pow2(w - 1) then bits - Pow2(w) else bits
  }

  /** Zigzag is the specification's mapping of 0, -1, 1, -2, ... to 0, 1, 2, 3, ... */
  lemma ZigZagInterleaves(w: nat, i: int)
    requires w > 0 && Signed(w, i)
    ensures ZigZag(w, i) == if i >= 0 then 2 * i else -2 * i - 1
  {
    ModShift(2 * i, Pow2(w));
  }

  lemma ZagZigSeparates(w: nat, u: nat)
    requires w > 0 && u < Pow2(w)
    ensures ZagZig(w, u) == if u % 2 == 0 then u / 2 else -(u / 2) - 1
  {
    assert Pow2(w) == 2 * Pow2(w - 1);
  }

  lemma Halves(a: nat)
    ensures (2 * a) % 2 == 0 && (2 * a) / 2 == a
    ensures (2 * a + 1) % 2 == 1 && (2 * a + 1) / 2 == a
    ensures a == 2 * (a / 2) + a % 2
  {
  }

  lemma ZagZigInverts(w: nat, i: int)
    requires w > 0 && Signed(w, i)
    ensures ZagZig(w, ZigZag(w, i)) == i
  {
    ZigZagInterleaves(w, i);
    var z := ZigZag(w, i);
    ZagZigSeparates(w, z);
    if i >= 0 {
      Halves(i);
    } else {
      Halves(-i - 1);
      assert z == 2 * (-i - 1) + 1;
    }
  }

  lemma ZigZagInverts(w: nat, u: nat)
    requires w > 0 && u < Pow2(w)
    ensures ZigZag(w, ZagZig(w, u)) == u
  {
    ZagZigSeparates(w, u);
    ZigZagInterleaves(w, ZagZig(w, u));
    Halves(u);
  }

  /** The two maps are inverse bijections between w-bit signed and unsigned numbers. */
  lemma ZigZagBijection(w: nat, i: int, u: nat)
    requires w > 0 && Signed(w, i) && u < Pow2(w)
    ensures ZagZig(w, ZigZag(w, i)) == i
    ensures ZigZag(w, ZagZig(w, u)) == u
  {
    ZagZigInverts(w, i);
    ZigZagInverts(w, u);
  }

  /** A signed varint survives its round trip exactly within 31 zigzagged bits. */
  lemma SignedRoundTrip(w: nat, pre: Bytes, i: int, tail: Bytes)
    requires Width(w) && Signed(w, i)
    ensures var n := |Enc(ZigZag(w, i))|; var d := Decode(w, pre + Enc(ZigZag(w, i)) + tail, |pre|);
            -0x4000_0000 <= i < 0x4000_0000 <==>
            d == Decoded(ZigZag(w, i), |pre| + n, n) && ZagZig(w, ZigZag(w, i)) == i
  {
    ZigZagInterleaves(w, i);
    ZagZigInverts(w, i);
    RoundTrip(w, pre, ZigZag(w, i), tail);
  }
}
