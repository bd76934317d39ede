/** How one field or one message argument is read from and written to a packet
    (include/nrg_codec.h). A value is represented by its image, the bytes its owner writes. */
module Codecs {
  import opened Packets
  import opened Varints

  datatype Option<+T> = None | Some(value: T)

  /** A fixed-size scalar or char array, a string, or an unsigned 64-bit varint. */
  datatype Kind = Fixed(size: nat) | Text | VarUInt

  function TextImage(s: Bytes): Bytes
  {
    Enc(|s|) + s
  }

  ghost predicate WellEncoded(kind: Kind, image: Bytes)
  {
    match kind
    case Fixed(size) => |image| == size
    case Text => exists s: Bytes :: image == TextImage(s) && |s| < 0x8000_0000
    case VarUInt => exists v: nat :: image == Enc(v) && v < 0x8000_0000
  }

  /** The cursor afterwards, the length reported to the caller (0 for a failed read), and the new
      value if the destination was assigned. */
  datatype FieldRead = FieldRead(next: nat, ret: nat, value: Option<Bytes>) | Undefined

  function ReadField(kind: Kind, buf: Bytes, pos: nat): (r: FieldRead)
    requires pos <= |buf|
    ensures r.FieldRead? ==> pos <= r.next <= |buf|
  {
    match kind
    case Fixed(size) =>
      if |buf| - pos >= size then FieldRead(pos + size, size, Some(buf[pos..pos + size]))
      else FieldRead(pos, 0, None)
    case Text =>
      if pos == |buf| then FieldRead(pos, 0, None)
      else (
        match Decode(64, buf, pos)
        case Overflow => Undefined
        case Decoded(v, next, len) =>
          if len == 0 || |buf| - next < v then FieldRead(next, 0, None)
          else FieldRead(next + v, len + v, Some(TextImage(buf[next..next + v])))
      )
    case VarUInt =>
      match Decode(64, buf, pos)
      case Overflow => Undefined
      case Decoded(v, next, len) => FieldRead(next, len, Some(Enc(v)))
  }

  lemma Below64()
    ensures 0x8000_0000 <= Pow2(64)
  {
    Pow2Monotone(32, 64);
    Pow2Monotone(28, 32);
    Pow128IsPow2(4);
    assert Pow128(4) == 128 * Pow128(3) && Pow128(3) == 2097152;
    assert Pow2(28) == 0x1000_0000;
    assert Pow2(32) == 2 * Pow2(31) == 4 * Pow2(30) == 8 * Pow2(29) == 16 * Pow2(28);
  }

  lemma DecodeEnc64(pre: Bytes, v: nat, tail: Bytes)
    requires v < 0x8000_0000
    ensures Decode(64, pre + Enc(v) + tail, |pre|) == Decoded(v, |pre| + |Enc(v)|, |Enc(v)|)
  {
    Below64();
    DecodeEnc(64, pre, v, tail);
  }

  lemma ReadTextImage(pre: Bytes, s: Bytes, tail: Bytes)
    requires |s| < 0x8000_0000
    ensures var image := TextImage(s);
            ReadField(Text, pre + image + tail, |pre|) == FieldRead(|pre| + |image|, |image|, Some(image))
  {
    var buf, next := pre + TextImage(s) + tail, |pre| + |Enc(|s|)|;
    DecodeEnc64(pre, |s|, s + tail);
    assert buf == pre + Enc(|s|) + (s + tail);
    assert buf[next..next + |s|] == s;
  }

  /** Whatever surrounds it, an image reads back as itself and nothing more is consumed. */
  lemma ReadImage(kind: Kind, pre: Bytes, image: Bytes, tail: Bytes)
    requires WellEncoded(kind, image)
    ensures ReadField(kind, pre + image + tail, |pre|) == FieldRead(|pre| + |image|, |image|, Some(image))
  {
    match kind
    case Fixed(size) =>
      assert (pre + image + tail)[|pre|..|pre| + size] == image;
    case Text =>
      var s: Bytes :| image == TextImage(s) && |s| < 0x8000_0000;
      ReadTextImage(pre, s, tail);
    case VarUInt =>
      var v: nat :| image == Enc(v) && v < 0x8000_0000;
      DecodeEnc64(pre, v, tail);
  }

  /** Which reads fail, and where they leave the cursor: a fixed size that is not there in full, at once; a
      string whose length is cut short or exceeds what is left, behind the length; a varint without a last
      byte, at the end of the packet, and the destination is then assigned what there was of it. A read that
      succeeds moves by the length it reports. */
  lemma ReadFailsIff(kind: Kind, buf: Bytes, pos: nat)
    requires pos <= |buf| && ReadField(kind, buf, pos).FieldRead?
    ensures var r := ReadField(kind, buf, pos);
            && (r.ret > 0 ==> r.value.Some? && r.next == pos + r.ret)
            && (r.ret == 0 && r.value.Some? ==> kind == Fixed(0) || (kind == VarUInt && r.next == |buf|))
            && match kind
               case Fixed(size) => (r.value.None? <==> |buf| - pos < size) && (r.value.None? ==> r.next == pos)
               case Text =>
                 var d := Decode(64, buf, pos);
                 && d.Decoded? && r.value.None? == (d.len == 0 || d.next + d.value > |buf|)
                 && (r.value.None? ==> r.next == if d.len == 0 then |buf| else d.next)
               case VarUInt =>
                 && (r.ret == 0 <==> CutShort(buf, pos))
                 && r.value == Some(Enc(Groups(buf, pos, r.next - pos) % Pow2(64)))
  {
    hide Enc, DecodeFrom, Pow2, Groups;
    DecodeLength(buf, pos, 0, 0);
    NoGroups(buf, pos);
    DecodesGroups(64, buf, pos, 0, 0);
  }

  lemma NoGroups(buf: Bytes, pos: nat)
    requires pos <= |buf|
    ensures Groups(buf, pos, 0) % Pow2(64) == 0
  {
    hide Pow2;
  }

  /** No byte that ends a number among the next ten. */
  predicate CutShort(buf: Bytes, pos: nat)
    requires pos <= |buf|
  {
    |buf| - pos < 10 && forall k :: pos <= k < |buf| ==> buf[k] >= 128
  }

  lemma {:induction false} DecodeLength(buf: Bytes, pos: nat, i: nat, acc: nat)
    requires pos <= |buf| && i <= 10
    ensures var d := DecodeFrom(64, buf, pos, i, acc);
            d.Decoded? ==>
              && (d.len == 0 <==> |buf| - pos < 10 - i && forall k :: pos <= k < |buf| ==> buf[k] >= 128)
              && d.next == if d.len == 0 then |buf| else pos + d.len - i
    ensures pos == |buf| ==> DecodeFrom(64, buf, pos, i, acc).Decoded?
    decreases 10 - i
  {
    hide Pow2, Pow128, ShiftDefined;
    if i < 10 && pos < |buf| && buf[pos] >= 128 {
      DecodeLength(buf, pos + 1, i + 1, (acc + buf[pos] % 128 * Pow128(i)) % Pow2(64));
    }
  }

  /** readFromPacket of one field. */
  method ReadFieldFrom(p: Packet, kind: Kind) returns (ret: nat, value: Option<Bytes>)
    requires p.Valid() && p.used < SIZE_T / 2
    requires ReadField(kind, p.Contents(), p.pos) != Undefined
    modifies p`pos
    ensures p.Valid() && p.Contents() == old(p.Contents())
    ensures ReadField(kind, p.Contents(), old(p.pos)) == FieldRead(p.pos, ret, value)
  {
    ret, value := 0, None;
    match kind {
      case Fixed(size) =>
        if p.used - p.pos >= size {
          value := Some(p.Peek(p.pos, size));
          p.SeekSet(p.pos + size);
          ret := size;
        }
      case Text =>
        if p.used - p.pos == 0 {
          return;
        }
        var v, len := DecodePacket(p, 64);
        if len == 0 || p.used - p.pos < v {
          return;
        }
        value := Some(TextImage(p.Peek(p.pos, v)));
        p.SeekSet(p.pos + v);
        ret := len + v;
      case VarUInt =>
        var v, len := DecodePacket(p, 64);
        ret, value := len, Some(Enc(v));
    }
  }
}
