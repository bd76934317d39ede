/** Replicated arrays (include/nrg_field.h:195-299): only the changed elements travel, unless
    writing all of them is shorter. Elements are scalars of 1, 2, 4 or 8 bytes. */
module ArrayFields {
  import opened Packets

  // ---------------------------------------------------------------- the format

  /** The narrowest of one, two or four bytes that holds every index (include/nrg_util.h:90-104). */
  function IndexWidth(n: nat): (w: nat)
    requires 0 < n < 0x1_0000_0000
    ensures w == 1 || w == 2 || w == 4
    ensures n <= Pow256(w) && (w > 1 ==> n > Pow256(w / 2))
  {
    assert Pow256(2) == 65536 && Pow256(4) == 256 * Pow256(3) == 65536 * Pow256(2);
    if n - 1 < 256 then 1 else if n - 1 < 65536 then 2 else 4
  }

  datatype Shape = Shape(n: nat, size: nat)
  {
    predicate Valid()
    {
      0 < n < 0x1_0000_0000 && (size == 1 || size == 2 || size == 4 || size == 8)
    }

    function Width(): (w: nat)
      requires Valid()
      ensures w == 1 || w == 2 || w == 4
      ensures n <= Pow256(w)
    {
      IndexWidth(n)
    }

    function DenseSize(): nat
    {
      n * size
    }

    function SparseSize(count: nat): nat
      requires Valid()
    {
      count * (Width() + size)
    }

    /** Whether `count` changed elements are too many to list one by one. */
    predicate Dense(count: nat)
      requires Valid()
    {
      SparseSize(count) > DenseSize()
    }
  }

  predicate Fits(sh: Shape, data: seq<nat>)
  {
    |data| == sh.n && forall i :: 0 <= i < |data| ==> data[i] < Pow256(sh.size)
  }

  /** updated_indices.count(), from index i on. */
  function CountFrom(updated: seq<bool>, i: nat): (c: nat)
    requires i <= |updated|
    ensures c <= |updated| - i
    decreases |updated| - i
  {
    if i == |updated| then 0 else (if updated[i] then 1 else 0) + CountFrom(updated, i + 1)
  }

  function AllFrom(sh: Shape, data: seq<nat>, i: nat): (s: Bytes)
    requires i <= |data|
    ensures |s| == (|data| - i) * sh.size
    decreases |data| - i
  {
    if i == |data| then [] else BigEndian(sh.size, data[i]) + AllFrom(sh, data, i + 1)
  }

  function ChangedFrom(sh: Shape, data: seq<nat>, updated: seq<bool>, i: nat): (s: Bytes)
    requires sh.Valid() && i <= |data| == |updated|
    ensures |s| == CountFrom(updated, i) * (sh.Width() + sh.size)
    decreases |data| - i
  {
    if i == |data| then []
    else if updated[i] then BigEndian(sh.Width(), i) + BigEndian(sh.size, data[i]) + ChangedFrom(sh, data, updated, i + 1)
    else ChangedFrom(sh, data, updated, i + 1)
  }

  /** uic - 1 in the index type: the largest value of the type when nothing is marked. */
  function CountField(sh: Shape, count: nat): (c: nat)
    requires sh.Valid()
    ensures c < Pow256(sh.Width())
  {
    if 0 < count <= sh.n then count - 1 else Pow256(sh.Width()) - 1
  }

  function Encode(sh: Shape, data: seq<nat>, updated: seq<bool>): (s: Bytes)
    requires sh.Valid() && |data| == |updated| == sh.n
  {
    var count := CountFrom(updated, 0);
    BigEndian(sh.Width(), CountField(sh, count)) +
    if sh.Dense(count) then AllFrom(sh, data, 0) else ChangedFrom(sh, data, updated, 0)
  }

  // ---------------------------------------------------------------- reading

  /** Fault: the guard of a read on a packet shorter than the value lets it run past the end. */
  datatype Number = Number(value: nat, next: nat) | NumberFault

  /** read<T>: zero when too little is left. */
  function ReadNumber(buf: Bytes, pos: nat, n: nat): (r: Number)
    requires pos <= |buf|
    ensures r.Number? ==> pos <= r.next <= |buf|
  {
    if |buf| < n then NumberFault
    else if pos + n <= |buf| then Number(FromBigEndian(buf[pos..pos + n]), pos + n)
    else Number(0, pos)
  }

  datatype ArrayRead = ArrayRead(next: seq<nat>, pos: nat) | ArrayFault

  /** Where the call that should skip an element leaves the cursor: its offset and its origin are
      the wrong way round, so the element size selects the origin. */
  function AfterBadIndex(size: nat, pos: nat, used: nat): (r: nat)
    requires pos <= used
    ensures r <= used
  {
    Clamp(SeekTarget(SEEK_CUR, size, pos, used), used)
  }

  function ReadAllFrom(sh: Shape, buf: Bytes, pos: nat, next: seq<nat>, i: nat): (r: ArrayRead)
    requires pos <= |buf| && i <= |next|
    ensures r.ArrayRead? ==> |r.next| == |next| && pos <= r.pos <= |buf|
    decreases |next| - i
  {
    if i == |next| then ArrayRead(next, pos)
    else match ReadNumber(buf, pos, sh.size)
      case NumberFault => ArrayFault
      case Number(v, at) => ReadAllFrom(sh, buf, at, next[i := v], i + 1)
  }

  function ReadChanged(sh: Shape, buf: Bytes, pos: nat, next: seq<nat>, count: nat): (r: ArrayRead)
    requires sh.Valid() && pos <= |buf| && |next| == sh.n
    ensures r.ArrayRead? ==> |r.next| == |next| && r.pos <= |buf|
    decreases count
  {
    if count == 0 then ArrayRead(next, pos)
    else match ReadNumber(buf, pos, sh.Width())
      case NumberFault => ArrayFault
      case Number(k, at) =>
        if k >= sh.n then ReadChanged(sh, buf, AfterBadIndex(sh.size, at, |buf|), next, count - 1)
        else match ReadNumber(buf, at, sh.size)
          case NumberFault => ArrayFault
          case Number(v, end) => ReadChanged(sh, buf, end, next[k := v], count - 1)
  }

  /** count + 1: one- and two-byte counts are widened first, a four-byte count wraps to zero. */
  function CountRead(sh: Shape, field: nat): nat
    requires sh.Valid() && field < Pow256(sh.Width())
  {
    if sh.Width() == 4 then (field + 1) % 0x1_0000_0000 else field + 1
  }

  function Decode(sh: Shape, buf: Bytes, pos: nat, next: seq<nat>): (r: ArrayRead)
    requires sh.Valid() && pos <= |buf| && |next| == sh.n
    ensures r.ArrayRead? ==> |r.next| == |next| && r.pos <= |buf|
  {
    match ReadNumber(buf, pos, sh.Width())
    case NumberFault => ArrayFault
    case Number(field, at) =>
      var count := CountRead(sh, if field < Pow256(sh.Width()) then field else 0);
      if sh.Dense(count) then ReadAllFrom(sh, buf, at, next, 0) else ReadChanged(sh, buf, at, next, count)
  }

  // ---------------------------------------------------------------- round trip

  /** What decoding makes of the elements from i on: the marked ones are taken over. */
  function Overlay(next: seq<nat>, data: seq<nat>, updated: seq<bool>, i: nat): (r: seq<nat>)
    requires |next| == |data| == |updated| && i <= |data|
    ensures |r| == |next|
    ensures forall k :: 0 <= k < |r| ==> r[k] == if i <= k && updated[k] then data[k] else next[k]
    decreases |data| - i
  {
    if i == |data| then next else Overlay(if updated[i] then next[i := data[i]] else next, data, updated, i + 1)
  }

  lemma NumberReadsBack(pre: Bytes, n: nat, v: nat, tail: Bytes)
    requires v < Pow256(n)
    ensures ReadNumber(pre + BigEndian(n, v) + tail, |pre|, n) == Number(v, |pre| + n)
  {
    hide BigEndian, FromBigEndian;
    BigEndianRoundTrip(n, v);
    assert (pre + BigEndian(n, v) + tail)[|pre|..|pre| + n] == BigEndian(n, v);
  }

  lemma {:induction false} AllReadsBack(sh: Shape, data: seq<nat>, next: seq<nat>, i: nat, pre: Bytes, tail: Bytes)
    requires sh.Valid() && Fits(sh, data) && |next| == |data| && i <= |data| && next[..i] == data[..i]
    ensures ReadAllFrom(sh, pre + AllFrom(sh, data, i) + tail, |pre|, next, i) == ArrayRead(data, |pre| + (|data| - i) * sh.size)
    decreases |data| - i
  {
    hide BigEndian, ReadNumber;
    if i == |data| {
      assert next[..i] == next && data[..i] == data;
    } else {
      var x, rest := BigEndian(sh.size, data[i]), AllFrom(sh, data, i + 1);
      NumberReadsBack(pre, sh.size, data[i], rest + tail);
      AllReadsBack(sh, data, next[i := data[i]], i + 1, pre + x, tail);
      assert pre + AllFrom(sh, data, i) + tail == pre + x + (rest + tail) == pre + x + rest + tail;
    }
  }

  /** A number that is there is read and passed over; one that is not reads as zero and moves nothing. */
  lemma NumberThere(buf: Bytes, pos: nat, n: nat)
    requires pos <= |buf| && ReadNumber(buf, pos, n).Number?
    ensures ReadNumber(buf, pos, n) ==
            if pos + n <= |buf| then Number(FromBigEndian(buf[pos..pos + n]), pos + n) else Number(0, pos)
  {
  }

  lemma DenseTurn(sh: Shape, buf: Bytes, pos: nat, next: seq<nat>, i: nat)
    requires pos <= |buf| && i <= |next| && ReadAllFrom(sh, buf, pos, next, i).ArrayRead?
    ensures i == |next| ==> ReadAllFrom(sh, buf, pos, next, i) == ArrayRead(next, pos)
    ensures i < |next| ==>
              var r := ReadNumber(buf, pos, sh.size);
              r.Number? && ReadAllFrom(sh, buf, pos, next, i) == ReadAllFrom(sh, buf, r.next, next[i := r.value], i + 1)
  {
  }

  /** Whatever the packet holds, a dense read gives each element the number at its place, and zero to
      those the packet has no room for. */
  lemma {:induction false} DenseReads(sh: Shape, buf: Bytes, pos: nat, next: seq<nat>, i: nat)
    requires sh.Valid() && pos <= |buf| && i <= |next| && ReadAllFrom(sh, buf, pos, next, i).ArrayRead?
    ensures var r := ReadAllFrom(sh, buf, pos, next, i);
            && |r.next| == |next| && r.next[..i] == next[..i]
            && (forall k :: i <= k < |next| ==> r.next[k] == NumberAt(buf, pos + Places(sh, k - i), sh.size))
            && (pos + Places(sh, |next| - i) <= |buf| ==> r.pos == pos + Places(sh, |next| - i))
            && (pos + sh.size > |buf| ==> r.pos == pos)
    decreases |next| - i
  {
    hide ReadAllFrom, ReadNumber, FromBigEndian, NumberAt, Places;
    DenseTurn(sh, buf, pos, next, i);
    PlacesTurn(sh, |next| - i);
    if i < |next| {
      NumberThere(buf, pos, sh.size);
      var at, v := ReadNumber(buf, pos, sh.size).next, ReadNumber(buf, pos, sh.size).value;
      DenseReads(sh, buf, at, next[i := v], i + 1);
      var r := ReadAllFrom(sh, buf, pos, next, i).next;
      assert r[i] == v by { assert r[..i + 1][i] == v; }
      assert r[..i] == r[..i + 1][..i] == next[..i];
      forall k | i <= k < |next|
        ensures r[k] == NumberAt(buf, pos + Places(sh, k - i), sh.size)
      {
        PlacesTurn(sh, k - i);
        ThereOrZero(buf, pos + Places(sh, k - i), sh.size);
        if k > i {
          ThereOrZero(buf, at + Places(sh, k - i - 1), sh.size);
        }
      }
    }
  }

  /** The number at a place, or zero if the packet ends before it does. */
  function NumberAt(buf: Bytes, at: nat, n: nat): nat
  {
    if at + n <= |buf| then FromBigEndian(buf[at..at + n]) else 0
  }

  lemma ThereOrZero(buf: Bytes, at: nat, n: nat)
    ensures at + n <= |buf| ==> NumberAt(buf, at, n) == FromBigEndian(buf[at..at + n])
    ensures at + n > |buf| ==> NumberAt(buf, at, n) == 0
  {
  }

  /** The size of d elements. */
  function Places(sh: Shape, d: nat): nat
  {
    d * sh.size
  }

  lemma PlacesTurn(sh: Shape, d: nat)
    ensures if d == 0 then Places(sh, d) == 0 else Places(sh, d) == sh.size + Places(sh, d - 1)
  {
  }

  /** What a list of indices and elements says, those out of bounds left out. */
  function Listed(sh: Shape, buf: Bytes, pos: nat, next: seq<nat>, count: nat): (r: seq<nat>)
    requires sh.Valid() && |next| == sh.n
    ensures |r| == |next|
    decreases count
  {
    if count == 0 then next
    else
      var k, v := NumberAt(buf, pos, sh.Width()), NumberAt(buf, pos + sh.Width(), sh.size);
      Listed(sh, buf, pos + sh.Width() + sh.size, if k < sh.n then next[k := v] else next, count - 1)
  }

  predicate AllInBounds(sh: Shape, buf: Bytes, pos: nat, count: nat)
    requires sh.Valid()
    decreases count
  {
    count > 0 ==> NumberAt(buf, pos, sh.Width()) < sh.n && AllInBounds(sh, buf, pos + sh.Width() + sh.size, count - 1)
  }

  /** Any list that the packet has room for is read for what it says, to its end, if its indices are in bounds
      or its elements single bytes. */
  lemma {:induction false} ListReads(sh: Shape, buf: Bytes, pos: nat, next: seq<nat>, count: nat)
    requires sh.Valid() && |next| == sh.n && pos + count * (sh.Width() + sh.size) <= |buf|
    requires sh.size == 1 || AllInBounds(sh, buf, pos, count)
    ensures ReadChanged(sh, buf, pos, next, count) ==
            ArrayRead(Listed(sh, buf, pos, next, count), pos + count * (sh.Width() + sh.size))
    decreases count
  {
    hide FromBigEndian, IndexWidth, Pow256, ReadChanged, ReadNumber;
    if count > 0 {
      var w := sh.Width() + sh.size;
      Rounds(count, w);
      ListTurn(sh, buf, pos, next, count);
      var k, v := NumberAt(buf, pos, sh.Width()), NumberAt(buf, pos + sh.Width(), sh.size);
      ListReads(sh, buf, pos + w, if k < sh.n then next[k := v] else next, count - 1);
    } else {
      NothingChanged(sh, buf, pos, next);
    }
  }

  lemma Rounds(count: nat, w: nat)
    requires count > 0
    ensures count * w == w + (count - 1) * w && (count - 1) * w >= 0
  {
  }

  lemma ListTurn(sh: Shape, buf: Bytes, pos: nat, next: seq<nat>, count: nat)
    requires sh.Valid() && |next| == sh.n && count > 0 && pos + sh.Width() + sh.size <= |buf|
    requires sh.size == 1 || NumberAt(buf, pos, sh.Width()) < sh.n
    ensures var k, v := NumberAt(buf, pos, sh.Width()), NumberAt(buf, pos + sh.Width(), sh.size);
            ReadChanged(sh, buf, pos, next, count) ==
            ReadChanged(sh, buf, pos + sh.Width() + sh.size, if k < sh.n then next[k := v] else next, count - 1)
  {
    hide FromBigEndian, IndexWidth, Pow256;
  }

  /** One listed element, in front of whatever follows it. */
  lemma ElementReadsBack(sh: Shape, k: nat, v: nat, next: seq<nat>, count: nat, pre: Bytes, rest: Bytes)
    requires sh.Valid() && |next| == sh.n && k < sh.n && v < Pow256(sh.size) && count > 0
    ensures var item := BigEndian(sh.Width(), k) + BigEndian(sh.size, v);
            ReadChanged(sh, pre + item + rest, |pre|, next, count) ==
              ReadChanged(sh, pre + item + rest, |pre| + |item|, next[k := v], count - 1)
  {
    hide BigEndian, ReadNumber, IndexWidth, Pow256;
    var a, b := BigEndian(sh.Width(), k), BigEndian(sh.size, v);
    NumberReadsBack(pre, sh.Width(), k, b + rest);
    NumberReadsBack(pre + a, sh.size, v, rest);
    assert pre + (a + b) + rest == pre + a + (b + rest) == pre + a + b + rest;
  }

  lemma {:induction false} ChangedReadsBack(
    sh: Shape, data: seq<nat>, updated: seq<bool>, next: seq<nat>, i: nat, pre: Bytes, tail: Bytes)
    requires sh.Valid() && Fits(sh, data) && |next| == |data| == |updated| && i <= |data|
    ensures ReadChanged(sh, pre + ChangedFrom(sh, data, updated, i) + tail, |pre|, next, CountFrom(updated, i)) ==
            ArrayRead(Overlay(next, data, updated, i), |pre| + |ChangedFrom(sh, data, updated, i)|)
    decreases |data| - i
  {
    hide BigEndian, IndexWidth, Pow256, ReadChanged, ChangedFrom, CountFrom, Overlay, Fits;
    FromTurn(sh, data, updated, next, i);
    FitsAt(sh, data, i);
    if i == |data| {
      NothingChanged(sh, pre + [] + tail, |pre|, next);
    } else if updated[i] {
      var item := BigEndian(sh.Width(), i) + BigEndian(sh.size, data[i]);
      var rest := ChangedFrom(sh, data, updated, i + 1);
      ElementReadsBack(sh, i, data[i], next, CountFrom(updated, i), pre, rest + tail);
      ChangedReadsBack(sh, data, updated, next[i := data[i]], i + 1, pre + item, tail);
      Reassociate(pre, item, rest, tail);
    } else {
      ChangedReadsBack(sh, data, updated, next, i + 1, pre, tail);
    }
  }

  lemma FitsAt(sh: Shape, data: seq<nat>, i: nat)
    requires Fits(sh, data) && i <= |data|
    ensures |data| == sh.n && (i < |data| ==> data[i] < Pow256(sh.size))
  {
  }

  lemma Reassociate(pre: Bytes, item: Bytes, rest: Bytes, tail: Bytes)
    ensures pre + (item + rest) + tail == pre + item + (rest + tail) == pre + item + rest + tail
  {
  }

  /** One element more, marked or not. */
  lemma FromTurn(sh: Shape, data: seq<nat>, updated: seq<bool>, next: seq<nat>, i: nat)
    requires sh.Valid() && |next| == |data| == |updated| && i <= |data|
    ensures i == |data| ==>
              ChangedFrom(sh, data, updated, i) == [] && CountFrom(updated, i) == 0 && Overlay(next, data, updated, i) == next
    ensures i < |data| && updated[i] ==>
              && ChangedFrom(sh, data, updated, i) ==
                 BigEndian(sh.Width(), i) + BigEndian(sh.size, data[i]) + ChangedFrom(sh, data, updated, i + 1)
              && CountFrom(updated, i) == 1 + CountFrom(updated, i + 1)
              && Overlay(next, data, updated, i) == Overlay(next[i := data[i]], data, updated, i + 1)
    ensures i < |data| && !updated[i] ==>
              && ChangedFrom(sh, data, updated, i) == ChangedFrom(sh, data, updated, i + 1)
              && CountFrom(updated, i) == CountFrom(updated, i + 1)
              && Overlay(next, data, updated, i) == Overlay(next, data, updated, i + 1)
  {
    hide BigEndian, IndexWidth, Pow256;
  }

  lemma {:induction false} NoneMarked(updated: seq<bool>, i: nat)
    requires i <= |updated| && forall k :: i <= k < |updated| ==> !updated[k]
    ensures CountFrom(updated, i) == 0
    decreases |updated| - i
  {
    if i < |updated| {
      NoneMarked(updated, i + 1);
    }
  }

  lemma NothingChanged(sh: Shape, buf: Bytes, pos: nat, next: seq<nat>)
    requires sh.Valid() && pos <= |buf| && |next| == sh.n
    ensures ReadChanged(sh, buf, pos, next, 0) == ArrayRead(next, pos)
  {
  }

  /** Reader and writer choose the same form, and the reader ends where the writer did. */
  lemma ArrayReadsBack(sh: Shape, data: seq<nat>, updated: seq<bool>, next: seq<nat>, pre: Bytes, tail: Bytes)
    requires sh.Valid() && Fits(sh, data) && |next| == |updated| == sh.n && CountFrom(updated, 0) > 0
    ensures var r := Decode(sh, pre + Encode(sh, data, updated) + tail, |pre|, next);
            r == ArrayRead(if sh.Dense(CountFrom(updated, 0)) then data else Overlay(next, data, updated, 0),
                           |pre| + |Encode(sh, data, updated)|)
  {
    hide BigEndian, ReadNumber, IndexWidth, Pow256, AllFrom, ChangedFrom, ReadAllFrom, ReadChanged, Overlay, CountFrom;
    var count := CountFrom(updated, 0);
    var head := BigEndian(sh.Width(), CountField(sh, count));
    var body := if sh.Dense(count) then AllFrom(sh, data, 0) else ChangedFrom(sh, data, updated, 0);
    NumberReadsBack(pre, sh.Width(), CountField(sh, count), body + tail);
    assert pre + Encode(sh, data, updated) + tail == pre + head + (body + tail) == pre + head + body + tail;
    CountComesBack(sh, count);
    if sh.Dense(count) {
      AllReadsBack(sh, data, next, 0, pre + head, tail);
    } else {
      ChangedReadsBack(sh, data, updated, next, 0, pre + head, tail);
    }
  }

  lemma CountComesBack(sh: Shape, count: nat)
    requires sh.Valid() && 0 < count <= sh.n
    ensures CountRead(sh, CountField(sh, count)) == count
  {
    hide IndexWidth, Pow256;
    Pow256Values();
  }

  lemma Pow256Values()
    ensures Pow256(1) == 256 && Pow256(2) == 65536 && Pow256(4) == 0x1_0000_0000
  {
    assert Pow256(4) == 256 * Pow256(3) == 65536 * Pow256(2);
  }

  predicate AgreesOutside(next: seq<nat>, data: seq<nat>, updated: seq<bool>)
    requires |next| == |data| == |updated|
  {
    forall k :: 0 <= k < |data| && !updated[k] ==> next[k] == data[k]
  }

  /** With something marked, the reader ends up with the writer's array exactly when the whole
      array was sent, or the two agreed on everything not marked. */
  lemma ArrayRoundTripIff(sh: Shape, data: seq<nat>, updated: seq<bool>, next: seq<nat>, pre: Bytes, tail: Bytes)
    requires sh.Valid() && Fits(sh, data) && |next| == |updated| == sh.n && CountFrom(updated, 0) > 0
    ensures sh.Dense(CountFrom(updated, 0)) || AgreesOutside(next, data, updated) <==>
            Decode(sh, pre + Encode(sh, data, updated) + tail, |pre|, next) ==
              ArrayRead(data, |pre| + |Encode(sh, data, updated)|)
  {
    hide Decode, Encode, CountFrom, IndexWidth;
    ArrayReadsBack(sh, data, updated, next, pre, tail);
    var r := Overlay(next, data, updated, 0);
    if r == data && !sh.Dense(CountFrom(updated, 0)) {
      forall k | 0 <= k < |data| && !updated[k]
        ensures next[k] == data[k]
      {
        assert r[k] == next[k];
      }
    }
  }

  /** The header, and the shorter of the two forms: the changed elements one by one, unless all of them
      take less. */
  lemma EncodedLength(sh: Shape, data: seq<nat>, updated: seq<bool>)
    requires sh.Valid() && |data| == |updated| == sh.n
    ensures var sparse, dense := sh.SparseSize(CountFrom(updated, 0)), sh.DenseSize();
            && |Encode(sh, data, updated)| == sh.Width() + (if sparse <= dense then sparse else dense)
            && Encode(sh, data, updated)[sh.Width()..] ==
               if sparse <= dense then ChangedFrom(sh, data, updated, 0) else AllFrom(sh, data, 0)
  {
    hide IndexWidth, Pow256, BigEndian;
  }

  /** Nothing marked: the reader takes the header for "all of them" and eats what follows, unless
      indices take four bytes, where the count wraps to none. */
  lemma EmptySetFramedIff(sh: Shape, data: seq<nat>, updated: seq<bool>, next: seq<nat>, pre: Bytes, tail: Bytes)
    requires sh.Valid() && |data| == |updated| == |next| == sh.n && CountFrom(updated, 0) == 0
    requires |tail| >= sh.DenseSize()
    ensures sh.Width() == 4 <==>
            Decode(sh, pre + Encode(sh, data, updated) + tail, |pre|, next) ==
              ArrayRead(next, |pre| + |Encode(sh, data, updated)|)
  {
    hide BigEndian, ReadNumber, IndexWidth, Pow256, ReadAllFrom, ChangedFrom, CountFrom;
    Pow256Values();
    var head := BigEndian(sh.Width(), CountField(sh, 0));
    NoneChanged(sh, data, updated, 0);
    assert !sh.Dense(0);
    assert Encode(sh, data, updated) == head;
    NumberReadsBack(pre, sh.Width(), CountField(sh, 0), tail);
    if sh.Width() != 4 {
      ManyAreDense(sh);
      EatsAll(sh, pre + head + tail, |pre| + |head|, next, 0);
    }
  }

  lemma NoneChanged(sh: Shape, data: seq<nat>, updated: seq<bool>, i: nat)
    requires sh.Valid() && i <= |data| == |updated| && CountFrom(updated, i) == 0
    ensures ChangedFrom(sh, data, updated, i) == []
  {
    hide IndexWidth, BigEndian;
  }

  lemma ManyAreDense(sh: Shape)
    requires sh.Valid()
    ensures sh.Dense(Pow256(sh.Width()))
  {
    hide IndexWidth, Pow256;
    var m, w := Pow256(sh.Width()), sh.Width();
    assert m * (w + sh.size) == m * w + m * sh.size;
    assert m * sh.size >= sh.n * sh.size;
    assert m * w >= m;
  }

  lemma {:induction false} EatsAll(sh: Shape, buf: Bytes, pos: nat, next: seq<nat>, i: nat)
    requires sh.Valid() && i <= |next| && pos + (|next| - i) * sh.size <= |buf|
    ensures ReadAllFrom(sh, buf, pos, next, i).ArrayRead?
    ensures ReadAllFrom(sh, buf, pos, next, i).pos == pos + (|next| - i) * sh.size
    decreases |next| - i
  {
    hide FromBigEndian;
    if i < |next| {
      assert (|next| - i) * sh.size == sh.size + (|next| - (i + 1)) * sh.size;
      assert 0 <= (|next| - (i + 1)) * sh.size;
      EatsAll(sh, buf, pos + sh.size, next[i := FromBigEndian(buf[pos..pos + sh.size])], i + 1);
    }
  }

  /** An index out of bounds is skipped, element and all, only for one-byte elements (or where the
      end of the packet happens to be right behind). */
  lemma BadIndexSkipsIff(size: nat, pos: nat, used: nat)
    requires (size == 1 || size == 2 || size == 4 || size == 8) && pos + size <= used
    ensures AfterBadIndex(size, pos, used) == pos + size <==> size == 1 || (size == 2 && pos + 3 == used)
  {
  }

  // ---------------------------------------------------------------- the class

  class ArrayField {
    const sh: Shape
    const data: array<nat>
    const dataNext: array<nat>
    var indices: seq<bool>
    var updated: bool

    ghost predicate Valid()
      reads this, data, dataNext
    {
      sh.Valid() && data != dataNext && dataNext.Length == sh.n && |indices| == sh.n && Fits(sh, data[..])
    }

    /** A new field counts every index as changed. */
    constructor (sh: Shape)
      requires sh.Valid()
      ensures Valid() && fresh(data) && fresh(dataNext) && this.sh == sh && updated
      ensures forall k :: 0 <= k < |indices| ==> indices[k]
    {
      this.sh := sh;
      data := new nat[sh.n](_ => 0);
      dataNext := new nat[sh.n](_ => 0);
      indices := seq(sh.n, _ => true);
      updated := true;
      new;
      assert forall k :: 0 <= k < |data[..]| ==> data[..][k] == 0;
    }

    method Set(index: nat, v: nat)
      requires Valid() && index < sh.n && v < Pow256(sh.size)
      modifies `indices, `updated, data
      ensures Valid() && data[..] == old(data[..])[index := v]
      ensures if old(data[index]) != v
              then indices == old(indices)[index := true] && updated
              else indices == old(indices) && updated == old(updated)
    {
      if data[index] != v {
        data[index] := v;
        indices := indices[index := true];
        updated := true;
      }
      assert data[..] == old(data[..])[index := v];
    }

    method SetUpdated(u: bool)
      requires Valid()
      modifies `indices, `updated
      ensures Valid() && updated == u
      ensures if u then indices == old(indices) else CountFrom(indices, 0) == 0
    {
      updated := u;
      if !u {
        indices := seq(sh.n, _ => false);
        NoneMarked(indices, 0);
      }
    }

    method ShiftData()
      requires Valid() && Fits(sh, dataNext[..])
      modifies data
      ensures Valid() && data[..] == dataNext[..]
    {
      forall i | 0 <= i < data.Length {
        data[i] := dataNext[i];
      }
    }

    method CountIndices() returns (c: nat)
      requires Valid()
      ensures c == CountFrom(indices, 0)
    {
      c := 0;
      var i := 0;
      while i < |indices|
        invariant 0 <= i <= |indices| && c + CountFrom(indices, i) == CountFrom(indices, 0)
      {
        c := c + if indices[i] then 1 else 0;
        i := i + 1;
      }
    }

    method WriteAll(p: Packet)
      requires Valid() && p.Valid() && p.pos == p.used
      modifies p.Repr()
      ensures p.Valid() && p.pos == p.used && (p.data == old(p.data) || fresh(p.data))
      ensures p.Contents() == old(p.Contents()) + AllFrom(sh, data[..], 0)
    {
      hide BigEndian, Overwrite, Pow256;
      ghost var total := p.Contents() + AllFrom(sh, data[..], 0);
      ghost var d := data[..];
      var i: nat := 0;
      while i < data.Length
        invariant i <= data.Length && p.Valid() && p.pos == p.used && (p.data == old(p.data) || fresh(p.data))
        invariant data[..] == d && p.Contents() + AllFrom(sh, d, i) == total
      {
        ghost var sofar := p.Contents();
        p.WriteBE(sh.size, data[i]);
        assert sofar + (BigEndian(sh.size, d[i]) + AllFrom(sh, d, i + 1)) == total;
        i := i + 1;
      }
    }

    method WriteChanged(p: Packet)
      requires Valid() && p.Valid() && p.pos == p.used
      modifies p.Repr()
      ensures p.Valid() && p.pos == p.used && (p.data == old(p.data) || fresh(p.data))
      ensures p.Contents() == old(p.Contents()) + ChangedFrom(sh, data[..], indices, 0)
    {
      hide BigEndian, Overwrite, Pow256, IndexWidth;
      ghost var total := p.Contents() + ChangedFrom(sh, data[..], indices, 0);
      ghost var d := data[..];
      var i: nat := 0;
      while i < data.Length
        invariant i <= data.Length && p.Valid() && p.pos == p.used && (p.data == old(p.data) || fresh(p.data))
        invariant data[..] == d && p.Contents() + ChangedFrom(sh, d, indices, i) == total
      {
        if indices[i] {
          ghost var sofar := p.Contents();
          p.WriteBE(sh.Width(), i);
          p.WriteBE(sh.size, data[i]);
          assert sofar + (BigEndian(sh.Width(), i) + BigEndian(sh.size, d[i]) + ChangedFrom(sh, d, indices, i + 1)) == total;
        }
        i := i + 1;
      }
    }

    method WriteToPacket(p: Packet) returns (n: nat)
      requires Valid() && p.Valid() && p.pos == p.used && {data, dataNext} !! {p.data}
      modifies p.Repr()
      ensures p.Valid() && p.pos == p.used && (p.data == old(p.data) || fresh(p.data))
      ensures p.Contents() == old(p.Contents()) + Encode(sh, data[..], indices) && n == |Encode(sh, data[..], indices)|
    {
      hide BigEndian, Overwrite, Pow256, IndexWidth, AllFrom, ChangedFrom;
      ghost var start := p.Contents();
      var count := CountIndices();
      p.WriteBE(sh.Width(), CountField(sh, count));
      ghost var head := BigEndian(sh.Width(), CountField(sh, count));
      if sh.Dense(count) {
        WriteAll(p);
        n := sh.Width() + sh.DenseSize();
        assert p.Contents() == start + (head + AllFrom(sh, data[..], 0));
      } else {
        WriteChanged(p);
        n := sh.Width() + sh.SparseSize(count);
        assert p.Contents() == start + (head + ChangedFrom(sh, data[..], indices, 0));
      }
    }

    static method ReadValue(p: Packet, n: nat) returns (v: nat)
      requires p.Valid() && p.used < SIZE_T / 2 && 0 < n && ReadNumber(p.Contents(), p.pos, n).Number?
      modifies p`pos
      ensures p.Valid() && p.Contents() == old(p.Contents())
      ensures ReadNumber(p.Contents(), old(p.pos), n) == Number(v, p.pos)
    {
      ReadGuardExact(p.pos, p.used, n);
      if p.pos <= (p.used - n) % SIZE_T {
        v := p.ReadBE(n);
      } else {
        v := 0;
      }
    }

    method ReadAll(p: Packet)
      requires Valid() && p.Valid() && p.used < SIZE_T / 2 && {data, dataNext} !! {p.data}
      requires ReadAllFrom(sh, p.Contents(), p.pos, dataNext[..], 0) != ArrayFault
      modifies dataNext, p`pos
      ensures p.Valid() && p.Contents() == old(p.Contents())
      ensures ReadAllFrom(sh, p.Contents(), old(p.pos), old(dataNext[..]), 0) == ArrayRead(dataNext[..], p.pos)
    {
      hide ReadNumber;
      ghost var buf := p.Contents();
      ghost var whole := ReadAllFrom(sh, buf, p.pos, dataNext[..], 0);
      var i: nat := 0;
      while i < dataNext.Length
        invariant i <= dataNext.Length && p.Valid() && p.Contents() == buf && p.used == old(p.used)
        invariant whole == ReadAllFrom(sh, buf, p.pos, dataNext[..], i)
      {
        ghost var before := dataNext[..];
        var v := ReadValue(p, sh.size);
        dataNext[i] := v;
        assert dataNext[..] == before[i := v];
        i := i + 1;
      }
    }

    /** One listed element: into its place, or past it when the index is out of bounds. */
    method ReadElement(p: Packet, ghost count: nat)
      requires Valid() && p.Valid() && p.used < SIZE_T / 2 && {data, dataNext} !! {p.data} && count > 0
      requires ReadChanged(sh, p.Contents(), p.pos, dataNext[..], count) != ArrayFault
      modifies dataNext, p`pos
      ensures p.Valid() && p.Contents() == old(p.Contents())
      ensures ReadChanged(sh, p.Contents(), old(p.pos), old(dataNext[..]), count) ==
              ReadChanged(sh, p.Contents(), p.pos, dataNext[..], count - 1)
    {
      hide ReadNumber, IndexWidth, Pow256;
      ghost var before := dataNext[..];
      var k := ReadValue(p, sh.Width());
      if k < sh.n {
        var v := ReadValue(p, sh.size);
        dataNext[k] := v;
        assert dataNext[..] == before[k := v];
      } else {
        p.Seek(SEEK_CUR, sh.size);
      }
    }

    /** The size returned is the form's, whatever was there to read. */
    method ReadFromPacket(p: Packet) returns (n: nat)
      requires Valid() && p.Valid() && p.used < SIZE_T / 2 && {data, dataNext} !! {p.data}
      requires Decode(sh, p.Contents(), p.pos, dataNext[..]) != ArrayFault
      modifies dataNext, p`pos
      ensures p.Valid() && p.Contents() == old(p.Contents())
      ensures Decode(sh, p.Contents(), old(p.pos), old(dataNext[..])) == ArrayRead(dataNext[..], p.pos)
    {
      hide ReadNumber, IndexWidth, Pow256, ReadAllFrom, ReadChanged;
      var field := ReadValue(p, sh.Width());
      var count := CountRead(sh, if field < Pow256(sh.Width()) then field else 0);
      if sh.Dense(count) {
        ReadAll(p);
        n := sh.Width() + sh.DenseSize();
      } else {
        ReadListed(p, count);
        n := sh.Width() + sh.SparseSize(count);
      }
    }

    method ReadListed(p: Packet, count: nat)
      requires Valid() && p.Valid() && p.used < SIZE_T / 2 && {data, dataNext} !! {p.data}
      requires ReadChanged(sh, p.Contents(), p.pos, dataNext[..], count) != ArrayFault
      modifies dataNext, p`pos
      ensures p.Valid() && p.Contents() == old(p.Contents())
      ensures ReadChanged(sh, p.Contents(), old(p.pos), old(dataNext[..]), count) == ArrayRead(dataNext[..], p.pos)
    {
      hide ReadChanged;
      ghost var buf := p.Contents();
      ghost var whole := ReadChanged(sh, buf, p.pos, dataNext[..], count);
      var i: nat := 0;
      while i < count
        invariant i <= count && p.Valid() && p.Contents() == buf && p.used == old(p.used)
        invariant whole == ReadChanged(sh, buf, p.pos, dataNext[..], count - i)
      {
        ReadElement(p, count - i);
        i := i + 1;
      }
      NothingChanged(sh, buf, p.pos, dataNext[..]);
    }
  }
}
