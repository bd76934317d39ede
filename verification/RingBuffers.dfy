/** The ring that holds the last deltas (include/nrg_ringbuffer.h): N slots for N-1 elements. */
module RingBuffers {
  import opened Queues

  lemma FullTail<T>(s: seq<T>, head: nat)
    requires 2 <= |s| && head < |s|
    ensures Rotated(s, head)[1..] == Between(s, Succ(head, |s|), head)
  {
    if head + 1 < |s| {
      assert (s[head..] + s[..head])[1..] == s[head + 1..] + s[..head];
    } else {
      assert (s[head..] + s[..head])[1..] == s[0..head];
    }
  }

  class RingBuffer<T> {
    const data: array<T>
    var start: nat
    var end: nat

    ghost predicate Valid()
      reads this
    {
      2 <= data.Length && start < data.Length && end < data.Length
    }

    /** Number of live elements. */
    function Size(): (n: nat)
      requires Valid()
      reads this
      ensures n < data.Length
    {
      if start <= end then end - start else end + data.Length - start
    }

    /** Slot of the k-th live element, or of the end. */
    function Slot(k: nat): (i: nat)
      requires Valid() && k <= Size()
      reads this
      ensures i < data.Length && (k == Size() <==> i == end)
    {
      if start + k < data.Length then start + k else start + k - data.Length
    }

    /** The elements from the oldest to the newest. */
    ghost function Window(): (w: seq<T>)
      requires Valid()
      reads this, data
      ensures |w| == Size() && forall k | 0 <= k < Size() :: w[k] == data[Slot(k)]
    {
      Between(data[..], start, end)
    }

    constructor (capacity: nat, fill: T)
      requires 2 <= capacity
      ensures Valid() && fresh(data) && data.Length == capacity && Window() == []
    {
      data := new T[capacity](_ => fill);
      start, end := 0, 0;
    }

    /** next() with the caller's use of the slot it returns: the newest element is v, and when the
        ring is full the oldest one goes. */
    method Push(v: T)
      requires Valid()
      modifies this, data
      ensures Valid()
      ensures var w := old(Window()) + [v]; Window() == if |w| < data.Length then w else w[1..]
    {
      hide Between, Rotated, Succ;
      ghost var was := data[..];
      data[end] := v;
      ghost var now := data[..];
      assert now == was[end := v];
      end := Succ(end, data.Length);
      if end == start {
        FullRotation(was, start, old(end), v);
        FullTail(now, start);
        start := Succ(start, data.Length);
      } else {
        OneMore(was, start, old(end), v);
      }
    }

    /** iterator++ */
    function Forward(i: nat): nat
      requires Valid() && i < data.Length
      reads this
    {
      if i != end then Succ(i, data.Length) else i
    }

    /** iterator-- */
    function Back(i: nat): nat
      requires Valid() && i < data.Length
      reads this
    {
      if i == start then i else if i == 0 then data.Length - 1 else i - 1
    }

    lemma Moves(k: nat)
      requires Valid() && k <= Size()
      ensures k < Size() ==> Forward(Slot(k)) == Slot(k + 1)
      ensures k > 0 ==> Back(Slot(k)) == Slot(k - 1)
      ensures k == 0 <==> Slot(k) == start
      ensures k == Size() <==> Slot(k) == end
    {
      hide Succ;
    }

    /** find(rbegin(), rend(), ...).base(): the slot behind the newest match, or the start. */
    method FindFromEnd(matches: T -> bool) returns (base: nat, ghost k: nat)
      requires Valid()
      ensures k <= Size() && base == Slot(k)
      ensures k > 0 ==> matches(Window()[k - 1])
      ensures forall j | k <= j < Size() :: !matches(Window()[j])
    {
      base, k := end, Size();
      while base != start
        invariant k <= Size() && base == Slot(k)
        invariant forall j | k <= j < Size() :: !matches(Window()[j])
        decreases k
      {
        Moves(k);
        var prev := Back(base);
        if matches(data[prev]) {
          return;
        }
        base, k := prev, k - 1;
      }
      Moves(k);
    }

    /** distance(base, end()) */
    method DistanceToEnd(base: nat, ghost k: nat) returns (n: nat)
      requires Valid() && k <= Size() && base == Slot(k)
      ensures n == Size() - k
    {
      n := 0;
      var i := base;
      while i != end
        invariant k + n <= Size() && i == Slot(k + n)
        decreases Size() - k - n
      {
        Moves(k + n);
        i, n := Forward(i), n + 1;
      }
      Moves(k + n);
    }
  }
}
