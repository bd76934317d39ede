/** The circular queue that doubles when it fills up (include/nrg_queue.h:33-87). */
module Queues {
  /** (i + 1) % n, for a position within bounds. */
  function Succ(i: nat, n: nat): (r: nat)
    requires i < n
    ensures r < n && r == if i + 1 == n then 0 else i + 1
  {
    (i + 1) % n
  }

  /** (i + j) % n, at most once around. */
  function Around(i: nat, j: nat, n: nat): (r: nat)
    requires i < n && j <= n
    ensures r < n && r == if i + j < n then i + j else i + j - n
  {
    if i + j < n then i + j else i + j - n
  }

  /** The elements between head and tail, around the end where they wrap. */
  function Between<T>(s: seq<T>, head: nat, tail: nat): (r: seq<T>)
    requires head < |s| && tail < |s|
    ensures |r| == if tail >= head then tail - head else |s| - (head - tail)
  {
    if tail >= head then s[head..tail] else s[head..] + s[..tail]
  }

  /** All of a full buffer, from its oldest element on. */
  function Rotated<T>(s: seq<T>, head: nat): (r: seq<T>)
    requires head < |s|
    ensures |r| == |s|
  {
    s[head..] + s[..head]
  }

  lemma RotatedAt<T>(s: seq<T>, head: nat, i: nat)
    requires head < |s| && i < |s|
    ensures Rotated(s, head)[i] == s[Around(head, i, |s|)]
  {
  }

  class Queue<T(0)> {
    var data: array<T>
    var head: nat
    var tail: nat

    ghost predicate Valid()
      reads this
    {
      0 < data.Length && head < data.Length && tail < data.Length
    }

    ghost function Items(): (s: seq<T>)
      requires Valid()
      reads this, data
      ensures |s| < data.Length
    {
      Between(data[..], head, tail)
    }

    /** A size of zero leaves no element to write to. */
    constructor (size: nat)
      requires size > 0
      ensures Valid() && fresh(data) && Items() == []
    {
      data := new T[size];
      head, tail := 0, 0;
    }

    method Push(t: T)
      requires Valid()
      modifies this, data
      ensures Valid() && (data == old(data) || fresh(data)) && Items() == old(Items()) + [t]
    {
      ghost var was, items := data[..], Items();
      data[tail] := t;
      tail := Succ(tail, data.Length);
      if tail == head {
        FullRotation(was, head, old(tail), t);
        assert data[..] == was[old(tail) := t];
        Expand();
      } else {
        assert data[..] == was[old(tail) := t];
        OneMore(was, head, old(tail), t);
      }
    }

    /** Doubling: what was in order around the old buffer fills the upper half of the new one. */
    method Expand()
      requires Valid() && head == tail
      modifies this, data
      ensures Valid() && fresh(data) && data.Length == 2 * old(data.Length)
      ensures Items() == Rotated(old(data[..]), old(head))
    {
      var n := data.Length;
      ghost var was := data[..];
      Resize();
      var i := 0;
      while i < n
        invariant 0 <= i <= n && data.Length == 2 * n && fresh(data) && head == old(head) && tail == old(tail)
        invariant data[..n] == was
        invariant forall k :: 0 <= k < i ==> data[n + k] == was[Around(head, k, n)]
      {
        assert data[..n][Around(head, i, n)] == was[Around(head, i, n)];
        data[n + i] := data[Around(head, i, n)];
        i := i + 1;
      }
      forall k | 0 <= k < n
        ensures data[n..][k] == Rotated(was, old(head))[k]
      {
        RotatedAt(was, old(head), k);
        assert data[n + k] == was[Around(old(head), k, n)];
      }
      tail := 0;
      head := n;
      assert data[n..] + data[..0] == data[n..];
    }

    /** The vector's own resize keeps the elements where they were. */
    method Resize()
      requires 0 < data.Length
      modifies `data
      ensures fresh(data) && data.Length == 2 * old(data.Length) && data[..old(data.Length)] == old(data[..])
    {
      var grown := new T[data.Length * 2];
      forall i | 0 <= i < data.Length {
        grown[i] := data[i];
      }
      data := grown;
    }

    method Pop() returns (t: T)
      requires Valid() && Items() != []
      modifies `head
      ensures Valid() && data == old(data) && [t] + Items() == old(Items())
    {
      OneLess(data[..], head, tail);
      t := data[head];
      head := Succ(head, data.Length);
    }

    method Clear()
      requires Valid()
      modifies `head, `tail
      ensures Valid() && data == old(data) && Items() == []
    {
      head, tail := 0, 0;
    }

    function Size(): (n: nat)
      requires Valid()
      reads this, data
      ensures n == |Items()|
    {
      if tail >= head then tail - head else data.Length - (head - tail)
    }

    predicate Empty()
      requires Valid()
      reads this, data
      ensures Empty() <==> Items() == []
    {
      head == tail
    }
  }

  lemma OneMore<T>(s: seq<T>, head: nat, tail: nat, t: T)
    requires head < |s| && tail < |s| && Succ(tail, |s|) != head
    ensures Between(s[tail := t], head, Succ(tail, |s|)) == Between(s, head, tail) + [t]
  {
    var r := s[tail := t];
    if tail >= head && tail + 1 < |s| {
      assert r[head..tail + 1] == r[head..tail] + [t] == s[head..tail] + [t];
    } else if tail >= head {
      assert r[head..] + r[..0] == s[head..tail] + [t];
    } else {
      assert r[head..] == s[head..] && r[..tail + 1] == s[..tail] + [t];
    }
  }

  lemma FullRotation<T>(s: seq<T>, head: nat, tail: nat, t: T)
    requires head < |s| && tail < |s| && Succ(tail, |s|) == head
    ensures Rotated(s[tail := t], head) == Between(s, head, tail) + [t]
  {
    var r := s[tail := t];
    if head == 0 {
      assert r[0..] + r[..0] == s[..tail] + [t];
    } else {
      assert r[head..] == s[head..] && r[..head] == s[..tail] + [t];
    }
  }

  lemma OneLess<T>(s: seq<T>, head: nat, tail: nat)
    requires head < |s| && tail < |s| && head != tail
    ensures Between(s, head, tail) == [s[head]] + Between(s, Succ(head, |s|), tail)
  {
    if tail < head && head + 1 == |s| {
      assert s[head..] == [s[head]] && s[0..tail] == s[..tail];
    } else if tail < head {
      assert s[head..] == [s[head]] + s[head + 1..];
    }
  }
}
