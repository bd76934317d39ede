/** Handing out small identifiers and taking them back (include/nrg_util.h:41-63). */
module IdAssigners {
  /** The list of ids to reuse, largest first, and the next one never used. `space` is the number
      of values the id type has. */
  datatype Ids = Ids(start: nat, space: nat, reusable: seq<nat>, maxId: nat)

  predicate Descending(s: seq<nat>)
  {
    forall i, j :: 0 <= i < j < |s| ==> s[i] > s[j]
  }

  function Insert(s: seq<nat>, x: nat): (r: seq<nat>)
    ensures |r| == |s| + 1 && forall y :: y in r <==> y in s || y == x
  {
    if s == [] then [x] else if s[0] >= x then [s[0]] + Insert(s[1..], x) else [x] + s
  }

  /** std::sort with std::greater. */
  function Sorted(s: seq<nat>): (r: seq<nat>)
    ensures |r| == |s| && forall y :: y in r <==> y in s
  {
    if s == [] then [] else
      var before := s[..|s| - 1];
      assert s == before + [s[|s| - 1]];
      Insert(Sorted(before), s[|s| - 1])
  }

  datatype Acquired = Acquired(ids: Ids, id: nat)

  function Acquire(s: Ids): Acquired
    requires s.space > 0
  {
    if s.reusable == [] then Acquired(s.(maxId := (s.maxId + 1) % s.space), s.maxId)
    else Acquired(s.(reusable := s.reusable[..|s.reusable| - 1]), s.reusable[|s.reusable| - 1])
  }

  function Release(s: Ids, id: nat): Ids
  {
    s.(reusable := Sorted(s.reusable + [id]))
  }

  /** Ids in use and ids to reuse together are exactly those from start up to maxId, and maxId
      stands as far above start as there were ever ids in use at once. */
  ghost predicate Ok(s: Ids, live: set<nat>, peak: nat)
  {
    && s.start <= s.maxId < s.space && Descending(s.reusable)
    && (forall id :: id in s.reusable ==> id !in live)
    && (forall id: nat :: id in live || id in s.reusable <==> s.start <= id < s.maxId)
    && s.maxId - s.start == peak
  }

  /** id is not in use, and every smaller one from start on is. */
  ghost predicate LeastFree(s: Ids, live: set<nat>, id: nat)
  {
    id !in live && id >= s.start && forall k: nat :: s.start <= k < id ==> k in live
  }

  /** Nothing smaller than the last element of a descending list is in it. */
  lemma LastIsLeast(s: seq<nat>, k: nat)
    requires s != [] && Descending(s) && k < s[|s| - 1]
    ensures k !in s
  {
    forall i | 0 <= i < |s|
      ensures s[i] != k
    {
      assert s[i] >= s[|s| - 1];
    }
  }

  lemma AcquireLeast(s: Ids, live: set<nat>, peak: nat)
    requires Ok(s, live, peak)
    ensures LeastFree(s, live, Acquire(s).id)
  {
    var id := Acquire(s).id;
    if s.reusable != [] {
      assert id in s.reusable;
      forall k: nat | s.start <= k < id
        ensures k in live
      {
        LastIsLeast(s.reusable, k);
      }
    }
  }

  function Interval(from: nat, end: nat): (r: set<nat>)
    requires from <= end
    ensures |r| == end - from && forall k: nat :: k in r <==> from <= k < end
    decreases end
  {
    if from == end then {} else Interval(from, end - 1) + {end - 1}
  }

  lemma LiveBounded(s: Ids, live: set<nat>, peak: nat)
    requires Ok(s, live, peak)
    ensures |live| <= peak
    ensures s.reusable == [] ==> |live| == peak
    ensures s.reusable != [] ==> |live| < peak
  {
    var all := Interval(s.start, s.maxId);
    assert live <= all;
    if s.reusable == [] {
      assert live == all;
    } else {
      assert s.reusable[0] in all && s.reusable[0] in s.reusable;
      Smaller(live, all, s.reusable[0]);
    }
    Subset(live, all);
  }

  lemma Subset(a: set<nat>, b: set<nat>)
    requires a <= b
    ensures |a| <= |b|
  {
    assert b == a + (b - a);
  }

  lemma Smaller(a: set<nat>, b: set<nat>, x: nat)
    requires a <= b && x in b && x !in a
    ensures |a| < |b|
  {
    Subset(a + {x}, b);
  }

  function Max(a: nat, b: nat): nat
  {
    if a < b then b else a
  }

  /** The list without its last element has lost exactly that. */
  lemma WithoutLast(s: seq<nat>)
    requires s != [] && Descending(s)
    ensures var last, left := s[|s| - 1], s[..|s| - 1];
            Descending(left) && last !in left && forall x :: x in s <==> x in left || x == last
  {
    var last, left := s[|s| - 1], s[..|s| - 1];
    assert s == left + [last];
    forall i | 0 <= i < |left|
      ensures left[i] != last
    {
      assert s[i] > s[|s| - 1];
    }
  }

  lemma ReuseKeeps(s: Ids, live: set<nat>, peak: nat)
    requires Ok(s, live, peak) && s.reusable != []
    ensures var r := Acquire(s);
            r.id !in live && Ok(r.ids, live + {r.id}, peak)
  {
    hide Descending;
    WithoutLast(s.reusable);
  }

  lemma FreshKeepsIff(s: Ids, live: set<nat>, peak: nat)
    requires Ok(s, live, peak) && s.reusable == []
    ensures var r := Acquire(s);
            r.id !in live && (Ok(r.ids, live + {r.id}, peak + 1) <==> s.maxId + 1 < s.space)
  {
    hide Descending;
    assert s.maxId + 1 < s.space ==> (s.maxId + 1) % s.space == s.maxId + 1;
    assert s.maxId + 1 == s.space ==> (s.maxId + 1) % s.space == 0;
  }

  /** Taking an id keeps the books in order exactly as long as the id type does not run out. */
  lemma AcquireKeepsIff(s: Ids, live: set<nat>, peak: nat)
    requires s.space > 0
    requires Ok(s, live, peak)
    ensures var r := Acquire(s);
            Ok(r.ids, live + {r.id}, Max(peak, |live + {r.id}|)) <==> s.reusable != [] || s.maxId + 1 < s.space
  {
    hide Ok, Acquire;
    var r := Acquire(s);
    LiveBounded(s, live, peak);
    if s.reusable == [] {
      FreshKeepsIff(s, live, peak);
    } else {
      ReuseKeeps(s, live, peak);
    }
    assert |live + {r.id}| == |live| + 1;
  }

  lemma {:induction false} InsertDescends(s: seq<nat>, x: nat)
    requires Descending(s) && x !in s
    ensures Descending(Insert(s, x))
  {
    if s != [] && s[0] >= x {
      assert s[0] in s;
      InsertDescends(s[1..], x);
      var t := Insert(s[1..], x);
      forall k | 0 <= k < |t|
        ensures s[0] > t[k]
      {
        assert t[k] in t;
        if t[k] != x {
          var i :| 0 <= i < |s[1..]| && s[1..][i] == t[k];
          assert s[i + 1] == t[k];
        }
      }
    }
  }

  lemma {:induction false} InsertEqual(s: seq<nat>)
    requires Descending(s)
    ensures Sorted(s) == s
  {
    if s != [] {
      var before, x := s[..|s| - 1], s[|s| - 1];
      InsertEqual(before);
      InsertLast(before, x);
      assert before + [x] == s;
    }
  }

  lemma {:induction false} InsertLast(s: seq<nat>, x: nat)
    requires forall i :: 0 <= i < |s| ==> s[i] >= x
    ensures Insert(s, x) == s + [x]
  {
    if s != [] {
      InsertLast(s[1..], x);
      assert s + [x] == [s[0]] + (s[1..] + [x]);
    }
  }

  lemma ReleaseKeeps(s: Ids, live: set<nat>, peak: nat, id: nat)
    requires Ok(s, live, peak) && id in live
    ensures Ok(Release(s, id), live - {id}, peak)
  {
    InsertEqual(s.reusable);
    assert (s.reusable + [id])[..|s.reusable|] == s.reusable;
    InsertDescends(s.reusable, id);
  }

  // ---------------------------------------------------------------- runs

  datatype Op = Take | Give(id: nat)

  /** The assigner, the ids in use, and the most there ever were. */
  datatype Books = Books(ids: Ids, live: set<nat>, peak: nat)

  /** Only ids in use are given back; taking needs one left in the type. */
  predicate Allowed(b: Books, op: Op)
  {
    match op
    case Take => b.ids.space > 0 && (b.ids.reusable != [] || b.ids.maxId + 1 < b.ids.space)
    case Give(id) => id in b.live
  }

  function Step(b: Books, op: Op): Books
    requires Allowed(b, op)
  {
    match op
    case Take =>
      var r := Acquire(b.ids);
      Books(r.ids, b.live + {r.id}, Max(b.peak, |b.live + {r.id}|))
    case Give(id) => Books(Release(b.ids, id), b.live - {id}, b.peak)
  }

  ghost predicate Run(bs: seq<Books>, ops: seq<Op>, start: nat, space: nat)
  {
    |bs| == |ops| + 1 && start < space && bs[0] == Books(Ids(start, space, [], start), {}, 0) &&
    forall i :: 0 <= i < |ops| ==> Allowed(bs[i], ops[i]) && bs[i + 1] == Step(bs[i], ops[i])
  }

  /** In every run: the next id handed out is the least one not in use, ids in use and reusable
      ids partition what was ever handed out, and that is as many as were ever in use at once. */
  lemma {:induction false} AlwaysLeast(bs: seq<Books>, ops: seq<Op>, start: nat, space: nat, i: nat)
    requires Run(bs, ops, start, space) && i < |bs|
    ensures bs[i].ids.start == start && Ok(bs[i].ids, bs[i].live, bs[i].peak)
    ensures bs[i].ids.space == space && LeastFree(bs[i].ids, bs[i].live, Acquire(bs[i].ids).id)
  {
    hide Ok, LeastFree, Acquire, Release;
    if i == 0 {
      assert Ok(bs[0].ids, bs[0].live, bs[0].peak) by {
        Opening(start, space);
      }
    } else {
      AlwaysLeast(bs, ops, start, space, i - 1);
      var b := bs[i - 1];
      assert Allowed(b, ops[i - 1]) && bs[i - 1 + 1] == Step(b, ops[i - 1]);
      match ops[i - 1]
      case Take =>
        AcquireKeepsIff(b.ids, b.live, b.peak);
        SameSpace(b.ids);
      case Give(id) =>
        ReleaseKeeps(b.ids, b.live, b.peak, id);
        SameSpaceReleased(b.ids, id);
    }
    AcquireLeast(bs[i].ids, bs[i].live, bs[i].peak);
  }

  lemma Opening(start: nat, space: nat)
    requires start < space
    ensures Ok(Ids(start, space, [], start), {}, 0)
  {
  }

  lemma SameSpace(s: Ids)
    requires s.space > 0
    ensures Acquire(s).ids.start == s.start && Acquire(s).ids.space == s.space
  {
  }

  lemma SameSpaceReleased(s: Ids, id: nat)
    ensures Release(s, id).start == s.start && Release(s, id).space == s.space
  {
  }

  /** Once the type has run out, an id already in use is handed out again. */
  lemma ReissuedAfterWrap(s: Ids, live: set<nat>, peak: nat)
    requires Ok(s, live, peak) && s.start == 0 && s.reusable == [] && s.maxId + 1 == s.space
    ensures var r := Acquire(s);
            Acquire(r.ids).id in live + {r.id}
  {
    assert Acquire(s).ids.maxId == 0;
  }

  // ---------------------------------------------------------------- the class

  class IdAssigner {
    const start: nat
    const space: nat
    var reusable: seq<nat>
    var maxId: nat

    ghost function State(): Ids
      reads this
    {
      Ids(start, space, reusable, maxId)
    }

    constructor (start: nat, space: nat)
      requires start < space
      ensures State() == Ids(start, space, [], start)
    {
      this.start, this.space := start, space;
      reusable, maxId := [], start;
    }

    method TakeId() returns (id: nat)
      requires space > 0
      modifies this
      ensures Acquired(State(), id) == Acquire(old(State()))
    {
      if |reusable| == 0 {
        id := maxId;
        maxId := (maxId + 1) % space;
      } else {
        id := reusable[|reusable| - 1];
        reusable := reusable[..|reusable| - 1];
      }
    }

    method GiveBack(id: nat)
      modifies this
      ensures State() == Release(old(State()), id)
    {
      reusable := reusable + [id];
      reusable := Sorted(reusable);
    }
  }
}
