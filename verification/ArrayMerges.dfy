/** What merging does to an array field. Its bytes list only the elements changed in one tick, and of
    two ticks the merge keeps the newer bytes alone (include/nrg_field.h:231-258,
    src/nrg_deltasnapshot.cpp:209-215), so elements that only earlier ticks changed can be lost. */
module ArrayMerges {
  import opened Packets
  import opened Codecs
  import opened Deltas
  import opened Merges
  import opened Worlds
  import opened Windows
  import opened ArrayFields
  import opened DeltaSnapshots
  import Servers

  // ---------------------------------------------------------------- one field of a merged window

  function FieldOf(d: Delta, id: nat, n: nat): Option<Bytes>
  {
    var fields := Fields(Of(d.items, id));
    if n in fields then Some(fields[n]) else None
  }

  /** The bytes of field n in the last tick that wrote it since the entity was last deleted. */
  function NewestImage(ds: seq<Delta>, id: nat, n: nat): Option<Bytes>
  {
    if ds == [] then None
    else
      var d := ds[|ds| - 1];
      match Lookup(d.entities, id)
      case None => NewestImage(ds[..|ds| - 1], id, n)
      case Some(e) =>
        if e.numFields == 0 then None
        else if FieldOf(d, id, n).Some? then FieldOf(d, id, n)
        else NewestImage(ds[..|ds| - 1], id, n)
  }

  lemma FieldOfMerge(a: Delta, b: Delta, id: nat, n: nat)
    requires WellFormed(a) && WellFormed(b) && Ordered(a.items) && Ordered(b.items)
    ensures FieldOf(Merge(a, b), id, n) ==
            match Lookup(b.entities, id)
            case None => FieldOf(a, id, n)
            case Some(e) =>
              if e.numFields == 0 then None
              else if FieldOf(b, id, n).Some? then FieldOf(b, id, n)
              else FieldOf(a, id, n)
  {
    hide MergeRuns, Of, WellFormed, Ordered;
    MergeOf(a, b, id);
    var x, y := Lookup(a.entities, id), Lookup(b.entities, id);
    if x.None? {
      NoRecordNoItems(a, id);
    } else if y.Some? {
      RecordFits(a, id);
      RecordFits(b, id);
      MergeRunsFields(Of(a.items, id), Of(b.items, id));
    }
    if y.Some? && y.value.numFields == 0 {
      DeletionCarriesNone(b, id);
    }
  }

  /** A merged window holds, of every field, the bytes that the last tick wrote: those of the ticks
      before are gone. */
  lemma {:induction false} MergeAllField(ds: seq<Delta>, ws: seq<World>, id: nat, n: nat)
    requires History(ds, ws) && OrderedBefore(ds)
    ensures FieldOf(MergeAll(ds), id, n) == NewestImage(ds, id, n)
  {
    hide History, OrderedBefore, Merge, WellFormed, Ordered, Step, Of, AccountsWorld, FieldOf;
    if ds == [] {
      NoField(id, n);
    } else {
      var last := |ds| - 1;
      LengthOf(ds, ws);
      WindowInit(ds, ws);
      MergeAllField(ds[..last], ws[..last + 1], id, n);
      WindowAccounts(ds[..last], ws[..last + 1], 0);
      FieldOfMerge(MergeAll(ds[..last]), ds[last], id, n);
    }
  }

  lemma NoField(id: nat, n: nat)
    ensures FieldOf(EMPTY_DELTA, id, n).None?
  {
  }

  // ---------------------------------------------------------------- an array over a window of ticks

  predicate Marked(updated: seq<bool>)
  {
    CountFrom(updated, 0) > 0
  }

  /** arrays are the field's values before, between and after the ticks; marks[i] are the elements
      marked in tick i, all that changed among them. */
  ghost predicate Changes(sh: Shape, arrays: seq<seq<nat>>, marks: seq<seq<bool>>)
  {
    && sh.Valid() && |arrays| == |marks| + 1
    && (forall i :: 0 <= i < |arrays| ==> ArrayFields.Fits(sh, arrays[i]))
    && (forall i :: 0 <= i < |marks| ==> |marks[i]| == sh.n)
    && (forall i :: 0 <= i < |marks| ==> AgreesOutside(arrays[i], arrays[i + 1], marks[i]))
  }

  /** Every tick wrote the field if something was marked, and none deleted the entity. */
  ghost predicate Written(sh: Shape, ds: seq<Delta>, id: nat, n: nat, arrays: seq<seq<nat>>, marks: seq<seq<bool>>)
    requires Changes(sh, arrays, marks) && |ds| == |marks|
  {
    forall i :: 0 <= i < |ds| ==> WrittenAt(sh, ds[i], id, n, arrays[i + 1], marks[i])
  }

  predicate WrittenAt(sh: Shape, d: Delta, id: nat, n: nat, data: seq<nat>, updated: seq<bool>)
    requires sh.Valid() && |data| == |updated| == sh.n
  {
    && FieldOf(d, id, n) == (if Marked(updated) then Some(Encode(sh, data, updated)) else None)
    && match Lookup(d.entities, id)
       case None => !Marked(updated)
       case Some(e) => e.numFields > 0
  }

  /** The last tick that marked anything. */
  function Newest(marks: seq<seq<bool>>): (r: Option<nat>)
    ensures r.Some? ==> r.value < |marks| && Marked(marks[r.value])
    ensures forall i :: (if r.Some? then r.value + 1 else 0) <= i < |marks| ==> !Marked(marks[i])
  {
    if marks == [] then None
    else if Marked(marks[|marks| - 1]) then Some(|marks| - 1)
    else Newest(marks[..|marks| - 1])
  }

  /** Element k was marked by a tick the client has not seen, other than the newest one. */
  predicate MissedAt(marks: seq<seq<bool>>, t: nat, j: nat, k: nat)
    requires j <= |marks| && forall i :: 0 <= i < j ==> k < |marks[i]|
  {
    exists i :: t <= i < j && marks[i][k]
  }

  lemma {:induction false} MarkedCounts(updated: seq<bool>, i: nat, k: nat)
    requires i <= k < |updated| && updated[k]
    ensures CountFrom(updated, i) > 0
    decreases k - i
  {
    if i < k {
      MarkedCounts(updated, i + 1, k);
    }
  }

  /** An element no tick from s to e marks stays what it is. */
  lemma {:induction false} Unmarked(sh: Shape, arrays: seq<seq<nat>>, marks: seq<seq<bool>>, s: nat, e: nat, k: nat)
    requires Changes(sh, arrays, marks) && s <= e <= |marks| && k < sh.n
    requires forall i :: s <= i < e ==> !marks[i][k]
    ensures arrays[s][k] == arrays[e][k]
    decreases e - s
  {
    if s < e {
      Unmarked(sh, arrays, marks, s, e - 1, k);
      assert AgreesOutside(arrays[e - 1], arrays[e], marks[e - 1]);
    }
  }

  /** Behind the last tick that marked anything, nothing changes any more. */
  lemma SameSince(sh: Shape, arrays: seq<seq<nat>>, marks: seq<seq<bool>>, j: nat, s: nat)
    requires Changes(sh, arrays, marks) && Newest(marks) == Some(j) && j < s <= |marks|
    ensures arrays[s] == arrays[|marks|]
  {
    forall k | 0 <= k < sh.n
      ensures arrays[s][k] == arrays[|marks|][k]
    {
      forall i | s <= i < |marks|
        ensures !marks[i][k]
      {
        assert !Marked(marks[i]);
        if marks[i][k] {
          MarkedCounts(marks[i], 0, k);
        }
      }
      Unmarked(sh, arrays, marks, s, |marks|, k);
    }
  }

  /** Tick by tick, a client follows the array whatever is marked. */
  lemma FollowsInTurn(sh: Shape, arrays: seq<seq<nat>>, marks: seq<seq<bool>>, i: nat, pre: Bytes, tail: Bytes)
    requires Changes(sh, arrays, marks) && i < |marks| && Marked(marks[i])
    ensures var image := Encode(sh, arrays[i + 1], marks[i]);
            Decode(sh, pre + image + tail, |pre|, arrays[i]) == ArrayRead(arrays[i + 1], |pre| + |image|)
  {
    hide Decode, Encode, CountFrom, AgreesOutside;
    ArrayRoundTripIff(sh, arrays[i + 1], marks[i], arrays[i], pre, tail);
  }

  /** Which elements the newest tick leaves to the earlier ones, and whether the client has them. */
  lemma AgreesIff(sh: Shape, arrays: seq<seq<nat>>, marks: seq<seq<bool>>, t: nat, j: nat)
    requires Changes(sh, arrays, marks) && Newest(marks) == Some(j) && t <= |marks|
    ensures AgreesOutside(arrays[t], arrays[|marks|], marks[j]) <==>
            forall k: nat :: k < sh.n && !marks[j][k] && MissedAt(marks, t, j, k) ==> arrays[t][k] == arrays[|marks|][k]
  {
    SameSince(sh, arrays, marks, j, j + 1);
    forall k: nat | k < sh.n && !marks[j][k] && !MissedAt(marks, t, j, k)
      ensures arrays[t][k] == arrays[|marks|][k]
    {
      if t <= j {
        Unmarked(sh, arrays, marks, t, j + 1, k);
      } else {
        SameSince(sh, arrays, marks, j, t);
      }
    }
  }

  lemma {:induction false} NewestImageIs(
    sh: Shape, ds: seq<Delta>, id: nat, n: nat, arrays: seq<seq<nat>>, marks: seq<seq<bool>>)
    requires Changes(sh, arrays, marks) && |ds| == |marks| && Written(sh, ds, id, n, arrays, marks)
    ensures NewestImage(ds, id, n) ==
            match Newest(marks) case None => None case Some(j) => Some(Encode(sh, arrays[j + 1], marks[j]))
    decreases |ds|
  {
    hide Encode, FieldOf, AgreesOutside, Marked;
    if ds != [] {
      var last := |ds| - 1;
      assert WrittenAt(sh, ds[last], id, n, arrays[last + 1], marks[last]);
      NewestImageIs(sh, ds[..last], id, n, arrays[..last + 1], marks[..last]);
    }
  }

  /** A client at world t of a window is sent the merge of the whole window. Its array becomes the
      newest one, and the parse goes on where the field ends, if and only if the newest tick that
      changed the array sent all of it, or every element that only earlier unseen ticks marked is
      already what it should be. */
  lemma MergedArrayIff(
    sh: Shape, ds: seq<Delta>, ws: seq<World>, id: nat, n: nat, arrays: seq<seq<nat>>, marks: seq<seq<bool>>,
    t: nat, j: nat, pre: Bytes, tail: Bytes)
    requires History(ds, ws) && OrderedBefore(ds)
    requires Changes(sh, arrays, marks) && |ds| == |marks| && Written(sh, ds, id, n, arrays, marks)
    requires t <= |ds| && Newest(marks) == Some(j)
    ensures FieldOf(MergeAll(ds), id, n).Some?
    ensures var image := FieldOf(MergeAll(ds), id, n).value;
            Decode(sh, pre + image + tail, |pre|, arrays[t]) == ArrayRead(arrays[|ds|], |pre| + |image|) <==>
            sh.Dense(CountFrom(marks[j], 0)) ||
            forall k: nat :: k < sh.n && !marks[j][k] && MissedAt(marks, t, j, k) ==> arrays[t][k] == arrays[|ds|][k]
  {
    hide History, OrderedBefore, Decode, Encode, CountFrom, AgreesOutside, FieldOf, MergeAll, Written, MissedAt;
    MergeAllField(ds, ws, id, n);
    NewestImageIs(sh, ds, id, n, arrays, marks);
    SameSince(sh, arrays, marks, j, j + 1);
    AgreesIff(sh, arrays, marks, t, j);
    ArrayRoundTripIff(sh, arrays[|ds|], marks[j], arrays[t], pre, tail);
  }

  // ---------------------------------------------------------------- the smallest case

  const ZEROES := [0, 0, 0, 0, 0, 0, 0, 0]

  function Only(i: nat): seq<bool>
  {
    seq(8, k => k == i)
  }

  /** Eight 32-bit elements: tick 1 sets element 0, tick 2 sets element 1. Tick by tick a client
      follows; the merge of the two, which keeps the second image, never brings element 0. */
  lemma ElementLost()
    ensures var sh, one, two := Shape(8, 4), ZEROES[0 := 7], ZEROES[0 := 7][1 := 9];
            && Changes(sh, [ZEROES, one, two], [Only(0), Only(1)])
            && Decode(sh, Encode(sh, two, Only(1)), 0, ZEROES) ==
                 ArrayRead(ZEROES[1 := 9], |Encode(sh, two, Only(1))|)
            && Decode(sh, Encode(sh, two, Only(1)), 0, one) == ArrayRead(two, |Encode(sh, two, Only(1))|)
  {
    hide Decode, Encode, BigEndian, Pow256;
    var sh, one, two := Shape(8, 4), ZEROES[0 := 7], ZEROES[0 := 7][1 := 9];
    SmallFits();
    OneMarked();
    assert AgreesOutside(ZEROES, one, Only(0)) && AgreesOutside(one, two, Only(1));
    ReadsSparse(sh, two, Only(1), ZEROES);
    ReadsSparse(sh, two, Only(1), one);
    assert Overlay(ZEROES, two, Only(1), 0) == ZEROES[1 := 9];
    assert Overlay(one, two, Only(1), 0) == two;
  }

  lemma OneMarked()
    ensures CountFrom(Only(1), 0) == 1
  {
    NoneMarked(Only(1), 2);
    assert CountFrom(Only(1), 1) == 1;
  }

  lemma SmallFits()
    ensures ArrayFields.Fits(Shape(8, 4), ZEROES)
    ensures ArrayFields.Fits(Shape(8, 4), ZEROES[0 := 7])
    ensures ArrayFields.Fits(Shape(8, 4), ZEROES[0 := 7][1 := 9])
  {
    Pow256Values();
  }

  lemma ReadsSparse(sh: Shape, data: seq<nat>, updated: seq<bool>, next: seq<nat>)
    requires sh.Valid() && ArrayFields.Fits(sh, data) && |next| == |updated| == sh.n && Marked(updated)
    requires !sh.Dense(CountFrom(updated, 0))
    ensures Decode(sh, Encode(sh, data, updated), 0, next) ==
            ArrayRead(Overlay(next, data, updated, 0), |Encode(sh, data, updated)|)
  {
    hide Decode, Encode, CountFrom;
    ArrayReadsBack(sh, data, updated, next, [], []);
    assert [] + Encode(sh, data, updated) + [] == Encode(sh, data, updated);
  }

  // ---------------------------------------------------------------- creation from a sparse image

  /** An entity with every field updated is recorded as full, even where an array among them lists
      only some elements. A client that creates the entity from its prototype on the strength of
      that record has the array if and only if it was sent whole or agrees with the prototype on
      what was not marked. */
  lemma CreatedFromSparseIff(
    id: nat, e: ServerEntity, sh: Shape, n: nat, data: seq<nat>, updated: seq<bool>, prototype: seq<nat>,
    pre: Bytes, tail: Bytes)
    requires sh.Valid() && ArrayFields.Fits(sh, data) && |prototype| == |updated| == sh.n && Marked(updated)
    requires n < |e.fields| && e.fields[n].image == Encode(sh, data, updated)
    requires forall f | f in e.fields :: f.updated
    ensures RecordOf(id, e).full
    ensures Decode(sh, pre + e.fields[n].image + tail, |pre|, prototype) ==
              ArrayRead(data, |pre| + |e.fields[n].image|) <==>
            sh.Dense(CountFrom(updated, 0)) || AgreesOutside(prototype, data, updated)
  {
    hide Decode, Encode, CountFrom, AgreesOutside;
    Servers.AllUpdated(id, e.fields, 0);
    ArrayRoundTripIff(sh, data, updated, prototype, pre, tail);
  }
}
