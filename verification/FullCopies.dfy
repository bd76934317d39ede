/** When rewriting a record of the full copy is right whatever the fields hold. A field that has not
    been updated is copied from the old bytes, at an offset summed from sizes of which the earlier
    ones have been overwritten already (src/nrg_snapshot.cpp:53-81, 114-116). */
module FullCopies {
  import opened Packets
  import opened Codecs
  import opened Worlds
  import opened DeltaSnapshots
  import opened MasterSnapshots

  /** An entity as recorded and as it is now: ws and ns are its fields' sizes then and now, flags say
      which fields have been updated, and the others are what they were. */
  ghost predicate Meeting(was: seq<Bytes>, now: seq<Bytes>, ws: seq<nat>, ns: seq<nat>, flags: seq<bool>)
    requires |ws| == |ns| == |flags|
  {
    && Sizes(was) == ws && Sizes(now) == ns
    && forall j :: 0 <= j < |flags| && !flags[j] ==> was[j] == now[j]
  }

  /** Copying field i is right for every content of such sizes. */
  ghost predicate AlwaysRight(ws: seq<nat>, ns: seq<nat>, flags: seq<bool>, i: nat)
    requires i < |ws| == |ns| == |flags|
  {
    forall was: seq<Bytes>, now: seq<Bytes> :: Meeting(was, now, ws, ns, flags) ==> CopiedRight(Concat(was), now, i)
  }

  /** n bytes of one value. */
  function Filled(n: nat, b: byte): (s: Bytes)
    ensures |s| == n
  {
    seq(n, _ => b)
  }

  /** Zeroes everywhere but in field i. */
  function Marking(sizes: seq<nat>, i: nat): (r: seq<Bytes>)
    ensures |r| == |sizes| && Sizes(r) == sizes
  {
    seq(|sizes|, j requires 0 <= j < |sizes| => Filled(sizes[j], if j == i then 1 else 0))
  }

  /** The ones in the joined bytes are those of field i. */
  lemma {:induction false} OnlyThere(sizes: seq<nat>, i: nat, k: nat)
    requires k < |Concat(Marking(sizes, i))|
    ensures Concat(Marking(sizes, i))[k] == 1 <==>
              i < |sizes| && SumOf(sizes[..i]) <= k < SumOf(sizes[..i]) + sizes[i]
  {
    hide Sizes, Filled, SumOf;
    var n := |sizes| - 1;
    if |sizes| == 0 {
      NothingJoined(Marking(sizes, i));
    } else {
      var front, last := Marking(sizes[..n], i), Filled(sizes[n], if n == i then 1 else 0);
      MarkingFront(sizes, i);
      ConcatLength(front);
      FilledAt(sizes[n], if n == i then 1 else 0);
      LastSum(sizes, i);
      if k < |Concat(front)| {
        OnlyThere(sizes[..n], i, k);
      }
    }
  }

  lemma NothingJoined(images: seq<Bytes>)
    ensures images == [] ==> |Concat(images)| == 0
  {
  }

  lemma MarkingFront(sizes: seq<nat>, i: nat)
    requires sizes != []
    ensures var n := |sizes| - 1;
            Concat(Marking(sizes, i)) == Concat(Marking(sizes[..n], i)) + Filled(sizes[n], if n == i then 1 else 0)
    ensures Sizes(Marking(sizes[..|sizes| - 1], i)) == sizes[..|sizes| - 1]
  {
    hide Sizes, Filled;
    var n := |sizes| - 1;
    assert Marking(sizes, i)[..n] == Marking(sizes[..n], i);
  }

  lemma FilledAt(n: nat, b: byte)
    ensures forall k :: 0 <= k < n ==> Filled(n, b)[k] == b
  {
  }

  lemma {:induction false} SumGrows(sizes: seq<nat>, i: nat)
    requires i < |sizes|
    ensures SumOf(sizes[..i]) + sizes[i] <= SumOf(sizes)
    decreases |sizes|
  {
    var n := |sizes| - 1;
    if i < n {
      SumGrows(sizes[..n], i);
      assert sizes[..n][..i] == sizes[..i];
    } else {
      assert sizes[..i] == sizes[..n];
    }
  }

  lemma LastSum(sizes: seq<nat>, i: nat)
    requires sizes != []
    ensures var n := |sizes| - 1;
            && SumOf(sizes) == SumOf(sizes[..n]) + sizes[n]
            && (i < n ==> sizes[..n][..i] == sizes[..i] && sizes[..n][i] == sizes[i] &&
                          SumOf(sizes[..i]) + sizes[i] <= SumOf(sizes[..n]))
  {
    var n := |sizes| - 1;
    if i < n {
      SumGrows(sizes[..n], i);
      assert sizes[..n][..i] == sizes[..i];
    }
  }

  /** Where the offset has moved, some contents show it. */
  lemma MovedIsWrong(ws: seq<nat>, ns: seq<nat>, flags: seq<bool>, i: nat)
    requires i < |ws| == |ns| == |flags| && !flags[i] && ws[i] == ns[i] > 0
    requires forall j :: 0 <= j < |flags| && !flags[j] ==> ws[j] == ns[j]
    requires SumOf(ns[..i]) != SumOf(ws[..i])
    ensures !AlwaysRight(ws, ns, flags, i)
  {
    hide Concat, SumOf, CopiedRight, Sizes;
    var was, now := Marking(ws, i), Marking(ns, i);
    assert Meeting(was, now, ws, ns, flags);
    var saved, at := Concat(was), SumOf(ns[..i]);
    FrontSizes(ns, i);
    if CopiedRight(saved, now, i) {
      CopyTaken(saved, now, i);
      var k := if at < SumOf(ws[..i]) then at else at + ns[i] - 1;
      FilledAt(ns[i], 1);
      assert saved[at..at + ns[i]] == Filled(ns[i], 1);
      assert saved[k] == saved[at..at + ns[i]][k - at] == 1;
      OnlyThere(ws, i, k);
      assert false;
    }
  }

  lemma FrontSizes(ns: seq<nat>, i: nat)
    requires i < |ns|
    ensures Sizes(Marking(ns, i)[..i]) == ns[..i] && Marking(ns, i)[i] == Filled(ns[i], 1)
  {
  }

  lemma CopyTaken(saved: Bytes, now: seq<Bytes>, i: nat)
    requires i < |now| && CopiedRight(saved, now, i)
    ensures var at := SumOf(Sizes(now[..i]));
            at + |now[i]| <= |saved| && saved[at..at + |now[i]|] == now[i]
  {
  }

  /** A field that has not been updated is copied right whatever the entity holds, if and only if the
      fields in front of it still take as many bytes together as when they were recorded. */
  lemma AlwaysRightIff(ws: seq<nat>, ns: seq<nat>, flags: seq<bool>, i: nat)
    requires i < |ws| == |ns| == |flags| && !flags[i] && ws[i] == ns[i] > 0
    requires forall j :: 0 <= j < |flags| && !flags[j] ==> ws[j] == ns[j]
    ensures AlwaysRight(ws, ns, flags, i) <==> SumOf(ns[..i]) == SumOf(ws[..i])
  {
    hide Concat, SumOf, CopiedRight;
    if SumOf(ns[..i]) == SumOf(ws[..i]) {
      forall was: seq<Bytes>, now: seq<Bytes> | Meeting(was, now, ws, ns, flags)
        ensures CopiedRight(Concat(was), now, i)
      {
        assert Sizes(was[..i]) == ws[..i] && Sizes(now[..i]) == ns[..i];
        KeptIsRight(was, now, i);
      }
    } else {
      MovedIsWrong(ws, ns, flags, i);
    }
  }

  // ---------------------------------------------------------------- the smallest cases

  const NUMBER: Bytes := [5, 6]

  /** A string that has been updated, and behind it a number that has not. */
  function Pair(typ: nat, text: Bytes): ServerEntity
  {
    ServerEntity(typ, [FieldState(true, TextImage(text)), FieldState(false, NUMBER)], true)
  }

  function PairRecord(id: nat, typ: nat, text: Bytes): EntityData
  {
    EntityData(id, typ, [|TextImage(text)|, 2], TextImage(text) + NUMBER)
  }

  /** When the string gets shorter by a byte, the copy starts a byte early; when it gets longer, it
      reaches outside of the old bytes. */
  lemma StringInFront(id: nat, typ: nat)
    ensures Rewritten(Some(PairRecord(id, typ, [7])), id, Pair(typ, [])) ==
              Some(EntityData(id, typ, [1, 2], TextImage([]) + [7, 5]))
    ensures Rewritten(Some(PairRecord(id, typ, [])), id, Pair(typ, [7])) == None
  {
    hide Rewritten, RewriteFields, SumOf;
    assert TextImage([]) == [0] && TextImage([7]) == [1, 7];
    PairRewritten(id, typ, [7], []);
    PairRewritten(id, typ, [], [7]);
    var saved := TextImage([7]) + NUMBER;
    assert saved == [1, 7, 5, 6] && saved[1..3] == [7, 5];
  }

  lemma PairRewritten(id: nat, typ: nat, was: Bytes, text: Bytes)
    ensures var at, saved := |TextImage(text)|, TextImage(was) + NUMBER;
            Rewritten(Some(PairRecord(id, typ, was)), id, Pair(typ, text)) ==
            if at + 2 <= |saved| then Some(EntityData(id, typ, [at, 2], TextImage(text) + saved[at..at + 2])) else None
  {
    hide RewriteFields, TextImage;
    var e, ed := Pair(typ, text), FirstRecord(Some(PairRecord(id, typ, was)), id, Pair(typ, text));
    var saved := TextImage(was) + NUMBER;
    assert ed == EntityData(id, typ, [|TextImage(was)|, 2], []);
    RewriteTurn(e.fields, saved, ed, 0);
    var next := EntityData(id, typ, [|TextImage(text)|, 2], [] + TextImage(text));
    assert ed.fieldSizes[0 := |TextImage(text)|] == next.fieldSizes;
    assert RewriteField(e.fields[0], saved, ed, 0) == Some(next);
    RewriteTurn(e.fields, saved, next, 1);
    assert next.fieldSizes[..1] == [|TextImage(text)|];
    OneSize(|TextImage(text)|);
    assert [] + TextImage(text) == TextImage(text);
    var last := RewriteField(e.fields[1], saved, next, 1);
    if last.Some? {
      LastRewrite(e.fields, saved, last.value);
    }
  }

  lemma OneSize(n: nat)
    ensures SumOf([n]) == n
  {
    assert [n][..0] == [];
  }
}
