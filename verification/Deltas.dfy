/** Delta snapshots as values: the entity records and field items of src/nrg_deltasnapshot.cpp,
    the standard-library searches and merges the code runs on them, and when those are exact. */
module Deltas {
  import opened Packets
  import opened Codecs

  /** numFields == 0 records a deletion; full says that every field was updated. */
  datatype EntityInfo = EntityInfo(numFields: nat, id: nat, typ: nat, full: bool)

  datatype Item = Item(entity: nat, number: nat, data: Bytes)

  type Items = seq<Item>

  datatype Delta = Delta(entities: seq<EntityInfo>, items: Items)

  const EMPTY_DELTA := Delta([], [])

  // ---------------------------------------------------------------- an entity's items

  /** All items of an entity, wherever they are. */
  function Of(items: Items, eid: nat): (r: Items)
    ensures forall i | 0 <= i < |r| :: r[i].entity == eid
  {
    if items == [] then [] else (if items[0].entity == eid then [items[0]] else []) + Of(items[1..], eid)
  }

  /** The uninterrupted run of an entity's items that starts at k: what the loops walk. */
  function RunAt(items: Items, k: nat, eid: nat): (r: Items)
    requires k <= |items|
    ensures k + |r| <= |items| && r == items[k..k + |r|]
    ensures forall i | 0 <= i < |r| :: r[i].entity == eid
    decreases |items| - k
  {
    if k < |items| && items[k].entity == eid then [items[k]] + RunAt(items, k + 1, eid) else []
  }

  /** std::find by entity. */
  function Find(items: Items, eid: nat, from: nat): (k: nat)
    requires from <= |items|
    ensures from <= k <= |items|
    ensures k < |items| ==> items[k].entity == eid
    ensures forall i | from <= i < k :: items[i].entity != eid
    decreases |items| - from
  {
    if from == |items| || items[from].entity == eid then from else Find(items, eid, from + 1)
  }

  /** std::lower_bound by entity: the halving search, whatever the order of the items. */
  function LowerBound(items: Items, eid: nat, lo: nat, hi: nat): (k: nat)
    requires lo <= hi <= |items|
    ensures lo <= k <= hi
    decreases hi - lo
  {
    if lo == hi then lo
    else
      var mid := lo + (hi - lo) / 2;
      if items[mid].entity < eid then LowerBound(items, eid, mid + 1, hi) else LowerBound(items, eid, lo, mid)
  }

  /** The run the writer and the merge of shared entities get to see. */
  function SeekRun(items: Items, eid: nat): (r: Items)
    ensures forall i | 0 <= i < |r| :: r[i].entity == eid
  {
    RunAt(items, LowerBound(items, eid, 0, |items|), eid)
  }

  ghost predicate Ordered(items: Items)
  {
    forall i, j | 0 <= i < j < |items| :: items[i].entity <= items[j].entity
  }

  /** Each entity's items stand together. */
  ghost predicate Grouped(items: Items)
  {
    forall i, j, k | 0 <= i < j < k < |items| && items[i].entity == items[k].entity ::
      items[j].entity == items[i].entity
  }

  lemma {:induction false} OfConcat(x: Items, y: Items, eid: nat)
    ensures Of(x + y, eid) == Of(x, eid) + Of(y, eid)
  {
    if x == [] {
      assert x + y == y;
    } else {
      assert (x + y)[1..] == x[1..] + y;
      OfConcat(x[1..], y, eid);
    }
  }

  lemma {:induction false} OfUniform(x: Items, owner: nat, eid: nat)
    requires forall i | 0 <= i < |x| :: x[i].entity == owner
    ensures Of(x, eid) == if eid == owner then x else []
  {
    if x != [] {
      assert x == [x[0]] + x[1..];
      OfUniform(x[1..], owner, eid);
    }
  }

  lemma {:induction false} OfAbsent(items: Items, eid: nat)
    requires forall i | 0 <= i < |items| :: items[i].entity != eid
    ensures Of(items, eid) == []
  {
    if items != [] {
      OfAbsent(items[1..], eid);
    }
  }

  lemma OfSkips(items: Items, k: nat, eid: nat)
    requires k <= |items| && forall i | 0 <= i < k :: items[i].entity != eid
    ensures Of(items, eid) == Of(items[k..], eid)
  {
    assert items == items[..k] + items[k..];
    OfConcat(items[..k], items[k..], eid);
    OfAbsent(items[..k], eid);
  }

  lemma {:induction false} RunIsRest(items: Items, k: nat, eid: nat)
    requires k < |items| && Grouped(items) && items[k].entity == eid
    ensures RunAt(items, k, eid) == Of(items[k..], eid)
    decreases |items| - k
  {
    assert items[k..][1..] == items[k + 1..];
    if k + 1 < |items| {
      if items[k + 1].entity == eid {
        RunIsRest(items, k + 1, eid);
      } else {
        OfAbsent(items[k + 1..], eid);
      }
    }
  }

  /** A run with nothing of the entity before it is all the entity has. */
  lemma RunIsAll(items: Items, k: nat, eid: nat)
    requires k <= |items| && Grouped(items)
    requires forall i | 0 <= i < k :: items[i].entity != eid
    requires k < |items| && items[k].entity != eid ==> forall i | k <= i < |items| :: items[i].entity != eid
    ensures RunAt(items, k, eid) == Of(items, eid)
  {
    OfSkips(items, k, eid);
    if k < |items| && items[k].entity == eid {
      RunIsRest(items, k, eid);
    } else {
      OfAbsent(items[k..], eid);
    }
  }

  lemma FindRun(items: Items, eid: nat)
    requires Grouped(items)
    ensures RunAt(items, Find(items, eid, 0), eid) == Of(items, eid)
  {
    RunIsAll(items, Find(items, eid, 0), eid);
  }

  lemma OrderedIsGrouped(items: Items)
    requires Ordered(items)
    ensures Grouped(items)
  {
  }

  lemma {:induction false} LowerBoundOrdered(items: Items, eid: nat, lo: nat, hi: nat)
    requires Ordered(items) && lo <= hi <= |items|
    requires forall i | 0 <= i < lo :: items[i].entity < eid
    requires forall i | hi <= i < |items| :: items[i].entity >= eid
    ensures forall i | 0 <= i < LowerBound(items, eid, lo, hi) :: items[i].entity < eid
    ensures forall i | LowerBound(items, eid, lo, hi) <= i < |items| :: items[i].entity >= eid
    decreases hi - lo
  {
    if lo < hi {
      var mid := lo + (hi - lo) / 2;
      if items[mid].entity < eid {
        LowerBoundOrdered(items, eid, mid + 1, hi);
      } else {
        LowerBoundOrdered(items, eid, lo, mid);
      }
    }
  }

  lemma SeekRunOrdered(items: Items, eid: nat)
    requires Ordered(items)
    ensures SeekRun(items, eid) == Of(items, eid)
  {
    LowerBoundOrdered(items, eid, 0, |items|);
    OrderedIsGrouped(items);
    RunIsAll(items, LowerBound(items, eid, 0, |items|), eid);
  }

  /** The search over [lo, hi) comes to a member of item i's group, no later than i itself. */
  predicate Found(items: Items, lo: nat, hi: nat, i: nat)
    requires lo <= hi <= |items| && i < |items|
  {
    var k := LowerBound(items, items[i].entity, lo, hi);
    k <= i && items[k].entity == items[i].entity
  }

  lemma FoundSide(items: Items, lo: nat, hi: nat, i: nat)
    requires lo <= i < hi <= |items| && Grouped(items) && Found(items, lo, hi, i)
    ensures var mid := lo + (hi - lo) / 2;
            if i <= mid then items[i].entity <= items[mid].entity && (i < mid ==> Found(items, lo, mid, i))
            else items[mid].entity == items[i].entity ||
                 (items[mid].entity < items[i].entity && Found(items, mid + 1, hi, i))
  {
  }

  /** Two items whose groups the same halving search finds are in ascending order. */
  lemma {:induction false} FoundAscend(items: Items, lo: nat, hi: nat, i: nat, j: nat)
    requires lo <= i < j < hi <= |items| && Grouped(items)
    requires Found(items, lo, hi, i) && Found(items, lo, hi, j)
    ensures items[i].entity <= items[j].entity
    decreases hi - lo
  {
    hide Found, LowerBound;
    var mid := lo + (hi - lo) / 2;
    FoundSide(items, lo, hi, i);
    FoundSide(items, lo, hi, j);
    if j < mid {
      FoundAscend(items, lo, mid, i, j);
    } else if i > mid && items[i].entity != items[mid].entity {
      FoundAscend(items, mid + 1, hi, i, j);
    }
  }

  /** The binary search sees exactly each entity's own items if and only if the items are ordered. */
  lemma SearchExactIff(items: Items)
    requires Grouped(items)
    ensures Ordered(items) <==> forall eid: nat :: SeekRun(items, eid) == Of(items, eid)
  {
    if Ordered(items) {
      forall eid: nat ensures SeekRun(items, eid) == Of(items, eid) {
        SeekRunOrdered(items, eid);
      }
    }
    if forall eid: nat :: SeekRun(items, eid) == Of(items, eid) {
      forall i, j | 0 <= i < j < |items| ensures items[i].entity <= items[j].entity {
        SearchedStart(items, i);
        SearchedStart(items, j);
        FoundAscend(items, 0, |items|, i, j);
      }
    }
  }

  lemma SearchedStart(items: Items, i: nat)
    requires i < |items| && SeekRun(items, items[i].entity) == Of(items, items[i].entity)
    ensures Found(items, 0, |items|, i)
  {
    var eid := items[i].entity;
    var k := LowerBound(items, eid, 0, |items|);
    OfCounts(items, i, eid);
    if i < k {
      OfSuffix(items, i + 1, k, eid);
    }
    RunWithin(items, k, eid);
  }

  lemma {:induction false} OfCounts(items: Items, i: nat, eid: nat)
    requires i < |items| && items[i].entity == eid
    ensures |Of(items, eid)| > |Of(items[i + 1..], eid)|
  {
    assert items == items[..i] + items[i..] && items[i..][1..] == items[i + 1..];
    OfConcat(items[..i], items[i..], eid);
  }

  lemma {:induction false} OfSuffix(items: Items, i: nat, k: nat, eid: nat)
    requires i <= k <= |items|
    ensures |Of(items[i..], eid)| >= |Of(items[k..], eid)|
  {
    assert items[i..] == items[i..k] + items[k..];
    OfConcat(items[i..k], items[k..], eid);
  }

  lemma {:induction false} RunWithin(items: Items, k: nat, eid: nat)
    requires k <= |items|
    ensures |RunAt(items, k, eid)| <= |Of(items[k..], eid)|
    decreases |items| - k
  {
    if k < |items| && items[k].entity == eid {
      assert items[k..][1..] == items[k + 1..];
      RunWithin(items, k + 1, eid);
    }
  }

  // ---------------------------------------------------------------- entity records

  function Lookup(es: seq<EntityInfo>, id: nat): (r: Option<EntityInfo>)
    ensures r.Some? ==> r.value.id == id && r.value in es
    ensures r.None? ==> forall i | 0 <= i < |es| :: es[i].id != id
  {
    if es == [] then None else if es[0].id == id then Some(es[0]) else Lookup(es[1..], id)
  }

  ghost predicate Ascending(es: seq<EntityInfo>)
  {
    forall i, j | 0 <= i < j < |es| :: es[i].id < es[j].id
  }

  lemma LookupMember(es: seq<EntityInfo>, e: EntityInfo)
    requires Ascending(es) && e in es
    ensures Lookup(es, e.id) == Some(e)
  {
    if es[0] != e {
      assert e in es[1..];
      LookupMember(es[1..], e);
    }
  }

  /** std::set_symmetric_difference by id. */
  function SymDiff(x: seq<EntityInfo>, y: seq<EntityInfo>): (r: seq<EntityInfo>)
    ensures forall e | e in r :: e in x || e in y
  {
    if x == [] then y else if y == [] then x
    else if x[0].id < y[0].id then [x[0]] + SymDiff(x[1..], y)
    else if y[0].id < x[0].id then [y[0]] + SymDiff(x, y[1..])
    else SymDiff(x[1..], y[1..])
  }

  /** std::set_intersection by id: the records are those of the first range. */
  function Intersect(x: seq<EntityInfo>, y: seq<EntityInfo>): (r: seq<EntityInfo>)
    ensures forall e | e in r :: e in x
  {
    if x == [] || y == [] then []
    else if x[0].id < y[0].id then Intersect(x[1..], y)
    else if y[0].id < x[0].id then Intersect(x, y[1..])
    else [x[0]] + Intersect(x[1..], y[1..])
  }

  /** std::inplace_merge: stable, the older range first among equals. */
  function StableMerge(x: seq<EntityInfo>, y: seq<EntityInfo>): (r: seq<EntityInfo>)
    ensures forall e | e in r :: e in x || e in y
  {
    if x == [] then y else if y == [] then x
    else if y[0].id < x[0].id then [y[0]] + StableMerge(x, y[1..])
    else [x[0]] + StableMerge(x[1..], y)
  }

  /** std::unique over the reversed range: the last of each group of equals stays. */
  function KeepLast(s: seq<EntityInfo>): (r: seq<EntityInfo>)
    ensures forall e | e in r :: e in s
  {
    if |s| <= 1 then s
    else if s[0].id == s[1].id then KeepLast(s[1..])
    else [s[0]] + KeepLast(s[1..])
  }

  /** inplace_union */
  function Union(older: seq<EntityInfo>, newer: seq<EntityInfo>): seq<EntityInfo>
  {
    KeepLast(StableMerge(older, newer))
  }

  lemma Prepend(e: EntityInfo, rest: seq<EntityInfo>)
    requires Ascending(rest) && forall x | x in rest :: e.id < x.id
    ensures Ascending([e] + rest)
  {
  }

  /** Everything in two lists is above a record that precedes both their heads. */
  lemma HeadBelow(e: EntityInfo, x: seq<EntityInfo>, y: seq<EntityInfo>)
    requires Ascending(x) && Ascending(y)
    requires x != [] ==> e.id < x[0].id
    requires y != [] ==> e.id < y[0].id
    ensures forall z | z in x || z in y :: e.id < z.id
  {
  }

  lemma {:induction false} SymDiffAscending(x: seq<EntityInfo>, y: seq<EntityInfo>)
    requires Ascending(x) && Ascending(y)
    ensures Ascending(SymDiff(x, y))
  {
    if x != [] && y != [] {
      if x[0].id < y[0].id {
        SymDiffAscending(x[1..], y);
        HeadBelow(x[0], x[1..], y);
        Prepend(x[0], SymDiff(x[1..], y));
      } else if y[0].id < x[0].id {
        SymDiffAscending(x, y[1..]);
        HeadBelow(y[0], x, y[1..]);
        Prepend(y[0], SymDiff(x, y[1..]));
      } else {
        SymDiffAscending(x[1..], y[1..]);
      }
    }
  }

  lemma {:induction false} IntersectAscending(x: seq<EntityInfo>, y: seq<EntityInfo>)
    requires Ascending(x) && Ascending(y)
    ensures Ascending(Intersect(x, y))
  {
    if x != [] && y != [] {
      if x[0].id < y[0].id {
        IntersectAscending(x[1..], y);
      } else if y[0].id < x[0].id {
        IntersectAscending(x, y[1..]);
      } else {
        IntersectAscending(x[1..], y[1..]);
        HeadBelow(x[0], x[1..], []);
        Prepend(x[0], Intersect(x[1..], y[1..]));
      }
    }
  }

  /** Looking an id up in an ascending list: only its head can match an id not above the head. */
  lemma {:induction false} LookupBelow(es: seq<EntityInfo>, id: nat)
    requires forall e | e in es :: id < e.id
    ensures Lookup(es, id) == None
  {
  }

  lemma {:induction false} SymDiffLookup(x: seq<EntityInfo>, y: seq<EntityInfo>, id: nat)
    requires Ascending(x) && Ascending(y)
    ensures Lookup(SymDiff(x, y), id) ==
            if Lookup(x, id).None? then Lookup(y, id) else if Lookup(y, id).None? then Lookup(x, id) else None
  {
    if x != [] && y != [] {
      if x[0].id < y[0].id {
        HeadBelow(x[0], x[1..], y);
        LookupBelow(y, x[0].id);
        SymDiffLookup(x[1..], y, id);
      } else if y[0].id < x[0].id {
        HeadBelow(y[0], x, y[1..]);
        LookupBelow(x, y[0].id);
        SymDiffLookup(x, y[1..], id);
      } else {
        HeadBelow(x[0], x[1..], y[1..]);
        LookupBelow(SymDiff(x[1..], y[1..]), x[0].id);
        SymDiffLookup(x[1..], y[1..], id);
      }
    }
  }

  lemma {:induction false} IntersectLookup(x: seq<EntityInfo>, y: seq<EntityInfo>, id: nat)
    requires Ascending(x) && Ascending(y)
    ensures Lookup(Intersect(x, y), id) == if Lookup(y, id).None? then None else Lookup(x, id)
  {
    if x != [] && y != [] {
      if x[0].id < y[0].id {
        HeadBelow(x[0], x[1..], y);
        LookupBelow(y, x[0].id);
        IntersectLookup(x[1..], y, id);
        LookupBelow(Intersect(x[1..], y), x[0].id);
      } else if y[0].id < x[0].id {
        HeadBelow(y[0], x, y[1..]);
        LookupBelow(x, y[0].id);
        IntersectLookup(x, y[1..], id);
      } else {
        HeadBelow(x[0], x[1..], y[1..]);
        IntersectLookup(x[1..], y[1..], id);
      }
    }
  }

  /** What stays of a merge: the newer record of an entity both lists have. */
  function Newest(older: seq<EntityInfo>, newer: seq<EntityInfo>): (r: seq<EntityInfo>)
    ensures forall e | e in r :: e in older || e in newer
  {
    if older == [] then newer else if newer == [] then older
    else if newer[0].id < older[0].id then [newer[0]] + Newest(older, newer[1..])
    else if older[0].id < newer[0].id then [older[0]] + Newest(older[1..], newer)
    else [newer[0]] + Newest(older[1..], newer[1..])
  }

  lemma {:induction false} KeepLastAscending(s: seq<EntityInfo>)
    requires Ascending(s)
    ensures KeepLast(s) == s
  {
    if |s| > 1 {
      KeepLastAscending(s[1..]);
    }
  }

  lemma KeepLastCons(e: EntityInfo, rest: seq<EntityInfo>)
    ensures KeepLast([e] + rest) ==
            if rest != [] && e.id == rest[0].id then KeepLast(rest) else [e] + KeepLast(rest)
  {
    assert ([e] + rest)[1..] == rest;
  }

  lemma StableMergeHead(older: seq<EntityInfo>, newer: seq<EntityInfo>)
    requires older != [] || newer != []
    ensures var m := StableMerge(older, newer);
            m != [] && m[0] == if newer == [] || (older != [] && older[0].id <= newer[0].id) then older[0] else newer[0]
  {
  }

  lemma {:induction false} UnionIsNewest(older: seq<EntityInfo>, newer: seq<EntityInfo>)
    requires Ascending(older) && Ascending(newer)
    ensures Union(older, newer) == Newest(older, newer)
  {
    if older == [] {
      KeepLastAscending(newer);
    } else if newer == [] {
      KeepLastAscending(older);
    } else if newer[0].id < older[0].id {
      UnionIsNewest(older, newer[1..]);
      StableMergeHead(older, newer[1..]);
      KeepLastCons(newer[0], StableMerge(older, newer[1..]));
    } else if older[0].id < newer[0].id {
      UnionIsNewest(older[1..], newer);
      StableMergeHead(older[1..], newer);
      KeepLastCons(older[0], StableMerge(older[1..], newer));
    } else {
      UnionIsNewest(older[1..], newer[1..]);
      KeepLastCons(older[0], StableMerge(older[1..], newer));
      StableMergeHead(older[1..], newer);
      StableMergeCons(older[1..], newer);
      if older[1..] != [] || newer[1..] != [] {
        StableMergeHead(older[1..], newer[1..]);
      }
      KeepLastCons(newer[0], StableMerge(older[1..], newer[1..]));
    }
  }

  lemma StableMergeCons(older: seq<EntityInfo>, newer: seq<EntityInfo>)
    requires newer != [] && (older != [] ==> newer[0].id < older[0].id)
    ensures StableMerge(older, newer) == [newer[0]] + StableMerge(older, newer[1..])
  {
  }

  lemma {:induction false} NewestAscending(older: seq<EntityInfo>, newer: seq<EntityInfo>)
    requires Ascending(older) && Ascending(newer)
    ensures Ascending(Newest(older, newer))
  {
    if older != [] && newer != [] {
      if newer[0].id < older[0].id {
        NewestAscending(older, newer[1..]);
        HeadBelow(newer[0], older, newer[1..]);
        Prepend(newer[0], Newest(older, newer[1..]));
      } else if older[0].id < newer[0].id {
        NewestAscending(older[1..], newer);
        HeadBelow(older[0], older[1..], newer);
        Prepend(older[0], Newest(older[1..], newer));
      } else {
        NewestAscending(older[1..], newer[1..]);
        HeadBelow(newer[0], older[1..], newer[1..]);
        Prepend(newer[0], Newest(older[1..], newer[1..]));
      }
    }
  }

  lemma {:induction false} NewestLookup(older: seq<EntityInfo>, newer: seq<EntityInfo>, id: nat)
    requires Ascending(older) && Ascending(newer)
    ensures Lookup(Newest(older, newer), id) ==
            if Lookup(newer, id).Some? then Lookup(newer, id) else Lookup(older, id)
  {
    if older != [] && newer != [] {
      if newer[0].id < older[0].id {
        NewestLookup(older, newer[1..], id);
      } else if older[0].id < newer[0].id {
        NewestLookup(older[1..], newer, id);
        HeadBelow(older[0], older[1..], newer);
        LookupBelow(newer, older[0].id);
      } else {
        NewestLookup(older[1..], newer[1..], id);
      }
    }
  }

  /** The union is ascending and holds, for every id, the newer record if there is one. */
  lemma UnionLookup(older: seq<EntityInfo>, newer: seq<EntityInfo>, id: nat)
    requires Ascending(older) && Ascending(newer)
    ensures Ascending(Union(older, newer))
    ensures Lookup(Union(older, newer), id) ==
            if Lookup(newer, id).Some? then Lookup(newer, id) else Lookup(older, id)
  {
    UnionIsNewest(older, newer);
    NewestAscending(older, newer);
    NewestLookup(older, newer, id);
  }
}
