/** Reading what was written: the parser run on a snapshot's bytes changes the client's world
    exactly as the delta does, and stops at the first byte behind them. */
module SnapshotRoundTrip {
  import opened Packets
  import opened Varints
  import opened BitIO
  import opened Codecs
  import opened Deltas
  import opened Merges
  import opened Worlds
  import opened SnapshotWire

  // ---------------------------------------------------------------- bytes at a place

  ghost predicate At(buf: Bytes, pos: nat, s: Bytes)
  {
    pos + |s| <= |buf| && buf[pos..pos + |s|] == s
  }

  lemma Placed(head: Bytes, body: Bytes, tail: Bytes)
    ensures At(head + body + tail, |head|, body) && |head| <= |head + body + tail|
  {
    assert (head + body + tail)[|head|..|head| + |body|] == body;
  }

  lemma AtSplit(buf: Bytes, pos: nat, x: Bytes, y: Bytes)
    ensures At(buf, pos, x) ==> pos + |x| <= |buf|
    ensures At(buf, pos, x + y) <==> At(buf, pos, x) && At(buf, pos + |x|, y)
  {
    if At(buf, pos, x + y) {
      assert buf[pos..pos + |x|] == buf[pos..pos + |x + y|][..|x|];
      assert buf[pos + |x|..pos + |x| + |y|] == buf[pos..pos + |x + y|][|x|..];
    }
    if At(buf, pos, x) && At(buf, pos + |x|, y) {
      assert buf[pos..pos + |x + y|] == buf[pos..pos + |x|] + buf[pos + |x|..pos + |x| + |y|];
    }
  }

  lemma DecodeAt(buf: Bytes, pos: nat, v: nat)
    requires At(buf, pos, Enc(v)) && v < 0x8000_0000
    ensures Decode(64, buf, pos) == Decoded(v, pos + |Enc(v)|, |Enc(v)|)
  {
    var n := pos + |Enc(v)|;
    assert buf == buf[..pos] + Enc(v) + buf[n..];
    DecodeEnc64(buf[..pos], v, buf[n..]);
  }

  lemma ReadFieldAt(kind: Kind, buf: Bytes, pos: nat, image: Bytes)
    requires At(buf, pos, image) && WellEncoded(kind, image)
    ensures ReadField(kind, buf, pos) == FieldRead(pos + |image|, |image|, Some(image))
  {
    var n := pos + |image|;
    assert buf == buf[..pos] + image + buf[n..];
    ReadImage(kind, buf[..pos], image, buf[n..]);
  }

  // ---------------------------------------------------------------- one entity's fields

  /** A run's items are images of the fields they are numbered for. */
  ghost predicate Encoded(spec: EntityType, run: Items)
  {
    forall i | 0 <= i < |run| :: run[i].number < |spec| && WellEncoded(spec[run[i].number].kind, run[i].data)
  }

  function Overlay(fields: seq<Bytes>, m: map<nat, Bytes>): (r: seq<Bytes>)
    ensures |r| == |fields|
  {
    seq(|fields|, i requires 0 <= i < |fields| => if i in m then m[i] else fields[i])
  }

  lemma OverlayNone(fields: seq<Bytes>)
    ensures Overlay(fields, map[]) == fields
  {
  }

  lemma OverlayFirst(fields: seq<Bytes>, run: Items)
    requires run != [] && run[0].number < |fields| && AscendingNumbers(run)
    ensures Overlay(Assign(fields, run[0].number, Some(run[0].data)), Fields(run[1..])) == Overlay(fields, Fields(run))
  {
    FieldsBounds(run[1..], run[0].number, 0);
  }

  lemma RunTail(spec: EntityType, run: Items, n: nat)
    requires run != [] && Encoded(spec, run) && AscendingNumbers(run) && Below(run, n)
    ensures run[0].number < |spec| && run[0].number < n
    ensures WellEncoded(spec[run[0].number].kind, run[0].data)
    ensures Encoded(spec, run[1..]) && AscendingNumbers(run[1..])
    ensures Above(run[1..], run[0].number) && Below(run[1..], n)
  {
    hide WellEncoded;
  }

  lemma RunStart(run: Items, i: nat, n: nat)
    requires AscendingNumbers(run) && Above(run, i - 1) && Below(run, n) && |run| == n - i > 0
    ensures run[0].number == i
  {
    NumbersGrow(run, 0, |run| - 1);
  }

  lemma {:induction false} ReadAllRun(spec: EntityType, fields: seq<Bytes>, i: nat, run: Items, buf: Bytes, pos: nat)
    requires |fields| == |spec| && i <= |spec| && Encoded(spec, run) && AscendingNumbers(run)
    requires |run| == |spec| - i && Above(run, i - 1) && Below(run, |spec|) && At(buf, pos, DataOf(run))
    ensures ReadAll(spec, fields, i, buf, pos) == FieldsRead(Overlay(fields, Fields(run)), pos + |DataOf(run)|)
    decreases |spec| - i
  {
    hide ReadField, WellEncoded, Encoded, AscendingNumbers, Above, Below, Overlay;
    if i == |spec| {
      OverlayNone(fields);
    } else {
      RunStart(run, i, |spec|);
      RunTail(spec, run, |spec|);
      AtSplit(buf, pos, run[0].data, DataOf(run[1..]));
      ReadFieldAt(spec[i].kind, buf, pos, run[0].data);
      OverlayFirst(fields, run);
      ReadAllRun(spec, Assign(fields, i, Some(run[0].data)), i + 1, run[1..], buf, pos + |run[0].data|);
    }
  }

  lemma MarkedStep(spec: EntityType, fields: seq<Bytes>, x: nat, bits: Bits, buf: Bytes, at: nat, readPos: nat)
    requires |fields| == |spec| == |bits| && x < |spec| && At(buf, at, Pack(bits)) && BitmapSize(x) <= |Pack(bits)|
    ensures BitmapSize(x + 1) <= |Pack(bits)|
    ensures !bits[x] ==>
              ReadMarked(spec, fields, x, ReaderAfter(buf, at, x), buf, at + BitmapSize(x), readPos) ==
              ReadMarked(spec, fields, x + 1, ReaderAfter(buf, at, x + 1), buf, at + BitmapSize(x + 1), readPos)
    ensures bits[x] ==>
              match ReadField(spec[x].kind, buf, Clamp(readPos, |buf|))
              case Undefined => true
              case FieldRead(_, ret, value) =>
                ReadMarked(spec, fields, x, ReaderAfter(buf, at, x), buf, at + BitmapSize(x), readPos) ==
                ReadMarked(spec, Assign(fields, x, value), x + 1, ReaderAfter(buf, at, x + 1),
                           buf, at + BitmapSize(x + 1), readPos + ret)
  {
    hide ReadField, Pack, ReadBit, Assign;
    ReadBitOfPack(buf, at, bits, x);
  }

  /** The hopping reader: with the bitmap at `at`, standing before bit x, and the data of the items
      from number x on at readPos. */
  lemma {:induction false} ReadMarkedRun(spec: EntityType, fields: seq<Bytes>, x: nat, run: Items, bits: Bits,
                                         buf: Bytes, at: nat, readPos: nat)
    requires |fields| == |spec| == |bits| && x <= |spec| && Encoded(spec, run) && AscendingNumbers(run)
    requires Above(run, x - 1) && Below(run, |spec|)
    requires At(buf, at, Pack(bits)) && bits[x..] == BitsFrom(run, x, |spec|) && At(buf, readPos, DataOf(run))
    requires BitmapSize(x) <= |Pack(bits)|
    ensures ReadMarked(spec, fields, x, ReaderAfter(buf, at, x), buf, at + BitmapSize(x), readPos) ==
            FieldsRead(Overlay(fields, Fields(run)), readPos + |DataOf(run)|)
    decreases |spec| - x
  {
    hide ReadField, WellEncoded, Encoded, AscendingNumbers, Overlay, Pack, ReadBit, ReaderAfter, BitmapSize;
    if x == |spec| {
      if run != [] {
        SomethingBetween(run, x);
        assert false;
      }
      OverlayNone(fields);
    } else {
      MarkedStep(spec, fields, x, bits, buf, at, readPos);
      assert bits[x] == bits[x..][0] && bits[x + 1..] == bits[x..][1..];
      if run != [] && run[0].number == x {
        RunTail(spec, run, |spec|);
        AtSplit(buf, readPos, run[0].data, DataOf(run[1..]));
        ReadFieldAt(spec[x].kind, buf, readPos, run[0].data);
        OverlayFirst(fields, run);
        ReadMarkedRun(spec, Assign(fields, x, Some(run[0].data)), x + 1, run[1..], bits, buf, at, readPos + |run[0].data|);
      } else {
        AboveNext(run, x);
        ReadMarkedRun(spec, fields, x + 1, run, bits, buf, at, readPos);
      }
    }
  }

  lemma SomethingBetween(run: Items, x: nat)
    requires run != [] && Above(run, x - 1)
    ensures !Below(run, x)
  {
    assert !(run[0].number < x);
  }

  lemma AboveNext(run: Items, x: nat)
    requires AscendingNumbers(run) && Above(run, x - 1) && (run != [] ==> run[0].number != x)
    ensures Above(run, x)
  {
  }

  lemma ReadMarkedEntity(spec: EntityType, fields: seq<Bytes>, run: Items, buf: Bytes, at: nat)
    requires |fields| == |spec| && Encoded(spec, run) && AscendingNumbers(run) && Below(run, |spec|)
    requires At(buf, at, Pack(BitsFrom(run, 0, |spec|)) + DataOf(run))
    ensures ReadMarked(spec, fields, 0, NEW_READER, buf, at, at + BitmapSize(|spec|)) ==
            FieldsRead(Overlay(fields, Fields(run)), at + BitmapSize(|spec|) + |DataOf(run)|)
    ensures |Pack(BitsFrom(run, 0, |spec|))| == BitmapSize(|spec|)
  {
    hide ReadMarked, Pack, DataOf, WellEncoded, Fields, BitsFrom, At, AscendingNumbers, Encoded, Overlay;
    var bits := BitsFrom(run, 0, |spec|);
    AtSplit(buf, at, Pack(bits), DataOf(run));
    PackSize(bits);
    assert bits[0..] == bits;
    ReadMarkedRun(spec, fields, 0, run, bits, buf, at, at + BitmapSize(|spec|));
  }

  // ---------------------------------------------------------------- one entity's record

  ghost predicate Known(schema: Schema, items: Items, e: EntityInfo)
  {
    && e.id < 65536 && e.typ < 65536
    && (e.numFields > 0 ==>
          e.typ in schema && e.numFields == |schema[e.typ]| && Encoded(schema[e.typ], Of(items, e.id)))
  }

  /** The delta is about registered types, with every field's bytes well encoded. */
  ghost predicate Describes(schema: Schema, d: Delta)
  {
    forall e | e in d.entities :: Known(schema, d.items, e)
  }

  function Touched(d: Delta, e: EntityInfo, w: World): World
  {
    var c := ChangeOf(d, e.id);
    if c.Touch? && Applicable(c, Get(w, e.id)) then w[e.id := Apply(c, Get(w, e.id)).value] else w
  }

  lemma FullValue(d: Delta, e: EntityInfo, fields: seq<Bytes>, w: World)
    requires WellFormed(d) && e in d.entities && e.full
    requires Applicable(ChangeOf(d, e.id), Get(w, e.id)) && |fields| == e.numFields
    ensures w[e.id := Entity(e.typ, Overlay(fields, Fields(Of(d.items, e.id))))] == Touched(d, e, w)
  {
    LookupMember(d.entities, e);
    ChangeFits(d, e.id);
    var c := ChangeOf(d, e.id);
    assert Apply(c, Get(w, e.id)).value.fields == Overlay(fields, c.fields);
  }

  lemma PartialValue(d: Delta, e: EntityInfo, w: World)
    requires WellFormed(d) && e in d.entities && IsPartial(e)
    requires Applicable(ChangeOf(d, e.id), Get(w, e.id))
    ensures e.id in w && w[e.id].typ == e.typ && |w[e.id].fields| == e.numFields
    ensures w[e.id := Entity(e.typ, Overlay(w[e.id].fields, Fields(Of(d.items, e.id))))] == Touched(d, e, w)
  {
    LookupMember(d.entities, e);
    var c := ChangeOf(d, e.id);
    assert Apply(c, Get(w, e.id)).value.fields == Overlay(w[e.id].fields, c.fields);
  }

  lemma TouchedConforms(schema: Schema, d: Delta, e: EntityInfo, w: World)
    requires Conforms(schema, w) && WellFormed(d) && e in d.entities && Known(schema, d.items, e)
    ensures Conforms(schema, Touched(d, e, w))
  {
    LookupMember(d.entities, e);
  }

  lemma ReadFullRecord(schema: Schema, d: Delta, e: EntityInfo, buf: Bytes, pos: nat, k: nat, w: World)
    requires Conforms(schema, w) && WellFormed(d) && Ordered(d.items) && e in d.entities && e.full
    requires Known(schema, d.items, e) && Applicable(ChangeOf(d, e.id), Get(w, e.id))
    requires At(buf, pos, FullBytes(d.items, e))
    ensures Conforms(schema, Touched(d, e, w))
    ensures ReadFulls(schema, buf, pos, k + 1, w) ==
            ReadFulls(schema, buf, pos + |FullBytes(d.items, e)|, k, Touched(d, e, w))
  {
    hide ReadAll, DataOf, Enc, Decode, Of, SeekRun, WellEncoded, Fields, ChangeOf, Apply, Overlay, Lookup;
    FullRecordRun(schema, d, e);
    TouchedConforms(schema, d, e, w);
    var run, spec := Of(d.items, e.id), schema[e.typ];
    AtSplit(buf, pos, Enc(e.id) + Enc(e.typ), DataOf(run));
    AtSplit(buf, pos, Enc(e.id), Enc(e.typ));
    DecodeAt(buf, pos, e.id);
    DecodeAt(buf, pos + |Enc(e.id)|, e.typ);
    var fields := if e.id in w then w[e.id].fields else Prototype(spec);
    ReadAllRun(spec, fields, 0, run, buf, pos + |Enc(e.id)| + |Enc(e.typ)|);
    FullValue(d, e, fields, w);
  }

  lemma FullRecordRun(schema: Schema, d: Delta, e: EntityInfo)
    requires WellFormed(d) && Ordered(d.items) && e in d.entities && e.numFields > 0 && Known(schema, d.items, e)
    ensures e.typ in schema && e.numFields == |schema[e.typ]|
    ensures SeekRun(d.items, e.id) == Of(d.items, e.id)
    ensures var run := Of(d.items, e.id);
            && AscendingNumbers(run) && Above(run, -1) && Below(run, e.numFields)
            && Encoded(schema[e.typ], run) && (e.full ==> |run| == e.numFields)
    ensures ChangeOf(d, e.id) == Touch(e.typ, e.numFields, e.full, Fields(Of(d.items, e.id)))
  {
    hide WellEncoded;
    LookupMember(d.entities, e);
    SeekRunOrdered(d.items, e.id);
    RecordFits(d, e.id);
  }

  lemma ReadUpdRecord(schema: Schema, d: Delta, e: EntityInfo, buf: Bytes, pos: nat, k: nat, w: World)
    requires Conforms(schema, w) && WellFormed(d) && Ordered(d.items) && e in d.entities && IsPartial(e)
    requires Known(schema, d.items, e) && At(buf, pos, UpdBytes(d.items, e))
    ensures Get(w, e.id).None? ==> ReadUpds(schema, buf, pos, k + 1, w) == Rejected(w)
    ensures Conforms(schema, Touched(d, e, w))
    ensures Applicable(ChangeOf(d, e.id), Get(w, e.id)) ==>
              ReadUpds(schema, buf, pos, k + 1, w) ==
              ReadUpds(schema, buf, pos + |UpdBytes(d.items, e)|, k, Touched(d, e, w))
  {
    hide ReadMarked, DataOf, Enc, Decode, Of, SeekRun, WellEncoded, Fields, ChangeOf, Apply, Touched,
      Overlay, Pack, BitsFrom, Lookup;
    FullRecordRun(schema, d, e);
    TouchedConforms(schema, d, e, w);
    var run, spec := Of(d.items, e.id), schema[e.typ];
    var bitmap := Pack(BitsFrom(run, 0, |spec|));
    assert UpdBytes(d.items, e) == Enc(e.id) + (bitmap + DataOf(run));
    AtSplit(buf, pos, Enc(e.id), bitmap + DataOf(run));
    DecodeAt(buf, pos, e.id);
    if Applicable(ChangeOf(d, e.id), Get(w, e.id)) {
      PartialValue(d, e, w);
      ReadMarkedEntity(spec, w[e.id].fields, run, buf, pos + |Enc(e.id)|);
      AtSplit(buf, pos + |Enc(e.id)|, bitmap, DataOf(run));
    }
  }

  // ---------------------------------------------------------------- the sections

  function AfterDels(es: seq<EntityInfo>, w: World): World
  {
    if es == [] then w else AfterDels(es[1..], if es[0].numFields == 0 then w - {es[0].id} else w)
  }

  function AfterFulls(d: Delta, es: seq<EntityInfo>, w: World): World
  {
    if es == [] then w else AfterFulls(d, es[1..], if es[0].full then Touched(d, es[0], w) else w)
  }

  function AfterUpds(d: Delta, es: seq<EntityInfo>, w: World): World
  {
    if es == [] then w else AfterUpds(d, es[1..], if IsPartial(es[0]) then Touched(d, es[0], w) else w)
  }

  /** No touch meets an entity of another type: what may be missing is only the entity. */
  ghost predicate NoClash(d: Delta, es: seq<EntityInfo>, w: World)
  {
    forall e | e in es && e.id in w :: Applicable(ChangeOf(d, e.id), Get(w, e.id))
  }

  ghost predicate PartOf(schema: Schema, d: Delta, es: seq<EntityInfo>)
  {
    && WellFormed(d) && Ordered(d.items) && Ascending(es)
    && forall e | e in es :: e in d.entities && Known(schema, d.items, e)
  }

  lemma PartTail(schema: Schema, d: Delta, es: seq<EntityInfo>, w: World)
    requires PartOf(schema, d, es) && es != []
    ensures WellFormed(d) && Ordered(d.items) && PartOf(schema, d, es[1..])
    ensures es[0] in d.entities && Known(schema, d.items, es[0]) && (es[0].full ==> es[0].numFields > 0)
    ensures NoClash(d, es, w) ==> NoClash(d, es[1..], Touched(d, es[0], w)) && NoClash(d, es[1..], w)
    ensures NoClash(d, es, w) && (es[0].id in w || es[0].full) ==>
              Applicable(ChangeOf(d, es[0].id), Get(w, es[0].id))
  {
    hide Known, Apply;
    LookupMember(d.entities, es[0]);
    forall e | e in es[1..] ensures Get(Touched(d, es[0], w), e.id) == Get(w, e.id) {
    }
  }

  lemma {:induction false} ReadDelsExact(es: seq<EntityInfo>, buf: Bytes, pos: nat, w: World)
    requires At(buf, pos, DelBytes(es)) && forall e | e in es :: e.id < 65536
    ensures ReadDels(buf, pos, ExactCounts(es).del, w) == Done(AfterDels(es, w), pos + |DelBytes(es)|)
  {
    hide Enc, Decode;
    if es != [] {
      if es[0].numFields == 0 {
        AtSplit(buf, pos, Enc(es[0].id), DelBytes(es[1..]));
        DecodeAt(buf, pos, es[0].id);
        ReadDelsExact(es[1..], buf, pos + |Enc(es[0].id)|, w - {es[0].id});
      } else {
        assert DelBytes(es) == DelBytes(es[1..]);
        ReadDelsExact(es[1..], buf, pos, w);
      }
    }
  }

  lemma {:induction false} ReadFullsExact(schema: Schema, d: Delta, es: seq<EntityInfo>, buf: Bytes, pos: nat, w: World)
    requires Conforms(schema, w) && PartOf(schema, d, es) && NoClash(d, es, w)
    requires pos <= |buf| && At(buf, pos, FullsBytes(d.items, es))
    ensures ReadFulls(schema, buf, pos, ExactCounts(es).full, w) ==
            Done(AfterFulls(d, es, w), pos + |FullsBytes(d.items, es)|)
    decreases |es|
  {
    hide *;
    if es == [] {
      NothingToRead(schema, d, buf, pos, w);
    } else {
      var rest := es[1..];
      PartTail(schema, d, es, w);
      FullsUnfold(d, es, w);
      if es[0].full {
        AtSplit(buf, pos, FullBytes(d.items, es[0]), FullsBytes(d.items, rest));
        ReadFullRecord(schema, d, es[0], buf, pos, ExactCounts(rest).full, w);
        ReadFullsExact(schema, d, rest, buf, pos + |FullBytes(d.items, es[0])|, Touched(d, es[0], w));
      } else {
        ReadFullsExact(schema, d, rest, buf, pos, w);
      }
    }
  }

  lemma NothingToRead(schema: Schema, d: Delta, buf: Bytes, pos: nat, w: World)
    requires pos <= |buf| && Conforms(schema, w)
    ensures FullsBytes(d.items, []) == [] && UpdsBytes(d.items, []) == [] && ExactCounts([]) == Counts(0, 0, 0)
    ensures AfterFulls(d, [], w) == w && AfterUpds(d, [], w) == w
    ensures ReadFulls(schema, buf, pos, 0, w) == Done(w, pos) && ReadUpds(schema, buf, pos, 0, w) == Done(w, pos)
  {
  }

  lemma FullsUnfold(d: Delta, es: seq<EntityInfo>, w: World)
    requires es != [] && (es[0].full ==> es[0].numFields > 0)
    ensures var rest := es[1..];
            if es[0].full
            then && FullsBytes(d.items, es) == FullBytes(d.items, es[0]) + FullsBytes(d.items, rest)
                 && ExactCounts(es).full == ExactCounts(rest).full + 1
                 && AfterFulls(d, es, w) == AfterFulls(d, rest, Touched(d, es[0], w))
            else && FullsBytes(d.items, es) == FullsBytes(d.items, rest)
                 && ExactCounts(es).full == ExactCounts(rest).full
                 && AfterFulls(d, es, w) == AfterFulls(d, rest, w)
  {
    hide FullBytes, Touched;
  }

  lemma UpdsUnfold(d: Delta, es: seq<EntityInfo>, w: World)
    requires es != []
    ensures var rest := es[1..];
            if IsPartial(es[0])
            then && UpdsBytes(d.items, es) == UpdBytes(d.items, es[0]) + UpdsBytes(d.items, rest)
                 && ExactCounts(es).upd == ExactCounts(rest).upd + 1
                 && AfterUpds(d, es, w) == AfterUpds(d, rest, Touched(d, es[0], w))
            else && UpdsBytes(d.items, es) == UpdsBytes(d.items, rest)
                 && ExactCounts(es).upd == ExactCounts(rest).upd
                 && AfterUpds(d, es, w) == AfterUpds(d, rest, w)
  {
    hide UpdBytes, Touched;
  }

  /** The updates are all read, or the reader stops at the first one whose entity is missing. */
  lemma {:induction false} ReadUpdsExact(schema: Schema, d: Delta, es: seq<EntityInfo>, buf: Bytes, pos: nat, w: World)
    requires Conforms(schema, w) && PartOf(schema, d, es) && NoClash(d, es, w)
    requires pos <= |buf| && At(buf, pos, UpdsBytes(d.items, es))
    ensures var r := ReadUpds(schema, buf, pos, ExactCounts(es).upd, w);
            if forall e | e in es && IsPartial(e) :: e.id in w
            then r == Done(AfterUpds(d, es, w), pos + |UpdsBytes(d.items, es)|)
            else r.Rejected?
    decreases |es|
  {
    hide *;
    if es == [] {
      NothingToRead(schema, d, buf, pos, w);
    } else {
      var rest := es[1..];
      PartTail(schema, d, es, w);
      UpdsUnfold(d, es, w);
      if IsPartial(es[0]) {
        AtSplit(buf, pos, UpdBytes(d.items, es[0]), UpdsBytes(d.items, rest));
        ReadUpdRecord(schema, d, es[0], buf, pos, ExactCounts(rest).upd, w);
        if es[0].id in w {
          TouchedKeys(d, es[0], w);
          ReadUpdsExact(schema, d, rest, buf, pos + |UpdBytes(d.items, es[0])|, Touched(d, es[0], w));
        } else {
          assert Get(w, es[0].id).None? by {
            Missing(w, es[0].id);
          }
        }
      } else {
        ReadUpdsExact(schema, d, rest, buf, pos, w);
      }
    }
  }

  lemma Missing(w: World, id: nat)
    ensures Get(w, id).None? <==> id !in w
  {
  }

  lemma TouchedKeys(d: Delta, e: EntityInfo, w: World)
    requires e.id in w
    ensures Touched(d, e, w).Keys == w.Keys
  {
  }

  // ---------------------------------------------------------------- the whole snapshot

  lemma {:induction false} CountsBound(es: seq<EntityInfo>)
    ensures ExactCounts(es).del <= |es| && ExactCounts(es).full <= |es| && ExactCounts(es).upd <= |es|
  {
    if es != [] {
      CountsBound(es[1..]);
    }
  }

  lemma SectionFlags(c: Counts)
    ensures SectionBits(c) / 0x80 % 2 == 1 <==> c.del > 0
    ensures SectionBits(c) / 0x40 % 2 == 1 <==> c.full > 0
    ensures SectionBits(c) / 0x20 % 2 == 1 <==> c.upd > 0
  {
  }

  function WorldAfter(d: Delta, w: World): World
  {
    AfterUpds(d, d.entities, AfterFulls(d, d.entities, AfterDels(d.entities, w)))
  }

  lemma {:induction false} AfterDelsGet(es: seq<EntityInfo>, w: World, id: nat)
    requires Ascending(es)
    ensures Get(AfterDels(es, w), id) ==
            if Lookup(es, id).Some? && Lookup(es, id).value.numFields == 0 then None else Get(w, id)
  {
    if es != [] {
      AfterDelsGet(es[1..], if es[0].numFields == 0 then w - {es[0].id} else w, id);
      if es[0].id == id {
        LookupBelow(es[1..], id);
      }
    }
  }

  lemma {:induction false} AfterFullsGet(d: Delta, es: seq<EntityInfo>, w: World, id: nat)
    requires Ascending(es)
    ensures Get(AfterFulls(d, es, w), id) ==
            if Lookup(es, id).Some? && Lookup(es, id).value.full
            then Get(Touched(d, Lookup(es, id).value, w), id) else Get(w, id)
  {
    hide ChangeOf, Apply, Applicable;
    if es != [] {
      AfterFullsGet(d, es[1..], if es[0].full then Touched(d, es[0], w) else w, id);
      if es[0].id == id {
        LookupBelow(es[1..], id);
      }
    }
  }

  lemma {:induction false} AfterUpdsGet(d: Delta, es: seq<EntityInfo>, w: World, id: nat)
    requires Ascending(es)
    ensures Get(AfterUpds(d, es, w), id) ==
            if Lookup(es, id).Some? && IsPartial(Lookup(es, id).value)
            then Get(Touched(d, Lookup(es, id).value, w), id) else Get(w, id)
  {
    hide ChangeOf, Apply, Applicable;
    if es != [] {
      AfterUpdsGet(d, es[1..], if IsPartial(es[0]) then Touched(d, es[0], w) else w, id);
      if es[0].id == id {
        LookupBelow(es[1..], id);
      }
    }
  }

  /** Entity by entity, the three sections in their order do what the delta says. */
  lemma WorldAfterGet(d: Delta, w: World, id: nat)
    requires WellFormed(d) && Applicable(ChangeOf(d, id), Get(w, id))
    ensures Get(WorldAfter(d, w), id) == Apply(ChangeOf(d, id), Get(w, id))
  {
    var es := d.entities;
    var w1 := AfterDels(es, w);
    var w2 := AfterFulls(d, es, w1);
    AfterDelsGet(es, w, id);
    AfterFullsGet(d, es, w1, id);
    AfterUpdsGet(d, es, w2, id);
    var e := Lookup(es, id);
    if e.Some? && e.value.full {
      RecordFits(d, id);
    }
  }

  /** The client holds everything the delta updates partially. */
  ghost predicate Holds(d: Delta, w: World)
  {
    forall e | e in d.entities && IsPartial(e) :: e.id in w
  }

  lemma HoldsIsSuited(d: Delta, w: World)
    requires WellFormed(d) && NoClash(d, d.entities, w)
    ensures Holds(d, w) <==> forall id: nat :: Applicable(ChangeOf(d, id), Get(w, id))
  {
    if Holds(d, w) {
      forall id: nat ensures Applicable(ChangeOf(d, id), Get(w, id)) {
        if Lookup(d.entities, id).Some? {
          assert Lookup(d.entities, id).value in d.entities;
        }
      }
    }
    if forall id: nat :: Applicable(ChangeOf(d, id), Get(w, id)) {
      forall e | e in d.entities && IsPartial(e) ensures e.id in w {
        LookupMember(d.entities, e);
        assert Applicable(ChangeOf(d, e.id), Get(w, e.id));
      }
    }
  }

  lemma {:induction false} AscendingBound(es: seq<EntityInfo>, lo: nat)
    requires Ascending(es) && forall e | e in es :: lo <= e.id < 65536
    ensures |es| <= 65536
    ensures es != [] ==> |es| <= 65536 - lo
  {
    if es != [] {
      HeadBelow(es[0], es[1..], []);
      AscendingBound(es[1..], es[0].id + 1);
    }
  }

  lemma DelsKeepTypes(schema: Schema, d: Delta, w: World)
    requires WellFormed(d) && Conforms(schema, w) && NoClash(d, d.entities, w)
    ensures Conforms(schema, AfterDels(d.entities, w)) && NoClash(d, d.entities, AfterDels(d.entities, w))
  {
    hide ChangeOf, Applicable;
    var w1 := AfterDels(d.entities, w);
    forall id: nat | id in w1 ensures id in w && w1[id] == w[id] {
      AfterDelsGet(d.entities, w, id);
      assert Get(w1, id) == Get(w, id);
    }
    forall e | e in d.entities && e.id in w1 ensures Applicable(ChangeOf(d, e.id), Get(w1, e.id)) {
      assert Get(w1, e.id) == Get(w, e.id);
    }
  }

  lemma FullsKeepTypes(d: Delta, w: World)
    requires WellFormed(d) && NoClash(d, d.entities, w)
    ensures NoClash(d, d.entities, AfterFulls(d, d.entities, w))
  {
    var w2 := AfterFulls(d, d.entities, w);
    forall e | e in d.entities && e.id in w2 ensures Applicable(ChangeOf(d, e.id), Get(w2, e.id)) {
      LookupMember(d.entities, e);
      AfterFullsGet(d, d.entities, w, e.id);
    }
  }

  lemma StillHeld(d: Delta, w: World)
    requires WellFormed(d)
    ensures var w2 := AfterFulls(d, d.entities, AfterDels(d.entities, w));
            Holds(d, w) <==> forall e | e in d.entities && IsPartial(e) :: e.id in w2
  {
    var w1 := AfterDels(d.entities, w);
    var w2 := AfterFulls(d, d.entities, w1);
    forall e | e in d.entities && IsPartial(e) ensures e.id in w <==> e.id in w2 {
      LookupMember(d.entities, e);
      AfterDelsGet(d.entities, w, e.id);
      AfterFullsGet(d, d.entities, w1, e.id);
      Missing(w, e.id);
      Missing(w2, e.id);
      assert Get(w2, e.id) == Get(w, e.id);
    }
  }

  lemma NoneCounted(d: Delta, es: seq<EntityInfo>, w: World)
    requires (forall e | e in es :: e.full ==> e.numFields > 0)
    ensures ExactCounts(es).del == 0 ==> AfterDels(es, w) == w && DelBytes(es) == []
    ensures ExactCounts(es).full == 0 ==> AfterFulls(d, es, w) == w && FullsBytes(d.items, es) == []
    ensures ExactCounts(es).upd == 0 ==> AfterUpds(d, es, w) == w && UpdsBytes(d.items, es) == []
  {
    hide Touched, FullBytes, UpdBytes;
    if es != [] {
      NoneCounted(d, es[1..], w);
    }
  }

  lemma DelSection(d: Delta, buf: Bytes, pos: nat, w: World)
    requires WellFormed(d) && (forall e | e in d.entities :: e.id < 65536)
    requires var c := ExactCounts(d.entities); At(buf, pos, Section(c.del, DelBytes(d.entities))) && pos <= |buf|
    ensures var c := ExactCounts(d.entities);
            ReadDelSection(c.del > 0, buf, pos, w) ==
            Done(AfterDels(d.entities, w), pos + |Section(c.del, DelBytes(d.entities))|)
  {
    hide Enc, Decode, ReadDels, AfterDels, DelBytes, ExactCounts, At;
    var n, body := ExactCounts(d.entities).del, DelBytes(d.entities);
    if n == 0 {
      NoneCounted(d, d.entities, w);
    } else {
      AscendingBound(d.entities, 0);
      CountsBound(d.entities);
      AtSplit(buf, pos, Enc(n), body);
      DecodeAt(buf, pos, n);
      ReadDelsExact(d.entities, buf, pos + |Enc(n)|, w);
    }
  }

  lemma FullSection(schema: Schema, d: Delta, buf: Bytes, pos: nat, w: World)
    requires WellFormed(d) && Ordered(d.items) && Describes(schema, d)
    requires Conforms(schema, w) && NoClash(d, d.entities, w)
    requires var c := ExactCounts(d.entities);
             At(buf, pos, Section(c.full, FullsBytes(d.items, d.entities))) && pos <= |buf|
    ensures var c := ExactCounts(d.entities);
            ReadFullSection(schema, c.full > 0, buf, pos, w) ==
            Done(AfterFulls(d, d.entities, w), pos + |Section(c.full, FullsBytes(d.items, d.entities))|)
    ensures Conforms(schema, AfterFulls(d, d.entities, w))
  {
    hide Enc, Decode, AfterFulls, FullsBytes, ExactCounts, At, Known, NoClash, Conforms, ReadFulls;
    var n, body := ExactCounts(d.entities).full, FullsBytes(d.items, d.entities);
    if n == 0 {
      NoneCounted(d, d.entities, w);
    } else {
      BoundedByIds(schema, d);
      AtSplit(buf, pos, Enc(n), body);
      DecodeAt(buf, pos, n);
      ReadFullsExact(schema, d, d.entities, buf, pos + |Enc(n)|, w);
    }
  }

  lemma BoundedByIds(schema: Schema, d: Delta)
    requires WellFormed(d) && Describes(schema, d)
    ensures ExactCounts(d.entities).full <= 65536 && ExactCounts(d.entities).upd <= 65536
    ensures forall e | e in d.entities :: e.id < 65536
  {
    AscendingBound(d.entities, 0);
    CountsBound(d.entities);
  }

  lemma UpdSection(schema: Schema, d: Delta, buf: Bytes, pos: nat, w: World)
    requires WellFormed(d) && Ordered(d.items) && Describes(schema, d)
    requires Conforms(schema, w) && NoClash(d, d.entities, w)
    requires var c := ExactCounts(d.entities);
             At(buf, pos, Section(c.upd, UpdsBytes(d.items, d.entities))) && pos <= |buf|
    ensures var c := ExactCounts(d.entities);
            var r := ReadUpdSection(schema, c.upd > 0, buf, pos, w);
            if forall e | e in d.entities && IsPartial(e) :: e.id in w
            then r == Done(AfterUpds(d, d.entities, w), pos + |Section(c.upd, UpdsBytes(d.items, d.entities))|)
            else r.Rejected?
  {
    hide Enc, Decode, AfterUpds, UpdsBytes, ExactCounts, At, Known, NoClash, Conforms, ReadUpds;
    var n, body := ExactCounts(d.entities).upd, UpdsBytes(d.items, d.entities);
    if n == 0 {
      NoneCounted(d, d.entities, w);
      NonePartial(d.entities);
    } else {
      BoundedByIds(schema, d);
      AtSplit(buf, pos, Enc(n), body);
      DecodeAt(buf, pos, n);
      ReadUpdsExact(schema, d, d.entities, buf, pos + |Enc(n)|, w);
    }
  }

  lemma {:induction false} NonePartial(es: seq<EntityInfo>)
    ensures ExactCounts(es).upd == 0 ==> forall e | e in es :: !IsPartial(e)
  {
    if es != [] {
      NonePartial(es[1..]);
    }
  }

  /** The wire round trip. Whatever precedes and follows it, the written delta is read back as the
      step it describes, with the cursor left behind its last byte, exactly when the client holds
      every entity it updates partially; otherwise the packet is rejected. */
  lemma ReadBack(schema: Schema, d: Delta, buf: Bytes, pos: nat, w: World)
    requires WellFormed(d) && Ordered(d.items) && Describes(schema, d)
    requires Conforms(schema, w) && NoClash(d, d.entities, w)
    requires At(buf, pos, SnapshotBytes(d, ExactCounts(d.entities))) && pos <= |buf|
    ensures var r := ReadSnapshot(schema, buf, pos, w);
            if Holds(d, w)
            then r == Done(WorldAfter(d, w), pos + |SnapshotBytes(d, ExactCounts(d.entities))|) && Step(d, w, r.world)
            else r.Rejected?
  {
    var c := ExactCounts(d.entities);
    ReadSections(schema, d, buf, pos, w);
    if Holds(d, w) {
      HoldsIsSuited(d, w);
      forall id: nat
        ensures Applicable(ChangeOf(d, id), Get(w, id)) && Apply(ChangeOf(d, id), Get(w, id)) == Get(WorldAfter(d, w), id)
      {
        WorldAfterGet(d, w, id);
      }
    }
  }

  lemma SnapshotAt(d: Delta, c: Counts, buf: Bytes, pos: nat)
    requires At(buf, pos, SnapshotBytes(d, c))
    ensures var x, y, z := Section(c.del, DelBytes(d.entities)), Section(c.full, FullsBytes(d.items, d.entities)),
                           Section(c.upd, UpdsBytes(d.items, d.entities));
            && pos < |buf| && buf[pos] == SectionBits(c)
            && pos + 1 + |x| + |y| + |z| <= |buf| && |SnapshotBytes(d, c)| == 1 + |x| + |y| + |z|
            && At(buf, pos + 1, x) && At(buf, pos + 1 + |x|, y) && At(buf, pos + 1 + |x| + |y|, z)
  {
    hide DelBytes, FullsBytes, UpdsBytes, Section, SectionBits;
    var f, x, y, z := [SectionBits(c)], Section(c.del, DelBytes(d.entities)),
                      Section(c.full, FullsBytes(d.items, d.entities)), Section(c.upd, UpdsBytes(d.items, d.entities));
    AtSplit(buf, pos, f + x + y, z);
    AtSplit(buf, pos, f + x, y);
    AtSplit(buf, pos, f, x);
    assert buf[pos] == buf[pos..pos + 1][0];
  }

  lemma ReadSections(schema: Schema, d: Delta, buf: Bytes, pos: nat, w: World)
    requires WellFormed(d) && Ordered(d.items) && Describes(schema, d)
    requires Conforms(schema, w) && NoClash(d, d.entities, w)
    requires At(buf, pos, SnapshotBytes(d, ExactCounts(d.entities))) && pos <= |buf|
    ensures var r := ReadSnapshot(schema, buf, pos, w);
            if Holds(d, w) then r == Done(WorldAfter(d, w), pos + |SnapshotBytes(d, ExactCounts(d.entities))|)
            else r.Rejected?
  {
    hide At, Section, DelBytes, FullsBytes, UpdsBytes, SnapshotBytes, SectionBits, ExactCounts, Holds, NoClash, Conforms;
    hide AfterDels, AfterFulls, AfterUpds, ReadDelSection, ReadFullSection, ReadUpdSection, Describes;
    var c := ExactCounts(d.entities);
    var w1 := AfterDels(d.entities, w);
    var w2 := AfterFulls(d, d.entities, w1);
    SnapshotAt(d, c, buf, pos);
    SectionFlags(c);
    BoundedByIds(schema, d);
    DelSection(d, buf, pos + 1, w);
    var p1 := pos + 1 + |Section(c.del, DelBytes(d.entities))|;
    DelsKeepTypes(schema, d, w);
    FullSection(schema, d, buf, p1, w1);
    var p2 := p1 + |Section(c.full, FullsBytes(d.items, d.entities))|;
    FullsKeepTypes(d, w1);
    UpdSection(schema, d, buf, p2, w2);
    StillHeld(d, w);
  }
}
