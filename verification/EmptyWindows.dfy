/** What a client gets when the id it has acknowledged is also that of the newest tick. The server makes
    a tick between hearing and sending, so that takes two ticks within one millisecond, or 65536 of them
    apart (`Acknowledgements.NewestNamedIff`). The snapshot is then reset and merged with nothing, and
    reset() leaves the three section counts of the snapshot before it (src/nrg_deltasnapshot.cpp:89-94,
    src/nrg_serverstate.cpp:250-260). */
module EmptyWindows {
  import opened Packets
  import opened Varints
  import opened BitIO
  import opened Codecs
  import opened Deltas
  import opened Worlds
  import opened SnapshotWire

  // ---------------------------------------------------------------- reading never goes back

  lemma {:induction false} DelsMove(buf: Bytes, pos: nat, k: nat, w: World)
    requires pos <= |buf|
    ensures ReadDels(buf, pos, k, w).Done? ==>
              var p := ReadDels(buf, pos, k, w).pos;
              if k == 0 then p == pos else Decode(64, buf, pos).Decoded? && Decode(64, buf, pos).next <= p
    decreases k
  {
    hide Decode;
    if k > 0 && Decode(64, buf, pos).Decoded? {
      var d := Decode(64, buf, pos);
      DelsMove(buf, d.next, k - 1, w - {d.value % 65536});
    }
  }

  lemma {:induction false} AllMove(spec: EntityType, fields: seq<Bytes>, i: nat, buf: Bytes, pos: nat)
    requires |fields| == |spec| && i <= |spec| && pos <= |buf|
    ensures var r := ReadAll(spec, fields, i, buf, pos); r.FieldsRead? ==> pos <= r.pos
    decreases |spec| - i
  {
    hide ReadField;
    if i < |spec| {
      var r := ReadField(spec[i].kind, buf, pos);
      if r.FieldRead? {
        AllMove(spec, Assign(fields, i, r.value), i + 1, buf, r.next);
      }
    }
  }

  lemma {:induction false} MarkedMove(
    spec: EntityType, fields: seq<Bytes>, x: nat, reader: Reader, buf: Bytes, pos: nat, readPos: nat)
    requires |fields| == |spec| && x <= |spec| && pos <= |buf| && reader.count < 8
    ensures var r := ReadMarked(spec, fields, x, reader, buf, pos, readPos); r.FieldsRead? ==> readPos <= r.pos
    decreases |spec| - x
  {
    hide ReadField, BitAt;
    if x < |spec| {
      var (reader', pos', set_) := ReadBit(reader, buf, pos);
      if set_ {
        var r := ReadField(spec[x].kind, buf, Clamp(readPos, |buf|));
        if r.FieldRead? {
          MarkedMove(spec, Assign(fields, x, r.value), x + 1, reader', buf, pos', readPos + r.ret);
        }
      } else {
        MarkedMove(spec, fields, x + 1, reader', buf, pos', readPos);
      }
    }
  }

  /** Two numbers can be decoded from pos on, and end by p. */
  predicate TwoDecoded(buf: Bytes, pos: nat, p: nat)
    requires pos <= |buf|
  {
    var d := Decode(64, buf, pos);
    d.Decoded? && Decode(64, buf, d.next).Decoded? && Decode(64, buf, d.next).next <= p
  }

  lemma {:induction false} FullsMove(schema: Schema, buf: Bytes, pos: nat, k: nat, w: World)
    requires pos <= |buf| && Conforms(schema, w)
    ensures ReadFulls(schema, buf, pos, k, w).Done? ==>
              var p := ReadFulls(schema, buf, pos, k, w).pos;
              pos <= p && (k > 0 ==> TwoDecoded(buf, pos, p))
    decreases k
  {
    hide Decode, ReadAll;
    if k > 0 && ReadFulls(schema, buf, pos, k, w).Done? {
      var v := Decode(64, buf, pos);
      var t := Decode(64, buf, v.next);
      var eid, typ := v.value % 65536, t.value % 65536;
      var fields := if eid in w then w[eid].fields else Prototype(schema[typ]);
      AllMove(schema[typ], fields, 0, buf, t.next);
      var r := ReadAll(schema[typ], fields, 0, buf, t.next);
      FullsMove(schema, buf, r.pos, k - 1, w[eid := Entity(typ, r.fields)]);
    }
  }

  lemma {:induction false} UpdsMove(schema: Schema, buf: Bytes, pos: nat, k: nat, w: World)
    requires pos <= |buf| && Conforms(schema, w)
    ensures ReadUpds(schema, buf, pos, k, w).Done? ==>
              var p := ReadUpds(schema, buf, pos, k, w).pos;
              pos <= p && (k > 0 ==> Decode(64, buf, pos).Decoded? && Decode(64, buf, pos).next <= p)
    decreases k
  {
    hide Decode, ReadMarked;
    if k > 0 && ReadUpds(schema, buf, pos, k, w).Done? {
      var d := Decode(64, buf, pos);
      var eid := d.value % 65536;
      var e := w[eid];
      MarkedMove(schema[e.typ], e.fields, 0, NEW_READER, buf, d.next, d.next + BitmapSize(|e.fields|));
      var r := ReadMarked(schema[e.typ], e.fields, 0, NEW_READER, buf, d.next, d.next + BitmapSize(|e.fields|));
      UpdsMove(schema, buf, Clamp(r.pos, |buf|), k - 1, w[eid := Entity(e.typ, r.fields)]);
    }
  }

  // ---------------------------------------------------------------- counts with nothing behind them

  predicate Sane(c: Counts)
  {
    c.del < 0x8000_0000 && c.full < 0x8000_0000 && c.upd < 0x8000_0000
  }

  function SizeOf(count: nat): nat
  {
    if count == 0 then 0 else |Enc(count)|
  }

  /** Where the counts are: flags at pos, the three counts from there on, and more behind the end. */
  ghost predicate CountsOnly(buf: Bytes, pos: nat, c: Counts)
  {
    var a := pos + 1 + SizeOf(c.del); var b := a + SizeOf(c.full); var e := b + SizeOf(c.upd);
    && e < |buf| && buf[pos] == SectionBits(c)
    && (c.del > 0 ==> Decode(64, buf, pos + 1) == Decoded(c.del, a, |Enc(c.del)|))
    && (c.full > 0 ==> Decode(64, buf, a) == Decoded(c.full, b, |Enc(c.full)|))
    && (c.upd > 0 ==> Decode(64, buf, b) == Decoded(c.upd, e, |Enc(c.upd)|))
  }

  function EndOf(pos: nat, c: Counts): nat
  {
    pos + 1 + SizeOf(c.del) + SizeOf(c.full) + SizeOf(c.upd)
  }

  /** A count and nothing behind it. */
  function Alone(count: nat): (s: Bytes)
    ensures |s| == SizeOf(count)
  {
    if count == 0 then [] else Enc(count)
  }

  lemma EmptySections(c: Counts)
    ensures SnapshotBytes(EMPTY_DELTA, c) == [SectionBits(c)] + Alone(c.del) + Alone(c.full) + Alone(c.upd)
    ensures |SnapshotBytes(EMPTY_DELTA, c)| == EndOf(0, c)
  {
    hide Enc, SectionBits;
    assert Enc(c.del) + [] == Enc(c.del) && Enc(c.full) + [] == Enc(c.full) && Enc(c.upd) + [] == Enc(c.upd);
  }

  lemma CountPlaced(pre: Bytes, count: nat, rest: Bytes)
    requires count < 0x8000_0000
    ensures count > 0 ==>
              Decode(64, pre + Alone(count) + rest, |pre|) == Decoded(count, |pre| + SizeOf(count), |Enc(count)|)
  {
    hide Enc, Decode;
    if count > 0 {
      DecodeEnc64(pre, count, rest);
    }
  }

  lemma CountsPlaced(pre: Bytes, c: Counts, tail: Bytes)
    requires Sane(c) && tail != []
    ensures CountsOnly(pre + SnapshotBytes(EMPTY_DELTA, c) + tail, |pre|, c)
  {
    hide Enc, Decode, SectionBits, SnapshotBytes, Alone, SizeOf;
    EmptySections(c);
    var bits, x, y, z := [SectionBits(c)], Alone(c.del), Alone(c.full), Alone(c.upd);
    var buf := pre + SnapshotBytes(EMPTY_DELTA, c) + tail;
    assert buf == pre + bits + x + (y + z + tail);
    assert buf == pre + bits + x + y + (z + tail);
    assert buf == pre + bits + x + y + z + tail;
    CountPlaced(pre + bits, c.del, y + z + tail);
    CountPlaced(pre + bits + x, c.full, z + tail);
    CountPlaced(pre + bits + x + y, c.upd, tail);
  }

  lemma FlagsSay(c: Counts)
    ensures SectionBits(c) / 0x80 % 2 == (if c.del > 0 then 1 else 0)
    ensures SectionBits(c) / 0x40 % 2 == (if c.full > 0 then 1 else 0)
    ensures SectionBits(c) / 0x20 % 2 == (if c.upd > 0 then 1 else 0)
  {
  }

  /** After the deletions the reader is at the next count's end, or further. */
  lemma DelsReachOver(buf: Bytes, pos: nat, c: Counts, w: World)
    requires CountsOnly(buf, pos, c) && c.del > 0
    ensures var a := pos + 1 + SizeOf(c.del); var r := ReadDels(buf, a, c.del, w);
            r.Done? ==> r.pos > EndOf(pos, c) || (c.full > 0 && r.pos == a + SizeOf(c.full)) ||
                        (r.pos == EndOf(pos, c) && (c.full > 0 || c.upd > 0))
  {
    hide Decode, Enc, SectionBits;
    var a := pos + 1 + SizeOf(c.del);
    DelsMove(buf, a, c.del, w);
    if ReadDels(buf, a, c.del, w).Done? {
      var d := Decode(64, buf, a);
      DelsMove(buf, d.next, c.del - 1, w - {d.value % 65536});
    }
  }

  /** And after the records that follow it is beyond the snapshot's end. */
  lemma FullsReachOver(schema: Schema, buf: Bytes, pos: nat, c: Counts, p: nat, w: World)
    requires CountsOnly(buf, pos, c) && c.full > 0 && Conforms(schema, w) && p <= |buf|
    requires var a := pos + 1 + SizeOf(c.del);
             p >= EndOf(pos, c) || p == a + SizeOf(c.full) || p == a
    ensures var r := ReadFullSection(schema, true, buf, p, w); r.Done? ==> r.pos > EndOf(pos, c)
  {
    hide Decode, Enc, SectionBits, ReadFulls;
    var d := Decode(64, buf, p);
    if d.Decoded? {
      FullsMove(schema, buf, d.next, d.value, w);
    }
  }

  lemma UpdsReachOver(schema: Schema, buf: Bytes, pos: nat, c: Counts, p: nat, w: World)
    requires CountsOnly(buf, pos, c) && c.upd > 0 && Conforms(schema, w) && p <= |buf|
    requires p >= EndOf(pos, c) || p == pos + 1 + SizeOf(c.del) + SizeOf(c.full)
    ensures var r := ReadUpdSection(schema, true, buf, p, w); r.Done? ==> r.pos > EndOf(pos, c) && r.pos >= p
  {
    hide Decode, Enc, SectionBits, ReadUpds;
    var d := Decode(64, buf, p);
    if d.Decoded? {
      UpdsMove(schema, buf, d.next, d.value, w);
    }
  }

  lemma ReadsOver(schema: Schema, buf: Bytes, pos: nat, c: Counts, w: World)
    requires CountsOnly(buf, pos, c) && Conforms(schema, w) && c != Counts(0, 0, 0)
    ensures var r := ReadSnapshot(schema, buf, pos, w); r.Done? ==> r.pos > EndOf(pos, c)
  {
    hide Decode, Enc, SectionBits, ReadFullSection, ReadUpdSection, ReadDels;
    FlagsSay(c);
    var r1 := ReadDelSection(c.del > 0, buf, pos + 1, w);
    if c.del > 0 {
      DelsReachOver(buf, pos, c, w);
    }
    if r1.Done? {
      var r2 := ReadFullSection(schema, c.full > 0, buf, r1.pos, r1.world);
      if c.full > 0 {
        FullsReachOver(schema, buf, pos, c, r1.pos, r1.world);
      } else {
        Unflagged(schema, buf, r1.pos, r1.world);
      }
      if r2.Done? {
        SectionKeeps(schema, c.full > 0, buf, r1.pos, r1.world);
        if c.upd > 0 {
          UpdsReachOver(schema, buf, pos, c, r2.pos, r2.world);
        } else {
          Unflagged(schema, buf, r2.pos, r2.world);
        }
      }
    }
  }

  lemma SectionKeeps(schema: Schema, flagged: bool, buf: Bytes, pos: nat, w: World)
    requires pos <= |buf| && Conforms(schema, w)
    ensures var r := ReadFullSection(schema, flagged, buf, pos, w); r.Done? ==> r.pos <= |buf| && Conforms(schema, r.world)
  {
    hide Decode, ReadFulls, Conforms;
  }

  lemma Unflagged(schema: Schema, buf: Bytes, pos: nat, w: World)
    requires pos <= |buf| && Conforms(schema, w)
    ensures ReadFullSection(schema, false, buf, pos, w) == ReadUpdSection(schema, false, buf, pos, w) == Done(w, pos)
  {
  }

  /** The snapshot of an empty window leaves the client as it is, and the messages behind it where the
      client looks for them, if and only if all three counts left over are zero. */
  lemma EmptyWindowIff(schema: Schema, c: Counts, w: World, pre: Bytes, tail: Bytes)
    requires Conforms(schema, w) && Sane(c) && tail != []
    ensures var bytes := SnapshotBytes(EMPTY_DELTA, c);
            ReadSnapshot(schema, pre + bytes + tail, |pre|, w) == Done(w, |pre| + |bytes|) <==> c == Counts(0, 0, 0)
  {
    hide Decode, Enc, ReadSnapshot;
    CountsPlaced(pre, c, tail);
    EmptySections(c);
    if c == Counts(0, 0, 0) {
      NothingFlagged(schema, pre + SnapshotBytes(EMPTY_DELTA, c) + tail, |pre|, w);
    } else {
      ReadsOver(schema, pre + SnapshotBytes(EMPTY_DELTA, c) + tail, |pre|, c, w);
    }
  }

  lemma NothingFlagged(schema: Schema, buf: Bytes, pos: nat, w: World)
    requires pos < |buf| && Conforms(schema, w) && buf[pos] == 0
    ensures ReadSnapshot(schema, buf, pos, w) == Done(w, pos + 1)
  {
  }
}
