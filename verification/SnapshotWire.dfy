/** The bytes of a snapshot: the three sections DeltaSnapshot::writeToPacket writes and
    ClientSnapshot::readFromPacket parses (src/nrg_deltasnapshot.cpp:96-152, src/nrg_snapshot.cpp:119-194). */
module SnapshotWire {
  import opened Packets
  import opened Varints
  import opened BitIO
  import opened Codecs
  import opened Deltas
  import opened Merges
  import opened Worlds

  // ---------------------------------------------------------------- the printer

  datatype Counts = Counts(del: nat, full: nat, upd: nat)

  function CountOf(e: EntityInfo): Counts
  {
    if e.numFields == 0 then Counts(1, 0, 0) else if e.full then Counts(0, 1, 0) else Counts(0, 0, 1)
  }

  /** The true sizes of the three sections. */
  function ExactCounts(es: seq<EntityInfo>): Counts
  {
    if es == [] then Counts(0, 0, 0)
    else
      var c, r := CountOf(es[0]), ExactCounts(es[1..]);
      Counts(c.del + r.del, c.full + r.full, c.upd + r.upd)
  }

  function DataOf(run: Items): Bytes
  {
    if run == [] then [] else run[0].data + DataOf(run[1..])
  }

  /** The bitmap the writer's lambda draws while it walks the run. */
  function BitsFrom(run: Items, x: nat, n: nat): (b: Bits)
    ensures |b| == if x < n then n - x else 0
    decreases n - x
  {
    if x >= n then []
    else if run != [] && run[0].number == x then [true] + BitsFrom(run[1..], x + 1, n)
    else [false] + BitsFrom(run, x + 1, n)
  }

  function DelBytes(es: seq<EntityInfo>): Bytes
  {
    if es == [] then [] else (if es[0].numFields == 0 then Enc(es[0].id) else []) + DelBytes(es[1..])
  }

  function FullBytes(items: Items, e: EntityInfo): Bytes
  {
    Enc(e.id) + Enc(e.typ) + DataOf(SeekRun(items, e.id))
  }

  function UpdBytes(items: Items, e: EntityInfo): Bytes
  {
    Enc(e.id) + Pack(BitsFrom(SeekRun(items, e.id), 0, e.numFields)) + DataOf(SeekRun(items, e.id))
  }

  predicate IsPartial(e: EntityInfo)
  {
    !e.full && e.numFields != 0
  }

  function FullsBytes(items: Items, es: seq<EntityInfo>): Bytes
  {
    if es == [] then [] else (if es[0].full then FullBytes(items, es[0]) else []) + FullsBytes(items, es[1..])
  }

  function UpdsBytes(items: Items, es: seq<EntityInfo>): Bytes
  {
    if es == [] then [] else (if IsPartial(es[0]) then UpdBytes(items, es[0]) else []) + UpdsBytes(items, es[1..])
  }

  function SectionBits(c: Counts): byte
  {
    (if c.del > 0 then 0x80 else 0) + (if c.full > 0 then 0x40 else 0) + (if c.upd > 0 then 0x20 else 0)
  }

  function Section(count: nat, body: Bytes): Bytes
  {
    if count == 0 then [] else Enc(count) + body
  }

  function SnapshotBytes(d: Delta, c: Counts): Bytes
  {
    [SectionBits(c)]
    + Section(c.del, DelBytes(d.entities))
    + Section(c.full, FullsBytes(d.items, d.entities))
    + Section(c.upd, UpdsBytes(d.items, d.entities))
  }

  // ---------------------------------------------------------------- the parser

  /** One field of a registered entity type: its codec and the prototype's value. */
  datatype FieldSpec = FieldSpec(kind: Kind, initial: Bytes)

  type EntityType = s: seq<FieldSpec> | s != [] witness [FieldSpec(Fixed(1), [0])]

  type Schema = map<nat, EntityType>

  predicate Conforms(schema: Schema, w: World)
  {
    forall id | id in w :: w[id].typ in schema && |w[id].fields| == |schema[w[id].typ]|
  }

  function Prototype(spec: EntityType): (fields: seq<Bytes>)
    ensures |fields| == |spec|
  {
    seq(|spec|, i requires 0 <= i < |spec| => spec[i].initial)
  }

  /** What a read makes of the client's entities: done, or cut short by an update of an unknown
      entity, or undefined where the C++ is (a varint beyond `int`, a use of a deleted entity or
      of an unregistered type). */
  datatype ReadResult = Done(world: World, pos: nat) | Rejected(world: World) | Faulted

  datatype FieldsResult = FieldsRead(fields: seq<Bytes>, pos: nat) | FieldsUndefined

  function Assign(fields: seq<Bytes>, i: nat, value: Option<Bytes>): (r: seq<Bytes>)
    requires i < |fields|
    ensures |r| == |fields|
  {
    if value.Some? then fields[i := value.value] else fields
  }

  /** All fields from number i on, one after another. */
  function ReadAll(spec: EntityType, fields: seq<Bytes>, i: nat, buf: Bytes, pos: nat): (r: FieldsResult)
    requires |fields| == |spec| && i <= |spec| && pos <= |buf|
    ensures r.FieldsRead? ==> |r.fields| == |spec| && r.pos <= |buf|
    decreases |spec| - i
  {
    if i == |spec| then FieldsRead(fields, pos)
    else
      match ReadField(spec[i].kind, buf, pos)
      case Undefined => FieldsUndefined
      case FieldRead(next, _, value) => ReadAll(spec, Assign(fields, i, value), i + 1, buf, next)
  }

  /** The fields whose bits are set. The bits are read at pos, the fields at readPos, and the
      cursor hops between the two. */
  function ReadMarked(spec: EntityType, fields: seq<Bytes>, x: nat, reader: Reader,
                      buf: Bytes, pos: nat, readPos: nat): (r: FieldsResult)
    requires |fields| == |spec| && x <= |spec| && pos <= |buf| && reader.count < 8
    ensures r.FieldsRead? ==> |r.fields| == |spec|
    decreases |spec| - x
  {
    if x == |spec| then FieldsRead(fields, readPos)
    else
      var (reader', pos', set_) := ReadBit(reader, buf, pos);
      if set_ then
        match ReadField(spec[x].kind, buf, Clamp(readPos, |buf|))
        case Undefined => FieldsUndefined
        case FieldRead(_, ret, value) =>
          ReadMarked(spec, Assign(fields, x, value), x + 1, reader', buf, pos', readPos + ret)
      else
        ReadMarked(spec, fields, x + 1, reader', buf, pos', readPos)
  }

  function ReadDels(buf: Bytes, pos: nat, k: nat, w: World): (r: ReadResult)
    requires pos <= |buf|
    ensures !r.Rejected?
    ensures r.Done? ==> r.pos <= |buf| && r.world.Keys <= w.Keys && forall id | id in r.world :: r.world[id] == w[id]
    decreases k
  {
    if k == 0 then Done(w, pos)
    else
      match Decode(64, buf, pos)
      case Overflow => Faulted
      case Decoded(v, next, _) => ReadDels(buf, next, k - 1, w - {v % 65536})
  }

  function ReadFulls(schema: Schema, buf: Bytes, pos: nat, k: nat, w: World): (r: ReadResult)
    requires pos <= |buf| && Conforms(schema, w)
    ensures !r.Rejected?
    ensures r.Done? ==> r.pos <= |buf| && Conforms(schema, r.world)
    decreases k
  {
    if k == 0 then Done(w, pos)
    else
      match Decode(64, buf, pos)
      case Overflow => Faulted
      case Decoded(v, next, _) =>
        match Decode(64, buf, next)
        case Overflow => Faulted
        case Decoded(t, next', _) =>
          var eid, typ := v % 65536, t % 65536;
          if (if eid in w then w[eid].typ != typ else typ !in schema) then Faulted
          else
            var fields := if eid in w then w[eid].fields else Prototype(schema[typ]);
            match ReadAll(schema[typ], fields, 0, buf, next')
            case FieldsUndefined => Faulted
            case FieldsRead(fields', pos') =>
              ReadFulls(schema, buf, pos', k - 1, w[eid := Entity(typ, fields')])
  }

  function ReadUpds(schema: Schema, buf: Bytes, pos: nat, k: nat, w: World): (r: ReadResult)
    requires pos <= |buf| && Conforms(schema, w)
    ensures r.Done? ==> r.pos <= |buf| && Conforms(schema, r.world)
    decreases k
  {
    if k == 0 then Done(w, pos)
    else
      match Decode(64, buf, pos)
      case Overflow => Faulted
      case Decoded(v, next, _) =>
        var eid := v % 65536;
        if eid !in w then Rejected(w)
        else
          var e := w[eid];
          match ReadMarked(schema[e.typ], e.fields, 0, NEW_READER, buf, next, next + BitmapSize(|e.fields|))
          case FieldsUndefined => Faulted
          case FieldsRead(fields', readPos) =>
            ReadUpds(schema, buf, Clamp(readPos, |buf|), k - 1, w[eid := Entity(e.typ, fields')])
  }

  /** One section: skipped unless its flag is set, otherwise a count and that many records. */
  function ReadDelSection(flagged: bool, buf: Bytes, pos: nat, w: World): ReadResult
    requires pos <= |buf|
  {
    if !flagged then Done(w, pos)
    else
      match Decode(64, buf, pos)
      case Overflow => Faulted
      case Decoded(k, next, _) => ReadDels(buf, next, k, w)
  }

  function ReadFullSection(schema: Schema, flagged: bool, buf: Bytes, pos: nat, w: World): ReadResult
    requires pos <= |buf| && Conforms(schema, w)
  {
    if !flagged then Done(w, pos)
    else
      match Decode(64, buf, pos)
      case Overflow => Faulted
      case Decoded(k, next, _) => ReadFulls(schema, buf, next, k, w)
  }

  function ReadUpdSection(schema: Schema, flagged: bool, buf: Bytes, pos: nat, w: World): ReadResult
    requires pos <= |buf| && Conforms(schema, w)
  {
    if !flagged then Done(w, pos)
    else
      match Decode(64, buf, pos)
      case Overflow => Faulted
      case Decoded(k, next, _) => ReadUpds(schema, buf, next, k, w)
  }

  function ReadSnapshot(schema: Schema, buf: Bytes, pos: nat, w: World): ReadResult
    requires pos <= |buf| && Conforms(schema, w)
  {
    var bits := if pos < |buf| then buf[pos] else 0;
    var start := if pos < |buf| then pos + 1 else pos;
    match ReadDelSection(bits / 0x80 % 2 == 1, buf, start, w)
    case Faulted => Faulted
    case Rejected(w') => Rejected(w')
    case Done(w1, p1) =>
      match ReadFullSection(schema, bits / 0x40 % 2 == 1, buf, p1, w1)
      case Faulted => Faulted
      case Rejected(w') => Rejected(w')
      case Done(w2, p2) => ReadUpdSection(schema, bits / 0x20 % 2 == 1, buf, p2, w2)
  }
}
