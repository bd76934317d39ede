/** The client's side of snapshots: ClientSnapshot::readFromPacket driving the entity table of
    ClientGameState (src/nrg_snapshot.cpp:119-194, src/nrg_clientstate.cpp:195-252, 291-343). */
module ClientStates {
  import opened Packets
  import opened Varints
  import opened BitIO
  import opened Codecs
  import opened Worlds
  import opened SnapshotWire
  import opened GamePackets

  class ClientGameState {
    /** entity_types: what registerEntity has made known. */
    const types: Schema
    var entities: World
    /** The tick and the sequence number of the last packet read. */
    var serverMs: nat
    var serverSeq: nat
    var ping: nat
    var gotPacket: bool

    ghost predicate Valid()
      reads this
    {
      Conforms(types, entities) && serverMs < 65536 && serverSeq < 256
    }

    constructor (schema: Schema)
      ensures Valid() && types == schema && entities == map[] && !gotPacket
    {
      types, entities := schema, map[];
      serverMs, serverSeq, ping, gotPacket := 0, 0, 0, false;
    }

    /** A packet the parse of which stays within defined behaviour. */
    ghost predicate CanRead(p: Packet)
      reads this, p, p.data
    {
      Valid() && p.Valid() && p.used < SIZE_T / 2
    }

    /** UVarint().quickDecode(data) */
    method ReadVarint(p: Packet) returns (v: nat)
      requires CanRead(p) && Decode(64, p.Contents(), p.pos).Decoded?
      modifies p`pos
      ensures CanRead(p) && p.Contents() == old(p.Contents())
      ensures var d := Decode(64, p.Contents(), old(p.pos)); d.value == v && d.next == p.pos
    {
      hide Decode, Pow2;
      var n: nat;
      v, n := DecodePacket(p, 64);
    }

    /** Action::Destroy for every listed id. */
    method ReadDelRecords(p: Packet, count: nat)
      requires CanRead(p) && ReadDels(p.Contents(), p.pos, count, entities).Done?
      modifies this`entities, p`pos
      ensures CanRead(p) && p.Contents() == old(p.Contents())
      ensures ReadDels(p.Contents(), old(p.pos), count, old(entities)) == Done(entities, p.pos)
    {
      hide Decode;
      ghost var r := ReadDels(p.Contents(), p.pos, count, entities);
      for i := 0 to count
        invariant CanRead(p) && p.Contents() == old(p.Contents())
        invariant ReadDels(p.Contents(), p.pos, count - i, entities) == r
      {
        var v := ReadVarint(p);
        entities := entities - {v % 65536};
      }
    }

    /** Reads all the fields of one entity, in order. */
    method ReadFields(p: Packet, spec: EntityType, fields: seq<Bytes>) returns (fields': seq<Bytes>)
      requires CanRead(p) && |fields| == |spec| && ReadAll(spec, fields, 0, p.Contents(), p.pos).FieldsRead?
      modifies p`pos
      ensures CanRead(p) && p.Contents() == old(p.Contents())
      ensures ReadAll(spec, fields, 0, p.Contents(), old(p.pos)) == FieldsRead(fields', p.pos)
    {
      hide ReadField;
      ghost var r := ReadAll(spec, fields, 0, p.Contents(), p.pos);
      fields' := fields;
      for i := 0 to |spec|
        invariant CanRead(p) && p.Contents() == old(p.Contents()) && |fields'| == |spec|
        invariant ReadAll(spec, fields', i, p.Contents(), p.pos) == r
      {
        var ret, value := ReadFieldFrom(p, spec[i].kind);
        fields' := Assign(fields', i, value);
      }
    }

    method ReadFullRecords(p: Packet, count: nat)
      requires CanRead(p) && ReadFulls(types, p.Contents(), p.pos, count, entities).Done?
      modifies this`entities, p`pos
      ensures CanRead(p) && p.Contents() == old(p.Contents())
      ensures ReadFulls(types, p.Contents(), old(p.pos), count, old(entities)) == Done(entities, p.pos)
    {
      hide Decode, ReadAll;
      ghost var r := ReadFulls(types, p.Contents(), p.pos, count, entities);
      for i := 0 to count
        invariant CanRead(p) && p.Contents() == old(p.Contents())
        invariant ReadFulls(types, p.Contents(), p.pos, count - i, entities) == r
      {
        var eid := ReadVarint(p);
        var typ := ReadVarint(p);
        eid, typ := eid % 65536, typ % 65536;
        var fields := if eid in entities then entities[eid].fields else Prototype(types[typ]);
        fields := ReadFields(p, types[typ], fields);
        entities := entities[eid := Entity(typ, fields)];
      }
    }

    /** A read at another place, after which the cursor is back where it was. */
    method ReadAside(p: Packet, kind: Kind, at: int) returns (ret: nat, value: Option<Bytes>)
      requires CanRead(p) && ReadField(kind, p.Contents(), Clamp(at, p.used)) != Undefined
      modifies p`pos
      ensures CanRead(p) && p.Contents() == old(p.Contents()) && p.pos == old(p.pos) && p.used == old(p.used)
      ensures var r := ReadField(kind, p.Contents(), Clamp(at, p.used));
              r.FieldRead? && r.ret == ret && r.value == value
    {
      hide ReadField;
      var origPos := p.pos;
      p.SeekSet(at);
      ret, value := ReadFieldFrom(p, kind);
      p.SeekSet(origPos);
    }

    /** Reads the marked fields of one entity, hopping between the bitmap and the data. */
    method ReadMarkedFields(p: Packet, spec: EntityType, fields: seq<Bytes>) returns (fields': seq<Bytes>)
      requires CanRead(p) && |fields| == |spec| && p.used >= 1
      requires ReadMarked(spec, fields, 0, NEW_READER, p.Contents(), p.pos, p.pos + BitmapSize(|spec|)).FieldsRead?
      modifies p`pos
      ensures CanRead(p) && p.Contents() == old(p.Contents())
      ensures var r := ReadMarked(spec, fields, 0, NEW_READER, p.Contents(), old(p.pos), old(p.pos) + BitmapSize(|spec|));
              r.fields == fields' && p.pos == Clamp(r.pos, p.used)
    {
      hide ReadField, BitAt;
      var readPos := p.pos + 1 + (|spec| - 1) / 8;
      ghost var r := ReadMarked(spec, fields, 0, NEW_READER, p.Contents(), p.pos, readPos);
      var bits: byte, count: nat := 0, 0;
      fields' := fields;
      for x := 0 to |spec|
        invariant CanRead(p) && p.Contents() == old(p.Contents()) && |fields'| == |spec| && count < 8 && readPos >= 0
        invariant ReadMarked(spec, fields', x, Reader(bits, count), p.Contents(), p.pos, readPos) == r
      {
        if count == 0 {
          bits := p.Read8(bits);
        }
        var marked := BitAt(bits, count);
        count := (count + 1) % 8;
        if marked {
          var ret, value := ReadAside(p, spec[x].kind, readPos);
          readPos := readPos + ret;
          fields' := Assign(fields', x, value);
        }
      }
      p.SeekSet(readPos);
    }

    method ReadUpdRecords(p: Packet, count: nat) returns (ok: bool)
      requires CanRead(p) && p.used >= 1 && !ReadUpds(types, p.Contents(), p.pos, count, entities).Faulted?
      modifies this`entities, p`pos
      ensures CanRead(p) && p.Contents() == old(p.Contents())
      ensures ReadUpds(types, p.Contents(), old(p.pos), count, old(entities)) ==
              if ok then Done(entities, p.pos) else Rejected(entities)
    {
      hide Decode, ReadMarked;
      ghost var r := ReadUpds(types, p.Contents(), p.pos, count, entities);
      for i := 0 to count
        invariant CanRead(p) && p.Contents() == old(p.Contents())
        invariant ReadUpds(types, p.Contents(), p.pos, count - i, entities) == r
      {
        var eid := ReadVarint(p);
        eid := eid % 65536;
        if eid !in entities {
          return false;
        }
        var e := entities[eid];
        var fields := ReadMarkedFields(p, types[e.typ], e.fields);
        entities := entities[eid := Entity(e.typ, fields)];
      }
      return true;
    }

    /** readFromPacket: the three sections that the flags announce. The entity table ends up as the
        parser specifies, and the result says whether every updated entity was known. */
    method ReadFromPacket(p: Packet) returns (ok: bool)
      requires CanRead(p) && p.used >= 1 && !ReadSnapshot(types, p.Contents(), p.pos, entities).Faulted?
      modifies this`entities, p`pos
      ensures CanRead(p) && p.Contents() == old(p.Contents())
      ensures ReadSnapshot(types, p.Contents(), old(p.pos), old(entities)) ==
              if ok then Done(entities, p.pos) else Rejected(entities)
    {
      hide Decode, ReadDels, ReadFulls, ReadUpds;
      var sectionBits := p.Read8(0);
      if sectionBits / 0x80 % 2 == 1 {
        var count := ReadVarint(p);
        ReadDelRecords(p, count);
      }
      if sectionBits / 0x40 % 2 == 1 {
        var count := ReadVarint(p);
        ReadFullRecords(p, count);
      }
      ok := true;
      if sectionBits / 0x20 % 2 == 1 {
        var count := ReadVarint(p);
        ok := ReadUpdRecords(p, count);
      }
    }

    /** onRecvPacket: a packet under OUT_OF_ORDER is dropped unread; otherwise the header is taken in,
        whatever becomes of the snapshot behind it. */
    method OnRecvPacket(p: Packet, outOfOrder: bool) returns (ok: bool)
      requires CanRead(p) && p.pos == 0 && !ReadUpdateHeader(p.Contents()).HeaderUndefined?
      requires var h := ReadUpdateHeader(p.Contents());
               h.HeaderRead? ==> !ReadSnapshot(types, p.Contents(), h.next, entities).Faulted?
      modifies this, p`pos
      ensures CanRead(p) && p.Contents() == old(p.Contents())
      ensures var h := ReadUpdateHeader(p.Contents());
              if outOfOrder || h.HeaderTooShort?
              then && ok == outOfOrder && entities == old(entities) && gotPacket == old(gotPacket)
                   && (serverMs, serverSeq, ping) == old((serverMs, serverSeq, ping))
              else && (serverMs, serverSeq, ping) == (h.serverMs, h.serverSeq, h.ping)
                   && gotPacket == (old(gotPacket) || ok)
                   && ReadSnapshot(types, p.Contents(), h.next, old(entities)) ==
                      if ok then Done(entities, p.pos) else Rejected(entities)
    {
      hide ReadSnapshot, Decode, FromBigEndian;
      if outOfOrder {
        return true;
      }
      if p.used < MIN_UPDATE_LEN {
        return false;
      }
      TakeHeader(p);
      ok := ReadFromPacket(p);
      gotPacket := gotPacket || ok;
    }

    method TakeHeader(p: Packet)
      requires CanRead(p) && p.pos == 0 && ReadUpdateHeader(p.Contents()).HeaderRead?
      modifies this`serverMs, this`serverSeq, this`ping, p`pos
      ensures CanRead(p) && p.Contents() == old(p.Contents())
      ensures ReadUpdateHeader(p.Contents()) == HeaderRead(serverMs, serverSeq, ping, p.pos)
    {
      hide Decode, FromBigEndian;
      TwoBytes();
      assert p.Contents()[0..2] == p.Contents()[..2];
      serverMs := p.ReadBE(2);
      serverSeq := p.Read8(0);
      ping := ReadVarint(p);
    }

    predicate NeedsUpdate()
      reads this
    {
      gotPacket
    }

    /** What update puts in front of the input: the tick last read, and the time since. */
    method WriteAck(p: Packet, since: nat)
      requires Valid() && p.Valid() && since < 65536
      modifies p.Repr()
      ensures p.Valid() && p.pos == p.used && (p.data == old(p.data) || fresh(p.data))
      ensures p.Contents() == AckBytes(serverMs, since)
    {
      hide Enc, Pow2, Overwrite, BigEndian;
      Pow2Of16();
      p.Reset();
      p.WriteBE(2, serverMs);
      var n := Encode(p, 16, since);
      assert [] + BigEndian(2, serverMs) == BigEndian(2, serverMs);
    }
  }
}
