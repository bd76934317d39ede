/** The class itself (include/nrg_message_manager.h:37-70): bodies lie end to end in one of two
    packet buffers, metadata says where, and removing the oldest copies the rest across. */
module MessageManagers {
  import opened Packets
  import opened Varints
  import opened Codecs
  import opened Messages

  datatype Info = Info(offset: nat, typeId: nat, len: nat, batch: nat, serverMs: nat, localMs: nat)
  {
    predicate Valid()
    {
      typeId < 65536 && batch < 256 && serverMs < 65536 && localMs < UINT32
    }
  }

  /** The metadata tile the buffer: the first message starts at 0, each next one where the one
      before ended, and the last ends at the buffer's end. */
  predicate Tiles(infos: seq<Info>, size: nat)
  {
    if infos == [] then size == 0
    else
      var last := infos[|infos| - 1];
      last.Valid() && last.offset + last.len == size && Tiles(infos[..|infos| - 1], last.offset)
  }

  function EntryOf(info: Info, data: Bytes): (e: Entry)
    requires info.offset + info.len <= |data|
  {
    Entry(info.typeId, data[info.offset..info.offset + info.len], info.batch, info.serverMs, info.localMs)
  }

  /** The messages the metadata and the buffer stand for. */
  function QueueOf(infos: seq<Info>, data: Bytes): (q: seq<Entry>)
    requires Tiles(infos, |data|)
    ensures |q| == |infos| && AllEntriesValid(q)
  {
    if infos == [] then []
    else
      var last := infos[|infos| - 1];
      QueueOf(infos[..|infos| - 1], data[..last.offset]) + [EntryOf(last, data)]
  }

  lemma {:induction false} TileAt(infos: seq<Info>, data: Bytes, i: nat)
    requires Tiles(infos, |data|) && i < |infos|
    ensures infos[i].Valid() && infos[i].offset + infos[i].len <= |data|
    ensures infos[i].offset == if i == 0 then 0 else infos[i - 1].offset + infos[i - 1].len
    ensures QueueOf(infos, data)[i] == EntryOf(infos[i], data)
  {
    var last := infos[|infos| - 1];
    var before := infos[..|infos| - 1];
    if i < |infos| - 1 {
      TileAt(before, data[..last.offset], i);
      assert data[..last.offset][infos[i].offset..infos[i].offset + infos[i].len]
          == data[infos[i].offset..infos[i].offset + infos[i].len];
    } else if i > 0 {
      assert before[|before| - 1] == infos[i - 1];
    }
  }

  predicate Follows(infos: seq<Info>, i: nat)
    requires i < |infos|
  {
    infos[i].Valid() && infos[i].offset == if i == 0 then 0 else infos[i - 1].offset + infos[i - 1].len
  }

  lemma {:induction false} TilesFrom(infos: seq<Info>, size: nat)
    requires forall i :: 0 <= i < |infos| ==> Follows(infos, i)
    requires size == if infos == [] then 0 else infos[|infos| - 1].offset + infos[|infos| - 1].len
    ensures Tiles(infos, size)
  {
    if infos != [] {
      var before := infos[..|infos| - 1];
      forall i | 0 <= i < |before|
        ensures Follows(before, i)
      {
        assert Follows(infos, i);
      }
      assert Follows(infos, |infos| - 1);
      TilesFrom(before, infos[|infos| - 1].offset);
    }
  }

  lemma {:induction false} QueueAppended(infos: seq<Info>, data: Bytes, info: Info, body: Bytes)
    requires Tiles(infos, |data|) && info.Valid() && info.offset == |data| && info.len == |body|
    ensures Tiles(infos + [info], |data + body|)
    ensures QueueOf(infos + [info], data + body) == QueueOf(infos, data) + [EntryOf(info, data + body)]
    ensures EntryOf(info, data + body).body == body
  {
    assert (infos + [info])[..|infos|] == infos;
    assert (data + body)[..|data|] == data;
  }

  // ---------------------------------------------------------------- dropping from the front

  function Moved(info: Info, shift: nat): Info
    requires shift <= info.offset
  {
    info.(offset := info.offset - shift)
  }

  /** Where message i begins; behind the last one, where the buffer ends. */
  function Start(infos: seq<Info>, size: nat, i: nat): nat
    requires i <= |infos|
  {
    if i < |infos| then infos[i].offset else size
  }

  /** No message begins before `start`. */
  predicate AllFrom(infos: seq<Info>, start: nat)
  {
    forall i :: 0 <= i < |infos| ==> start <= infos[i].offset
  }

  /** The metadata in `rest`, each offset smaller by `shift`. */
  predicate AllMoved(rest: seq<Info>, left: seq<Info>, shift: nat)
  {
    |left| == |rest| &&
    forall i :: 0 <= i < |rest| ==> shift <= rest[i].offset && left[i] == Moved(rest[i], shift)
  }

  /** The messages from n on, moved to the front of a buffer of their own. */
  lemma {:induction false} QueueDropped(infos: seq<Info>, data: Bytes, n: nat, left: seq<Info>)
    requires Tiles(infos, |data|) && n <= |infos|
    requires Start(infos, |data|, n) <= |data| && AllMoved(infos[n..], left, Start(infos, |data|, n))
    ensures Tiles(left, |data| - Start(infos, |data|, n))
    ensures QueueOf(left, data[Start(infos, |data|, n)..]) == QueueOf(infos, data)[n..]
  {
    hide Tiles, QueueOf;
    var cutAt := Start(infos, |data|, n);
    var rest := data[cutAt..];
    LeftTiles(infos, data, n, left);
    forall i | 0 <= i < |left|
      ensures QueueOf(left, rest)[i] == QueueOf(infos, data)[n..][i]
    {
      MovedEntry(infos, data, n, left, i);
    }
  }

  lemma {:induction false} LeftTiles(infos: seq<Info>, data: Bytes, n: nat, left: seq<Info>)
    requires Tiles(infos, |data|) && n <= |infos|
    requires Start(infos, |data|, n) <= |data| && AllMoved(infos[n..], left, Start(infos, |data|, n))
    ensures Tiles(left, |data| - Start(infos, |data|, n))
  {
    hide Tiles, QueueOf;
    forall i | 0 <= i < |left|
      ensures Follows(left, i)
    {
      assert infos[n..][i] == infos[n + i];
      assert i > 0 ==> infos[n..][i - 1] == infos[n + (i - 1)];
      TileAt(infos, data, n + i);
    }
    DroppedEnd(infos, data, n);
    TilesFrom(left, |data| - Start(infos, |data|, n));
  }

  lemma {:induction false} MovedEntry(infos: seq<Info>, data: Bytes, n: nat, left: seq<Info>, i: nat)
    requires Tiles(infos, |data|) && n <= |infos| && i < |left|
    requires Start(infos, |data|, n) <= |data| && AllMoved(infos[n..], left, Start(infos, |data|, n))
    requires Tiles(left, |data| - Start(infos, |data|, n))
    ensures QueueOf(left, data[Start(infos, |data|, n)..])[i] == QueueOf(infos, data)[n + i]
  {
    hide Tiles, QueueOf;
    var rest := data[Start(infos, |data|, n)..];
    assert infos[n..][i] == infos[n + i];
    TileAt(infos, data, n + i);
    TileAt(left, rest, i);
    assert rest[left[i].offset..left[i].offset + left[i].len]
        == data[infos[n + i].offset..infos[n + i].offset + infos[n + i].len];
  }

  lemma {:induction false} DroppedEnd(infos: seq<Info>, data: Bytes, n: nat)
    requires Tiles(infos, |data|) && n <= |infos|
    ensures n < |infos| ==> infos[|infos| - 1].offset + infos[|infos| - 1].len == |data|
  {
  }

  lemma {:induction false} OffsetsAscend(infos: seq<Info>, data: Bytes, i: nat, j: nat)
    requires Tiles(infos, |data|) && i <= j < |infos|
    ensures infos[i].offset <= infos[j].offset <= |data|
    decreases j
  {
    TileAt(infos, data, j);
    if i < j {
      OffsetsAscend(infos, data, i, j - 1);
    }
  }

  /** Writing, as the two steps the method takes: s and start before, mid and sofar between. */
  lemma WrittenInSteps(
    s: Store, start: Bytes, mid: Store, sofar: Bytes, end: Store, total: Bytes, serverMs: nat, nowMs: nat)
    requires s.Valid() && mid == s.(queue := Kept(s.queue, Expired(nowMs))) && sofar == start + [s.remoteSeq]
    requires mid.Valid()
    requires if mid.waiting || mid.queue == [] then end == mid && total == sofar
             else end == mid.(upToDate := true, waiting := true) &&
                  total == sofar + BatchBytes(mid.queue, mid.localSeq, serverMs)
    ensures WriteOut(s, serverMs, nowMs).store == end && total == start + WriteOut(s, serverMs, nowMs).bytes
  {
    hide BatchBytes, Kept, AllEntriesValid;
    assert total != sofar ==> total == start + ([s.remoteSeq] + BatchBytes(mid.queue, mid.localSeq, serverMs));
  }

  // ---------------------------------------------------------------- the class

  class MessageManager {
    var handlers: Handlers
    var infos: seq<Info>
    const buffer: Packet
    const buffer2: Packet
    var live: Packet
    var localSeq: nat
    var remoteSeq: nat
    var upToDate: bool
    var waiting: bool

    ghost function Repr(): set<object>
      reads buffer, buffer2
    {
      {this} + buffer.Repr() + buffer2.Repr()
    }

    function Spare(): (p: Packet)
      requires live == buffer || live == buffer2
      reads this
      ensures p == buffer || p == buffer2
    {
      if live == buffer then buffer2 else buffer
    }

    ghost predicate BuffersValid()
      reads this, buffer, buffer2
    {
      buffer.Repr() !! buffer2.Repr() && (live == buffer || live == buffer2) && buffer.Valid() && buffer2.Valid() &&
      live.pos == live.used && Spare().used == 0 && Spare().pos == 0
    }

    /** The live buffer is tiled by the metadata, with the cursor at its end; the other is empty. */
    ghost predicate Valid()
      reads this, buffer, buffer2
    {
      BuffersValid() && Tiles(infos, live.used) && localSeq < 256 && remoteSeq < 256
    }

    ghost function State(): (s: Store)
      requires Valid()
      reads this, buffer, buffer2, buffer.data, buffer2.data
      ensures s.Valid()
    {
      Store(QueueOf(infos, live.Contents()), localSeq, remoteSeq, upToDate, waiting)
    }

    constructor (handlers: Handlers)
      ensures Valid() && fresh(Repr()) && State() == EMPTY_STORE && this.handlers == handlers
    {
      this.handlers := handlers;
      infos := [];
      buffer := new Packet(MAX_PACKET_SIZE);
      buffer2 := new Packet(MAX_PACKET_SIZE);
      live := buffer;
      localSeq, remoteSeq, upToDate, waiting := 0, 0, true, false;
    }

    /** body is what the message writes of itself. */
    method AddMessage(typeId: nat, body: Bytes, serverMs: nat, nowMs: nat)
      requires Valid() && typeId < 65536 && serverMs < 65536 && nowMs < UINT32
      modifies Repr()
      ensures Valid() && fresh(Repr() - old(Repr()))
      ensures State() == AddTo(old(State()), typeId, body, serverMs, nowMs)
    {
      hide QueueOf, Tiles;
      if upToDate {
        upToDate := false;
        localSeq := (localSeq + 1) % 256;
      }
      var info := Info(live.pos, typeId, |body|, localSeq, serverMs, nowMs);
      QueueAppended(infos, live.Contents(), info, body);
      live.WriteArray(body);
      infos := infos + [info];
    }

    /** The search: how many messages leave, and their bytes. */
    method FindFirst(cut: Cut) returns (n: nat, bytes: nat)
      requires Valid()
      ensures n <= |infos| && bytes == Start(infos, live.used, n)
      ensures Kept(State().queue, cut) == State().queue[n..]
    {
      hide QueueOf, Tiles, Kept;
      n, bytes := 0, 0;
      ghost var q := State().queue;
      if infos != [] {
        TileAt(infos, live.Contents(), 0);
      } else {
        NothingHeld(infos, live.Contents());
      }
      while n < |infos|
        invariant n <= |infos| && bytes == Start(infos, live.used, n)
        invariant forall i :: 0 <= i < n ==> !Stays(q[i], cut)
      {
        TileAt(infos, live.Contents(), n);
        var m := infos[n];
        var stays := match cut
          case Acknowledged(theirSeq) => theirSeq + 1 == m.batch
          case Expired(nowMs) => (nowMs - m.localMs) % UINT32 < USHRT_MAX;
        if stays {
          break;
        }
        if n + 1 < |infos| {
          TileAt(infos, live.Contents(), n + 1);
        } else {
          DroppedEnd(infos, live.Contents(), n);
        }
        bytes := bytes + m.len;
        n := n + 1;
      }
      KeptFrom(q, cut, n);
    }

    /** The bytes from `bytes` on go to the spare buffer, which becomes the live one. */
    method Swap(bytes: nat)
      requires BuffersValid() && bytes <= live.used
      modifies `live, buffer.Repr(), buffer2.Repr()
      ensures BuffersValid() && fresh(Repr() - old(Repr()))
      ensures live.Contents() == old(live.Contents()[bytes..])
    {
      hide Tiles;
      var other := Spare();
      other.WriteArray(live.Peek(bytes, live.used - bytes));
      live.Reset();
      live := other;
    }

    method RemoveMessagesUntil(cut: Cut)
      requires Valid()
      modifies `infos, `live, buffer.Repr(), buffer2.Repr()
      ensures Valid() && fresh(Repr() - old(Repr()))
      ensures State() == old(State()).(queue := Kept(old(State().queue), cut))
    {
      hide QueueOf, Tiles, Kept, Stays, AllFrom, AllEntriesValid, Store.Valid;
      ghost var was, data := infos, live.Contents();
      var n, bytes := FindFirst(cut);
      RestAscends(was, data, n);
      RemoveFirst(n, bytes);
    }

    method RemoveFirst(n: nat, bytes: nat)
      requires Valid() && n <= |infos| && bytes == Start(infos, live.used, n) <= live.used
      requires AllFrom(infos[n..], bytes)
      modifies `infos, `live, buffer.Repr(), buffer2.Repr()
      ensures Valid() && fresh(Repr() - old(Repr()))
      ensures State() == old(State()).(queue := old(State().queue)[n..])
    {
      hide QueueOf, Tiles, Start, AllMoved, AllFrom, AllEntriesValid, Store.Valid, EntryOf, Packet.Contents;
      ghost var was, data := infos, live.Contents();
      infos := infos[n..];
      if bytes > 0 {
        Swap(bytes);
        MoveBack(bytes);
        QueueDropped(was, data, n, infos);
      } else {
        ZeroDropped(was, data, n, infos);
      }
    }

    /** The loop over what is left: offsets shrink by the bytes removed. */
    method MoveBack(bytes: nat)
      requires AllFrom(infos, bytes)
      modifies `infos
      ensures AllMoved(old(infos), infos, bytes)
    {
      ghost var rest := infos;
      var i := 0;
      while i < |infos|
        invariant 0 <= i <= |infos| == |rest|
        invariant forall k :: 0 <= k < i ==> infos[k] == Moved(rest[k], bytes)
        invariant forall k :: i <= k < |infos| ==> infos[k] == rest[k]
      {
        infos := infos[i := infos[i].(offset := infos[i].offset - bytes)];
        i := i + 1;
      }
    }

    lemma RestAscends(was: seq<Info>, data: Bytes, n: nat)
      requires Tiles(was, |data|) && n <= |was|
      ensures Start(was, |data|, n) <= |data|
      ensures AllFrom(was[n..], Start(was, |data|, n))
    {
      if n < |was| {
        OffsetsAscend(was, data, n, n);
      }
      forall i | 0 <= i < |was[n..]|
        ensures Start(was, |data|, n) <= was[n..][i].offset
      {
        OffsetsAscend(was, data, n, n + i);
      }
    }

    lemma NothingHeld(infos: seq<Info>, data: Bytes)
      requires Tiles(infos, |data|) && infos == []
      ensures data == []
    {
    }

    /** With no bytes to remove, the messages dropped (if any) were empty. */
    lemma ZeroDropped(was: seq<Info>, data: Bytes, n: nat, left: seq<Info>)
      requires Tiles(was, |data|) && n <= |was| && left == was[n..] && Start(was, |data|, n) == 0
      ensures Tiles(left, |data|) && QueueOf(left, data) == QueueOf(was, data)[n..]
    {
      hide Tiles, QueueOf;
      QueueDropped(was, data, n, left);
      assert data[0..] == data;
    }

    /** One message into the outgoing packet. */
    method WriteEntry(p: Packet, i: nat, serverMs: nat)
      requires Valid() && p.Valid() && p.pos == p.used && p.Repr() !! Repr() && serverMs < 65536 && i < |infos|
      modifies p.Repr()
      ensures p.Valid() && p.pos == p.used && (p.data == old(p.data) || fresh(p.data))
      ensures p.Contents() == old(p.Contents()) + EntryBytes(State().queue[i], i == 0, serverMs)
    {
      hide QueueOf, Tiles, Enc, BigEndian;
      TileAt(infos, live.Contents(), i);
      var m := infos[i];
      WriteFields(p, i == 0, m, live.Peek(m.offset, m.len), serverMs, State().queue[i]);
    }

    static method WriteFields(p: Packet, first: bool, m: Info, body: Bytes, serverMs: nat, ghost e: Entry)
      requires p.Valid() && p.pos == p.used && m.Valid() && serverMs < 65536
      requires e == Entry(m.typeId, body, m.batch, m.serverMs, m.localMs)
      modifies p.Repr()
      ensures p.Valid() && p.pos == p.used && (p.data == old(p.data) || fresh(p.data))
      ensures p.Contents() == old(p.Contents()) + EntryBytes(e, first, serverMs)
    {
      hide Enc, TimeBytes, Overwrite, Pow2;
      ghost var start := p.Contents();
      WriteTime(p, first, m.serverMs, serverMs, e);
      Widths();
      var _ := Encode(p, 64, m.typeId);
      p.WriteArray(body);
      assert p.Contents() == start + (TimeBytes(e, first, serverMs) + Enc(e.typeId) + body);
    }

    static method WriteTime(p: Packet, first: bool, createdMs: nat, serverMs: nat, ghost e: Entry)
      requires p.Valid() && p.pos == p.used && createdMs < 65536 && serverMs < 65536 && e.serverMs == createdMs
      modifies p.Repr()
      ensures p.Valid() && p.pos == p.used && (p.data == old(p.data) || fresh(p.data))
      ensures p.Contents() == old(p.Contents()) + TimeBytes(e, first, serverMs)
    {
      hide Enc, BigEndian, Overwrite, Pow2;
      Widths();
      if first {
        p.WriteBE(2, createdMs);
      } else {
        var _ := Encode(p, 64, (serverMs - createdMs) % SIZE_T);
      }
    }

    method WriteEntries(p: Packet, serverMs: nat)
      requires Valid() && p.Valid() && p.pos == p.used && p.Repr() !! Repr() && serverMs < 65536
      modifies p.Repr()
      ensures Valid() && p.Valid() && p.pos == p.used && (p.data == old(p.data) || fresh(p.data))
      ensures State() == old(State())
      ensures p.Contents() == old(p.Contents()) + EntriesFrom(State().queue, 0, serverMs)
    {
      hide QueueOf, Tiles, EntryBytes, BuffersValid;
      ghost var q := State().queue;
      ghost var total := p.Contents() + EntriesFrom(q, 0, serverMs);
      var i: nat := 0;
      while i < |infos|
        invariant i <= |infos| == |q| && Valid() && p.Valid() && p.pos == p.used && State() == old(State())
        invariant p.data == old(p.data) || fresh(p.data)
        invariant p.Contents() + EntriesFrom(q, i, serverMs) == total
      {
        ghost var sofar := p.Contents();
        WriteEntry(p, i, serverMs);
        assert sofar + (EntryBytes(q[i], i == 0, serverMs) + EntriesFrom(q, i + 1, serverMs)) == total;
        i := i + 1;
      }
    }

    static method WriteCount(p: Packet, localSeq: byte, n: nat)
      requires p.Valid() && p.pos == p.used && n < SIZE_T
      modifies p.Repr()
      ensures p.Valid() && p.pos == p.used && (p.data == old(p.data) || fresh(p.data))
      ensures p.Contents() == old(p.Contents()) + ([localSeq] + Enc(n))
    {
      hide Enc, Overwrite, Pow2;
      p.Write8(localSeq);
      Widths();
      var _ := Encode(p, 64, n);
    }

    method WriteBatch(p: Packet, serverMs: nat)
      requires Valid() && p.Valid() && p.pos == p.used && p.Repr() !! Repr() && serverMs < 65536 && |infos| < SIZE_T
      modifies p.Repr()
      ensures Valid() && State() == old(State())
      ensures p.Valid() && p.pos == p.used && (p.data == old(p.data) || fresh(p.data))
      ensures p.Contents() == old(p.Contents()) + BatchBytes(State().queue, localSeq, serverMs)
    {
      hide QueueOf, Tiles, EntriesFrom, Enc;
      ghost var start := p.Contents();
      WriteCount(p, localSeq, |infos|);
      WriteEntries(p, serverMs);
      ghost var q := State().queue;
      assert p.Contents() == start + ([localSeq] + Enc(|q|) + EntriesFrom(q, 0, serverMs));
    }

    /** Nothing more when there are no messages or the other side has not been heard from. */
    method WriteQueue(p: Packet, serverMs: nat)
      requires Valid() && p.Valid() && p.pos == p.used && p.Repr() !! Repr() && serverMs < 65536 && |infos| < SIZE_T
      modifies `upToDate, `waiting, p.Repr()
      ensures Valid() && p.Valid() && p.pos == p.used && (p.data == old(p.data) || fresh(p.data))
      ensures var s := old(State());
              if s.waiting || s.queue == [] then State() == s && p.Contents() == old(p.Contents())
              else State() == s.(upToDate := true, waiting := true) &&
                   p.Contents() == old(p.Contents()) + BatchBytes(s.queue, s.localSeq, serverMs)
    {
      hide QueueOf, Tiles, BatchBytes;
      if waiting || |infos| == 0 {
        return;
      }
      WriteBatch(p, serverMs);
      upToDate := true;
      waiting := true;
    }

    method WriteToPacket(p: Packet, serverMs: nat, nowMs: nat)
      requires Valid() && p.Valid() && p.pos == p.used && p.Repr() !! Repr()
      requires serverMs < 65536 && |infos| < SIZE_T
      modifies Repr(), p.Repr()
      ensures Valid() && fresh(Repr() - old(Repr())) && p.Valid() && p.pos == p.used && (p.data == old(p.data) || fresh(p.data))
      ensures var r := WriteOut(old(State()), serverMs, nowMs);
              State() == r.store && p.Contents() == old(p.Contents()) + r.bytes
    {
      hide Store.Valid, AllEntriesValid, Kept, BatchBytes, WriteOut, MessageManager.State, MessageManager.Valid,
        BuffersValid, Packet.Valid, Packet.Contents;
      ghost var was, start := State(), p.Contents();
      AcknowledgeAndExpire(p, Expired(nowMs));
      ghost var mid, sofar := State(), p.Contents();
      WriteQueue(p, serverMs);
      WrittenInSteps(was, start, mid, sofar, State(), p.Contents(), serverMs, nowMs);
    }

    /** The acknowledgement byte, then the clear-out of messages about a minute old. */
    method AcknowledgeAndExpire(p: Packet, cut: Cut)
      requires Valid() && p.Valid() && p.pos == p.used && p.Repr() !! Repr()
      modifies `infos, `live, buffer.Repr(), buffer2.Repr(), p.Repr()
      ensures Valid() && fresh(Repr() - old(Repr()))
      ensures p.Valid() && p.pos == p.used && (p.data == old(p.data) || fresh(p.data)) && p.Repr() !! Repr()
      ensures |infos| <= old(|infos|)
      ensures State() == old(State()).(queue := Kept(old(State().queue), cut))
      ensures p.Contents() == old(p.Contents()) + [old(State()).remoteSeq]
    {
      hide QueueOf, Tiles, Kept, Overwrite, AllEntriesValid, Store.Valid;
      ghost var q := State().queue;
      p.Write8(remoteSeq);
      RemoveMessagesUntil(cut);
      assert |Kept(q, cut)| <= |q|;
    }

    /** One message's arguments, in order. */
    static method ReadArguments(p: Packet, kinds: seq<Kind>) returns (ret: nat, args: seq<Option<Bytes>>)
      requires p.Valid() && p.used < SIZE_T / 2 && ReadArgs(kinds, p.Contents(), p.pos) != BadArgs
      modifies p`pos
      ensures p.Valid() && p.Contents() == old(p.Contents())
      ensures ReadArgs(kinds, p.Contents(), old(p.pos)) == ArgsRead(p.pos, ret, args)
    {
      hide ReadField;
      ret, args := 0, [];
      if kinds != [] {
        var n, value := ReadFieldFrom(p, kinds[0]);
        var more, rest := ReadArguments(p, kinds[1..]);
        ret, args := n + more, [value] + rest;
      }
    }

    /** The timestamp; len is 0 when there is none to read. */
    static method ReadTime(p: Packet, first: bool) returns (ms: nat, len: nat)
      requires p.Valid() && p.used < SIZE_T / 2 && Timestamp(first, p.Contents(), p.pos).Decoded?
      modifies p`pos
      ensures p.Valid() && p.Contents() == old(p.Contents())
      ensures Timestamp(first, p.Contents(), old(p.pos)) == Decoded(ms, p.pos, len)
    {
      if first {
        ms, len := 0, 0;
        if p.used - p.pos > 2 {
          ms := p.ReadBE(2);
          len := 2;
        }
      } else {
        ms, len := DecodePacket(p, 64);
      }
    }

    /** One round of the loop over the messages received. */
    static method ReadOne(h: Handlers, t: Clocks, p: Packet, first: bool, ghost n: nat) returns (ok: bool, call: Call)
      requires p.Valid() && p.used < SIZE_T / 2 && n > 0
      requires ReadMessages(h, t, p.Contents(), p.pos, first, n) != BadMessages
      modifies p`pos
      ensures p.Valid() && p.Contents() == old(p.Contents())
      ensures ReadMessages(h, t, p.Contents(), old(p.pos), first, n) ==
              if ok then After([call], ReadMessages(h, t, p.Contents(), p.pos, false, n - 1))
              else MessagesRead(p.pos, false, [])
    {
      hide ReadArgs, Timestamp, Decode;
      ok, call := false, Call(0, [], 0);
      var ms, len := ReadTime(p, first);
      if len == 0 {
        return;
      }
      var wide, _ := DecodePacket(p, 64);
      var id := wide % 65536;
      if id !in h {
        return;
      }
      var ret, args := ReadArguments(p, h[id]);
      if ret == 0 {
        return;
      }
      ok, call := true, Call(id, args, t.Handed(ms % 65536));
    }

    static method ReadAll(h: Handlers, t: Clocks, p: Packet, n: nat) returns (ok: bool, calls: seq<Call>)
      requires p.Valid() && p.used < SIZE_T / 2 && ReadMessages(h, t, p.Contents(), p.pos, true, n) != BadMessages
      modifies p`pos
      ensures p.Valid() && p.Contents() == old(p.Contents())
      ensures ReadMessages(h, t, p.Contents(), old(p.pos), true, n) == MessagesRead(p.pos, ok, calls)
    {
      hide ReadMessages, After, Packet.Contents;
      ghost var buf, whole := p.Contents(), ReadMessages(h, t, p.Contents(), p.pos, true, n);
      ok, calls := true, [];
      AfterAfter([], [], whole);
      var i: nat := 0;
      while i < n
        invariant i <= n && ok && p.Valid() && p.Contents() == buf && p.used == old(p.used)
        invariant whole == After(calls, ReadMessages(h, t, buf, p.pos, i == 0, n - i))
      {
        var call: Call;
        Unread(calls, ReadMessages(h, t, buf, p.pos, i == 0, n - i));
        ok, call := ReadOne(h, t, p, i == 0, n - i);
        AfterAfter(calls, [call], ReadMessages(h, t, buf, p.pos, false, n - i - 1));
        if !ok {
          return;
        }
        calls := calls + [call];
        i := i + 1;
      }
      NoMessages(h, t, buf, p.pos, n == 0);
      AfterAfter(calls, [], whole);
    }

    static lemma Unread(calls: seq<Call>, r: MessagesRead)
      ensures After(calls, r) != BadMessages ==> r != BadMessages
    {
    }

    /** The acknowledgement: what it covers leaves the queue, and this side may send again. */
    method ReadAcknowledgement(p: Packet)
      requires Valid() && p.Valid() && p.pos < p.used < SIZE_T / 2 && p.Repr() !! Repr()
      modifies Repr(), p`pos
      ensures Valid() && fresh(Repr() - old(Repr())) && handlers == old(handlers)
      ensures p.Valid() && p.Contents() == old(p.Contents()) && p.pos == old(p.pos) + 1 && p.used == old(p.used)
      ensures var theirs := p.Contents()[old(p.pos)];
              State() == old(State()).(queue := Kept(old(State()).queue, Acknowledged(theirs)), waiting := false)
    {
      hide QueueOf, Tiles, Kept, AllEntriesValid;
      var theirs := p.Read8(0);
      RemoveMessagesUntil(Acknowledged(theirs));
      waiting := false;
    }

    method ReadMessageBatch(p: Packet, t: Clocks) returns (ok: bool, calls: seq<Call>)
      requires Valid() && p.Valid() && p.pos < p.used < SIZE_T / 2 && p.Repr() !! Repr()
      requires ReadBatch(State(), handlers, t, p.Contents(), p.pos) != BadPacket
      modifies `remoteSeq, p`pos
      ensures Valid() && p.Valid() && p.Contents() == old(p.Contents())
      ensures ReadBatch(old(State()), handlers, t, p.Contents(), old(p.pos)) == PacketRead(State(), p.pos, ok, calls)
    {
      hide QueueOf, Tiles, ReadMessages, Decode, AllEntriesValid;
      remoteSeq := p.Read8(remoteSeq);
      var n, _ := DecodePacket(p, 64);
      ok, calls := ReadAll(handlers, t, p, n % UINT32);
    }

    /** calls are the onReceive invocations, in order. */
    method ReadFromPacket(p: Packet, t: Clocks) returns (ok: bool, calls: seq<Call>)
      requires Valid() && p.Valid() && p.used < SIZE_T / 2 && p.Repr() !! Repr()
      requires ReadIn(State(), handlers, t, p.Contents(), p.pos) != BadPacket
      modifies Repr(), p`pos
      ensures Valid() && fresh(Repr() - old(Repr())) && handlers == old(handlers)
      ensures p.Valid() && p.Contents() == old(p.Contents())
      ensures ReadIn(old(State()), handlers, t, p.Contents(), old(p.pos)) == PacketRead(State(), p.pos, ok, calls)
    {
      hide QueueOf, Tiles, Kept, ReadBatch, AllEntriesValid, MessageManager.State, Store.Valid, BuffersValid;
      if p.used - p.pos < 1 {
        return false, [];
      }
      ReadAcknowledgement(p);
      if p.used - p.pos == 0 {
        return true, [];
      }
      ok, calls := ReadMessageBatch(p, t);
    }
  }
}
