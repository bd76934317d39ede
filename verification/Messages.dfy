/** The queue of reliable messages between client and server (src/nrg_message_manager.cpp):
    its bytes on the wire, and the class that keeps the queue in one of two packet buffers. */
module Messages {
  import opened Packets
  import opened Varints
  import opened Codecs

  const UINT32: nat := 0x1_0000_0000
  const USHRT_MAX: nat := 65535

  /** A message waiting to be acknowledged. */
  datatype Entry = Entry(typeId: nat, body: Bytes, batch: nat, serverMs: nat, localMs: nat)
  {
    predicate Valid()
    {
      typeId < 65536 && batch < 256 && serverMs < 65536 && localMs < UINT32
    }
  }

  predicate AllEntriesValid(q: seq<Entry>)
  {
    forall i :: 0 <= i < |q| ==> q[i].Valid()
  }

  /** One manager, apart from how it stores message bodies. */
  datatype Store = Store(queue: seq<Entry>, localSeq: nat, remoteSeq: nat, upToDate: bool, waiting: bool)
  {
    predicate Valid()
    {
      AllEntriesValid(queue) && localSeq < 256 && remoteSeq < 256
    }
  }

  const EMPTY_STORE := Store([], 0, 0, true, false)

  // ---------------------------------------------------------------- dropping from the front

  /** Why messages leave: the peer has acknowledged a batch, or they are about a minute old. */
  datatype Cut = Acknowledged(theirSeq: nat) | Expired(nowMs: nat)

  /** The first message to stay. An acknowledgement stops at the batch numbered one higher, in
      unwrapped arithmetic. */
  predicate Stays(e: Entry, cut: Cut)
  {
    match cut
    case Acknowledged(theirSeq) => theirSeq + 1 == e.batch
    case Expired(nowMs) => (nowMs - e.localMs) % UINT32 < USHRT_MAX
  }

  function Kept(q: seq<Entry>, cut: Cut): (r: seq<Entry>)
    ensures |r| <= |q| && (AllEntriesValid(q) ==> AllEntriesValid(r))
  {
    if q == [] || Stays(q[0], cut) then q else Kept(q[1..], cut)
  }

  /** Kept, as the search loop finds it: the first n leave. */
  lemma {:induction false} KeptFrom(q: seq<Entry>, cut: Cut, n: nat)
    requires n <= |q| && (forall i :: 0 <= i < n ==> !Stays(q[i], cut)) && (n < |q| ==> Stays(q[n], cut))
    ensures Kept(q, cut) == q[n..]
  {
    if n > 0 {
      KeptFrom(q[1..], cut, n - 1);
    }
  }

  // ---------------------------------------------------------------- writing

  function AddTo(s: Store, typeId: nat, body: Bytes, serverMs: nat, nowMs: nat): (r: Store)
    requires s.Valid() && typeId < 65536 && serverMs < 65536 && nowMs < UINT32
    ensures r.Valid()
  {
    var n := if s.upToDate then (s.localSeq + 1) % 256 else s.localSeq;
    s.(upToDate := false, localSeq := n, queue := s.queue + [Entry(typeId, body, n, serverMs, nowMs)])
  }

  /** The first message carries its creation time, each later one the difference to the packet's. */
  function TimeBytes(e: Entry, first: bool, serverMs: nat): (s: Bytes)
    ensures first ==> |s| == 2
    ensures |s| > 0
  {
    if first then BigEndian(2, e.serverMs) else Enc((serverMs - e.serverMs) % SIZE_T)
  }

  function EntryBytes(e: Entry, first: bool, serverMs: nat): (s: Bytes)
  {
    TimeBytes(e, first, serverMs) + Enc(e.typeId) + e.body
  }

  /** The messages from the i-th on. */
  function EntriesFrom(q: seq<Entry>, i: nat, serverMs: nat): (s: Bytes)
    requires i <= |q|
    decreases |q| - i
  {
    if i == |q| then [] else EntryBytes(q[i], i == 0, serverMs) + EntriesFrom(q, i + 1, serverMs)
  }

  function BatchBytes(q: seq<Entry>, localSeq: byte, serverMs: nat): (s: Bytes)
  {
    [localSeq] + Enc(|q|) + EntriesFrom(q, 0, serverMs)
  }

  datatype Written = Written(store: Store, bytes: Bytes)

  function WriteOut(s: Store, serverMs: nat, nowMs: nat): (r: Written)
    requires s.Valid()
    ensures r.store.Valid()
  {
    var kept := Kept(s.queue, Expired(nowMs));
    if s.waiting || kept == [] then Written(s.(queue := kept), [s.remoteSeq])
    else Written(s.(queue := kept, upToDate := true, waiting := true), [s.remoteSeq] + BatchBytes(kept, s.localSeq, serverMs))
  }

  // ---------------------------------------------------------------- expiry

  /** Milliseconds since a message was added, on a clock of 32 bits. */
  function Age(e: Entry, nowMs: nat): (ms: nat)
    requires e.Valid() && nowMs < UINT32
    ensures (e.localMs + ms) % UINT32 == nowMs && ms < UINT32
  {
    if nowMs >= e.localMs then nowMs - e.localMs else nowMs - e.localMs + UINT32
  }

  /** A message is added behind all others, under its own type and body, stamped with the server's time
      and new at the moment it is added: its age at any later time is the time since. */
  lemma AddedLast(s: Store, typeId: nat, body: Bytes, serverMs: nat, nowMs: nat, laterMs: nat)
    requires s.Valid() && typeId < 65536 && serverMs < 65536 && nowMs < UINT32 && laterMs < UINT32
    ensures var q := AddTo(s, typeId, body, serverMs, nowMs).queue;
            var e := q[|s.queue|];
            && q[..|s.queue|] == s.queue && |q| == |s.queue| + 1
            && e.typeId == typeId && e.body == body && e.serverMs == serverMs
            && Age(e, laterMs) == (laterMs - nowMs) % UINT32
  {
  }

  /** The oldest message, if there is one, is not yet 65535 ms old. */
  predicate Young(q: seq<Entry>, nowMs: nat)
    requires AllEntriesValid(q) && nowMs < UINT32
  {
    q != [] ==> Age(q[0], nowMs) < 65535
  }

  /** Writing removes exactly the messages at the front that are at least 65535 ms old: n of them
      leave if and only if the first n are that old and the next one, if any, is not. */
  lemma WriteExpiresIff(s: Store, serverMs: nat, nowMs: nat, n: nat)
    requires s.Valid() && nowMs < UINT32 && n <= |s.queue|
    ensures WriteOut(s, serverMs, nowMs).store.queue == s.queue[n..] <==>
            (forall i :: 0 <= i < n ==> Age(s.queue[i], nowMs) >= 65535) &&
            (n < |s.queue| ==> Age(s.queue[n], nowMs) < 65535)
  {
    hide BatchBytes;
    var k := Expiring(s.queue, nowMs);
    AgesStay(s.queue, nowMs);
    KeptFrom(s.queue, Expired(nowMs), k);
    if n != k {
      assert |s.queue[n..]| != |s.queue[k..]|;
    }
  }

  /** In particular nothing expires, and a manager that may send writes its whole queue, if and only
      if the oldest message is younger than that. */
  lemma WritesAllIff(s: Store, serverMs: nat, nowMs: nat)
    requires s.Valid() && nowMs < UINT32 && s.queue != []
    ensures WriteOut(s, serverMs, nowMs).store.queue == s.queue <==> Young(s.queue, nowMs)
    ensures Young(s.queue, nowMs) && !s.waiting ==>
              WriteOut(s, serverMs, nowMs).bytes == [s.remoteSeq] + BatchBytes(s.queue, s.localSeq, serverMs)
  {
    hide BatchBytes;
    WriteExpiresIff(s, serverMs, nowMs, 0);
    assert s.queue[0..] == s.queue;
  }

  lemma AgesStay(q: seq<Entry>, nowMs: nat)
    requires AllEntriesValid(q) && nowMs < UINT32
    ensures forall i :: 0 <= i < |q| ==> (Stays(q[i], Expired(nowMs)) <==> Age(q[i], nowMs) < 65535)
  {
  }

  /** How many leave. */
  ghost function Expiring(q: seq<Entry>, nowMs: nat): (n: nat)
    requires AllEntriesValid(q) && nowMs < UINT32
    ensures n <= |q| && (forall i :: 0 <= i < n ==> Age(q[i], nowMs) >= 65535)
    ensures n < |q| ==> Age(q[n], nowMs) < 65535
  {
    if q == [] || Age(q[0], nowMs) < 65535 then 0 else 1 + Expiring(q[1..], nowMs)
  }

  // ---------------------------------------------------------------- reading

  /** What arguments each registered message type takes. */
  type Handlers = map<nat, seq<Kind>>

  /** A handler invoked, with the arguments that were read and, in the reader's own milliseconds, the
      time the message is said to have been created. */
  datatype Call = Call(typeId: nat, args: seq<Option<Bytes>>, createdMs: nat)

  /** What the reader's clocks say: the server's time in sixteen bits, and its own. */
  datatype Clocks = Clocks(serverMs: nat, nowMs: nat)
  {
    /** The time handed to the handler of a message that is read as stamped at ms. */
    function Handed(ms: nat): nat
    {
      (nowMs - (serverMs - ms) % 65536) % UINT32
    }
  }

  datatype ArgsRead = ArgsRead(next: nat, ret: nat, args: seq<Option<Bytes>>) | BadArgs

  function ReadArgs(kinds: seq<Kind>, buf: Bytes, pos: nat): (r: ArgsRead)
    requires pos <= |buf|
    ensures r.ArgsRead? ==> pos <= r.next <= |buf|
  {
    if kinds == [] then ArgsRead(pos, 0, [])
    else match ReadField(kinds[0], buf, pos)
      case Undefined => BadArgs
      case FieldRead(next, ret, value) =>
        match ReadArgs(kinds[1..], buf, next)
        case BadArgs => BadArgs
        case ArgsRead(end, more, args) => ArgsRead(end, ret + more, [value] + args)
  }

  datatype MessagesRead = MessagesRead(next: nat, ok: bool, calls: seq<Call>) | BadMessages

  /** A message's timestamp, if it has one. */
  function Timestamp(first: bool, buf: Bytes, pos: nat): (d: Decoded)
    requires pos <= |buf|
    ensures d.Decoded? ==> pos <= d.next <= |buf|
  {
    if !first then Decode(64, buf, pos)
    else if |buf| - pos > 2 then Decoded(FromBigEndian(buf[pos..pos + 2]), pos + 2, 2)
    else Decoded(0, pos, 0)
  }

  function ReadMessages(h: Handlers, t: Clocks, buf: Bytes, pos: nat, first: bool, n: nat): (r: MessagesRead)
    requires pos <= |buf|
    ensures r.MessagesRead? ==> pos <= r.next <= |buf|
    decreases n
  {
    if n == 0 then MessagesRead(pos, true, [])
    else match Timestamp(first, buf, pos)
      case Overflow => BadMessages
      case Decoded(ms, at, len) =>
        if len == 0 then MessagesRead(at, false, [])
        else match Decode(64, buf, at)
          case Overflow => BadMessages
          case Decoded(wide, body, _) =>
            var id := wide % 65536;
            if id !in h then MessagesRead(body, false, [])
            else match ReadArgs(h[id], buf, body)
              case BadArgs => BadMessages
              case ArgsRead(next, ret, args) =>
                if ret == 0 then MessagesRead(next, false, [])
                else After([Call(id, args, t.Handed(ms % 65536))], ReadMessages(h, t, buf, next, false, n - 1))
  }

  /** What was read, behind calls already made. */
  function After(calls: seq<Call>, r: MessagesRead): MessagesRead
  {
    match r
    case BadMessages => BadMessages
    case MessagesRead(next, ok, more) => MessagesRead(next, ok, calls + more)
  }

  lemma AfterAfter(a: seq<Call>, b: seq<Call>, r: MessagesRead)
    ensures After(a, After(b, r)) == After(a + b, r)
    ensures After([], r) == r
    ensures forall next, ok :: After(a, MessagesRead(next, ok, [])) == MessagesRead(next, ok, a)
  {
    if r.MessagesRead? {
      assert a + (b + r.calls) == a + b + r.calls && [] + r.calls == r.calls;
    }
    assert a + [] == a;
  }

  datatype PacketRead = PacketRead(store: Store, next: nat, ok: bool, calls: seq<Call>) | BadPacket

  /** The part of a packet behind the acknowledgement. */
  function ReadBatch(s: Store, h: Handlers, t: Clocks, buf: Bytes, pos: nat): (r: PacketRead)
    requires s.Valid() && pos < |buf|
    ensures r.PacketRead? ==> r.store.Valid() && pos <= r.next <= |buf|
  {
    match Decode(64, buf, pos + 1)
    case Overflow => BadPacket
    case Decoded(n, at, _) =>
      match ReadMessages(h, t, buf, at, true, n % UINT32)
      case BadMessages => BadPacket
      case MessagesRead(next, ok, calls) => PacketRead(s.(remoteSeq := buf[pos]), next, ok, calls)
  }

  function ReadIn(s: Store, h: Handlers, t: Clocks, buf: Bytes, pos: nat): (r: PacketRead)
    requires s.Valid() && pos <= |buf|
    ensures r.PacketRead? ==> r.store.Valid() && pos <= r.next <= |buf|
  {
    if pos == |buf| then PacketRead(s, pos, false, [])
    else
      var acked := s.(queue := Kept(s.queue, Acknowledged(buf[pos])), waiting := false);
      if pos + 1 == |buf| then PacketRead(acked, pos + 1, true, [])
      else ReadBatch(acked, h, t, buf, pos + 1)
  }

  // ---------------------------------------------------------------- a written batch parses back

  /** A body holds one well encoded image for each argument. */
  ghost predicate Holds(kinds: seq<Kind>, body: Bytes, args: seq<Bytes>)
  {
    |args| == |kinds| &&
    if kinds == [] then body == []
    else WellEncoded(kinds[0], args[0]) && |args[0]| > 0 && |args[0]| <= |body| &&
         args[0] == body[..|args[0]|] && Holds(kinds[1..], body[|args[0]|..], args[1..])
  }

  function Wrap(args: seq<Bytes>): (r: seq<Option<Bytes>>)
    ensures |r| == |args|
  {
    if args == [] then [] else [Some(args[0])] + Wrap(args[1..])
  }

  lemma {:induction false} ArgsReadBack(kinds: seq<Kind>, pre: Bytes, body: Bytes, args: seq<Bytes>, tail: Bytes)
    requires Holds(kinds, body, args)
    ensures ReadArgs(kinds, pre + body + tail, |pre|) == ArgsRead(|pre| + |body|, |body|, Wrap(args))
  {
    hide ReadField, WellEncoded;
    if kinds != [] {
      var rest := body[|args[0]|..];
      ReadImage(kinds[0], pre, args[0], rest + tail);
      ArgsReadBack(kinds[1..], pre + args[0], rest, args[1..], tail);
      assert pre + body + tail == pre + args[0] + (rest + tail) == pre + args[0] + rest + tail;
    }
  }

  /** Every queued message is one its receiver has a handler for; args lists their arguments. */
  ghost predicate Understood(h: Handlers, q: seq<Entry>, args: seq<seq<Bytes>>)
  {
    AllEntriesValid(q) && |args| == |q| &&
    forall i :: 0 <= i < |q| ==>
      q[i].typeId in h && h[q[i].typeId] != [] && Holds(h[q[i].typeId], q[i].body, args[i])
  }

  /** What the reader takes a message's timestamp to be. Every message but the first is sent with the
      difference to the packet's time, and that is what it is read as. */
  function Stamp(e: Entry, first: bool, serverMs: nat): nat
  {
    if first then e.serverMs else (serverMs - e.serverMs) % 65536
  }

  /** The handlers a batch runs, from the i-th message on: each with its own message's arguments. */
  function CallsFrom(q: seq<Entry>, args: seq<seq<Bytes>>, i: nat, serverMs: nat, t: Clocks): (r: seq<Call>)
    requires |args| == |q| && i <= |q|
    ensures |r| == |q| - i
    ensures forall k :: 0 <= k < |r| ==>
              r[k] == Call(q[i + k].typeId, Wrap(args[i + k]), t.Handed(Stamp(q[i + k], i + k == 0, serverMs)))
    decreases |q| - i
  {
    if i == |q| then []
    else [Call(q[i].typeId, Wrap(args[i]), t.Handed(Stamp(q[i], i == 0, serverMs)))] + CallsFrom(q, args, i + 1, serverMs, t)
  }

  lemma {:induction false} Pow2Adds(m: nat, n: nat)
    ensures Pow2(m + n) == Pow2(m) * Pow2(n)
  {
    if m > 0 {
      Pow2Adds(m - 1, n);
      assert Pow2(m + n) == 2 * Pow2(m - 1 + n);
      assert 2 * (Pow2(m - 1) * Pow2(n)) == 2 * Pow2(m - 1) * Pow2(n);
    }
  }

  lemma Pow2Of8()
    ensures Pow2(8) == 256
  {
  }

  lemma Widths()
    ensures Pow2(16) == 65536 && Pow2(64) == SIZE_T
  {
    hide Pow2;
    Pow2Of8();
    Pow2Adds(8, 8);
    Pow2Adds(16, 16);
    Pow2Adds(32, 32);
  }

  /** Timestamps read back where the difference is not negative, and not at all where it is. */
  lemma TimeReadsBack(e: Entry, first: bool, serverMs: nat, pre: Bytes, tail: Bytes)
    requires e.Valid() && serverMs < 65536 && tail != []
    ensures var time := TimeBytes(e, first, serverMs);
            var d := Timestamp(first, pre + time + tail, |pre|);
            if first || serverMs >= e.serverMs
            then d == Decoded(Stamp(e, first, serverMs), |pre| + |time|, |time|)
            else d.Overflow?
  {
    hide Decode, Pow2, Enc;
    Widths();
    if first {
      assert Pow256(2) == 65536;
      BigEndianRoundTrip(2, e.serverMs);
      assert (pre + TimeBytes(e, first, serverMs) + tail)[|pre|..|pre| + 2] == BigEndian(2, e.serverMs);
    } else {
      if serverMs >= e.serverMs {
        assert (serverMs - e.serverMs) % SIZE_T == serverMs - e.serverMs;
        DecodeEnc(64, pre, serverMs - e.serverMs, tail);
      } else {
        assert (serverMs - e.serverMs) % SIZE_T == serverMs - e.serverMs + SIZE_T;
        DecodeEncOverflows(64, pre, serverMs - e.serverMs + SIZE_T, tail);
      }
    }
  }

  /** No message after the first is stamped later than the packet. */
  predicate InTime(q: seq<Entry>, i: nat, serverMs: nat)
  {
    forall k :: i <= k < |q| && k > 0 ==> q[k].serverMs <= serverMs
  }

  /** One message of a batch, in front of whatever follows it. */
  lemma EntryReadsBack(
    h: Handlers, t: Clocks, q: seq<Entry>, args: seq<seq<Bytes>>, i: nat, serverMs: nat, pre: Bytes, rest: Bytes)
    requires Understood(h, q, args) && i < |q| && serverMs < 65536
    ensures var e := q[i];
            var buf := pre + EntryBytes(e, i == 0, serverMs) + rest;
            var end := |pre| + |EntryBytes(e, i == 0, serverMs)|;
            ReadMessages(h, t, buf, |pre|, i == 0, |q| - i) ==
              if i > 0 && serverMs < e.serverMs then BadMessages
              else After([Call(e.typeId, Wrap(args[i]), t.Handed(Stamp(e, i == 0, serverMs)))],
                         ReadMessages(h, t, buf, end, false, |q| - i - 1))
  {
    hide ReadArgs, Decode, Understood, Holds, Wrap, Pow2, Timestamp, After, TimeBytes, Enc, Clocks.Handed;
    var e := q[i];
    var time, id := TimeBytes(e, i == 0, serverMs), Enc(e.typeId);
    var buf := pre + EntryBytes(e, i == 0, serverMs) + rest;
    UnderstoodAt(h, q, args, i);
    TimeReadsBack(e, i == 0, serverMs, pre, id + e.body + rest);
    assert buf == pre + time + (id + e.body + rest);
    Widths();
    DecodeEnc(64, pre + time, e.typeId, e.body + rest);
    assert buf == pre + time + id + (e.body + rest);
    ArgsReadBack(h[e.typeId], pre + time + id, e.body, args[i], rest);
    assert buf == pre + time + id + e.body + rest;
  }

  lemma UnderstoodAt(h: Handlers, q: seq<Entry>, args: seq<seq<Bytes>>, i: nat)
    requires Understood(h, q, args) && i < |q|
    ensures |args| == |q|
    ensures q[i].Valid() && q[i].typeId in h && Holds(h[q[i].typeId], q[i].body, args[i]) && |q[i].body| > 0
  {
  }

  lemma UnderstoodAll(h: Handlers, q: seq<Entry>, args: seq<seq<Bytes>>)
    requires Understood(h, q, args)
    ensures |args| == |q|
  {
  }

  lemma NoneLate(q: seq<Entry>, serverMs: nat)
    ensures InTime(q, |q|, serverMs)
  {
  }

  lemma Regrouped(pre: Bytes, e: Bytes, rest: Bytes, tail: Bytes)
    ensures pre + (e + rest) + tail == pre + e + (rest + tail) == pre + e + rest + tail
  {
  }

  lemma EntriesTurn(q: seq<Entry>, i: nat, serverMs: nat)
    requires i <= |q|
    ensures EntriesFrom(q, i, serverMs) ==
            if i == |q| then [] else EntryBytes(q[i], i == 0, serverMs) + EntriesFrom(q, i + 1, serverMs)
  {
  }

  lemma InTimeTurn(q: seq<Entry>, i: nat, serverMs: nat)
    requires i < |q|
    ensures InTime(q, i, serverMs) <==> InTime(q, i + 1, serverMs) && (i > 0 ==> q[i].serverMs <= serverMs)
  {
  }

  lemma CallsTurn(q: seq<Entry>, args: seq<seq<Bytes>>, i: nat, serverMs: nat, t: Clocks)
    requires |args| == |q| && i <= |q|
    ensures CallsFrom(q, args, i, serverMs, t) ==
            if i == |q| then []
            else [Call(q[i].typeId, Wrap(args[i]), t.Handed(Stamp(q[i], i == 0, serverMs)))] +
                 CallsFrom(q, args, i + 1, serverMs, t)
  {
  }

  lemma {:induction false} EntriesReadBack(
    h: Handlers, t: Clocks, q: seq<Entry>, args: seq<seq<Bytes>>, i: nat, serverMs: nat, pre: Bytes, tail: Bytes)
    requires Understood(h, q, args) && i <= |q| && serverMs < 65536
    ensures ReadMessages(h, t, pre + EntriesFrom(q, i, serverMs) + tail, |pre|, i == 0, |q| - i) ==
            if InTime(q, i, serverMs)
            then MessagesRead(|pre| + |EntriesFrom(q, i, serverMs)|, true, CallsFrom(q, args, i, serverMs, t))
            else BadMessages
    decreases |q| - i
  {
    hide ReadMessages, EntryBytes, EntriesFrom, Understood, Wrap, Clocks.Handed, Stamp, InTime, CallsFrom;
    assert |args| == |q| by { UnderstoodAll(h, q, args); }
    CallsTurn(q, args, i, serverMs, t);
    EntriesTurn(q, i, serverMs);
    if i == |q| {
      assert InTime(q, i, serverMs) by { NoneLate(q, serverMs); }
      NoMessages(h, t, pre + [] + tail, |pre|, i == 0);
    } else {
      var e, rest := EntryBytes(q[i], i == 0, serverMs), EntriesFrom(q, i + 1, serverMs);
      EntryReadsBack(h, t, q, args, i, serverMs, pre, rest + tail);
      EntriesReadBack(h, t, q, args, i + 1, serverMs, pre + e, tail);
      Regrouped(pre, e, rest, tail);
      InTimeTurn(q, i, serverMs);
    }
  }

  lemma NoMessages(h: Handlers, t: Clocks, buf: Bytes, pos: nat, first: bool)
    requires pos <= |buf|
    ensures ReadMessages(h, t, buf, pos, first, 0) == MessagesRead(pos, true, [])
  {
  }

  /** A batch written by one manager and read by another runs exactly its handlers, in queue
      order, if and only if no message after the first is stamped later than the packet. */
  lemma BatchReadsBackIff(
    s: Store, h: Handlers, t: Clocks, q: seq<Entry>, args: seq<seq<Bytes>>, ack: byte, localSeq: byte, serverMs: nat)
    requires s.Valid() && Understood(h, q, args) && 0 < |q| < 0x8000_0000 && serverMs < 65536
    ensures var buf := [ack] + BatchBytes(q, localSeq, serverMs);
            var read := s.(queue := Kept(s.queue, Acknowledged(ack)), waiting := false, remoteSeq := localSeq);
            ReadIn(s, h, t, buf, 0) ==
              if InTime(q, 0, serverMs) then PacketRead(read, |buf|, true, CallsFrom(q, args, 0, serverMs, t)) else BadPacket
  {
    hide Kept, ReadMessages, EntriesFrom, Understood, CallsFrom, InTime, Pow2, Clocks.Handed, Decode, AllEntriesValid, Enc;
    var buf := [ack] + BatchBytes(q, localSeq, serverMs);
    var entries := EntriesFrom(q, 0, serverMs);
    Widths();
    DecodeEnc(64, [ack, localSeq], |q|, entries);
    assert buf == [ack, localSeq] + Enc(|q|) + entries;
    EntriesReadBack(h, t, q, args, 0, serverMs, [ack, localSeq] + Enc(|q|), []);
    assert buf == [ack, localSeq] + Enc(|q|) + entries + [];
  }

  // ---------------------------------------------------------------- creation times

  /** When a message was created, by the reader's clocks: the server's time then is known to sixteen bits. */
  function Created(e: Entry, t: Clocks): nat
  {
    (t.nowMs - (t.serverMs - e.serverMs) % 65536) % UINT32
  }

  /** A handler gets the time its message was created if the message is the first of its batch; any
      other gets it if and only if twice the creation time is the packet's time, in sixteen bits. */
  lemma CreationTimeIff(e: Entry, first: bool, serverMs: nat, t: Clocks)
    requires e.Valid() && serverMs < 65536
    ensures t.Handed(Stamp(e, first, serverMs)) == Created(e, t) <==> first || (2 * e.serverMs - serverMs) % 65536 == 0
  {
    var x, y := (t.serverMs - Stamp(e, first, serverMs)) % 65536, (t.serverMs - e.serverMs) % 65536;
    AgesApart(t.nowMs, x, y);
  }

  lemma AgesApart(now: nat, x: nat, y: nat)
    requires x < 65536 && y < 65536
    ensures (now - x) % UINT32 == (now - y) % UINT32 <==> x == y
  {
  }

  // ---------------------------------------------------------------- where reading stops

  /** Reading goes on behind a message exactly if its timestamp is there, its type has a handler and
      something of its arguments was read; otherwise it fails, with no handler called from there on. */
  lemma StopsIff(h: Handlers, t: Clocks, buf: Bytes, pos: nat, first: bool, n: nat)
    requires pos <= |buf| && n > 0 && ReadMessages(h, t, buf, pos, first, n).MessagesRead?
    ensures var stamp := Timestamp(first, buf, pos);
            stamp.Decoded? &&
            var id := Decode(64, buf, stamp.next);
            var known := stamp.len > 0 && id.Decoded? && id.value % 65536 in h;
            var args := if known then ReadArgs(h[id.value % 65536], buf, id.next) else BadArgs;
            var goesOn := known && args.ArgsRead? && args.ret > 0;
            var r := ReadMessages(h, t, buf, pos, first, n);
            && (r.calls != [] <==> goesOn)
            && (!goesOn ==> !r.ok)
            && (goesOn ==>
                  var rest := ReadMessages(h, t, buf, args.next, false, n - 1);
                  rest.MessagesRead? && r.ok == rest.ok && r.next == rest.next && r.calls[1..] == rest.calls)
  {
    hide ReadArgs, Timestamp, Decode;
  }

  /** Whatever follows the acknowledgement, even if reading fails there: it is taken in, and the sender may
      write its messages again. A packet that is over is refused, one that is over behind it is not. */
  lemma AlwaysAcknowledged(s: Store, h: Handlers, t: Clocks, buf: Bytes, pos: nat)
    requires s.Valid() && pos <= |buf| && ReadIn(s, h, t, buf, pos).PacketRead?
    ensures var r := ReadIn(s, h, t, buf, pos);
            if pos == |buf| then r == PacketRead(s, pos, false, [])
            else && r.store.queue == Kept(s.queue, Acknowledged(buf[pos])) && !r.store.waiting
                 && r.store.remoteSeq == (if pos + 1 < |buf| then buf[pos + 1] else s.remoteSeq)
                 && r.store.localSeq == s.localSeq && r.store.upToDate == s.upToDate
                 && (pos + 1 == |buf| ==> r.ok && r.calls == [])
  {
    hide Kept, ReadMessages, Decode;
  }

  /** The first message's timestamp takes more than its two bytes to be there, any other's one byte. */
  lemma TimestampThereIff(first: bool, buf: Bytes, pos: nat)
    requires pos <= |buf| && Timestamp(first, buf, pos).Decoded?
    ensures first ==> (Timestamp(first, buf, pos).len > 0 <==> |buf| - pos >= 3)
    ensures !first && pos == |buf| ==> Timestamp(first, buf, pos).len == 0
  {
  }
}
