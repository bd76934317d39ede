/** Two message managers over a channel that may lose packets but keeps their order: what is
    handled, in which order, and when a message may leave its sender's queue. */
module MessageRuns {
  import opened Packets
  import opened Varints
  import opened Codecs
  import opened Messages

  /** The messages of one packet. `first` is the position of the oldest among all ever added. */
  datatype Batch = Batch(number: nat, entries: seq<Entry>, first: nat)
  {
    function End(): nat
    {
      first + |entries|
    }
  }

  /** A packet in flight. `upTo` counts the messages its sender has handled so far; like `first`
      it is bookkeeping that never reaches the wire. */
  datatype Pkt = Pkt(ack: nat, upTo: nat, batch: Option<Batch>)

  /** A manager, everything ever added to it, and the positions (among what the peer has added)
      of the messages whose handlers it ran, in the order they ran. */
  datatype Node = Node(store: Store, added: seq<Entry>, handled: seq<nat>)

  const NEW_NODE := Node(EMPTY_STORE, [], [])

  // ---------------------------------------------------------------- first deliveries

  /** The list without repeats, first occurrences kept. */
  function Firsts(s: seq<nat>): (r: seq<nat>)
    ensures forall x :: x in r <==> x in s
  {
    if s == [] then []
    else
      var before, x := Firsts(s[..|s| - 1]), s[|s| - 1];
      if x in before then before else before + [x]
  }

  function Range(first: nat, end: nat): (r: seq<nat>)
    requires first <= end
    ensures |r| == end - first
    ensures forall i :: 0 <= i < |r| ==> r[i] == first + i
    decreases end
  {
    if first == end then [] else Range(first, end - 1) + [end - 1]
  }

  /** Handling a stretch that starts no later than the first message not yet handled extends the
      prefix of first deliveries to the stretch's end. */
  lemma {:induction false} StretchExtends(handled: seq<nat>, h: nat, first: nat, end: nat)
    requires Firsts(handled) == Range(0, h) && first <= h && first <= end
    ensures Firsts(handled + Range(first, end)) == Range(0, if h < end then end else h)
    decreases end
  {
    hide Firsts, Range;
    if first == end {
      RangeEnds(first, end);
      assert handled + [] == handled;
    } else {
      StretchExtends(handled, h, first, end - 1);
      RangeEnds(first, end);
      var so := if h < end - 1 then end - 1 else h;
      OneMoreFirst(handled + Range(first, end - 1), end - 1);
      assert handled + Range(first, end) == handled + Range(first, end - 1) + [end - 1];
      if end - 1 < so {
        assert Range(0, so)[end - 1] == end - 1;
      } else {
        NotInRange(so, end - 1);
        RangeEnds(0, end);
      }
    }
  }

  lemma RangeEnds(first: nat, end: nat)
    requires first <= end
    ensures if first == end then Range(first, end) == [] else Range(first, end) == Range(first, end - 1) + [end - 1]
  {
  }

  lemma OneMoreFirst(s: seq<nat>, x: nat)
    ensures Firsts(s + [x]) == if x in Firsts(s) then Firsts(s) else Firsts(s) + [x]
  {
    assert (s + [x])[..|s|] == s;
  }

  lemma NotInRange(n: nat, x: nat)
    requires n <= x
    ensures x !in Range(0, n)
  {
  }

  // ---------------------------------------------------------------- steps of one node

  function Added(n: Node, typeId: nat, body: Bytes, serverMs: nat, nowMs: nat): Node
    requires n.store.Valid() && typeId < 65536 && serverMs < 65536 && nowMs < UINT32
  {
    var s := AddTo(n.store, typeId, body, serverMs, nowMs);
    n.(store := s, added := n.added + [s.queue[|s.queue| - 1]])
  }

  /** writeToPacket while the oldest message is younger than 65535 ms. */
  function Outgoing(n: Node): Pkt
  {
    Pkt(n.store.remoteSeq, |Firsts(n.handled)|,
        if n.store.waiting || n.store.queue == [] || |n.store.queue| > |n.added| then None
        else Some(Batch(n.store.localSeq, n.store.queue, |n.added| - |n.store.queue|)))
  }

  function Sent(n: Node): Node
  {
    if n.store.waiting || n.store.queue == [] then n
    else n.(store := n.store.(upToDate := true, waiting := true))
  }

  /** readFromPacket of a packet whose messages are all understood. */
  function Received(n: Node, p: Pkt): Node
  {
    var s := n.store.(queue := Kept(n.store.queue, Acknowledged(p.ack)), waiting := false);
    match p.batch
    case None => n.(store := s)
    case Some(b) => n.(store := s.(remoteSeq := b.number), handled := n.handled + Range(b.first, b.End()))
  }

  // ---------------------------------------------------------------- the bytes behind the packets

  predicate Sendable(p: Pkt)
  {
    p.ack < 256 && (p.batch.Some? ==> p.batch.value.number < 256 && 0 < |p.batch.value.entries| < 0x8000_0000)
  }

  function Wire(p: Pkt, serverMs: nat): Bytes
    requires Sendable(p)
  {
    [p.ack] + match p.batch
              case None => []
              case Some(b) => BatchBytes(b.entries, b.number, serverMs)
  }

  /** Outgoing and Sent are what writing does to the store and puts on the wire. */
  lemma SentIsWritten(n: Node, serverMs: nat, nowMs: nat)
    requires n.store.Valid() && |n.store.queue| <= |n.added| && |n.store.queue| < 0x8000_0000 && serverMs < 65536
    requires nowMs < UINT32 && Young(n.store.queue, nowMs)
    ensures Sendable(Outgoing(n))
    ensures WriteOut(n.store, serverMs, nowMs) == Written(Sent(n).store, Wire(Outgoing(n), serverMs))
  {
    hide BatchBytes, Kept, AllEntriesValid, Firsts, Young;
    assert [n.store.remoteSeq] + [] == [n.store.remoteSeq];
    if n.store.queue != [] {
      WritesAllIff(n.store, serverMs, nowMs);
    } else {
      NothingKept(nowMs);
    }
  }

  lemma NothingKept(nowMs: nat)
    ensures Kept([], Expired(nowMs)) == []
  {
  }

  /** Received is what reading those bytes does to the store; the handlers run are the batch's, in order. */
  lemma ReceivedIsRead(n: Node, p: Pkt, h: Handlers, t: Clocks, args: seq<seq<Bytes>>, serverMs: nat)
    requires n.store.Valid() && Sendable(p) && serverMs < 65536
    requires p.batch.Some? ==> Understood(h, p.batch.value.entries, args) && InTime(p.batch.value.entries, 0, serverMs)
    ensures var bytes := Wire(p, serverMs);
            ReadIn(n.store, h, t, bytes, 0) ==
              PacketRead(Received(n, p).store, |bytes|, true,
                         if p.batch.Some? then CallsFrom(p.batch.value.entries, args, 0, serverMs, t) else [])
  {
    hide BatchBytes, Kept, AllEntriesValid, ReadBatch, Understood, CallsFrom, InTime, Range;
    match p.batch
    case None =>
      assert Wire(p, serverMs) == [p.ack];
    case Some(b) =>
      BatchReadsBackIff(n.store, h, t, b.entries, args, p.ack, b.number, serverMs);
  }

  // ---------------------------------------------------------------- batch numbers

  /** The number of the batch that ends just before position k. */
  function NumberAt(added: seq<Entry>, k: nat): nat
    requires k <= |added|
  {
    if k == 0 then 0 else added[k - 1].batch
  }

  /** Message i + 1 is of the same batch as message i, or of the next. */
  predicate Steps(q: seq<Entry>, i: nat)
    requires i + 1 < |q|
  {
    q[i].batch <= q[i + 1].batch <= q[i].batch + 1
  }

  /** Batches are numbered 1, 2, 3, ... without a gap, the last one localSeq. */
  predicate Numbered(added: seq<Entry>, localSeq: nat)
  {
    localSeq == NumberAt(added, |added|) < 256 && AllEntriesValid(added) &&
    (added != [] ==> added[0].batch == 1) &&
    forall i :: 0 <= i < |added| - 1 ==> Steps(added, i)
  }

  /** No message will ever again be added to the batch that ends before position k. */
  predicate Closed(s: Node, k: nat)
  {
    k <= |s.added| &&
    (k == 0 || (if k < |s.added| then s.added[k].batch == s.added[k - 1].batch + 1 else s.store.upToDate))
  }

  lemma {:induction false} NumbersAscend(added: seq<Entry>, localSeq: nat, i: nat, j: nat)
    requires Numbered(added, localSeq) && i <= j < |added|
    ensures 1 <= added[i].batch <= added[j].batch <= localSeq
    decreases |added| - i, j
  {
    if i < j {
      NumbersAscend(added, localSeq, i, j - 1);
      assert Steps(added, j - 1);
      if j < |added| - 1 {
        NumbersAscend(added, localSeq, i + 1, |added| - 1);
        NumbersAscend(added, localSeq, i + 1, j);
        NumbersTop(added, localSeq, j);
      }
    } else {
      NumbersTop(added, localSeq, i);
      NumbersBottom(added, localSeq, i);
    }
  }

  lemma {:induction false} NumbersTop(added: seq<Entry>, localSeq: nat, i: nat)
    requires Numbered(added, localSeq) && i < |added|
    ensures added[i].batch <= localSeq
    decreases |added| - i
  {
    if i < |added| - 1 {
      assert Steps(added, i);
      NumbersTop(added, localSeq, i + 1);
    }
  }

  lemma {:induction false} NumbersBottom(added: seq<Entry>, localSeq: nat, i: nat)
    requires Numbered(added, localSeq) && i < |added|
    ensures 1 <= added[i].batch
  {
    if i > 0 {
      NumbersBottom(added, localSeq, i - 1);
      assert Steps(added, i - 1);
    }
  }

  /** An acknowledgement of everything before a closed position removes exactly that. */
  lemma AckCutsAt(s: Node, k: nat, c: nat)
    requires Numbered(s.added, s.store.localSeq) && Closed(s, c) && k <= c
    ensures Kept(s.added[k..], Acknowledged(NumberAt(s.added, c))) == s.added[c..]
  {
    var q := s.added[k..];
    forall i | 0 <= i < c - k
      ensures !Stays(q[i], Acknowledged(NumberAt(s.added, c)))
    {
      NumbersAscend(s.added, s.store.localSeq, k + i, c - 1);
    }
    KeptFrom(q, Acknowledged(NumberAt(s.added, c)), c - k);
    assert q[c - k..] == s.added[c..];
  }

  // ---------------------------------------------------------------- one direction of the traffic

  /** Batches in flight lie end to end with what was handled, oldest packet first. */
  ghost predicate FwdOk(s: Node, k: nat, h: nat, fwd: seq<Pkt>)
  {
    (forall i :: 0 <= i < |fwd| && fwd[i].batch.Some? ==>
       var b := fwd[i].batch.value;
       b.first <= k && h <= b.End() && b.first < b.End() && Closed(s, b.End()) &&
       b.entries == s.added[b.first..b.End()] && b.number == NumberAt(s.added, b.End())) &&
    (forall i, j :: 0 <= i < j < |fwd| && fwd[i].batch.Some? && fwd[j].batch.Some? ==>
       fwd[i].batch.value.End() <= fwd[j].batch.value.End())
  }

  /** Acknowledgements in flight lie between what was removed and what was handled. */
  ghost predicate BackOk(s: Node, k: nat, h: nat, back: seq<Pkt>)
  {
    (forall i :: 0 <= i < |back| ==>
       k <= back[i].upTo <= h && Closed(s, back[i].upTo) && back[i].ack == NumberAt(s.added, back[i].upTo)) &&
    (forall i, j :: 0 <= i < j < |back| ==> back[i].upTo <= back[j].upTo)
  }

  /** s sends messages to r; k have left s's queue, h were handled by r. */
  ghost predicate FlowAt(s: Node, r: Node, fwd: seq<Pkt>, back: seq<Pkt>, k: nat, h: nat)
  {
    && k <= h <= |s.added| && s.store.queue == s.added[k..] && (s.added == [] ==> s.store.upToDate)
    && Numbered(s.added, s.store.localSeq) && Closed(s, k) && Closed(s, h)
    && Firsts(r.handled) == Range(0, h) && r.store.remoteSeq == NumberAt(s.added, h)
    && FwdOk(s, k, h, fwd) && BackOk(s, k, h, back)
  }

  /** t is s with more messages, or with its last batch closed: what s had is as it was. */
  ghost predicate Grows(s: Node, t: Node)
  {
    s.added <= t.added &&
    forall c: nat :: Closed(s, c) ==> Closed(t, c) && NumberAt(t.added, c) == NumberAt(s.added, c)
  }

  lemma FwdGrows(s: Node, t: Node, k: nat, m: nat, h: nat, fwd: seq<Pkt>)
    requires FwdOk(s, k, h, fwd) && Grows(s, t) && k <= m
    ensures FwdOk(t, m, h, fwd)
  {
    hide Closed, NumberAt;
    forall i | 0 <= i < |fwd| && fwd[i].batch.Some?
      ensures var b := fwd[i].batch.value;
              Closed(t, b.End()) && b.End() <= |t.added| &&
              b.entries == t.added[b.first..b.End()] && b.number == NumberAt(t.added, b.End())
    {
      var b := fwd[i].batch.value;
      assert Closed(s, b.End());
      ClosedInside(s, b.End());
      assert t.added[b.first..b.End()] == s.added[b.first..b.End()];
    }
  }

  lemma ClosedInside(s: Node, c: nat)
    requires Closed(s, c)
    ensures c <= |s.added|
  {
  }

  lemma BackGrows(s: Node, t: Node, k: nat, h: nat, back: seq<Pkt>)
    requires BackOk(s, k, h, back) && Grows(s, t)
    ensures BackOk(t, k, h, back)
  {
    hide Closed, NumberAt;
  }

  lemma AddGrows(s: Node, typeId: nat, body: Bytes, serverMs: nat, nowMs: nat)
    requires s.store.Valid() && Numbered(s.added, s.store.localSeq) && typeId < 65536 && serverMs < 65536 && nowMs < UINT32
    requires s.store.upToDate ==> s.store.localSeq < 255
    requires s.added == [] ==> s.store.upToDate
    ensures var t := Added(s, typeId, body, serverMs, nowMs);
            Grows(s, t) && Numbered(t.added, t.store.localSeq) && |t.added| == |s.added| + 1
  {
    hide Numbered, Closed, NumberAt;
    var t := Added(s, typeId, body, serverMs, nowMs);
    var e := t.added[|s.added|];
    assert t.added == s.added + [e] && t.store.queue == s.store.queue + [e];
    AddNumbers(s.added, s.store.localSeq, e, s.store.upToDate);
    forall c: nat | Closed(s, c)
      ensures c <= |s.added| && Closed(t, c) && NumberAt(t.added, c) == NumberAt(s.added, c)
    {
      AddCloses(s, t, e, c);
    }
  }

  lemma AddNumbers(added: seq<Entry>, localSeq: nat, e: Entry, newBatch: bool)
    requires Numbered(added, localSeq) && e.Valid() && e.batch == (if newBatch then localSeq + 1 else localSeq) < 256
    requires added == [] ==> newBatch
    ensures Numbered(added + [e], e.batch)
  {
    var all := added + [e];
    forall i | 0 <= i < |all| - 1
      ensures Steps(all, i)
    {
      if i < |added| - 1 {
        assert Steps(added, i);
      }
    }
  }

  lemma AddCloses(s: Node, t: Node, e: Entry, c: nat)
    requires Closed(s, c) && t.added == s.added + [e] && Numbered(s.added, s.store.localSeq)
    requires s.store.upToDate ==> e.batch == s.store.localSeq + 1
    ensures c <= |s.added| && Closed(t, c) && NumberAt(t.added, c) == NumberAt(s.added, c)
  {
  }

  lemma SenderAdds(s: Node, r: Node, fwd: seq<Pkt>, back: seq<Pkt>, k: nat, h: nat,
                   typeId: nat, body: Bytes, serverMs: nat, nowMs: nat)
    requires s.store.Valid() && FlowAt(s, r, fwd, back, k, h) && typeId < 65536 && serverMs < 65536 && nowMs < UINT32
    requires s.store.upToDate ==> s.store.localSeq < 255
    ensures FlowAt(Added(s, typeId, body, serverMs, nowMs), r, fwd, back, k, h)
  {
    hide Numbered, Closed, Firsts, Range, FwdOk, BackOk, NumberAt;
    AddGrows(s, typeId, body, serverMs, nowMs);
    var t := Added(s, typeId, body, serverMs, nowMs);
    assert t.store.queue == t.added[k..];
    FwdGrows(s, t, k, k, h, fwd);
    BackGrows(s, t, k, h, back);
  }

  lemma FwdAppend(s: Node, k: nat, h: nat, fwd: seq<Pkt>, p: Pkt)
    requires FwdOk(s, k, h, fwd) && h <= |s.added|
    requires p.batch.Some? ==>
               var b := p.batch.value;
               b.first == k < |s.added| && b.entries == s.added[k..] && Closed(s, |s.added|) &&
               b.number == NumberAt(s.added, |s.added|)
    ensures FwdOk(s, k, h, fwd + [p])
  {
    hide Closed, NumberAt;
    if p.batch.Some? {
      assert s.added[k..|s.added|] == s.added[k..];
      forall i | 0 <= i < |fwd| && fwd[i].batch.Some?
        ensures fwd[i].batch.value.End() <= p.batch.value.End()
      {
        ClosedInside(s, fwd[i].batch.value.End());
      }
    }
  }

  lemma SendCloses(s: Node)
    requires Numbered(s.added, s.store.localSeq)
    ensures Grows(s, Sent(s))
    ensures !s.store.waiting && s.store.queue != [] ==> Closed(Sent(s), |s.added|)
  {
  }

  lemma SenderSends(s: Node, r: Node, fwd: seq<Pkt>, back: seq<Pkt>, k: nat, h: nat)
    requires FlowAt(s, r, fwd, back, k, h)
    ensures FlowAt(Sent(s), r, fwd + [Outgoing(s)], back, k, h)
  {
    hide Firsts, Range, FwdOk, BackOk, Closed, NumberAt;
    SendCloses(s);
    FwdGrows(s, Sent(s), k, k, h, fwd);
    BackGrows(s, Sent(s), k, h, back);
    FwdAppend(Sent(s), k, h, fwd, Outgoing(s));
  }

  lemma ReceiverSends(s: Node, r: Node, fwd: seq<Pkt>, back: seq<Pkt>, k: nat, h: nat)
    requires FlowAt(s, r, fwd, back, k, h)
    ensures FlowAt(s, Sent(r), fwd, back + [Outgoing(r)], k, h)
  {
    hide FwdOk, Firsts;
  }

  /** What the other direction's messages do to r leaves this direction alone. */
  lemma ReceiverUnrelated(s: Node, r: Node, t: Node, fwd: seq<Pkt>, back: seq<Pkt>, k: nat, h: nat)
    requires FlowAt(s, r, fwd, back, k, h) && t.handled == r.handled && t.store.remoteSeq == r.store.remoteSeq
    ensures FlowAt(s, t, fwd, back, k, h)
  {
    hide FwdOk, BackOk, Numbered, Closed, Firsts, Range;
  }

  /** A packet lost, anywhere in the channel. */
  function Without(c: seq<Pkt>, i: nat): seq<Pkt>
    requires i < |c|
  {
    c[..i] + c[i + 1..]
  }

  lemma Loses(s: Node, r: Node, fwd: seq<Pkt>, back: seq<Pkt>, k: nat, h: nat, i: nat)
    requires FlowAt(s, r, fwd, back, k, h)
    ensures i < |fwd| ==> FlowAt(s, r, Without(fwd, i), back, k, h)
    ensures i < |back| ==> FlowAt(s, r, fwd, Without(back, i), k, h)
  {
    hide Numbered, Closed, Firsts, Range, NumberAt;
  }

  lemma ForwardArrives(s: Node, r: Node, fwd: seq<Pkt>, back: seq<Pkt>, k: nat, h: nat)
    requires FlowAt(s, r, fwd, back, k, h) && fwd != []
    ensures FlowAt(s, Received(r, fwd[0]), fwd[1..], back, k, if fwd[0].batch.Some? then fwd[0].batch.value.End() else h)
  {
    hide Numbered, Closed, Firsts, Range, Kept;
    FwdTail(s, k, h, fwd);
    match fwd[0].batch
    case None =>
    case Some(b) =>
      StretchExtends(r.handled, h, b.first, b.End());
      ClosedInside(s, b.End());
  }

  lemma FwdTail(s: Node, k: nat, h: nat, fwd: seq<Pkt>)
    requires FwdOk(s, k, h, fwd) && fwd != []
    ensures FwdOk(s, k, if fwd[0].batch.Some? then fwd[0].batch.value.End() else h, fwd[1..])
  {
    hide Closed, NumberAt;
    forall i | 0 <= i < |fwd[1..]| && fwd[1..][i].batch.Some?
      ensures fwd[0].batch.Some? ==> fwd[0].batch.value.End() <= fwd[1..][i].batch.value.End()
    {
      assert fwd[1..][i] == fwd[i + 1];
    }
  }

  lemma BackTail(s: Node, k: nat, h: nat, back: seq<Pkt>)
    requires BackOk(s, k, h, back) && back != []
    ensures BackOk(s, back[0].upTo, h, back[1..]) && k <= back[0].upTo <= h && Closed(s, back[0].upTo)
    ensures back[0].ack == NumberAt(s.added, back[0].upTo)
  {
    hide NumberAt;
    forall i | 0 <= i < |back[1..]|
      ensures back[0].upTo <= back[1..][i].upTo
    {
      assert back[1..][i] == back[i + 1];
    }
  }

  lemma BackArrives(s: Node, r: Node, fwd: seq<Pkt>, back: seq<Pkt>, k: nat, h: nat)
    requires FlowAt(s, r, fwd, back, k, h) && back != []
    ensures FlowAt(Received(s, back[0]), r, fwd, back[1..], back[0].upTo, h)
  {
    hide Firsts, Range, Kept, FwdOk, BackOk, Numbered, NumberAt;
    BackTail(s, k, h, back);
    AckCutsAt(s, k, back[0].upTo);
    var t := Received(s, back[0]);
    assert t.store.queue == t.added[back[0].upTo..];
    assert Grows(s, t);
    FwdGrows(s, t, k, back[0].upTo, h, fwd);
    BackGrows(s, t, back[0].upTo, h, back[1..]);
  }

  // ---------------------------------------------------------------- both directions

  datatype Pair = Pair(a: Node, b: Node, ab: seq<Pkt>, ba: seq<Pkt>)

  function Flip(w: Pair): Pair
  {
    Pair(w.b, w.a, w.ba, w.ab)
  }

  /** What can happen. Events name the side that acts: `atA` adds, sends or receives. */
  datatype Event =
    | Add(atA: bool, typeId: nat, body: Bytes, serverMs: nat, nowMs: nat)
    | Send(atA: bool, nowMs: nat)
    | Deliver(atA: bool)
    | Lose(atA: bool, i: nat)

  /** Adding is confined to valid arguments and fewer than 256 batches, sending to times at which no
      message has expired; a channel must hold something to deliver or lose. */
  predicate Enabled(w: Pair, e: Event)
  {
    var v := if e.atA then w else Flip(w);
    match e
    case Add(_, typeId, _, serverMs, nowMs) =>
      v.a.store.Valid() && typeId < 65536 && serverMs < 65536 && nowMs < UINT32 &&
      (v.a.store.upToDate ==> v.a.store.localSeq < 255)
    case Send(_, nowMs) => v.a.store.Valid() && nowMs < UINT32 && Young(v.a.store.queue, nowMs)
    case Deliver(_) => v.ba != []
    case Lose(_, i) => i < |v.ba|
  }

  function StepA(w: Pair, e: Event): Pair
    requires e.atA && Enabled(w, e)
  {
    match e
    case Add(_, typeId, body, serverMs, nowMs) => w.(a := Added(w.a, typeId, body, serverMs, nowMs))
    case Send(_, _) => w.(a := Sent(w.a), ab := w.ab + [Outgoing(w.a)])
    case Deliver(_) => w.(a := Received(w.a, w.ba[0]), ba := w.ba[1..])
    case Lose(_, i) => w.(ba := Without(w.ba, i))
  }

  function Step(w: Pair, e: Event): Pair
    requires Enabled(w, e)
  {
    if e.atA then StepA(w, e) else Flip(StepA(Flip(w), e.(atA := true)))
  }

  const START := Pair(NEW_NODE, NEW_NODE, [], [])

  /** The states a run goes through. */
  ghost predicate Run(ws: seq<Pair>, events: seq<Event>)
  {
    |ws| == |events| + 1 && ws[0] == START &&
    forall i :: 0 <= i < |events| ==> Enabled(ws[i], events[i]) && ws[i + 1] == Step(ws[i], events[i])
  }

  /** How many of a's messages have left its queue, and how many b has handled. */
  ghost predicate FlowOk(s: Node, r: Node, fwd: seq<Pkt>, back: seq<Pkt>)
  {
    FlowAt(s, r, fwd, back, Removed(s), |Firsts(r.handled)|)
  }

  function Removed(s: Node): nat
  {
    if |s.store.queue| <= |s.added| then |s.added| - |s.store.queue| else 0
  }

  ghost predicate PairOk(w: Pair)
  {
    FlowOk(w.a, w.b, w.ab, w.ba) && FlowOk(w.b, w.a, w.ba, w.ab)
  }

  lemma Settle(s: Node, r: Node, fwd: seq<Pkt>, back: seq<Pkt>, k: nat, h: nat)
    requires FlowAt(s, r, fwd, back, k, h)
    ensures FlowOk(s, r, fwd, back)
  {
    hide FwdOk, BackOk, Numbered, Closed, Firsts;
  }

  lemma StepAKeeps(w: Pair, e: Event)
    requires PairOk(w) && e.atA && Enabled(w, e)
    ensures PairOk(StepA(w, e))
  {
    hide FlowAt, Removed, Firsts, Kept;
    var v := StepA(w, e);
    var k, h, m, n := Removed(w.a), |Firsts(w.b.handled)|, Removed(w.b), |Firsts(w.a.handled)|;
    match e
    case Add(_, typeId, body, serverMs, nowMs) =>
      SenderAdds(w.a, w.b, w.ab, w.ba, k, h, typeId, body, serverMs, nowMs);
      Settle(v.a, v.b, v.ab, v.ba, k, h);
      ReceiverUnrelated(w.b, w.a, v.a, w.ba, w.ab, m, n);
      Settle(v.b, v.a, v.ba, v.ab, m, n);
    case Send(_, _) =>
      SenderSends(w.a, w.b, w.ab, w.ba, k, h);
      Settle(v.a, v.b, v.ab, v.ba, k, h);
      ReceiverSends(w.b, w.a, w.ba, w.ab, m, n);
      Settle(v.b, v.a, v.ba, v.ab, m, n);
    case Deliver(_) =>
      BackArrives(w.a, w.b, w.ab, w.ba, k, h);
      Settle(v.a, v.b, v.ab, v.ba, w.ba[0].upTo, h);
      ForwardArrives(w.b, w.a, w.ba, w.ab, m, n);
      Settle(v.b, v.a, v.ba, v.ab, m, if w.ba[0].batch.Some? then w.ba[0].batch.value.End() else n);
    case Lose(_, i) =>
      Loses(w.a, w.b, w.ab, w.ba, k, h, i);
      Settle(v.a, v.b, v.ab, v.ba, k, h);
      Loses(w.b, w.a, w.ba, w.ab, m, n, i);
      Settle(v.b, v.a, v.ba, v.ab, m, n);
  }

  lemma StartOk()
    ensures PairOk(START)
  {
  }

  lemma {:induction false} RunKeeps(ws: seq<Pair>, events: seq<Event>, i: nat)
    requires Run(ws, events) && i < |ws|
    ensures PairOk(ws[i])
  {
    hide PairOk, Step, Enabled;
    if i == 0 {
      StartOk();
    } else {
      RunKeeps(ws, events, i - 1);
      assert Enabled(ws[i - 1], events[i - 1]) && ws[i - 1 + 1] == Step(ws[i - 1], events[i - 1]);
      StepKeeps(ws[i - 1], events[i - 1]);
    }
  }

  lemma StepKeeps(w: Pair, e: Event)
    requires PairOk(w) && Enabled(w, e)
    ensures PairOk(Step(w, e))
  {
    hide FlowOk, StepA;
    if e.atA {
      StepAKeeps(w, e);
    } else {
      StepAKeeps(Flip(w), e.(atA := true));
    }
  }

  lemma PairValid(w: Pair)
    requires PairOk(w)
    ensures w.a.store.Valid() && w.b.store.Valid()
  {
    hide FwdOk, BackOk, Firsts, Range;
    FlowValid(w.a, w.b, w.ab, w.ba);
    FlowValid(w.b, w.a, w.ba, w.ab);
  }

  lemma FlowValid(s: Node, r: Node, fwd: seq<Pkt>, back: seq<Pkt>)
    requires FlowOk(s, r, fwd, back)
    ensures AllEntriesValid(s.store.queue) && s.store.localSeq < 256 && r.store.remoteSeq < 256
  {
    hide FwdOk, BackOk, Firsts, Range, Closed;
    var h := |Firsts(r.handled)|;
    if h > 0 {
      NumbersTop(s.added, s.store.localSeq, h - 1);
    }
  }

  /** In every reachable state, in both directions: the messages handled, in order of first
      delivery, are a prefix of those added; and what has left the queue is a prefix of that. */
  lemma HandledInOrder(ws: seq<Pair>, events: seq<Event>, i: nat)
    requires Run(ws, events) && i < |ws|
    ensures var a, b := ws[i].a, ws[i].b;
            var h := |Firsts(b.handled)|;
            Removed(a) <= h <= |a.added| && Firsts(b.handled) == Range(0, h) && a.store.queue == a.added[Removed(a)..]
    ensures var a, b := ws[i].a, ws[i].b;
            var h := |Firsts(a.handled)|;
            Removed(b) <= h <= |b.added| && Firsts(a.handled) == Range(0, h) && b.store.queue == b.added[Removed(b)..]
  {
    hide FwdOk, BackOk, Numbered, Closed, Firsts, Range, Removed, Step, Enabled;
    RunKeeps(ws, events, i);
  }

  // ---------------------------------------------------------------- progress

  predicate AllYoung(q: seq<Entry>, nowMs: nat)
    requires AllEntriesValid(q) && nowMs < UINT32
  {
    forall i :: 0 <= i < |q| ==> Age(q[i], nowMs) < 65535
  }

  /** What three undisturbed packets do, b to a, a to b, b to a, from any reachable state with
      nothing in flight and nothing expiring meanwhile: everything a has added is handled and leaves its queue. */
  lemma Drains(w: Pair, t1: nat, t2: nat, t3: nat)
    requires PairOk(w) && w.ab == [] && w.ba == [] && w.a.store.Valid() && w.b.store.Valid()
    requires t1 < UINT32 && t2 < UINT32 && t3 < UINT32
    requires AllYoung(w.b.store.queue, t1) && AllYoung(w.a.store.queue, t2) && AllYoung(w.b.store.queue, t3)
    ensures Enabled(w, Send(false, t1)) && Enabled(Step(w, Send(false, t1)), Deliver(true))
    ensures var w1 := Step(Step(w, Send(false, t1)), Deliver(true));
            Enabled(w1, Send(true, t2)) && Enabled(Step(w1, Send(true, t2)), Deliver(false)) &&
            var w2 := Step(Step(w1, Send(true, t2)), Deliver(false));
            Enabled(w2, Send(false, t3)) && Enabled(Step(w2, Send(false, t3)), Deliver(true)) &&
            var w3 := Step(Step(w2, Send(false, t3)), Deliver(true));
            w3.a.store.queue == [] && |Firsts(w3.b.handled)| == |w3.a.added| && w3.a.added == w.a.added
  {
    hide PairOk, Step, Enabled, Outgoing, Received, Sent, Firsts, AllYoung, Young;
    SentYoung(w.b, t1, t3);
    Bounce(w, false, t1);
    var w0 := Step(w, Send(false, t1));
    StepKeeps(w, Send(false, t1));
    Arrive(w0, true);
    var w1 := Step(w0, Deliver(true));
    StepKeeps(w0, Deliver(true));
    PairValid(w1);
    ReceivedYoung(w.a, w0.ba[0], t2);
    Bounce(w1, true, t2);
    var v1 := Step(w1, Send(true, t2));
    StepKeeps(w1, Send(true, t2));
    Arrive(v1, false);
    var w2 := Step(v1, Deliver(false));
    StepKeeps(v1, Deliver(false));
    PairValid(w2);
    ReceivedYoung(w0.b, v1.ab[0], t3);
    Bounce(w2, false, t3);
    var v2 := Step(w2, Send(false, t3));
    StepKeeps(w2, Send(false, t3));
    Arrive(v2, true);
    Unblocked(w0.a, w0.ba[0]);
    OnlySends(w1.a);
    OnlySends(w2.b);
    AllHandled(w1);
    AllRemoved(v2);
  }

  lemma SentYoung(n: Node, now: nat, later: nat)
    requires n.store.Valid() && now < UINT32 && later < UINT32
    requires AllYoung(n.store.queue, now) && AllYoung(n.store.queue, later)
    ensures Young(n.store.queue, now)
    ensures Sent(n).store.Valid() && AllYoung(Sent(n).store.queue, later)
  {
  }

  /** What an acknowledgement leaves is as young as what was there. */
  lemma ReceivedYoung(n: Node, p: Pkt, now: nat)
    requires n.store.Valid() && now < UINT32 && AllYoung(n.store.queue, now)
    ensures AllEntriesValid(Received(n, p).store.queue) && Young(Received(n, p).store.queue, now)
  {
    hide Range;
    KeptYoung(n.store.queue, Acknowledged(p.ack), now);
  }

  lemma {:induction false} KeptYoung(q: seq<Entry>, cut: Cut, now: nat)
    requires AllEntriesValid(q) && now < UINT32 && AllYoung(q, now)
    ensures Young(Kept(q, cut), now)
  {
    if q != [] && !Stays(q[0], cut) {
      KeptYoung(q[1..], cut, now);
    }
  }

  lemma Unblocked(n: Node, p: Pkt)
    ensures !Received(n, p).store.waiting && Received(n, p).added == n.added
  {
    hide Kept, Firsts, Range;
  }

  lemma OnlySends(n: Node)
    ensures Sent(n).added == n.added && Sent(n).handled == n.handled && Outgoing(n).upTo == |Firsts(n.handled)|
  {
    hide Firsts;
  }

  lemma Bounce(w: Pair, atA: bool, nowMs: nat)
    requires w.ab == [] && w.ba == [] && nowMs < UINT32
    requires var n := if atA then w.a else w.b; n.store.Valid() && Young(n.store.queue, nowMs)
    ensures Enabled(w, Send(atA, nowMs))
    ensures Step(w, Send(atA, nowMs)) ==
            if atA then w.(a := Sent(w.a), ab := [Outgoing(w.a)]) else w.(b := Sent(w.b), ba := [Outgoing(w.b)])
  {
    hide Outgoing, Sent;
  }

  lemma Arrive(w: Pair, atA: bool)
    requires if atA then |w.ba| == 1 && w.ab == [] else |w.ab| == 1 && w.ba == []
    ensures Enabled(w, Deliver(atA))
    ensures Step(w, Deliver(atA)) ==
            if atA then w.(a := Received(w.a, w.ba[0]), ba := []) else w.(b := Received(w.b, w.ab[0]), ab := [])
  {
    hide Received;
  }

  /** A sender that is not waiting sends all it has; reading that leaves nothing unhandled. */
  lemma AllHandled(w: Pair)
    requires PairOk(w) && !w.a.store.waiting
    ensures |Firsts(Received(w.b, Outgoing(w.a)).handled)| == |w.a.added|
    ensures Sent(w.a).added == w.a.added
  {
    hide FwdOk, BackOk, Numbered, Closed, Firsts, Range, Kept, NumberAt;
    var h, k := |Firsts(w.b.handled)|, Removed(w.a);
    if w.a.store.queue != [] {
      StretchExtends(w.b.handled, h, k, |w.a.added|);
    }
  }

  lemma AllRemoved(w: Pair)
    requires PairOk(w) && |w.ba| == 1 && w.ba[0].upTo == |w.a.added|
    ensures Received(w.a, w.ba[0]).store.queue == []
    ensures Received(w.a, w.ba[0]).added == w.a.added
  {
    hide FwdOk, BackOk, Numbered, Closed, Firsts, Range, Kept, NumberAt;
    BackArrives(w.a, w.b, w.ab, w.ba, Removed(w.a), |Firsts(w.b.handled)|);
  }

  // ---------------------------------------------------------------- outside those runs

  /** Batch numbers low, low + 1, ..., in order and without a gap. */
  predicate Contiguous(q: seq<Entry>, low: nat, high: nat)
  {
    (q == [] ==> low == high + 1) &&
    (q != [] ==> q[0].batch == low <= high == q[|q| - 1].batch) &&
    forall i :: 0 <= i < |q| - 1 ==> Steps(q, i)
  }

  /** What an acknowledgement of batch `ack` ought to leave. */
  function Later(q: seq<Entry>, ack: nat): seq<Entry>
  {
    if q == [] then [] else (if q[0].batch > ack then [q[0]] else []) + Later(q[1..], ack)
  }

  /** An acknowledgement leaves exactly the later batches if and only if it is no staler than the
      batch before the oldest one queued; a staler one empties the queue. */
  lemma {:induction false} AckExactIff(q: seq<Entry>, low: nat, high: nat, ack: nat)
    requires q != [] && Contiguous(q, low, high)
    ensures Kept(q, Acknowledged(ack)) == Later(q, ack) <==> low <= ack + 1
    ensures ack + 1 < low ==> Kept(q, Acknowledged(ack)) == []
  {
    if ack + 1 < low {
      NoneStays(q, low, high, ack);
      assert Later(q, ack) != [];
    } else if ack + 1 == low {
      AllLater(q, low, high, ack);
    } else if |q| > 1 {
      assert Steps(q, 0);
      TailContiguous(q, low, high);
      AckExactIff(q[1..], q[1].batch, high, ack);
      assert [] + Later(q[1..], ack) == Later(q[1..], ack);
    } else {
      assert Kept(q, Acknowledged(ack)) == Kept(q[1..], Acknowledged(ack));
    }
  }

  lemma TailContiguous(q: seq<Entry>, low: nat, high: nat)
    requires |q| > 1 && Contiguous(q, low, high)
    ensures Contiguous(q[1..], q[1].batch, high)
  {
    forall i | 0 <= i < |q[1..]| - 1
      ensures Steps(q[1..], i)
    {
      assert Steps(q, i + 1);
    }
    LastIsHigh(q[1..], high, 0);
  }

  lemma {:induction false} LastIsHigh(q: seq<Entry>, high: nat, i: nat)
    requires i < |q| && q[|q| - 1].batch == high
    requires forall i :: 0 <= i < |q| - 1 ==> Steps(q, i)
    ensures q[i].batch <= high
    decreases |q| - i
  {
    if i < |q| - 1 {
      assert Steps(q, i);
      LastIsHigh(q, high, i + 1);
    }
  }

  lemma {:induction false} NoneStays(q: seq<Entry>, low: nat, high: nat, ack: nat)
    requires q != [] && Contiguous(q, low, high) && ack + 1 < low
    ensures Kept(q, Acknowledged(ack)) == []
  {
    if |q| > 1 {
      assert Steps(q, 0);
      TailContiguous(q, low, high);
      NoneStays(q[1..], q[1].batch, high, ack);
    } else {
      assert Kept(q[1..], Acknowledged(ack)) == [];
    }
  }

  lemma {:induction false} AllLater(q: seq<Entry>, low: nat, high: nat, ack: nat)
    requires Contiguous(q, low, high) && ack < low
    ensures Later(q, ack) == q
  {
    if |q| > 1 {
      assert Steps(q, 0);
      TailContiguous(q, low, high);
      AllLater(q[1..], q[1].batch, high, ack);
      assert [q[0]] + q[1..] == q;
    }
  }

  /** Unwrapped numbers low, ..., high, in order and without a gap. */
  predicate Gapless(nums: seq<nat>, low: nat, high: nat)
  {
    nums != [] && nums[0] == low && nums[|nums| - 1] == high &&
    forall i :: 0 <= i < |nums| - 1 ==> NextNumber(nums, i)
  }

  predicate NextNumber(nums: seq<nat>, i: nat)
    requires i + 1 < |nums|
  {
    nums[i] <= nums[i + 1] <= nums[i] + 1
  }

  /** The queue carries those numbers in eight bits. */
  predicate CarriedIn(q: seq<Entry>, nums: seq<nat>)
  {
    |q| == |nums| && forall i :: 0 <= i < |q| ==> q[i].batch == nums[i] % 256
  }

  /** How many messages belong to batch `ack` or an earlier one. */
  function Covered(nums: seq<nat>, ack: nat): (c: nat)
    ensures c <= |nums| && (forall i :: 0 <= i < c ==> nums[i] <= ack) && (c < |nums| ==> nums[c] > ack)
  {
    if nums == [] || nums[0] > ack then 0 else 1 + Covered(nums[1..], ack)
  }

  lemma {:induction false} NumbersBetween(nums: seq<nat>, low: nat, high: nat, i: nat, j: nat)
    requires Gapless(nums, low, high) && i <= j < |nums|
    ensures nums[i] <= nums[j]
    decreases j
  {
    if i < j {
      NumbersBetween(nums, low, high, i, j - 1);
      assert NextNumber(nums, j - 1);
    }
  }

  /** Eight bits tell the acknowledged batch's successor from every other queued number, but for
      256 batches acknowledged at once. */
  lemma SuccessorSeen(low: nat, high: nat, ack: nat, n: nat)
    requires low <= n <= high < low + 256 && low <= ack + 1 && ack <= high && ack % 256 != 255
    ensures ack % 256 + 1 == n % 256 <==> n == ack + 1 || (n == low && ack == high == low + 255)
  {
    if n == ack + 1 {
      assert n % 256 == ack % 256 + 1;
    } else if ack % 256 + 1 == n % 256 {
      var d := ack + 1 - n;
      assert d % 256 == 0 && -256 < d <= 256;
    }
  }

  /** Over the wrap: an acknowledgement of a batch not staler than the one before the oldest queued
      leaves exactly the later batches if and only if it is not of a batch that wraps to 255 with
      later ones queued, nor of the last of 256 batches queued at once. */
  lemma AckWrappedIff(q: seq<Entry>, nums: seq<nat>, low: nat, high: nat, ack: nat)
    requires Gapless(nums, low, high) && CarriedIn(q, nums) && high - low < 256 && low <= ack + 1 && ack <= high
    ensures Kept(q, Acknowledged(ack % 256)) == q[Covered(nums, ack)..] <==>
            if ack == high then ack % 256 == 255 || high - low < 255 else ack % 256 != 255
  {
    var c, cut := Covered(nums, ack), Acknowledged(ack % 256);
    CoveredAll(nums, low, high, ack);
    forall i | 0 <= i < |q|
      ensures ack % 256 != 255 ==> (Stays(q[i], cut) <==> nums[i] == ack + 1 || (nums[i] == low && ack == high == low + 255))
      ensures ack % 256 == 255 ==> !Stays(q[i], cut)
    {
      NumbersBetween(nums, low, high, 0, i);
      NumbersBetween(nums, low, high, i, |nums| - 1);
      if ack % 256 != 255 {
        SuccessorSeen(low, high, ack, nums[i]);
      }
    }
    if ack % 256 == 255 {
      KeptFrom(q, cut, |q|);
    } else if ack < high {
      KeptFrom(q, cut, c);
    } else if high - low < 255 {
      KeptFrom(q, cut, |q|);
    } else {
      assert Stays(q[0], cut);
      KeptFrom(q, cut, 0);
    }
  }

  /** With later batches queued the first of them carries the next number. */
  lemma CoveredAll(nums: seq<nat>, low: nat, high: nat, ack: nat)
    requires Gapless(nums, low, high) && low <= ack + 1 && ack <= high
    ensures var c := Covered(nums, ack);
            if ack == high then c == |nums| else c < |nums| && nums[c] == ack + 1
  {
    var c := Covered(nums, ack);
    if ack == high {
      if c < |nums| {
        NumbersBetween(nums, low, high, c, |nums| - 1);
        assert false;
      }
    } else {
      if c > 0 && c < |nums| {
        assert NextNumber(nums, c - 1);
      }
    }
  }

  /** The smallest instance: the acknowledgement of batch 255 also drops batch 256, number 0 on the
      wire, which was never sent. */
  lemma WrapDropsUnsent(body: Bytes)
    ensures var s := Store([Entry(1, body, 255, 0, 0)], 255, 0, true, true);
            var t := AddTo(s, 2, body, 0, 0);
            t.queue[1].batch == 0 && Kept(t.queue, Acknowledged(255)) == []
  {
    var q := [Entry(1, body, 255, 0, 0), Entry(2, body, 0, 0, 0)];
    assert q[1..] == [Entry(2, body, 0, 0, 0)];
    assert q[1..][1..] == [];
  }
}
