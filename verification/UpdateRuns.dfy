/** When a player is sent an update, and under which sequence number, over whole runs of the server: each
    round takes in what has come, makes a tick and then asks the player's state whether it wants an update
    (src/nrg_server.cpp:125-228, src/nrg_serverstate.cpp:212-288). */
module UpdateRuns {
  import opened Packets
  import opened Codecs
  import opened DeltaSnapshots
  import opened GamePackets
  import opened PlayerStates
  import opened Acknowledgements
  import opened Histories

  /** What goes out: the full copy, a merge of ticks, or a merge of none. */
  datatype Kind = Full | Merge | Empty

  /** An update of the tick-th tick. */
  datatype Sending = Sending(tick: nat, seqNum: nat, kind: Kind)

  /** The player's state, the ids of all ticks so far, every update sent, and how many of them had been
      when the player was last heard. */
  datatype Watch = Watch(player: Tracker, ids: seq<nat>, log: seq<Sending>, heardAt: nat)

  datatype Event = Hear(buf: Bytes, outOfOrder: bool) | Round(id: nat)

  const START := Watch(NEW_PLAYER, [], [], 0)

  /** The ids the ring still holds. */
  function RingIds(ids: seq<nat>): seq<nat>
  {
    ids[|ids| - Held(|ids|)..]
  }

  /** These are the ids of the server's ring. */
  lemma RingIdsAre(ids: seq<nat>, ring: seq<Image>)
    requires Kept(ids, ring)
    ensures Ids(ring) == RingIds(ids)
  {
    forall i | 0 <= i < |ring|
      ensures Ids(ring)[i] == RingIds(ids)[i]
    {
      assert ring[i].id == ids[|ids| - |ring| + i];
    }
  }

  function KindOf(t: Tracker, ids: seq<nat>): Kind
  {
    if !t.SendsDelta(RingIds(ids)) then Full
    else if BehindId(RingIds(ids), t.ackTime) < |RingIds(ids)| then Merge
    else Empty
  }

  function Step(w: Watch, e: Event): Watch
  {
    match e
    case Hear(buf, outOfOrder) =>
      var r := ReadAck(buf, 0);
      w.(player := w.player.Heard(r, outOfOrder), heardAt := if r.AckRead? then |w.log| else w.heardAt)
    case Round(id) =>
      var ids := w.ids + [id];
      if w.player.Needs(id)
      then Watch(w.player.Updated(RingIds(ids), id), ids,
                 w.log + [Sending(|ids|, w.player.seqNum, KindOf(w.player, ids))], w.heardAt)
      else w.(ids := ids)
  }

  function RunAll(events: seq<Event>): Watch
  {
    if events == [] then START else Step(RunAll(events[..|events| - 1]), events[|events| - 1])
  }

  // ---------------------------------------------------------------- what the log says

  predicate InLog(ids: seq<nat>, s: Sending)
  {
    0 < s.tick <= |ids|
  }

  /** The id an update names: that of its tick, or 0 if nothing was merged. */
  function Names(ids: seq<nat>, s: Sending): nat
    requires InLog(ids, s)
  {
    if s.kind == Empty then 0 else ids[s.tick - 1]
  }

  predicate AllInLog(ids: seq<nat>, log: seq<Sending>)
  {
    forall j :: 0 <= j < |log| ==> InLog(ids, log[j])
  }

  /** What the last merge that was sent names; 0 before the first. */
  function LastMerged(ids: seq<nat>, log: seq<Sending>): nat
    requires AllInLog(ids, log)
  {
    if log == [] then 0
    else if log[|log| - 1].kind != Full then Names(ids, log[|log| - 1])
    else LastMerged(ids, log[..|log| - 1])
  }

  /** What the update before the j-th names. */
  function NamedBefore(ids: seq<nat>, log: seq<Sending>, j: nat): nat
    requires AllInLog(ids, log) && j <= |log|
  {
    if j == 0 then 0 else Names(ids, log[j - 1])
  }

  /** By how much the sequence number grows with the j-th update. */
  function Increment(ids: seq<nat>, log: seq<Sending>, j: nat): nat
    requires AllInLog(ids, log) && j < |log|
  {
    if log[j].kind == Full then 1
    else
      var ring := RingIds(ids[..log[j].tick]);
      |ring| - BehindId(ring, NamedBefore(ids, log, j))
  }

  /** Updates since the player was last heard. */
  predicate Quiet(w: Watch)
  {
    w.heardAt <= |w.log| <= w.heardAt + 16 &&
    forall j :: w.heardAt <= j < |w.log| - 1 ==> w.log[j].kind != Full
  }

  predicate MayStill(w: Watch)
  {
    w.heardAt == |w.log| ||
    (w.heardAt < |w.log| < w.heardAt + 16 && w.log[|w.log| - 1].kind != Full)
  }

  ghost predicate LogSays(w: Watch)
  {
    && AllInLog(w.ids, w.log) && Quiet(w)
    && (w.player.unackdUpdates < MAX_SNAPS_WITHOUT_ACK <==> MayStill(w))
    && (MayStill(w) ==> w.player.unackdUpdates == |w.log| - w.heardAt)
    && w.player.mergedId == LastMerged(w.ids, w.log)
    && w.player.lastSentId == NamedBefore(w.ids, w.log, |w.log|)
    && (forall j :: 0 <= j < |w.log| - 1 ==> Follows(w, j))
    && w.player.seqNum ==
       (if w.log == [] then 0 else (w.log[|w.log| - 1].seqNum + Increment(w.ids, w.log, |w.log| - 1)) % 256)
  }

  predicate Follows(w: Watch, j: nat)
    requires AllInLog(w.ids, w.log) && j + 1 < |w.log|
  {
    w.log[j + 1].seqNum == (w.log[j].seqNum + Increment(w.ids, w.log, j)) % 256 && w.log[j].tick < w.log[j + 1].tick
  }

  lemma {:induction false} MergedStays(ids: seq<nat>, id: nat, log: seq<Sending>)
    requires AllInLog(ids, log)
    ensures AllInLog(ids + [id], log) && LastMerged(ids + [id], log) == LastMerged(ids, log)
  {
    if log != [] {
      MergedStays(ids, id, log[..|log| - 1]);
    }
  }

  lemma LogStays(ids: seq<nat>, id: nat, log: seq<Sending>, more: seq<Sending>, j: nat)
    requires AllInLog(ids, log) && j <= |log| && AllInLog(ids + [id], log + more)
    ensures NamedBefore(ids + [id], log + more, j) == NamedBefore(ids, log, j)
    ensures j < |log| ==> Increment(ids + [id], log + more, j) == Increment(ids, log, j)
  {
    hide BehindId, RingIds;
    if j < |log| {
      assert (log + more)[j] == log[j];
      assert (ids + [id])[..log[j].tick] == ids[..log[j].tick];
    }
  }

  lemma HearSays(w: Watch, buf: Bytes, outOfOrder: bool)
    requires LogSays(w)
    ensures LogSays(Step(w, Hear(buf, outOfOrder)))
  {
    hide ReadAck, LastMerged, NamedBefore, Increment, AllInLog;
    var v := Step(w, Hear(buf, outOfOrder));
    forall j | 0 <= j < |w.log| - 1
      ensures Follows(v, j)
    {
      assert Follows(w, j);
    }
  }

  /** What sending makes of the player's state. */
  lemma UpdatedTracker(t: Tracker, ids: seq<nat>, id: nat)
    requires ids != [] && ids[|ids| - 1] == id
    ensures var p, kind, ring := t.Updated(RingIds(ids), id), KindOf(t, ids), RingIds(ids);
            && p.unackdUpdates == (if kind == Full then MAX_SNAPS_WITHOUT_ACK else t.unackdUpdates + 1)
            && p.lastSentId == (if kind == Empty then 0 else id)
            && p.mergedId == (if kind == Full then t.mergedId else p.lastSentId)
            && p.seqNum == (t.seqNum + (if kind == Full then 1 else |ring| - BehindId(ring, t.lastSentId))) % 256
  {
    hide BehindId;
  }

  lemma RoundSays(w: Watch, id: nat)
    requires LogSays(w)
    ensures LogSays(Step(w, Round(id)))
  {
    hide LogSays, Tracker.Updated, KindOf;
    if w.player.Needs(id) {
      SendingSays(w, id);
    } else {
      NothingSays(w, id);
    }
  }

  lemma NothingSays(w: Watch, id: nat)
    requires LogSays(w)
    ensures LogSays(w.(ids := w.ids + [id]))
  {
    hide LastMerged, NamedBefore, Increment;
    MergedStays(w.ids, id, w.log);
    assert w.log + [] == w.log;
    LogStays(w.ids, id, w.log, [], |w.log|);
    var v := w.(ids := w.ids + [id]);
    forall j | 0 <= j < |v.log| - 1
      ensures Follows(v, j)
    {
      LogStays(w.ids, id, w.log, [], j);
      assert Follows(w, j);
    }
    if w.log != [] {
      LogStays(w.ids, id, w.log, [], |w.log| - 1);
    }
  }

  lemma SendingSays(w: Watch, id: nat)
    requires LogSays(w) && w.player.Needs(id)
    ensures LogSays(Step(w, Round(id)))
  {
    hide LastMerged, NamedBefore, Increment, Tracker.Updated, KindOf, RingIds, BehindId, Quiet, MayStill, Follows;
    var ids, v := w.ids + [id], Step(w, Round(id));
    var s := Sending(|ids|, w.player.seqNum, KindOf(w.player, ids));
    assert v.log == w.log + [s];
    SentInLog(w.ids, w.log, id, s);
    UpdatedTracker(w.player, ids, id);
    SentStays(w, v, id, s);
    SentFollows(w, v, s);
    SentQuiet(w, v, s);
  }

  lemma SentInLog(ids: seq<nat>, log: seq<Sending>, id: nat, s: Sending)
    requires AllInLog(ids, log) && s.tick == |ids| + 1
    ensures AllInLog(ids + [id], log + [s]) && AllInLog(ids + [id], log)
  {
  }

  /** The last entry, and what it leaves. */
  lemma SentStays(w: Watch, v: Watch, id: nat, s: Sending)
    requires AllInLog(w.ids, w.log) && v.ids == w.ids + [id] && v.log == w.log + [s] && s.tick == |v.ids|
    ensures AllInLog(v.ids, v.log)
    ensures LastMerged(v.ids, v.log) ==
            if s.kind == Full then LastMerged(w.ids, w.log) else if s.kind == Empty then 0 else id
    ensures NamedBefore(v.ids, v.log, |v.log|) == if s.kind == Empty then 0 else id
    ensures Increment(v.ids, v.log, |v.log| - 1) ==
            if s.kind == Full then 1
            else |RingIds(v.ids)| - BehindId(RingIds(v.ids), NamedBefore(w.ids, w.log, |w.log|))
  {
    hide BehindId, RingIds;
    SentInLog(w.ids, w.log, id, s);
    MergedStays(w.ids, id, w.log);
    LogStays(w.ids, id, w.log, [s], |w.log|);
    assert v.log[..|v.log| - 1] == w.log;
    assert v.ids[..|v.ids|] == v.ids;
  }

  lemma SentFollows(w: Watch, v: Watch, s: Sending)
    requires LogSays(w) && |v.ids| == |w.ids| + 1 && v.ids == w.ids + [v.ids[|w.ids|]] && v.log == w.log + [s]
    requires s.tick == |v.ids| && s.seqNum == w.player.seqNum && AllInLog(v.ids, v.log)
    ensures forall j :: 0 <= j < |v.log| - 1 ==> Follows(v, j)
  {
    hide LastMerged, NamedBefore, Increment, Quiet, MayStill;
    forall j | 0 <= j < |v.log| - 1
      ensures Follows(v, j)
    {
      LogStays(w.ids, v.ids[|w.ids|], w.log, [s], j);
      if j < |w.log| - 1 {
        assert Follows(w, j);
      }
    }
  }

  lemma SentQuiet(w: Watch, v: Watch, s: Sending)
    requires Quiet(w) && MayStill(w) && v.log == w.log + [s] && v.heardAt == w.heardAt
    requires w.player.unackdUpdates == |w.log| - w.heardAt < MAX_SNAPS_WITHOUT_ACK
    requires v.player.unackdUpdates == if s.kind == Full then MAX_SNAPS_WITHOUT_ACK else w.player.unackdUpdates + 1
    ensures Quiet(v)
    ensures v.player.unackdUpdates < MAX_SNAPS_WITHOUT_ACK <==> MayStill(v)
    ensures MayStill(v) ==> v.player.unackdUpdates == |v.log| - v.heardAt
  {
  }

  lemma {:induction false} RunSays(events: seq<Event>)
    ensures LogSays(RunAll(events))
  {
    hide LogSays, Step;
    if events == [] {
      StartSays();
    } else {
      RunSays(events[..|events| - 1]);
      var w := RunAll(events[..|events| - 1]);
      match events[|events| - 1]
      case Hear(buf, outOfOrder) => HearSays(w, buf, outOfOrder);
      case Round(id) => RoundSays(w, id);
    }
  }

  lemma StartSays()
    ensures LogSays(START)
  {
  }

  // ---------------------------------------------------------------- when, and under which number

  /** In every run a round sends the player an update exactly if, since the player was last heard, fewer
      than 16 have gone out and no full copy, and the new tick's id is not that of the last merge. */
  lemma UpdateSentIff(events: seq<Event>, id: nat)
    ensures var w := RunAll(events);
            AllInLog(w.ids, w.log) &&
            (|Step(w, Round(id)).log| > |w.log| <==> MayStill(w) && id != LastMerged(w.ids, w.log))
  {
    hide MayStill, LastMerged, Tracker.Updated, KindOf;
    RunSays(events);
  }

  /** The acknowledgement the server goes by: the last one heard in order, until a full copy has gone out. */
  function Baseline(events: seq<Event>): Option<nat>
  {
    if events == [] then None
    else
      var before, e := events[..|events| - 1], events[|events| - 1];
      match e
      case Hear(buf, outOfOrder) =>
        var r := ReadAck(buf, 0);
        if r.AckRead? && !outOfOrder then Some(r.ackTime) else Baseline(before)
      case Round(_) =>
        var w, v := RunAll(before), RunAll(events);
        if |v.log| > |w.log| && v.log[|v.log| - 1].kind == Full then None else Baseline(before)
  }

  lemma {:induction false} BaselineKept(events: seq<Event>)
    ensures var t := RunAll(events).player;
            Baseline(events) == if t.sendDiff then Some(t.ackTime) else None
  {
    hide RingIds, ReadAck;
    if events != [] {
      BaselineKept(events[..|events| - 1]);
    }
  }

  /** What the last packet heard in order acknowledged. */
  function LastHeard(events: seq<Event>): Option<AckRead>
  {
    if events == [] then None
    else
      var e := events[|events| - 1];
      if e.Hear? && !e.outOfOrder && ReadAck(e.buf, 0).AckRead? then Some(ReadAck(e.buf, 0))
      else LastHeard(events[..|events| - 1])
  }

  /** In every run the tick and the client's time that are kept are those of that packet. */
  lemma {:induction false} LastHeardKept(events: seq<Event>)
    ensures var t := RunAll(events).player;
            match LastHeard(events)
            case None => t.ackTime == 0 && t.cTime == 0
            case Some(r) => r.AckRead? && t.ackTime == r.ackTime && t.cTime == r.cTime
  {
    hide RingIds, ReadAck;
    if events != [] {
      LastHeardKept(events[..|events| - 1]);
    }
  }

  /** In every run, what an update is: the full copy if nothing has been heard in order since the last
      one, or the tick named then is not found in the ring; otherwise a merge, which is empty exactly if the
      newest tick bears that name. */
  lemma UpdateKindIff(events: seq<Event>, id: nat)
    requires |Step(RunAll(events), Round(id)).log| > |RunAll(events).log|
    ensures var ids, log := RunAll(events).ids + [id], Step(RunAll(events), Round(id)).log;
            var found := match Baseline(events) case None => None case Some(name) => Resolve(ids, name);
            var kind := log[|log| - 1].kind;
            && (kind == Full <==> found.None?)
            && (kind == Empty <==> found == Some(|ids|))
            && log[|log| - 1].tick == |ids|
  {
    hide Resolve, RunAll;
    BaselineKept(events);
    var t, ids := RunAll(events).player, RunAll(events).ids + [id];
    if t.sendDiff {
      ResolvesBehind(ids, t.ackTime);
    }
  }

  lemma ResolvesBehind(ids: seq<nat>, id: nat)
    ensures var k := BehindId(RingIds(ids), id);
            Resolve(ids, id) == if k == 0 then None else Some(|ids| - Held(|ids|) + k)
  {
    var r, k, n := Resolve(ids, id), BehindId(RingIds(ids), id), |ids| - Held(|ids|);
    assert k > 0 ==> ids[n + k - 1] == id;
    assert r.Some? ==> RingIds(ids)[r.value - 1 - n] == id;
  }

  /** So nobody silent is sent more than 16 updates, nor anything behind a full copy. */
  lemma QuietPlayers(events: seq<Event>)
    ensures Quiet(RunAll(events))
  {
    hide Quiet;
    RunSays(events);
  }

  /** The server finds the tick of the update before: it is in the ring, under an id of its own. */
  predicate Found(w: Watch, j: nat)
    requires AllInLog(w.ids, w.log) && 0 < j < |w.log|
  {
    var was, now := w.log[j - 1], w.log[j];
    was.kind != Empty && now.kind != Full && was.tick < now.tick && now.tick - was.tick < Held(now.tick) &&
    forall i :: was.tick <= i < now.tick ==> w.ids[i] != w.ids[was.tick - 1]
  }

  /** The sequence number a client sees on an update grows by the ticks the update before it brought, not
      by those it brings itself: right if and only if the two gaps agree, in eight bits. */
  lemma SequenceLagsIff(events: seq<Event>, j: nat)
    requires var w := RunAll(events); AllInLog(w.ids, w.log) && 0 < j < |w.log| - 1 && Found(w, j)
    ensures var log := RunAll(events).log;
            && log[j + 1].seqNum == (log[j].seqNum + (log[j].tick - log[j - 1].tick)) % 256
            && (log[j + 1].seqNum == (log[j].seqNum + (log[j + 1].tick - log[j].tick)) % 256 <==>
                (log[j + 1].tick - log[j].tick - (log[j].tick - log[j - 1].tick)) % 256 == 0)
  {
    hide LastMerged, NamedBefore, Increment, Found, LogSays, RunAll;
    RunSays(events);
    var w := RunAll(events);
    NextFollows(w, j);
    FoundIncrement(w, j);
    TicksAscend(w, j);
    SameSum(w.log[j].seqNum, w.log[j].tick - w.log[j - 1].tick, w.log[j + 1].tick - w.log[j].tick);
  }

  lemma SameSum(a: nat, x: nat, y: nat)
    ensures (a + x) % 256 == (a + y) % 256 <==> (y - x) % 256 == 0
  {
    var p, q := (a + x) / 256, (a + y) / 256;
    assert a + x == 256 * p + (a + x) % 256 && a + y == 256 * q + (a + y) % 256;
    assert y - x == 256 * (q - p) + (a + y) % 256 - (a + x) % 256;
  }

  lemma NextFollows(w: Watch, j: nat)
    requires LogSays(w) && j + 1 < |w.log|
    ensures AllInLog(w.ids, w.log) && Follows(w, j)
  {
  }

  lemma TicksAscend(w: Watch, j: nat)
    requires LogSays(w) && 0 < j < |w.log|
    ensures w.log[j - 1].tick < w.log[j].tick
    ensures j + 1 < |w.log| ==> w.log[j].tick < w.log[j + 1].tick
  {
    assert Follows(w, j - 1);
    assert j + 1 < |w.log| ==> Follows(w, j);
  }

  lemma FoundIncrement(w: Watch, j: nat)
    requires AllInLog(w.ids, w.log) && 0 < j < |w.log| && Found(w, j)
    ensures Increment(w.ids, w.log, j) == w.log[j].tick - w.log[j - 1].tick
  {
    hide BehindId;
    var was, now := w.log[j - 1].tick, w.log[j].tick;
    var ids := w.ids[..now];
    var ring := RingIds(ids);
    var k := |ring| - (now - was);
    assert ring[k - 1] == w.ids[was - 1];
    forall i | k <= i < |ring|
      ensures ring[i] != w.ids[was - 1]
    {
      assert ring[i] == w.ids[was + (i - k)];
    }
  }
}
