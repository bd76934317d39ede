/** How a switch of protocol states begins and ends, over whole runs: what has arrived and what has gone
    out since the transition was entered decides when it is left (src/nrg_state_manager.cpp:36-174). */
module Transitions {
  import opened PacketHeaders
  import opened StateManagers

  /** The events since the transition was last entered. */
  function Since(m: Manager, events: seq<Event>): (r: seq<Event>)
    ensures |r| <= |events|
  {
    if events == [] then []
    else
      var before := events[..|events| - 1];
      if RunAll(m, before).ptr == InTransition && RunAll(m, events).ptr == InTransition
      then Since(m, before) + [events[|events| - 1]] else []
  }

  /** A packet with the acknowledgement. */
  predicate IsAck(e: Event)
  {
    e.Arrive? && Has(e.flags, 0x20)
  }

  /** A packet that is a retransmission only. */
  predicate IsRepeat(e: Event)
  {
    e.Arrive? && !Has(e.flags, 0x20) && Has(e.flags, 0x08)
  }

  /** An update while the connection can send. */
  predicate CanSend(e: Event)
  {
    e.Tick? && e.ready
  }

  ghost predicate Acknowledged(since: seq<Event>)
  {
    exists i :: 0 <= i < |since| && IsAck(since[i])
  }

  /** A retransmission has come in and no update since could send. */
  ghost predicate ResendPending(since: seq<Event>)
  {
    exists i :: 0 <= i < |since| && IsRepeat(since[i]) && forall j :: i < j < |since| ==> !CanSend(since[j])
  }

  ghost predicate Answered(since: seq<Event>)
  {
    exists i :: 0 <= i < |since| && CanSend(since[i])
  }

  ghost predicate Heard(since: seq<Event>)
  {
    exists i :: 0 <= i < |since| && since[i].Arrive?
  }

  lemma AcknowledgedTurn(since: seq<Event>, e: Event)
    ensures Acknowledged(since + [e]) <==> Acknowledged(since) || IsAck(e)
  {
    var all := since + [e];
    assert all[|since|] == e;
    if Acknowledged(since) {
      var i :| 0 <= i < |since| && IsAck(since[i]);
      assert IsAck(all[i]);
    }
  }

  lemma AnsweredTurn(since: seq<Event>, e: Event)
    ensures Answered(since + [e]) <==> Answered(since) || CanSend(e)
  {
    var all := since + [e];
    assert all[|since|] == e;
    if Answered(since) {
      var i :| 0 <= i < |since| && CanSend(since[i]);
      assert CanSend(all[i]);
    }
  }

  lemma HeardTurn(since: seq<Event>, e: Event)
    ensures Heard(since + [e]) <==> Heard(since) || e.Arrive?
  {
    var all := since + [e];
    assert all[|since|] == e;
    if Heard(since) {
      var i :| 0 <= i < |since| && since[i].Arrive?;
      assert all[i].Arrive?;
    }
  }

  lemma PendingTurn(since: seq<Event>, e: Event)
    ensures ResendPending(since + [e]) <==> IsRepeat(e) || (ResendPending(since) && !CanSend(e))
  {
    var all := since + [e];
    assert all[|since|] == e;
    if ResendPending(since) && !CanSend(e) {
      var i :| 0 <= i < |since| && IsRepeat(since[i]) && forall j :: i < j < |since| ==> !CanSend(since[j]);
      assert IsRepeat(all[i]) && forall j :: i < j < |all| ==> !CanSend(all[j]);
    }
    if ResendPending(all) && !IsRepeat(e) {
      var i :| 0 <= i < |all| && IsRepeat(all[i]) && forall j :: i < j < |all| ==> !CanSend(all[j]);
      assert i < |since| && IsRepeat(since[i]);
      assert forall j :: i < j < |since| ==> since[j] == all[j];
      assert !CanSend(all[|since|]);
    }
  }

  function TimeOf(e: Event): nat
  {
    if e.Arrive? then e.now else e.at
  }

  /** When the active state was last asked, or activated. */
  ghost function Clock(m: Manager, events: seq<Event>): nat
    decreases |events|, 0
  {
    if events == [] then m.lastUpdate
    else
      var before, e := events[..|events| - 1], events[|events| - 1];
      var b := RunAll(m, before);
      if b.states == [] then Clock(m, before)
      else if b.ptr == Null || (e.Tick? && Due(m, before, e)) then TimeOf(e)
      else Clock(m, before)
  }

  ghost predicate Overdue(m: Manager, events: seq<Event>, at: nat, seconds: nat)
    decreases |events|, 1
  {
    seconds > 0 && (at - Clock(m, events)) % UINT32 > seconds
  }

  /** An update is due when the active state wants one, or has not been asked for too long. */
  ghost predicate Due(m: Manager, events: seq<Event>, e: Event)
    requires e.Tick?
    decreases |events|, 2
  {
    match RunAll(m, events).ptr
    case Null => e.answer.needsUpdate
    case At(_) => e.answer.needsUpdate || Overdue(m, events, e.at, e.answer.timeoutSeconds)
    case InTransition =>
      Overdue(m, events, e.at, TransitionTimeout(m.client)) ||
      if m.client then !Answered(Since(m, events)) || Heard(Since(m, events))
      else ResendPending(Since(m, events)) || Acknowledged(Since(m, events))
  }

  /** The client has waited too long, with its acknowledgement out and nothing heard. */
  ghost predicate Silent(m: Manager, events: seq<Event>, e: Event)
  {
    e.Tick? && Overdue(m, events, e.at, TransitionTimeout(true)) &&
    Answered(Since(m, events)) && !Heard(Since(m, events))
  }

  /** How often that has happened since the transition was entered. */
  ghost function Silences(m: Manager, events: seq<Event>): nat
  {
    if events == [] then 0
    else
      var before, e := events[..|events| - 1], events[|events| - 1];
      if RunAll(m, before).ptr != InTransition || RunAll(m, events).ptr != InTransition then 0
      else if Silent(m, before, e) then Silences(m, before) + 1
      else Silences(m, before)
  }

  /** What the two ends' bits mean. */
  ghost predicate BitsSay(r: Manager, since: seq<Event>, silences: nat)
  {
    var t := r.transition;
    if r.client then (t.starting <==> !Answered(since)) && (t.done <==> Heard(since)) && t.timeouts == silences
    else (t.done <==> Acknowledged(since)) && (t.resend <==> ResendPending(since))
  }

  ghost predicate Says(m: Manager, events: seq<Event>)
  {
    var r := RunAll(m, events);
    r.client == m.client && r.lastUpdate == Clock(m, events) &&
    (r.ptr == InTransition ==> |r.states| >= 2 && BitsSay(r, Since(m, events), Silences(m, events)))
  }

  /** In every run. */
  lemma {:induction false} RunSays(m: Manager, events: seq<Event>)
    requires Ready(m)
    ensures Says(m, events)
  {
    hide Ok, Ready, Step, BitsSay, Measure, Due, Silent;
    if events == [] {
      assert m.ptr != InTransition by { NotYet(m); }
    } else {
      var before, e := events[..|events| - 1], events[|events| - 1];
      RunSays(m, before);
      RunOk(m, before);
      StepSays(m, before, e);
    }
  }

  lemma NotYet(m: Manager)
    requires Ready(m)
    ensures m.ptr == Null
  {
  }

  lemma StepSays(m: Manager, events: seq<Event>, e: Event)
    requires Ok(RunAll(m, events)) && Says(m, events)
    ensures var b, since, silences := RunAll(m, events), Since(m, events), Silences(m, events);
            var r := Step(b, e);
            && r.client == b.client
            && r.lastUpdate == (if b.states != [] && (b.ptr == Null || (e.Tick? && Due(m, events, e)))
                                then TimeOf(e) else b.lastUpdate)
            && (r.ptr == InTransition ==>
                  |r.states| >= 2 &&
                  if b.ptr == InTransition then BitsSay(r, since + [e], if Silent(m, events, e) then silences + 1 else silences)
                  else BitsSay(r, [], 0))
  {
    hide Ok, InitialisedOnce, Acknowledged, ResendPending, Answered, Heard, RunAll, Clock, Since, Silences;
    var since := Since(m, events);
    AcknowledgedTurn(since, e);
    PendingTurn(since, e);
    AnsweredTurn(since, e);
    HeardTurn(since, e);
    NothingYet();
    OkPtr(RunAll(m, events));
  }

  lemma OkPtr(m: Manager)
    requires Ok(m)
    ensures m.ptr.At? ==> m.states != [] && m.ptr.id == Top(m)
    ensures m.ptr == InTransition ==> |m.states| >= 2 && m.transition.newState == m.states[|m.states| - 2]
  {
  }

  lemma NothingYet()
    ensures !Acknowledged([]) && !ResendPending([]) && !Answered([]) && !Heard([])
  {
  }

  // ---------------------------------------------------------------- how the transition ends

  /** From the transition to the next state. */
  predicate Leaves(b: Manager, r: Manager)
  {
    |b.states| >= 2 && r.states == b.states[..|b.states| - 1] && r.ptr == At(b.states[|b.states| - 2])
  }

  predicate Remains(b: Manager, r: Manager)
  {
    r.states == b.states && r.ptr == b.ptr
  }

  predicate Fails(r: Manager)
  {
    r.states == [] && r.ptr == Null
  }

  /** The server goes on to the next state exactly at an update that finds the acknowledgement come,
      no resend pending and less than ten seconds gone; after ten seconds it fails, acknowledged or
      not; and nothing else ends the transition. */
  lemma ServerLeavesIff(m: Manager, events: seq<Event>, e: Event)
    requires Ready(m) && !m.client && RunAll(m, events).ptr == InTransition
    ensures var b, since, r := RunAll(m, events), Since(m, events), Step(RunAll(m, events), e);
            && (Leaves(b, r) <==>
                e.Tick? && Acknowledged(since) && !ResendPending(since) && !Overdue(m, events, e.at, 10))
            && (Fails(r) <==> e.Tick? && !ResendPending(since) && Overdue(m, events, e.at, 10))
            && (Leaves(b, r) || Fails(r) || Remains(b, r))
  {
    hide Ok, Ready, Acknowledged, ResendPending, RunAll, Clock, Since, Silences;
    RunSays(m, events);
  }

  /** It sends nothing of its own but its last packet again: once an update can send, for what
      retransmissions have come in since the last time. Packets themselves change no more than what is
      remembered of them, and do not reach any state. */
  lemma ServerResendsIff(m: Manager, events: seq<Event>, e: Event)
    requires Ready(m) && !m.client && RunAll(m, events).ptr == InTransition
    ensures var b := RunAll(m, events);
            && (e.Tick? ==> Sends(b, e.at, e.ready) == if ResendPending(Since(m, events)) && e.ready then Again else Nothing)
            && (e.Arrive? ==> Step(b, e) == b.(transition := Step(b, e).transition))
  {
    hide Ok, Ready, Acknowledged, ResendPending, RunAll, Clock, Since, Silences;
    RunSays(m, events);
    assert e.Arrive? ==> RunAll(m, events).calls + [] == RunAll(m, events).calls;
  }

  /** The client goes on exactly at an update after its acknowledgement has gone out and a packet has
      come in; it fails exactly at the sixth time-out with the acknowledgement out and nothing heard. */
  lemma ClientLeavesIff(m: Manager, events: seq<Event>, e: Event)
    requires Ready(m) && m.client && RunAll(m, events).ptr == InTransition
    ensures var b, since, r := RunAll(m, events), Since(m, events), Step(RunAll(m, events), e);
            && (Leaves(b, r) <==> e.Tick? && Answered(since) && Heard(since))
            && (Fails(r) <==> Silent(m, events, e) && Silences(m, events) == 5)
            && (Leaves(b, r) || Fails(r) || Remains(b, r))
  {
    hide Ok, Ready, Answered, Heard, RunAll, Clock, Since, Silences;
    RunSays(m, events);
    SilencesBound(m, events);
  }

  /** It sends its acknowledgement at the first update that can send, and again at each of the first
      five time-outs; every packet is passed on to the next state. */
  lemma ClientSendsIff(m: Manager, events: seq<Event>, e: Event)
    requires Ready(m) && m.client && RunAll(m, events).ptr == InTransition
    ensures var b, since := RunAll(m, events), Since(m, events);
            && (e.Tick? ==>
                  Sends(b, e.at, e.ready) ==
                  if !e.ready then Nothing
                  else if !Answered(since) then Ack
                  else if Silent(m, events, e) && Silences(m, events) < 5 then Again
                  else Nothing)
            && (e.Arrive? ==>
                  |b.states| >= 2 &&
                  Step(b, e) == b.(transition := Step(b, e).transition,
                                   calls := b.calls + [Recv(b.states[|b.states| - 2])]))
  {
    hide Ok, Ready, Answered, Heard, RunAll, Clock, Since, Silences;
    RunSays(m, events);
    RunOk(m, events);
    OkPtr(RunAll(m, events));
  }

  lemma {:induction false} SilencesBound(m: Manager, events: seq<Event>)
    requires Ready(m) && m.client
    ensures Silences(m, events) <= 5
  {
    hide Ok, Ready, Answered, Heard, Clock, Since, Step;
    if events != [] {
      var before, e := events[..|events| - 1], events[|events| - 1];
      SilencesBound(m, before);
      if RunAll(m, before).ptr == InTransition && Silent(m, before, e) && Silences(m, before) == 5 {
        SixthFails(m, before, e);
      }
    }
  }

  lemma SixthFails(m: Manager, events: seq<Event>, e: Event)
    requires Ready(m) && m.client && RunAll(m, events).ptr == InTransition
    requires Silent(m, events, e) && Silences(m, events) == 5
    ensures Fails(Step(RunAll(m, events), e))
  {
    hide Ok, Ready, Answered, Heard, RunAll, Clock, Since, Silences;
    RunSays(m, events);
  }

  // ---------------------------------------------------------------- ordinary states

  function Activation(b: Manager): seq<Call>
    requires b.states != []
  {
    if b.ptr == Null then [Init(Top(b))] else []
  }

  /** What an ordinary state is asked, and where its answer leads. */
  predicate Served(b: Manager, e: Event, due: bool, r: Manager)
    requires b.states != []
  {
    var top, calls := Top(b), b.calls + Activation(b);
    if e.Arrive? then r.calls == calls + [Recv(top)] && r.states == b.states && r.ptr == At(top)
    else if !due then r.calls == calls && r.states == b.states && r.ptr == At(top)
    else if e.answer.result == Continue then
      r.calls == calls + [Upd(top)] && r.states == b.states && r.ptr == At(top)
    else if e.answer.result == Change && |b.states| >= 2 then
      r.calls == calls + [Upd(top)] + [Init(b.states[|b.states| - 2])] && r.states == b.states && r.ptr == InTransition
    else r.calls == calls + [Upd(top)] && Fails(r)
  }

  /** An ordinary state receives every packet, and is asked exactly when an update is due. Its answer
      leads into the transition, with the next state initialised, or to failure, or nowhere. */
  lemma StateAskedIff(m: Manager, events: seq<Event>, e: Event)
    requires Ready(m) && RunAll(m, events).states != [] && RunAll(m, events).ptr != InTransition
    ensures Served(RunAll(m, events), e, e.Tick? && Due(m, events, e), Step(RunAll(m, events), e))
  {
    hide Ok, Ready, RunAll, Clock, Since, Silences, BitsSay, Step, Served;
    RunSays(m, events);
    RunOk(m, events);
    var b := RunAll(m, events);
    OkPtr(b);
    StepServes(b, e);
  }

  lemma StepServes(b: Manager, e: Event)
    requires b.states != [] && (b.ptr == Null || b.ptr == At(Top(b)))
    ensures var limit := if e.Tick? then e.answer.timeoutSeconds else 0;
            var late := b.ptr != Null && limit > 0 && Elapsed(b, TimeOf(e)) > limit;
            Served(b, e, e.Tick? && (e.answer.needsUpdate || late), Step(b, e))
  {
    var a := Activated(b, TimeOf(e));
    assert a.calls == b.calls + Activation(b);
    assert a.ptr == At(Top(b));
    assert b.ptr == Null ==> Elapsed(a, TimeOf(e)) == 0;
  }
}
