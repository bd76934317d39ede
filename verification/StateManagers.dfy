/** Switching between protocol states (src/nrg_state_manager.cpp): a stack of states, the active
    one, and a transition in between that gets both ends to agree on the switch. */
module StateManagers {
  import opened Packets
  import opened PacketHeaders
  import opened StateConnections

  const STATE_CHANGE_ACK: nat := 0x20

  const UINT32: nat := 0x1_0000_0000

  /** A state is known by its number in order of registration. */
  datatype Ptr = Null | At(id: nat) | InTransition

  /** STATE_CHANGE carries the exit bit too, so with no state left to change to it ends the manager. */
  datatype Result = Continue | Change | Failure

  /** The calls made on registered states. */
  datatype Call = Init(id: nat) | Recv(id: nat) | Upd(id: nat)

  // ---------------------------------------------------------------- the transition

  datatype Transition = Transition(starting: bool, resend: bool, done: bool, timeouts: nat, newState: nat)

  function StartTransition(newState: nat): Transition
  {
    Transition(true, false, false, 0, newState)
  }

  /** On the client any packet ends the wait (and goes to the new state); on the server only the
      acknowledgement does, and a retransmission asks for the last packet again. */
  function TransitionRecv(t: Transition, client: bool, flags: nat): Transition
  {
    if client then t.(done := true)
    else if Has(flags, STATE_CHANGE_ACK) then t.(done := true)
    else if Has(flags, RETRANSMISSION) then t.(resend := true)
    else t
  }

  predicate TransitionNeeds(t: Transition, client: bool)
  {
    if client then t.starting || t.done else t.resend || t.done
  }

  datatype Moved = Moved(transition: Transition, result: Result)

  function TransitionUpdate(t: Transition, client: bool, timedOut: bool, ready: bool): Moved
  {
    if client then
      if t.starting then
        if ready then Moved(t.(starting := false), Continue) else Moved(t, Continue)
      else if t.done then Moved(t, Change)
      else if timedOut then Moved(t.(timeouts := t.timeouts + 1), if t.timeouts + 1 > 5 then Failure else Continue)
      else Moved(t, Failure)
    else if t.resend then
      if ready then Moved(t.(resend := false), Continue) else Moved(t, Continue)
    else if timedOut || !t.done then Moved(t, Failure)
    else Moved(t, Change)
  }

  /** What an update of the transition sends: an acknowledgement, or the last packet again. */
  datatype Out = Nothing | Ack | Again

  /** A connection that is not ready sends nothing. */
  function TransitionSends(t: Transition, client: bool, timedOut: bool, ready: bool): Out
  {
    if !ready then Nothing
    else if !client then if t.resend then Again else Nothing
    else if t.starting then Ack
    else if !t.done && timedOut && t.timeouts < 5 then Again
    else Nothing
  }

  // ---------------------------------------------------------------- the manager

  datatype Manager = Manager(client: bool, states: seq<nat>, ptr: Ptr, transition: Transition, lastUpdate: nat, calls: seq<Call>)

  /** What an ordinary state answers when asked. */
  datatype Answer = Answer(timeoutSeconds: nat, needsUpdate: bool, result: Result)

  function Top(m: Manager): nat
    requires m.states != []
  {
    m.states[|m.states| - 1]
  }

  /** The first packet or update finds no active state and initialises the top one. */
  function Activated(m: Manager, now: nat): (r: Manager)
    requires m.states != []
    ensures r.ptr != Null && r.states == m.states
  {
    if m.ptr == Null then m.(ptr := At(Top(m)), calls := m.calls + [Init(Top(m))], lastUpdate := now) else m
  }

  function Receive(m: Manager, now: nat, flags: nat): Manager
  {
    if m.states == [] then m
    else
      var a := Activated(m, now);
      match a.ptr
      case At(id) => a.(calls := a.calls + [Recv(id)])
      case InTransition =>
        a.(transition := TransitionRecv(a.transition, a.client, flags),
           calls := a.calls + if a.client then [Recv(a.transition.newState)] else [])
  }

  function TransitionTimeout(client: bool): nat
  {
    if client then 1 else 10
  }

  /** A result, once the active state has been updated. */
  function Apply(m: Manager, result: Result): Manager
  {
    if result == Change && |m.states| >= 2 then
      if m.ptr == InTransition then
        m.(states := m.states[..|m.states| - 1], ptr := At(m.states[|m.states| - 2]))
      else
        var next := m.states[|m.states| - 2];
        m.(ptr := InTransition, transition := StartTransition(next), calls := m.calls + [Init(next)])
    else if result != Continue then m.(states := [], ptr := Null)
    else m
  }

  function Elapsed(m: Manager, now: nat): nat
  {
    (now - m.lastUpdate) % UINT32
  }

  predicate TransitionLate(m: Manager, now: nat)
  {
    Elapsed(m, now) > TransitionTimeout(m.client)
  }

  /** What the manager itself sends at an update. */
  function Sends(m: Manager, now: nat, ready: bool): Out
  {
    if m.states != [] && m.ptr == InTransition &&
       (TransitionNeeds(m.transition, m.client) || TransitionLate(m, now))
    then TransitionSends(m.transition, m.client, TransitionLate(m, now), ready)
    else Nothing
  }

  function Polled(m: Manager, now: nat, answer: Answer, ready: bool): Manager
  {
    if m.states == [] then m
    else
      var a := Activated(m, now);
      var limit := if a.ptr == InTransition then TransitionTimeout(a.client) else answer.timeoutSeconds;
      var timedOut := limit > 0 && Elapsed(a, now) > limit;
      match a.ptr
      case At(id) =>
        if answer.needsUpdate || timedOut
        then Apply(a.(calls := a.calls + [Upd(id)], lastUpdate := now), answer.result)
        else a
      case InTransition =>
        if TransitionNeeds(a.transition, a.client) || timedOut then
          var u := TransitionUpdate(a.transition, a.client, timedOut, ready);
          Apply(a.(transition := u.transition, lastUpdate := now), u.result)
        else a
  }

  // ---------------------------------------------------------------- runs

  datatype Event =
    | Arrive(now: nat, flags: nat)
    | Tick(at: nat, answer: Answer, ready: bool)

  function Step(m: Manager, e: Event): Manager
  {
    match e
    case Arrive(now, flags) => Receive(m, now, flags)
    case Tick(now, answer, ready) => Polled(m, now, answer, ready)
  }

  function RunAll(m: Manager, events: seq<Event>): Manager
  {
    if events == [] then m else Step(RunAll(m, events[..|events| - 1]), events[|events| - 1])
  }

  function Switches(m: Manager, events: seq<Event>): nat
  {
    if events == [] then 0
    else
      var before := RunAll(m, events[..|events| - 1]);
      Switches(m, events[..|events| - 1]) + if IsSwitch(before, Step(before, events[|events| - 1])) then 1 else 0
  }

  /** Into the transition, or out of it to the next state. */
  predicate IsSwitch(m: Manager, r: Manager)
  {
    r.states != [] && (m.ptr == InTransition) != (r.ptr == InTransition)
  }

  predicate Distinct(s: seq<nat>)
  {
    forall i, j :: 0 <= i < j < |s| ==> s[i] != s[j]
  }

  /** States registered, nothing begun. */
  predicate Ready(m: Manager)
  {
    m.ptr == Null && m.calls == [] && Distinct(m.states)
  }

  /** How many states, from the bottom, have not been initialised. */
  function Untouched(m: Manager): nat
  {
    match m.ptr
    case Null => |m.states|
    case At(_) => if |m.states| >= 1 then |m.states| - 1 else 0
    case InTransition => if |m.states| >= 2 then |m.states| - 2 else 0
  }

  function CallId(c: Call): nat
  {
    match c
    case Init(id) => id
    case Recv(id) => id
    case Upd(id) => id
  }

  /** Every state named is initialised exactly once, before anything else is asked of it. */
  ghost predicate InitialisedOnce(calls: seq<Call>)
  {
    (forall i, j :: 0 <= i < j < |calls| && calls[i].Init? && calls[j].Init? ==> calls[i].id != calls[j].id) &&
    forall j :: 0 <= j < |calls| ==> Introduced(calls, j)
  }

  ghost predicate Introduced(calls: seq<Call>, j: nat)
    requires j < |calls|
  {
    calls[j].Init? || exists i :: 0 <= i < j && calls[i] == Init(CallId(calls[j]))
  }

  /** The active state is none, the top of the stack, or the transition with two states left. */
  ghost predicate Ok(m: Manager)
  {
    && Distinct(m.states) && InitialisedOnce(m.calls)
    && (m.ptr.At? ==> m.states != [] && m.ptr.id == Top(m) && Init(m.ptr.id) in m.calls)
    && (m.ptr == InTransition ==>
          |m.states| >= 2 && m.transition.newState == m.states[|m.states| - 2] && Init(m.transition.newState) in m.calls)
    && forall i, k :: 0 <= i < Untouched(m) && 0 <= k < |m.calls| ==> CallId(m.calls[k]) != m.states[i]
  }

  lemma NewInit(calls: seq<Call>, id: nat)
    requires InitialisedOnce(calls) && forall k :: 0 <= k < |calls| ==> CallId(calls[k]) != id
    ensures InitialisedOnce(calls + [Init(id)]) && Init(id) in calls + [Init(id)]
  {
    var all := calls + [Init(id)];
    forall j | 0 <= j < |all|
      ensures Introduced(all, j)
    {
      StillIntroduced(calls, Init(id), j);
    }
    assert all[|calls|] == Init(id);
  }

  lemma StillIntroduced(calls: seq<Call>, c: Call, j: nat)
    requires j <= |calls| && (j == |calls| ==> c.Init?)
    requires j < |calls| ==> Introduced(calls, j)
    ensures Introduced(calls + [c], j)
  {
    if j < |calls| && !calls[j].Init? {
      var i :| 0 <= i < j && calls[i] == Init(CallId(calls[j]));
      assert (calls + [c])[i] == Init(CallId((calls + [c])[j]));
    }
  }

  lemma NewAsk(calls: seq<Call>, c: Call)
    requires InitialisedOnce(calls) && !c.Init? && Init(CallId(c)) in calls
    ensures InitialisedOnce(calls + [c])
  {
    var all := calls + [c];
    forall j | 0 <= j < |all|
      ensures Introduced(all, j)
    {
      if j < |calls| {
        StillIntroduced(calls, c, j);
      } else {
        var i :| 0 <= i < |calls| && calls[i] == Init(CallId(c));
        assert all[i] == Init(CallId(all[j]));
      }
    }
  }

  lemma ActivatedOk(m: Manager, now: nat)
    requires Ok(m) && m.states != []
    ensures Ok(Activated(m, now))
  {
    hide InitialisedOnce;
    if m.ptr == Null {
      NewInit(m.calls, Top(m));
    }
  }

  lemma AskOk(m: Manager, c: Call)
    requires Ok(m) && m.ptr != Null && !c.Init?
    requires CallId(c) == if m.ptr == InTransition then m.transition.newState else m.ptr.id
    ensures Ok(m.(calls := m.calls + [c]))
  {
    hide InitialisedOnce;
    NewAsk(m.calls, c);
  }

  lemma ApplyOk(m: Manager, result: Result)
    requires Ok(m) && m.ptr != Null && m.states != []
    ensures Ok(Apply(m, result))
  {
    hide InitialisedOnce;
    if result == Change && |m.states| >= 2 && m.ptr != InTransition {
      NewInit(m.calls, m.states[|m.states| - 2]);
    }
  }

  lemma StepOk(m: Manager, e: Event)
    requires Ok(m)
    ensures Ok(Step(m, e))
  {
    hide InitialisedOnce, Distinct, TransitionUpdate, Apply;
    if m.states != [] {
      match e
      case Arrive(now, flags) =>
        ActivatedOk(m, now);
        var a := Activated(m, now);
        if a.ptr.At? {
          AskOk(a, Recv(a.ptr.id));
        } else if a.client {
          AskOk(a, Recv(a.transition.newState));
        } else {
          assert a.calls + [] == a.calls;
        }
      case Tick(now, answer, ready) =>
        ActivatedOk(m, now);
        UpdateOk(Activated(m, now), m, now, answer, ready);
    }
  }

  lemma UpdateOk(a: Manager, m: Manager, now: nat, answer: Answer, ready: bool)
    requires m.states != [] && a == Activated(m, now) && Ok(a)
    ensures Ok(Polled(m, now, answer, ready))
  {
    hide InitialisedOnce, Distinct, Apply;
    match a.ptr
    case At(id) =>
      AskOk(a, Upd(id));
      ApplyOk(a.(calls := a.calls + [Upd(id)], lastUpdate := now), answer.result);
    case InTransition =>
      var limit := TransitionTimeout(a.client);
      var u := TransitionUpdate(a.transition, a.client, limit > 0 && Elapsed(a, now) > limit, ready);
      assert u.transition.newState == a.transition.newState;
      ApplyOk(a.(transition := u.transition, lastUpdate := now), u.result);
  }

  /** Smaller at every switch: the height of the stack first, then whether in transition. */
  function Measure(m: Manager): nat
  {
    if m.states == [] then 0 else if m.ptr == InTransition then 2 * |m.states| - 1 else 2 * |m.states|
  }

  lemma StepMeasure(m: Manager, e: Event)
    requires Ok(m)
    ensures Measure(Step(m, e)) <= Measure(m)
    ensures IsSwitch(m, Step(m, e)) ==> 2 <= Measure(Step(m, e)) < Measure(m)
  {
    hide InitialisedOnce, Distinct;
  }

  lemma ReadyOk(m: Manager)
    requires Ready(m)
    ensures Ok(m)
  {
  }

  lemma {:induction false} RunOk(m: Manager, events: seq<Event>)
    requires Ready(m)
    ensures Ok(RunAll(m, events))
    ensures Switches(m, events) > 0 ==> Measure(m) >= 2 + Switches(m, events)
    ensures Switches(m, events) + Measure(RunAll(m, events)) <= Measure(m) ||
            (Measure(RunAll(m, events)) == 0 && Switches(m, events) <= Measure(m))
  {
    hide Ok, Step, Measure, IsSwitch;
    if events == [] {
      ReadyOk(m);
    } else {
      var before := events[..|events| - 1];
      RunOk(m, before);
      StepOk(RunAll(m, before), events[|events| - 1]);
      StepMeasure(RunAll(m, before), events[|events| - 1]);
    }
  }

  /** In every run: each state is initialised exactly once, before it receives any packet or
      update; the active one is none, the top, or the transition above two states; and n states
      make at most 2(n - 1) switches. */
  lemma SwitchingIsSound(m: Manager, events: seq<Event>)
    requires Ready(m)
    ensures var r := RunAll(m, events);
            InitialisedOnce(r.calls) &&
            (r.ptr == Null || (r.states != [] && r.ptr == At(Top(r))) || (r.ptr == InTransition && |r.states| >= 2))
    ensures Switches(m, events) <= if m.states == [] then 0 else 2 * (|m.states| - 1)
  {
    hide InitialisedOnce, RunAll, Switches;
    RunOk(m, events);
    if m.states == [] {
      NoStates(m, events);
    }
  }

  lemma {:induction false} NoStates(m: Manager, events: seq<Event>)
    requires m.states == []
    ensures RunAll(m, events) == m && Switches(m, events) == 0
  {
    if events != [] {
      NoStates(m, events[..|events| - 1]);
    }
  }

  /** With one state left, asking to change is the same as failing: nothing remains. */
  lemma ChangeWithNothingLeft(m: Manager, now: nat, ready: bool, seconds: nat)
    requires |m.states| == 1
    ensures Polled(m, now, Answer(seconds, true, Change), ready) == Polled(m, now, Answer(seconds, true, Failure), ready)
    ensures m.ptr != InTransition ==> Polled(m, now, Answer(seconds, true, Change), ready).states == []
  {
  }

  // ---------------------------------------------------------------- the classes

  class TransitionState {
    var starting: bool
    var resend: bool
    var done: bool
    var timeouts: nat
    var clientMode: bool
    var newState: nat
    const buffer: Packet

    ghost predicate Valid()
      reads buffer
    {
      buffer.Valid() && buffer.used == 0
    }

    ghost function State(): Transition
      reads this
    {
      Transition(starting, resend, done, timeouts, newState)
    }

    constructor ()
      ensures Valid() && fresh(buffer) && fresh(buffer.data)
    {
      buffer := new Packet(MAX_PACKET_SIZE);
      starting, resend, done, timeouts, clientMode, newState := true, false, false, 0, false, 0;
    }

    /** pre_init and init; the caller records the new state's own init. */
    method Start(client: bool, next: nat)
      modifies this
      ensures State() == StartTransition(next) && clientMode == client
    {
      resend, done, starting, clientMode, timeouts, newState := false, false, true, client, 0, next;
    }

    /** Returns whether the packet was passed on to the new state. */
    method OnRecvPacket(flags: nat) returns (passed: bool)
      modifies `done, `resend
      ensures State() == TransitionRecv(old(State()), clientMode, flags) && passed == clientMode
    {
      passed := clientMode;
      if clientMode {
        done := true;
      } else if Has(flags, STATE_CHANGE_ACK) {
        done := true;
      } else if Has(flags, RETRANSMISSION) {
        resend := true;
      }
    }

    predicate NeedsUpdate()
      reads this
      ensures NeedsUpdate() == TransitionNeeds(State(), clientMode)
    {
      if clientMode then starting || done else resend || done
    }

    method Update(out: StateConnection, timedOut: bool) returns (r: Result)
      requires Valid()
      modifies `starting, `resend, `timeouts, out`sent, out`flags, out`resent
      ensures Moved(State(), r) == TransitionUpdate(old(State()), clientMode, timedOut, out.ready)
      ensures var sends := TransitionSends(old(State()), clientMode, timedOut, out.ready);
              && out.flags == old(out.flags) + (if sends == Ack then [STATE_CHANGE_ACK] else [])
              && out.sent == old(out.sent) + (if sends == Ack then [[]] else [])
              && out.resent == old(out.resent) + if sends == Again then 1 else 0
    {
      r := Failure;
      if clientMode {
        if starting {
          var ok := out.SendPacket(buffer, STATE_CHANGE_ACK);
          if !ok {
            return Continue;
          }
          starting := false;
          r := Continue;
        } else if done {
          r := Change;
        } else if timedOut {
          timeouts := timeouts + 1;
          if timeouts <= 5 {
            var _ := out.ResendLastPacket();
            r := Continue;
          }
        }
      } else {
        if resend {
          var ok := out.ResendLastPacket();
          if !ok {
            return Continue;
          }
          resend := false;
          r := Continue;
        } else if !(timedOut || !done) {
          r := Change;
        }
      }
    }
  }

  class StateManager {
    const client: bool
    var states: seq<nat>
    var ptr: Ptr
    const transition: TransitionState
    var lastUpdate: nat
    var calls: seq<Call>

    ghost predicate Valid()
      reads this, transition, transition.buffer
    {
      transition.Valid() && (ptr == InTransition ==> transition.clientMode == client)
    }

    ghost function State(): Manager
      reads this, transition
    {
      Manager(client, states, ptr, transition.State(), lastUpdate, calls)
    }

    constructor (client: bool, now: nat)
      ensures Valid() && fresh(transition) && fresh(transition.buffer) && Ready(State()) && states == []
    {
      this.client := client;
      states, ptr, lastUpdate, calls := [], Null, now, [];
      transition := new TransitionState();
    }

    method AddState(id: nat)
      requires Valid()
      modifies `states
      ensures Valid() && State() == old(State()).(states := old(states) + [id])
      ensures old(Ready(State())) && id !in old(states) ==> Ready(State())
    {
      states := states + [id];
    }

    method Activate(now: nat)
      requires Valid() && states != []
      modifies `ptr, `calls, `lastUpdate
      ensures Valid() && State() == Activated(old(State()), now)
    {
      if ptr == Null {
        ptr := At(states[|states| - 1]);
        calls := calls + [Init(states[|states| - 1])];
        lastUpdate := now;
      }
    }

    method OnRecvPacket(now: nat, flags: nat) returns (ok: bool)
      requires Valid()
      modifies this, transition
      ensures Valid() && State() == Receive(old(State()), now, flags) && ok == (old(states) != [])
    {
      if |states| == 0 {
        return false;
      }
      Activate(now);
      match ptr {
        case At(id) =>
          calls := calls + [Recv(id)];
        case InTransition =>
          var passed := transition.OnRecvPacket(flags);
          calls := calls + if passed then [Recv(transition.newState)] else [];
      }
      return true;
    }

    /** What follows the active state's answer. */
    method Conclude(r: Result) returns (ok: bool)
      requires Valid() && ptr != Null && states != [] && (ptr == InTransition ==> |states| >= 2)
      modifies this, transition
      ensures Valid() && State() == Apply(old(State()), r) && (ok ==> states != [])
      ensures ok == !(r == Failure || (r == Change && old(|states|) < 2))
    {
      ok := true;
      if r == Change && |states| >= 2 {
        if ptr == InTransition {
          states := states[..|states| - 1];
          ptr := At(states[|states| - 1]);
        } else {
          ptr := InTransition;
          transition.Start(client, states[|states| - 2]);
          calls := calls + [Init(states[|states| - 2])];
        }
      } else if r != Continue {
        states := [];
        ptr := Null;
        ok := false;
      }
    }

    /** The transition's turn. */
    method UpdateTransition(out: StateConnection, now: nat, timedOut: bool) returns (ok: bool)
      requires Valid() && ptr == InTransition && |states| >= 2 && timedOut == TransitionLate(State(), now)
      modifies this, transition, out`sent, out`flags, out`resent
      ensures Valid() && State() == Polled(old(State()), now, Answer(0, false, Continue), out.ready)
      ensures ok ==> states != []
      ensures var sends := Sends(old(State()), now, out.ready);
              && out.flags == old(out.flags) + (if sends == Ack then [STATE_CHANGE_ACK] else [])
              && out.sent == old(out.sent) + (if sends == Ack then [[]] else [])
              && out.resent == old(out.resent) + if sends == Again then 1 else 0
    {
      hide Ready, InitialisedOnce, Elapsed, Apply, TransitionUpdate, TransitionSends, TransitionNeeds;
      ok := true;
      if transition.NeedsUpdate() || timedOut {
        var r := transition.Update(out, timedOut);
        lastUpdate := now;
        ok := Conclude(r);
      }
    }

    /** `answer` is what the active registered state says, when it is asked. */
    method Update(out: StateConnection, now: nat, answer: Answer) returns (ok: bool)
      requires Valid() && (ptr == InTransition ==> |states| >= 2)
      modifies this, transition, out`sent, out`flags, out`resent
      ensures Valid() && State() == Polled(old(State()), now, answer, out.ready)
      ensures ok ==> states != []
      ensures var sends := Sends(old(State()), now, out.ready);
              && out.flags == old(out.flags) + (if sends == Ack then [STATE_CHANGE_ACK] else [])
              && out.sent == old(out.sent) + (if sends == Ack then [[]] else [])
              && out.resent == old(out.resent) + if sends == Again then 1 else 0
    {
      hide Ready, InitialisedOnce, Apply, TransitionUpdate, TransitionSends, TransitionNeeds;
      if |states| == 0 {
        return false;
      }
      Activate(now);
      var limit := if ptr == InTransition then TransitionTimeout(client) else answer.timeoutSeconds;
      var timedOut := limit > 0 && (now - lastUpdate) % UINT32 > limit;
      match ptr {
        case At(id) =>
          if answer.needsUpdate || timedOut {
            calls := calls + [Upd(id)];
            lastUpdate := now;
            ok := Conclude(answer.result);
            return;
          }
        case InTransition =>
          ok := UpdateTransition(out, now, timedOut);
          return;
      }
      return true;
    }
  }
}
