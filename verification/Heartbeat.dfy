/**
  The sender thread: it keeps one connection and writes numbered heartbeats to it.

  Everything the event loop may do between two rounds of the thread is an event, and events
  come in any order the loop permits: one completion for each connect and each write that
  was started, and timer callbacks only while the timer runs.
 */
module Heartbeats {
  import opened NumGenerators

  datatype Option<+T> = None | Some(value: T)

  datatype Event = Tick | Connected | ConnectFailed | TimerFired | Written | WriteFailed

  /** The largest value of the 16-bit number type of the heartbeat counter. */
  const MAX_NUM := 0xFFFF

  const DISCONNECTED := -1
  const CONNECTING := 0
  const CONNECTED := 1

  /** Sockets and timers are named by the order of their allocation; `active` are the timers
      that run. */
  datatype State = State(
    status: int,
    socket: Option<nat>,
    sockets: nat,
    closed: seq<nat>,
    connects: seq<int>,
    pending: nat,
    timer: Option<nat>,
    timers: nat,
    freed: seq<nat>,
    active: set<nat>,
    writes: nat,
    numbers: seq<int>,
    targets: seq<nat>)

  ghost const INITIAL := State(DISCONNECTED, None, 0, [], [], 0, None, 0, [], {}, 0, [], [])

  ghost predicate Enabled(s: State, e: Event) {
    match e
    case Tick => true
    case Connected => s.pending > 0
    case ConnectFailed => s.pending > 0
    case TimerFired => s.active != {}
    case Written => s.writes > 0
    case WriteFailed => s.writes > 0
  }

  ghost function Release(id: Option<nat>): seq<nat> {
    if id.None? then [] else [id.value]
  }

  ghost function Stop(active: set<nat>, id: Option<nat>): set<nat> {
    if id.None? then active else active - {id.value}
  }

  ghost function Apply(s: State, e: Event): State
    requires Enabled(s, e)
  {
    match e
    case Tick =>
      if s.status != DISCONNECTED then s else
        s.(status := CONNECTING, socket := Some(s.sockets), sockets := s.sockets + 1,
           closed := s.closed + Release(s.socket), connects := s.connects + [s.status], pending := s.pending + 1)
    case Connected =>
      s.(status := CONNECTED, pending := s.pending - 1, freed := s.freed + Release(s.timer),
         timer := Some(s.timers), timers := s.timers + 1, active := Stop(s.active, s.timer) + {s.timers})
    case ConnectFailed => s.(status := DISCONNECTED, pending := s.pending - 1)
    case TimerFired =>
      s.(writes := s.writes + 1, numbers := s.numbers + [|s.numbers| % MAX_NUM],
         targets := s.targets + Release(s.socket))
    case Written => s.(writes := s.writes - 1)
    case WriteFailed =>
      s.(status := DISCONNECTED, writes := s.writes - 1, active := Stop(s.active, s.timer))
  }

  /** An event that is not possible when its turn comes does not happen. */
  ghost function Deliver(s: State, e: Event): State {
    if Enabled(s, e) then Apply(s, e) else s
  }

  ghost function Run(s: State, es: seq<Event>): State
    decreases es
  {
    if es == [] then s else Run(Deliver(s, es[0]), es[1..])
  }

  lemma {:induction false} RunConcat(s: State, a: seq<Event>, b: seq<Event>)
    ensures Run(s, a + b) == Run(Run(s, a), b)
    decreases a
  {
    if a == [] {
      assert a + b == b;
    } else {
      RunConcat(Deliver(s, a[0]), a[1..], b);
      assert (a + b)[1..] == a[1..] + b;
    }
  }

  lemma RunSnoc(s: State, es: seq<Event>, e: Event)
    ensures Run(s, es + [e]) == Deliver(Run(s, es), e)
  {
    RunConcat(s, es, [e]);
    RunFirst(Run(s, es), e, []);
    assert [e] + [] == [e];
  }

  lemma RunFirst(s: State, e: Event, es: seq<Event>)
    ensures Run(s, [e] + es) == Run(Deliver(s, e), es)
    ensures Run(s, []) == s
  {
    assert ([e] + es)[1..] == es;
  }

  /** The state after the loop: the last socket and the last timer go. */
  ghost function Shutdown(s: State): State {
    s.(closed := s.closed + Release(s.socket), freed := s.freed + Release(s.timer),
       active := Stop(s.active, s.timer))
  }

  /** The identifiers handed out so far. */
  ghost function Upto(n: int): seq<nat> {
    if n <= 0 then [] else seq(n, i requires i >= 0 => i)
  }

  ghost predicate Invariant(s: State) {
    && s.status in {DISCONNECTED, CONNECTING, CONNECTED}
    && (s.status != DISCONNECTED ==> s.socket.Some?)
    // every socket but the current one was closed, once, in the order of creation
    && s.socket == (if s.sockets == 0 then None else Some(s.sockets - 1))
    && s.closed == Upto(s.sockets - 1)
    // one connect for each socket, each of them started from the disconnected state
    && |s.connects| == s.sockets && (forall i :: 0 <= i < |s.connects| ==> s.connects[i] == DISCONNECTED)
    && s.pending <= s.sockets
    // every timer but the current one was freed, once, in the order of creation
    && s.timer == (if s.timers == 0 then None else Some(s.timers - 1))
    && s.freed == Upto(s.timers - 1)
    // only the current timer runs, so no timer that was freed
    && (forall id <- s.active :: s.timer == Some(id) && id !in s.freed)
    && (s.writes > 0 ==> s.timer.Some?)
    && (s.timer.Some? ==> s.socket.Some?)
    // a connected sender has its timer running
    && (s.status == CONNECTED ==> s.active != {})
    && Cyclic(s.numbers, MAX_NUM) && |s.targets| == |s.numbers|
  }

  /** Every step of the thread and every callback keeps the invariant. */
  lemma InvariantStep(s: State, e: Event)
    requires Invariant(s) && Enabled(s, e)
    ensures Invariant(Apply(s, e))
  {
  }

  /** Whatever order the events come in. */
  lemma {:induction false} RunInvariant(s: State, es: seq<Event>)
    requires Invariant(s)
    ensures Invariant(Run(s, es))
    decreases es
  {
    if es == [] {
    } else {
      if Enabled(s, es[0]) {
        InvariantStep(s, es[0]);
      }
      RunInvariant(Deliver(s, es[0]), es[1..]);
    }
  }

  lemma InitialInvariant()
    ensures Invariant(INITIAL)
  {
  }

  /** A heartbeat goes out on a socket that exists and was not closed. */
  lemma HeartbeatTarget(es: seq<Event>)
    requires Enabled(Run(INITIAL, es), TimerFired)
    ensures
      var s := Run(INITIAL, es);
      && s.socket.Some? && s.socket.value !in s.closed
      && Apply(s, TimerFired).targets == s.targets + [s.sockets - 1]
  {
    InitialInvariant();
    RunInvariant(INITIAL, es);
  }

  lemma ShutdownStep(s: State)
    requires Invariant(s)
    ensures Shutdown(s).sockets == s.sockets && Shutdown(s).timers == s.timers
    ensures Shutdown(s).closed == Upto(s.sockets) && Shutdown(s).freed == Upto(s.timers)
    ensures Shutdown(s).active == {}
  {
  }

  /** After the loop every socket was closed exactly once and every timer freed exactly once,
      and no timer runs. */
  lemma ShutdownBalanced(es: seq<Event>)
    ensures
      var s := Shutdown(Run(INITIAL, es));
      && |s.closed| == s.sockets && (forall i | 0 <= i < s.sockets :: s.closed[i] == i)
      && |s.freed| == s.timers && (forall i | 0 <= i < s.timers :: s.freed[i] == i)
      && s.active == {}
  {
    InitialInvariant();
    RunInvariant(INITIAL, es);
    hide Invariant, Run, Shutdown;
    ShutdownStep(Run(INITIAL, es));
  }

  /** A new connection replaces the timer: the old one is stopped, and then freed. */
  lemma TimerReplaced(s: State)
    requires Invariant(s) && Enabled(s, Connected)
    ensures
      var t := Apply(s, Connected);
      && t.active == {s.timers} && t.timer == Some(s.timers)
      && (forall id <- t.freed :: id in s.freed || s.timer == Some(id))
      && (forall id <- t.active :: id !in t.freed)
  {
  }

  // ---------- conditions that hold all along a run ----------

  /** The state before event `i` of a run. */
  ghost function StateAt(s: State, es: seq<Event>, i: nat): State
    requires i <= |es|
  {
    Run(s, es[..i])
  }

  lemma StateAtStep(s: State, es: seq<Event>, i: nat)
    requires Invariant(s) && i < |es|
    ensures Invariant(StateAt(s, es, i))
    ensures StateAt(s, es, i + 1) == Deliver(StateAt(s, es, i), es[i])
  {
    RunInvariant(s, es[..i]);
    RunSnoc(s, es[..i], es[i]);
    assert es[..i + 1] == es[..i] + [es[i]];
  }

  /** `good` holds in every state of the run. */
  ghost predicate Always(s: State, es: seq<Event>, good: State -> bool) {
    forall i | 0 <= i <= |es| :: good(StateAt(s, es, i))
  }

  /** The run delivers an event that is `bad` in the state it meets. */
  ghost predicate Meets(s: State, es: seq<Event>, bad: (State, Event) -> bool) {
    exists i | 0 <= i < |es| :: bad(StateAt(s, es, i), es[i])
  }

  /** If the bad events are just those that end the good states, then a run stays good if
      and only if it meets none of them. */
  lemma AlwaysUnlessMet(s: State, es: seq<Event>, good: State -> bool, bad: (State, Event) -> bool)
    requires Invariant(s) && good(s)
    requires forall t, e :: Invariant(t) && good(t) ==> (good(Deliver(t, e)) <==> !bad(t, e))
    ensures Always(s, es, good) <==> !Meets(s, es, bad)
  {
    assert StateAt(s, es, 0) == s;
    hide Invariant, StateAt, Deliver;
    forall i | 0 <= i < |es|
      ensures good(StateAt(s, es, i)) ==> (good(StateAt(s, es, i + 1)) <==> !bad(StateAt(s, es, i), es[i]))
    {
      StateAtStep(s, es, i);
    }
    if !Meets(s, es, bad) {
      var k := 0;
      while k < |es|
        invariant 0 <= k <= |es| && forall i | 0 <= i <= k :: good(StateAt(s, es, i))
      {
        assert good(StateAt(s, es, k)) && !bad(StateAt(s, es, k), es[k]);
        k := k + 1;
        assert good(StateAt(s, es, k));
      }
    } else {
      var i :| 0 <= i < |es| && bad(StateAt(s, es, i), es[i]);
      assert !good(StateAt(s, es, i)) || !good(StateAt(s, es, i + 1));
    }
  }

  // ---------- the timer and the connection ----------

  /** The timer runs exactly when the sender is connected. */
  ghost predicate InStep(s: State) {
    s.active != {} <==> s.status == CONNECTED
  }

  /** A connect failure that is delivered to a connected sender. */
  ghost predicate Late(s: State, e: Event) {
    Enabled(s, e) && e.ConnectFailed? && s.status == CONNECTED
  }

  /** Exactly the late failures break the tie between timer and connection: it holds all
      along a run if and only if the run delivers none. */
  lemma InStepThroughout(s: State, es: seq<Event>)
    requires Invariant(s) && InStep(s)
    ensures Always(s, es, InStep) <==> !Meets(s, es, Late)
  {
    AlwaysUnlessMet(s, es, InStep, Late);
  }

  // ---------- overlapping attempts ----------

  ghost predicate AtMostOne(s: State) {
    s.pending <= 1
  }

  /** The thread starts a connect although one is still under way. */
  ghost predicate Overlapping(s: State, e: Event) {
    e.Tick? && s.status == DISCONNECTED && s.pending > 0
  }

  /** At most one attempt is under way all along a run if and only if the thread never
      starts one while disconnected with one still pending. */
  lemma AtMostOneThroughout(s: State, es: seq<Event>)
    requires Invariant(s) && AtMostOne(s)
    ensures Always(s, es, AtMostOne) <==> !Meets(s, es, Overlapping)
  {
    AlwaysUnlessMet(s, es, AtMostOne, Overlapping);
  }

  /** A connect is under way exactly while the sender is connecting. */
  ghost predicate Settled(s: State) {
    s.pending == if s.status == CONNECTING then 1 else 0
  }

  /** A failed write, of an earlier connection, that is delivered to a connecting sender. */
  ghost predicate Interrupting(s: State, e: Event) {
    Enabled(s, e) && e.WriteFailed? && s.status == CONNECTING
  }

  /** Exactly a write failure delivered while connecting makes the sender forget a connect
      that is still under way. */
  lemma SettledThroughout(s: State, es: seq<Event>)
    requires Invariant(s) && Settled(s)
    ensures Always(s, es, Settled) <==> !Meets(s, es, Interrupting)
  {
    AlwaysUnlessMet(s, es, Settled, Interrupting);
  }

  /** An overlap is preceded by a write failure delivered while connecting. */
  lemma OverlapNeedsInterruption(s: State, es: seq<Event>, i: nat)
    requires Invariant(s) && Settled(s) && i < |es| && Overlapping(StateAt(s, es, i), es[i])
    ensures Meets(s, es[..i], Interrupting)
  {
    hide Run, Invariant;
    SettledThroughout(s, es[..i]);
    assert es[..i][..i] == es[..i];
    assert !Settled(StateAt(s, es[..i], i));
  }

  /** At most one connect is under way, and none while connected. */
  ghost predicate Single(s: State) {
    s.pending <= 1 && (s.status == CONNECTED ==> s.pending == 0)
  }

  /** A late failure is preceded by an overlap. */
  lemma LateNeedsOverlap(s: State, es: seq<Event>, i: nat)
    requires Invariant(s) && Single(s) && i < |es| && Late(StateAt(s, es, i), es[i])
    ensures Meets(s, es[..i], Overlapping)
  {
    AlwaysUnlessMet(s, es[..i], Single, Overlapping);
    hide Run, Invariant;
    assert es[..i][..i] == es[..i];
    assert !Single(StateAt(s, es[..i], i));
  }

  /** Two heartbeats fail one after the other, the second one while reconnecting. */
  ghost const OVERLAP: seq<Event> :=
    [Tick] + ([Connected] + ([TimerFired] + ([TimerFired] + ([WriteFailed] +
    ([Tick] + ([WriteFailed] + ([Tick] + [])))))))

  /** Then the newer of the two attempts succeeds, and after it the older one fails. */
  ghost const LATE_FAILURE: seq<Event> := OVERLAP + ([Connected] + ([ConnectFailed] + []))

  /** Two attempts can be under way at once. */
  lemma OverlapReached()
    ensures Run(INITIAL, OVERLAP).pending == 2 && Run(INITIAL, OVERLAP).status == CONNECTING
    ensures Run(INITIAL, OVERLAP).timer.Some?
  {
    var s := INITIAL;
    var e7 := [Tick] + [];
    var e6 := [WriteFailed] + e7;
    var e5 := [Tick] + e6;
    var e4 := [WriteFailed] + e5;
    var e3 := [TimerFired] + e4;
    var e2 := [TimerFired] + e3;
    var e1 := [Connected] + e2;
    hide Run;
    RunFirst(s, Tick, e1);
    s := Apply(s, Tick);
    RunFirst(s, Connected, e2);
    s := Apply(s, Connected);
    RunFirst(s, TimerFired, e3);
    s := Apply(s, TimerFired);
    RunFirst(s, TimerFired, e4);
    s := Apply(s, TimerFired);
    RunFirst(s, WriteFailed, e5);
    s := Apply(s, WriteFailed);
    RunFirst(s, Tick, e6);
    s := Apply(s, Tick);
    RunFirst(s, WriteFailed, e7);
    s := Apply(s, WriteFailed);
    RunFirst(s, Tick, []);
    RunFirst(Apply(s, Tick), Tick, []);
  }

  /** A connected sender always has its timer running. The converse fails: the timer keeps
      running, and heartbeats keep going out, after a late failure. */
  lemma RunningWhileDisconnected()
    ensures Run(INITIAL, LATE_FAILURE).active != {} && Run(INITIAL, LATE_FAILURE).status == DISCONNECTED
  {
    hide Run;
    var s := Run(INITIAL, OVERLAP);
    var e1 := [ConnectFailed] + [];
    OverlapReached();
    RunConcat(INITIAL, OVERLAP, [Connected] + e1);
    RunFirst(s, Connected, e1);
    s := Apply(s, Connected);
    RunFirst(s, ConnectFailed, []);
    RunFirst(Apply(s, ConnectFailed), Tick, []);
  }
}
