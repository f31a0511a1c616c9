/**
  What a run of the sender means, told from the events that were delivered and from nothing
  else: which events can come next, and what each field of the state is.
 */
module Histories {
  import opened Heartbeats

  // ---------- reading a history ----------

  /** Place `i` holds one of the `good` events, and none of the `bad` ones came after it. */
  ghost predicate LastGood(h: seq<Event>, i: int, good: set<Event>, bad: set<Event>) {
    0 <= i < |h| && h[i] in good && forall j | i < j < |h| :: h[j] !in bad
  }

  /** One of the `good` events came, and none of the `bad` ones since. */
  ghost predicate Since(h: seq<Event>, good: set<Event>, bad: set<Event>) {
    exists i :: LastGood(h, i, good, bad)
  }

  ghost function Count(h: seq<Event>, e: Event): nat {
    multiset(h)[e]
  }

  /** No attempt was started, and no connection made, since the last failure. */
  ghost predicate Idle(h: seq<Event>) {
    !Since(h, {Tick, Connected}, {ConnectFailed, WriteFailed})
  }

  /** The attempts to connect: the thread starts one in each round that finds it idle. */
  ghost function Attempts(h: seq<Event>): nat {
    if h == [] then 0
    else
      var p := h[..|h| - 1];
      Attempts(p) + if h[|h| - 1].Tick? && Idle(p) then 1 else 0
  }

  /** The sockets the heartbeats went to: each time that of the newest attempt. */
  ghost function Targets(h: seq<Event>): seq<int> {
    if h == [] then []
    else
      var p := h[..|h| - 1];
      Targets(p) + if h[|h| - 1].TimerFired? then [Attempts(p) - 1] else []
  }

  /** What can come next: a completion for each attempt and each heartbeat that has none
      yet, and a timer callback after a connection, until a write fails. */
  ghost predicate Possible(h: seq<Event>, e: Event) {
    match e
    case Tick => true
    case Connected => Attempts(h) > Count(h, Connected) + Count(h, ConnectFailed)
    case ConnectFailed => Attempts(h) > Count(h, Connected) + Count(h, ConnectFailed)
    case TimerFired => Since(h, {Connected}, {WriteFailed})
    case Written => Count(h, TimerFired) > Count(h, Written) + Count(h, WriteFailed)
    case WriteFailed => Count(h, TimerFired) > Count(h, Written) + Count(h, WriteFailed)
  }

  /** The history after the events `es` were offered, of which only the possible ones happen. */
  ghost function Record(h: seq<Event>, es: seq<Event>): seq<Event>
    decreases es
  {
    if es == [] then h else Record(if Possible(h, es[0]) then h + [es[0]] else h, es[1..])
  }

  /** The state `s` is the one that the history `h` leads to. */
  ghost predicate Follows(s: State, h: seq<Event>) {
    // the status: 1 after a connection, -1 before any attempt and after a failure, otherwise 0
    && (s.status == 1 <==> Since(h, {Connected}, {ConnectFailed, WriteFailed}))
    && (s.status == -1 <==> Idle(h))
    && s.status in {-1, 0, 1}
    // attempts, their sockets, and those without an outcome
    && s.sockets == Attempts(h)
    && s.pending == Attempts(h) - Count(h, Connected) - Count(h, ConnectFailed)
    // one timer for each connection; the newest one runs until a write fails
    && s.timers == Count(h, Connected)
    && (s.active != {} <==> Since(h, {Connected}, {WriteFailed}))
    // the heartbeats, and those without an outcome
    && s.writes == Count(h, TimerFired) - Count(h, Written) - Count(h, WriteFailed)
    && |s.numbers| == Count(h, TimerFired)
    && (forall i | 0 <= i < |s.numbers| :: s.numbers[i] == i % 0xFFFF)
    && s.targets == Targets(h)
  }

  // ---------- one more event ----------

  lemma SinceStep(h: seq<Event>, e: Event, good: set<Event>, bad: set<Event>)
    requires good !! bad
    ensures Since(h + [e], good, bad) <==> e in good || (e !in bad && Since(h, good, bad))
    ensures !Since([], good, bad)
  {
    var g := h + [e];
    if e in good {
      assert LastGood(g, |h|, good, bad);
    } else if e !in bad && Since(h, good, bad) {
      var i :| LastGood(h, i, good, bad);
      assert LastGood(g, i, good, bad);
    }
    if Since(g, good, bad) && e !in good {
      var i :| LastGood(g, i, good, bad);
      assert g[|h|] == e && i < |h|;
      assert forall j | i < j < |h| :: g[j] == h[j];
      assert LastGood(h, i, good, bad);
    }
  }

  lemma CountStep(h: seq<Event>, e: Event, f: Event)
    ensures Count(h + [e], f) == Count(h, f) + if e == f then 1 else 0
    ensures Count([], f) == 0
  {
  }

  lemma AttemptsStep(h: seq<Event>, e: Event)
    ensures Attempts(h + [e]) == Attempts(h) + if e.Tick? && Idle(h) then 1 else 0
    ensures Targets(h + [e]) == Targets(h) + if e.TimerFired? then [Attempts(h) - 1] else []
  {
    assert (h + [e])[..|h|] == h;
  }

  /** How all that a history says changes with one more event. */
  lemma HistoryStep(h: seq<Event>, e: Event)
    ensures forall f :: Count(h + [e], f) == Count(h, f) + if e == f then 1 else 0
    ensures Attempts(h + [e]) == Attempts(h) + if e.Tick? && Idle(h) then 1 else 0
    ensures Targets(h + [e]) == Targets(h) + if e.TimerFired? then [Attempts(h) - 1] else []
    ensures
      Since(h + [e], {Connected}, {ConnectFailed, WriteFailed}) <==>
      e.Connected? ||
      (!e.ConnectFailed? && !e.WriteFailed? && Since(h, {Connected}, {ConnectFailed, WriteFailed}))
    ensures
      Since(h + [e], {Connected}, {WriteFailed}) <==>
      e.Connected? || (!e.WriteFailed? && Since(h, {Connected}, {WriteFailed}))
    ensures Idle(h + [e]) <==> e.ConnectFailed? || e.WriteFailed? || (!e.Tick? && !e.Connected? && Idle(h))
  {
    hide Count, Attempts, Targets, Since;
    forall f
      ensures Count(h + [e], f) == Count(h, f) + if e == f then 1 else 0
    {
      CountStep(h, e, f);
    }
    AttemptsStep(h, e);
    SinceStep(h, e, {Connected}, {ConnectFailed, WriteFailed});
    SinceStep(h, e, {Connected}, {WriteFailed});
    SinceStep(h, e, {Tick, Connected}, {ConnectFailed, WriteFailed});
  }

  // ---------- runs ----------

  lemma FollowsStart()
    ensures Follows(INITIAL, [])
  {
    SinceStep([], Tick, {Connected}, {ConnectFailed, WriteFailed});
    SinceStep([], Tick, {Connected}, {WriteFailed});
    SinceStep([], Tick, {Tick, Connected}, {ConnectFailed, WriteFailed});
  }

  /** The events that the state enables are those that the history makes possible. */
  lemma PossibleEnabled(s: State, h: seq<Event>, e: Event)
    requires Follows(s, h)
    ensures Enabled(s, e) <==> Possible(h, e)
  {
    hide Count, Attempts, Targets, Since, Idle;
  }

  /** One step of the thread or of a callback. */
  lemma FollowsStep(s: State, h: seq<Event>, e: Event)
    requires Invariant(s) && Follows(s, h) && Enabled(s, e)
    ensures Follows(Apply(s, e), h + [e])
  {
    HistoryStep(h, e);
    hide Count, Attempts, Targets, Since, Idle, Upto;
  }

  /** After every run, whatever the events and their order, the state is the one that the
      history of the run describes. */
  lemma {:induction false} RunFollows(s: State, h: seq<Event>, es: seq<Event>)
    requires Invariant(s) && Follows(s, h)
    ensures Follows(Run(s, es), Record(h, es)) && Invariant(Run(s, es))
    decreases es
  {
    hide Invariant, Follows, Enabled, Possible, Apply;
    if es == [] {
    } else {
      var e := es[0];
      PossibleEnabled(s, h, e);
      if Enabled(s, e) {
        FollowsStep(s, h, e);
        InvariantStep(s, e);
        RunFollows(Apply(s, e), h + [e], es[1..]);
      } else {
        RunFollows(s, h, es[1..]);
      }
    }
  }

  lemma RunHistory(es: seq<Event>)
    ensures Follows(Run(INITIAL, es), Record([], es)) && Invariant(Run(INITIAL, es))
  {
    FollowsStart();
    InitialInvariant();
    RunFollows(INITIAL, [], es);
  }

  /** The history leaves nothing open: no two states are described by the same one. */
  lemma HistoryDetermines(s: State, t: State, h: seq<Event>)
    requires Invariant(s) && Follows(s, h) && Invariant(t) && Follows(t, h)
    ensures s == t
  {
    hide Count, Attempts, Targets, Since, Idle, Upto;
    assert s.numbers == t.numbers && s.connects == t.connects;
    assert s.active == t.active by {
      if s.active != {} {
        OnlyTimer(s);
        OnlyTimer(t);
      }
    }
  }

  lemma OnlyTimer(s: State)
    requires Invariant(s) && s.active != {}
    ensures s.timer.Some? && s.active == {s.timer.value}
  {
    var id :| id in s.active;
  }

  /** What is left after the loop: it is balanced, and the status and the heartbeats are
      those that the history describes. */
  ghost predicate Ended(s: State, h: seq<Event>) {
    && |s.closed| == s.sockets && (forall i | 0 <= i < s.sockets :: s.closed[i] == i)
    && |s.freed| == s.timers && (forall i | 0 <= i < s.timers :: s.freed[i] == i)
    && s.active == {}
    && (s.status == 1 <==> Since(h, {Connected}, {ConnectFailed, WriteFailed}))
    && (s.status == -1 <==> Idle(h))
    && s.sockets == Attempts(h) && s.timers == Count(h, Connected)
    && |s.numbers| == Count(h, TimerFired) && s.targets == Targets(h)
    && forall i | 0 <= i < |s.numbers| :: s.numbers[i] == i % 0xFFFF
  }

  lemma RunEnded(es: seq<Event>)
    ensures Ended(Shutdown(Run(INITIAL, es)), Record([], es))
  {
    ShutdownBalanced(es);
    RunHistory(es);
    hide Run, Invariant, Count, Attempts, Targets, Since, Idle;
  }

  // ---------- what a run does, event by event ----------

  /** In every run: a completed write changes nothing but the number of writes under way. */
  lemma WrittenHarmless(es: seq<Event>)
    requires Possible(Record([], es), Written)
    ensures
      var s, t := Run(INITIAL, es), Run(INITIAL, es + [Written]);
      t.writes == s.writes - 1 && s == t.(writes := s.writes)
  {
    RunHistory(es);
    hide Follows, Invariant, Possible;
    PossibleEnabled(Run(INITIAL, es), Record([], es), Written);
    RunSnoc(INITIAL, es, Written);
  }

  /** The numbers of the heartbeats of a run: all of 0 to 65534, and then 0 again. */
  lemma NumbersWrap(es: seq<Event>, i: nat)
    requires i < |Run(INITIAL, es).numbers|
    ensures Run(INITIAL, es).numbers[i] == i % 0xFFFF
    ensures i <= 65534 ==> Run(INITIAL, es).numbers[i] == i
    ensures i == 65535 ==> Run(INITIAL, es).numbers[i] == 0
  {
    RunHistory(es);
  }
}
