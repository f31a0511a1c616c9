/**
  The sender thread itself, with the fields its loop and its callbacks update.
 */
module Senders {
  import opened NumGenerators
  import opened Heartbeats
  import opened Histories

  /** The callbacks that one pass of the event loop delivers. */
  ghost predicate Callbacks(es: seq<Event>) {
    forall e <- es :: !e.Tick?
  }

  /** The events of the rounds: each starts with the thread's own step. */
  ghost function Flatten(rounds: seq<seq<Event>>): seq<Event> {
    if rounds == [] then [] else Flatten(rounds[..|rounds| - 1]) + [Tick] + rounds[|rounds| - 1]
  }

  class Sender {
    const generator: NumGenerator
    // what the thread and its callbacks share
    var status: int
    var connSocket: Option<nat>
    var timer: Option<nat>
    // local to the thread
    var socket: Option<nat>
    // the event loop: allocations so far, and what is under way
    var sockets: nat
    var timers: nat
    var pending: nat
    var active: set<nat>
    var writes: nat
    // what was passed to the event loop so far
    ghost var closed: seq<nat>
    ghost var freed: seq<nat>
    ghost var connects: seq<int>
    ghost var targets: seq<nat>

    ghost function View(): State
      reads this, generator
    {
      State(status, socket, sockets, closed, connects, pending, timer, timers, freed, active,
            writes, generator.issued, targets)
    }

    ghost predicate Valid()
      reads this, generator
    {
      generator.Valid() && generator.max == MAX_NUM && connSocket == socket && Invariant(View())
    }

    constructor ()
      ensures Valid() && View() == INITIAL && fresh(generator)
    {
      generator := new NumGenerator(MAX_NUM);
      status, connSocket, timer, socket := DISCONNECTED, None, None, None;
      sockets, timers, pending, active, writes := 0, 0, 0, {}, 0;
      closed, freed, connects, targets := [], [], [], [];
    }

    /** Closes the socket, if there is one, and opens a new one. */
    method ReplaceSocket()
      modifies `socket, `sockets, `connSocket, `closed
      ensures socket == Some(old(sockets)) && sockets == old(sockets) + 1 && connSocket == socket
      ensures closed == old(closed) + Release(old(socket))
    {
      if socket.Some? {
        closed := closed + [socket.value];
      }
      socket, sockets := Some(sockets), sockets + 1;
      connSocket := socket;
    }

    /** One round of the thread's loop, up to the pass of the event loop; how long it sleeps. */
    method Round() returns (sleep: nat)
      requires Valid()
      modifies this
      ensures Valid() && View() == Apply(old(View()), Tick) && socket.Some?
      ensures sleep == if status == CONNECTED then 100 else 1000
    {
      hide Invariant, Cyclic, Upto, Apply, Enabled, NumGenerator.Valid;
      ghost var was := View();
      TickStep(was);
      SocketOf(was);
      if status == DISCONNECTED {
        connects := connects + [status];
        status := CONNECTING;
        ReplaceSocket();
        pending := pending + 1;
        assert View() == Apply(was, Tick);
      }
      InvariantStep(was, Tick);
      sleep := if status == CONNECTED then 100 else 1000;
    }

    lemma SocketOf(s: State)
      requires Invariant(s)
      ensures s.status != DISCONNECTED ==> s.socket.Some?
    {
    }

    /** Frees a timer that was stopped before. */
    method FreeTimer(id: nat)
      requires id !in active
      modifies `freed
      ensures freed == old(freed) + [id]
    {
      freed := freed + [id];
    }

    /** Replaces the timer, if there is one, by a new one, and starts that. */
    method RestartTimer()
      requires forall id <- active :: timer == Some(id)
      modifies `timer, `timers, `active, `freed
      ensures timer == Some(old(timers)) && timers == old(timers) + 1 && active == {old(timers)}
      ensures freed == old(freed) + Release(old(timer))
    {
      if timer.Some? {
        active := active - {timer.value};
        FreeTimer(timer.value);
      }
      timer, timers := Some(timers), timers + 1;
      active := active + {timer.value};
    }

    method OnConnect(ok: bool)
      requires Valid() && pending > 0
      modifies this
      ensures Valid() && View() == Apply(old(View()), if ok then Connected else ConnectFailed)
      ensures pending == old(pending) - 1 && writes == old(writes)
      ensures socket == old(socket) && sockets == old(sockets) && closed == old(closed)
      ensures !ok ==> status == -1 && active == old(active)
      ensures !ok ==> timer == old(timer) && timers == old(timers) && freed == old(freed)
      ensures ok ==> status == 1 && timer == Some(old(timers)) && timers == old(timers) + 1
      ensures ok ==> active == {old(timers)} && freed == old(freed) + Release(old(timer))
      ensures forall id <- active :: id !in freed
    {
      hide Invariant, Cyclic, Upto;
      ghost var was := View();
      InvariantStep(was, if ok then Connected else ConnectFailed);
      ActiveTimer(was);
      pending := pending - 1;
      if !ok {
        status := DISCONNECTED;
        assert View() == Apply(was, ConnectFailed);
        return;
      }
      status := CONNECTED;
      RestartTimer();
      assert View() == Apply(was, Connected);
      ActiveTimer(View());
    }

    lemma ActiveTimer(s: State)
      requires Invariant(s)
      ensures forall id <- s.active :: s.timer == Some(id) && id !in s.freed
    {
    }

    method OnTimer() returns (num: int)
      requires Valid() && active != {}
      modifies this, generator
      ensures Valid() && View() == Apply(old(View()), TimerFired)
      ensures num == |old(generator.issued)| % 0xFFFF && generator.issued == old(generator.issued) + [num]
      ensures connSocket.Some? && targets == old(targets) + [connSocket.value] && writes == old(writes) + 1
      ensures status == old(status) && active == old(active) && timer == old(timer) && socket == old(socket)
    {
      InvariantStep(View(), TimerFired);
      num := generator.GetNum();
      targets := targets + [connSocket.value];
      writes := writes + 1;
    }

    method OnWrite(ok: bool)
      requires Valid() && writes > 0
      modifies this
      ensures Valid() && View() == Apply(old(View()), if ok then Written else WriteFailed)
      ensures writes == old(writes) - 1 && pending == old(pending)
      ensures socket == old(socket) && timer == old(timer) && closed == old(closed) && freed == old(freed)
      ensures ok ==> status == old(status) && active == old(active)
      ensures !ok ==> status == -1 && active == {}
    {
      InvariantStep(View(), if ok then Written else WriteFailed);
      writes := writes - 1;
      if !ok {
        status := DISCONNECTED;
        assert timer.Some?;  // there is a timer to stop
        active := active - {timer.value};
      }
    }

    method DeliverCallback(e: Event)
      requires Valid() && !e.Tick?
      modifies this, generator
      ensures Valid() && View() == Deliver(old(View()), e) && socket == old(socket)
    {
      if e.Connected? && pending > 0 {
        OnConnect(true);
      } else if e.ConnectFailed? && pending > 0 {
        OnConnect(false);
      } else if e.TimerFired? && active != {} {
        var num := OnTimer();
      } else if e.Written? && writes > 0 {
        OnWrite(true);
      } else if e.WriteFailed? && writes > 0 {
        OnWrite(false);
      }
    }

    /** What follows the loop; whether there was a socket to close. */
    method Finish() returns (hadSocket: bool)
      requires Valid()
      modifies this
      ensures View() == Shutdown(old(View())) && hadSocket == old(socket).Some?
      ensures active == {} && freed == old(freed) + Release(old(timer))
      ensures closed == old(closed) + Release(old(socket))
      ensures status == old(status) && sockets == old(sockets) && timers == old(timers) && writes == old(writes)
    {
      ActiveTimer(View());
      hadSocket := socket.Some?;
      if hadSocket {
        closed := closed + [socket.value];
      }
      if timer.Some? {
        active := active - {timer.value};
        FreeTimer(timer.value);
      }
    }

    /** A whole run, with whatever callbacks the event loop delivers in each round. The
        status and the heartbeats are those that the history of the run describes. At its
        end every socket was closed exactly once, every timer freed exactly once, and none
        runs; there is no socket to close exactly when the thread was stopped before its
        first round. */
    method ThreadTask(rounds: seq<seq<Event>>) returns (hadSocket: bool)
      requires Valid() && View() == INITIAL
      requires forall es <- rounds :: Callbacks(es)
      modifies this, generator
      ensures View() == Shutdown(Run(INITIAL, Flatten(rounds)))
      ensures Ended(View(), Record([], Flatten(rounds))) && active == {}
      ensures forall i | 0 <= i < |generator.issued| :: generator.issued[i] == i % 0xFFFF
      ensures hadSocket <==> rounds != []
    {
      hide Invariant, Run, Apply, Deliver, Enabled, Flatten, Shutdown, View, Ended, Record;
      var i := 0;
      FlattenStep(rounds, 0);
      RunFirst(INITIAL, Tick, []);
      NoSocket();
      while i < |rounds|
        invariant 0 <= i <= |rounds| && Valid() && View() == Run(INITIAL, Flatten(rounds[..i]))
        invariant socket.Some? <==> i > 0
      {
        ghost var before := Flatten(rounds[..i]);
        var sleep := Round();
        TickDelivered(Run(INITIAL, before));
        RunSnoc(INITIAL, before, Tick);
        PassLoop(before + [Tick], rounds[i]);
        FlattenStep(rounds, i);
        i := i + 1;
      }
      assert rounds[..|rounds|] == rounds;
      RunEnded(Flatten(rounds));
      hadSocket := Finish();
    }

    /** One pass of the event loop. */
    method PassLoop(ghost before: seq<Event>, es: seq<Event>)
      requires Valid() && View() == Run(INITIAL, before) && Callbacks(es)
      modifies this, generator
      ensures Valid() && View() == Run(INITIAL, before + es) && socket == old(socket)
    {
      hide Invariant, Run, Apply, Deliver, Enabled, View;
      var j := 0;
      assert before + es[..0] == before;
      while j < |es|
        invariant 0 <= j <= |es| && Valid() && View() == Run(INITIAL, before + es[..j]) && socket == old(socket)
      {
        DeliverCallback(es[j]);
        RunSnoc(INITIAL, before + es[..j], es[j]);
        assert before + es[..j] + [es[j]] == before + es[..j + 1];
        j := j + 1;
      }
      assert before + es[..|es|] == before + es;
    }

    lemma NoSocket()
      requires View() == INITIAL
      ensures socket.None?
    {
    }
  }

  lemma TickStep(s: State)
    ensures Enabled(s, Tick)
    ensures s.status != DISCONNECTED ==> Apply(s, Tick) == s
    ensures s.status == DISCONNECTED ==>
      Apply(s, Tick) == s.(status := CONNECTING, socket := Some(s.sockets), sockets := s.sockets + 1,
        closed := s.closed + Release(s.socket), connects := s.connects + [s.status], pending := s.pending + 1)
  {
  }

  lemma TickDelivered(s: State)
    ensures Deliver(s, Tick) == Apply(s, Tick)
  {
  }

  lemma FlattenStep(rounds: seq<seq<Event>>, i: nat)
    requires i <= |rounds|
    ensures i < |rounds| ==> Flatten(rounds[..i + 1]) == Flatten(rounds[..i]) + [Tick] + rounds[i]
    ensures Flatten(rounds[..0]) == []
  {
    if i < |rounds| {
      assert rounds[..i + 1][..i] == rounds[..i];
    }
  }
}
