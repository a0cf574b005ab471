// The scheduler's table and the machine in one state: every decision's context switch, and
// what a thread finds, and how soon, when it gets the processor back.

module Threads {
  import Sched = SchedulerSpec
  import Records = SchedulerRecords
  import opened ContextSwitch

  // The saved stack pointer of slot t is the machine word places[t].slot.
  datatype Kernel = Kernel(sched: Sched.Sched, m: Machine, places: seq<Place>)

  function SysOf(k: Kernel): Sys {
    Sys(k.m, k.sched.current, k.places)
  }

  // One event: the running thread computes up to machine state w, and then an entry point of
  // the scheduler is called, thread_create with the given entry point and argument.
  datatype Turn = Turn(event: Sched.Event, w: Machine, entry: nat, arg: nat, trampoline: nat)

  // The slot that a creation fills; 64 if there is none, or no stack.
  function NewSlot(s: Sched.Sched, e: Sched.Event): nat {
    if e.Create? && e.stack != 0 then Sched.FreeSlot(s.threads, 1) else Sched.MAX_THREADS
  }

  // What the machine does after the work: it switches exactly if the current slot changes.
  function StepOf(k: Kernel, turn: Turn): Step
    requires k.sched.current < Sched.MAX_THREADS
  {
    var next, slot := Sched.Step(k.sched, turn.event).current, NewSlot(k.sched, turn.event);
    if slot < Sched.MAX_THREADS then Create(slot, turn.event.stack, turn.entry, turn.arg, turn.trampoline)
    else if next != k.sched.current then SwitchTo(next)
    else Work
  }

  ghost predicate Next(k: Kernel, turn: Turn, k': Kernel) {
    && k.sched.current < Sched.MAX_THREADS && |k.places| == Sched.MAX_THREADS
    && k'.sched == Sched.Step(k.sched, turn.event)
    && ContextSwitch.Next(SysOf(k), Work, SysOf(k.(m := turn.w)))
    && ContextSwitch.Next(SysOf(k.(m := turn.w)), StepOf(k, turn), SysOf(k'))
  }

  ghost predicate IsRun(ks: seq<Kernel>, turns: seq<Turn>) {
    |ks| == |turns| + 1 && forall i {:trigger TurnOk(ks, turns, i)} :: 0 <= i < |turns| ==> TurnOk(ks, turns, i)
  }

  ghost predicate TurnOk(ks: seq<Kernel>, turns: seq<Turn>, i: nat)
    requires |ks| == |turns| + 1 && i < |turns|
  {
    Next(ks[i], turns[i], ks[i + 1])
  }

  // Off the processor with something to go on with.
  predicate Alive(s: Sched.Sched, t: nat)
    requires t < Sched.MAX_THREADS
  {
    s.threads[t].state == Sched.Ready || s.threads[t].state == Sched.Sleeping
  }

  // A thread stays alive until it gets the processor, and its slot is not given away.
  lemma AliveStays(s: Sched.Sched, e: Sched.Event, t: nat)
    requires Sched.Inv(s) && t < Sched.MAX_THREADS && Alive(s, t)
    ensures NewSlot(s, e) != t
    ensures Sched.Step(s, e).current == t || Alive(Sched.Step(s, e), t)
  {
    match e
    case Tick => if Sched.Ticked(s).threads[s.current].slice == 0 { ScheduleAlive(Sched.Ticked(s), t); }
    case Yield => ScheduleAlive(s, t);
    case Sleep(ms) => ScheduleAlive(Sched.Drowsy(s, ms), t);
    case Exit => ScheduleAlive(Sched.Dead(s), t);
    case Create(stack) =>
  }

  lemma ScheduleAlive(s: Sched.Sched, t: nat)
    requires Sched.Entry(s) && t < Sched.MAX_THREADS && t != s.current && Alive(s, t)
    ensures Sched.Schedule(s).current == t || Alive(Sched.Schedule(s), t)
  {
  }

  // t is alive and off the processor with context c, in a sound table.
  ghost predicate Waits(k: Kernel, t: nat, c: Context) {
    && Sched.Inv(k.sched) && |k.places| == Sched.MAX_THREADS && t < Sched.MAX_THREADS
    && Alive(k.sched, t) && Suspended(SysOf(k), t, c)
  }

  // One turn: a waiting thread goes on waiting with its context, or it gets the processor
  // and finds exactly that.
  lemma TurnLeaves(k: Kernel, turn: Turn, k': Kernel, t: nat, c: Context)
    requires Waits(k, t, c)
    ensures Next(k, turn, k') ==> if k'.sched.current == t then Registers(k'.m) == c else Waits(k', t, c)
  {
    if Next(k, turn, k') {
      var w, step := SysOf(k.(m := turn.w)), StepOf(k, turn);
      AliveStays(k.sched, turn.event, t);
      Sched.StepKeeps(k.sched, turn.event);
      WorkLeaves(SysOf(k), w, t, c);
      if step == SwitchTo(t) {
        SwitchResumes(w, SysOf(k'), t, c);
      } else {
        StepLeaves(w, SysOf(k'), step, t, c);
      }
    }
  }

  // A thread switched away from waits with what its call of context_switch is to return with.
  lemma LeavingWaits(k: Kernel, turn: Turn, k': Kernel)
    requires Sched.Inv(k.sched) && k'.sched.current != k.sched.current
    ensures Next(k, turn, k') && Alive(k'.sched, k.sched.current) ==> Waits(k', k.sched.current, Expected(turn.w))
  {
    if Next(k, turn, k') {
      Sched.StepKeeps(k.sched, turn.event);
      SwitchSuspends(SysOf(k.(m := turn.w)), SysOf(k'), k'.sched.current);
    }
  }

  // Nobody but an exiting thread leaves the processor for good: after a tick or a yield it is
  // ready, after a sleep asleep or already woken.
  lemma LeavingLives(s: Sched.Sched, e: Sched.Event)
    requires Sched.Inv(s) && Sched.Step(s, e).current != s.current && !e.Exit?
    ensures Alive(Sched.Step(s, e), s.current)
    ensures e.Tick? || e.Yield? ==> Sched.Step(s, e).threads[s.current].state == Sched.Ready
  {
    match e
    case Tick => Records.TickRecord(s);
    case Yield => Records.YieldRecord(s);
    case Sleep(ms) => Records.SleepRecord(s, ms);
    case Create(stack) =>
  }

  // A thread preempted by a tick, or yielding, waits, ready, with what its call of
  // context_switch is to return with; one that went to sleep waits too.
  lemma PreemptedWaits(k: Kernel, turn: Turn, k': Kernel)
    requires Sched.Inv(k.sched) && k'.sched.current != k.sched.current && !turn.event.Exit?
    ensures Next(k, turn, k') ==>
              && Waits(k', k.sched.current, Expected(turn.w))
              && (turn.event.Tick? || turn.event.Yield? ==> k'.sched.threads[k.sched.current].state == Sched.Ready)
  {
    if Next(k, turn, k') {
      LeavingLives(k.sched, turn.event);
      LeavingWaits(k, turn, k');
    }
  }

  // A new thread waits, ready, with its entry point and argument.
  lemma CreatedWaits(k: Kernel, turn: Turn, k': Kernel)
    requires Next(k, turn, k') && Sched.Inv(k.sched) && NewSlot(k.sched, turn.event) < Sched.MAX_THREADS
    ensures var t := NewSlot(k.sched, turn.event);
      k'.sched.threads[t].state == Sched.Ready
      && Waits(k', t, Fresh(turn.event.stack, turn.entry, turn.arg, turn.trampoline))
  {
    Sched.StepKeeps(k.sched, turn.event);
    CreateSuspends(SysOf(k.(m := turn.w)), SysOf(k'), StepOf(k, turn));
  }

  function Trace(ks: seq<Kernel>): (r: seq<Sched.Sched>)
    ensures |r| == |ks| && forall i :: 0 <= i < |ks| ==> r[i] == ks[i].sched
  {
    seq(|ks|, i requires 0 <= i < |ks| => ks[i].sched)
  }

  function Events(turns: seq<Turn>): (r: seq<Sched.Event>)
    ensures |r| == |turns| && forall i :: 0 <= i < |turns| ==> r[i] == turns[i].event
  {
    seq(|turns|, i requires 0 <= i < |turns| => turns[i].event)
  }

  // The table runs as the scheduler alone would.
  lemma TraceIsRun(ks: seq<Kernel>, turns: seq<Turn>)
    requires IsRun(ks, turns)
    ensures Sched.IsRun(Trace(ks), Events(turns))
  {
    forall i | 0 <= i < |turns|
      ensures Trace(ks)[i].current < Sched.MAX_THREADS && Trace(ks)[i + 1] == Sched.Step(Trace(ks)[i], Events(turns)[i])
    {
      assert TurnOk(ks, turns, i);
    }
  }

  // t has had the processor at none of the states up to the k-th.
  ghost predicate Waited(ks: seq<Kernel>, k: nat, t: nat)
    requires k < |ks|
  {
    forall i :: 0 <= i <= k ==> ks[i].sched.current != t
  }

  lemma TurnAt(ks: seq<Kernel>, turns: seq<Turn>, t: nat, c: Context, i: nat)
    requires IsRun(ks, turns) && i < |turns| && Waits(ks[i], t, c)
    ensures if ks[i + 1].sched.current == t then Registers(ks[i + 1].m) == c else Waits(ks[i + 1], t, c)
  {
    assert TurnOk(ks, turns, i);
    TurnLeaves(ks[i], turns[i], ks[i + 1], t, c);
  }

  lemma {:induction false} WaitsSuspended(ks: seq<Kernel>, turns: seq<Turn>, t: nat, c: Context, k: nat)
    requires IsRun(ks, turns) && k <= |turns| && Waits(ks[0], t, c) && Waited(ks, k, t)
    ensures Waits(ks[k], t, c)
  {
    if k > 0 {
      WaitsSuspended(ks, turns, t, c, k - 1);
      TurnAt(ks, turns, t, c, k - 1);
    }
  }

  // The first state after a wait finds the thread with the context it was suspended with.
  lemma FirstTurnResumes(ks: seq<Kernel>, turns: seq<Turn>, t: nat, c: Context, j: nat)
    requires IsRun(ks, turns) && 0 < j <= |turns| && Waits(ks[0], t, c)
    requires Waited(ks, j - 1, t) && ks[j].sched.current == t
    ensures Registers(ks[j].m) == c
  {
    WaitsSuspended(ks, turns, t, c, j - 1);
    TurnAt(ks, turns, t, c, j - 1);
  }

  // 315 ticks have been delivered, or 63 decisions made.
  ghost predicate LongEnough(ks: seq<Kernel>, turns: seq<Turn>) {
    Sched.IsRun(Trace(ks), Events(turns)) ==>
      Sched.Ticks(Events(turns)) >= 315 || Sched.Decisions(Trace(ks), Events(turns), |turns|) >= 63
  }

  // The state at which t first has the processor.
  function FirstAt(ks: seq<Kernel>, t: nat, i: nat): (j: nat)
    requires i <= |ks|
    ensures i <= j <= |ks| && (forall k :: i <= k < j ==> ks[k].sched.current != t)
    ensures j < |ks| ==> ks[j].sched.current == t
    decreases |ks| - i
  {
    if i == |ks| || ks[i].sched.current == t then i else FirstAt(ks, t, i + 1)
  }

  // A ready thread gets the processor back within 63 decisions and within 315 ticks, whatever
  // else runs, sleeps, exits or is created meanwhile, and then finds exactly the registers,
  // stack pointer and return address it was suspended with.
  lemma ReadyResumes(ks: seq<Kernel>, turns: seq<Turn>, t: nat, c: Context) returns (j: nat)
    requires IsRun(ks, turns) && Waits(ks[0], t, c) && ks[0].sched.threads[t].state == Sched.Ready
    requires LongEnough(ks, turns)
    ensures 0 < j <= |turns| && Waited(ks, j - 1, t) && ks[j].sched.current == t && Registers(ks[j].m) == c
  {
    j := FirstAt(ks, t, 0);
    TraceIsRun(ks, turns);
    Sched.BoundedWaiting(Trace(ks), Events(turns), t);
    FirstTurnResumes(ks, turns, t, c, j);
  }

  // So a thread that a tick or a yield takes the processor from gets it back within 63 more
  // decisions and within 315 more ticks, and goes on exactly where it was.
  lemma PreemptedResumes(ks: seq<Kernel>, turns: seq<Turn>) returns (j: nat)
    requires turns != [] && IsRun(ks, turns) && Sched.Inv(ks[0].sched) && (turns[0].event.Tick? || turns[0].event.Yield?)
    requires ks[1].sched.current != ks[0].sched.current && LongEnough(ks[1..], turns[1..])
    ensures 1 < j <= |turns| && ks[j].sched.current == ks[0].sched.current
    ensures forall i :: 0 < i < j ==> ks[i].sched.current != ks[0].sched.current
    ensures Registers(ks[j].m) == Expected(turns[0].w)
  {
    var t, ks', turns' := ks[0].sched.current, ks[1..], turns[1..];
    assert TurnOk(ks, turns, 0);
    PreemptedWaits(ks[0], turns[0], ks[1]);
    forall i | 0 <= i < |turns'| ensures TurnOk(ks', turns', i) {
      assert TurnOk(ks, turns, i + 1);
    }
    j := ReadyResumes(ks', turns', t, Expected(turns[0].w));
    j := j + 1;
    assert forall i :: 0 < i < j ==> ks[i] == ks'[i - 1];
  }

  // Some context is saved for t.
  ghost predicate Parked(k: Kernel, t: nat)
    requires t < |k.places|
  {
    Suspended(SysOf(k), t, FrameAt(k.m.mem, Load(k.m.mem, k.places[t].slot)))
  }

  // Every thread that may be given the processor, slot 0 as the last resort among them, has a
  // saved context.
  ghost predicate AllParked(k: Kernel)
    requires |k.places| == Sched.MAX_THREADS
  {
    forall t :: 0 <= t < Sched.MAX_THREADS && t != k.sched.current && (t == 0 || Alive(k.sched, t)) ==> Parked(k, t)
  }

  // A turn keeps that, so a switch always finds a context to resume.
  lemma TurnParks(k: Kernel, turn: Turn, k': Kernel)
    requires Next(k, turn, k') && Sched.Inv(k.sched) && AllParked(k)
    ensures |k'.places| == Sched.MAX_THREADS && AllParked(k')
  {
    Sched.StepKeeps(k.sched, turn.event);
    var w, step := SysOf(k.(m := turn.w)), StepOf(k, turn);
    forall t | 0 <= t < Sched.MAX_THREADS && t != k'.sched.current && (t == 0 || Alive(k'.sched, t)) ensures Parked(k', t) {
      if step.Create? && step.t == t {
        CreateSuspends(w, SysOf(k'), step);
      } else if t == k.sched.current {
        SwitchSuspends(w, SysOf(k'), step.next);
      } else {
        if t != 0 { AliveBefore(k.sched, turn.event, t); }
        assert Parked(k, t);
        var c := FrameAt(k.m.mem, Load(k.m.mem, k.places[t].slot));
        WorkLeaves(SysOf(k), w, t, c);
        StepLeaves(w, SysOf(k'), step, t, c);
      }
    }
  }

  // Only a creation makes a thread alive that was not.
  lemma AliveBefore(s: Sched.Sched, e: Sched.Event, t: nat)
    requires Sched.Inv(s) && t < Sched.MAX_THREADS && t != s.current && t != NewSlot(s, e)
    requires Sched.Step(s, e).current != t && Alive(Sched.Step(s, e), t)
    ensures Alive(s, t)
  {
    match e
    case Tick => if Sched.Ticked(s).threads[s.current].slice == 0 { ScheduleAliveBefore(Sched.Ticked(s), t); }
    case Yield => ScheduleAliveBefore(s, t);
    case Sleep(ms) => ScheduleAliveBefore(Sched.Drowsy(s, ms), t);
    case Exit => ScheduleAliveBefore(Sched.Dead(s), t);
    case Create(stack) =>
  }

  lemma ScheduleAliveBefore(s: Sched.Sched, t: nat)
    requires Sched.Entry(s) && t < Sched.MAX_THREADS && t != s.current
    ensures Alive(Sched.Schedule(s), t) && Sched.Schedule(s).current != t ==> Alive(s, t)
  {
  }

  ghost predicate Safe(k: Kernel) {
    Sched.Inv(k.sched) && |k.places| == Sched.MAX_THREADS && AllParked(k)
  }

  lemma TurnSafe(k: Kernel, turn: Turn, k': Kernel)
    requires Safe(k)
    ensures Next(k, turn, k') ==> Safe(k')
  {
    if Next(k, turn, k') {
      TurnParks(k, turn, k');
      Sched.StepKeeps(k.sched, turn.event);
    }
  }

  // Over every run.
  lemma {:induction false} RunParks(ks: seq<Kernel>, turns: seq<Turn>, k: nat)
    requires IsRun(ks, turns) && Safe(ks[0]) && k <= |turns|
    ensures Safe(ks[k])
  {
    if k > 0 {
      RunParks(ks, turns, k - 1);
      assert TurnOk(ks, turns, k - 1);
      TurnSafe(ks[k - 1], turns[k - 1], ks[k]);
    }
  }
}
