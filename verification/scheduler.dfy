// The round-robin scheduler: what one decision does to the thread table, what every entry
// point keeps, and how long a ready thread can wait.

module SchedulerSpec {
  import opened Paging

  const MAX_THREADS: nat := 64
  const TIME_SLICE: nat := 5
  const STACK_SIZE: nat := 16384

  datatype State = Unused | Ready | Running | Sleeping | Terminated

  // A control block without its saved stack pointer, which the switch stores into: that is a
  // word of the machine's memory.
  datatype Thread = Thread(tid: nat, state: State, stackBase: nat, sleepUntil: nat, slice: nat)

  type Table = t: seq<Thread> | |t| == MAX_THREADS
    witness seq(MAX_THREADS, _ => Thread(0, Unused, 0, 0, 0))

  datatype Sched = Sched(threads: Table, current: nat, nextTid: nat, ticks: nat)

  function Woken(t: Thread, ticks: nat): Thread {
    if t.state == Sleeping && ticks >= t.sleepUntil then t.(state := Ready) else t
  }

  function Wake(threads: Table, ticks: nat): (r: Table)
    ensures forall i :: 0 <= i < MAX_THREADS ==> r[i] == Woken(threads[i], ticks)
  {
    seq(MAX_THREADS, i requires 0 <= i < MAX_THREADS => Woken(threads[i], ticks))
  }

  // Steps forward round the table from slot `from` to slot `to`, a full turn being 64.
  function Distance(from: nat, to: nat): (d: nat)
    requires from < MAX_THREADS && to < MAX_THREADS
    ensures 1 <= d <= MAX_THREADS && (from + d) % MAX_THREADS == to
  {
    if to > from then to - from else to + MAX_THREADS - from
  }

  // The slot of the first ready thread after `current` in cyclic order, or 64.
  function NextReady(threads: Table, current: nat, i: nat): (r: nat)
    requires current < MAX_THREADS && 1 <= i
    ensures r <= MAX_THREADS
    decreases MAX_THREADS + 1 - i
  {
    if i > MAX_THREADS then MAX_THREADS
    else if threads[(current + i) % MAX_THREADS].state == Ready then (current + i) % MAX_THREADS
    else NextReady(threads, current, i + 1)
  }

  function Dispatch(t: Thread): Thread {
    t.(state := Running, slice := TIME_SLICE)
  }

  // Hands the processor from the current thread to another one.
  function SwitchTo(s: Sched, next: nat): Sched
    requires s.current < MAX_THREADS && next < MAX_THREADS
  {
    var prev := s.threads[s.current];
    var put := if next != s.current && prev.state == Running then prev.(state := Ready) else prev;
    var threads := s.threads[s.current := put];
    s.(threads := threads[next := Dispatch(threads[next])], current := next)
  }

  // One scheduling decision. With nothing ready, a running thread goes on, a sleeping one
  // waits out its deadline, and otherwise slot 0 is taken whatever its state.
  function Schedule(s: Sched): Sched
    requires s.current < MAX_THREADS
  {
    var w := s.(threads := Wake(s.threads, s.ticks));
    var next := NextReady(w.threads, w.current, 1);
    if next < MAX_THREADS then SwitchTo(w, next) else Idle(w)
  }

  function Idle(w: Sched): Sched
    requires w.current < MAX_THREADS
  {
    var prev := w.threads[w.current];
    if prev.state == Running || prev.state == Ready then SwitchTo(w, w.current)
    else if prev.state == Sleeping then
      SwitchTo(w.(ticks := if w.ticks < prev.sleepUntil then prev.sleepUntil else w.ticks), w.current)
    else SwitchTo(w, 0)
  }

  // Milliseconds to ticks at 100 Hz, in 64-bit arithmetic, never less than one tick.
  function SleepTicks(ms: nat): (n: nat)
    ensures n >= 1
  {
    var t := ms * 100 % TWO64 / 1000;
    if t == 0 then 1 else t
  }

  datatype Event = Tick | Yield | Sleep(ms: nat) | Exit | Create(stack: nat)

  function FreeSlot(threads: Table, i: nat): (r: nat)
    requires 1 <= i <= MAX_THREADS
    ensures i <= r <= MAX_THREADS
    ensures r < MAX_THREADS ==> threads[r].state == Unused || threads[r].state == Terminated
    ensures forall j :: i <= j < r ==> !(threads[j].state == Unused || threads[j].state == Terminated)
    decreases MAX_THREADS - i
  {
    if i == MAX_THREADS || threads[i].state == Unused || threads[i].state == Terminated then i
    else FreeSlot(threads, i + 1)
  }

  // A new thread's control block; with no stack the slot is left unused.
  function NewThread(tid: nat, stack: nat): Thread {
    if stack == 0 then Thread(tid, Unused, 0, 0, 0)
    else Thread(tid, Ready, stack, 0, TIME_SLICE)
  }

  function SetCurrent(s: Sched, t: Thread): Sched
    requires s.current < MAX_THREADS
  {
    s.(threads := s.threads[s.current := t])
  }

  // What the entry points do before a decision.
  function Ticked(s: Sched): Sched
    requires s.current < MAX_THREADS
  {
    var t := s.threads[s.current];
    SetCurrent(s.(ticks := s.ticks + 1), t.(slice := if t.slice > 0 then t.slice - 1 else 0))
  }

  function Drowsy(s: Sched, ms: nat): Sched
    requires s.current < MAX_THREADS
  {
    SetCurrent(s, s.threads[s.current].(sleepUntil := (s.ticks + SleepTicks(ms)) % TWO64, state := Sleeping))
  }

  function Dead(s: Sched): Sched
    requires s.current < MAX_THREADS
  {
    SetCurrent(s, s.threads[s.current].(state := Terminated))
  }

  function Created(s: Sched, stack: nat): Sched {
    var slot := FreeSlot(s.threads, 1);
    if slot == MAX_THREADS then s
    else s.(threads := s.threads[slot := NewThread(s.nextTid, stack)], nextTid := s.nextTid + 1)
  }

  // Whether an event makes a scheduling decision.
  predicate Decides(s: Sched, e: Event)
    requires s.current < MAX_THREADS
  {
    e.Yield? || e.Sleep? || e.Exit? || (e.Tick? && s.threads[s.current].slice <= 1)
  }

  // What each entry point does.
  function Step(s: Sched, e: Event): Sched
    requires s.current < MAX_THREADS
  {
    match e
    case Tick => if Ticked(s).threads[s.current].slice == 0 then Schedule(Ticked(s)) else Ticked(s)
    case Yield => Schedule(s)
    case Sleep(ms) => Schedule(Drowsy(s, ms))
    case Exit => Schedule(Dead(s))
    case Create(stack) => Created(s, stack)
  }

  // Exactly one thread is running: the current one, with a slice of 1 to 5 ticks left.
  ghost predicate Inv(s: Sched) {
    && s.current < MAX_THREADS
    && (forall i :: 0 <= i < MAX_THREADS ==> (s.threads[i].state == Running <==> i == s.current))
    && 1 <= s.threads[s.current].slice <= TIME_SLICE
  }

  // The table on entry to a decision: nobody but the current thread can be running.
  ghost predicate Entry(s: Sched) {
    s.current < MAX_THREADS && forall i :: 0 <= i < MAX_THREADS && s.threads[i].state == Running ==> i == s.current
  }

  lemma SlotAt(current: nat, i: nat, t: nat)
    requires current < MAX_THREADS && 1 <= i <= MAX_THREADS && t < MAX_THREADS
    ensures Distance(current, t) == i <==> t == (current + i) % MAX_THREADS
  {
  }

  // r is the ready slot nearest after `current` among those at distance i or more, or 64.
  ghost predicate Nearest(threads: Table, current: nat, i: nat, r: nat)
    requires current < MAX_THREADS
  {
    && r <= MAX_THREADS && (r < MAX_THREADS ==> threads[r].state == Ready && i <= Distance(current, r))
    && forall t :: 0 <= t < MAX_THREADS && threads[t].state == Ready && i <= Distance(current, t) ==>
         r < MAX_THREADS && Distance(current, r) <= Distance(current, t)
  }

  lemma {:induction false} NextReadyIs(threads: Table, current: nat, i: nat)
    requires current < MAX_THREADS && 1 <= i <= MAX_THREADS + 1
    ensures Nearest(threads, current, i, NextReady(threads, current, i))
    decreases MAX_THREADS + 1 - i
  {
    if i <= MAX_THREADS {
      var j := (current + i) % MAX_THREADS;
      SlotAt(current, i, j);
      if threads[j].state != Ready {
        NextReadyIs(threads, current, i + 1);
        forall t | 0 <= t < MAX_THREADS && threads[t].state == Ready && i <= Distance(current, t)
          ensures i + 1 <= Distance(current, t)
        {
          SlotAt(current, i, t);
        }
      }
    }
  }

  // Whatever the state of the table, a decision ends with one thread running, the current one.
  lemma ScheduleKeeps(s: Sched)
    requires Entry(s)
    ensures Inv(Schedule(s)) && s.ticks <= Schedule(s).ticks
  {
    NextReadyIs(Wake(s.threads, s.ticks), s.current, 1);
  }

  lemma CreateKeeps(s: Sched, stack: nat)
    requires Inv(s)
    ensures Inv(Created(s, stack))
  {
    var slot := FreeSlot(s.threads, 1);
    if slot < MAX_THREADS {
      assert slot != s.current;
    }
  }

  lemma StepKeeps(s: Sched, e: Event)
    requires Inv(s)
    ensures Inv(Step(s, e))
  {
    match e
    case Tick => if Ticked(s).threads[s.current].slice == 0 { ScheduleKeeps(Ticked(s)); }
    case Yield => ScheduleKeeps(s);
    case Sleep(ms) => ScheduleKeeps(Drowsy(s, ms));
    case Exit => ScheduleKeeps(Dead(s));
    case Create(stack) => CreateKeeps(s, stack);
  }

  // The states of a run.
  ghost predicate IsRun(trace: seq<Sched>, es: seq<Event>) {
    && |trace| == |es| + 1
    && forall k :: 0 <= k < |es| ==> trace[k].current < MAX_THREADS && trace[k + 1] == Step(trace[k], es[k])
  }

  // Over every run, exactly one thread is running after every event: the current one.
  lemma {:induction false} RunKeeps(trace: seq<Sched>, es: seq<Event>, k: nat)
    requires IsRun(trace, es) && Inv(trace[0]) && k <= |es|
    ensures Inv(trace[k])
  {
    if k > 0 {
      RunKeeps(trace, es, k - 1);
      StepKeeps(trace[k - 1], es[k - 1]);
    }
  }

  // A sleeper leaves that state only once its deadline has come; the one exception is slot 0
  // taken as a last resort.
  lemma SleepHonoured(s: Sched, t: nat)
    requires Entry(s) && t < MAX_THREADS && s.threads[t].state == Sleeping
    ensures Schedule(s).threads[t].state == Sleeping || Schedule(s).ticks >= s.threads[t].sleepUntil || LastResort(s, t)
  {
    NextReadyIs(Wake(s.threads, s.ticks), s.current, 1);
  }

  ghost predicate LastResort(s: Sched, t: nat)
    requires s.current < MAX_THREADS
  {
    && t == 0 && s.current != 0
    && (s.threads[s.current].state == Terminated || s.threads[s.current].state == Unused)
    && forall i :: 0 <= i < MAX_THREADS ==> Woken(s.threads[i], s.ticks).state != Ready
  }

  // So it is at every entry point: only a thread's exit can hand slot 0 the processor while it
  // is asleep.
  lemma StepHonoursSleep(s: Sched, e: Event, t: nat)
    requires Inv(s) && t < MAX_THREADS && s.threads[t].state == Sleeping
    ensures Step(s, e).threads[t].state == Sleeping || Step(s, e).ticks >= s.threads[t].sleepUntil
         || (e == Exit && LastResort(Dead(s), t))
  {
    match e
    case Tick => if Ticked(s).threads[s.current].slice == 0 { SleepHonoured(Ticked(s), t); }
    case Yield => SleepHonoured(s, t);
    case Sleep(ms) => SleepHonoured(Drowsy(s, ms), t);
    case Exit => SleepHonoured(Dead(s), t);
    case Create(stack) =>
  }

  // A sleeper whose deadline has come is ready or running after the next decision.
  lemma SleeperWakes(s: Sched, t: nat)
    requires Entry(s) && t < MAX_THREADS && s.threads[t].state == Sleeping && s.ticks >= s.threads[t].sleepUntil
    ensures Schedule(s).threads[t].state == Ready || Schedule(s).threads[t].state == Running
  {
    NextReadyIs(Wake(s.threads, s.ticks), s.current, 1);
  }

  // A decision runs the current thread or a ready one, save for slot 0 as a last resort: the
  // exact case in which a thread that is asleep, terminated or unused is given the processor.
  lemma LastResortIff(s: Sched)
    requires Entry(s)
    ensures var next := Schedule(s).current;
      next != s.current && Woken(s.threads[next], s.ticks).state != Ready <==> LastResort(s, 0)
  {
    NextReadyIs(Wake(s.threads, s.ticks), s.current, 1);
  }

  // Ticks a ready thread t can still wait: full slices for the slots before it in cyclic
  // order, and what is left of the current one.
  function Wait(s: Sched, t: nat): int
    requires s.current < MAX_THREADS && t < MAX_THREADS
  {
    TIME_SLICE * (Distance(s.current, t) - 1) + s.threads[s.current].slice
  }

  // After a decision a ready thread runs, or is still ready and strictly nearer its turn.
  ghost predicate Nearer(s: Sched, s': Sched, t: nat, steps: nat)
    requires s.current < MAX_THREADS && s'.current < MAX_THREADS && t < MAX_THREADS
  {
    s'.current == t || (s'.threads[t].state == Ready && Distance(s'.current, t) <= Distance(s.current, t) - steps)
  }

  lemma ScheduleNearer(s: Sched, t: nat)
    requires Entry(s) && t < MAX_THREADS && t != s.current && s.threads[t].state == Ready
    ensures Schedule(s).current < MAX_THREADS && Nearer(s, Schedule(s), t, 1)
    ensures Schedule(s).threads[Schedule(s).current].slice == TIME_SLICE
  {
    var w := Wake(s.threads, s.ticks);
    NextReadyIs(w, s.current, 1);
    assert w[t].state == Ready;
    var next := NextReady(w, s.current, 1);
    DistanceStep(s.current, next, t);
  }

  lemma DistanceStep(from: nat, next: nat, to: nat)
    requires from < MAX_THREADS && next < MAX_THREADS && to < MAX_THREADS && to != from
    requires Distance(from, next) <= Distance(from, to)
    ensures next != from && (next == to || Distance(next, to) == Distance(from, to) - Distance(from, next))
  {
  }

  // One event: a waiting ready thread runs, or stays ready, no further from its turn; a
  // decision brings it strictly nearer, and a tick uses up some of its wait.
  lemma StepNearer(s: Sched, e: Event, t: nat)
    requires Inv(s) && t < MAX_THREADS && t != s.current && s.threads[t].state == Ready
    ensures Step(s, e).current < MAX_THREADS
    ensures Nearer(s, Step(s, e), t, if Decides(s, e) then 1 else 0)
    ensures Step(s, e).current == t || Wait(Step(s, e), t) <= Wait(s, t) - (if e.Tick? then 1 else 0)
  {
    match e
    case Tick => TickNearer(s, t);
    case Yield => ScheduleNearer(s, t);
    case Sleep(ms) => ScheduleNearer(Drowsy(s, ms), t);
    case Exit => ScheduleNearer(Dead(s), t);
    case Create(stack) => CreateNearer(s, stack, t);
  }

  lemma TickNearer(s: Sched, t: nat)
    requires Inv(s) && t < MAX_THREADS && t != s.current && s.threads[t].state == Ready
    ensures var s' := Step(s, Tick);
      s'.current < MAX_THREADS && Nearer(s, s', t, if Decides(s, Tick) then 1 else 0)
      && (s'.current == t || Wait(s', t) <= Wait(s, t) - 1)
  {
    if s.threads[s.current].slice == 1 { ScheduleNearer(Ticked(s), t); }
  }

  lemma CreateNearer(s: Sched, stack: nat, t: nat)
    requires Inv(s) && t < MAX_THREADS && s.threads[t].state == Ready
    ensures var s' := Created(s, stack);
      s'.current == s.current && s'.threads[t] == s.threads[t] && s'.threads[s.current] == s.threads[s.current]
  {
  }

  function Ticks(es: seq<Event>): nat {
    if es == [] then 0 else Ticks(es[..|es| - 1]) + (if es[|es| - 1].Tick? then 1 else 0)
  }

  // The decisions made in the first k events of a run.
  function Decisions(trace: seq<Sched>, es: seq<Event>, k: nat): nat
    requires k <= |es| && |trace| == |es| + 1
    requires forall j :: 0 <= j < |es| ==> trace[j].current < MAX_THREADS
  {
    if k == 0 then 0 else Decisions(trace, es, k - 1) + (if Decides(trace[k - 1], es[k - 1]) then 1 else 0)
  }

  // t has had the processor at none of the first k + 1 states.
  ghost predicate NotRunYet(trace: seq<Sched>, k: nat, t: nat)
    requires k < |trace|
  {
    forall j :: 0 <= j <= k ==> trace[j].current != t
  }

  // As long as a ready thread has not run, every decision and every tick has counted.
  lemma {:induction false} WaitShrinks(trace: seq<Sched>, es: seq<Event>, t: nat, k: nat)
    requires IsRun(trace, es) && Inv(trace[0]) && k <= |es|
    requires t < MAX_THREADS && trace[0].threads[t].state == Ready && NotRunYet(trace, k, t)
    ensures trace[k].current < MAX_THREADS && trace[k].threads[t].state == Ready
    ensures Distance(trace[k].current, t) <= Distance(trace[0].current, t) - Decisions(trace, es, k)
    ensures Wait(trace[k], t) <= Wait(trace[0], t) - Ticks(es[..k])
  {
    if k > 0 {
      WaitShrinks(trace, es, t, k - 1);
      RunKeeps(trace, es, k - 1);
      assert trace[k - 1].current != t && trace[k].current != t;
      StepNearer(trace[k - 1], es[k - 1], t);
      assert es[..k][..k - 1] == es[..k - 1];
    }
  }

  // Bounded waiting: over any run, a ready thread runs within its distance in decisions, so
  // within 63, and within 315 delivered ticks, whatever else happens meanwhile.
  lemma BoundedWaiting(trace: seq<Sched>, es: seq<Event>, t: nat)
    requires IsRun(trace, es) && Inv(trace[0]) && t < MAX_THREADS && trace[0].threads[t].state == Ready
    ensures Decisions(trace, es, |es|) >= Distance(trace[0].current, t) ==> !NotRunYet(trace, |es|, t)
    ensures Ticks(es) >= 315 || Decisions(trace, es, |es|) >= 63 ==> !NotRunYet(trace, |es|, t)
  {
    if NotRunYet(trace, |es|, t) {
      WaitShrinks(trace, es, t, |es|);
      RunKeeps(trace, es, |es|);
      assert es[..|es|] == es;
      assert trace[0].current != t && trace[|es|].current != t;
    }
  }
}

module Scheduler {
  import opened Options
  import opened Paging
  import opened SchedulerSpec

  // The pair of slots handed to the assembly context switch.
  datatype Switch = Switch(prev: nat, next: nat)

  class Scheduler {
    const threads: array<Thread>
    var current: nat
    var nextTid: nat
    var ticks: nat

    ghost predicate Valid()
      reads this
    {
      threads.Length == MAX_THREADS && current < MAX_THREADS
    }

    ghost function Now(): Sched
      reads this, threads
      requires Valid()
    {
      Sched(threads[..], current, nextTid, ticks)
    }

    // Slot 0 is the bootstrap thread, already running.
    constructor ()
      ensures Valid() && fresh(threads) && Inv(Now()) && current == 0 && nextTid == 1 && ticks == 0
      ensures threads[0] == Thread(0, Running, 0, 0, 5) && forall i :: 1 <= i < 64 ==> threads[i] == Thread(0, Unused, 0, 0, 0)
    {
      threads := new Thread[MAX_THREADS](_ => Thread(0, Unused, 0, 0, 0));
      current, nextTid, ticks := 0, 1, 0;
      new;
      threads[0] := Thread(0, Running, 0, 0, TIME_SLICE);
    }

    method WakeSleepers()
      requires Valid()
      modifies threads
      ensures threads[..] == Wake(old(threads[..]), ticks)
    {
      for i := 0 to MAX_THREADS
        invariant forall j :: 0 <= j < i ==> threads[j] == Woken(old(threads[j]), ticks)
        invariant forall j :: i <= j < MAX_THREADS ==> threads[j] == old(threads[j])
      {
        if threads[i].state == Sleeping && ticks >= threads[i].sleepUntil {
          threads[i] := threads[i].(state := Ready);
        }
      }
    }

    method FindReady() returns (next: nat)
      requires Valid()
      ensures next == NextReady(threads[..], current, 1)
    {
      var i := 1;
      while i <= MAX_THREADS
        invariant 1 <= i <= MAX_THREADS + 1
        invariant NextReady(threads[..], current, 1) == NextReady(threads[..], current, i)
      {
        var idx := (current + i) % MAX_THREADS;
        if threads[idx].state == Ready { return idx; }
        i := i + 1;
      }
      return MAX_THREADS;
    }

    // One scheduling decision; the result says which contexts to switch, if any.
    method Schedule() returns (sw: Option<Switch>)
      requires Valid()
      modifies this`current, this`ticks, threads
      ensures Valid() && Now() == SchedulerSpec.Schedule(old(Now()))
      ensures sw == if current == old(current) then None else Some(Switch(old(current), current))
    {
      WakeSleepers();
      ghost var w := Now();
      assert w == old(Now()).(threads := Wake(old(Now()).threads, old(Now()).ticks));
      var next := FindReady();
      if next == MAX_THREADS {
        sw := NothingReady();
      } else {
        sw := HandOver(next);
      }
    }

    method NothingReady() returns (sw: Option<Switch>)
      requires Valid()
      modifies this`current, this`ticks, threads
      ensures Valid() && Now() == Idle(old(Now()))
      ensures sw == if current == old(current) then None else Some(Switch(old(current), current))
    {
      var prev := threads[current];
      if prev.state == Running || prev.state == Ready {
        sw := HandOver(current);
        return;
      }
      if prev.state == Sleeping {
        WaitUntil(prev.sleepUntil);
        sw := HandOver(current);
        return;
      }
      sw := HandOver(0);
    }

    method HandOver(next: nat) returns (sw: Option<Switch>)
      requires Valid() && next < MAX_THREADS
      modifies this`current, threads
      ensures Valid() && Now() == SwitchTo(old(Now()), next)
      ensures sw == if current == old(current) then None else Some(Switch(old(current), current))
    {
      var prev := current;
      if next == prev {
        threads[next] := threads[next].(state := Running, slice := TIME_SLICE);
        return None;
      }
      if threads[prev].state == Running {
        threads[prev] := threads[prev].(state := Ready);
      }
      threads[next] := threads[next].(state := Running, slice := TIME_SLICE);
      current := next;
      return Some(Switch(prev, next));
    }

    // Halting until the timer reaches the deadline.
    method WaitUntil(deadline: nat)
      modifies this`ticks
      ensures ticks == if old(ticks) < deadline then deadline else old(ticks)
    {
      while ticks < deadline
        invariant old(ticks) <= ticks && (ticks <= deadline || ticks == old(ticks))
      {
        ticks := ticks + 1;
      }
    }

    method Yield() returns (sw: Option<Switch>)
      requires Valid()
      modifies this`current, this`ticks, threads
      ensures Valid() && Now() == Step(old(Now()), Event.Yield)
    {
      sw := Schedule();
    }

    method ThreadSleep(ms: nat) returns (sw: Option<Switch>)
      requires Valid()
      modifies this`current, this`ticks, threads
      ensures Valid() && Now() == Step(old(Now()), Sleep(ms))
    {
      var n := ms * 100 % TWO64 / 1000;
      if n == 0 { n := 1; }
      threads[current] := threads[current].(sleepUntil := (ticks + n) % TWO64);
      threads[current] := threads[current].(state := Sleeping);
      assert Now() == Drowsy(old(Now()), ms);
      sw := Schedule();
    }

    method ThreadExit() returns (sw: Option<Switch>)
      requires Valid()
      modifies this`current, this`ticks, threads
      ensures Valid() && Now() == Step(old(Now()), Exit)
    {
      threads[current] := threads[current].(state := Terminated);
      assert Now() == Dead(old(Now()));
      sw := Schedule();
    }

    // The timer interrupt: a tick, then preemption when the slice is used up.
    method TimerTick() returns (sw: Option<Switch>)
      requires Valid()
      modifies this`current, this`ticks, threads
      ensures Valid() && Now() == Step(old(Now()), Tick)
    {
      ticks := ticks + 1;
      if threads[current].slice > 0 {
        threads[current] := threads[current].(slice := threads[current].slice - 1);
      }
      assert Now() == Ticked(old(Now()));
      sw := None;
      if threads[current].slice == 0 {
        sw := Schedule();
      }
    }

    method FindFree() returns (i: nat)
      requires Valid()
      ensures i == FreeSlot(threads[..], 1)
    {
      i := 1;
      while i < MAX_THREADS && !(threads[i].state == Unused || threads[i].state == Terminated)
        invariant 1 <= i <= MAX_THREADS && FreeSlot(threads[..], 1) == FreeSlot(threads[..], i)
      {
        i := i + 1;
      }
    }

    // `stack` is what the heap returned for the stack, 0 for none; the result is the slot.
    method ThreadCreate(stack: nat) returns (slot: Option<nat>)
      requires Valid() && (stack == 0 || stack + STACK_SIZE < TWO64)
      modifies this`nextTid, threads
      ensures Valid() && Now() == Step(old(Now()), Create(stack))
      ensures slot.Some? <==> stack != 0 && FreeSlot(old(threads[..]), 1) < MAX_THREADS
      ensures slot.Some? ==> slot.value == FreeSlot(old(threads[..]), 1)
    {
      var i := FindFree();
      if i == MAX_THREADS { return None; }
      FillSlot(i, stack);
      nextTid := nextTid + 1;
      return if stack == 0 then None else Some(i);
    }

    // The control block is cleared, numbered, and given its stack if there is one.
    method FillSlot(i: nat, stack: nat)
      requires Valid() && i < MAX_THREADS
      modifies threads
      ensures threads[..] == old(threads[..])[i := NewThread(nextTid, stack)]
    {
      threads[i] := Thread(0, Unused, 0, 0, 0);
      threads[i] := threads[i].(tid := nextTid);
      if stack != 0 {
        threads[i] := threads[i].(stackBase := stack);
        threads[i] := threads[i].(state := Ready, slice := TIME_SLICE);
      }
      assert forall k :: 0 <= k < MAX_THREADS && k != i ==> threads[k] == old(threads[k]);
    }
  }
}
