// What one decision, and each entry point of the scheduler, does to every slot of the table,
// in the source's own numbers.

module SchedulerRecords {
  import opened SchedulerSpec

  // A sleeper whose deadline has come, and everything else as it was.
  ghost predicate WokenOnly(t: Thread, t': Thread, ticks: nat) {
    if t.state == Sleeping && t.sleepUntil <= ticks then t' == t.(state := Ready) else t' == t
  }

  // The slot chosen runs, with five ticks; the thread that was running, if it is another, is
  // ready again; all other slots are changed by waking alone.
  lemma DecisionRecords(s: Sched, t: nat)
    requires Entry(s) && t < 64
    ensures var s' := Schedule(s);
      && s'.current < 64 && s'.nextTid == s.nextTid
      && if t == s'.current then s'.threads[t] == s.threads[t].(state := Running, slice := 5)
         else if t == s.current && s.threads[t].state == Running then s'.threads[t] == s.threads[t].(state := Ready)
         else WokenOnly(s.threads[t], s'.threads[t], s.ticks)
  {
    NextReadyIs(Wake(s.threads, s.ticks), s.current, 1);
  }

  // Someone else is ready, or becomes so at this tick.
  ghost predicate OthersReady(s: Sched) {
    exists t :: 0 <= t < 64 && (s.threads[t].state == Ready || (s.threads[t].state == Sleeping && s.threads[t].sleepUntil <= s.ticks))
  }

  // Time passes in a decision only while a lone sleeper waits, up to its deadline.
  lemma DecisionTicks(s: Sched)
    requires Entry(s)
    ensures Schedule(s).ticks
         == if s.threads[s.current].state == Sleeping && !OthersReady(s) then s.threads[s.current].sleepUntil else s.ticks
  {
    NextReadyIs(Wake(s.threads, s.ticks), s.current, 1);
    assert OthersReady(s) <==> exists t :: 0 <= t < 64 && Wake(s.threads, s.ticks)[t].state == Ready;
  }

  // The processor stays where it is only if nobody else is ready.
  lemma DecisionMoves(s: Sched)
    requires Entry(s)
    ensures Schedule(s).current == s.current ==>
              forall t :: 0 <= t < 64 && t != s.current ==>
                s.threads[t].state != Ready && !(s.threads[t].state == Sleeping && s.threads[t].sleepUntil <= s.ticks)
  {
    var w := Wake(s.threads, s.ticks);
    NextReadyIs(w, s.current, 1);
    forall t | 0 <= t < 64 && t != s.current ensures Schedule(s).current == s.current ==> w[t].state != Ready {
      SlotAt(s.current, 64, t);
    }
  }

  // A yield: the caller goes on, or is ready again with its slice untouched.
  lemma YieldRecord(s: Sched)
    requires Inv(s)
    ensures var s' := Step(s, Yield);
      s'.current == s.current || s'.threads[s.current] == s.threads[s.current].(state := Ready)
  {
    DecisionRecords(s, s.current);
  }

  // A tick: one more on the clock and one less in the slice; the slice used up, the thread
  // goes on with a new one, or is ready again.
  lemma TickRecord(s: Sched)
    requires Inv(s)
    ensures var s', me := Step(s, Tick), s.threads[s.current];
      && s'.ticks == s.ticks + 1
      && if me.slice > 1 then s' == s.(ticks := s.ticks + 1, threads := s.threads[s.current := me.(slice := me.slice - 1)])
         else if s'.current == s.current then s'.threads[s.current] == me.(slice := 5)
         else s'.threads[s.current] == me.(state := Ready, slice := 0)
  {
    var me := s.threads[s.current];
    if me.slice == 1 {
      DecisionRecords(Ticked(s), s.current);
      DecisionTicks(Ticked(s));
    }
  }

  // At 100 ticks a second, never less than one; 64-bit products and sums wrap.
  function Deadline(ticks: nat, ms: nat): nat {
    var n := ms * 100 % 0x1_0000_0000_0000_0000 / 1000;
    (ticks + (if n == 0 then 1 else n)) % 0x1_0000_0000_0000_0000
  }

  // A sleep: the thread sleeps until its deadline. If the deadline has wrapped round and is
  // past, it is ready at once; if nobody is ready, it runs on once the deadline has come.
  lemma SleepRecord(s: Sched, ms: nat)
    requires Inv(s)
    ensures var s', me, until := Step(s, Sleep(ms)), s.threads[s.current], Deadline(s.ticks, ms);
      if s'.current == s.current then s'.threads[s.current] == me.(state := Running, slice := 5, sleepUntil := until) && s'.ticks >= until
      else WokenOnly(me.(state := Sleeping, sleepUntil := until), s'.threads[s.current], s.ticks)
  {
    var d := Drowsy(s, ms);
    assert d.threads[s.current] == s.threads[s.current].(state := Sleeping, sleepUntil := Deadline(s.ticks, ms));
    SleeperDecides(d);
  }

  lemma SleeperDecides(d: Sched)
    requires Entry(d) && d.threads[d.current].state == Sleeping
    ensures var s', me := Schedule(d), d.threads[d.current];
      if s'.current == d.current then s'.threads[d.current] == me.(state := Running, slice := 5) && s'.ticks >= me.sleepUntil
      else WokenOnly(me, s'.threads[d.current], d.ticks)
  {
    DecisionRecords(d, d.current);
    DecisionTicks(d);
    if Schedule(d).current == d.current { DecisionMoves(d); }
  }

  // Without wrap-around the deadline is at least the time asked for.
  lemma DeadlineLater(ticks: nat, ms: nat)
    requires ms * 100 < 0x1_0000_0000_0000_0000 && ticks + ms / 10 + 1 < 0x1_0000_0000_0000_0000
    ensures Deadline(ticks, ms) > ticks && Deadline(ticks, ms) == ticks + (if ms < 10 then 1 else ms / 10)
  {
    assert ms * 100 / 1000 == ms / 10;
  }

  // An exit: the thread is terminated, and runs again only as slot 0, the last resort.
  lemma ExitRecord(s: Sched)
    requires Inv(s)
    ensures var s', me := Step(s, Exit), s.threads[s.current];
      if s'.current == s.current then s.current == 0 && !OthersReady(s)
      else s'.threads[s.current] == me.(state := Terminated)
  {
    var d := Dead(s);
    DecisionRecords(d, s.current);
    if Schedule(d).current == s.current {
      DecisionMoves(d);
      NextReadyIs(Wake(d.threads, d.ticks), d.current, 1);
      assert forall t :: 0 <= t < 64 && t != s.current ==> d.threads[t] == s.threads[t];
    }
  }

  // Threads other than the caller, at any event but a creation: dispatched or woken, if that.
  lemma OthersRecord(s: Sched, e: Event, t: nat)
    requires Inv(s) && !e.Create? && t < 64 && t != s.current
    ensures var s' := Step(s, e);
      && s'.nextTid == s.nextTid
      && if t == s'.current then s'.threads[t] == s.threads[t].(state := Running, slice := 5)
         else WokenOnly(s.threads[t], s'.threads[t], s.ticks + 1) || s'.threads[t] == s.threads[t]
  {
    match e
    case Tick => if Ticked(s).threads[s.current].slice == 0 { DecisionRecords(Ticked(s), t); }
    case Yield => DecisionRecords(s, t);
    case Sleep(ms) => DecisionRecords(Drowsy(s, ms), t);
    case Exit => DecisionRecords(Dead(s), t);
  }

  // A slot below i is in use: neither unused nor terminated.
  ghost predicate Busy(s: Sched, i: nat) {
    forall j :: 1 <= j < i && j < 64 ==> s.threads[j].state != Unused && s.threads[j].state != Terminated
  }

  // A creation: the lowest slot from 1 on that is unused or terminated gets the next thread
  // number, the stack and five ticks; without a stack it is unused, the number spent. Every
  // other slot, and the running thread, stay as they are.
  lemma CreateRecord(s: Sched, stack: nat)
    requires Inv(s)
    ensures var s' := Step(s, Create(stack));
      if Busy(s, 64) then s' == s
      else exists slot :: 1 <= slot < 64 && Busy(s, slot)
             && (s.threads[slot].state == Unused || s.threads[slot].state == Terminated)
             && s' == s.(nextTid := s.nextTid + 1,
                         threads := s.threads[slot := if stack == 0 then Thread(s.nextTid, Unused, 0, 0, 0)
                                                      else Thread(s.nextTid, Ready, stack, 0, 5)])
  {
    var slot := FreeSlot(s.threads, 1);
    if slot < 64 {
      assert Busy(s, slot);
      assert !(s.threads[slot].state != Unused && s.threads[slot].state != Terminated);
    }
  }
}
