// The assembly context switch as a register and stack machine, and what a thread finds when
// it is resumed, over any interleaving of threads with disjoint stacks.

module ContextSwitch {
  import opened SchedulerSpec

  // Memory as 8-byte words by address; all addresses used are multiples of 8.
  type Words = map<nat, nat>

  function Load(mem: Words, a: nat): nat {
    if a in mem then mem[a] else 0
  }

  datatype Machine = Machine(rbx: nat, rbp: nat, r12: nat, r13: nat, r14: nat, r15: nat,
                             rdi: nat, rsi: nat, rsp: nat, rip: nat, mem: Words)

  // What a thread relies on across a call: the callee-saved registers, the stack pointer and
  // where it goes on.
  datatype Context = Context(rbx: nat, rbp: nat, r12: nat, r13: nat, r14: nat, r15: nat, rsp: nat, rip: nat)

  function Registers(m: Machine): Context {
    Context(m.rbx, m.rbp, m.r12, m.r13, m.r14, m.r15, m.rsp, m.rip)
  }

  // What a caller of context_switch expects to find when the call returns.
  function Expected(m: Machine): Context {
    Context(m.rbx, m.rbp, m.r12, m.r13, m.r14, m.r15, m.rsp + 8, Load(m.mem, m.rsp))
  }

  // The context saved at p, struct cpu_context.
  function FrameAt(mem: Words, p: nat): Context {
    Context(Load(mem, p + 40), Load(mem, p + 32), Load(mem, p + 24), Load(mem, p + 16), Load(mem, p + 8), Load(mem, p),
            p + 56, Load(mem, p + 48))
  }

  // The memory after the six pushes.
  function Pushed(m: Machine): Words
    requires m.rsp >= 48
  {
    m.mem[m.rsp - 8 := m.rbx][m.rsp - 16 := m.rbp][m.rsp - 24 := m.r12][m.rsp - 32 := m.r13]
         [m.rsp - 40 := m.r14][m.rsp - 48 := m.r15]
  }

  // The machine after context_switch(slot, next) has returned.
  function Switched(m: Machine, slot: nat, next: nat): Machine
    requires m.rsp >= 48
  {
    var mem := Pushed(m)[slot := m.rsp - 48];
    var c := FrameAt(mem, next);
    Machine(c.rbx, c.rbp, c.r12, c.r13, c.r14, c.r15, slot, next, c.rsp, c.rip, mem)
  }

  class Cpu {
    var rbx: nat
    var rbp: nat
    var r12: nat
    var r13: nat
    var r14: nat
    var r15: nat
    var rdi: nat
    var rsi: nat
    var rsp: nat
    var rip: nat
    var mem: Words

    ghost function Now(): Machine
      reads this
    {
      Machine(rbx, rbp, r12, r13, r14, r15, rdi, rsi, rsp, rip, mem)
    }

    method Push(v: nat)
      requires rsp >= 8
      modifies this`rsp, this`mem
      ensures rsp == old(rsp) - 8 && mem == old(mem)[rsp := v]
    {
      rsp := rsp - 8;
      mem := mem[rsp := v];
    }

    method Pop() returns (v: nat)
      modifies this`rsp
      ensures rsp == old(rsp) + 8 && v == Load(mem, old(rsp))
    {
      v := Load(mem, rsp);
      rsp := rsp + 8;
    }

    method PushRegisters()
      requires rsp >= 48
      modifies this`rsp, this`mem
      ensures rsp == old(rsp) - 48 && mem == Pushed(old(Now()))
    {
      Push(rbx);
      Push(rbp);
      Push(r12);
      Push(r13);
      Push(r14);
      Push(r15);
    }

    method PopFour()
      modifies this`rsp, this`r15, this`r14, this`r13, this`r12
      ensures r15 == Load(mem, old(rsp)) && r14 == Load(mem, old(rsp) + 8)
      ensures r13 == Load(mem, old(rsp) + 16) && r12 == Load(mem, old(rsp) + 24) && rsp == old(rsp) + 32
    {
      r15 := Pop();
      r14 := Pop();
      r13 := Pop();
      r12 := Pop();
    }

    // The last two registers, and `ret`.
    method PopAndReturn()
      modifies this`rsp, this`rbp, this`rbx, this`rip
      ensures rbp == Load(mem, old(rsp)) && rbx == Load(mem, old(rsp) + 8) && rip == Load(mem, old(rsp) + 16)
      ensures rsp == old(rsp) + 24
    {
      rbp := Pop();
      rbx := Pop();
      rip := Pop();
    }

    method PopRegisters()
      modifies this`rsp, this`r15, this`r14, this`r13, this`r12, this`rbp, this`rbx, this`rip
      ensures Registers(Now()) == FrameAt(mem, old(rsp))
    {
      PopFour();
      PopAndReturn();
    }

    method ContextSwitch()
      requires rsp >= 48
      modifies this
      ensures Now() == Switched(old(Now()), old(rdi), old(rsi))
    {
      PushRegisters();
      mem := mem[rdi := rsp];
      rsp := rsi;
      PopRegisters();
    }

    // A new thread's first steps: its argument goes in rdi, and its entry point is called.
    method Trampoline(back: nat)
      requires rsp >= 8
      modifies this
      ensures rdi == old(r13) && rip == old(r12) && rsp == old(rsp) - 8 && Load(mem, rsp) == back
      ensures old(rsp) % 16 == 0 ==> (rsp + 8) % 16 == 0
    {
      rdi := r13;
      Push(back);
      rip := r12;
    }

    // thread_create's initial frame, and the saved stack pointer in the new thread's slot.
    method PrepareStack(slot: nat, stack: nat, entry: nat, arg: nat, trampoline: nat)
      modifies this`mem
      ensures mem == Prepared(old(mem), slot, stack, entry, arg, trampoline)
    {
      var p := InitialRsp(stack);
      mem := mem[p := 0];
      mem := mem[p + 8 := 0];
      mem := mem[p + 16 := arg];
      mem := mem[p + 24 := entry];
      mem := mem[p + 32 := 0];
      mem := mem[p + 40 := 0];
      mem := mem[p + 48 := trampoline];
      mem := mem[slot := p];
    }
  }

  const CONTEXT_SIZE: nat := 56

  // The saved stack pointer of a new thread: its context lies just below the aligned top.
  function InitialRsp(stack: nat): nat {
    (stack + STACK_SIZE) / 16 * 16 - CONTEXT_SIZE
  }

  function Prepared(mem: Words, slot: nat, stack: nat, entry: nat, arg: nat, trampoline: nat): Words {
    var p := InitialRsp(stack);
    mem[p := 0][p + 8 := 0][p + 16 := arg][p + 24 := entry][p + 32 := 0][p + 40 := 0][p + 48 := trampoline][slot := p]
  }

  // What a new thread finds on its first run: entry and argument in r12 and r13, and a stack
  // pointer aligned to 16 at the trampoline.
  function Fresh(stack: nat, entry: nat, arg: nat, trampoline: nat): (c: Context)
    ensures c.r12 == entry && c.r13 == arg && c.rip == trampoline
    ensures c.rbx == 0 && c.rbp == 0 && c.r14 == 0 && c.r15 == 0
    ensures c.rsp % 16 == 0 && stack + STACK_SIZE - 16 < c.rsp <= stack + STACK_SIZE
  {
    Context(0, 0, entry, arg, 0, 0, InitialRsp(stack) + 56, trampoline)
  }

  // The prepared frame is that context, and no word besides it and the slot has changed.
  lemma PreparedIs(mem: Words, slot: nat, stack: nat, entry: nat, arg: nat, trampoline: nat)
    requires !(InitialRsp(stack) <= slot < InitialRsp(stack) + CONTEXT_SIZE)
    ensures var mem' := Prepared(mem, slot, stack, entry, arg, trampoline);
      && Load(mem', slot) == InitialRsp(stack)
      && FrameAt(mem', InitialRsp(stack)) == Fresh(stack, entry, arg, trampoline)
      && forall a: nat :: a != slot && !(InitialRsp(stack) <= a < InitialRsp(stack) + CONTEXT_SIZE) ==> Load(mem', a) == Load(mem, a)
  {
  }

  lemma InitialRspBounds(stack: nat)
    requires stack % 16 == 0
    ensures InitialRsp(stack) % 8 == 0 && InitialRsp(stack) + 56 == stack + STACK_SIZE
  {
    var q := stack / 16;
    assert stack == 16 * q;
    assert (stack + STACK_SIZE) / 16 == q + 1024;
  }

  // Where the threads keep their stacks and their saved stack pointers.
  datatype Place = Place(lo: nat, hi: nat, slot: nat)

  predicate InStack(p: Place, a: nat) {
    p.lo <= a < p.hi
  }

  // Stacks are disjoint, and the slots are distinct words outside every stack.
  ghost predicate Separate(places: seq<Place>) {
    && (forall t :: 0 <= t < |places| ==> places[t].slot % 8 == 0)
    && (forall t, u, a :: 0 <= t < |places| && 0 <= u < |places| && t != u && InStack(places[t], a) ==> !InStack(places[u], a))
    && (forall t, u :: 0 <= t < |places| && 0 <= u < |places| && t != u ==> places[t].slot != places[u].slot)
    && (forall t, u :: 0 <= t < |places| && 0 <= u < |places| ==> !InStack(places[t], places[u].slot))
  }

  datatype Sys = Sys(m: Machine, current: nat, places: seq<Place>)

  // What one step of a run may be: the running thread computing, a context switch, or the
  // creation of thread t with a stack from the heap.
  datatype Step = Work | SwitchTo(next: nat) | Create(t: nat, stack: nat, entry: nat, arg: nat, trampoline: nat)

  // While it computes, the running thread stores neither into another thread's stack nor
  // into a saved stack pointer.
  ghost predicate Private(mem: Words, mem': Words, places: seq<Place>, current: nat) {
    forall t, a :: 0 <= t < |places| && ((t != current && InStack(places[t], a)) || a == places[t].slot) ==>
      Load(mem', a) == Load(mem, a)
  }

  // The running thread is at the entry of context_switch: its return address is on top of its
  // own stack, with room below for the six registers.
  ghost predicate AtCall(s: Sys)
    requires s.current < |s.places|
  {
    var p := s.places[s.current];
    s.m.rsp % 8 == 0 && p.lo + 48 <= s.m.rsp && s.m.rsp + 8 <= p.hi
  }

  // Thread t's place once it has a new stack.
  function Settled(places: seq<Place>, t: nat, stack: nat): seq<Place>
    requires t < |places|
  {
    places[t := Place(stack, stack + STACK_SIZE, places[t].slot)]
  }

  ghost predicate Next(s: Sys, step: Step, s': Sys) {
    && s.current < |s.places| && Separate(s.places)
    && match step
       case Work => s'.current == s.current && s'.places == s.places && Private(s.m.mem, s'.m.mem, s.places, s.current)
       case SwitchTo(next) =>
         && next < |s.places| && next != s.current && AtCall(s) && s'.current == next && s'.places == s.places
         && s'.m == Switched(s.m, s.places[s.current].slot, Load(s.m.mem, s.places[next].slot))
       case Create(t, stack, entry, arg, trampoline) =>
         && t < |s.places| && t != s.current && s'.current == s.current && stack % 16 == 0
         && s'.places == Settled(s.places, t, stack) && Separate(s'.places)
         && s'.m == s.m.(mem := Prepared(s.m.mem, s.places[t].slot, stack, entry, arg, trampoline))
  }

  // Thread t is off the processor, and c is what it will find.
  ghost predicate Suspended(s: Sys, t: nat, c: Context)
    requires t < |s.places|
  {
    var p := Load(s.m.mem, s.places[t].slot);
    && s.current != t && s.places[t].lo <= p && p + 56 <= s.places[t].hi && p % 8 == 0
    && FrameAt(s.m.mem, p) == c
  }

  // The saved context in memory, word by word from the saved stack pointer up.
  lemma SavedLayout(m: Machine, slot: nat, next: nat)
    requires m.rsp >= 48 && !(m.rsp - 48 <= slot < m.rsp + 8)
    ensures var mem, p := Switched(m, slot, next).mem, m.rsp - 48;
      && Load(mem, slot) == p
      && Load(mem, p) == m.r15 && Load(mem, p + 8) == m.r14 && Load(mem, p + 16) == m.r13 && Load(mem, p + 24) == m.r12
      && Load(mem, p + 32) == m.rbp && Load(mem, p + 40) == m.rbx && Load(mem, p + 48) == Load(m.mem, m.rsp)
  {
  }

  // The switch stores only into the frame it pushes and the slot it is given.
  lemma SwitchStores(m: Machine, slot: nat, next: nat, a: nat)
    requires m.rsp >= 48 && !(m.rsp - 48 <= a < m.rsp) && a != slot
    ensures Load(Switched(m, slot, next).mem, a) == Load(m.mem, a)
  {
  }

  lemma SameFrame(mem: Words, mem': Words, p: nat)
    requires forall a: nat :: p <= a < p + 56 ==> Load(mem', a) == Load(mem, a)
    ensures FrameAt(mem', p) == FrameAt(mem, p)
  {
  }

  // The switch saves exactly what its caller expects back.
  lemma SwitchSuspends(s: Sys, s': Sys, next: nat)
    requires Next(s, SwitchTo(next), s')
    ensures Suspended(s', s.current, Expected(s.m))
  {
    var p := s.places[s.current];
    assert InStack(p, s.m.rsp) && !InStack(p, p.slot);
    SwitchStores(s.m, p.slot, Load(s.m.mem, s.places[next].slot), s.m.rsp);
  }

  // Nothing of a thread that is off the processor, its frame or its slot, is stored into.
  lemma SwitchSpares(s: Sys, s': Sys, next: nat, t: nat, a: nat)
    requires Next(s, SwitchTo(next), s') && t < |s.places| && t != s.current
    requires InStack(s.places[t], a) || a == s.places[t].slot
    ensures Load(s'.m.mem, a) == Load(s.m.mem, a)
  {
    var p := s.places[s.current];
    assert s.m.rsp - 48 <= a < s.m.rsp ==> InStack(p, a);
    assert !InStack(p, s.places[t].slot) && !InStack(s.places[t], p.slot);
    SwitchStores(s.m, p.slot, Load(s.m.mem, s.places[next].slot), a);
  }

  lemma SwitchKeepsFrame(s: Sys, s': Sys, next: nat, t: nat, c: Context)
    requires Next(s, SwitchTo(next), s') && t < |s.places| && Suspended(s, t, c)
    ensures var p := Load(s.m.mem, s.places[t].slot);
      Load(s'.m.mem, s.places[t].slot) == p && FrameAt(s'.m.mem, p) == c
  {
    var p := Load(s.m.mem, s.places[t].slot);
    SwitchSpares(s, s', next, t, s.places[t].slot);
    forall a: nat | p <= a < p + 56 ensures Load(s'.m.mem, a) == Load(s.m.mem, a) {
      SwitchSpares(s, s', next, t, a);
    }
    SameFrame(s.m.mem, s'.m.mem, p);
  }

  lemma SwitchLeaves(s: Sys, s': Sys, next: nat, t: nat, c: Context)
    requires Next(s, SwitchTo(next), s') && t < |s.places| && t != next && Suspended(s, t, c)
    ensures Suspended(s', t, c)
  {
    SwitchKeepsFrame(s, s', next, t, c);
  }

  lemma SwitchResumes(s: Sys, s': Sys, t: nat, c: Context)
    requires Next(s, SwitchTo(t), s') && t < |s.places| && Suspended(s, t, c)
    ensures Registers(s'.m) == c
  {
    SwitchKeepsFrame(s, s', t, t, c);
  }

  lemma WorkLeaves(s: Sys, s': Sys, t: nat, c: Context)
    requires Next(s, Work, s') && t < |s.places| && Suspended(s, t, c)
    ensures Suspended(s', t, c)
  {
    var p := Load(s.m.mem, s.places[t].slot);
    forall a: nat | p <= a < p + 56 ensures Load(s'.m.mem, a) == Load(s.m.mem, a) {
      assert InStack(s.places[t], a);
    }
    SameFrame(s.m.mem, s'.m.mem, p);
  }

  // Creating a thread stores into its own new stack and slot alone.
  lemma CreateSpares(s: Sys, s': Sys, step: Step, u: nat, a: nat)
    requires step.Create? && Next(s, step, s') && u < |s.places| && u != step.t
    requires InStack(s.places[u], a) || a == s.places[u].slot
    ensures Load(s'.m.mem, a) == Load(s.m.mem, a)
  {
    var p, q := s'.places[step.t], s'.places[u];
    InitialRspBounds(step.stack);
    assert q == s.places[u] && p.slot == s.places[step.t].slot;
    assert !InStack(p, p.slot) && !InStack(p, q.slot) && !InStack(q, p.slot);
    assert InStack(p, a) ==> !InStack(q, a);
    PreparedIs(s.m.mem, p.slot, step.stack, step.entry, step.arg, step.trampoline);
  }

  lemma CreateLeaves(s: Sys, s': Sys, step: Step, u: nat, c: Context)
    requires step.Create? && Next(s, step, s') && u < |s.places| && u != step.t && Suspended(s, u, c)
    ensures Suspended(s', u, c)
  {
    var p := Load(s.m.mem, s.places[u].slot);
    CreateSpares(s, s', step, u, s.places[u].slot);
    forall a: nat | p <= a < p + 56 ensures Load(s'.m.mem, a) == Load(s.m.mem, a) {
      CreateSpares(s, s', step, u, a);
    }
    SameFrame(s.m.mem, s'.m.mem, p);
  }

  // The new thread is suspended with its initial context.
  lemma CreateSuspends(s: Sys, s': Sys, step: Step)
    requires step.Create? && Next(s, step, s')
    ensures Suspended(s', step.t, Fresh(step.stack, step.entry, step.arg, step.trampoline))
  {
    var p := s'.places[step.t];
    InitialRspBounds(step.stack);
    assert !InStack(p, p.slot);
    PreparedIs(s.m.mem, p.slot, step.stack, step.entry, step.arg, step.trampoline);
  }

  ghost predicate IsRun(trace: seq<Sys>, steps: seq<Step>) {
    |trace| == |steps| + 1 && forall k :: 0 <= k < |steps| ==> Next(trace[k], steps[k], trace[k + 1])
  }

  // The step neither resumes thread t nor gives its slot to a new thread.
  predicate Passes(step: Step, t: nat) {
    match step
    case Work => true
    case SwitchTo(next) => next != t
    case Create(u, _, _, _, _) => u != t
  }

  lemma StepLeaves(s: Sys, s': Sys, step: Step, t: nat, c: Context)
    requires Next(s, step, s') && Passes(step, t) && t < |s.places| && Suspended(s, t, c)
    ensures |s'.places| == |s.places| && Suspended(s', t, c)
  {
    match step
    case Work => WorkLeaves(s, s', t, c);
    case SwitchTo(next) => SwitchLeaves(s, s', next, t, c);
    case Create(_, _, _, _, _) => CreateLeaves(s, s', step, t, c);
  }

  lemma {:induction false} StaysSuspended(trace: seq<Sys>, steps: seq<Step>, t: nat, c: Context, i: nat, j: nat)
    requires IsRun(trace, steps) && i <= j <= |steps|
    requires t < |trace[i].places| && Suspended(trace[i], t, c)
    requires forall k :: i <= k < j ==> Passes(steps[k], t)
    ensures t < |trace[j].places| && Suspended(trace[j], t, c)
  {
    if i < j {
      StaysSuspended(trace, steps, t, c, i, j - 1);
      StepLeaves(trace[j - 1], trace[j], steps[j - 1], t, c);
    }
  }

  // Over any interleaving, threads being created meanwhile: a thread switched away from at
  // step i and next resumed at step j finds exactly the registers, stack pointer and return
  // address it was suspended with.
  lemma ResumedAsSuspended(trace: seq<Sys>, steps: seq<Step>, t: nat, i: nat, j: nat)
    requires IsRun(trace, steps) && i < j < |steps|
    requires trace[i].current == t && steps[i].SwitchTo? && steps[j] == SwitchTo(t)
    requires forall k :: i < k < j ==> Passes(steps[k], t)
    ensures Registers(trace[j + 1].m) == Expected(trace[i].m)
  {
    var c := Expected(trace[i].m);
    assert Next(trace[i], steps[i], trace[i + 1]);
    SwitchSuspends(trace[i], trace[i + 1], steps[i].next);
    StaysSuspended(trace, steps, t, c, i + 1, j);
    SwitchResumes(trace[j], trace[j + 1], t, c);
  }

  // A new thread's first run starts at the trampoline with its entry point in r12, its
  // argument in r13 and an aligned stack pointer, however long it had to wait.
  lemma FirstRun(trace: seq<Sys>, steps: seq<Step>, t: nat, i: nat, j: nat)
    requires IsRun(trace, steps) && i < j < |steps|
    requires steps[i].Create? && steps[i].t == t && steps[j] == SwitchTo(t)
    requires forall k :: i < k < j ==> Passes(steps[k], t)
    ensures var m, top := trace[j + 1].m, steps[i].stack + 16384;
      && m.r12 == steps[i].entry && m.r13 == steps[i].arg && m.rip == steps[i].trampoline
      && m.rbx == 0 && m.rbp == 0 && m.r14 == 0 && m.r15 == 0
      && m.rsp % 16 == 0 && top - 16 < m.rsp <= top
  {
    var c := Fresh(steps[i].stack, steps[i].entry, steps[i].arg, steps[i].trampoline);
    assert Next(trace[i], steps[i], trace[i + 1]);
    CreateSuspends(trace[i], trace[i + 1], steps[i]);
    StaysSuspended(trace, steps, t, c, i + 1, j);
    SwitchResumes(trace[j], trace[j + 1], t, c);
  }
}
