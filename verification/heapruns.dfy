// Whole runs of the heap's operations and of the stores that programs make into their blocks.

module HeapRuns {
  import opened Options
  import opened Paging
  import opened HeapLayout
  import opened HeapBlocks
  import opened HeapPages
  import opened KernelHeap

  datatype Call =
    | MallocCall(size: nat)
    | FreeCall(ptr: nat)
    | ReallocCall(ptr: nat, size: nat)
    | StoreCall(x: nat, v: Option<bv8>)   // a program's own store, inside one of its blocks

  ghost predicate CallOutcome(a: World, b: World, call: Call, r: Outcome) {
    match call
    case MallocCall(size) => KmallocOutcome(a, b, AlignUp(size, 16), r)
    case FreeCall(ptr) => (ptr != 0 ==> InUse(a.layout, ptr)) && KfreeOutcome(a, b, ptr)
    case ReallocCall(ptr, size) => (ptr != 0 ==> InUse(a.layout, ptr)) && KreallocOutcome(a, b, ptr, size, r)
    case StoreCall(x, v) => StoreOutcome(a, b, x, v)
  }

  // The call returned to its caller.
  predicate Returned(r: Outcome) {
    r.Null? || r.Ptr?
  }

  // The call frees, moves or writes into the block.
  predicate Touches(call: Call, c: Block) {
    match call
    case MallocCall(_) => false
    case FreeCall(ptr) => ptr == c.Payload()
    case ReallocCall(ptr, _) => ptr == c.Payload()
    case StoreCall(x, _) => c.Payload() <= x < c.End()
  }

  ghost predicate Survives(a: World, b: World, c: Block) {
    c in Live(b.layout) && SameBytes(a.bytes, b.bytes, c)
  }

  lemma FreeKeeps(a: World, b: World, ptr: nat, c: Block)
    requires WellFormed(a.layout, a.top) && (ptr != 0 ==> InUse(a.layout, ptr)) && KfreeOutcome(a, b, ptr)
    requires c in Live(a.layout) && ptr != c.Payload()
    ensures Survives(a, b, c)
  {
    if ptr != 0 {
      ReleaseLive(a.layout, a.top, Find(a.layout, ptr));
    }
  }

  lemma ReallocKeeps(a: World, b: World, ptr: nat, size: nat, r: Outcome, c: Block)
    requires WellFormed(a.layout, a.top) && ptr != 0 && InUse(a.layout, ptr) && KreallocOutcome(a, b, ptr, size, r)
    requires Returned(r) && c in Live(a.layout) && ptr != c.Payload()
    ensures Survives(a, b, c)
  {
    var block := a.layout[Find(a.layout, ptr)];
    if size == 0 {
      FreeKeeps(a, b, ptr, c);
    } else if block.size < size {
      if r.Ptr? {
        assert MovedTo(a, b, block, size, b.layout[Find(b.layout, r.addr)]);
        assert c in Live(a.layout) - {block};
      }
    }
  }

  // A block in use survives every call that returns and does not touch it.
  lemma CallKeeps(a: World, b: World, call: Call, r: Outcome, c: Block)
    requires WellFormed(a.layout, a.top) && CallOutcome(a, b, call, r) && Returned(r)
    requires c in Live(a.layout) && !Touches(call, c)
    ensures Survives(a, b, c)
  {
    match call
    case MallocCall(_) =>
    case FreeCall(ptr) => FreeKeeps(a, b, ptr, c);
    case ReallocCall(ptr, size) => if ptr != 0 { ReallocKeeps(a, b, ptr, size, r, c); }
    case StoreCall(x, v) =>
  }

  ghost predicate Good(w: World) {
    WellFormed(w.layout, w.top) && w.top % 16 == 0
  }

  lemma PagesAligned(top: nat, pages: nat)
    requires top % 16 == 0
    ensures (top + pages * PAGE_SIZE) % 16 == 0
  {
  }

  lemma GrownGood(a: World, n: nat, top: nat)
    requires Good(a) && top == a.top + Gain(a, n) * PAGE_SIZE
    ensures WellFormed(Grown(a, n), top) && top % 16 == 0
  {
    ExtendByWellFormed(a.layout, a.top, Gain(a, n));
    PagesAligned(a.top, Gain(a, n));
  }

  lemma MallocGood(a: World, b: World, size: nat, r: Outcome)
    requires Good(a) && KmallocOutcome(a, b, AlignUp(size, 16), r) && Returned(r)
    ensures Good(b)
  {
    if r.Ptr? { CarvedGood(a, b, AlignUp(size, 16), r.addr); }
  }

  lemma CarvedGood(a: World, b: World, n: nat, ptr: nat)
    requires Good(a) && CarvedAfter(a, b, n, ptr) && n > 0 && n % 16 == 0
    ensures Good(b)
  {
    GrownGood(a, n, b.top);
    CarveWellFormed(Grown(a, n), b.top, FirstFit(Grown(a, n), n), n);
  }

  lemma FreeGood(a: World, b: World, ptr: nat)
    requires Good(a) && (ptr != 0 ==> InUse(a.layout, ptr)) && KfreeOutcome(a, b, ptr)
    ensures Good(b)
  {
    if ptr != 0 { ReleaseWellFormed(a.layout, a.top, Find(a.layout, ptr)); }
  }

  lemma RelocatedGood(a: World, b: World, ptr: nat, n: nat, to: nat)
    requires Good(a) && Relocated(a, b, ptr, n, to) && n > 0 && n % 16 == 0
    ensures Good(b)
  {
    var l := Grown(a, n);
    GrownGood(a, n, b.top);
    CarveWellFormed(l, b.top, FirstFit(l, n), n);
    var c := Carve(l, FirstFit(l, n), n);
    ReleaseWellFormed(c, b.top, Find(c, ptr));
  }

  // Every call that returns keeps the heap well formed.
  lemma CallGood(a: World, b: World, call: Call, r: Outcome)
    requires Good(a) && CallOutcome(a, b, call, r) && Returned(r)
    ensures Good(b)
  {
    match call
    case MallocCall(size) => MallocGood(a, b, size, r);
    case FreeCall(ptr) => FreeGood(a, b, ptr);
    case ReallocCall(ptr, size) =>
      if ptr == 0 {
        MallocGood(a, b, size, r);
      } else if size == 0 {
        FreeGood(a, b, ptr);
      } else if a.layout[Find(a.layout, ptr)].size < size {
        if r.Ptr? { RelocatedGood(a, b, ptr, AlignUp(size, 16), r.addr); }
      }
    case StoreCall(x, v) =>
  }

  // The states of a run, all of whose calls return.
  ghost predicate IsRun(ws: seq<World>, calls: seq<Call>, rs: seq<Outcome>) {
    && |ws| == |calls| + 1 && |rs| == |calls|
    && forall i :: 0 <= i < |calls| ==> CallOutcome(ws[i], ws[i + 1], calls[i], rs[i]) && Returned(rs[i])
  }

  // Over every run, the heap stays well formed.
  lemma {:induction false} RunGood(ws: seq<World>, calls: seq<Call>, rs: seq<Outcome>, j: nat)
    requires IsRun(ws, calls, rs) && Good(ws[0]) && j <= |calls|
    ensures Good(ws[j])
  {
    if j > 0 {
      RunGood(ws, calls, rs, j - 1);
      CallGood(ws[j - 1], ws[j], calls[j - 1], rs[j - 1]);
    }
  }

  // And a block in use stays in use, at its place, with every one of its bytes, until a call
  // frees it, reallocates it or stores into it.
  lemma {:induction false} RunKeepsBytes(ws: seq<World>, calls: seq<Call>, rs: seq<Outcome>, i: nat, j: nat, c: Block)
    requires IsRun(ws, calls, rs) && Good(ws[0]) && i <= j <= |calls| && c in Live(ws[i].layout)
    requires forall k :: i <= k < j ==> !Touches(calls[k], c)
    ensures Survives(ws[i], ws[j], c)
  {
    if i < j {
      RunKeepsBytes(ws, calls, rs, i, j - 1, c);
      RunGood(ws, calls, rs, j - 1);
      CallKeeps(ws[j - 1], ws[j], calls[j - 1], rs[j - 1], c);
      SameTrans(ws[i].bytes, ws[j - 1].bytes, ws[j].bytes, c);
    }
  }
}
