// The kernel heap over the virtual and physical memory managers: growing by mapped pages,
// kmalloc, kfree and krealloc.

module KernelHeap {
  import opened Options
  import opened Paging
  import opened Pte
  import opened PageTree
  import opened HeapLayout
  import opened HeapBlocks
  import opened HeapPages
  import Vmm

  datatype Outcome =
    | Null              // the null pointer
    | Ptr(addr: nat)
    | Fault             // a header store hit an unmapped page
    | Diverges          // no page was obtained: the source retries the same search for ever

  // The pages asked for when a request of n bytes finds no block: the fewest, from 4 on, that
  // hold them and a header.
  function PagesFor(n: nat): (pages: nat)
    ensures pages >= 4 && n + 32 <= pages * 4096
    ensures pages == 4 || n + 32 > (pages - 1) * 4096
  {
    var pages := AlignUp(n + HEADER, PAGE_SIZE) / PAGE_SIZE;
    if pages > 4 then pages else 4
  }

  lemma AlignedAgain(size: nat)
    requires size <= MAX_REQUEST
    ensures AlignUp(AlignUp(size, 16), 16) == AlignUp(size, 16) <= MAX_REQUEST
  {
  }

  // A block of at least n bytes, 16-byte aligned, is newly in use at ptr: it is none of the
  // blocks in use before, all of which still are, with their bytes.
  ghost predicate Served(a: World, b: World, n: nat, ptr: nat) {
    var i := Find(b.layout, ptr);
    && i < |b.layout| && !b.layout[i].free && b.layout[i].size >= n && ptr % 16 == 0
    && b.layout[i] !in Live(a.layout) && Live(b.layout) == Live(a.layout) + {b.layout[i]}
    && Kept(a.bytes, b.bytes, Live(a.layout))
  }

  // The lowest fitting free block is taken, if there is one.
  ghost predicate Carved(a: World, b: World, n: nat, ptr: nat) {
    var i := FirstFit(a.layout, n);
    && b.pages == a.pages && b.top == a.top && b.tables == a.tables
    && if i == |a.layout| then ptr == 0 && b == a
       else ptr == a.layout[i].Payload() && b.layout == Carve(a.layout, i, n) && Served(a, b, n, ptr)
  }

  lemma CarveServed(a: World, b: World, n: nat, ptr: nat)
    requires WellFormed(a.layout, a.top) && n > 0 && n % 16 == 0
    requires b.pages == a.pages && b.top == a.top && b.tables == a.tables
    requires Kept(a.bytes, b.bytes, Live(a.layout))
    requires var i := FirstFit(a.layout, n);
      if i == |a.layout| then ptr == 0 && b == a
      else ptr == a.layout[i].Payload() && b.layout == Carve(a.layout, i, n)
    ensures Carved(a, b, n, ptr)
  {
    var i := FirstFit(a.layout, n);
    if i < |a.layout| {
      CarvedBlock(a.layout, a.top, i, n);
    }
  }

  predicate Fits(l: Layout, n: nat) {
    FirstFit(l, n) < |l|
  }

  // The pages gained for a request of n bytes, and the blocks there are then.
  function Gain(w: World, n: nat): nat {
    if Fits(w.layout, n) then 0 else Granted(w, PagesFor(n))
  }

  function Grown(w: World, n: nat): Layout {
    ExtendBy(w.layout, w.top, Gain(w, n))
  }

  // No block fits, and the frames end in the middle of a page and its tables.
  predicate OutOfTables(w: World, n: nat) {
    !Fits(w.layout, n) && Faults(w, PagesFor(n))
  }

  // A block fits, at once or with the pages that there are frames for.
  predicate CanServe(w: World, n: nat) {
    !OutOfTables(w, n) && Fits(Grown(w, n), n)
  }

  // g more pages at their cost.
  ghost predicate Took(a: World, b: World, g: nat) {
    && b.pages == a.pages + g && b.top == a.top + g * PAGE_SIZE && b.tables.free == a.tables.free - Cost(a, g)
    && |b.tables.tabs| == |a.tables.tabs| + Cost(a, g) - g && (g == 0 ==> b.tables == a.tables)
  }

  // What kmalloc does for a request of n bytes (already a multiple of 16): it takes the first
  // fit of the heap, grown if nothing fits by the pages that there are frames for. It faults
  // exactly when the frames end in the middle of a page, and never returns exactly when
  // nothing fits although all frames have become pages.
  ghost predicate KmallocOutcome(a: World, b: World, n: nat, r: Outcome) {
    match r
    case Null => n == 0 && b == a
    case Ptr(ptr) => n > 0 && CanServe(a, n) && Served(a, b, n, ptr) && CarvedAfter(a, b, n, ptr)
    case Fault => n > 0 && OutOfTables(a, n) && b.tables.free == 0
    case Diverges =>
      && n > 0 && !OutOfTables(a, n) && !CanServe(a, n) && b.tables.free == 0
      && Expanded(a, b, Gain(a, n)) && Live(b.layout) == Live(a.layout)
  }

  ghost predicate CarvedAfter(a: World, b: World, n: nat, ptr: nat) {
    var l := Grown(a, n);
    var i := FirstFit(l, n);
    i < |l| && ptr == l[i].Payload() && b.layout == Carve(l, i, n) && Took(a, b, Gain(a, n))
  }

  // The four cases exclude each other and cover everything: each outcome happens exactly then.
  lemma KmallocExactly(a: World, b: World, n: nat, r: Outcome)
    requires KmallocOutcome(a, b, n, r)
    ensures r.Null? <==> n == 0
    ensures r.Ptr? <==> n > 0 && CanServe(a, n)
    ensures r.Fault? <==> n > 0 && OutOfTables(a, n)
    ensures r.Diverges? <==> n > 0 && !Fits(a.layout, n) && !Faults(a, PagesFor(n)) && !Fits(Grown(a, n), n)
  {
  }

  // One kmalloc grows the heap not at all if a block fits, and never by more than 16 KiB, or
  // the request with its header rounded up to whole pages if that is more.
  lemma KmallocGrowth(a: World, b: World, n: nat, r: Outcome)
    requires KmallocOutcome(a, b, n, r) && (r.Ptr? || r.Diverges?)
    ensures Fits(a.layout, n) ==> b.top == a.top
    ensures a.top <= b.top <= a.top + (if n + 32 <= 16384 then 16384 else n + 32 + 4095)
  {
    GainBound(a, n);
  }

  lemma GainBound(a: World, n: nat)
    ensures Gain(a, n) * 4096 <= (if n + 32 <= 16384 then 16384 else n + 32 + 4095)
  {
  }

  // The block served for a request of `size` bytes holds them, and at most 62 bytes more.
  lemma KmallocFits(a: World, b: World, size: nat, ptr: nat)
    requires WellFormed(a.layout, a.top) && a.top % 16 == 0 && KmallocOutcome(a, b, AlignUp(size, 16), Ptr(ptr))
    ensures var i := Find(b.layout, ptr);
      i < |b.layout| && !b.layout[i].free && size <= b.layout[i].size <= size + 62
  {
    var n, l := AlignUp(size, 16), Grown(a, AlignUp(size, 16));
    assert CarvedAfter(a, b, n, ptr);
    ExtendByWellFormed(a.layout, a.top, Gain(a, n));
    var top, i := a.top + Gain(a, n) * PAGE_SIZE, FirstFit(l, n);
    CarvedBlock(l, top, i, n);
    CarveLive(l, top, i, n);
  }

  // With four frames for each page asked for, kmalloc returns a block.
  lemma FourEachServes(a: World, n: nat)
    requires n > 0 && a.tables.free >= 4 * PagesFor(n)
    ensures CanServe(a, n)
  {
    FourEach(a, PagesFor(n));
    if Fits(a.layout, n) {
      assert Grown(a, n) == a.layout;
    } else {
      ExtendByFits(a.layout, a.top, PagesFor(n), n);
    }
  }

  // With no frame and no fitting block it never returns, and nothing has changed.
  lemma NoFramesDiverges(a: World, b: World, n: nat, r: Outcome)
    requires KmallocOutcome(a, b, n, r) && n > 0 && a.tables.free == 0 && !Fits(a.layout, n)
    ensures r.Diverges? && b == a
  {
    NoFrames(a, PagesFor(n));
    assert Grown(a, n) == a.layout;
  }

  // With one frame and a table missing it faults.
  lemma OneFrameFaults(a: World, b: World, n: nat, r: Outcome)
    requires KmallocOutcome(a, b, n, r) && n > 0 && a.tables.free == 1 && Missing(a, a.pages) > 0 && !Fits(a.layout, n)
    ensures r.Fault?
  {
    TooFewForTables(a, PagesFor(n));
  }

  // Where kmalloc never returns, calling it again, as the source does, reproduces the state.
  lemma DivergesForever(a: World, b: World, c: World, n: nat, r: Outcome)
    requires KmallocOutcome(a, b, n, Diverges) && KmallocOutcome(b, c, n, r)
    ensures r.Diverges? && c == b
  {
    assert b.layout == Grown(a, n);
    NoFramesDiverges(b, c, n, r);
  }

  // Freeing at once what the heap could serve as it was restores its blocks exactly.
  lemma MallocFreeRoundTrip(a: World, b: World, n: nat, ptr: nat)
    requires WellFormed(a.layout, a.top) && n > 0 && n % 16 == 0 && Carved(a, b, n, ptr) && ptr != 0
    ensures Release(b.layout, Find(b.layout, ptr)) == a.layout
  {
    var i := FirstFit(a.layout, n);
    CarvedBlock(a.layout, a.top, i, n);
    CarveReleaseRoundTrip(a.layout, a.top, i, n);
  }

  lemma FirstTry(a: World, b: World, n: nat, ptr: nat)
    requires Carved(a, b, n, ptr) && ptr != 0 && n > 0
    ensures KmallocOutcome(a, b, n, Ptr(ptr))
  {
    assert Grown(a, n) == a.layout;
  }

  lemma ServedLater(a: World, b: World, c: World, n: nat, ptr: nat)
    requires Live(b.layout) == Live(a.layout) && Kept(a.bytes, b.bytes, Live(a.layout)) && Served(b, c, n, ptr)
    ensures Served(a, c, n, ptr)
  {
    KeptTrans(a.bytes, b.bytes, c.bytes, Live(a.layout));
  }

  // The heap could not serve n bytes and has taken the pages that the frames sufficed for.
  ghost predicate GrownFor(a: World, b: World, n: nat) {
    && WellFormed(a.layout, a.top) && a.top % 16 == 0 && b.tables.free >= 0
    && !Fits(a.layout, n) && !Faults(a, PagesFor(n)) && Expanded(a, b, Granted(a, PagesFor(n)))
  }

  lemma ExpandedFor(a: World, b: World, n: nat)
    requires ExpandOutcome(a, b, PagesFor(n), true) && b.tables.free >= 0
    requires WellFormed(a.layout, a.top) && a.top % 16 == 0 && !Fits(a.layout, n)
    ensures GrownFor(a, b, n)
    ensures b.top != a.top <==> b.pages > a.pages
    ensures b.pages > a.pages ==> b.tables.free < a.tables.free
  {
  }

  lemma GrownFits(a: World, b: World, n: nat)
    requires GrownFor(a, b, n)
    ensures b.layout == Grown(a, n) && Live(b.layout) == Live(a.layout)
    ensures Granted(a, PagesFor(n)) == PagesFor(n) ==> Fits(b.layout, n)
    ensures !Fits(b.layout, n) ==> b.tables.free == 0
  {
    var g := Granted(a, PagesFor(n));
    ExtendByWellFormed(a.layout, a.top, g);
    if g == PagesFor(n) {
      ExtendByFits(a.layout, a.top, g, n);
    }
  }

  // No page was obtained: the case in which the source retries for ever.
  lemma NothingGained(a: World, b: World, n: nat)
    requires n > 0 && GrownFor(a, b, n) && b.pages == a.pages
    ensures KmallocOutcome(a, b, n, Diverges)
  {
    GrownFits(a, b, n);
    assert Grown(a, n) == a.layout;
  }

  lemma CarvedLater(a: World, b: World, c: World, n: nat, ptr: nat)
    requires GrownFor(a, b, n) && Fits(b.layout, n) && CarvedAfter(b, c, n, ptr)
    ensures CarvedAfter(a, c, n, ptr)
  {
    assert Grown(b, n) == b.layout;
  }

  lemma RetryOutcome(a: World, b: World, c: World, n: nat, r: Outcome)
    requires n > 0 && GrownFor(a, b, n) && KmallocOutcome(b, c, n, r)
    ensures KmallocOutcome(a, c, n, r)
  {
    GrownFits(a, b, n);
    if Fits(b.layout, n) {
      assert Grown(b, n) == b.layout;
      ServedLater(a, b, c, n, r.addr);
      CarvedLater(a, b, c, n, r.addr);
    } else {
      NoFramesDiverges(b, c, n, r);
    }
  }

  // kmalloc is a run of the layout machine: some new pages, then one allocation.
  lemma KmallocIsRun(a: World, b: World, n: nat, ptr: nat)
    requires KmallocOutcome(a, b, n, Ptr(ptr)) && n % 16 == 0 && a.top % 16 == 0
    ensures Reaches(NewPages(Gain(a, n)) + [Malloc(n)], Heap(a.layout, a.top), Heap(b.layout, b.top))
  {
    var l := Grown(a, n);
    assert CarvedAfter(a, b, n, ptr);
    assert b.layout == Carve(l, FirstFit(l, n), n);
    GrowAllocate(Heap(a.layout, a.top), Gain(a, n), n);
  }

  lemma GrowAllocate(h: Heap, pages: nat, n: nat)
    requires h.top % 16 == 0 && n > 0 && n % 16 == 0
    ensures Reaches(NewPages(pages) + [Malloc(n)], h, Step(Gained(h, pages), Malloc(n)))
  {
    RunNewPages(pages, h);
    ReachThen(NewPages(pages), Malloc(n), h, Gained(h, pages));
  }

  // The block in use at ptr.
  ghost predicate InUse(l: Layout, ptr: nat) {
    Find(l, ptr) < |l| && !l[Find(l, ptr)].free
  }

  // A block has been replaced by one of at least n bytes at `to`, holding all its bytes; the
  // other blocks in use are untouched.
  ghost predicate Moved(a: World, b: World, block: Block, n: nat, to: nat) {
    InUse(b.layout, to) && to % 16 == 0 && MovedTo(a, b, block, n, b.layout[Find(b.layout, to)])
  }

  ghost predicate MovedTo(a: World, b: World, block: Block, n: nat, target: Block) {
    && target.size >= n && target !in Live(a.layout) && Live(b.layout) == Live(a.layout) - {block} + {target}
    && BlockCopied(a.bytes, b.bytes, block, target) && Kept(a.bytes, b.bytes, Live(a.layout) - {block})
  }

  // m: after kmalloc; copied: the bytes after the copy; b: after kfree of the old block.
  lemma MovedBy(a: World, m: World, copied: map<nat, bv8>, b: World, block: Block, n: nat, to: nat)
    requires WellFormed(m.layout, m.top) && block in Live(a.layout) && block.size < n && Served(a, m, n, to)
    requires Copied(m.bytes, copied, to, block.Payload(), block.size)
    requires b.layout == Release(m.layout, Find(m.layout, block.Payload())) && WellFormed(b.layout, b.top)
    requires Kept(copied, b.bytes, Live(b.layout))
    ensures Moved(a, b, block, n, to)
  {
    var target := m.layout[Find(m.layout, to)];
    ReleasedOther(m.layout, m.top, block, target, b.layout, b.top);
    MovedBytes(a, m, copied, b, block, target);
    assert Live(b.layout) == Live(a.layout) - {block} + {target};
  }

  lemma ReleasedOther(l: Layout, top: nat, block: Block, target: Block, l': Layout, top': nat)
    requires WellFormed(l, top) && WellFormed(l', top') && block in Live(l) && target in Live(l) && target != block
    requires l' == Release(l, Find(l, block.Payload()))
    ensures Live(l') == Live(l) - {block}
    ensures InUse(l', target.Payload()) && l'[Find(l', target.Payload())] == target
  {
    LiveFound(l, top, block);
    ReleaseLive(l, top, Find(l, block.Payload()));
    LiveFound(l', top', target);
  }

  lemma MovedBytes(a: World, m: World, copied: map<nat, bv8>, b: World, block: Block, target: Block)
    requires WellFormed(m.layout, m.top) && block in Live(a.layout) && target !in Live(a.layout)
    requires block.size <= target.size && Live(m.layout) == Live(a.layout) + {target}
    requires Live(b.layout) == Live(m.layout) - {block}
    requires Kept(a.bytes, m.bytes, Live(a.layout)) && Kept(copied, b.bytes, Live(b.layout))
    requires Copied(m.bytes, copied, target.Payload(), block.Payload(), block.size)
    ensures BlockCopied(a.bytes, b.bytes, block, target) && Kept(a.bytes, b.bytes, Live(a.layout) - {block})
  {
    CopyBlock(a.bytes, m.bytes, copied, b.bytes, block, target);
    forall c | c in Live(a.layout) - {block} ensures SameBytes(a.bytes, b.bytes, c) {
      LiveDisjoint(m.layout, m.top, c, target);
      CopyElsewhere(m.bytes, copied, target.Payload(), block.Payload(), block.size, c);
      SameTrans(a.bytes, m.bytes, copied, c);
      SameTrans(a.bytes, copied, b.bytes, c);
    }
  }

  // What kfree does.
  ghost predicate KfreeOutcome(a: World, b: World, ptr: nat)
    requires ptr != 0 ==> InUse(a.layout, ptr)
  {
    && b.layout == (if ptr == 0 then a.layout else Release(a.layout, Find(a.layout, ptr)))
    && Kept(a.bytes, b.bytes, Live(b.layout)) && SamePages(a, b)
  }

  ghost predicate SamePages(a: World, b: World) {
    b.pages == a.pages && b.top == a.top && b.tables == a.tables
  }

  // A store by a program, into one of its blocks.
  ghost predicate StoreOutcome(a: World, b: World, x: nat, v: Option<bv8>) {
    && (exists c :: c in Live(a.layout) && c.Payload() <= x < c.End())
    && b.layout == a.layout && SamePages(a, b) && b.bytes == Poke(a.bytes, x, v)
  }

  // The blocks and frames after the block at ptr has moved to `to`: as kmalloc(m) and
  // kfree(ptr) leave them.
  ghost predicate Relocated(a: World, b: World, ptr: nat, m: nat, to: nat) {
    var l := Grown(a, m);
    && CanServe(a, m) && to == l[FirstFit(l, m)].Payload() && Took(a, b, Gain(a, m))
    && var c := Carve(l, FirstFit(l, m), m);
       InUse(c, ptr) && b.layout == Release(c, Find(c, ptr))
  }

  // A large enough block stays as it is; another is moved, unless kmalloc finds no room.
  ghost predicate ResizeOutcome(a: World, b: World, block: Block, size: nat, r: Outcome) {
    if block.size >= size then r == Ptr(block.Payload()) && b == a
    else if r.Ptr? then Moved(a, b, block, size, r.addr) && Relocated(a, b, block.Payload(), AlignUp(size, 16), r.addr)
    else KmallocOutcome(a, b, AlignUp(size, 16), r)
  }

  ghost predicate KreallocOutcome(a: World, b: World, ptr: nat, size: nat, r: Outcome)
    requires ptr != 0 ==> InUse(a.layout, ptr)
  {
    if ptr == 0 then KmallocOutcome(a, b, AlignUp(size, 16), r)
    else
      var i := Find(a.layout, ptr);
      if size == 0 then r == Null && KfreeOutcome(a, b, ptr)
      else ResizeOutcome(a, b, a.layout[i], size, r)
  }

  // A frame has been taken, and nothing else done.
  ghost predicate FrameTaken(a: World, b: World) {
    b == a.(tables := b.tables) && b.tables == a.tables.(used := b.tables.used, free := a.tables.free - 1)
  }

  datatype PageResult = Added | NoFrame | PageFault

  // heap_expand after i turns of its loop, the last of which ended with r.
  ghost predicate Stage(a: World, b: World, i: nat, pages: nat, r: PageResult) {
    match r
    case Added => Underway(a, b, i, pages)
    case NoFrame => ExpandOutcome(a, b, pages, true)
    case PageFault => ExpandOutcome(a, b, pages, false)
  }

  lemma StageEnd(a: World, b: World, i: nat, pages: nat, r: PageResult)
    requires r.Added? ==> i == pages
    ensures Stage(a, b, i, pages, r) ==> ExpandOutcome(a, b, pages, !r.PageFault?)
  {
    if r.Added? { StoppedAt(a, b, i, pages); }
  }

  // krealloc in figures: null allocates, size 0 frees, a block that is large enough stays, and
  // one that is too small moves elsewhere or stays in use untouched.
  lemma KreallocIs(a: World, b: World, ptr: nat, size: nat, r: Outcome)
    requires (ptr != 0 ==> InUse(a.layout, ptr)) && KreallocOutcome(a, b, ptr, size, r)
    ensures ptr == 0 ==> KmallocOutcome(a, b, AlignUp(size, 16), r)
    ensures ptr != 0 && size == 0 ==> r == Null && KfreeOutcome(a, b, ptr)
    ensures ptr != 0 && 0 < size <= a.layout[Find(a.layout, ptr)].size ==> r == Ptr(ptr) && b == a
    ensures ptr != 0 && size > a.layout[Find(a.layout, ptr)].size && size > 0 && r.Ptr? ==>
              && a.layout[Find(a.layout, ptr)] !in Live(b.layout)
              && BlockCopied(a.bytes, b.bytes, a.layout[Find(a.layout, ptr)], b.layout[Find(b.layout, r.addr)])
    ensures ptr != 0 && size > a.layout[Find(a.layout, ptr)].size && size > 0 && r.Diverges? ==>
              a.layout[Find(a.layout, ptr)] in Live(b.layout)
  {
    if ptr != 0 && size > a.layout[Find(a.layout, ptr)].size && size > 0 && r.Ptr? {
      assert MovedTo(a, b, a.layout[Find(a.layout, ptr)], size, b.layout[Find(b.layout, r.addr)]);
    }
  }

  class KernelHeap {
    const vmm: Vmm.Vmm
    const list: BlockList
    ghost var frames: seq<nat>

    ghost predicate Valid()
      reads this, list, vmm, vmm.pmm, vmm.pmm.bitmap
    {
      && list.Valid() && |frames| < MAX_PAGES && list.top == HEAP_START + |frames| * PAGE_SIZE
      && vmm.Valid() && RegionOpen(vmm.mem, vmm.root)
      && Backed(vmm.mem, vmm.root, frames) && Owned(vmm.pmm.used, vmm.tabs, frames)
    }

    constructor (vmm: Vmm.Vmm)
      requires vmm.Valid() && RegionOpen(vmm.mem, vmm.root)
      ensures Valid() && this.vmm == vmm && frames == [] && list.layout == [] && fresh(list)
    {
      this.vmm := vmm;
      list := new BlockList();
      frames := [];
    }

    ghost function Now(): World
      reads this, list, vmm, vmm.pmm
    {
      World(list.layout, list.top, list.bytes, list.hdr, |frames|, vmm.Snapshot())
    }

    // One iteration of heap_expand: a frame, a mapping, and a block in the fresh page. The
    // mapper fails silently; the header store then faults.
    method AddPage() returns (r: PageResult)
      requires Valid() && Room(1)
      modifies this, list, vmm, vmm.pmm, vmm.pmm.bitmap
      ensures vmm.pmm.bitmap == old(vmm.pmm.bitmap)
      ensures r.NoFrame? <==> old(vmm.pmm.freePages) == 0
      ensures r.NoFrame? ==> Valid() && Now() == old(Now())
      ensures r.PageFault? <==> 0 < old(vmm.pmm.freePages) <= Missing(old(Now()), |old(frames)|)
      ensures r.PageFault? ==> vmm.pmm.freePages == 0 && |frames| == |old(frames)|
      ensures r.Added? ==> Valid() && Expanded(old(Now()), Now(), 1)
    {
      ghost var w := Now();
      var phys := TakeFrame();
      if phys == 0 { return NoFrame; }
      PageVpnIs(|frames|);
      r := MapAndPut(phys, w);
    }

    // Maps the frame just taken at the top, and puts the page on the list if that went well.
    method MapAndPut(phys: nat, ghost w: World) returns (r: PageResult)
      requires list.Valid() && |frames| + 1 < MAX_PAGES && list.top == HEAP_START + |frames| * PAGE_SIZE
      requires vmm.Valid() && RegionOpen(vmm.mem, vmm.root) && Backed(vmm.mem, vmm.root, frames)
      requires Owned(vmm.pmm.used, vmm.tabs, frames + [phys]) && VpnOf(list.top) == PageVpn(|frames|)
      requires FrameTaken(w, Now())
      modifies this, list, vmm, vmm.pmm, vmm.pmm.bitmap
      ensures vmm.pmm.bitmap == old(vmm.pmm.bitmap) && !r.NoFrame?
      ensures r.PageFault? <==> w.tables.free <= Missing(w, w.pages)
      ensures r.PageFault? ==> vmm.pmm.freePages == 0 && |frames| == |old(frames)|
      ensures r.Added? ==> Valid() && Expanded(w, Now(), 1)
    {
      ghost var s := vmm.Snapshot();
      var ok := MapTop(phys);
      if !ok { return PageFault; }
      PutPage(phys);
      PageBill(w, s, Now());
      return Added;
    }

    // Puts a page whose frame is mapped on the list.
    method PutPage(phys: nat)
      requires list.Valid() && |frames| + 1 < MAX_PAGES && list.top == HEAP_START + |frames| * PAGE_SIZE
      requires vmm.Valid() && RegionOpen(vmm.mem, vmm.root)
      requires Backed(vmm.mem, vmm.root, frames + [phys]) && Owned(vmm.pmm.used, vmm.tabs, frames + [phys])
      modifies this, list
      ensures Valid() && |frames| == |old(frames)| + 1 && list.top == old(list.top) + PAGE_SIZE
      ensures list.layout == ExtendBy(old(list.layout), old(list.top), 1)
      ensures Kept(old(list.bytes), list.bytes, Live(old(list.layout)))
    {
      ExtendByOne(list.layout, list.top);
      list.AppendPage();
      frames := frames + [phys];
    }

    // Grows the heap by the pages that there are frames for; false is a page fault.
    method HeapExpand(pages: nat) returns (ok: bool)
      requires Valid() && Room(pages)
      modifies this, list, vmm, vmm.pmm, vmm.pmm.bitmap
      ensures vmm.pmm.bitmap == old(vmm.pmm.bitmap)
      ensures ok ==> Valid()
      ensures ExpandOutcome(old(Now()), Now(), pages, ok)
    {
      ghost var start := Now();
      Begin(start, pages);
      var i, r := 0, Added;
      while i < pages && r.Added?
        invariant i <= pages && vmm.pmm.bitmap == old(vmm.pmm.bitmap) && (!r.PageFault? ==> Valid())
        invariant Stage(start, Now(), i, pages, r)
      {
        r := ExpandOnce(start, i, pages);
        i := i + 1;
      }
      StageEnd(start, Now(), i, pages, r);
      return !r.PageFault?;
    }

    // One turn of the loop; the expansion began in `start`.
    method ExpandOnce(ghost start: World, ghost i: nat, ghost pages: nat) returns (r: PageResult)
      requires Valid() && i < pages && Stage(start, Now(), i, pages, Added)
      requires start.pages + (if pages <= start.tables.free then pages else start.tables.free) < MAX_PAGES
      modifies this, list, vmm, vmm.pmm, vmm.pmm.bitmap
      ensures vmm.pmm.bitmap == old(vmm.pmm.bitmap) && (!r.PageFault? ==> Valid())
      ensures Stage(start, Now(), i + 1, pages, r)
    {
      ghost var before := Now();
      r := AddPage();
      if r.PageFault? {
        FaultedAt(start, before, Now(), i, pages);
      } else if r.NoFrame? {
        StoppedAt(start, before, i, pages);
      } else {
        ExpandedMore(start, before, Now(), i, pages);
      }
    }

    // The pages wanted, or the frames there are, fit below the end of the address space.
    ghost predicate Room(pages: nat)
      reads this, vmm, vmm.pmm
    {
      |frames| + (if pages <= vmm.pmm.freePages then pages else vmm.pmm.freePages) < MAX_PAGES
    }

    // kmalloc's first-fit search over the list.
    method Search(size: nat) returns (ptr: nat)
      requires Valid() && size > 0 && size % 16 == 0
      modifies list
      ensures Valid() && Carved(old(Now()), Now(), size, ptr)
    {
      ghost var w := Now();
      ptr := list.TakeFirstFit(size);
      CarveServed(w, Now(), size, ptr);
    }

    // Each retry follows an expansion that took at least one frame, so it ends.
    method Kmalloc(size: nat) returns (r: Outcome)
      requires Valid() && size <= MAX_REQUEST
      requires !Fits(list.layout, AlignUp(size, 16)) ==> Room(PagesFor(AlignUp(size, 16)))
      modifies this, list, vmm, vmm.pmm, vmm.pmm.bitmap
      ensures vmm.pmm.bitmap == old(vmm.pmm.bitmap)
      ensures KmallocOutcome(old(Now()), Now(), AlignUp(size, 16), r)
      ensures !r.Fault? ==> Valid()
      decreases vmm.pmm.freePages, 1
    {
      if size == 0 { return Null; }
      ghost var w := Now();
      var aligned := AlignUp(size, 16);
      var ptr := Search(aligned);
      if ptr != 0 { FirstTry(w, Now(), aligned, ptr); return Ptr(ptr); }
      AlignedAgain(size);
      r := GrowAndRetry(aligned);
    }

    // kmalloc's last lines: no block fits, so the heap is grown and the search repeated.
    method GrowAndRetry(aligned: nat) returns (r: Outcome)
      requires Valid() && Room(PagesFor(aligned)) && !Fits(list.layout, aligned)
      requires 0 < aligned <= MAX_REQUEST && AlignUp(aligned, 16) == aligned
      modifies this, list, vmm, vmm.pmm, vmm.pmm.bitmap
      ensures vmm.pmm.bitmap == old(vmm.pmm.bitmap)
      ensures KmallocOutcome(old(Now()), Now(), aligned, r)
      ensures !r.Fault? ==> Valid()
      decreases vmm.pmm.freePages, 0
    {
      ghost var w := Now();
      var grown, ok := ExpandFor(aligned);
      if !ok { return Fault; }
      ghost var w1 := Now();
      if !grown { NothingGained(w, w1, aligned); return Diverges; }
      GrownFits(w, w1, aligned);
      r := Kmalloc(aligned);
      RetryOutcome(w, w1, Now(), aligned, r);
    }

    // The expansion that a request of n bytes asks for, and whether it obtained any page.
    method ExpandFor(n: nat) returns (grown: bool, ok: bool)
      requires Valid() && Room(PagesFor(n)) && !Fits(list.layout, n)
      modifies this, list, vmm, vmm.pmm, vmm.pmm.bitmap
      ensures vmm.pmm.bitmap == old(vmm.pmm.bitmap)
      ensures ok ==> Valid() && GrownFor(old(Now()), Now(), n) && (grown <==> |frames| > |old(frames)|)
      ensures ok && grown ==> vmm.pmm.freePages < old(vmm.pmm.freePages)
      ensures !ok ==> vmm.pmm.freePages == 0 && OutOfTables(old(Now()), n)
    {
      var before := list.top;
      ghost var w := Now();
      ok := HeapExpand(PagesFor(n));
      grown := ok && list.top != before;
      if ok { ExpandedFor(w, Now(), n); }
    }

    method Kfree(ptr: nat)
      requires Valid() && (ptr != 0 ==> InUse(list.layout, ptr))
      modifies list
      ensures Valid() && KfreeOutcome(old(Now()), Now(), ptr)
    {
      list.Kfree(ptr);
    }

    method Store(x: nat, v: Option<bv8>)
      requires Valid() && exists c :: c in Live(list.layout) && c.Payload() <= x < c.End()
      modifies list
      ensures Valid() && StoreOutcome(old(Now()), Now(), x, v)
    {
      ghost var c :| c in Live(list.layout) && c.Payload() <= x < c.End();
      list.Store(x, v, c);
    }

    method Krealloc(ptr: nat, size: nat) returns (r: Outcome)
      requires Valid() && size <= MAX_REQUEST && (ptr != 0 ==> InUse(list.layout, ptr))
      requires !Fits(list.layout, AlignUp(size, 16)) ==> Room(PagesFor(AlignUp(size, 16)))
      modifies this, list, vmm, vmm.pmm, vmm.pmm.bitmap
      ensures KreallocOutcome(old(Now()), Now(), ptr, size, r)
      ensures !r.Fault? ==> Valid()
    {
      if ptr == 0 {
        r := Kmalloc(size);
        return;
      }
      if size == 0 {
        Kfree(ptr);
        return Null;
      }
      ghost var block := list.layout[Find(list.layout, ptr)];
      HeaderFound(ptr);
      r := Resize(ptr, size, list.hdr[ptr - HEADER].size, block);
    }

    // krealloc of a block to a size that is not 0.
    method Resize(ptr: nat, size: nat, oldSize: nat, ghost block: Block) returns (r: Outcome)
      requires Valid() && 0 < size <= MAX_REQUEST && block in Live(list.layout)
      requires ptr == block.Payload() && oldSize == block.size
      requires !Fits(list.layout, AlignUp(size, 16)) ==> Room(PagesFor(AlignUp(size, 16)))
      modifies this, list, vmm, vmm.pmm, vmm.pmm.bitmap
      ensures ResizeOutcome(old(Now()), Now(), block, size, r)
      ensures !r.Fault? ==> Valid()
    {
      if oldSize >= size { return Ptr(ptr); }
      ghost var w := Now();
      r := Kmalloc(size);
      if r.Ptr? {
        MoveBlock(ptr, r.addr, oldSize, w, size, block);
      }
    }

    // krealloc's last lines: the old block's bytes go to the new one, and it is freed.
    method MoveBlock(ptr: nat, to: nat, count: nat, ghost w: World, ghost size: nat, ghost block: Block)
      requires Valid() && Served(w, Now(), size, to) && block in Live(w.layout)
      requires ptr == block.Payload() && count == block.size < size
      modifies list
      ensures Valid() && Moved(w, Now(), block, size, to) && SamePages(old(Now()), Now())
      ensures InUse(old(list.layout), ptr) && list.layout == Release(old(list.layout), Find(old(list.layout), ptr))
    {
      ghost var m := Now();
      ghost var target := list.layout[Find(list.layout, to)];
      LiveFound(list.layout, list.top, block);
      LiveDisjoint(list.layout, list.top, block, target);
      list.Memcpy(to, ptr, count, target);
      ghost var copied := list.bytes;
      Kfree(ptr);
      MovedBy(w, m, copied, Now(), block, size, to);
    }

    lemma HeaderFound(ptr: nat)
      requires list.Valid() && InUse(list.layout, ptr)
      ensures ptr >= HEADER && HeaderAt(list.hdr, list.layout, Find(list.layout, ptr))
    {
      list.At(Find(list.layout, ptr));
    }

    method TakeFrame() returns (phys: nat)
      requires Valid()
      modifies vmm.pmm, vmm.pmm.bitmap
      ensures vmm.pmm.bitmap == old(vmm.pmm.bitmap) && vmm.Valid()
      ensures phys == 0 <==> old(vmm.pmm.freePages) == 0
      ensures phys == 0 ==> Valid() && Now() == old(Now())
      ensures phys != 0 ==> vmm.pmm.freePages == old(vmm.pmm.freePages) - 1
      ensures phys != 0 ==> Owned(vmm.pmm.used, vmm.tabs, frames + [phys])
    {
      ghost var used := vmm.pmm.used;
      phys := vmm.pmm.AllocPage();
      if phys != 0 {
        OwnedAfterAlloc(used, vmm.tabs, frames, phys);
      }
    }

    // Maps the page at the top; whether a store there goes through.
    method MapTop(phys: nat) returns (ok: bool)
      requires vmm.Valid() && RegionOpen(vmm.mem, vmm.root) && Backed(vmm.mem, vmm.root, frames)
      requires Owned(vmm.pmm.used, vmm.tabs, frames + [phys])
      requires |frames| < MAX_PAGES && VpnOf(list.top) == PageVpn(|frames|)
      modifies vmm, vmm.pmm, vmm.pmm.bitmap
      ensures vmm.pmm.bitmap == old(vmm.pmm.bitmap) && vmm.Ready()
      ensures TopOutcome(old(vmm.Snapshot()), vmm.Snapshot(), frames, phys, ok)
    {
      ghost var s := vmm.Snapshot();
      vmm.MapPage(list.top, phys, FLAGS);
      TopBacked(s, vmm.Snapshot(), frames, phys);
      ok := WritablePage(See(vmm.mem, vmm.root, VpnOf(list.top)));
    }
  }
}
