// The pages behind the kernel heap: how they are mapped, and the exact number of frames that
// further ones cost.

module HeapPages {
  import opened Paging
  import opened Pte
  import opened PageTree
  import opened HeapLayout
  import opened HeapBlocks
  import Vmm

  // Pages between HEAP_START and the end of the 64-bit address space.
  const MAX_PAGES: nat := 0x4_0000
  const FLAGS: nat := 3

  // Sizes up to here can be rounded up to whole pages within 64 bits.
  const MAX_REQUEST: nat := TWO64 - 0x2000

  // The place of heap page p in the tables: the region hangs from entry 511 of entry 511.
  function PageVpn(p: nat): Vpn {
    Vpn(p % 512, p / 512, 511, 511)
  }

  lemma PageVpnIs(p: nat)
    requires p < MAX_PAGES
    ensures PageVpn(p) == VpnOf(HEAP_START + p * PAGE_SIZE) && InRange(PageVpn(p))
  {
    var a := HEAP_START + p * PAGE_SIZE;
    assert a / 0x1000 == 0xF_FFFF_FFFC_0000 + p;
    assert a / 0x20_0000 == 0x7FF_FFFF_FE00 + p / 512;
    assert a / 0x4000_0000 == 0x3_FFFF_FFFF && a / 0x80_0000_0000 == 0x1FF_FFFF;
  }

  lemma PageVpnDistinct(p: nat, q: nat)
    ensures PageVpn(p) == PageVpn(q) <==> p == q
  {
  }

  lemma PageVpnInRange(p: nat)
    requires p < MAX_PAGES
    ensures InRange(PageVpn(p))
  {
  }

  // The boot loader's tables let the mapper through everywhere in the heap's region.
  ghost predicate RegionOpen(mem: Memory, root: nat) {
    forall p :: 0 <= p < MAX_PAGES ==> See(mem, root, PageVpn(p)).noHuge && See(mem, root, PageVpn(p)).writable
  }

  // Page p of the heap is mapped to frames[p], present and writable.
  ghost predicate PageBacked(mem: Memory, root: nat, p: nat, frame: nat) {
    var x := See(mem, root, PageVpn(p));
    x.found == Page(frame + 3) && x.writable
  }

  // That is: present, writable, not for user programs, and leading to that frame.
  lemma PageIsKernels(mem: Memory, root: nat, p: nat, frame: nat)
    requires PageBacked(mem, root, p, frame) && IsFrame(frame)
    ensures var x := See(mem, root, PageVpn(p));
      && Present(x.found.entry) && Has(x.found.entry, WRITABLE) && !Has(x.found.entry, USER) && FrameOf(x.found.entry) == frame
      && WritablePage(x) && !UserPage(x)
  {
    KernelEntryBits(frame);
  }

  ghost predicate Backed(mem: Memory, root: nat, frames: seq<nat>) {
    forall p :: 0 <= p < |frames| ==> PageBacked(mem, root, p, frames[p])
  }

  // The frames behind the heap are distinct, in use, and hold no page table.
  ghost predicate Owned(used: seq<bool>, tabs: map<Pos, nat>, frames: seq<nat>) {
    && (forall p, q :: 0 <= p < q < |frames| ==> frames[p] != frames[q])
    && forall p :: 0 <= p < |frames| ==>
         IsFrame(frames[p]) && !Vmm.FrameFree(used, frames[p]) && frames[p] !in tabs.Values
  }

  // Taking frame f from the allocator.
  lemma OwnedAfterAlloc(used: seq<bool>, tabs: map<Pos, nat>, frames: seq<nat>, f: nat)
    requires Owned(used, tabs, frames) && Vmm.FrameFree(used, f) && IsFrame(f)
    requires forall q :: q in tabs ==> !Vmm.FrameFree(used, tabs[q])
    ensures var used' := used[f / PAGE_SIZE := true];
      && Owned(used', tabs, frames + [f])
      && forall q :: q in tabs ==> !Vmm.FrameFree(used', tabs[q])
  {
  }

  // New tables take free frames, so never one of the heap's.
  lemma OwnedAfterTables(used: seq<bool>, used': seq<bool>, tabs: map<Pos, nat>, tabs': map<Pos, nat>, frames: seq<nat>)
    requires Owned(used, tabs, frames) && Vmm.FreshTables(tabs, tabs', used, used')
    ensures Owned(used', tabs', frames)
  {
    forall p | 0 <= p < |frames| ensures !Vmm.FrameFree(used', frames[p]) && frames[p] !in tabs'.Values {
      assert !Vmm.FrameFree(used, frames[p]);
    }
  }

  // Mapping page |frames| of the heap leaves the others as they were.
  lemma BackedAfterMap(mem: Memory, mem': Memory, root: nat, frames: seq<nat>, f: nat)
    requires |frames| < MAX_PAGES && Backed(mem, root, frames)
    requires SameViewBut(mem, mem', root, PageVpn(|frames|)) && PageBacked(mem', root, |frames|, f)
    ensures Backed(mem', root, frames + [f])
  {
    forall p | 0 <= p < |frames| ensures PageBacked(mem', root, p, frames[p]) {
      PageVpnDistinct(p, |frames|);
      PageVpnInRange(p);
      assert PageBacked(mem, root, p, frames[p]);
    }
  }

  lemma RegionAfterMap(mem: Memory, mem': Memory, root: nat, v: Vpn)
    requires RegionOpen(mem, root) && SameViewBut(mem, mem', root, v)
    ensures RegionOpen(mem', root)
  {
    forall p | 0 <= p < MAX_PAGES
      ensures See(mem', root, PageVpn(p)).noHuge && See(mem', root, PageVpn(p)).writable
    {
      PageVpnInRange(p);
    }
  }

  // Everything the heap's future depends on.
  datatype World = World(layout: Layout, top: nat, bytes: map<nat, bv8>, hdr: map<nat, Header>, pages: nat, tables: Vmm.Snap)

  // The tables missing on the path of heap page p.
  function Missing(w: World, p: nat): nat {
    Vmm.Sees(w.tables, PageVpn(p)).missing
  }

  // The frames that the i-th further page costs: one for the page, and those for tables. The
  // whole region hangs from one table, so after the first page only a lowest table can be
  // missing, and only where a new one begins, every 512 pages.
  function PageCost(w: World, i: nat): nat {
    1 + (if i == 0 then Missing(w, w.pages) else if (w.pages + i) % 512 == 0 && Missing(w, w.pages + i) > 0 then 1 else 0)
  }

  // The frames that `pages` further pages cost.
  function Cost(w: World, pages: nat): (c: nat)
    ensures pages <= c <= 4 * pages
  {
    if pages == 0 then 0 else Cost(w, pages - 1) + PageCost(w, pages - 1)
  }

  // How many of the pages asked for, i of them in place, the frames suffice for.
  function GrantedFrom(w: World, pages: nat, i: nat): (g: nat)
    requires i <= pages
    ensures i <= g <= pages && (Cost(w, i) <= w.tables.free ==> Cost(w, g) <= w.tables.free)
    ensures g < pages ==> Cost(w, g + 1) > w.tables.free
    decreases pages - i
  {
    if i < pages && Cost(w, i + 1) <= w.tables.free then GrantedFrom(w, pages, i + 1) else i
  }

  function Granted(w: World, pages: nat): nat {
    GrantedFrom(w, pages, 0)
  }

  // Frames are left over that do not suffice for the next page and its tables.
  predicate Faults(w: World, pages: nat) {
    Granted(w, pages) < pages && Cost(w, Granted(w, pages)) < w.tables.free
  }

  // What is missing for pages further up once the heap has grown.
  ghost predicate TablesAfter(a: World, b: World) {
    a.pages <= b.pages && forall q :: b.pages <= q < MAX_PAGES ==>
      Missing(b, q) == if b.pages == a.pages then Missing(a, q) else MissingLater(a, b.pages - 1, q)
  }

  function MissingLater(w: World, last: nat, q: nat): nat {
    if q / 512 == last / 512 || Missing(w, q) == 0 then 0 else 1
  }

  // `pages` more pages at their exact cost, and no byte of a block in use changed.
  ghost predicate Expanded(a: World, b: World, pages: nat) {
    && b.layout == ExtendBy(a.layout, a.top, pages) && b.top == a.top + pages * PAGE_SIZE && b.pages == a.pages + pages
    && Kept(a.bytes, b.bytes, Live(a.layout))
    && a.tables.free - b.tables.free == Cost(a, pages) == pages + |b.tables.tabs| - |a.tables.tabs|
    && TablesAfter(a, b)
    && (pages == 0 ==> b == a)
  }

  // heap_expand adds the pages that the frames suffice for, and faults exactly if frames are
  // then left over although pages are wanted.
  ghost predicate ExpandOutcome(a: World, b: World, pages: nat, ok: bool) {
    && (ok <==> !Faults(a, pages)) && b.pages == a.pages + Granted(a, pages)
    && (ok ==> Expanded(a, b, Granted(a, pages)))
    && (!ok ==> b.tables.free == 0)
  }

  // The cost of the page after those is what it is missing now.
  lemma NextCost(a: World, b: World, i: nat)
    requires Expanded(a, b, i) && b.pages < MAX_PAGES
    ensures PageCost(a, i) == 1 + Missing(b, b.pages) && Cost(a, i + 1) == Cost(a, i) + PageCost(a, i)
  {
    if i > 0 {
      GroupStart(b.pages);
      assert Missing(b, b.pages) == MissingLater(a, b.pages - 1, b.pages);
    }
  }

  lemma GroupStart(p: nat)
    requires p > 0
    ensures p / 512 == (p - 1) / 512 <==> p % 512 != 0
  {
  }

  lemma TablesAfterMore(a: World, b: World, c: World)
    requires a.pages <= b.pages && c.pages == b.pages + 1 && TablesAfter(a, b) && TablesAfter(b, c)
    ensures TablesAfter(a, c)
  {
    forall q | c.pages <= q < MAX_PAGES ensures Missing(c, q) == MissingLater(a, c.pages - 1, q) {
      assert Missing(c, q) == MissingLater(b, b.pages, q);
      if b.pages > a.pages {
        assert Missing(b, q) == MissingLater(a, b.pages - 1, q);
        SameGroup(b.pages, q);
      }
    }
  }

  lemma SameGroup(p: nat, q: nat)
    requires 0 < p < q
    ensures q / 512 == (p - 1) / 512 ==> q / 512 == p / 512
  {
  }

  // heap_expand, asked for `pages` pages in world a, has added i of them.
  ghost predicate Underway(a: World, b: World, i: nat, pages: nat) {
    && WellFormed(a.layout, a.top) && a.top % 16 == 0 && i <= pages && Expanded(a, b, i)
    && GrantedFrom(a, pages, i) == Granted(a, pages)
  }

  lemma Begin(a: World, pages: nat)
    requires WellFormed(a.layout, a.top) && a.top % 16 == 0
    ensures Underway(a, a, 0, pages)
  {
  }

  // No frame left, or nothing more wanted: the expansion ends here.
  lemma StoppedAt(a: World, b: World, i: nat, pages: nat)
    requires i == pages || b.tables.free == 0
    ensures Underway(a, b, i, pages) ==> ExpandOutcome(a, b, pages, true)
  {
  }

  // Too few frames for page i: it ends in a page fault.
  lemma FaultedAt(a: World, b: World, c: World, i: nat, pages: nat)
    requires i < pages && b.pages < MAX_PAGES && c.pages == b.pages
    requires 0 < b.tables.free <= Missing(b, b.pages) && c.tables.free == 0
    ensures Underway(a, b, i, pages) ==> ExpandOutcome(a, c, pages, false)
  {
    if Underway(a, b, i, pages) {
      NextCost(a, b, i);
    }
  }

  // Four frames for each page are always enough.
  lemma FourEach(w: World, pages: nat)
    requires w.tables.free >= 4 * pages
    ensures Granted(w, pages) == pages && !Faults(w, pages)
  {
  }

  // With no frame nothing is added, and nothing faults.
  lemma NoFrames(w: World, pages: nat)
    requires w.tables.free == 0
    ensures Granted(w, pages) == 0 && !Faults(w, pages)
  {
  }

  // With some frames, but not one more than the tables missing for the first page, it faults.
  lemma TooFewForTables(w: World, pages: nat)
    requires pages > 0 && 0 < w.tables.free <= Missing(w, w.pages)
    ensures Faults(w, pages)
  {
    assert Cost(w, 1) == Cost(w, 0) + PageCost(w, 0);
  }

  // Two heap pages share all tables but perhaps the lowest.
  lemma PagesShare(p: nat, q: nat)
    requires p < MAX_PAGES && q < MAX_PAGES
    ensures PosOf(PageVpn(p), 2) == PosOf(PageVpn(q), 2)
    ensures PosOf(PageVpn(p), 1) == PosOf(PageVpn(q), 1) <==> p / 512 == q / 512
  {
    var v, w := PageVpn(p), PageVpn(q);
    PosOfInjective(v, w);
    assert PosOf(v, 3) == Sub(Root, 511) && PosOf(w, 3) == Sub(Root, 511);
    assert PosOf(v, 2) == Sub(PosOf(v, 3), 511) && PosOf(w, 2) == Sub(PosOf(w, 3), 511);
  }

  ghost predicate RegionTree(s: Vmm.Snap) {
    Vmm.Sound(s) && RegionOpen(s.mem, s.root)
  }

  lemma LowestThereIff(s: Vmm.Snap, p: nat)
    requires RegionTree(s) && p < MAX_PAGES
    ensures Vmm.Sees(s, PageVpn(p)).missing == 0 <==> PosOf(PageVpn(p), 1) in s.tabs
  {
    PageVpnInRange(p);
    assert PosOf(PageVpn(p), 4) == Root;
    MissingZeroIff(s.mem, s.tabs, PageVpn(p), 4);
  }

  // Once page n has its tables, a page further up misses its lowest table or nothing.
  lemma MissingAfterPage(s0: Vmm.Snap, s1: Vmm.Snap, n: nat, q: nat)
    requires RegionTree(s0) && RegionTree(s1) && n < MAX_PAGES && q < MAX_PAGES
    requires Vmm.FreshTables(s0.tabs, s1.tabs, s0.used, s1.used) && NewOnPath(s0.tabs, s1.tabs, PageVpn(n))
    requires Vmm.Sees(s1, PageVpn(n)).missing == 0
    ensures Vmm.Sees(s1, PageVpn(q)).missing
         == if q / 512 == n / 512 || Vmm.Sees(s0, PageVpn(q)).missing == 0 then 0 else 1
  {
    var v, w := PageVpn(n), PageVpn(q);
    PagesShare(n, q);
    LowestThereIff(s1, n);
    LowestThereIff(s1, q);
    LowestThereIff(s0, q);
    AncestorIn(s1.mem, s1.tabs, v, 1, 2);
    PageVpnInRange(q);
    MissingBelow(s1.mem, s1.tabs, w, 2, 4);
    assert PosOf(w, 4) == Root;
    if PosOf(w, 1) in s1.tabs && PosOf(w, 1) !in s0.tabs {
      assert PosOf(w, 1) == PosOf(v, Level(PosOf(w, 1)));
    }
  }

  // Page n has been mapped, at the cost of the tables it was missing.
  ghost predicate TopTaken(s0: Vmm.Snap, s1: Vmm.Snap, n: nat) {
    && RegionTree(s0) && RegionTree(s1) && s1.root == s0.root
    && Vmm.FreshTables(s0.tabs, s1.tabs, s0.used, s1.used) && NewOnPath(s0.tabs, s1.tabs, PageVpn(n))
    && Vmm.Sees(s1, PageVpn(n)).missing == 0
    && s0.free - s1.free == Vmm.Sees(s0, PageVpn(n)).missing == |s1.tabs| - |s0.tabs|
  }

  // From the frame taken for the page, to the page mapped: the bill.
  lemma PageBill(a: World, s: Vmm.Snap, b: World)
    requires a.pages < MAX_PAGES && b.pages == a.pages + 1 && TopTaken(s, b.tables, a.pages)
    requires s.mem == a.tables.mem && s.root == a.tables.root && s.tabs == a.tables.tabs && s.free == a.tables.free - 1
    ensures TablesAfter(a, b) && a.tables.free - b.tables.free == Cost(a, 1) == 1 + |b.tables.tabs| - |a.tables.tabs|
  {
    assert Cost(a, 1) == Cost(a, 0) + PageCost(a, 0);
    assert Missing(a, a.pages) == Vmm.Sees(s, PageVpn(a.pages)).missing;
    forall q | b.pages <= q < MAX_PAGES ensures Missing(b, q) == MissingLater(a, b.pages - 1, q) {
      MissingAfterPage(s, b.tables, a.pages, q);
      assert Missing(a, q) == Vmm.Sees(s, PageVpn(q)).missing;
    }
  }

  // Whether the store to the top page succeeds.
  lemma TopMapped(s0: Vmm.Snap, s1: Vmm.Snap, n: nat, phys: nat)
    requires n < MAX_PAGES && RegionTree(s0) && Vmm.Sound(s1) && s0.free >= 0 && IsFrame(phys)
    requires Vmm.MapOutcome(s0, s1, PageVpn(n), phys, FLAGS)
    ensures WritablePage(Vmm.Sees(s1, PageVpn(n))) <==> Vmm.Sees(s0, PageVpn(n)).missing <= s0.free
    ensures if WritablePage(Vmm.Sees(s1, PageVpn(n))) then
              TopTaken(s0, s1, n) && SameViewBut(s0.mem, s1.mem, s0.root, PageVpn(n)) && PageBacked(s1.mem, s1.root, n, phys)
            else s1.free == 0
  {
    var x := Vmm.Sees(s0, PageVpn(n));
    assert Has(FLAGS, WRITABLE) && x.writable && x.noHuge;
    KernelEntry(phys, FLAGS);
    if x.missing > s0.free {
      Vmm.MapTooFew(s0, s1, PageVpn(n), phys, FLAGS);
    } else {
      RegionAfterMap(s0.mem, s1.mem, s0.root, PageVpn(n));
    }
  }

  // So the next page of the heap gets its frame, or the frames are gone.
  ghost predicate TopOutcome(s0: Vmm.Snap, s1: Vmm.Snap, frames: seq<nat>, phys: nat, ok: bool) {
    var enough := Vmm.Sees(s0, PageVpn(|frames|)).missing <= s0.free;
    match ok
    case true =>
      && enough && TopTaken(s0, s1, |frames|)
      && Backed(s1.mem, s1.root, frames + [phys]) && Owned(s1.used, s1.tabs, frames + [phys])
    case false => !enough && s1.free == 0
  }

  lemma TopBacked(s0: Vmm.Snap, s1: Vmm.Snap, frames: seq<nat>, phys: nat)
    requires |frames| < MAX_PAGES && RegionTree(s0) && s0.free >= 0
    requires Backed(s0.mem, s0.root, frames) && Owned(s0.used, s0.tabs, frames + [phys])
    ensures Vmm.MapResult(s0, s1, PageVpn(|frames|), phys, FLAGS) && (Vmm.Tame(s0, PageVpn(|frames|)) ==> Vmm.Sound(s1)) ==>
              TopOutcome(s0, s1, frames, phys, WritablePage(Vmm.Sees(s1, PageVpn(|frames|))))
  {
    assert Vmm.Sees(s0, PageVpn(|frames|)).noHuge;
    assert (frames + [phys])[|frames|] == phys;
    if Vmm.MapResult(s0, s1, PageVpn(|frames|), phys, FLAGS) && Vmm.Sound(s1) {
      TopMapped(s0, s1, |frames|, phys);
      if WritablePage(Vmm.Sees(s1, PageVpn(|frames|))) {
        BackedAfterMap(s0.mem, s1.mem, s0.root, frames, phys);
        OwnedAfterTables(s0.used, s1.used, s0.tabs, s1.tabs, frames + [phys]);
      }
    }
  }

  lemma ExtendByOne(l: Layout, top: nat)
    ensures ExtendBy(l, top, 1) == Extend(l, top)
  {
    assert ExtendBy(l, top, 0) == l;
  }

  lemma OneMoreBlock(a: World, b: World, c: World, i: nat)
    requires WellFormed(a.layout, a.top) && a.top % 16 == 0 && Expanded(a, b, i) && Expanded(b, c, 1)
    ensures c.layout == ExtendBy(a.layout, a.top, i + 1) && Kept(a.bytes, c.bytes, Live(a.layout))
  {
    OneMoreStep(a.layout, a.top, i);
    KeptTrans(a.bytes, b.bytes, c.bytes, Live(a.layout));
  }

  lemma OneMoreStep(l: Layout, top: nat, i: nat)
    requires WellFormed(l, top) && top % 16 == 0
    ensures ExtendBy(l, top, i + 1) == ExtendBy(ExtendBy(l, top, i), top + i * PAGE_SIZE, 1)
    ensures Live(ExtendBy(l, top, i)) == Live(l)
  {
    ExtendByOne(ExtendBy(l, top, i), top + i * PAGE_SIZE);
    ExtendByWellFormed(l, top, i);
  }

  lemma OneMoreBill(a: World, b: World, c: World, i: nat)
    requires Expanded(a, b, i) && Expanded(b, c, 1) && b.pages < MAX_PAGES
    ensures a.tables.free - c.tables.free == Cost(a, i + 1) == i + 1 + |c.tables.tabs| - |a.tables.tabs|
  {
    NextCost(a, b, i);
    assert Cost(b, 1) == Cost(b, 0) + PageCost(b, 0);
  }

  lemma ExpandedMore(a: World, b: World, c: World, i: nat, pages: nat)
    requires c.tables.free >= 0 && b.pages < MAX_PAGES && i < pages
    ensures Underway(a, b, i, pages) && Expanded(b, c, 1) ==> Underway(a, c, i + 1, pages)
  {
    if Underway(a, b, i, pages) && Expanded(b, c, 1) {
      OneMoreBlock(a, b, c, i);
      OneMoreBill(a, b, c, i);
      TablesAfterMore(a, b, c);
    }
  }
}
