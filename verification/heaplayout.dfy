// The kernel heap as a row of blocks: what the allocator's list operations do to it, and the
// properties every run keeps.

module HeapLayout {
  import opened Paging

  const HEAP_START: nat := 0xffff_ffff_c000_0000
  const HEADER: nat := 32

  datatype Block = Block(addr: nat, size: nat, free: bool) {
    function End(): nat { addr + HEADER + size }
    function Payload(): nat { addr + HEADER }
  }

  type Layout = seq<Block>

  // The blocks tile [HEAP_START, top) exactly, in address order.
  ghost predicate Tiled(l: Layout, top: nat) {
    && (l == [] ==> top == HEAP_START)
    && (l != [] ==> l[0].addr == HEAP_START && l[|l| - 1].End() == top)
    && forall i {:trigger Adjoins(l, i)} :: 0 <= i < |l| - 1 ==> Adjoins(l, i)
  }

  ghost predicate Adjoins(l: Layout, i: nat)
    requires i + 1 < |l|
  {
    l[i].End() == l[i + 1].addr
  }

  // Sizes and addresses are multiples of 16.
  ghost predicate Aligned(l: Layout) {
    forall i :: 0 <= i < |l| ==> l[i].size % 16 == 0 && l[i].addr % 16 == 0
  }

  ghost predicate Sized(l: Layout) {
    forall i :: 0 <= i < |l| ==> l[i].size > 0
  }

  // No two neighbours are both free.
  ghost predicate Coalesced(l: Layout) {
    forall i {:trigger Apart(l, i)} :: 0 <= i < |l| - 1 ==> Apart(l, i)
  }

  ghost predicate Apart(l: Layout, i: nat)
    requires i + 1 < |l|
  {
    !(l[i].free && l[i + 1].free)
  }

  ghost predicate WellFormed(l: Layout, top: nat) {
    Tiled(l, top) && Sized(l) && Aligned(l) && Coalesced(l)
  }

  lemma {:induction false} Ordered(l: Layout, top: nat, i: nat, j: nat)
    requires Tiled(l, top) && i < j < |l|
    ensures l[i].End() <= l[j].addr
  {
    assert Adjoins(l, j - 1);
    if i < j - 1 {
      Ordered(l, top, i, j - 1);
    }
  }

  // The index of the lowest free block of at least n bytes, or |l|.
  function FirstFit(l: Layout, n: nat): (i: nat)
    ensures i <= |l|
    ensures i < |l| ==> l[i].free && l[i].size >= n
    ensures forall j :: 0 <= j < i ==> !(l[j].free && l[j].size >= n)
  {
    if l == [] || (l[0].free && l[0].size >= n) then 0 else 1 + FirstFit(l[1..], n)
  }

  lemma FirstFitIs(l: Layout, n: nat, i: nat)
    requires i <= |l| && (i < |l| ==> l[i].free && l[i].size >= n)
    requires forall j :: 0 <= j < i ==> !(l[j].free && l[j].size >= n)
    ensures i == FirstFit(l, n)
  {
  }

  // Takes n bytes from block i, splitting off the rest when a block fits in it.
  function Carve(l: Layout, i: nat, n: nat): Layout
    requires i < |l| && l[i].size >= n
  {
    var b := l[i];
    if b.size >= n + HEADER + 16 then
      Split(l, i, Block(b.addr, n, false), Block(b.addr + HEADER + n, b.size - n - HEADER, true))
    else
      Mark(l, i, false)
  }

  // Block i absorbs its right neighbour.
  function Merge(l: Layout, i: nat): (r: Layout)
    requires i + 1 < |l|
    ensures |r| == |l| - 1
    ensures forall k :: 0 <= k < |r| ==>
              r[k] == if k < i then l[k] else if k == i then l[i].(size := l[i].size + HEADER + l[i + 1].size) else l[k + 1]
  {
    l[..i] + [l[i].(size := l[i].size + HEADER + l[i + 1].size)] + l[i + 2..]
  }

  function MergeIfFree(l: Layout, i: nat): Layout
    requires i < |l|
  {
    if i + 1 < |l| && l[i].free && l[i + 1].free then Merge(l, i) else l
  }

  // Frees block i and coalesces it with its neighbours, right then left.
  function Release(l: Layout, i: nat): Layout
    requires i < |l|
  {
    var right := MergeIfFree(Mark(l, i, true), i);
    if i > 0 then MergeIfFree(right, i - 1) else right
  }

  // One more page at the top, joined to the last block if that is free.
  function Extend(l: Layout, top: nat): Layout {
    var grown := l + [Block(top, PAGE_SIZE - HEADER, true)];
    if l == [] then grown else MergeIfFree(grown, |l| - 1)
  }

  // The row with block i replaced by two.
  function Split(l: Layout, i: nat, x: Block, y: Block): (r: Layout)
    requires i < |l|
    ensures |r| == |l| + 1
    ensures forall k :: 0 <= k < |r| ==> r[k] == if k < i then l[k] else if k == i then x else if k == i + 1 then y else l[k - 1]
  {
    l[..i] + [x, y] + l[i + 1..]
  }

  lemma SplitTiled(l: Layout, top: nat, i: nat, x: Block, y: Block)
    requires Tiled(l, top) && Sized(l) && i < |l| && x.size > 0 && y.size > 0
    requires x.addr == l[i].addr && x.End() == y.addr && y.End() == l[i].End()
    ensures Tiled(Split(l, i, x, y), top) && Sized(Split(l, i, x, y))
  {
    var r := Split(l, i, x, y);
    forall k | 0 <= k < |r| - 1 ensures Adjoins(r, k) {
      if k < i {
        assert Adjoins(l, k);
      } else if k > i {
        assert Adjoins(l, k - 1);
      }
    }
  }

  lemma SplitApart(l: Layout, i: nat, x: Block, y: Block)
    requires Coalesced(l) && i < |l| && l[i].free && !x.free
    ensures Coalesced(Split(l, i, x, y))
  {
    var r := Split(l, i, x, y);
    forall k | 0 <= k < |r| - 1 ensures Apart(r, k) {
      if k < i {
        assert Apart(l, k);
      } else if k > i {
        assert Apart(l, k - 1);
      }
    }
  }

  // The row with block i marked.
  function Mark(l: Layout, i: nat, free: bool): (r: Layout)
    requires i < |l|
    ensures |r| == |l| && forall k :: 0 <= k < |r| ==> r[k] == if k == i then l[i].(free := free) else l[k]
  {
    l[i := l[i].(free := free)]
  }

  lemma MarkTiled(l: Layout, top: nat, i: nat, free: bool)
    requires Tiled(l, top) && Sized(l) && i < |l|
    ensures Tiled(Mark(l, i, free), top) && Sized(Mark(l, i, free))
  {
    var r := Mark(l, i, free);
    forall k | 0 <= k < |r| - 1 ensures Adjoins(r, k) {
      assert Adjoins(l, k);
    }
  }

  lemma MarkUsedApart(l: Layout, i: nat)
    requires Coalesced(l) && i < |l|
    ensures Coalesced(Mark(l, i, false))
  {
    var r := Mark(l, i, false);
    forall k | 0 <= k < |r| - 1 ensures Apart(r, k) {
      assert Apart(l, k);
    }
  }

  lemma CarveTiled(l: Layout, top: nat, i: nat, n: nat)
    requires Tiled(l, top) && Sized(l) && i < |l| && l[i].size >= n > 0
    ensures Tiled(Carve(l, i, n), top) && Sized(Carve(l, i, n))
  {
    if l[i].size >= n + HEADER + 16 {
      var x, y := Block(l[i].addr, n, false), Block(l[i].addr + HEADER + n, l[i].size - n - HEADER, true);
      assert Carve(l, i, n) == Split(l, i, x, y);
      SplitTiled(l, top, i, x, y);
    } else {
      assert Carve(l, i, n) == Mark(l, i, false);
      MarkTiled(l, top, i, false);
    }
  }

  lemma CarveAligned(l: Layout, i: nat, n: nat)
    requires Aligned(l) && i < |l| && l[i].size >= n && n % 16 == 0
    ensures Aligned(Carve(l, i, n))
  {
  }

  lemma CarveApart(l: Layout, i: nat, n: nat)
    requires Coalesced(l) && i < |l| && l[i].free && l[i].size >= n
    ensures Coalesced(Carve(l, i, n))
  {
    var b := l[i];
    if b.size >= n + HEADER + 16 {
      SplitApart(l, i, Block(b.addr, n, false), Block(b.addr + HEADER + n, b.size - n - HEADER, true));
    } else {
      MarkUsedApart(l, i);
    }
  }

  lemma CarveWellFormed(l: Layout, top: nat, i: nat, n: nat)
    requires WellFormed(l, top) && i < |l| && l[i].free && l[i].size >= n > 0 && n % 16 == 0
    ensures WellFormed(Carve(l, i, n), top)
  {
    CarveTiled(l, top, i, n);
    CarveAligned(l, i, n);
    CarveApart(l, i, n);
  }

  lemma MergeTiled(l: Layout, top: nat, i: nat)
    requires Tiled(l, top) && Sized(l) && i + 1 < |l|
    ensures Tiled(Merge(l, i), top) && Sized(Merge(l, i))
  {
    var r := Merge(l, i);
    assert Adjoins(l, i);
    forall k | 0 <= k < |r| - 1 ensures Adjoins(r, k) {
      if k < i { assert Adjoins(l, k); } else { assert Adjoins(l, k + 1); }
    }
  }

  // Neighbours are apart, except possibly around block i.
  ghost predicate ApartBut(l: Layout, i: nat) {
    forall j {:trigger Apart(l, j)} :: 0 <= j < |l| - 1 && j != i && j + 1 != i ==> Apart(l, j)
  }

  lemma ReleaseTiled(l: Layout, top: nat, i: nat)
    requires Tiled(l, top) && Sized(l) && i < |l|
    ensures Tiled(Release(l, i), top) && Sized(Release(l, i))
  {
    var marked := Mark(l, i, true);
    MarkTiled(l, top, i, true);
    if i + 1 < |l| { MergeTiled(marked, top, i); }
    if i > 0 { MergeTiled(MergeIfFree(marked, i), top, i - 1); }
  }

  lemma SumAligned(x: nat, y: nat)
    requires x % 16 == 0 && y % 16 == 0
    ensures (x + HEADER + y) % 16 == 0
  {
  }

  lemma MergeAligned(l: Layout, i: nat)
    requires Aligned(l) && i < |l|
    ensures Aligned(MergeIfFree(l, i)) && |MergeIfFree(l, i)| > i
  {
    if i + 1 < |l| && l[i].free && l[i + 1].free {
      var r := Merge(l, i);
      SumAligned(l[i].size, l[i + 1].size);
      forall k | 0 <= k < |r| ensures r[k].addr % 16 == 0 && r[k].size % 16 == 0 {
        assert k > i ==> r[k] == l[k + 1];
      }
      assert Aligned(r);
    }
  }

  lemma ReleaseAligned(l: Layout, i: nat)
    requires Aligned(l) && i < |l|
    ensures Aligned(Release(l, i))
  {
    var marked := Mark(l, i, true);
    MergeAligned(marked, i);
    if i > 0 { MergeAligned(MergeIfFree(marked, i), i - 1); }
  }

  lemma ReleaseApart(l: Layout, i: nat)
    requires Coalesced(l) && i < |l|
    ensures Coalesced(Release(l, i))
  {
    var marked := Mark(l, i, true);
    forall j | 0 <= j < |l| - 1 && j != i && j + 1 != i ensures Apart(marked, j) {
      assert Apart(l, j);
    }
    var right := MergeIfFree(marked, i);
    if i + 2 < |l| { assert Apart(l, i + 1); }
    MergeRightApart(marked, i);
    if i > 0 {
      if i > 1 { assert Apart(l, i - 2); }
      MergeLeftApart(right, i);
    }
  }

  lemma ReleaseWellFormed(l: Layout, top: nat, i: nat)
    requires WellFormed(l, top) && i < |l|
    ensures WellFormed(Release(l, i), top)
  {
    ReleaseTiled(l, top, i);
    ReleaseAligned(l, i);
    ReleaseApart(l, i);
  }

  lemma MergeRightApart(l: Layout, i: nat)
    requires i < |l| && l[i].free && ApartBut(l, i)
    ensures var r := MergeIfFree(l, i);
      |r| > i && r[i].free && ApartBut(r, i) && (i + 1 < |r| ==> Apart(r, i))
      && forall k :: 0 <= k < i ==> r[k] == l[k]
  {
    if i + 1 < |l| && l[i + 1].free {
      var r := Merge(l, i);
      forall j | i <= j < |r| - 1 ensures Apart(r, j) {
        assert Apart(l, j + 1);
      }
      forall j | 0 <= j < i - 1 ensures Apart(r, j) {
        assert Apart(l, j);
      }
    }
  }

  lemma MergeLeftApart(l: Layout, i: nat)
    requires 0 < i < |l| && l[i].free && ApartBut(l, i) && (i + 1 < |l| ==> Apart(l, i))
    ensures Coalesced(MergeIfFree(l, i - 1))
  {
    var r := MergeIfFree(l, i - 1);
    forall j | 0 <= j < |r| - 1 ensures Apart(r, j) {
      if j < i - 1 || !l[i - 1].free {
        assert j == i - 1 || j == i || Apart(l, j);
        if j + 2 == i { assert Apart(l, j); }
      } else {
        assert Apart(l, j + 1);
      }
    }
  }

  lemma ExtendTiled(l: Layout, top: nat)
    requires Tiled(l, top) && Sized(l)
    ensures Tiled(Extend(l, top), top + PAGE_SIZE) && Sized(Extend(l, top))
  {
    var grown := l + [Block(top, PAGE_SIZE - HEADER, true)];
    forall k | 0 <= k < |grown| - 1 ensures Adjoins(grown, k) {
      if k < |l| - 1 { assert Adjoins(l, k); }
    }
    if l != [] { MergeTiled(grown, top + PAGE_SIZE, |l| - 1); }
  }

  lemma ExtendAligned(l: Layout, top: nat)
    requires Aligned(l) && top % 16 == 0
    ensures Aligned(Extend(l, top))
  {
    var grown := l + [Block(top, PAGE_SIZE - HEADER, true)];
    if l != [] { MergeAligned(grown, |l| - 1); }
  }

  lemma ExtendApart(l: Layout, top: nat)
    requires Coalesced(l)
    ensures Coalesced(Extend(l, top))
  {
    var r := Extend(l, top);
    forall k | 0 <= k < |r| - 1 ensures Apart(r, k) {
      if k < |l| - 1 { assert Apart(l, k); }
    }
  }

  lemma ExtendWellFormed(l: Layout, top: nat)
    requires WellFormed(l, top) && top % 16 == 0
    ensures WellFormed(Extend(l, top), top + PAGE_SIZE)
  {
    ExtendTiled(l, top);
    ExtendAligned(l, top);
    ExtendApart(l, top);
  }

  // Allocating and freeing at once restores the very same row of blocks.
  lemma CarveReleaseRoundTrip(l: Layout, top: nat, i: nat, n: nat)
    requires WellFormed(l, top) && i < |l| && l[i].free && l[i].size >= n
    ensures Release(Carve(l, i, n), i) == l
  {
    if i + 1 < |l| { assert Apart(l, i); }
    if i > 0 { assert Apart(l, i - 1); }
    CarveMergeRight(l, i, n);
    assert MergeIfFree(Mark(Carve(l, i, n), i, true), i) == l;
  }

  // Marked free again, the carved block takes back what was split off it.
  lemma CarveMergeRight(l: Layout, i: nat, n: nat)
    requires i < |l| && l[i].free && l[i].size >= n && (i + 1 < |l| ==> !l[i + 1].free)
    ensures MergeIfFree(Mark(Carve(l, i, n), i, true), i) == l
  {
    if l[i].size >= n + HEADER + 16 {
      var x, y := Block(l[i].addr, n, false), Block(l[i].addr + HEADER + n, l[i].size - n - HEADER, true);
      assert Carve(l, i, n) == Split(l, i, x, y);
      var marked := Mark(Split(l, i, x, y), i, true);
      assert Merge(marked, i) == l;
    } else {
      assert Carve(l, i, n) == Mark(l, i, false);
      assert Mark(Mark(l, i, false), i, true) == l;
    }
  }

  // The blocks in use.
  ghost function Live(l: Layout): set<Block> {
    set b | b in l && !b.free
  }

  lemma AddressUnique(l: Layout, top: nat, i: nat, j: nat)
    requires Tiled(l, top) && i < |l| && j < |l| && l[i].addr == l[j].addr
    ensures i == j
  {
    if i < j { Ordered(l, top, i, j); } else if j < i { Ordered(l, top, j, i); }
  }

  // A payload overlaps no header and no other payload.
  lemma PayloadsDisjoint(l: Layout, top: nat, i: nat, j: nat)
    requires Tiled(l, top) && i < |l| && j < |l|
    ensures l[i].End() <= l[j].addr || l[j].End() <= l[i].addr || i == j
    ensures HEAP_START <= l[i].addr && l[i].End() <= top
  {
    if i < j { Ordered(l, top, i, j); } else if j < i { Ordered(l, top, j, i); }
    if i > 0 { Ordered(l, top, 0, i); }
    if i < |l| - 1 { Ordered(l, top, i, |l| - 1); }
  }

  lemma MergeLive(l: Layout, i: nat)
    requires i < |l|
    ensures Live(MergeIfFree(l, i)) == Live(l)
  {
    var r := MergeIfFree(l, i);
    if r != l {
      forall b: Block | !b.free ensures b in r <==> b in l {
        if b in l {
          var k :| 0 <= k < |l| && l[k] == b;
          assert r[if k < i then k else k - 1] == b;
        }
      }
    }
  }

  lemma MarkLive(l: Layout, top: nat, i: nat, free: bool)
    requires Tiled(l, top) && i < |l|
    ensures Live(Mark(l, i, free)) == if free then Live(l) - {l[i].(free := false)} else Live(l) + {l[i].(free := false)}
  {
    var r := Mark(l, i, free);
    forall b: Block | !b.free ensures b in r <==> (if b == l[i].(free := false) then !free else b in l) {
      if b in l {
        var k :| 0 <= k < |l| && l[k] == b;
        assert r[k] == b || k == i;
      }
      if b in r {
        var k :| 0 <= k < |l| && r[k] == b;
        if b == l[i].(free := false) { AddressUnique(l, top, k, i); }
      }
      assert r[i] == l[i].(free := free);
    }
  }

  lemma NewBlock(l: Layout, top: nat, i: nat, b: Block)
    requires Tiled(l, top) && i < |l| && l[i].free && b.addr == l[i].addr
    ensures b !in Live(l)
  {
    if b in l {
      var k :| 0 <= k < |l| && l[k] == b;
      AddressUnique(l, top, i, k);
    }
  }

  // Allocation adds one block to those in use, and touches no other.
  lemma CarveLive(l: Layout, top: nat, i: nat, n: nat)
    requires WellFormed(l, top) && i < |l| && l[i].free && l[i].size >= n
    ensures var b := Carve(l, i, n)[i];
      b.addr == l[i].addr && n <= b.size < n + 48 && !b.free && b !in Live(l)
      && Live(Carve(l, i, n)) == Live(l) + {b}
  {
    var r := Carve(l, i, n);
    NewBlock(l, top, i, r[i]);
    if |r| == |l| {
      MarkLive(l, top, i, false);
    } else {
      forall b: Block | !b.free ensures b in r <==> b == r[i] || b in l {
        if b in l {
          var k :| 0 <= k < |l| && l[k] == b;
          assert r[if k < i then k else k + 1] == b;
        }
      }
    }
  }

  // The carved block is the one found at the payload address handed out.
  lemma CarvedBlock(l: Layout, top: nat, i: nat, n: nat)
    requires WellFormed(l, top) && i < |l| && l[i].free && l[i].size >= n > 0 && n % 16 == 0
    ensures var r, ptr := Carve(l, i, n), l[i].Payload();
      Find(r, ptr) == i < |r| && ptr % 16 == 0 && !r[i].free && r[i].size >= n
      && r[i] !in Live(l) && Live(r) == Live(l) + {r[i]}
  {
    var r := Carve(l, i, n);
    CarveTiled(l, top, i, n);
    CarveLive(l, top, i, n);
    AddressUnique(r, top, Find(r, l[i].Payload()), i);
  }

  lemma ReleaseLive(l: Layout, top: nat, i: nat)
    requires WellFormed(l, top) && i < |l| && !l[i].free
    ensures Live(Release(l, i)) == Live(l) - {l[i]}
  {
    var marked := Mark(l, i, true);
    MarkLive(l, top, i, true);
    MergeLive(marked, i);
    MergeRightKeeps(marked, i);
    if i > 0 { MergeLive(MergeIfFree(marked, i), i - 1); }
  }

  lemma MergeRightKeeps(l: Layout, i: nat)
    requires i < |l|
    ensures |MergeIfFree(l, i)| > i
  {
  }

  lemma ExtendLive(l: Layout, top: nat)
    ensures Live(Extend(l, top)) == Live(l)
  {
    var grown := l + [Block(top, PAGE_SIZE - HEADER, true)];
    assert Live(grown) == Live(l);
    if l != [] { MergeLive(grown, |l| - 1); }
  }

  lemma OneInUse(l: Layout)
    requires Coalesced(l) && |l| > 1
    ensures exists b :: b in l && !b.free
  {
    assert Apart(l, 0);
    assert l[0] in l && l[1] in l;
  }

  // With nothing in use the heap is a single free block.
  lemma AllFreeIsOneBlock(l: Layout, top: nat)
    requires WellFormed(l, top) && l != [] && Live(l) == {}
    ensures top >= HEAP_START + HEADER && l == [Block(HEAP_START, top - HEAP_START - HEADER, true)]
  {
    forall b | b in l ensures b.free {
      assert b.free || b in Live(l);
    }
    assert l[0] in l;
    if |l| > 1 { OneInUse(l); }
  }

  // Pages added at the top one after another.
  function ExtendBy(l: Layout, top: nat, pages: nat): Layout {
    if pages == 0 then l else Extend(ExtendBy(l, top, pages - 1), top + (pages - 1) * PAGE_SIZE)
  }

  lemma {:induction false} ExtendByWellFormed(l: Layout, top: nat, pages: nat)
    requires WellFormed(l, top) && top % 16 == 0
    ensures WellFormed(ExtendBy(l, top, pages), top + pages * PAGE_SIZE)
    ensures Live(ExtendBy(l, top, pages)) == Live(l)
  {
    if pages > 0 {
      ExtendByWellFormed(l, top, pages - 1);
      var before, end := ExtendBy(l, top, pages - 1), top + (pages - 1) * PAGE_SIZE;
      TopAligned(top, pages);
      OneMorePage(before, end);
      assert ExtendBy(l, top, pages) == Extend(before, end);
    }
  }

  lemma TopAligned(top: nat, pages: nat)
    requires top % 16 == 0 && pages > 0
    ensures var end := top + (pages - 1) * PAGE_SIZE;
      end % 16 == 0 && end + PAGE_SIZE == top + pages * PAGE_SIZE
  {
  }

  lemma OneMorePage(l: Layout, top: nat)
    requires WellFormed(l, top) && top % 16 == 0
    ensures WellFormed(Extend(l, top), top + PAGE_SIZE) && Live(Extend(l, top)) == Live(l)
  {
    ExtendWellFormed(l, top);
    ExtendLive(l, top);
  }

  // Once the pages asked for are there, the last block is free and spans them all.
  lemma {:induction false} ExtendByTail(l: Layout, top: nat, pages: nat)
    requires pages > 0
    ensures var r := ExtendBy(l, top, pages);
      r != [] && r[|r| - 1].free && r[|r| - 1].size >= pages * PAGE_SIZE - HEADER
  {
    if pages > 1 {
      ExtendByTail(l, top, pages - 1);
    }
  }

  // So a request that those pages can hold is served after the heap has grown.
  lemma ExtendByFits(l: Layout, top: nat, pages: nat, n: nat)
    requires pages > 0 && n + HEADER <= pages * PAGE_SIZE
    ensures FirstFit(ExtendBy(l, top, pages), n) < |ExtendBy(l, top, pages)|
  {
    ExtendByTail(l, top, pages);
    var r := ExtendBy(l, top, pages);
    var last := r[|r| - 1];
    assert last.free && last.size >= n;
  }

  // The index of the block with the given payload address, or |l|.
  function Find(l: Layout, ptr: nat): (i: nat)
    ensures i <= |l|
    ensures i < |l| ==> l[i].Payload() == ptr
    ensures i == |l| ==> forall k :: 0 <= k < |l| ==> l[k].Payload() != ptr
  {
    if l == [] || l[0].Payload() == ptr then 0 else 1 + Find(l[1..], ptr)
  }

  // One step of a run: allocate by first fit, free a pointer in use, or gain a page.
  datatype Op = Malloc(n: nat) | Free(ptr: nat) | NewPage

  datatype Heap = Heap(layout: Layout, top: nat)

  predicate Allowed(h: Heap, op: Op) {
    match op
    case Malloc(n) => n > 0 && n % 16 == 0
    case Free(ptr) => Find(h.layout, ptr) < |h.layout| && !h.layout[Find(h.layout, ptr)].free
    case NewPage => h.top % 16 == 0
  }

  function Step(h: Heap, op: Op): Heap {
    match op
    case Malloc(n) =>
      var i := FirstFit(h.layout, n);
      if i == |h.layout| then h else Heap(Carve(h.layout, i, n), h.top)
    case Free(ptr) =>
      var i := Find(h.layout, ptr);
      if i == |h.layout| then h else Heap(Release(h.layout, i), h.top)
    case NewPage => Heap(Extend(h.layout, h.top), h.top + PAGE_SIZE)
  }

  predicate AllowedRun(ops: seq<Op>, h: Heap) {
    ops == [] || (Allowed(h, ops[0]) && AllowedRun(ops[1..], Step(h, ops[0])))
  }

  function Run(ops: seq<Op>, h: Heap): Heap {
    if ops == [] then h else Run(ops[1..], Step(h, ops[0]))
  }

  ghost predicate Reaches(ops: seq<Op>, h: Heap, h': Heap) {
    AllowedRun(ops, h) && Run(ops, h) == h'
  }

  lemma StepSafe(h: Heap, op: Op)
    requires WellFormed(h.layout, h.top) && Allowed(h, op)
    ensures var h' := Step(h, op);
      && WellFormed(h'.layout, h'.top)
      && forall b :: b in Live(h.layout) && op != Free(b.Payload()) ==> b in Live(h'.layout)
  {
    var l := h.layout;
    match op
    case Malloc(n) =>
      var i := FirstFit(l, n);
      if i < |l| {
        CarveWellFormed(l, h.top, i, n);
        CarveLive(l, h.top, i, n);
      }
    case Free(ptr) =>
      var i := Find(l, ptr);
      ReleaseWellFormed(l, h.top, i);
      ReleaseLive(l, h.top, i);
    case NewPage =>
      ExtendWellFormed(l, h.top);
      ExtendLive(l, h.top);
  }

  // Over every run that frees only pointers in use, the blocks tile the heap, and a block in
  // use stays where it is, at its size, until its own pointer is freed.
  lemma {:induction false} RunSafe(ops: seq<Op>, h: Heap)
    requires WellFormed(h.layout, h.top) && AllowedRun(ops, h)
    ensures var h' := Run(ops, h);
      && WellFormed(h'.layout, h'.top)
      && forall b :: b in Live(h.layout) && Free(b.Payload()) !in ops ==> b in Live(h'.layout)
  {
    if ops != [] {
      StepSafe(h, ops[0]);
      RunSafe(ops[1..], Step(h, ops[0]));
    }
  }

  lemma {:induction false} RunJoin(a: seq<Op>, b: seq<Op>, h: Heap)
    ensures Run(a + b, h) == Run(b, Run(a, h))
    ensures AllowedRun(a + b, h) <==> AllowedRun(a, h) && AllowedRun(b, Run(a, h))
  {
    if a == [] {
      assert a + b == b;
    } else {
      assert (a + b)[1..] == a[1..] + b;
      RunJoin(a[1..], b, Step(h, a[0]));
    }
  }

  function NewPages(pages: nat): seq<Op> {
    if pages == 0 then [] else NewPages(pages - 1) + [NewPage]
  }

  lemma ReachThen(a: seq<Op>, op: Op, h: Heap, h': Heap)
    requires Reaches(a, h, h') && Allowed(h', op)
    ensures Reaches(a + [op], h, Step(h', op))
  {
    RunJoin(a, [op], h);
    RunOne(op, h');
  }

  lemma RunOne(op: Op, h: Heap)
    ensures Run([op], h) == Step(h, op) && (AllowedRun([op], h) <==> Allowed(h, op))
  {
    assert [op][1..] == [];
  }

  function Gained(h: Heap, pages: nat): Heap {
    Heap(ExtendBy(h.layout, h.top, pages), h.top + pages * PAGE_SIZE)
  }

  lemma GainOne(h: Heap, pages: nat)
    requires h.top % 16 == 0 && pages > 0
    ensures Allowed(Gained(h, pages - 1), NewPage) && Step(Gained(h, pages - 1), NewPage) == Gained(h, pages)
  {
    TopAligned(h.top, pages);
  }

  lemma ReachNone(h: Heap)
    ensures Reaches([], h, Gained(h, 0))
  {
    assert Gained(h, 0) == h;
  }

  // Gaining pages is a run of its own.
  lemma {:induction false} RunNewPages(pages: nat, h: Heap)
    requires h.top % 16 == 0
    ensures Reaches(NewPages(pages), h, Gained(h, pages))
  {
    if pages == 0 {
      ReachNone(h);
    } else {
      RunNewPages(pages - 1, h);
      GainOne(h, pages);
      ReachThen(NewPages(pages - 1), NewPage, h, Gained(h, pages - 1));
    }
  }

  ghost function Payloads(s: set<Block>): set<nat> {
    set b | b in s :: b.Payload()
  }

  ghost function LivePayloads(l: Layout): set<nat> {
    Payloads(Live(l))
  }

  lemma PayloadsMinus(s: set<Block>, b: Block)
    requires b in s && forall c :: c in s && c.Payload() == b.Payload() ==> c == b
    ensures Payloads(s - {b}) == Payloads(s) - {b.Payload()}
  {
  }

  function Frees(ptrs: seq<nat>): seq<Op> {
    if ptrs == [] then [] else [Free(ptrs[0])] + Frees(ptrs[1..])
  }

  ghost predicate Enumerates(ptrs: seq<nat>, s: set<nat>) {
    && (forall i, j :: 0 <= i < j < |ptrs| ==> ptrs[i] != ptrs[j])
    && forall p :: p in ptrs <==> p in s
  }

  // A block in use is the one found at its payload address.
  lemma LiveFound(l: Layout, top: nat, b: Block)
    requires Tiled(l, top) && b in Live(l)
    ensures var i := Find(l, b.Payload()); i < |l| && l[i] == b
  {
    var k :| 0 <= k < |l| && l[k] == b;
    AddressUnique(l, top, Find(l, b.Payload()), k);
  }

  // Distinct blocks in use have disjoint payloads.
  lemma LiveDisjoint(l: Layout, top: nat, b: Block, c: Block)
    requires Tiled(l, top) && b in Live(l) && c in Live(l) && b != c
    ensures b.End() <= c.Payload() || c.End() <= b.Payload()
  {
    var i :| 0 <= i < |l| && l[i] == b;
    var j :| 0 <= j < |l| && l[j] == c;
    PayloadsDisjoint(l, top, i, j);
  }

  lemma FindLive(l: Layout, top: nat, ptr: nat)
    requires WellFormed(l, top) && ptr in LivePayloads(l)
    ensures var i := Find(l, ptr);
      i < |l| && !l[i].free && LivePayloads(Release(l, i)) == LivePayloads(l) - {ptr}
  {
    var i := Find(l, ptr);
    var b :| b in Live(l) && b.Payload() == ptr;
    var k :| 0 <= k < |l| && l[k] == b;
    AddressUnique(l, top, i, k);
    ReleaseLive(l, top, i);
    forall c | c in Live(l) && c.Payload() == ptr ensures c == b {
      var j :| 0 <= j < |l| && l[j] == c;
      AddressUnique(l, top, j, k);
    }
    PayloadsMinus(Live(l), b);
  }

  lemma NothingLive(l: Layout)
    requires Enumerates([], LivePayloads(l))
    ensures Live(l) == {}
  {
    assert forall b: Block :: b in Live(l) ==> b.Payload() in LivePayloads(l);
  }

  ghost predicate SingleFreeBlock(h: Heap, top: nat) {
    h.top == top >= 0xFFFF_FFFF_C000_0000 + 32
    && h.layout == [Block(0xFFFF_FFFF_C000_0000, top - 0xFFFF_FFFF_C000_0000 - 32, true)]
  }

  lemma FreeFirst(ptrs: seq<nat>, h: Heap)
    requires ptrs != []
    ensures Run(Frees(ptrs), h) == Run(Frees(ptrs[1..]), Step(h, Free(ptrs[0])))
    ensures AllowedRun(Frees(ptrs), h) <==>
              Allowed(h, Free(ptrs[0])) && AllowedRun(Frees(ptrs[1..]), Step(h, Free(ptrs[0])))
  {
    assert Frees(ptrs)[1..] == Frees(ptrs[1..]);
  }

  lemma FreeOne(ptrs: seq<nat>, h: Heap)
    requires WellFormed(h.layout, h.top) && h.layout != [] && Enumerates(ptrs, LivePayloads(h.layout)) && ptrs != []
    ensures Allowed(h, Free(ptrs[0]))
    ensures var h' := Step(h, Free(ptrs[0]));
      && WellFormed(h'.layout, h'.top) && h'.layout != [] && h'.top == h.top
      && Enumerates(ptrs[1..], LivePayloads(h'.layout))
  {
    assert ptrs[0] in LivePayloads(h.layout);
    FindLive(h.layout, h.top, ptrs[0]);
    StepSafe(h, Free(ptrs[0]));
    PayloadsDisjoint(h.layout, h.top, 0, 0);
    var rest := ptrs[1..];
    forall p ensures p in rest <==> p in ptrs && p != ptrs[0] {
      if p in ptrs && p != ptrs[0] {
        var i :| 0 <= i < |ptrs| && ptrs[i] == p;
        assert rest[i - 1] == p;
      }
    }
  }

  // Freeing every block in use, in any order, leaves a single free block spanning the heap.
  lemma {:induction false} FreeAll(ptrs: seq<nat>, h: Heap)
    requires WellFormed(h.layout, h.top) && h.layout != [] && Enumerates(ptrs, LivePayloads(h.layout))
    ensures AllowedRun(Frees(ptrs), h)
    ensures SingleFreeBlock(Run(Frees(ptrs), h), h.top)
  {
    if ptrs == [] {
      NothingLive(h.layout);
      AllFreeIsOneBlock(h.layout, h.top);
    } else {
      FreeOne(ptrs, h);
      FreeFirst(ptrs, h);
      FreeAll(ptrs[1..], Step(h, Free(ptrs[0])));
    }
  }
}
