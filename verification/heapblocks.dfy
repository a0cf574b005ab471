// The block list of the kernel heap in memory: headers linked by address, sharing their
// memory with the payloads they describe.

module HeapBlocks {
  import opened Options
  import opened Paging
  import opened HeapLayout

  const HEAP_MAGIC: nat := 0xCAFEBABE

  datatype Header = Header(magic: nat, isFree: bool, size: nat, next: nat, prev: nat)

  // Storing a header destroys every other header it overlaps, and the bytes it covers.
  function Overwrite(hdr: map<nat, Header>, a: nat, h: Header): map<nat, Header> {
    (map x | x in hdr && (x + HEADER <= a || a + HEADER <= x) :: hdr[x])[a := h]
  }

  function Clobber(bytes: map<nat, bv8>, a: nat): map<nat, bv8> {
    map x | x in bytes && !(a <= x < a + HEADER) :: bytes[x]
  }

  function Peek(bytes: map<nat, bv8>, x: nat): Option<bv8> {
    if x in bytes then Some(bytes[x]) else None
  }

  // The bytes with one of unknown (None) or known value stored at x.
  function Poke(bytes: map<nat, bv8>, x: nat, v: Option<bv8>): (r: map<nat, bv8>)
    ensures forall y :: Peek(r, y) == if y == x then v else Peek(bytes, y)
  {
    if v == None then bytes - {x} else bytes[x := v.value]
  }

  // [dest, dest + count) now holds what [src, src + count) held, and nothing else has changed.
  ghost predicate Copied(bytes: map<nat, bv8>, bytes': map<nat, bv8>, dest: nat, src: nat, count: nat) {
    forall x: nat :: Peek(bytes', x) == Peek(bytes, if dest <= x < dest + count then src + (x - dest) else x)
  }

  lemma CopyStep(bytes: map<nat, bv8>, bytes': map<nat, bv8>, dest: nat, src: nat, i: nat)
    requires Copied(bytes, bytes', dest, src, i) && (src + i < dest || dest + i <= src + i)
    ensures Copied(bytes, Poke(bytes', dest + i, Peek(bytes', src + i)), dest, src, i + 1)
  {
    assert Peek(bytes', src + i) == Peek(bytes, src + i);
  }

  // No byte of a block has changed.
  ghost predicate SameBytes(bytes: map<nat, bv8>, bytes': map<nat, bv8>, b: Block) {
    forall x: nat :: b.Payload() <= x < b.End() ==> Peek(bytes', x) == Peek(bytes, x)
  }

  // No byte of any block in use has changed.
  ghost predicate Kept(bytes: map<nat, bv8>, bytes': map<nat, bv8>, live: set<Block>) {
    forall b :: b in live ==> SameBytes(bytes, bytes', b)
  }

  // The bytes of block `from` are found again in block `to`.
  ghost predicate BlockCopied(bytes: map<nat, bv8>, bytes': map<nat, bv8>, from: Block, to: Block) {
    forall x: nat :: from.Payload() <= x < from.End() ==> Peek(bytes', to.Payload() + (x - from.Payload())) == Peek(bytes, x)
  }

  lemma CopyElsewhere(bytes: map<nat, bv8>, bytes': map<nat, bv8>, dest: nat, src: nat, count: nat, b: Block)
    requires Copied(bytes, bytes', dest, src, count) && (b.End() <= dest || dest + count <= b.Payload())
    ensures SameBytes(bytes, bytes', b)
  {
  }

  lemma CopyBlock(bytes0: map<nat, bv8>, bytes1: map<nat, bv8>, bytes2: map<nat, bv8>, bytes3: map<nat, bv8>, from: Block, to: Block)
    requires from.size <= to.size && SameBytes(bytes0, bytes1, from) && SameBytes(bytes2, bytes3, to)
    requires Copied(bytes1, bytes2, to.Payload(), from.Payload(), from.size)
    ensures BlockCopied(bytes0, bytes3, from, to)
  {
    forall x: nat | from.Payload() <= x < from.End()
      ensures Peek(bytes3, to.Payload() + (x - from.Payload())) == Peek(bytes0, x)
    {
      assert Peek(bytes2, to.Payload() + (x - from.Payload())) == Peek(bytes1, x);
    }
  }

  lemma SameTrans(bytes0: map<nat, bv8>, bytes1: map<nat, bv8>, bytes2: map<nat, bv8>, b: Block)
    requires SameBytes(bytes0, bytes1, b) && SameBytes(bytes1, bytes2, b)
    ensures SameBytes(bytes0, bytes2, b)
  {
  }

  lemma KeptTrans(bytes0: map<nat, bv8>, bytes1: map<nat, bv8>, bytes2: map<nat, bv8>, live: set<Block>)
    requires Kept(bytes0, bytes1, live) && Kept(bytes1, bytes2, live)
    ensures Kept(bytes0, bytes2, live)
  {
    forall b | b in live ensures SameBytes(bytes0, bytes2, b) {
      SameTrans(bytes0, bytes1, bytes2, b);
    }
  }

  // A header at `a` overlaps the payload of no block in use.
  ghost predicate ClearOf(a: nat, live: set<Block>) {
    forall b :: b in live ==> a + HEADER <= b.Payload() || b.End() <= a
  }

  lemma KeptClear(bytes0: map<nat, bv8>, bytes: map<nat, bv8>, a: nat, live: set<Block>)
    requires ClearOf(a, live) && Kept(bytes0, bytes, live)
    ensures Kept(bytes0, Clobber(bytes, a), live)
  {
    forall b | b in live ensures SameBytes(bytes, Clobber(bytes, a), b) {
    }
    KeptTrans(bytes0, bytes, Clobber(bytes, a), live);
  }

  function Next(l: Layout, i: nat): nat
    requires i < |l|
  {
    if i + 1 < |l| then l[i + 1].addr else 0
  }

  function Prev(l: Layout, i: nat): nat
    requires i < |l|
  {
    if i > 0 then l[i - 1].addr else 0
  }

  ghost predicate HeaderAt(hdr: map<nat, Header>, l: Layout, i: nat)
    requires i < |l|
  {
    l[i].addr in hdr && hdr[l[i].addr] == Header(HEAP_MAGIC, l[i].free, l[i].size, Next(l, i), Prev(l, i))
  }

  // The headers in memory spell out the row of blocks as a doubly linked list.
  ghost predicate Linked(hdr: map<nat, Header>, l: Layout) {
    forall i {:trigger HeaderAt(hdr, l, i)} :: 0 <= i < |l| ==> HeaderAt(hdr, l, i)
  }

  lemma InsideClear(l: Layout, top: nat, i: nat, a: nat)
    requires Tiled(l, top) && i < |l| && l[i].addr <= a && a + HEADER <= l[i].End()
    requires l[i].free || a == l[i].addr
    ensures ClearOf(a, Live(l))
  {
    forall b | b in Live(l) ensures a + HEADER <= b.Payload() || b.End() <= a {
      var k :| 0 <= k < |l| && l[k] == b;
      PayloadsDisjoint(l, top, i, k);
    }
  }

  // hdr1 is hdr0 after storing h at a: every header that does not overlap it is still there.
  ghost predicate Stored(hdr0: map<nat, Header>, hdr1: map<nat, Header>, a: nat, h: Header) {
    && a in hdr1 && hdr1[a] == h
    && forall x :: x in hdr0 && (x + HEADER <= a || a + HEADER <= x) ==> x in hdr1 && hdr1[x] == hdr0[x]
  }

  // The three stores that split block i at n bytes.
  ghost predicate SplitStores(hdr0: map<nat, Header>, hdr1: map<nat, Header>, hdr2: map<nat, Header>, hdr3: map<nat, Header>,
                              l: Layout, i: nat, n: nat)
    requires i < |l| && HeaderAt(hdr0, l, i) && l[i].size >= n + HEADER
  {
    var curr, split, next := l[i].addr, l[i].addr + HEADER + n, Next(l, i);
    && Stored(hdr0, hdr1, split, Header(HEAP_MAGIC, true, l[i].size - n - HEADER, next, curr))
    && (if i + 1 < |l| then next in hdr1 && Stored(hdr1, hdr2, next, hdr1[next].(prev := split)) else hdr2 == hdr1)
    && curr in hdr2 && Stored(hdr2, hdr3, curr, hdr2[curr].(next := split, size := n))
  }

  ghost function SplitAt(l: Layout, i: nat, n: nat): Layout
    requires i < |l| && l[i].size >= n + HEADER
  {
    Split(l, i, Block(l[i].addr, n, true), Block(l[i].addr + HEADER + n, l[i].size - n - HEADER, true))
  }

  lemma SplitLinked(hdr0: map<nat, Header>, hdr1: map<nat, Header>, hdr2: map<nat, Header>, hdr3: map<nat, Header>,
                    l: Layout, top: nat, i: nat, n: nat)
    requires Linked(hdr0, l) && Tiled(l, top) && i < |l| && l[i].free && l[i].size >= n + HEADER
    requires HeaderAt(hdr0, l, i) && SplitStores(hdr0, hdr1, hdr2, hdr3, l, i, n)
    ensures Linked(hdr3, SplitAt(l, i, n))
  {
    forall k | 0 <= k <= |l| ensures HeaderAt(hdr3, SplitAt(l, i, n), k) {
      if i + 1 < |l| { Ordered(l, top, i, i + 1); }
      if k < i {
        Ordered(l, top, k, i);
        assert HeaderAt(hdr0, l, k);
        if i + 1 < |l| { Ordered(l, top, k, i + 1); }
      } else if k > i + 1 {
        Ordered(l, top, i, k - 1);
        assert HeaderAt(hdr0, l, k - 1);
        if k > i + 2 { Ordered(l, top, i + 1, k - 1); }
      }
    }
  }

  lemma SplitAtTiled(l: Layout, top: nat, i: nat, n: nat)
    requires Tiled(l, top) && Sized(l) && i < |l| && 0 < n && l[i].size >= n + HEADER + 16
    ensures Tiled(SplitAt(l, i, n), top) && Sized(SplitAt(l, i, n)) && SplitAt(l, i, n)[0].addr == l[0].addr
  {
    SplitTiled(l, top, i, Block(l[i].addr, n, true), Block(l[i].addr + HEADER + n, l[i].size - n - HEADER, true));
  }

  lemma SplitLive(l: Layout, i: nat, n: nat)
    requires i < |l| && l[i].free && l[i].size >= n + HEADER
    ensures Live(SplitAt(l, i, n)) == Live(l)
  {
    var r := SplitAt(l, i, n);
    forall b: Block | !b.free ensures b in r <==> b in l {
      if b in l {
        var k :| 0 <= k < |l| && l[k] == b;
        assert r[if k < i then k else k + 1] == b;
      }
    }
  }

  lemma MarkLinked(hdr0: map<nat, Header>, hdr1: map<nat, Header>, l: Layout, top: nat, i: nat, free: bool)
    requires Linked(hdr0, l) && Tiled(l, top) && i < |l| && HeaderAt(hdr0, l, i)
    requires Stored(hdr0, hdr1, l[i].addr, hdr0[l[i].addr].(isFree := free))
    ensures Linked(hdr1, Mark(l, i, free))
  {
    forall k | 0 <= k < |l| ensures HeaderAt(hdr1, Mark(l, i, free), k) {
      assert HeaderAt(hdr0, l, k);
      if k < i { Ordered(l, top, k, i); } else if k > i { Ordered(l, top, i, k); }
    }
  }

  // The stores by which block i absorbs its right neighbour.
  ghost predicate MergeStores(hdr0: map<nat, Header>, hdr1: map<nat, Header>, hdr2: map<nat, Header>, l: Layout, i: nat)
    requires i + 1 < |l| && HeaderAt(hdr0, l, i)
  {
    var curr, next := l[i].addr, Next(l, i + 1);
    && Stored(hdr0, hdr1, curr, hdr0[curr].(size := l[i].size + HEADER + l[i + 1].size, next := next))
    && if i + 2 < |l| then next in hdr1 && Stored(hdr1, hdr2, next, hdr1[next].(prev := curr)) else hdr2 == hdr1
  }

  lemma MergeLinked(hdr0: map<nat, Header>, hdr1: map<nat, Header>, hdr2: map<nat, Header>, l: Layout, top: nat, i: nat)
    requires Linked(hdr0, l) && Tiled(l, top) && i + 1 < |l|
    requires HeaderAt(hdr0, l, i) && MergeStores(hdr0, hdr1, hdr2, l, i)
    ensures Linked(hdr2, Merge(l, i))
  {
    var r := Merge(l, i);
    forall k | 0 <= k < |r| ensures HeaderAt(hdr2, r, k) {
      if i + 2 < |l| { Ordered(l, top, i, i + 2); }
      if k < i {
        Ordered(l, top, k, i);
        assert HeaderAt(hdr0, l, k);
        if i + 2 < |l| { Ordered(l, top, k, i + 2); }
      } else if k > i {
        Ordered(l, top, i, k + 1);
        assert HeaderAt(hdr0, l, k + 1);
        if k > i + 1 { Ordered(l, top, i + 2, k + 1); }
      }
    }
  }

  class BlockList {
    var hdr: map<nat, Header>
    var bytes: map<nat, bv8>
    var head: nat
    var top: nat
    ghost var layout: Layout

    // The list in memory is the row `layout`; neighbours may both be free in mid-operation.
    ghost predicate Intact()
      reads this
    {
      && Tiled(layout, top) && Sized(layout) && Linked(hdr, layout)
      && head == if layout == [] then 0 else layout[0].addr
    }

    ghost predicate Valid()
      reads this
    {
      Intact() && Aligned(layout) && Coalesced(layout) && top % 16 == 0 && top >= HEAP_START
    }

    constructor ()
      ensures Valid() && layout == [] && top == HEAP_START && bytes == map[]
    {
      hdr, bytes, head, top, layout := map[], map[], 0, HEAP_START, [];
    }

    // Stores a header clear of the blocks in use, whose bytes are as they were in bytes0.
    method PutHeader(a: nat, h: Header, ghost live: set<Block>, ghost bytes0: map<nat, bv8>)
      requires ClearOf(a, live) && Kept(bytes0, bytes, live)
      modifies this`hdr, this`bytes
      ensures Stored(old(hdr), hdr, a, h) && Kept(bytes0, bytes, live)
    {
      KeptClear(bytes0, bytes, a, live);
      hdr := Overwrite(hdr, a, h);
      bytes := Clobber(bytes, a);
    }

    // The header and the place of block i, as the list operations use them.
    lemma At(i: nat)
      requires Intact() && i < |layout|
      ensures HeaderAt(hdr, layout, i) && ClearOf(layout[i].addr, Live(layout)) && layout[i].addr > 0
      ensures i + 1 < |layout| ==> layout[i + 1].addr == layout[i].End()
    {
      InsideClear(layout, top, i, layout[i].addr);
      PayloadsDisjoint(layout, top, i, i);
      if i + 1 < |layout| { assert Adjoins(layout, i); }
    }

    lemma AtSplit(i: nat, n: nat)
      requires Intact() && i < |layout| && layout[i].free && layout[i].size >= n + HEADER
      ensures HeaderAt(hdr, layout, i) && ClearOf(layout[i].addr, Live(layout))
      ensures ClearOf(layout[i].addr + HEADER + n, Live(layout))
      ensures i + 1 < |layout| ==>
                HeaderAt(hdr, layout, i + 1) && ClearOf(layout[i + 1].addr, Live(layout))
                && layout[i + 1].addr == layout[i].End()
    {
      At(i);
      InsideClear(layout, top, i, layout[i].addr + HEADER + n);
      if i + 1 < |layout| { At(i + 1); }
    }

    method SplitBlock(curr: nat, size: nat, ghost i: nat, ghost live: set<Block>, ghost bytes0: map<nat, bv8>)
      requires Intact() && i < |layout| && curr == layout[i].addr && layout[i].free
      requires 0 < size && layout[i].size >= size + HEADER + 16
      requires live <= Live(layout) && Kept(bytes0, bytes, live)
      modifies this`hdr, this`bytes, this`layout
      ensures Intact() && layout == SplitAt(old(layout), i, size) && Kept(bytes0, bytes, live)
    {
      ghost var l, hdr0 := layout, hdr;
      AtSplit(i, size);
      var split, next := curr + HEADER + size, hdr[curr].next;
      PutHeader(split, Header(HEAP_MAGIC, true, hdr[curr].size - size - HEADER, next, curr), live, bytes0);
      ghost var hdr1 := hdr;
      if next != 0 {
        PutHeader(next, hdr[next].(prev := split), live, bytes0);
      }
      ghost var hdr2 := hdr;
      PutHeader(curr, hdr[curr].(next := split, size := size), live, bytes0);
      SplitLinked(hdr0, hdr1, hdr2, hdr, l, top, i, size);
      SplitAtTiled(l, top, i, size);
      layout := SplitAt(l, i, size);
    }

    method SetFree(curr: nat, free: bool, ghost i: nat, ghost live: set<Block>, ghost bytes0: map<nat, bv8>)
      requires Intact() && i < |layout| && curr == layout[i].addr
      requires live <= Live(layout) && Kept(bytes0, bytes, live)
      modifies this`hdr, this`bytes, this`layout
      ensures Intact() && layout == Mark(old(layout), i, free) && Kept(bytes0, bytes, live)
    {
      ghost var l, hdr0 := layout, hdr;
      At(i);
      PutHeader(curr, hdr[curr].(isFree := free), live, bytes0);
      MarkLinked(hdr0, hdr, l, top, i, free);
      MarkTiled(l, top, i, free);
      layout := Mark(l, i, free);
    }

    // The block at curr absorbs its right neighbour.
    method Absorb(curr: nat, ghost i: nat, ghost live: set<Block>, ghost bytes0: map<nat, bv8>)
      requires Intact() && i + 1 < |layout| && curr == layout[i].addr
      requires live <= Live(layout) && Kept(bytes0, bytes, live)
      modifies this`hdr, this`bytes, this`layout
      ensures Intact() && layout == Merge(old(layout), i) && Kept(bytes0, bytes, live)
    {
      ghost var l, hdr0 := layout, hdr;
      At(i);
      At(i + 1);
      if i + 2 < |l| { At(i + 2); }
      var right := hdr[hdr[curr].next];
      PutHeader(curr, hdr[curr].(size := hdr[curr].size + HEADER + right.size, next := right.next), live, bytes0);
      ghost var hdr1 := hdr;
      if right.next != 0 {
        PutHeader(right.next, hdr[right.next].(prev := curr), live, bytes0);
      }
      MergeLinked(hdr0, hdr1, hdr, l, top, i);
      MergeTiled(l, top, i);
      layout := Merge(l, i);
    }

    // kmalloc's search: the lowest free block that is large enough, or the null pointer.
    method TakeFirstFit(size: nat) returns (ptr: nat)
      requires Valid() && size > 0 && size % 16 == 0
      modifies this`hdr, this`bytes, this`layout
      ensures Valid() && Kept(old(bytes), bytes, Live(old(layout)))
      ensures var i := FirstFit(old(layout), size);
        if i == |old(layout)| then ptr == 0 && layout == old(layout) && hdr == old(hdr) && bytes == old(bytes)
        else ptr == old(layout)[i].Payload() && layout == Carve(old(layout), i, size)
    {
      ghost var i := 0;
      var curr := head;
      if layout != [] { At(0); }
      while curr != 0
        invariant 0 <= i <= |layout| && unchanged(this)
        invariant i < |layout| ==> curr == layout[i].addr > 0
        invariant i == |layout| ==> curr == 0
        invariant forall j :: 0 <= j < i ==> !(layout[j].free && layout[j].size >= size)
        decreases |layout| - i
      {
        At(i);
        if hdr[curr].isFree && hdr[curr].size >= size {
          FirstFitIs(layout, size, i);
          CarveAt(curr, size, i);
          return curr + HEADER;
        }
        curr := hdr[curr].next;
        i := i + 1;
        if i < |layout| { At(i); }
      }
      FirstFitIs(layout, size, i);
      return 0;
    }

    method CarveAt(curr: nat, size: nat, ghost i: nat)
      requires Valid() && size > 0 && size % 16 == 0
      requires i < |layout| && curr == layout[i].addr && layout[i].free && layout[i].size >= size
      modifies this`hdr, this`bytes, this`layout
      ensures Valid() && Kept(old(bytes), bytes, Live(old(layout)))
      ensures layout == Carve(old(layout), i, size)
    {
      ghost var l, bytes0 := layout, bytes;
      At(i);
      CarveWellFormed(l, top, i, size);
      if hdr[curr].size >= size + HEADER + 16 {
        SplitLive(l, i, size);
        SplitBlock(curr, size, i, Live(l), bytes0);
      }
      SetFree(curr, false, i, Live(l), bytes0);
      assert layout == Carve(l, i, size);
    }

    // ptr is the null pointer or the payload of a block in use.
    method Kfree(ptr: nat)
      requires Valid()
      requires ptr != 0 ==> Find(layout, ptr) < |layout| && !layout[Find(layout, ptr)].free
      modifies this`hdr, this`bytes, this`layout
      ensures Valid()
      ensures layout == if ptr == 0 then old(layout) else Release(old(layout), Find(old(layout), ptr))
      ensures Kept(old(bytes), bytes, Live(layout))
    {
      if ptr == 0 { return; }
      ghost var l, i, bytes0 := layout, Find(layout, ptr), bytes;
      var block := ptr - HEADER;
      ReleaseWellFormed(l, top, i);
      ReleaseLive(l, top, i);
      MarkLive(l, top, i, true);
      ghost var live := Live(l) - {l[i]};
      SetFree(block, true, i, live, bytes0);
      MergeLive(layout, i);
      CoalesceRight(block, i, live, bytes0);
      CoalesceLeft(block, i, live, bytes0);
    }

    method CoalesceRight(block: nat, ghost i: nat, ghost live: set<Block>, ghost bytes0: map<nat, bv8>)
      requires Intact() && i < |layout| && block == layout[i].addr && layout[i].free
      requires live <= Live(layout) && Kept(bytes0, bytes, live)
      modifies this`hdr, this`bytes, this`layout
      ensures Intact() && layout == MergeIfFree(old(layout), i) && Kept(bytes0, bytes, live)
      ensures i < |layout| && layout[i].addr == block && layout[i].free
    {
      At(i);
      if i + 1 < |layout| { At(i + 1); }
      if hdr[block].next != 0 && hdr[hdr[block].next].isFree && block + HEADER + hdr[block].size == hdr[block].next {
        Absorb(block, i, live, bytes0);
      }
    }

    method CoalesceLeft(block: nat, ghost i: nat, ghost live: set<Block>, ghost bytes0: map<nat, bv8>)
      requires Intact() && i < |layout| && block == layout[i].addr && layout[i].free
      requires live <= Live(layout) && Kept(bytes0, bytes, live)
      modifies this`hdr, this`bytes, this`layout
      ensures Intact() && layout == (if i > 0 then MergeIfFree(old(layout), i - 1) else old(layout))
      ensures Kept(bytes0, bytes, live)
    {
      At(i);
      if i > 0 { At(i - 1); }
      if hdr[block].prev != 0 && hdr[hdr[block].prev].isFree
         && hdr[block].prev + HEADER + hdr[hdr[block].prev].size == block {
        Absorb(hdr[block].prev, i - 1, live, bytes0);
      }
    }

    // Links a block, already written at the old top, behind the last one.
    method LinkTail(block: nat, ghost live: set<Block>, ghost bytes0: map<nat, bv8>) returns (curr: nat)
      requires layout != [] && Tiled(layout, block) && Sized(layout) && Linked(hdr, layout)
      requires head == layout[0].addr && top == block + PAGE_SIZE
      requires block in hdr && hdr[block] == Header(HEAP_MAGIC, true, PAGE_SIZE - HEADER, 0, 0)
      requires live <= Live(layout) && Kept(bytes0, bytes, live)
      modifies this`hdr, this`bytes, this`layout
      ensures Intact() && layout == old(layout) + [Block(block, PAGE_SIZE - HEADER, true)] && Kept(bytes0, bytes, live)
      ensures curr == old(layout)[|old(layout)| - 1].addr
    {
      ghost var l, hdr0, i := layout, hdr, 0;
      curr := head;
      assert HeaderAt(hdr, l, 0);
      while hdr[curr].next != 0
        invariant 0 <= i < |l| && curr == l[i].addr && HeaderAt(hdr, l, i) && unchanged(this)
        decreases |l| - i
      {
        curr := hdr[curr].next;
        i := i + 1;
        assert HeaderAt(hdr, l, i);
      }
      LastBlock(l, block, i);
      InsideClear(l, block, i, curr);
      AboveClear(l, block);
      PutHeader(curr, hdr[curr].(next := block), live, bytes0);
      ghost var hdr1 := hdr;
      PutHeader(block, hdr[block].(prev := curr), live, bytes0);
      AppendLinked(hdr0, hdr1, hdr, l, block);
      AppendTiled(l, block);
      layout := l + [Block(block, PAGE_SIZE - HEADER, true)];
    }

    // The part of heap_expand that puts one freshly mapped page on the list.
    method AppendPage()
      requires Valid()
      modifies this
      ensures Valid() && top == old(top) + PAGE_SIZE && layout == Extend(old(layout), old(top))
      ensures Kept(old(bytes), bytes, Live(old(layout))) && Live(layout) == Live(old(layout))
    {
      ghost var l, live, bytes0, hdr0 := layout, Live(layout), bytes, hdr;
      ExtendWellFormed(l, top);
      ExtendLive(l, top);
      AboveClear(l, top);
      var block := top;
      PutHeader(block, Header(HEAP_MAGIC, true, PAGE_SIZE - HEADER, 0, 0), live, bytes0);
      StoreAbove(hdr0, hdr, l, block, hdr[block]);
      top := top + PAGE_SIZE;
      if head == 0 {
        head := block;
        layout := [Block(block, PAGE_SIZE - HEADER, true)];
        assert HeaderAt(hdr, layout, 0);
      } else {
        var curr := LinkTail(block, live, bytes0);
        At(|l| - 1);
        if hdr[curr].isFree && curr + HEADER + hdr[curr].size == block {
          At(|l|);
          Absorb(curr, |l| - 1, live, bytes0);
        }
      }
    }

    // A program's own store: a byte inside the payload of a block in use. It destroys no
    // header of the list.
    method Store(x: nat, v: Option<bv8>, ghost b: Block)
      requires Valid() && b in Live(layout) && b.Payload() <= x < b.End()
      modifies this`hdr, this`bytes
      ensures Valid() && bytes == Poke(old(bytes), x, v)
    {
      StoreKeepsHeaders(hdr, layout, top, x, b);
      hdr := map a | a in hdr && !(a <= x < a + HEADER) :: hdr[a];
      bytes := Poke(bytes, x, v);
    }

    // memcpy between payloads, one byte at a time.
    method Memcpy(dest: nat, src: nat, count: nat, ghost b: Block)
      requires Valid() && b in Live(layout) && b.Payload() <= dest && dest + count <= b.End()
      requires src + count <= dest || dest + count <= src
      modifies this`hdr, this`bytes
      ensures Valid()
      ensures Copied(old(bytes), bytes, dest, src, count)
    {
      for i := 0 to count
        invariant Valid()
        invariant Copied(old(bytes), bytes, dest, src, i)
      {
        CopyStep(old(bytes), bytes, dest, src, i);
        Store(dest + i, Peek(bytes, src + i), b);
      }
    }
  }

  lemma StoreKeepsHeaders(hdr: map<nat, Header>, l: Layout, top: nat, x: nat, b: Block)
    requires Linked(hdr, l) && Tiled(l, top) && b in Live(l) && b.Payload() <= x < b.End()
    ensures Linked(map a | a in hdr && !(a <= x < a + HEADER) :: hdr[a], l)
  {
    var hdr' := map a | a in hdr && !(a <= x < a + HEADER) :: hdr[a];
    var i :| 0 <= i < |l| && l[i] == b;
    forall k | 0 <= k < |l| ensures HeaderAt(hdr', l, k) {
      assert HeaderAt(hdr, l, k);
      PayloadsDisjoint(l, top, i, k);
    }
  }

  lemma StoreAbove(hdr0: map<nat, Header>, hdr1: map<nat, Header>, l: Layout, a: nat, h: Header)
    requires Linked(hdr0, l) && Tiled(l, a) && Stored(hdr0, hdr1, a, h)
    ensures Linked(hdr1, l)
  {
    forall k | 0 <= k < |l| ensures HeaderAt(hdr1, l, k) {
      assert HeaderAt(hdr0, l, k);
      PayloadsDisjoint(l, a, k, k);
    }
  }

  lemma AboveClear(l: Layout, top: nat)
    requires Tiled(l, top)
    ensures ClearOf(top, Live(l))
  {
    forall b | b in Live(l) ensures b.End() <= top {
      var k :| 0 <= k < |l| && l[k] == b;
      PayloadsDisjoint(l, top, k, k);
    }
  }

  // A block with no successor address is the last one.
  lemma LastBlock(l: Layout, top: nat, i: nat)
    requires Tiled(l, top) && i < |l| && Next(l, i) == 0
    ensures i == |l| - 1
  {
    if i + 1 < |l| { PayloadsDisjoint(l, top, i + 1, i + 1); }
  }

  lemma AppendTiled(l: Layout, top: nat)
    requires Tiled(l, top) && Sized(l) && l != []
    ensures var r := l + [Block(top, PAGE_SIZE - HEADER, true)]; Tiled(r, top + PAGE_SIZE) && Sized(r)
  {
    var r := l + [Block(top, PAGE_SIZE - HEADER, true)];
    forall k | 0 <= k < |r| - 1 ensures Adjoins(r, k) {
      if k < |l| - 1 { assert Adjoins(l, k); }
    }
  }

  lemma AppendLinked(hdr0: map<nat, Header>, hdr1: map<nat, Header>, hdr2: map<nat, Header>, l: Layout, top: nat)
    requires Linked(hdr0, l) && Tiled(l, top) && l != [] && HeaderAt(hdr0, l, |l| - 1)
    requires top in hdr0 && hdr0[top] == Header(HEAP_MAGIC, true, PAGE_SIZE - HEADER, 0, 0)
    requires var last := l[|l| - 1].addr;
      && Stored(hdr0, hdr1, last, hdr0[last].(next := top))
      && top in hdr1 && Stored(hdr1, hdr2, top, hdr1[top].(prev := last))
    ensures Linked(hdr2, l + [Block(top, PAGE_SIZE - HEADER, true)])
  {
    var r := l + [Block(top, PAGE_SIZE - HEADER, true)];
    forall k | 0 <= k < |r| ensures HeaderAt(hdr2, r, k) {
      if k < |l| {
        assert HeaderAt(hdr0, l, k);
        PayloadsDisjoint(l, top, k, |l| - 1);
      }
    }
  }
}
