// Physical memory manager: a byte-packed bitmap of 4 KiB frames (1 = used), a cyclic
// next-fit allocator for single frames and a first-fit allocator for runs of frames.

module Bitmap {
  // One bit of a byte, and the byte with that bit set or cleared.
  predicate TestBit(b: bv8, k: nat)
    requires k < 8
  {
    b & (1 << k) != 0
  }

  function SetBit(b: bv8, k: nat): bv8
    requires k < 8
  {
    b | (1 << k)
  }

  function ClearBit(b: bv8, k: nat): bv8
    requires k < 8
  {
    b & !(1 << k)
  }

  lemma SetBitTest(b: bv8, k: nat, j: nat)
    requires k < 8 && j < 8
    ensures TestBit(SetBit(b, k), j) == (j == k || TestBit(b, j))
  {
    if k == 0 {} else if k == 1 {} else if k == 2 {} else if k == 3 {}
    else if k == 4 {} else if k == 5 {} else if k == 6 {} else { assert k == 7; }
  }

  lemma ClearBitTest(b: bv8, k: nat, j: nat)
    requires k < 8 && j < 8
    ensures TestBit(ClearBit(b, k), j) == (j != k && TestBit(b, j))
  {
    if k == 0 {} else if k == 1 {} else if k == 2 {} else if k == 3 {}
    else if k == 4 {} else if k == 5 {} else if k == 6 {} else { assert k == 7; }
  }

  // Bit `bit` of the packed bitmap: bit (bit % 8) of byte (bit / 8).
  predicate Flag(bytes: seq<bv8>, bit: nat)
    requires bit < 8 * |bytes|
  {
    TestBit(bytes[bit / 8], bit % 8)
  }

  // Frame `bit` has bit bit % 8, counted from the lowest, of byte bit / 8.
  lemma FlagIsBit(bytes: seq<bv8>, bit: nat)
    requires bit < 8 * |bytes|
    ensures Flag(bytes, bit) <==> (bytes[bit / 8] >> (bit % 8)) & 1 == 1
  {
    var k := bit % 8;
    if k == 0 {} else if k == 1 {} else if k == 2 {} else if k == 3 {}
    else if k == 4 {} else if k == 5 {} else if k == 6 {} else { assert k == 7; }
  }

  lemma SetFlag(bytes: seq<bv8>, bit: nat, j: nat)
    requires bit < 8 * |bytes| && j < 8 * |bytes|
    ensures Flag(bytes[bit / 8 := SetBit(bytes[bit / 8], bit % 8)], j) == (j == bit || Flag(bytes, j))
  {
    SetBitTest(bytes[bit / 8], bit % 8, j % 8);
  }

  lemma ClearFlag(bytes: seq<bv8>, bit: nat, j: nat)
    requires bit < 8 * |bytes| && j < 8 * |bytes|
    ensures Flag(bytes[bit / 8 := ClearBit(bytes[bit / 8], bit % 8)], j) == (j != bit && Flag(bytes, j))
  {
    ClearBitTest(bytes[bit / 8], bit % 8, j % 8);
  }

  // The number of clear flags.
  function CountFree(u: seq<bool>): nat {
    if |u| == 0 then 0
    else CountFree(u[..|u| - 1]) + (if u[|u| - 1] then 0 else 1)
  }

  lemma {:induction false} CountFreeUpdate(u: seq<bool>, i: nat, b: bool)
    requires i < |u|
    ensures CountFree(u[i := b]) == CountFree(u) - (if u[i] then 0 else 1) + (if b then 0 else 1)
  {
    var n := |u| - 1;
    if i == n {
      assert u[i := b][..n] == u[..n];
    } else {
      CountFreeUpdate(u[..n], i, b);
      assert u[i := b][..n] == u[..n][i := b];
    }
  }

  lemma {:induction false} CountFreeZero(u: seq<bool>)
    ensures CountFree(u) == 0 <==> forall i :: 0 <= i < |u| ==> u[i]
  {
    if |u| > 0 {
      CountFreeZero(u[..|u| - 1]);
      assert forall i :: 0 <= i < |u| - 1 ==> u[..|u| - 1][i] == u[i];
    }
  }

  // The flags with [from, from + count) overwritten by b.
  function SetRange(u: seq<bool>, from: nat, count: nat, b: bool): (r: seq<bool>)
    ensures |r| == |u|
  {
    seq(|u|, j requires 0 <= j < |u| => if from <= j < from + count then b else u[j])
  }

  ghost predicate UsedFrom(u: seq<bool>, n: nat) {
    forall p :: n <= p < |u| ==> u[p]
  }

  // Frames [s, s + count) are all clear.
  ghost predicate FreeRun(u: seq<bool>, s: nat, count: nat) {
    s + count <= |u| && forall j :: s <= j < s + count ==> !u[j]
  }

  ghost predicate NoFreeRun(u: seq<bool>, count: nat) {
    forall s: nat :: !FreeRun(u, s, count)
  }

  ghost predicate LeftmostFreeRun(u: seq<bool>, s: nat, count: nat) {
    FreeRun(u, s, count) && forall s': nat :: s' < s ==> !FreeRun(u, s', count)
  }

  // The number of steps from `from` forward to `index` around a ring of n frames.
  function CyclicDistance(from: nat, index: nat, n: nat): nat
    requires from <= n && index < n
  {
    if from <= index then index - from else index + n - from
  }

  // k is the first clear frame met when walking round the ring from `from`.
  ghost predicate NextFree(u: seq<bool>, n: nat, from: nat, k: nat)
    requires from <= n <= |u|
  {
    k < n && !u[k]
    && forall j :: 0 <= j < n && !u[j] ==> CyclicDistance(from, k, n) <= CyclicDistance(from, j, n)
  }

  // The next free frame in figures: the first one from `from` to the end or, if none is free
  // there, the first of all.
  lemma NextFreeIs(u: seq<bool>, n: nat, from: nat, k: nat)
    requires from <= n <= |u|
    ensures NextFree(u, n, from, k) <==>
              && k < n && !u[k]
              && if from <= k then forall j :: from <= j < k ==> u[j]
                 else (forall j :: from <= j < n ==> u[j]) && forall j :: 0 <= j < k ==> u[j]
  {
    if k < n && !u[k] {
      if from <= k {
        assert forall j :: from <= j < k && !u[j] ==> CyclicDistance(from, j, n) < CyclicDistance(from, k, n);
      } else {
        assert forall j :: from <= j < n ==> CyclicDistance(from, j, n) < CyclicDistance(from, k, n);
        assert forall j :: 0 <= j < k ==> CyclicDistance(from, j, n) < CyclicDistance(from, k, n);
      }
    }
  }

  // The i-th frame probed by the cyclic scan, as the remainder the code computes.
  lemma ProbeIndex(from: nat, i: nat, n: nat)
    requires from <= n && i < n
    ensures (from + i) % n < n
    ensures CyclicDistance(from, (from + i) % n, n) == i
  {
    if from + i < n {
    } else {
      assert (from + i) % n == from + i - n;
    }
  }
}

module Pmm {
  import opened Paging
  import opened Bitmap

  const LOW_PAGES: nat := 256

  datatype EntryKind = Usable | Unusable
  datatype MemmapEntry = MemmapEntry(base: nat, length: nat, kind: EntryKind)

  // The top of the highest usable entry among the first n.
  function Highest(memmap: seq<MemmapEntry>, n: nat): nat
    requires n <= |memmap|
  {
    if n == 0 then 0
    else
      var h, e := Highest(memmap, n - 1), memmap[n - 1];
      if e.kind.Usable? && e.base + e.length > h then e.base + e.length else h
  }

  // It is the end of one of them, or 0 if there is none, and no other ends higher.
  lemma {:induction false} HighestIs(memmap: seq<MemmapEntry>, n: nat)
    requires n <= |memmap|
    ensures forall i :: 0 <= i < n && memmap[i].kind.Usable? ==> memmap[i].base + memmap[i].length <= Highest(memmap, n)
    ensures Highest(memmap, n) > 0 ==>
              exists i :: 0 <= i < n && memmap[i].kind.Usable? && memmap[i].base + memmap[i].length == Highest(memmap, n)
  {
    if n > 0 { HighestIs(memmap, n - 1); }
  }

  function BitmapBytes(totalPages: nat): nat {
    AlignUp(totalPages / 8, PAGE_SIZE)
  }

  // The first usable entry long enough for the bitmap, or |memmap|.
  function BitmapHome(memmap: seq<MemmapEntry>, size: nat): (h: nat)
    ensures h <= |memmap|
    ensures h < |memmap| ==> memmap[h].kind.Usable? && memmap[h].length >= size
    ensures forall j :: 0 <= j < h ==> !(memmap[j].kind.Usable? && memmap[j].length >= size)
    decreases |memmap|
  {
    if memmap == [] then 0
    else if memmap[0].kind.Usable? && memmap[0].length >= size then 0
    else 1 + BitmapHome(memmap[1..], size)
  }

  lemma BitmapHomeIs(memmap: seq<MemmapEntry>, size: nat, h: nat)
    requires h <= |memmap|
    requires forall j :: 0 <= j < h ==> !(memmap[j].kind.Usable? && memmap[j].length >= size)
    requires h < |memmap| ==> memmap[h].kind.Usable? && memmap[h].length >= size
    ensures h == BitmapHome(memmap, size)
  {
  }

  // What the boot loader promises: usable entries are page-aligned, non-empty and disjoint.
  ghost predicate WellFormed(memmap: seq<MemmapEntry>) {
    && (forall i :: 0 <= i < |memmap| && memmap[i].kind.Usable? ==>
          memmap[i].base % PAGE_SIZE == 0 && memmap[i].length % PAGE_SIZE == 0 && memmap[i].length > 0)
    && (forall i, j :: 0 <= i < j < |memmap| && memmap[i].kind.Usable? && memmap[j].kind.Usable? ==>
          memmap[i].base + memmap[i].length <= memmap[j].base || memmap[j].base + memmap[j].length <= memmap[i].base)
  }

  ghost predicate InEntry(e: MemmapEntry, p: nat) {
    e.kind.Usable? && e.base / PAGE_SIZE <= p < e.base / PAGE_SIZE + e.length / PAGE_SIZE
  }

  ghost predicate UsablePage(memmap: seq<MemmapEntry>, n: nat, p: nat)
    requires n <= |memmap|
  {
    exists i :: 0 <= i < n && InEntry(memmap[i], p)
  }

  // The flags after step 3 has covered the first n entries.
  ghost predicate UsableFlags(u: seq<bool>, memmap: seq<MemmapEntry>, n: nat)
    requires n <= |memmap|
  {
    forall p :: 0 <= p < |u| ==> (!u[p] <==> UsablePage(memmap, n, p))
  }

  ghost predicate BootFree(u: seq<bool>, memmap: seq<MemmapEntry>, total: nat)
    requires total <= |u|
  {
    forall p :: 0 <= p < total ==> (!u[p] <==> FreeAtBoot(memmap, total, p))
  }

  // The frames that start out free: usable, not holding the bitmap, above the first MiB.
  ghost predicate FreeAtBoot(memmap: seq<MemmapEntry>, total: nat, p: nat) {
    var size := BitmapBytes(total);
    var h := BitmapHome(memmap, size);
    && UsablePage(memmap, |memmap|, p)
    && p >= LOW_PAGES
    && (h < |memmap| ==> !(memmap[h].base / PAGE_SIZE <= p < memmap[h].base / PAGE_SIZE + size / PAGE_SIZE))
  }

  // The bitmap is long enough exactly when total % 32768 avoids 1..7, because the number of
  // bytes is rounded down before being rounded up to whole pages.
  predicate Covered(total: nat) {
    total % 32768 == 0 || total % 32768 >= 8
  }

  lemma BitmapCoversIff(total: nat)
    ensures total <= 8 * BitmapBytes(total) <==> Covered(total)
  {
    var q, r := total / 32768, total % 32768;
    assert total == 32768 * q + r && total / 8 == 4096 * q + r / 8;
    assert BitmapBytes(total) == 4096 * (if r < 8 then q else q + 1);
  }

  // The free frames at the start in figures: usable, from the first MiB on, and not among the
  // frames of the bitmap, which has one byte for eight frames, in whole pages.
  lemma FreeAtBootIs(memmap: seq<MemmapEntry>, total: nat, p: nat, size: nat)
    requires size == (total / 8 + 4095) / 4096 * 4096
    ensures var h := BitmapHome(memmap, size);
      FreeAtBoot(memmap, total, p)
      <==> UsablePage(memmap, |memmap|, p) && p >= 256
           && (h == |memmap| || p < memmap[h].base / 4096 || p >= memmap[h].base / 4096 + size / 4096)
  {
    BitmapBytesIs(total, size);
  }

  lemma BitmapBytesIs(total: nat, size: nat)
    requires size == (total / 8 + 4095) / 4096 * 4096
    ensures BitmapBytes(total) == size
  {
  }

  // Nothing below the first MiB starts out free, nor above the end of memory.
  lemma NeverFree(memmap: seq<MemmapEntry>, total: nat, p: nat)
    requires WellFormed(memmap) && FreeAtBoot(memmap, total, p)
    ensures p * 4096 >= 0x10_0000 && p * 4096 < Highest(memmap, |memmap|)
  {
    var i :| 0 <= i < |memmap| && InEntry(memmap[i], p);
    EntryInside(memmap, i);
  }

  lemma BitmapRoomy(total: nat)
    requires 0 < total <= 8 * BitmapBytes(total)
    ensures LOW_PAGES <= 8 * BitmapBytes(total)
  {
  }

  lemma AllOnes(bytes: seq<bv8>, i: nat)
    requires i < 8 * |bytes| && bytes[i / 8] == 0xFF
    ensures Flag(bytes, i)
  {
    var k := i % 8;
    if k == 0 {} else if k == 1 {} else if k == 2 {} else if k == 3 {}
    else if k == 4 {} else if k == 5 {} else if k == 6 {} else { assert k == 7; }
  }

  lemma {:induction false} HighestBounds(memmap: seq<MemmapEntry>, n: nat, i: nat)
    requires i < n <= |memmap| && memmap[i].kind.Usable?
    ensures memmap[i].base + memmap[i].length <= Highest(memmap, n)
  {
    if i < n - 1 {
      HighestBounds(memmap, n - 1, i);
    }
  }

  lemma EntryInside(memmap: seq<MemmapEntry>, i: nat)
    requires WellFormed(memmap) && i < |memmap| && memmap[i].kind.Usable?
    ensures memmap[i].base / PAGE_SIZE + memmap[i].length / PAGE_SIZE <= Highest(memmap, |memmap|) / PAGE_SIZE
  {
    HighestBounds(memmap, |memmap|, i);
  }

  lemma EntryUnmarked(memmap: seq<MemmapEntry>, i: nat)
    requires WellFormed(memmap) && i < |memmap| && memmap[i].kind.Usable?
    ensures forall p :: InEntry(memmap[i], p) ==> !UsablePage(memmap, i, p)
  {
    forall p, j | InEntry(memmap[i], p) && 0 <= j < i ensures !InEntry(memmap[j], p) {
      if memmap[j].kind.Usable? {
        assert memmap[j].base % PAGE_SIZE == 0 && memmap[i].base % PAGE_SIZE == 0;
      }
    }
  }

  lemma UsableStep(memmap: seq<MemmapEntry>, i: nat, before: seq<bool>, after: seq<bool>)
    requires i < |memmap| && memmap[i].kind.Usable?
    requires UsableFlags(before, memmap, i)
    requires after == SetRange(before, memmap[i].base / PAGE_SIZE, memmap[i].length / PAGE_SIZE, false)
    ensures UsableFlags(after, memmap, i + 1)
  {
    forall p | 0 <= p < |after| ensures !after[p] <==> UsablePage(memmap, i + 1, p) {
      assert UsablePage(memmap, i + 1, p) <==> UsablePage(memmap, i, p) || InEntry(memmap[i], p);
    }
  }

  lemma HomeIsFree(memmap: seq<MemmapEntry>, home: nat, size: nat, u: seq<bool>)
    requires WellFormed(memmap) && home < |memmap| && memmap[home].kind.Usable? && memmap[home].length >= size
    requires Highest(memmap, |memmap|) / PAGE_SIZE <= |u|
    requires UsableFlags(u, memmap, |memmap|)
    ensures FreeRun(u, memmap[home].base / PAGE_SIZE, size / PAGE_SIZE)
    ensures Highest(memmap, |memmap|) / PAGE_SIZE > 0
    ensures UsedFrom(u, Highest(memmap, |memmap|) / PAGE_SIZE)
  {
    EntryInside(memmap, home);
    forall p | memmap[home].base / PAGE_SIZE <= p < memmap[home].base / PAGE_SIZE + size / PAGE_SIZE
      ensures !u[p]
    {
      assert InEntry(memmap[home], p);
    }
    forall p | Highest(memmap, |memmap|) / PAGE_SIZE <= p < |u| ensures u[p] {
      forall i | 0 <= i < |memmap| && memmap[i].kind.Usable? ensures !InEntry(memmap[i], p) {
        EntryInside(memmap, i);
      }
    }
  }

  // Used flags after start-up, from those after step 3.
  lemma BootFlags(memmap: seq<MemmapEntry>, total: nat, usable: seq<bool>, u: seq<bool>)
    requires total <= |usable|
    requires UsableFlags(usable, memmap, |memmap|)
    requires UsedFrom(usable, total)
    requires var size := BitmapBytes(total);
      var home := BitmapHome(memmap, size);
      home < |memmap|
      && u == SetRange(SetRange(usable, memmap[home].base / PAGE_SIZE, size / PAGE_SIZE, true), 0, LOW_PAGES, true)
    ensures BootFree(u, memmap, total)
    ensures UsedFrom(u, total)
    ensures |u| > 0 ==> u[0]
  {
  }

  class Pmm {
    var bitmap: array?<bv8>
    var totalPages: nat
    var bitmapSize: nat
    var freePages: int
    var usedPages: int
    var highestAddress: nat
    var lastIndex: nat

    // The bitmap as one flag per frame, kept in step with the bytes.
    ghost var used: seq<bool>

    ghost predicate Rep()
      reads this`bitmap, this`used, bitmap
    {
      && bitmap != null && |used| == 8 * bitmap.Length
      && forall i {:trigger Flag(bitmap[..], i)} :: 0 <= i < |used| ==> used[i] == Flag(bitmap[..], i)
    }

    // The bitmap covers every frame, nothing beyond the last frame looks free, frame 0 is
    // never available (its address is the null pointer), and the counters are exact.
    ghost predicate Valid()
      reads this, bitmap
    {
      && Rep()
      && lastIndex <= totalPages <= |used|
      && UsedFrom(used, totalPages)
      && (totalPages > 0 ==> used[0])
      && freePages == CountFree(used)
      && freePages + usedPages == totalPages
    }

    constructor ()
      ensures bitmap == null && totalPages == 0 && highestAddress == 0 && lastIndex == 0
    {
      bitmap, totalPages, bitmapSize := null, 0, 0;
      freePages, usedPages, highestAddress, lastIndex := 0, 0, 0, 0;
    }

    // The five steps of start-up over the boot loader's memory map; false when no usable
    // entry can hold the bitmap. A missing map behaves as an empty one.
    method Init(memmap: seq<MemmapEntry>) returns (ok: bool)
      requires bitmap == null && totalPages == 0 && highestAddress == 0 && lastIndex == 0
      requires WellFormed(memmap) && Covered(Highest(memmap, |memmap|) / PAGE_SIZE)
      modifies this
      ensures totalPages == Highest(memmap, |memmap|) / PAGE_SIZE
      ensures ok <==> BitmapHome(memmap, BitmapBytes(totalPages)) < |memmap|
      ensures ok ==> Valid() && fresh(bitmap)
      ensures ok ==> BootFree(used, memmap, totalPages)
    {
      FindHighest(memmap);
      totalPages := highestAddress / PAGE_SIZE;
      bitmapSize := AlignUp(totalPages / 8, PAGE_SIZE);
      var home := FindHome(memmap, bitmapSize);
      if home == |memmap| { return false; }
      PlaceBitmap();
      BitmapCoversIff(totalPages);
      MarkFrames(memmap, home);
      return true;
    }

    // Step 2: the bitmap is filled with ones.
    method PlaceBitmap()
      modifies this`bitmap, this`used
      ensures Rep() && fresh(bitmap) && |used| == 8 * bitmapSize && forall i :: 0 <= i < |used| ==> used[i]
    {
      bitmap := new bv8[bitmapSize](_ => 0xFF);
      used := seq(8 * bitmapSize, _ => true);
      forall i | 0 <= i < |used| ensures used[i] == Flag(bitmap[..], i) {
        AllOnes(bitmap[..], i);
      }
    }

    // Steps 3 to 5.
    method MarkFrames(memmap: seq<MemmapEntry>, home: nat)
      requires Rep() && WellFormed(memmap) && forall i :: 0 <= i < |used| ==> used[i]
      requires totalPages == Highest(memmap, |memmap|) / PAGE_SIZE <= |used|
      requires home == BitmapHome(memmap, bitmapSize) < |memmap| && lastIndex == 0
      requires bitmapSize == BitmapBytes(totalPages) && |used| == 8 * bitmapSize
      modifies bitmap, this`used, this`freePages, this`usedPages
      ensures Valid()
      ensures BootFree(used, memmap, totalPages)
    {
      freePages, usedPages := 0, 0;
      CountFreeZero(used);
      MarkUsable(memmap);
      ReserveFrames(memmap, home);
      CountUsed();
    }

    // Steps 4 and 5: the bitmap's own frames and the low ones become used.
    method ReserveFrames(memmap: seq<MemmapEntry>, home: nat)
      requires Rep() && WellFormed(memmap) && UsableFlags(used, memmap, |memmap|) && freePages == CountFree(used)
      requires totalPages == Highest(memmap, |memmap|) / PAGE_SIZE <= |used| == 8 * bitmapSize
      requires home == BitmapHome(memmap, bitmapSize) < |memmap| && bitmapSize == BitmapBytes(totalPages)
      modifies bitmap, this`used, this`freePages, this`usedPages
      ensures Rep() && |used| == old(|used|) && freePages == CountFree(used)
      ensures BootFree(used, memmap, totalPages) && UsedFrom(used, totalPages) && (totalPages > 0 ==> used[0])
    {
      ghost var usable := used;
      HomeIsFree(memmap, home, bitmapSize, used);
      BitmapRoomy(totalPages);
      TakeReserved(memmap[home].base / PAGE_SIZE, bitmapSize / PAGE_SIZE);
      BootFlags(memmap, totalPages, usable, used);
    }

    method CountUsed()
      requires Rep() && lastIndex <= totalPages <= |used| && UsedFrom(used, totalPages)
      requires (totalPages > 0 ==> used[0]) && freePages == CountFree(used)
      modifies this`usedPages
      ensures Valid()
    {
      usedPages := totalPages - freePages;
    }

    method TakeReserved(start: nat, count: nat)
      requires Rep() && FreeRun(used, start, count) && LOW_PAGES <= |used| && freePages == CountFree(used)
      modifies bitmap, this`used, this`freePages, this`usedPages
      ensures Rep() && freePages == CountFree(used)
      ensures used == SetRange(SetRange(old(used), start, count, true), 0, LOW_PAGES, true)
    {
      MarkBitmapPages(start, count);
      ReserveLowMemory();
    }

    method FindHighest(memmap: seq<MemmapEntry>)
      requires highestAddress == 0
      modifies this`highestAddress
      ensures highestAddress == Highest(memmap, |memmap|)
    {
      for i := 0 to |memmap|
        invariant highestAddress == Highest(memmap, i)
      {
        if memmap[i].kind.Usable? {
          var top := memmap[i].base + memmap[i].length;
          if top > highestAddress { highestAddress := top; }
        }
      }
    }

    method FindHome(memmap: seq<MemmapEntry>, size: nat) returns (home: nat)
      ensures home == BitmapHome(memmap, size)
    {
      home := 0;
      while home < |memmap|
        invariant home <= |memmap|
        invariant forall j :: 0 <= j < home ==> !(memmap[j].kind.Usable? && memmap[j].length >= size)
      {
        if memmap[home].kind.Usable? && memmap[home].length >= size { break; }
        home := home + 1;
      }
      BitmapHomeIs(memmap, size, home);
    }

    // Step 3: every page of a usable entry becomes free, and is counted once.
    method MarkUsable(memmap: seq<MemmapEntry>)
      requires Rep() && WellFormed(memmap) && totalPages <= |used|
      requires totalPages == Highest(memmap, |memmap|) / PAGE_SIZE
      requires freePages == 0 && CountFree(used) == 0
      modifies bitmap, this`used, this`freePages
      ensures Rep() && |used| == old(|used|) && freePages == CountFree(used)
      ensures UsableFlags(used, memmap, |memmap|)
    {
      CountFreeZero(used);
      for i := 0 to |memmap|
        invariant Rep() && |used| == old(|used|) && freePages == CountFree(used)
        invariant UsableFlags(used, memmap, i)
      {
        if memmap[i].kind.Usable? {
          EntryInside(memmap, i);
          ghost var before := used;
          EntryUnmarked(memmap, i);
          MarkRun(memmap[i].base / PAGE_SIZE, memmap[i].length / PAGE_SIZE);
          UsableStep(memmap, i, before, used);
        }
      }
    }

    method MarkRun(start: nat, count: nat)
      requires Rep() && start + count <= totalPages <= |used|
      requires forall p :: start <= p < start + count ==> used[p]
      requires freePages == CountFree(used)
      modifies bitmap, this`used, this`freePages
      ensures Rep() && used == SetRange(old(used), start, count, false) && freePages == CountFree(used)
    {
      for p := 0 to count
        invariant Rep() && used == SetRange(old(used), start, p, false) && freePages == CountFree(used)
      {
        if start + p < totalPages {
          CountFreeUpdate(used, start + p, false);
          BitmapClear(start + p);
          freePages := freePages + 1;
        }
      }
    }

    // Step 4: the bitmap's own pages become used.
    method MarkBitmapPages(start: nat, count: nat)
      requires Rep() && FreeRun(used, start, count) && freePages == CountFree(used)
      modifies bitmap, this`used, this`freePages, this`usedPages
      ensures Rep() && used == SetRange(old(used), start, count, true) && freePages == CountFree(used)
    {
      for p := 0 to count
        invariant Rep() && used == SetRange(old(used), start, p, true) && freePages == CountFree(used)
      {
        CountFreeUpdate(used, start + p, true);
        BitmapSet(start + p);
        if freePages > 0 { freePages := freePages - 1; }
        usedPages := usedPages + 1;
      }
    }

    // Step 5: the first MiB becomes used.
    method ReserveLowMemory()
      requires Rep() && LOW_PAGES <= |used| && freePages == CountFree(used)
      modifies bitmap, this`used, this`freePages, this`usedPages
      ensures Rep() && used == SetRange(old(used), 0, LOW_PAGES, true) && freePages == CountFree(used)
    {
      for p := 0 to LOW_PAGES
        invariant Rep() && used == SetRange(old(used), 0, p, true) && freePages == CountFree(used)
      {
        var taken := BitmapTest(p);
        if !taken {
          CountFreeUpdate(used, p, true);
          BitmapSet(p);
          if freePages > 0 { freePages := freePages - 1; }
          usedPages := usedPages + 1;
        }
      }
    }

    method BitmapSet(bit: nat)
      requires Rep() && bit < |used|
      modifies bitmap, this`used
      ensures Rep() && used == old(used)[bit := true]
    {
      ghost var before := bitmap[..];
      bitmap[bit / 8] := SetBit(bitmap[bit / 8], bit % 8);
      used := used[bit := true];
      assert bitmap[..] == before[bit / 8 := SetBit(before[bit / 8], bit % 8)];
      forall i | 0 <= i < |used| ensures used[i] == Flag(bitmap[..], i) {
        SetFlag(before, bit, i);
      }
    }

    method BitmapClear(bit: nat)
      requires Rep() && bit < |used|
      modifies bitmap, this`used
      ensures Rep() && used == old(used)[bit := false]
    {
      ghost var before := bitmap[..];
      bitmap[bit / 8] := ClearBit(bitmap[bit / 8], bit % 8);
      used := used[bit := false];
      assert bitmap[..] == before[bit / 8 := ClearBit(before[bit / 8], bit % 8)];
      forall i | 0 <= i < |used| ensures used[i] == Flag(bitmap[..], i) {
        ClearFlag(before, bit, i);
      }
    }

    method BitmapTest(bit: nat) returns (b: bool)
      requires Rep() && bit < |used|
      ensures b == used[bit]
    {
      assert Flag(bitmap[..], bit) == used[bit];
      b := TestBit(bitmap[bit / 8], bit % 8);
    }

    // Marks a free frame used.
    method Claim(index: nat)
      requires Valid() && index < totalPages && !used[index]
      modifies bitmap, this`used, this`freePages, this`usedPages
      ensures Valid() && used == old(used)[index := true] && freePages == old(freePages) - 1
    {
      CountFreeUpdate(used, index, true);
      BitmapSet(index);
      freePages := freePages - 1;
      usedPages := usedPages + 1;
    }

    method ProbeAt(i: nat) returns (index: nat)
      requires lastIndex <= totalPages && i < totalPages
      ensures index < totalPages && CyclicDistance(lastIndex, index, totalPages) == i
    {
      ProbeIndex(lastIndex, i, totalPages);
      index := (lastIndex + i) % totalPages;
    }

    // Next-fit for one frame. 0 is the null pointer: no frame is free.
    method AllocPage() returns (paddr: nat)
      requires Valid()
      modifies this, bitmap
      ensures Valid() && bitmap == old(bitmap) && totalPages == old(totalPages)
      ensures paddr == 0 <==> old(freePages) == 0
      ensures paddr == 0 ==> used == old(used) && freePages == old(freePages) && lastIndex == old(lastIndex)
      ensures paddr != 0 ==>
                && paddr % PAGE_SIZE == 0
                && NextFree(old(used), totalPages, old(lastIndex), paddr / PAGE_SIZE)
                && used == old(used)[paddr / PAGE_SIZE := true]
                && freePages == old(freePages) - 1
                && lastIndex == paddr / PAGE_SIZE + 1
    {
      var i := 0;
      while i < totalPages
        invariant 0 <= i <= totalPages
        invariant Valid() && unchanged(this) && unchanged(bitmap)
        invariant forall j :: 0 <= j < totalPages && !used[j] ==> i <= CyclicDistance(lastIndex, j, totalPages)
      {
        var index := ProbeAt(i);
        var taken := BitmapTest(index);
        if !taken {
          Claim(index);
          lastIndex := index + 1;
          return index * PAGE_SIZE;
        }
        i := i + 1;
      }
      NoneLeft();
      return 0;
    }

    lemma NoneLeft()
      requires Valid()
      requires forall j :: 0 <= j < totalPages && !used[j] ==> totalPages <= CyclicDistance(lastIndex, j, totalPages)
      ensures freePages == 0
    {
      CountFreeZero(used);
    }

    // Frees the frame that paddr lies in. The null pointer is frame 0's address, and frame 0 is
    // never handed out; an address further inside it would free it.
    method FreePage(paddr: nat)
      requires Valid()
      modifies this, bitmap
      ensures Rep() && bitmap == old(bitmap) && totalPages == old(totalPages) && lastIndex == old(lastIndex)
      ensures used == Freed(old(used), totalPages, paddr)
      ensures freePages == CountFree(used) && freePages + usedPages == totalPages
      ensures Valid() <==> paddr == 0 || paddr >= PAGE_SIZE || totalPages == 0
    {
      if paddr == 0 { return; }
      var page := paddr / PAGE_SIZE;
      if page >= totalPages { return; }
      var taken := BitmapTest(page);
      if taken {
        CountFreeUpdate(used, page, false);
        BitmapClear(page);
        freePages := freePages + 1;
        usedPages := usedPages - 1;
      }
    }

    // First-fit for a run of frames; 0 is the null pointer.
    method AllocPages(count: nat) returns (paddr: nat)
      requires Valid()
      modifies this, bitmap
      ensures Valid() && bitmap == old(bitmap) && totalPages == old(totalPages)
      ensures count == 1 ==> (paddr == 0 <==> old(freePages) == 0)
      ensures count == 1 && paddr != 0 ==>
                && NextFree(old(used), totalPages, old(lastIndex), paddr / PAGE_SIZE)
                && used == SetRange(old(used), paddr / PAGE_SIZE, 1, true)
      ensures count >= 2 ==> (paddr == 0 <==> NoFreeRun(old(used), count))
      ensures count >= 2 && paddr != 0 ==>
                && LeftmostFreeRun(old(used), paddr / PAGE_SIZE, count)
                && used == SetRange(old(used), paddr / PAGE_SIZE, count, true)
      ensures paddr % PAGE_SIZE == 0
      ensures paddr == 0 ==> used == old(used)
      ensures count == 0 ==> paddr == 0
      ensures count != 1 ==> lastIndex == old(lastIndex)
      ensures freePages == old(freePages) - (if paddr == 0 then 0 else count)
    {
      if count == 0 { return 0; }
      if count == 1 {
        paddr := AllocPage();
        return;
      }
      var found, start := FindRun(count);
      if !found { return 0; }
      ClaimRun(start, count);
      return start * PAGE_SIZE;
    }

    // The scan for a run of free frames.
    method FindRun(count: nat) returns (found: bool, start: nat)
      requires Valid() && count >= 2
      ensures if found then LeftmostFreeRun(used, start, count) && start + count <= totalPages else NoFreeRun(used, count)
    {
      var consecutive, i := 0, 0;
      start := 0;
      while i < totalPages
        invariant 0 <= i <= totalPages && consecutive < count
        invariant consecutive > 0 ==> start == i - consecutive
        invariant NoRunBefore(used, i, consecutive, count)
      {
        var taken := BitmapTest(i);
        if !taken {
          if consecutive == 0 { start := i; }
          consecutive := consecutive + 1;
          if consecutive == count {
            LeftmostRun(used, i, count);
            return true, start;
          }
        } else {
          consecutive := 0;
        }
        i := i + 1;
      }
      NoRunAtEnd(used, i, consecutive, count);
      return false, start;
    }

    method ClaimRun(start: nat, count: nat)
      requires Valid() && start + count <= totalPages && FreeRun(used, start, count)
      modifies bitmap, this`used, this`freePages, this`usedPages
      ensures Valid() && used == SetRange(old(used), start, count, true)
      ensures freePages == old(freePages) - count
    {
      for j := 0 to count
        invariant Rep() && used == SetRange(old(used), start, j, true)
        invariant CountFree(used) == CountFree(old(used)) - j
        invariant freePages == old(freePages) && usedPages == old(usedPages)
      {
        CountFreeUpdate(used, start + j, true);
        BitmapSet(start + j);
      }
      freePages := freePages - count;
      usedPages := usedPages + count;
    }

    // Addresses wrap at 2^64, as the 64-bit product does.
    method FreePages(paddr: nat, count: nat)
      requires Valid()
      modifies this, bitmap
      ensures Valid() && bitmap == old(bitmap) && totalPages == old(totalPages) && lastIndex == old(lastIndex)
      ensures used == if paddr == 0 then old(used) else FreedRun(old(used), totalPages, paddr / PAGE_SIZE, count)
    {
      if paddr == 0 { return; }
      var startPage := paddr / PAGE_SIZE;
      for i := 0 to count
        invariant Valid() && bitmap == old(bitmap) && totalPages == old(totalPages) && lastIndex == old(lastIndex)
        invariant used == FreedRun(old(used), totalPages, startPage, i)
      {
        var next := (startPage + i) * PAGE_SIZE % TWO64;
        WrappedPageAddress(startPage + i);
        FreePage(next);
      }
    }
  }

  // No run of `count` clear flags ends at or before i, and the clear flags just before i
  // number `consecutive`.
  ghost predicate NoRunBefore(u: seq<bool>, i: nat, consecutive: nat, count: nat) {
    && consecutive <= i <= |u|
    && (forall j :: i - consecutive <= j < i ==> !u[j])
    && (i > consecutive ==> u[i - consecutive - 1])
    && (forall s: nat :: s + count <= i ==> !FreeRun(u, s, count))
  }

  lemma LeftmostRun(u: seq<bool>, i: nat, count: nat)
    requires 2 <= count && i < |u| && !u[i]
    requires NoRunBefore(u, i, count - 1, count)
    ensures LeftmostFreeRun(u, i + 1 - count, count)
  {
  }

  lemma NoRunAtEnd(u: seq<bool>, n: nat, consecutive: nat, count: nat)
    requires NoRunBefore(u, n, consecutive, count) && consecutive < count
    requires UsedFrom(u, n)
    ensures NoFreeRun(u, count)
  {
    forall s: nat ensures !FreeRun(u, s, count) {
      assert s + count <= |u| ==> u[s + count - 1] || s + count <= n;
    }
  }

  lemma WrappedPageAddress(page: nat)
    ensures var a := page * PAGE_SIZE % TWO64; a == 0 || a >= PAGE_SIZE
  {
    assert page * PAGE_SIZE == page * PAGE_SIZE / TWO64 * TWO64 + page * PAGE_SIZE % TWO64;
  }

  // The flags after pmm_free_page.
  function Freed(u: seq<bool>, total: nat, paddr: nat): (r: seq<bool>)
    requires total <= |u|
    ensures |r| == |u|
  {
    if paddr == 0 || paddr / PAGE_SIZE >= total then u else u[paddr / PAGE_SIZE := false]
  }

  // Just the frame of a non-null address below the end becomes free.
  lemma FreedIs(u: seq<bool>, total: nat, paddr: nat, p: nat)
    requires total <= |u| && p < |u|
    ensures Freed(u, total, paddr)[p] <==> u[p] && !(paddr != 0 && p < total && p == paddr / 4096)
  {
  }

  // The flags after pmm_free_pages has freed i pages.
  function FreedRun(u: seq<bool>, total: nat, start: nat, i: nat): (r: seq<bool>)
    requires total <= |u|
    ensures |r| == |u|
  {
    if i == 0 then u
    else Freed(FreedRun(u, total, start, i - 1), total, (start + i - 1) * PAGE_SIZE % TWO64)
  }

  // Without wrap-around, freeing a run clears exactly its frames below the total.
  lemma {:induction false} FreedRunIsRange(u: seq<bool>, total: nat, start: nat, i: nat)
    requires total <= |u| && 0 < start && start + i <= total && total * PAGE_SIZE <= TWO64
    ensures FreedRun(u, total, start, i) == SetRange(u, start, i, false)
  {
    if i > 0 {
      FreedRunIsRange(u, total, start, i - 1);
    }
  }

  // Freeing a run just allocated restores every flag, hence both counters.
  lemma AllocFreeRoundTrip(u: seq<bool>, total: nat, start: nat, count: nat)
    requires total <= |u| && 0 < start && start + count <= total && total * PAGE_SIZE <= TWO64
    requires FreeRun(u, start, count)
    ensures FreedRun(SetRange(u, start, count, true), total, start, count) == u
  {
    FreedRunIsRange(SetRange(u, start, count, true), total, start, count);
  }
}
