// Page-table entries: the flag bits, the frame mask, and what the words built by the mapper
// decode to.

module Pte {
  import opened Words

  const PRESENT: nat := 1
  const WRITABLE: nat := 2
  const USER: nat := 4
  const HUGE: nat := 128
  const FRAME_MASK: nat := 0x000F_FFFF_FFFF_F000
  const FRAME_LIMIT: nat := 0x0010_0000_0000_0000

  predicate Has(e: nat, bit: nat) {
    And(e, bit) != 0
  }

  predicate Present(e: nat) {
    Has(e, PRESENT)
  }

  predicate Huge(e: nat) {
    Has(e, HUGE)
  }

  function FrameOf(e: nat): nat {
    And(e, FRAME_MASK)
  }

  predicate IsFrame(f: nat) {
    f % 4096 == 0 && f < FRAME_LIMIT
  }

  // The word linking a freshly allocated table.
  function TableEntry(f: nat, flags: nat): nat {
    Or(Or(Or(f, PRESENT), WRITABLE), And(flags, USER))
  }

  // The word mapping a page.
  function LeafEntry(phys: nat, flags: nat): nat {
    Or(Or(And(phys, FRAME_MASK), flags), PRESENT)
  }

  lemma FrameMaskKeeps(f: nat)
    requires IsFrame(f)
    ensures And(f, FRAME_MASK) == f
  {
    var g := f / 4096;
    assert Pow2(12) == 4096;
    assert Pow2(20) == 0x10_0000;
    assert Pow2(30) == 0x4000_0000;
    assert Pow2(40) == 0x100_0000_0000;
    AndOnes(g, 40);
    AndShift(g, Pow2(40) - 1, 12);
  }

  lemma FrameMaskClears(x: nat, bit: nat)
    requires bit == PRESENT || bit == WRITABLE || bit == USER || bit == HUGE
    ensures And(And(x, FRAME_MASK), bit) == 0
  {
    AndAnd(x, FRAME_MASK, bit);
    MaskMeetsNo(bit);
  }

  lemma MaskMeetsNo(bit: nat)
    requires bit == PRESENT || bit == WRITABLE || bit == USER || bit == HUGE
    ensures And(FRAME_MASK, bit) == 0 && And(bit, FRAME_MASK) == 0
  {
    assert Pow2(12) == 4096;
    assert FRAME_MASK == Pow2(12) * 0xFF_FFFF_FFFF;
    AndLow(0xFF_FFFF_FFFF, bit, 12);
  }

  lemma TableEntryAnd(f: nat, flags: nat, m: nat)
    ensures And(TableEntry(f, flags), m)
         == Or(Or(Or(And(f, m), And(PRESENT, m)), And(WRITABLE, m)), And(flags, And(USER, m)))
  {
    AndOr(Or(Or(f, PRESENT), WRITABLE), And(flags, USER), m);
    AndOr(Or(f, PRESENT), WRITABLE, m);
    AndOr(f, PRESENT, m);
    AndAnd(flags, USER, m);
  }

  lemma TableEntryDecodes(f: nat, flags: nat)
    requires IsFrame(f)
    ensures var e := TableEntry(f, flags);
      Present(e) && Has(e, WRITABLE) && !Huge(e) && FrameOf(e) == f && (Has(e, USER) <==> Has(flags, USER))
  {
    FrameMaskKeeps(f);
    FrameMaskClears(f, USER);
    FrameMaskClears(f, HUGE);
    TableEntryAnd(f, flags, PRESENT);
    TableEntryAnd(f, flags, WRITABLE);
    TableEntryAnd(f, flags, USER);
    TableEntryAnd(f, flags, HUGE);
    TableEntryFrame(f, flags);
  }

  lemma TableEntryFrame(f: nat, flags: nat)
    requires IsFrame(f)
    ensures FrameOf(TableEntry(f, flags)) == f
  {
    FrameMaskKeeps(f);
    TableEntryAnd(f, flags, FRAME_MASK);
    MaskMeetsNo(PRESENT);
    MaskMeetsNo(WRITABLE);
    MaskMeetsNo(USER);
  }

  lemma LeafEntryAnd(phys: nat, flags: nat, m: nat)
    ensures And(LeafEntry(phys, flags), m)
         == Or(Or(And(And(phys, FRAME_MASK), m), And(flags, m)), And(PRESENT, m))
  {
    AndOr(Or(And(phys, FRAME_MASK), flags), PRESENT, m);
    AndOr(And(phys, FRAME_MASK), flags, m);
  }

  lemma LeafEntryDecodes(phys: nat, flags: nat)
    ensures var e := LeafEntry(phys, flags);
      Present(e) && (Has(e, WRITABLE) <==> Has(flags, WRITABLE)) && (Has(e, USER) <==> Has(flags, USER))
    ensures IsFrame(phys) && And(flags, FRAME_MASK) == 0 ==> FrameOf(LeafEntry(phys, flags)) == phys
  {
    FrameMaskClears(phys, WRITABLE);
    FrameMaskClears(phys, USER);
    LeafEntryAnd(phys, flags, PRESENT);
    LeafEntryAnd(phys, flags, WRITABLE);
    LeafEntryAnd(phys, flags, USER);
    LeafEntryAnd(phys, flags, FRAME_MASK);
    if IsFrame(phys) {
      FrameMaskKeeps(phys);
    }
  }

  // The layout of an entry in figures: present, writable, user and large page are bits 0, 1, 2
  // and 7, and the frame is bits 12 to 51.
  lemma EntryBits(e: nat)
    ensures Present(e) <==> e % 2 == 1
    ensures Has(e, WRITABLE) <==> e / 2 % 2 == 1
    ensures Has(e, USER) <==> e / 4 % 2 == 1
    ensures Huge(e) <==> e / 128 % 2 == 1
    ensures FrameOf(e) == e / 4096 % 0x100_0000_0000 * 4096
  {
    assert Pow2(0) == 1 && Pow2(1) == 2 && Pow2(2) == 4 && Pow2(7) == 128;
    BitAt(e, 0);
    BitAt(e, 1);
    BitAt(e, 2);
    BitAt(e, 7);
    FrameBits(e);
  }

  lemma BitAt(e: nat, k: nat)
    ensures And(e, Pow2(k)) != 0 <==> e / Pow2(k) % 2 == 1
  {
    AndOneBit(e, k);
    ShiftedIs(e, k);
  }

  lemma FrameBits(e: nat)
    ensures FrameOf(e) == e / 4096 % 0x100_0000_0000 * 4096
  {
    assert Pow2(12) == 4096;
    assert Pow2(20) == 0x10_0000;
    assert Pow2(30) == 0x4000_0000;
    assert Pow2(40) == 0x100_0000_0000;
    AndHigh(e, Pow2(40) - 1, 12);
    ShiftedIs(e, 12);
    AndMod(e / 4096, 40);
  }

  // The entry of a kernel data page: the frame, present, writable, and no other bit.
  lemma KernelEntry(f: nat, flags: nat)
    requires IsFrame(f) && flags == 3
    ensures LeafEntry(f, flags) == f + 3
  {
    var q := f / 4096;
    DivIs(f, 4, 1024 * q, 0);
    DivIs(f + 3, 2, 2048 * q + 1, 1);
    FrameMaskKeeps(f);
    OrThree(f, flags);
    OrOne(f + 3);
    LeafIs(f, flags, f, f + 3);
  }

  lemma LeafIs(phys: nat, flags: nat, a: nat, b: nat)
    requires And(phys, FRAME_MASK) == a && Or(a, flags) == b
    ensures LeafEntry(phys, flags) == Or(b, PRESENT)
  {
  }

  lemma OrThree(f: nat, three: nat)
    requires f % 4 == 0 && three == 3
    ensures Or(f, three) == f + 3
  {
    OrBit(f, three);
    OrBit(f / 2, three / 2);
    assert Or(f / 4, 0) == f / 4;
    SameBits(Or(f / 2, three / 2), f / 2 + 1);
    SameBits(Or(f, three), f + 3);
  }

  lemma OrOne(e: nat)
    requires e % 2 == 1
    ensures Or(e, 1) == e
  {
    OrBit(e, 1);
    assert Or(e / 2, 0) == e / 2;
    SameBits(Or(e, 1), e);
  }

  // A link in figures: the frame, present, writable, and the user bit of the flags.
  lemma TableEntryIs(f: nat, flags: nat)
    requires IsFrame(f)
    ensures TableEntry(f, flags) == f + 3 + (if flags / 4 % 2 == 1 then 4 else 0)
  {
    var q := f / 4096;
    assert Pow2(2) == 4;
    AndOneBit(flags, 2);
    ShiftedIs(flags, 2);
    DivIs(f, 8, 512 * q, 0);
    OrLowBits(512 * q, And(flags, USER));
  }

  lemma OrLowBits(x: nat, user: nat)
    requires user == 0 || user == 4
    ensures Or(Or(Or(8 * x, 1), 2), user) == 8 * x + 3 + user
  {
    OrBit0(4 * x);
    OrBit1(2 * x);
    if user == 4 { OrBit2(x); }
  }

  lemma OrBit0(y: nat)
    ensures Or(2 * y, 1) == 2 * y + 1
  {
    OrEven(y, 0, 1);
    assert Or(y, 0) == y;
  }

  lemma OrBit1(y: nat)
    ensures Or(4 * y + 1, 2) == 4 * y + 3
  {
    OrOdd(2 * y, 1);
    OrBit0(y);
  }

  lemma OrBit2(y: nat)
    ensures Or(8 * y + 3, 4) == 8 * y + 7
  {
    OrOdd(4 * y + 1, 2);
    OrBit1(y);
  }

  lemma OrEven(x: nat, y: nat, bit: nat)
    requires bit < 2
    ensures Or(2 * x, 2 * y + bit) == 2 * Or(x, y) + bit
  {
    OrBit(2 * x, 2 * y + bit);
    assert 2 * x / 2 == x && (2 * y + bit) / 2 == y;
    SameBits(Or(2 * x, 2 * y + bit), 2 * Or(x, y) + bit);
  }

  lemma OrOdd(x: nat, y: nat)
    ensures Or(2 * x + 1, 2 * y) == 2 * Or(x, y) + 1
  {
    OrBit(2 * x + 1, 2 * y);
    assert (2 * x + 1) / 2 == x && 2 * y / 2 == y;
    SameBits(Or(2 * x + 1, 2 * y), 2 * Or(x, y) + 1);
  }

  lemma KernelEntryBits(f: nat)
    requires IsFrame(f)
    ensures Present(f + 3) && Has(f + 3, WRITABLE) && !Has(f + 3, USER) && !Huge(f + 3) && FrameOf(f + 3) == f
  {
    var q := f / 4096;
    ThreeAbove(q, f + 3);
    EntryBits(f + 3);
    DivIs(q, 0x100_0000_0000, 0, q);
  }

  lemma ThreeAbove(q: nat, e: nat)
    requires e == 4096 * q + 3
    ensures e % 2 == 1 && e / 2 % 2 == 1 && e / 4 % 2 == 0 && e / 128 % 2 == 0 && e / 4096 == q
  {
    DivIs(e, 2, 2048 * q + 1, 1);
    DivIs(e, 4, 1024 * q, 3);
    DivIs(e, 128, 32 * q, 3);
    DivIs(e, 4096, q, 3);
    DivIs(2048 * q + 1, 2, 1024 * q, 1);
    DivIs(1024 * q, 2, 512 * q, 0);
    DivIs(32 * q, 2, 16 * q, 0);
  }
}
