// Virtual memory manager: maps and unmaps 4 KiB pages, allocating page tables on demand from
// the physical memory manager.

module Vmm {
  import opened Options
  import opened Paging
  import opened Pte
  import opened PageTree
  import Pmm

  predicate FrameFree(used: seq<bool>, f: nat) {
    f % PAGE_SIZE == 0 && f / PAGE_SIZE < |used| && !used[f / PAGE_SIZE]
  }

  datatype Snap = Snap(mem: Memory, root: nat, tabs: map<Pos, nat>, used: seq<bool>, free: int)

  function Sees(s: Snap, v: Vpn): View {
    See(s.mem, s.root, v)
  }

  // The tables form a tree, and none of their frames is up for allocation.
  ghost predicate Sound(s: Snap) {
    && Tree(s.mem, s.tabs) && s.tabs[Root] == s.root
    && forall p :: p in s.tabs ==> !FrameFree(s.used, s.tabs[p])
  }

  // Existing tables stay put, and every new one took a frame that was free.
  ghost predicate FreshTables(tabs0: map<Pos, nat>, tabs1: map<Pos, nat>, used0: seq<bool>, used1: seq<bool>) {
    && |used1| == |used0|
    && (forall p :: p in tabs0 ==> p in tabs1 && tabs1[p] == tabs0[p])
    && (forall p :: p in tabs1 && p !in tabs0 ==> FrameFree(used0, tabs1[p]))
    && (forall i :: 0 <= i < |used0| && used0[i] ==> used1[i])
    && (forall i :: 0 <= i < |used0| && !used0[i] && used1[i] ==> i * PAGE_SIZE in tabs1.Values)
  }

  lemma FreshTrans(tabs0: map<Pos, nat>, tabs1: map<Pos, nat>, tabs2: map<Pos, nat>,
                   used0: seq<bool>, used1: seq<bool>, used2: seq<bool>)
    requires FreshTables(tabs0, tabs1, used0, used1) && FreshTables(tabs1, tabs2, used1, used2)
    ensures FreshTables(tabs0, tabs2, used0, used2)
  {
    forall i | 0 <= i < |used0| && !used0[i] && used2[i] ensures i * PAGE_SIZE in tabs2.Values {
      if used1[i] {
        var p :| p in tabs1 && tabs1[p] == i * PAGE_SIZE;
        assert p in tabs2 && tabs2[p] == i * PAGE_SIZE;
      }
    }
  }

  lemma GrowFresh(tabs: map<Pos, nat>, p: Pos, f: nat, used: seq<bool>)
    requires p !in tabs && FrameFree(used, f)
    ensures FreshTables(tabs, tabs[p := f], used, used[f / PAGE_SIZE := true])
  {
    assert p in tabs[p := f] && tabs[p := f][p] == f;
  }

  // What allocating tables along v may do: no translation changes, the tables missing and
  // the free frames go down together, new links pass on the caller's user bit, and new
  // tables stand on the path of v and take frames that were free.
  ghost predicate Progress(s0: Snap, s1: Snap, v: Vpn, flags: nat) {
    var x, y := Sees(s0, v), Sees(s1, v);
    && s1.root == s0.root && SameView(s0.mem, s1.mem, s0.root)
    && s0.free - s1.free == x.missing - y.missing == |s1.tabs| - |s0.tabs| >= 0
    && y.user == (x.user && (s1.free < s0.free ==> Has(flags, USER)))
    && FreshTables(s0.tabs, s1.tabs, s0.used, s1.used) && NewOnPath(s0.tabs, s1.tabs, v)
  }

  lemma ProgressTrans(s0: Snap, s1: Snap, s2: Snap, v: Vpn, flags: nat)
    requires Progress(s0, s1, v, flags) && Progress(s1, s2, v, flags)
    ensures Progress(s0, s2, v, flags)
  {
    FreshTrans(s0.tabs, s1.tabs, s2.tabs, s0.used, s1.used, s2.used);
  }

  // Frame f, free until now, has become an empty table linked from entry i of `table`.
  ghost predicate Attached(s0: Snap, s1: Snap, table: nat, i: nat, f: nat, flags: nat) {
    && i < 512 && IsFrame(f) && FrameFree(s0.used, f)
    && s1.used == s0.used[f / PAGE_SIZE := true] && s1.free == s0.free - 1
    && s1.mem == Grow(s0.mem, table, i, f, TableEntry(f, flags)) && s1.tabs == s0.tabs && s1.root == s0.root
  }

  // The mapper stands at the table of v on this level, with no large page on the path.
  ghost predicate OnTree(s: Snap, v: Vpn, level: nat, table: nat) {
    && Sound(s) && InRange(v) && Sees(s, v).noHuge
    && 1 <= level <= 4 && PosOf(v, level) in s.tabs && s.tabs[PosOf(v, level)] == table
  }

  lemma NoHugeThere(s: Snap, v: Vpn, level: nat, table: nat)
    requires OnTree(s, v, level, table)
    ensures ViewAt(s.mem, table, level, v).noHuge
    decreases 4 - level
  {
    if level < 4 {
      AncestorIn(s.mem, s.tabs, v, level, level + 1);
      NoHugeThere(s, v, level + 1, s.tabs[PosOf(v, level + 1)]);
      assert LinkOk(s.mem, s.tabs, PosOf(v, level + 1), Index(v, level + 1));
    }
  }

  // A present entry leads to the next table of v; without one there is none.
  lemma LinkOnTree(s: Snap, v: Vpn, level: nat, table: nat)
    requires OnTree(s, v, level, table) && level >= 2
    ensures var e := Read(s.mem, table, Index(v, level));
      if Present(e) then OnTree(s, v, level - 1, FrameOf(e)) else PosOf(v, level - 1) !in s.tabs
  {
    NoHugeThere(s, v, level, table);
    assert LinkOk(s.mem, s.tabs, PosOf(v, level), Index(v, level));
    assert PosOf(v, level - 1) == Sub(PosOf(v, level), Index(v, level));
  }

  lemma AttachOnTree(s: Snap, s1: Snap, v: Vpn, level: nat, table: nat, f: nat, flags: nat)
    requires OnTree(s, v, level, table) && level >= 2 && !Present(Read(s.mem, table, Index(v, level)))
    requires Attached(s, s1, table, Index(v, level), f, flags)
    ensures var s2 := s1.(tabs := s.tabs[PosOf(v, level - 1) := f]);
      Progress(s, s2, v, flags) && OnTree(s2, v, level - 1, f)
  {
    var p, i := PosOf(v, level), Index(v, level);
    LinkOnTree(s, v, level, table);
    GrowKeepsTree(s.mem, s.tabs, p, i, f, flags);
    GrowSameView(s.mem, s.tabs, v, level, f, flags);
    GrowFresh(s.tabs, PosOf(v, level - 1), f, s.used);
    assert Alike(Sees(s, v), See(s1.mem, s.root, v));
  }

  // Without a table one level down, v has no lowest table and is unmapped.
  lemma StoppedOnTree(s: Snap, v: Vpn, level: nat, table: nat)
    requires OnTree(s, v, level, table) && level >= 2 && PosOf(v, level - 1) !in s.tabs
    ensures PosOf(v, 1) !in s.tabs && Sees(s, v).missing > 0 && Sees(s, v).found == Unmapped
  {
    NoDescendant(s.mem, s.tabs, v, 1, level - 1);
    MissingZeroIff(s.mem, s.tabs, v, 4);
    MissingIsUnmapped(s.mem, s.root, 4, v);
  }

  lemma LowestOnTree(s: Snap, v: Vpn, table: nat)
    requires OnTree(s, v, 1, table)
    ensures Sees(s, v).missing == 0
  {
    AncestorIn(s.mem, s.tabs, v, 1, 4);
    MissingZeroIff(s.mem, s.tabs, v, 4);
  }

  // Where a store meant for v lands.
  function Landing(s: Snap, v: Vpn): Stop {
    Descent(s.mem, s.root, 4, v)
  }

  // Frames have been allocated, if anything.
  ghost predicate Drained(s0: Snap, s1: Snap) {
    && s1.root == s0.root && s1.tabs == s0.tabs && |s1.used| == |s0.used| && s1.free <= s0.free
    && forall i :: 0 <= i < |s0.used| && s0.used[i] ==> s1.used[i]
  }

  // The mapper, having met a large page or heading for one, off the tree.
  ghost predicate Strayed(s0: Snap, s1: Snap, v: Vpn, level: nat, table: nat) {
    && Sound(s0) && InRange(v) && 1 <= level <= 4
    && Drained(s0, s1) && Astray(s0.mem, s1.mem, s0.tabs, v, level, table)
  }

  lemma Start(s: Snap, v: Vpn, flags: nat)
    requires Sound(s) && InRange(v)
    ensures Found(s, s, v, flags, 4, Some(s.root))
  {
    assert PosOf(v, 4) == Root;
  }

  // At most one word of the tables has changed: the one at which the descent stops.
  ghost predicate Misplaced(s0: Snap, s1: Snap, v: Vpn) {
    var stop := Landing(s0, v);
    AgreeBut(s0.mem, s1.mem, s0.tabs, stop.table, Index(v, stop.level)) && Drained(s0, s1)
  }

  lemma StrayStore(s0: Snap, s: Snap, v: Vpn, table: nat, e: nat)
    requires Strayed(s0, s, v, 1, table)
    ensures Misplaced(s0, s.(mem := SetEntry(s.mem, table, v.i1, e)), v)
    ensures Landing(s0, v).level == 1 ==> s.mem == s0.mem && table == Landing(s0, v).table
  {
    AstrayStores(s0.mem, s.mem, s0.tabs, v, table, e);
  }

  // The mapper, begun in s0, stands at `next` on this level or has given up for want of frames.
  ghost predicate Found(s0: Snap, s: Snap, v: Vpn, flags: nat, level: nat, next: Option<nat>) {
    match next
    case Some(table) =>
      if Sees(s0, v).noHuge then Progress(s0, s, v, flags) && OnTree(s, v, level, table)
      else Strayed(s0, s, v, level, table)
    case None =>
      if Sees(s0, v).noHuge then Progress(s0, s, v, flags) && Sound(s) && s.free == 0 && Sees(s, v).missing > 0
      else Misplaced(s0, s, v) && Landing(s0, v).level > 1
  }

  lemma FoundNext(s0: Snap, s: Snap, v: Vpn, flags: nat, level: nat, table: nat)
    requires Found(s0, s, v, flags, level, Some(table)) && 2 <= level <= 4
    requires Present(Read(s.mem, table, Index(v, level)))
    ensures Found(s0, s, v, flags, level - 1, Some(FrameOf(Read(s.mem, table, Index(v, level)))))
  {
    if Sees(s0, v).noHuge {
      LinkOnTree(s, v, level, table);
    } else {
      AstrayFollows(s0.mem, s.mem, s0.tabs, v, level, table);
    }
  }

  lemma FoundNone(s0: Snap, s: Snap, v: Vpn, flags: nat, level: nat, table: nat)
    requires Found(s0, s, v, flags, level, Some(table)) && 2 <= level <= 4
    requires !Present(Read(s.mem, table, Index(v, level))) && s.free == 0
    ensures Found(s0, s, v, flags, level - 1, None)
  {
    if Sees(s0, v).noHuge {
      LinkOnTree(s, v, level, table);
      StoppedOnTree(s, v, level, table);
    }
  }

  // After a new table has been attached for v, it joins the tree, or it does not.
  ghost function Adopted(s0: Snap, s: Snap, s1: Snap, v: Vpn, level: nat, next: Option<nat>): Snap
    requires 2 <= level <= 4
  {
    if Sees(s0, v).noHuge && s1 != s && next.Some? then s1.(tabs := s1.tabs[PosOf(v, level - 1) := next.value]) else s1
  }

  lemma FoundNew(s0: Snap, s: Snap, s1: Snap, v: Vpn, flags: nat, level: nat, table: nat, f: nat)
    requires Found(s0, s, v, flags, level, Some(table)) && 2 <= level <= 4
    requires !Present(Read(s.mem, table, Index(v, level))) && Attached(s, s1, table, Index(v, level), f, flags)
    ensures Found(s0, Adopted(s0, s, s1, v, level, Some(f)), v, flags, level - 1, Some(f))
  {
    if Sees(s0, v).noHuge {
      AttachOnTree(s, s1, v, level, table, f, flags);
      ProgressTrans(s0, s, Adopted(s0, s, s1, v, level, Some(f)), v, flags);
    } else {
      AstrayGrows(s0.mem, s.mem, s0.tabs, v, level, table, f, flags);
    }
  }

  // One call of get_next_level on the way.
  ghost predicate Called(s: Snap, s1: Snap, table: nat, index: nat, flags: nat, next: Option<nat>) {
    var e := Read(s.mem, table, index);
    if Present(e) then s1 == s && next == Some(FrameOf(e))
    else if s.free == 0 then s1 == s && next == None
    else next.Some? && Attached(s, s1, table, index, next.value, flags)
  }

  lemma FoundStep(s0: Snap, s: Snap, s1: Snap, v: Vpn, flags: nat, level: nat, table: nat, next: Option<nat>)
    requires 2 <= level <= 4
    ensures Found(s0, s, v, flags, level, Some(table)) && Called(s, s1, table, Index(v, level), flags, next) ==>
              Found(s0, Adopted(s0, s, s1, v, level, next), v, flags, level - 1, next)
  {
    if !(Found(s0, s, v, flags, level, Some(table)) && Called(s, s1, table, Index(v, level), flags, next)) {
    } else if Present(Read(s.mem, table, Index(v, level))) {
      FoundNext(s0, s, v, flags, level, table);
    } else if next == None {
      FoundNone(s0, s, v, flags, level, table);
    } else {
      FoundNew(s0, s, s1, v, flags, level, table, next.value);
    }
  }

  // A large page, if there is one on the path, leads to no table.
  ghost predicate Tame(s: Snap, v: Vpn) {
    Sees(s, v).noHuge || Landing(s, v).table !in s.tabs.Values
  }

  // What vmm_map_page does, with no large page on the path, to the translation function, the
  // permissions, the frame count and the tables.
  ghost predicate MapOutcome(s0: Snap, s1: Snap, v: Vpn, phys: nat, flags: nat) {
    var x, y := Sees(s0, v), Sees(s1, v);
    && s1.root == s0.root && |s1.tabs| - |s0.tabs| == s0.free - s1.free
    && FreshTables(s0.tabs, s1.tabs, s0.used, s1.used) && NewOnPath(s0.tabs, s1.tabs, v)
    && if x.missing <= s0.free then
         && s1.free == s0.free - x.missing && y.missing == 0
         && SameViewBut(s0.mem, s1.mem, s0.root, v)
         && y.found == Page(LeafEntry(phys, flags))
         && (UserPage(y) <==> Has(flags, USER) && x.user && (x.missing > 0 ==> Has(flags, USER)))
         && (WritablePage(y) <==> Has(flags, WRITABLE) && x.writable)
       else
         s1.free == 0 && SameView(s0.mem, s1.mem, s0.root)
  }

  // With a large page on it, at most one word of the tables changes, wherever that page leads.
  ghost predicate MapResult(s0: Snap, s1: Snap, v: Vpn, phys: nat, flags: nat)
    requires InRange(v)
  {
    var stop := Landing(s0, v);
    if Sees(s0, v).noHuge then MapOutcome(s0, s1, v, phys, flags)
    else
      && Misplaced(s0, s1, v)
      && (stop.level == 1 ==> s1.mem == SetEntry(s0.mem, stop.table, v.i1, LeafEntry(phys, flags)))
  }

  lemma MapStores(s0: Snap, s: Snap, v: Vpn, phys: nat, flags: nat, table: nat)
    requires Progress(s0, s, v, flags) && OnTree(s, v, 1, table) && s.free >= 0
    ensures var s1 := s.(mem := SetEntry(s.mem, table, v.i1, LeafEntry(phys, flags)));
      MapOutcome(s0, s1, v, phys, flags) && Sound(s1)
  {
    var e := LeafEntry(phys, flags);
    LowestOnTree(s, v, table);
    SetLeafSameView(s.mem, s.tabs, v, e);
    SetLeafKeepsTree(s.mem, s.tabs, v, e);
    LeafEntryDecodes(phys, flags);
    assert Alike(Sees(s0, v), Sees(s, v));
  }

  lemma MapDone(s0: Snap, s: Snap, s1: Snap, v: Vpn, phys: nat, flags: nat, pt: Option<nat>)
    requires s.free >= 0 && InRange(v)
    requires s1 == if pt.Some? then s.(mem := SetEntry(s.mem, pt.value, v.i1, LeafEntry(phys, flags))) else s
    ensures Sound(s0) && Found(s0, s, v, flags, 1, pt) ==>
              MapResult(s0, s1, v, phys, flags) && (Tame(s0, v) ==> Sound(s1))
  {
    if !(Sound(s0) && Found(s0, s, v, flags, 1, pt)) {
    } else if Sees(s0, v).noHuge {
      if pt.Some? { MapStores(s0, s, v, phys, flags, pt.value); }
    } else {
      if pt.Some? {
        StrayStore(s0, s, v, pt.value, LeafEntry(phys, flags));
      }
      if Tame(s0, v) { LargePageDefeatsMap(s0, s1, v); }
    }
  }

  // Mapping takes effect exactly if no large page stands on the path and the frames suffice,
  // provided that a large page, being followed, leads to no table.
  lemma MapTakesEffectIff(s0: Snap, s1: Snap, v: Vpn, phys: nat, flags: nat)
    requires s0.free >= 0 && InRange(v) && Tame(s0, v)
    ensures Sound(s0) && MapResult(s0, s1, v, phys, flags) ==>
              (Sees(s1, v).found == Page(LeafEntry(phys, flags)) <==> Sees(s0, v).noHuge && Sees(s0, v).missing <= s0.free)
  {
    if !(Sound(s0) && MapResult(s0, s1, v, phys, flags)) {
    } else if Sees(s0, v).noHuge {
      if Sees(s0, v).missing > s0.free { MapTooFew(s0, s1, v, phys, flags); }
    } else {
      LargePageDefeatsMap(s0, s1, v);
      HugeIsNoPage(s0.mem, s0.root, 4, v);
    }
  }

  lemma MapTooFew(s0: Snap, s1: Snap, v: Vpn, phys: nat, flags: nat)
    requires InRange(v) && Sees(s0, v).missing > s0.free >= 0 && MapOutcome(s0, s1, v, phys, flags)
    ensures Sees(s1, v).found == Unmapped
  {
    MissingIsUnmapped(s0.mem, s0.root, 4, v);
    assert Alike(Sees(s0, v), See(s1.mem, s0.root, v));
  }

  // After a mapping that takes effect, the four words of the address lead to the new entry.
  lemma MappedWords(s0: Snap, s1: Snap, va: nat, phys: nat, flags: nat)
    requires Sees(s0, VpnOf(va)).missing <= s0.free && MapOutcome(s0, s1, VpnOf(va), phys, flags)
    ensures var e4 := Read(s1.mem, s1.root, va / 0x80_0000_0000 % 512);
      var e3 := Read(s1.mem, FrameOf(e4), va / 0x4000_0000 % 512);
      var e2 := Read(s1.mem, FrameOf(e3), va / 0x20_0000 % 512);
      && Present(e4) && !Huge(e4) && Present(e3) && !Huge(e3) && Present(e2) && !Huge(e2)
      && Read(s1.mem, FrameOf(e2), va / 0x1000 % 512) == LeafEntry(phys, flags)
  {
    WalkWords(s1.mem, s1.root, va);
  }

  // Following a large page that leads to no table changes no address's view.
  lemma LargePageDefeatsMap(s0: Snap, s1: Snap, v: Vpn)
    requires Sound(s0) && Misplaced(s0, s1, v) && Landing(s0, v).table !in s0.tabs.Values
    ensures Sound(s1) && forall w: Vpn :: InRange(w) ==> Sees(s1, w) == Sees(s0, w)
  {
    AgreeKeepsTree(s0.mem, s1.mem, s0.tabs, Landing(s0, v).table, Index(v, Landing(s0, v).level));
  }

  // If it leads to a table, only addresses through the word stored there are affected.
  lemma LargePageSpares(s0: Snap, s1: Snap, v: Vpn, w: Vpn)
    requires Sound(s0) && Misplaced(s0, s1, v) && InRange(w)
    requires !Meets(s0.tabs, w, Landing(s0, v).table, Index(v, Landing(s0, v).level))
    ensures Sees(s1, w) == Sees(s0, w)
  {
    AgreeView(s0.mem, s1.mem, s0.tabs, Landing(s0, v).table, Index(v, Landing(s0, v).level), w, 4);
  }

  // What is left after a page was mapped and unmapped.
  lemma Restored(s0: Snap, s1: Snap, s2: Snap, v: Vpn)
    requires InRange(v) && s1.root == s0.root && s2.root == s0.root
    requires SameViewBut(s0.mem, s1.mem, s0.root, v) && SameViewBut(s1.mem, s2.mem, s0.root, v)
    requires Sees(s0, v).found == Sees(s2, v).found
    ensures SameView(s0.mem, s2.mem, s0.root)
  {
  }

  class Vmm {
    const pmm: Pmm.Pmm
    const root: nat
    var mem: Memory
    ghost var tabs: map<Pos, nat>

    // The allocator is sound, and its frames have addresses that fit an entry.
    ghost predicate Ready()
      reads this, pmm, pmm.bitmap
    {
      pmm.Valid() && pmm.totalPages * PAGE_SIZE <= FRAME_LIMIT
    }

    ghost predicate Valid()
      reads this, pmm, pmm.bitmap
    {
      Ready() && Sound(Snapshot())
    }

    ghost function Snapshot(): Snap
      reads this, pmm
    {
      Snap(mem, root, tabs, pmm.used, pmm.freePages)
    }

    // Adopts the tables that the boot loader left active.
    constructor (pmm: Pmm.Pmm, root: nat, mem: Memory, ghost tabs: map<Pos, nat>)
      requires pmm.Valid() && pmm.totalPages * PAGE_SIZE <= FRAME_LIMIT
      requires Sound(Snap(mem, root, tabs, pmm.used, pmm.freePages))
      ensures Valid() && this.pmm == pmm && this.root == root && this.mem == mem && this.tabs == tabs
    {
      this.pmm, this.root, this.mem, this.tabs := pmm, root, mem, tabs;
    }

    // The table linked from entry `index` of `table`, allocating it if asked to. Only the
    // present bit of the entry is looked at.
    method GetNextLevel(table: nat, index: nat, allocate: bool, flags: nat) returns (next: Option<nat>)
      requires Ready() && index < 512
      modifies this`mem, pmm, pmm.bitmap
      ensures Ready() && pmm.bitmap == old(pmm.bitmap) && pmm.totalPages == old(pmm.totalPages)
      ensures if allocate then Called(old(Snapshot()), Snapshot(), table, index, flags, next)
              else Snapshot() == old(Snapshot())
                   && next == if Present(Read(mem, table, index)) then Some(FrameOf(Read(mem, table, index))) else None
    {
      var e := Read(mem, table, index);
      if Present(e) {
        return Some(FrameOf(e));
      }
      if !allocate {
        return None;
      }
      var f := pmm.AllocPage();
      if f == 0 {
        return None;
      }
      mem := mem[f := ZeroTable()];
      mem := SetEntry(mem, table, index, TableEntry(f, flags));
      return Some(f);
    }

    // One level of the mapper's descent along v, begun in s0.
    method Descend(table: nat, level: nat, flags: nat, ghost v: Vpn, index: nat, ghost s0: Snap) returns (next: Option<nat>)
      requires Ready() && 2 <= level <= 4 && index == Index(v, level) < 512
      requires Found(s0, Snapshot(), v, flags, level, Some(table))
      modifies this, pmm, pmm.bitmap
      ensures Ready() && pmm.bitmap == old(pmm.bitmap) && pmm.totalPages == old(pmm.totalPages)
      ensures Found(s0, Snapshot(), v, flags, level - 1, next)
    {
      ghost var s := Snapshot();
      next := GetNextLevel(table, index, true, flags);
      FoundStep(s0, s, Snapshot(), v, flags, level, table, next);
      tabs := Adopted(s0, s, Snapshot(), v, level, next).tabs;
    }

    // The lowest table on the path of va, allocating what is missing.
    method FindTable(va: nat, flags: nat) returns (pt: Option<nat>)
      requires Valid()
      modifies this, pmm, pmm.bitmap
      ensures Ready() && pmm.bitmap == old(pmm.bitmap) && pmm.totalPages == old(pmm.totalPages)
      ensures Found(old(Snapshot()), Snapshot(), VpnOf(va), flags, 1, pt)
    {
      ghost var v, s0 := VpnOf(va), Snapshot();
      var i4, i3, i2 := va / 0x80_0000_0000 % 512, va / 0x4000_0000 % 512, va / 0x20_0000 % 512;
      Start(s0, v, flags);
      var pdpt := Descend(root, 4, flags, v, i4, s0);
      if pdpt == None { return None; }
      var pd := Descend(pdpt.value, 3, flags, v, i3, s0);
      if pd == None { return None; }
      pt := Descend(pd.value, 2, flags, v, i2, s0);
    }

    // Maps va to phys. With no large page on the path it fails, silently, exactly when the
    // frames left are fewer than the tables missing; the tables it did allocate then stay
    // linked and empty. A large page is taken for a table.
    method MapPage(va: nat, phys: nat, flags: nat)
      requires Valid()
      modifies this, pmm, pmm.bitmap
      ensures Ready() && pmm.bitmap == old(pmm.bitmap) && pmm.totalPages == old(pmm.totalPages)
      ensures MapResult(old(Snapshot()), Snapshot(), VpnOf(va), phys, flags)
      ensures Tame(old(Snapshot()), VpnOf(va)) ==> Valid()
    {
      ghost var s0 := Snapshot();
      var pt := FindTable(va, flags);
      StoreLeaf(pt, va, phys, flags, s0);
    }

    method StoreLeaf(pt: Option<nat>, va: nat, phys: nat, flags: nat, ghost s0: Snap)
      requires Sound(s0) && pmm.freePages >= 0 && Found(s0, Snapshot(), VpnOf(va), flags, 1, pt)
      modifies this`mem
      ensures MapResult(s0, Snapshot(), VpnOf(va), phys, flags)
      ensures Tame(s0, VpnOf(va)) ==> Sound(Snapshot())
    {
      ghost var s := Snapshot();
      if pt.Some? {
        mem := SetEntry(mem, pt.value, va / 0x1000 % 512, LeafEntry(phys, flags));
      }
      MapDone(s0, s, Snapshot(), VpnOf(va), phys, flags, pt);
    }

    // The lowest table that the descent for va reaches, if it gets there.
    method LookupTable(va: nat) returns (pt: Option<nat>)
      requires Ready()
      modifies this`mem, pmm, pmm.bitmap
      ensures Ready() && Snapshot() == old(Snapshot()) && pmm.bitmap == old(pmm.bitmap) && pmm.totalPages == old(pmm.totalPages)
      ensures var stop := Landing(Snapshot(), VpnOf(va)); pt == if stop.level == 1 then Some(stop.table) else None
    {
      var i4, i3, i2 := va / 0x80_0000_0000 % 512, va / 0x4000_0000 % 512, va / 0x20_0000 % 512;
      var pdpt := GetNextLevel(root, i4, false, 0);
      if pdpt == None { return None; }
      var pd := GetNextLevel(pdpt.value, i3, false, 0);
      if pd == None { return None; }
      pt := GetNextLevel(pd.value, i2, false, 0);
    }

    // Removes the translation of va, and no other; tables are never given back. A large page
    // on the path stays: it is taken for a table, and one word there is cleared.
    method UnmapPage(va: nat)
      requires Valid()
      modifies this, pmm, pmm.bitmap
      ensures Ready() && pmm.bitmap == old(pmm.bitmap) && pmm.totalPages == old(pmm.totalPages)
      ensures Snapshot() == old(Snapshot()).(mem := mem) && UnmapOutcome(old(Snapshot()), Snapshot(), VpnOf(va))
      ensures Tame(old(Snapshot()), VpnOf(va)) ==> Valid()
    {
      ghost var v, s0 := VpnOf(va), Snapshot();
      var pt := LookupTable(va);
      if pt.Some? {
        mem := SetEntry(mem, pt.value, va / 0x1000 % 512, 0);
      }
      UnmapDone(s0, Snapshot(), v);
    }

    // Mapping a page that was unmapped and unmapping it restores every translation.
    method MapThenUnmap(va: nat, phys: nat, flags: nat)
      requires Valid() && Sees(Snapshot(), VpnOf(va)).found == Unmapped
      modifies this, pmm, pmm.bitmap
      ensures Valid() && SameView(old(mem), mem, root)
    {
      ghost var v, s0 := VpnOf(va), Snapshot();
      UnmappedIsOpen(mem, root, 4, v);
      MapPage(va, phys, flags);
      ghost var s1 := Snapshot();
      assert Alike(Sees(s0, v), if s0.free < Sees(s0, v).missing then Sees(s1, v) else Sees(s1, v).(found := Unmapped));
      UnmapPage(va);
      Restored(s0, s1, Snapshot(), v);
    }
  }

  ghost predicate UnmapOutcome(s0: Snap, s1: Snap, v: Vpn)
    requires InRange(v)
  {
    var stop := Landing(s0, v);
    && s1 == (if stop.level == 1 then s0.(mem := SetEntry(s0.mem, stop.table, v.i1, 0)) else s0)
    && if Sees(s0, v).noHuge then SameViewBut(s0.mem, s1.mem, s0.root, v) && Sees(s1, v).found == Unmapped
       else Misplaced(s0, s1, v)
  }

  // Along a path with no large page, the descent stops where the tables end.
  lemma {:induction false} DescentOnTree(s: Snap, v: Vpn, level: nat, table: nat)
    requires OnTree(s, v, level, table)
    ensures var stop := Descent(s.mem, table, level, v);
      OnTree(s, v, stop.level, stop.table) && (stop.level > 1 ==> Sees(s, v).found == Unmapped)
    decreases level
  {
    if level > 1 {
      LinkOnTree(s, v, level, table);
      var e := Read(s.mem, table, Index(v, level));
      if Present(e) {
        DescentOnTree(s, v, level - 1, FrameOf(e));
      } else {
        StoppedOnTree(s, v, level, table);
      }
    }
  }

  lemma UnmapDone(s0: Snap, s1: Snap, v: Vpn)
    requires Sound(s0) && InRange(v)
    requires var stop := Landing(s0, v);
      s1 == if stop.level == 1 then s0.(mem := SetEntry(s0.mem, stop.table, v.i1, 0)) else s0
    ensures UnmapOutcome(s0, s1, v)
    ensures Tame(s0, v) ==> Sound(s1)
  {
    if Sees(s0, v).noHuge {
      DescentOnTree(s0, v, 4, s0.root);
      if Landing(s0, v).level == 1 {
        SetLeafSameView(s0.mem, s0.tabs, v, 0);
        SetLeafKeepsTree(s0.mem, s0.tabs, v, 0);
      }
    } else {
      if Landing(s0, v).level == 1 { AstrayStores(s0.mem, s0.mem, s0.tabs, v, Landing(s0, v).table, 0); }
      if Landing(s0, v).table !in s0.tabs.Values { LargePageDefeatsMap(s0, s1, v); }
    }
  }
}
