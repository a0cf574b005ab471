// Four-level page tables held in physical frames, read the way the processor walks them, and
// the invariant that the reachable tables form an unshared tree.

module PageTree {
  import opened Pte

  // The contents of frames: 512 words per frame, by physical address. What was never stored
  // reads as zero.
  type Memory = map<nat, seq<nat>>

  function Read(mem: Memory, table: nat, index: nat): nat {
    if table in mem && index < |mem[table]| then mem[table][index] else 0
  }

  function Row(mem: Memory, table: nat): (r: seq<nat>)
    ensures |r| == 512 && forall i :: 0 <= i < 512 ==> r[i] == Read(mem, table, i)
  {
    seq(512, i requires 0 <= i < 512 => Read(mem, table, i))
  }

  // The memory after a store into one word of a frame.
  function SetEntry(mem: Memory, table: nat, i: nat, e: nat): Memory
    requires i < 512
  {
    mem[table := Row(mem, table)[i := e]]
  }

  lemma ReadSet(mem: Memory, table: nat, i: nat, e: nat, t: nat, j: nat)
    requires i < 512 && j < 512
    ensures Read(SetEntry(mem, table, i, e), t, j) == if t == table && j == i then e else Read(mem, t, j)
  {
  }

  // Bits 12..47 of a virtual address, nine at a time; i1 selects within the lowest table.
  datatype Vpn = Vpn(i1: nat, i2: nat, i3: nat, i4: nat)

  function VpnOf(va: nat): (v: Vpn)
    ensures InRange(v)
  {
    Vpn(va / 0x1000 % 512, va / 0x20_0000 % 512, va / 0x4000_0000 % 512, va / 0x80_0000_0000 % 512)
  }

  lemma VpnIsBits12To47(va: nat, vb: nat)
    ensures VpnOf(va) == VpnOf(vb) <==> va / 4096 % 0x10_0000_0000 == vb / 4096 % 0x10_0000_0000
  {
    VpnDigits(va);
    VpnDigits(vb);
    DigitsUnique(VpnOf(va), VpnOf(vb));
  }

  lemma DigitsUnique(v: Vpn, w: Vpn)
    requires InRange(v) && InRange(w)
    ensures v == w <==> v.i1 + 512 * (v.i2 + 512 * (v.i3 + 512 * v.i4)) == w.i1 + 512 * (w.i2 + 512 * (w.i3 + 512 * w.i4))
  {
    DigitUnique(v.i1, v.i2 + 512 * (v.i3 + 512 * v.i4), w.i1, w.i2 + 512 * (w.i3 + 512 * w.i4));
    DigitUnique(v.i2, v.i3 + 512 * v.i4, w.i2, w.i3 + 512 * w.i4);
    DigitUnique(v.i3, v.i4, w.i3, w.i4);
  }

  lemma DigitUnique(x: nat, a: nat, y: nat, b: nat)
    requires x < 512 && y < 512
    ensures x + 512 * a == y + 512 * b <==> x == y && a == b
  {
  }

  lemma VpnDigits(va: nat)
    ensures var v := VpnOf(va);
      va / 4096 % 0x10_0000_0000 == v.i1 + 512 * (v.i2 + 512 * (v.i3 + 512 * v.i4))
      && v.i1 < 512 && v.i2 < 512 && v.i3 < 512 && v.i4 < 512
  {
    var a := va / 4096;
    var b := a / 512;
    var c := b / 512;
    var d := c / 512;
    assert va / 0x20_0000 == b && va / 0x4000_0000 == c && va / 0x80_0000_0000 == d;
  }

  function Index(v: Vpn, level: nat): nat
    requires 1 <= level <= 4
  {
    if level == 4 then v.i4 else if level == 3 then v.i3 else if level == 2 then v.i2 else v.i1
  }

  predicate InRange(v: Vpn) {
    v.i1 < 512 && v.i2 < 512 && v.i3 < 512 && v.i4 < 512
  }

  datatype Translation = Unmapped | Page(entry: nat) | Large(level: nat, entry: nat)

  function LeafTranslation(e: nat): Translation {
    if Present(e) then Page(e) else Unmapped
  }

  predicate Links(e: nat) {
    Present(e) && !Huge(e)
  }

  // All that the path of an address shows: what the processor finds there, whether a large
  // page stands on it, how many tables are missing, and whether every table link already
  // present carries the writable and the user bit.
  datatype View = View(found: Translation, noHuge: bool, missing: nat, writable: bool, user: bool)

  function ViewAt(mem: Memory, table: nat, level: nat, v: Vpn): (r: View)
    requires 1 <= level <= 4
    ensures r.missing < level
    decreases level
  {
    var e := Read(mem, table, Index(v, level));
    if level == 1 then View(LeafTranslation(e), true, 0, true, true)
    else if !Present(e) then View(Unmapped, true, level - 1, true, true)
    else if Huge(e) then View(Large(level, e), false, 0, true, true)
    else
      var below := ViewAt(mem, FrameOf(e), level - 1, v);
      below.(writable := below.writable && Has(e, WRITABLE), user := below.user && Has(e, USER))
  }

  function See(mem: Memory, root: nat, v: Vpn): View {
    ViewAt(mem, root, 4, v)
  }

  // The walk of an address in figures: the words at its bits 39 to 47, 30 to 38, 21 to 29 and
  // 12 to 20, each table where the word before points.
  lemma WalkWords(mem: Memory, root: nat, va: nat)
    ensures var e4 := Read(mem, root, va / 0x80_0000_0000 % 512);
      var e3 := Read(mem, FrameOf(e4), va / 0x4000_0000 % 512);
      var e2 := Read(mem, FrameOf(e3), va / 0x20_0000 % 512);
      var e1 := Read(mem, FrameOf(e2), va / 0x1000 % 512);
      See(mem, root, VpnOf(va)).found
      == if !Present(e4) then Unmapped else if Huge(e4) then Large(4, e4)
         else if !Present(e3) then Unmapped else if Huge(e3) then Large(3, e3)
         else if !Present(e2) then Unmapped else if Huge(e2) then Large(2, e2)
         else if Present(e1) then Page(e1) else Unmapped
  {
    WalkSteps(mem, root, VpnOf(va));
  }

  lemma WalkSteps(mem: Memory, root: nat, v: Vpn)
    ensures var e4 := Read(mem, root, v.i4);
      var e3 := Read(mem, FrameOf(e4), v.i3);
      var e2 := Read(mem, FrameOf(e3), v.i2);
      var e1 := Read(mem, FrameOf(e2), v.i1);
      See(mem, root, v).found
      == if !Present(e4) then Unmapped else if Huge(e4) then Large(4, e4)
         else if !Present(e3) then Unmapped else if Huge(e3) then Large(3, e3)
         else if !Present(e2) then Unmapped else if Huge(e2) then Large(2, e2)
         else if Present(e1) then Page(e1) else Unmapped
  {
    var e4 := Read(mem, root, v.i4);
    var e3 := Read(mem, FrameOf(e4), v.i3);
    var e2 := Read(mem, FrameOf(e3), v.i2);
    assert Links(e4) ==> ViewAt(mem, root, 4, v).found == ViewAt(mem, FrameOf(e4), 3, v).found;
    assert Links(e3) ==> ViewAt(mem, FrameOf(e4), 3, v).found == ViewAt(mem, FrameOf(e3), 2, v).found;
    assert Links(e2) ==> ViewAt(mem, FrameOf(e3), 2, v).found == ViewAt(mem, FrameOf(e2), 1, v).found;
  }

  // A table's place in the tree: the indices followed from the root.
  datatype Pos = Root | Sub(parent: Pos, index: nat)

  function Level(p: Pos): int {
    match p case Root => 4 case Sub(q, _) => Level(q) - 1
  }

  // The table of the given level on the path of v.
  function PosOf(v: Vpn, level: nat): (p: Pos)
    requires 1 <= level <= 4
    ensures Level(p) == level
    decreases 4 - level
  {
    if level == 4 then Root else Sub(PosOf(v, level + 1), Index(v, level + 1))
  }

  // tabs names the frame of every reachable table: one frame per place, no frame twice, and
  // a place below p exists exactly when p's entry links a table.
  ghost predicate Tree(mem: Memory, tabs: map<Pos, nat>) {
    Root in tabs && Shaped(tabs) && Unshared(tabs) && Linked(mem, tabs)
  }

  ghost predicate Shaped(tabs: map<Pos, nat>) {
    && (forall p :: p in tabs ==> 1 <= Level(p))
    && (forall p, i :: Sub(p, i) in tabs ==> p in tabs && i < 512)
  }

  ghost predicate Unshared(tabs: map<Pos, nat>) {
    forall p, q :: p in tabs && q in tabs && tabs[p] == tabs[q] ==> p == q
  }

  ghost predicate Linked(mem: Memory, tabs: map<Pos, nat>) {
    forall p, i :: p in tabs && Level(p) > 1 && 0 <= i < 512 ==> LinkOk(mem, tabs, p, i)
  }

  ghost predicate LinkOk(mem: Memory, tabs: map<Pos, nat>, p: Pos, i: nat)
    requires p in tabs
  {
    var e := Read(mem, tabs[p], i);
    && (Sub(p, i) in tabs <==> Links(e))
    && (Links(e) ==> tabs[Sub(p, i)] == FrameOf(e))
  }

  // Distinct links lead to distinct tables.
  lemma NoSharing(mem: Memory, tabs: map<Pos, nat>, p: Pos, i: nat, q: Pos, j: nat)
    requires Tree(mem, tabs) && p in tabs && q in tabs && Level(p) > 1 && Level(q) > 1
    requires i < 512 && j < 512 && Links(Read(mem, tabs[p], i)) && Links(Read(mem, tabs[q], j))
    requires FrameOf(Read(mem, tabs[p], i)) == FrameOf(Read(mem, tabs[q], j))
    ensures p == q && i == j
  {
    assert LinkOk(mem, tabs, p, i) && LinkOk(mem, tabs, q, j);
  }

  function ZeroTable(): (t: seq<nat>)
    ensures |t| == 512 && forall i :: 0 <= i < 512 ==> t[i] == 0
  {
    seq(512, _ => 0)
  }

  // The memory after frame f has been zeroed and then linked from entry i of a table.
  function Grow(mem: Memory, table: nat, i: nat, f: nat, e: nat): Memory
    requires i < 512
  {
    SetEntry(mem[f := ZeroTable()], table, i, e)
  }

  lemma ReadGrow(mem: Memory, table: nat, i: nat, f: nat, e: nat, t: nat, j: nat)
    requires i < 512 && j < 512
    ensures Read(Grow(mem, table, i, f, e), t, j)
         == if t == table && j == i then e else if t == f then 0 else Read(mem, t, j)
  {
    ReadSet(mem[f := ZeroTable()], table, i, e, t, j);
  }

  ghost predicate CanGrow(mem: Memory, tabs: map<Pos, nat>, p: Pos, i: nat, f: nat) {
    && Tree(mem, tabs) && p in tabs && Level(p) > 1 && i < 512
    && !Present(Read(mem, tabs[p], i))
    && f !in tabs.Values && IsFrame(f)
  }

  lemma GrowKeepsTree(mem: Memory, tabs: map<Pos, nat>, p: Pos, i: nat, f: nat, flags: nat)
    requires CanGrow(mem, tabs, p, i, f)
    ensures Tree(Grow(mem, tabs[p], i, f, TableEntry(f, flags)), tabs[Sub(p, i) := f])
  {
    var e := TableEntry(f, flags);
    var mem', tabs' := Grow(mem, tabs[p], i, f, e), tabs[Sub(p, i) := f];
    TableEntryDecodes(f, flags);
    assert LinkOk(mem, tabs, p, i);
    forall q, j | q in tabs' && Level(q) > 1 && 0 <= j < 512 ensures LinkOk(mem', tabs', q, j) {
      ReadGrow(mem, tabs[p], i, f, e, tabs'[q], j);
      if q in tabs {
        assert LinkOk(mem, tabs, q, j);
      } else {
        assert Sub(q, j) !in tabs;
      }
    }
  }

  // Whether the path of v goes through entry i of the table at p.
  predicate Through(v: Vpn, p: Pos, i: nat) {
    1 <= Level(p) <= 4 && PosOf(v, Level(p)) == p && Index(v, Level(p)) == i
  }

  // The view after a fresh empty table has been linked: a path through the new link misses
  // one table less, and loses the user bit if the link lacks it.
  function Grown(x: View, through: bool, user: bool): View {
    if through && x.missing > 0 then x.(missing := x.missing - 1, user := x.user && user) else x
  }

  lemma {:induction false} AncestorIn(mem: Memory, tabs: map<Pos, nat>, v: Vpn, k: nat, level: nat)
    requires Tree(mem, tabs) && 1 <= k <= level <= 4 && PosOf(v, k) in tabs
    ensures PosOf(v, level) in tabs
    decreases level - k
  {
    if k < level {
      assert PosOf(v, k) == Sub(PosOf(v, k + 1), Index(v, k + 1));
      AncestorIn(mem, tabs, v, k + 1, level);
    }
  }

  lemma {:induction false} NoDescendant(mem: Memory, tabs: map<Pos, nat>, v: Vpn, k: nat, level: nat)
    requires Tree(mem, tabs) && 1 <= k <= level <= 4 && PosOf(v, level) !in tabs
    ensures PosOf(v, k) !in tabs
    decreases level - k
  {
    if k < level {
      NoDescendant(mem, tabs, v, k + 1, level);
      assert PosOf(v, k) == Sub(PosOf(v, k + 1), Index(v, k + 1));
    }
  }

  ghost predicate GrownAt(mem: Memory, tabs: map<Pos, nat>, p: Pos, i: nat, f: nat, flags: nat, v: Vpn, level: nat)
    requires CanGrow(mem, tabs, p, i, f)
    requires 1 <= level <= 4 && PosOf(v, level) in tabs
  {
    var t, through := tabs[PosOf(v, level)], level >= Level(p) && Through(v, p, i);
    && ViewAt(Grow(mem, tabs[p], i, f, TableEntry(f, flags)), t, level, v)
       == Grown(ViewAt(mem, t, level, v), through, Has(flags, USER))
    && (through ==> ViewAt(mem, t, level, v).missing > 0)
  }

  lemma GrowViewHere(mem: Memory, tabs: map<Pos, nat>, p: Pos, i: nat, f: nat, flags: nat, v: Vpn, level: nat)
    requires CanGrow(mem, tabs, p, i, f) && InRange(v)
    requires 1 <= level <= 4 && PosOf(v, level) == p && Index(v, level) == i
    ensures GrownAt(mem, tabs, p, i, f, flags, v, level)
  {
    var mem' := Grow(mem, tabs[p], i, f, TableEntry(f, flags));
    var e := TableEntry(f, flags);
    TableEntryDecodes(f, flags);
    ReadGrow(mem, tabs[p], i, f, e, tabs[p], i);
    ReadGrow(mem, tabs[p], i, f, e, f, Index(v, level - 1));
  }

  // A change one level down shows unaltered one level up.
  lemma ViewAbove(mem: Memory, mem': Memory, t: nat, level: nat, v: Vpn, through: bool, user: bool)
    requires 2 <= level <= 4
    requires Read(mem', t, Index(v, level)) == Read(mem, t, Index(v, level)) && Links(Read(mem, t, Index(v, level)))
    requires var below := FrameOf(Read(mem, t, Index(v, level)));
      ViewAt(mem', below, level - 1, v) == Grown(ViewAt(mem, below, level - 1, v), through, user)
    ensures ViewAt(mem', t, level, v) == Grown(ViewAt(mem, t, level, v), through, user)
  {
  }

  lemma {:induction false} GrowView(mem: Memory, tabs: map<Pos, nat>, p: Pos, i: nat, f: nat, flags: nat, v: Vpn, level: nat)
    requires CanGrow(mem, tabs, p, i, f) && InRange(v)
    requires 1 <= level <= 4 && PosOf(v, level) in tabs
    ensures GrownAt(mem, tabs, p, i, f, flags, v, level)
    decreases level
  {
    var mem' := Grow(mem, tabs[p], i, f, TableEntry(f, flags));
    var q, ix := PosOf(v, level), Index(v, level);
    if q == p && ix == i {
      GrowViewHere(mem, tabs, p, i, f, flags, v, level);
    } else {
      ReadGrow(mem, tabs[p], i, f, TableEntry(f, flags), tabs[q], ix);
      if level > 1 {
        assert LinkOk(mem, tabs, q, ix);
        if Links(Read(mem, tabs[q], ix)) {
          assert PosOf(v, level - 1) == Sub(q, ix);
          GrowView(mem, tabs, p, i, f, flags, v, level - 1);
          ViewAbove(mem, mem', tabs[q], level, v, level > Level(p) && Through(v, p, i), Has(flags, USER));
        } else if level > Level(p) {
          NoDescendant(mem, tabs, v, Level(p), level - 1);
        }
      }
    }
  }

  lemma SetLeafKeepsTree(mem: Memory, tabs: map<Pos, nat>, v: Vpn, e: nat)
    requires Tree(mem, tabs) && PosOf(v, 1) in tabs && InRange(v)
    ensures Tree(SetEntry(mem, tabs[PosOf(v, 1)], v.i1, e), tabs)
  {
    var mem' := SetEntry(mem, tabs[PosOf(v, 1)], v.i1, e);
    forall q, j | q in tabs && Level(q) > 1 && 0 <= j < 512 ensures LinkOk(mem', tabs, q, j) {
      assert LinkOk(mem, tabs, q, j);
      ReadSet(mem, tabs[PosOf(v, 1)], v.i1, e, tabs[q], j);
    }
  }

  lemma PosOfInjective(v: Vpn, w: Vpn)
    ensures PosOf(v, 1) == PosOf(w, 1) <==> v.i2 == w.i2 && v.i3 == w.i3 && v.i4 == w.i4
  {
    assert PosOf(v, 3) == Sub(Root, v.i4) && PosOf(w, 3) == Sub(Root, w.i4);
    assert PosOf(v, 2) == Sub(PosOf(v, 3), v.i3) && PosOf(w, 2) == Sub(PosOf(w, 3), w.i3);
  }

  // Writing v's leaf entry changes what v finds, and nothing any other address can observe.
  lemma {:induction false} SetLeafView(mem: Memory, tabs: map<Pos, nat>, v: Vpn, e: nat, w: Vpn, level: nat)
    requires Tree(mem, tabs) && PosOf(v, 1) in tabs && InRange(v) && InRange(w)
    requires 1 <= level <= 4 && PosOf(w, level) in tabs
    ensures var mem', t := SetEntry(mem, tabs[PosOf(v, 1)], v.i1, e), tabs[PosOf(w, level)];
      ViewAt(mem', t, level, w)
      == (if w == v then ViewAt(mem, t, level, w).(found := LeafTranslation(e)) else ViewAt(mem, t, level, w))
    decreases level
  {
    var mem' := SetEntry(mem, tabs[PosOf(v, 1)], v.i1, e);
    var q, ix := PosOf(w, level), Index(w, level);
    ReadSet(mem, tabs[PosOf(v, 1)], v.i1, e, tabs[q], ix);
    if level == 1 {
      PosOfInjective(v, w);
    } else {
      assert LinkOk(mem, tabs, q, ix);
      assert PosOf(w, level - 1) == Sub(q, ix);
      if Links(Read(mem, tabs[q], ix)) {
        SetLeafView(mem, tabs, v, e, w, level - 1);
      } else {
        NoDescendant(mem, tabs, w, 1, level - 1);
      }
    }
  }

  lemma {:induction false} MissingZeroIff(mem: Memory, tabs: map<Pos, nat>, v: Vpn, level: nat)
    requires Tree(mem, tabs) && InRange(v) && 1 <= level <= 4 && PosOf(v, level) in tabs
    requires ViewAt(mem, tabs[PosOf(v, level)], level, v).noHuge
    ensures ViewAt(mem, tabs[PosOf(v, level)], level, v).missing == 0 <==> PosOf(v, 1) in tabs
    decreases level
  {
    if level > 1 {
      var q, ix := PosOf(v, level), Index(v, level);
      assert LinkOk(mem, tabs, q, ix);
      assert PosOf(v, level - 1) == Sub(q, ix);
      if Links(Read(mem, tabs[q], ix)) {
        MissingZeroIff(mem, tabs, v, level - 1);
      } else {
        NoDescendant(mem, tabs, v, 1, level - 1);
      }
    }
  }

  // The words of all tables are the same but for word i of frame t. (A table has no word 512.)
  ghost predicate AgreeBut(mem: Memory, mem': Memory, tabs: map<Pos, nat>, t: nat, i: nat) {
    forall p, j {:trigger Read(mem', tabs[p], j)} ::
      p in tabs && 0 <= j < 512 && !(tabs[p] == t && j == i) ==> Read(mem', tabs[p], j) == Read(mem, tabs[p], j)
  }

  // The path of w runs through word i of the table in frame t.
  ghost predicate Meets(tabs: map<Pos, nat>, w: Vpn, t: nat, i: nat) {
    exists k: nat :: 1 <= k <= 4 && PosOf(w, k) in tabs && tabs[PosOf(w, k)] == t && Index(w, k) == i
  }

  // An address whose path avoids the word sees no difference.
  lemma {:induction false} AgreeView(mem: Memory, mem': Memory, tabs: map<Pos, nat>, t: nat, i: nat, w: Vpn, level: nat)
    requires Tree(mem, tabs) && AgreeBut(mem, mem', tabs, t, i) && InRange(w) && !Meets(tabs, w, t, i)
    requires 1 <= level <= 4 && PosOf(w, level) in tabs
    ensures ViewAt(mem', tabs[PosOf(w, level)], level, w) == ViewAt(mem, tabs[PosOf(w, level)], level, w)
    decreases level
  {
    var q, ix := PosOf(w, level), Index(w, level);
    assert Read(mem', tabs[q], ix) == Read(mem, tabs[q], ix);
    if level > 1 {
      assert LinkOk(mem, tabs, q, ix);
      assert PosOf(w, level - 1) == Sub(q, ix);
      if Links(Read(mem, tabs[q], ix)) {
        AgreeView(mem, mem', tabs, t, i, w, level - 1);
      }
    }
  }

  // Stores outside the tables leave the tree, and every address's view.
  lemma AgreeKeepsTree(mem: Memory, mem': Memory, tabs: map<Pos, nat>, t: nat, i: nat)
    requires Tree(mem, tabs) && AgreeBut(mem, mem', tabs, t, i) && t !in tabs.Values
    ensures Tree(mem', tabs)
    ensures forall w: Vpn :: InRange(w) ==> See(mem', tabs[Root], w) == See(mem, tabs[Root], w)
  {
    forall p, j | p in tabs && Level(p) > 1 && 0 <= j < 512 ensures LinkOk(mem', tabs, p, j) {
      assert LinkOk(mem, tabs, p, j);
      assert Read(mem', tabs[p], j) == Read(mem, tabs[p], j);
    }
    forall w: Vpn | InRange(w) ensures See(mem', tabs[Root], w) == See(mem, tabs[Root], w) {
      AgreeView(mem, mem', tabs, t, i, w, 4);
    }
  }

  // Where the mapper's descent finds the first entry that is not present, or the lowest
  // level. It looks at the present bit alone, so it takes a large page for a table.
  datatype Stop = Stop(table: nat, level: nat)

  function Descent(mem: Memory, table: nat, level: nat, v: Vpn): (s: Stop)
    requires 1 <= level <= 4
    ensures 1 <= s.level <= level
    decreases level
  {
    var e := Read(mem, table, Index(v, level));
    if level == 1 || !Present(e) then Stop(table, level) else Descent(mem, FrameOf(e), level - 1, v)
  }

  // A table whose links, if any, lead to itself, and which is none of the tree's.
  ghost predicate Outside(mem: Memory, tabs: map<Pos, nat>, table: nat) {
    && table !in tabs.Values
    && forall j :: 0 <= j < 512 && Present(Read(mem, table, j)) ==> FrameOf(Read(mem, table, j)) == table
  }

  // The mapper at `table` on level `level`, having begun at the root in mem0: either it has
  // stored nothing yet, or its one store into memory in use was at its stop.
  ghost predicate Astray(mem0: Memory, mem: Memory, tabs: map<Pos, nat>, v: Vpn, level: nat, table: nat)
    requires Root in tabs && 1 <= level <= 4
  {
    var stop := Descent(mem0, tabs[Root], 4, v);
    || (mem == mem0 && Descent(mem0, table, level, v) == stop)
    || (level < stop.level && AgreeBut(mem0, mem, tabs, stop.table, Index(v, stop.level)) && Outside(mem, tabs, table))
  }

  lemma AstrayFollows(mem0: Memory, mem: Memory, tabs: map<Pos, nat>, v: Vpn, level: nat, table: nat)
    requires Root in tabs && 2 <= level <= 4 && InRange(v) && Astray(mem0, mem, tabs, v, level, table)
    requires Present(Read(mem, table, Index(v, level)))
    ensures Astray(mem0, mem, tabs, v, level - 1, FrameOf(Read(mem, table, Index(v, level))))
  {
  }

  lemma AstrayGrows(mem0: Memory, mem: Memory, tabs: map<Pos, nat>, v: Vpn, level: nat, table: nat, f: nat, flags: nat)
    requires Root in tabs && 2 <= level <= 4 && InRange(v) && Astray(mem0, mem, tabs, v, level, table)
    requires !Present(Read(mem, table, Index(v, level))) && f !in tabs.Values && IsFrame(f)
    ensures Astray(mem0, Grow(mem, table, Index(v, level), f, TableEntry(f, flags)), tabs, v, level - 1, f)
  {
    var i, e := Index(v, level), TableEntry(f, flags);
    var mem', stop := Grow(mem, table, i, f, e), Descent(mem0, tabs[Root], 4, v);
    TableEntryDecodes(f, flags);
    forall j | 0 <= j < 512 && Present(Read(mem', f, j)) ensures FrameOf(Read(mem', f, j)) == f {
      ReadGrow(mem, table, i, f, e, f, j);
    }
    forall p, j | p in tabs && 0 <= j < 512 && !(tabs[p] == stop.table && j == Index(v, stop.level))
      ensures Read(mem', tabs[p], j) == Read(mem0, tabs[p], j)
    {
      ReadGrow(mem, table, i, f, e, tabs[p], j);
      assert mem != mem0 ==> Read(mem, tabs[p], j) == Read(mem0, tabs[p], j);
    }
  }

  // The last store, and what stopping short leaves.
  lemma AstrayStores(mem0: Memory, mem: Memory, tabs: map<Pos, nat>, v: Vpn, table: nat, e: nat)
    requires Root in tabs && InRange(v) && Astray(mem0, mem, tabs, v, 1, table)
    ensures var stop := Descent(mem0, tabs[Root], 4, v);
      && AgreeBut(mem0, SetEntry(mem, table, v.i1, e), tabs, stop.table, Index(v, stop.level))
      && (stop.level == 1 ==> mem == mem0 && table == stop.table)
  {
    var mem', stop := SetEntry(mem, table, v.i1, e), Descent(mem0, tabs[Root], 4, v);
    forall p, j | p in tabs && 0 <= j < 512 && !(tabs[p] == stop.table && j == Index(v, stop.level))
      ensures Read(mem', tabs[p], j) == Read(mem0, tabs[p], j)
    {
      ReadSet(mem, table, v.i1, e, tabs[p], j);
      assert mem != mem0 ==> Read(mem, tabs[p], j) == Read(mem0, tabs[p], j);
    }
  }

  // When the stop is a lowest table of the tree although a large page stands on v's path, the
  // store maps another address, the one that table and index belong to.
  lemma LargePageMisdirects(mem: Memory, tabs: map<Pos, nat>, v: Vpn, w: Vpn, e: nat)
    requires Tree(mem, tabs) && InRange(v) && InRange(w) && !See(mem, tabs[Root], v).noHuge
    requires PosOf(w, 1) in tabs && w.i1 == v.i1 && Descent(mem, tabs[Root], 4, v) == Stop(tabs[PosOf(w, 1)], 1)
    requires See(mem, tabs[Root], w).noHuge
    ensures var mem' := SetEntry(mem, tabs[PosOf(w, 1)], v.i1, e);
      && w != v && See(mem', tabs[Root], w).found == LeafTranslation(e)
      && forall u: Vpn :: InRange(u) && u != w ==> See(mem', tabs[Root], u) == See(mem, tabs[Root], u)
  {
    var mem' := SetEntry(mem, tabs[PosOf(w, 1)], v.i1, e);
    forall u: Vpn | InRange(u)
      ensures See(mem', tabs[Root], u)
           == if u == w then See(mem, tabs[Root], u).(found := LeafTranslation(e)) else See(mem, tabs[Root], u)
    {
      SetLeafView(mem, tabs, w, e, u, 4);
    }
  }

  lemma {:induction false} MissingIsUnmapped(mem: Memory, table: nat, level: nat, v: Vpn)
    requires 1 <= level <= 4 && ViewAt(mem, table, level, v).missing > 0
    ensures ViewAt(mem, table, level, v).found == Unmapped
    decreases level
  {
    var e := Read(mem, table, Index(v, level));
    if level > 1 && Links(e) {
      MissingIsUnmapped(mem, FrameOf(e), level - 1, v);
    }
  }

  lemma {:induction false} HugeIsNoPage(mem: Memory, table: nat, level: nat, v: Vpn)
    requires 1 <= level <= 4 && !ViewAt(mem, table, level, v).noHuge
    ensures ViewAt(mem, table, level, v).found.Large?
    decreases level
  {
    var e := Read(mem, table, Index(v, level));
    if level > 1 && Links(e) {
      HugeIsNoPage(mem, FrameOf(e), level - 1, v);
    }
  }

  lemma {:induction false} UnmappedIsOpen(mem: Memory, table: nat, level: nat, v: Vpn)
    requires 1 <= level <= 4 && ViewAt(mem, table, level, v).found == Unmapped
    ensures ViewAt(mem, table, level, v).noHuge
    decreases level
  {
    var e := Read(mem, table, Index(v, level));
    if level > 1 && Links(e) {
      UnmappedIsOpen(mem, FrameOf(e), level - 1, v);
    }
  }

  // Below a table in the tree, only the lower ones can be missing.
  lemma {:induction false} MissingBelow(mem: Memory, tabs: map<Pos, nat>, v: Vpn, k: nat, level: nat)
    requires Tree(mem, tabs) && InRange(v) && 1 <= k <= level <= 4 && PosOf(v, k) in tabs
    ensures PosOf(v, level) in tabs && ViewAt(mem, tabs[PosOf(v, level)], level, v).missing < k
    decreases level - k
  {
    AncestorIn(mem, tabs, v, k, level);
    if k < level {
      MissingBelow(mem, tabs, v, k, level - 1);
      assert LinkOk(mem, tabs, PosOf(v, level), Index(v, level));
      assert PosOf(v, level - 1) == Sub(PosOf(v, level), Index(v, level));
    }
  }

  // New tables stand on the path of v.
  ghost predicate NewOnPath(tabs0: map<Pos, nat>, tabs1: map<Pos, nat>, v: Vpn) {
    forall p :: p in tabs1 && p !in tabs0 ==> 1 <= Level(p) <= 3 && p == PosOf(v, Level(p))
  }

  // A page's permission is granted by the leaf entry and by every table link above it.
  predicate UserPage(x: View) {
    x.found.Page? && Has(x.found.entry, USER) && x.user
  }

  predicate WritablePage(x: View) {
    x.found.Page? && Has(x.found.entry, WRITABLE) && x.writable
  }

  // Equal but for what new empty tables can change: fewer tables are missing, and while any
  // was missing, the user bit of the links.
  predicate Alike(x: View, y: View) {
    && x.found == y.found && x.noHuge == y.noHuge && x.writable == y.writable
    && y.missing <= x.missing && (x.missing == 0 ==> y.user == x.user)
  }

  // No translation has changed.
  ghost predicate SameView(mem: Memory, mem': Memory, root: nat) {
    forall w: Vpn :: InRange(w) ==> Alike(See(mem, root, w), See(mem', root, w))
  }

  // Only v's translation may have changed.
  ghost predicate SameViewBut(mem: Memory, mem': Memory, root: nat, v: Vpn) {
    forall w: Vpn :: InRange(w) ==>
      Alike(See(mem, root, w), if w == v then See(mem', root, w).(found := See(mem, root, w).found) else See(mem', root, w))
  }

  lemma GrowSameView(mem: Memory, tabs: map<Pos, nat>, v: Vpn, level: nat, f: nat, flags: nat)
    requires 2 <= level <= 4 && InRange(v) && CanGrow(mem, tabs, PosOf(v, level), Index(v, level), f)
    ensures var root, i := tabs[Root], Index(v, level);
      var mem' := Grow(mem, tabs[PosOf(v, level)], i, f, TableEntry(f, flags));
      && SameView(mem, mem', root)
      && See(mem', root, v).missing == See(mem, root, v).missing - 1
      && See(mem', root, v).user == (See(mem, root, v).user && Has(flags, USER))
  {
    var root, p, i := tabs[Root], PosOf(v, level), Index(v, level);
    var mem' := Grow(mem, tabs[p], i, f, TableEntry(f, flags));
    forall w: Vpn | InRange(w) ensures Alike(See(mem, root, w), See(mem', root, w)) {
      GrowView(mem, tabs, p, i, f, flags, w, 4);
    }
    GrowView(mem, tabs, p, i, f, flags, v, 4);
  }

  lemma SetLeafSameView(mem: Memory, tabs: map<Pos, nat>, v: Vpn, e: nat)
    requires Tree(mem, tabs) && PosOf(v, 1) in tabs && InRange(v)
    ensures var mem', root := SetEntry(mem, tabs[PosOf(v, 1)], v.i1, e), tabs[Root];
      SameViewBut(mem, mem', root, v)
      && See(mem', root, v) == See(mem, root, v).(found := LeafTranslation(e))
  {
    var mem' := SetEntry(mem, tabs[PosOf(v, 1)], v.i1, e);
    forall w: Vpn | InRange(w)
      ensures See(mem', tabs[Root], w)
           == if w == v then See(mem, tabs[Root], w).(found := LeafTranslation(e)) else See(mem, tabs[Root], w)
    {
      SetLeafView(mem, tabs, v, e, w, 4);
    }
  }
}
