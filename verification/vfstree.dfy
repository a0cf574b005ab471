// The name tree of the file system as a value: what a path resolves to, and how adding a node
// extends that.

module FsTree {
  import opened Options

  // A node's name, whether it is a directory, its depth, and its children in order.
  datatype Entry<N> = Entry(name: string, dir: bool, depth: nat, kids: seq<N>)

  type Tree<N> = map<N, Entry<N>>

  // Every child is a node one level deeper, under one parent, once; only directories have any.
  ghost predicate TreeOk<N>(t: Tree<N>, root: N) {
    && root in t && t[root].depth == 0
    && (forall d, i {:trigger KidOk(t, d, i)} :: d in t && 0 <= i < |t[d].kids| ==> KidOk(t, d, i))
    && (forall d, i, e, j {:trigger OneSpot(t, d, i, e, j)} ::
          d in t && e in t && 0 <= i < |t[d].kids| && 0 <= j < |t[e].kids| ==> OneSpot(t, d, i, e, j))
  }

  ghost predicate OneSpot<N>(t: Tree<N>, d: N, i: nat, e: N, j: nat)
    requires d in t && e in t && i < |t[d].kids| && j < |t[e].kids|
  {
    t[d].kids[i] == t[e].kids[j] ==> d == e && i == j
  }

  ghost predicate KidOk<N>(t: Tree<N>, d: N, i: nat)
    requires d in t && i < |t[d].kids|
  {
    t[d].dir && t[d].kids[i] in t && t[t[d].kids[i]].depth == t[d].depth + 1
  }

  // No two children of a directory have the same name.
  ghost predicate UniqueNames<N>(t: Tree<N>) {
    forall d, i, j {:trigger Differ(t, d, i, j)} :: d in t && 0 <= i < j < |t[d].kids| ==> Differ(t, d, i, j)
  }

  ghost predicate Differ<N>(t: Tree<N>, d: N, i: nat, j: nat)
    requires d in t && i < |t[d].kids| && j < |t[d].kids|
  {
    t[d].kids[i] in t && t[d].kids[j] in t ==> t[t[d].kids[i]].name != t[t[d].kids[j]].name
  }

  // The first of the given nodes that has the name.
  function Named<N>(t: Tree<N>, kids: seq<N>, name: string): (r: Option<N>)
    ensures r.Some? ==> r.value in kids && r.value in t && t[r.value].name == name
    ensures r.None? ==> forall k :: k in kids && k in t ==> t[k].name != name
  {
    if kids == [] then None
    else if kids[0] in t && t[kids[0]].name == name then Some(kids[0])
    else Named(t, kids[1..], name)
  }

  function Child<N>(t: Tree<N>, d: N, name: string): Option<N> {
    if d in t && t[d].dir then Named(t, t[d].kids, name) else None
  }

  // The node reached from n by a list of names.
  function Walk<N>(t: Tree<N>, n: N, names: seq<string>): (r: Option<N>)
    ensures n in t && r.Some? ==> r.value in t
  {
    if names == [] then Some(n)
    else
      var c := Child(t, n, names[0]);
      if c.None? then None else Walk(t, c.value, names[1..])
  }

  lemma {:induction false} WalkJoin<N>(t: Tree<N>, n: N, a: seq<string>, b: seq<string>)
    ensures Walk(t, n, a + b) == (var m := Walk(t, n, a); if m.None? then None else Walk(t, m.value, b))
  {
    if a == [] {
      assert a + b == b;
    } else {
      assert (a + b)[1..] == a[1..] + b;
      var c := Child(t, n, a[0]);
      if c.Some? { WalkJoin(t, c.value, a[1..], b); }
    }
  }

  // The tree with a new node x, of the given name and kind, last among d's children.
  function Add<N>(t: Tree<N>, d: N, x: N, name: string, dir: bool): Tree<N>
    requires d in t && x !in t
  {
    t[d := t[d].(kids := t[d].kids + [x])][x := Entry(name, dir, t[d].depth + 1, [])]
  }

  lemma AddAt<N>(t: Tree<N>, d: N, x: N, name: string, dir: bool, e: N)
    requires d in t && x !in t && e in Add(t, d, x, name, dir)
    ensures var t' := Add(t, d, x, name, dir);
      if e == x then t'[e] == Entry(name, dir, t[d].depth + 1, [])
      else e in t && t'[e] == t[e].(kids := if e == d then t[d].kids + [x] else t[e].kids)
  {
  }

  // A child in the new tree is an old child in its place, or the new node at the end of d's.
  lemma AddKid<N>(t: Tree<N>, root: N, d: N, x: N, name: string, dir: bool, e: N, i: nat)
    requires TreeOk(t, root) && d in t && x !in t
    requires e in Add(t, d, x, name, dir) && i < |Add(t, d, x, name, dir)[e].kids|
    ensures var t' := Add(t, d, x, name, dir);
      e in t && if i < |t[e].kids| then KidOk(t, e, i) && t'[e].kids[i] == t[e].kids[i] != x
                else e == d && i == |t[d].kids| && t'[e].kids[i] == x
  {
    AddAt(t, d, x, name, dir, e);
    assert e in t && i < |t[e].kids| ==> KidOk(t, e, i);
  }

  lemma AddKeepsTree<N>(t: Tree<N>, root: N, d: N, x: N, name: string, dir: bool)
    requires TreeOk(t, root) && d in t && t[d].dir && x !in t
    ensures TreeOk(Add(t, d, x, name, dir), root)
  {
    var t' := Add(t, d, x, name, dir);
    forall e, i | e in t' && 0 <= i < |t'[e].kids| ensures KidOk(t', e, i) {
      AddKid(t, root, d, x, name, dir, e, i);
    }
    forall e, i, f, j | e in t' && f in t' && 0 <= i < |t'[e].kids| && 0 <= j < |t'[f].kids|
      ensures OneSpot(t', e, i, f, j)
    {
      AddKid(t, root, d, x, name, dir, e, i);
      AddKid(t, root, d, x, name, dir, f, j);
      assert i < |t[e].kids| && j < |t[f].kids| ==> OneSpot(t, e, i, f, j);
    }
  }

  lemma AddKeepsNames<N>(t: Tree<N>, root: N, d: N, x: N, name: string, dir: bool)
    requires TreeOk(t, root) && UniqueNames(t) && d in t && t[d].dir && x !in t && Child(t, d, name).None?
    ensures UniqueNames(Add(t, d, x, name, dir))
  {
    var t' := Add(t, d, x, name, dir);
    forall e, i, j | e in t' && 0 <= i < j < |t'[e].kids| ensures Differ(t', e, i, j) {
      AddKid(t, root, d, x, name, dir, e, i);
      AddKid(t, root, d, x, name, dir, e, j);
      assert t[e].kids[i] in t[e].kids;
      assert j < |t[e].kids| ==> Differ(t, e, i, j);
    }
  }

  // Looking a name up among d's children, before and after.
  lemma {:induction false} NamedAfterAdd<N>(t: Tree<N>, d: N, x: N, name: string, dir: bool, kids: seq<N>, want: string)
    requires d in t && x !in t && x !in kids
    ensures var t' := Add(t, d, x, name, dir);
      && Named(t', kids, want) == Named(t, kids, want)
      && Named(t', kids + [x], want)
         == if Named(t, kids, want).Some? then Named(t, kids, want) else if want == name then Some(x) else None
  {
    var t' := Add(t, d, x, name, dir);
    if kids == [] {
      assert [] + [x] == [x];
    } else {
      assert (kids + [x])[1..] == kids[1..] + [x];
      NamedAfterAdd(t, d, x, name, dir, kids[1..], want);
    }
  }

  lemma KidsOld<N>(t: Tree<N>, root: N, e: N, x: N)
    requires TreeOk(t, root) && e in t && x !in t
    ensures x !in t[e].kids
  {
    forall i | 0 <= i < |t[e].kids| ensures t[e].kids[i] != x {
      assert KidOk(t, e, i);
    }
  }

  lemma ChildAfterAdd<N>(t: Tree<N>, root: N, d: N, x: N, name: string, dir: bool, e: N, want: string)
    requires TreeOk(t, root) && d in t && t[d].dir && x !in t && e in t
    ensures var t' := Add(t, d, x, name, dir);
      Child(t', e, want)
      == if Child(t, e, want).Some? then Child(t, e, want) else if e == d && want == name then Some(x) else None
    ensures Child(Add(t, d, x, name, dir), x, want) == None
  {
    KidsOld(t, root, e, x);
    AddAt(t, d, x, name, dir, e);
    NamedAfterAdd(t, d, x, name, dir, t[e].kids, want);
  }

  // The names lead from n to d, and then to a child of the given name.
  ghost predicate LeadsTo<N>(t: Tree<N>, n: N, names: seq<string>, d: N, name: string) {
    names != [] && names[|names| - 1] == name && Walk(t, n, names[..|names| - 1]) == Some(d)
  }

  lemma WalkFromNew<N>(t: Tree<N>, root: N, d: N, x: N, name: string, dir: bool, names: seq<string>)
    requires TreeOk(t, root) && d in t && t[d].dir && x !in t
    ensures Walk(Add(t, d, x, name, dir), x, names) == if names == [] then Some(x) else None
  {
    if names != [] { ChildAfterAdd(t, root, d, x, name, dir, d, names[0]); }
  }

  // What a path resolves to after the addition: as before if it resolved; the new node for a
  // path that leads to d and then names it; nothing otherwise.
  lemma {:induction false} WalkAfterAdd<N>(t: Tree<N>, root: N, d: N, x: N, name: string, dir: bool, n: N, names: seq<string>)
    requires TreeOk(t, root) && d in t && t[d].dir && x !in t && n in t
    ensures Walk(Add(t, d, x, name, dir), n, names)
         == if Walk(t, n, names).Some? then Walk(t, n, names)
            else if LeadsTo(t, n, names, d, name) then Some(x) else None
  {
    var t' := Add(t, d, x, name, dir);
    if names != [] {
      ChildAfterAdd(t, root, d, x, name, dir, n, names[0]);
      var c := Child(t, n, names[0]);
      var front := names[..|names| - 1];
      if c.Some? {
        WalkAfterAdd(t, root, d, x, name, dir, c.value, names[1..]);
        if |names| > 1 {
          assert front[1..] == names[1..][..|names[1..]| - 1];
        }
      } else if n == d && names[0] == name {
        WalkFromNew(t, root, d, x, name, dir, names[1..]);
      }
    }
  }

  lemma {:induction false} WalkLast<N>(t: Tree<N>, n: N, names: seq<string>)
    requires names != []
    ensures Walk(t, n, names)
         == (var m := Walk(t, n, names[..|names| - 1]); if m.None? then None else Child(t, m.value, names[|names| - 1]))
  {
    var front, last := names[..|names| - 1], names[|names| - 1];
    assert names == front + [last];
    WalkJoin(t, n, front, [last]);
    var m := Walk(t, n, front);
    if m.Some? {
      assert [last][1..] == [];
    }
  }

  lemma ChildSpot<N>(t: Tree<N>, root: N, d: N, name: string)
    requires TreeOk(t, root) && d in t && Child(t, d, name).Some?
    ensures var c := Child(t, d, name).value;
      c in t && t[c].name == name && t[c].depth == t[d].depth + 1
      && exists i :: 0 <= i < |t[d].kids| && t[d].kids[i] == c
  {
    var c := Child(t, d, name).value;
    var i :| 0 <= i < |t[d].kids| && t[d].kids[i] == c;
    assert KidOk(t, d, i);
  }

  lemma {:induction false} WalkDepth<N>(t: Tree<N>, root: N, names: seq<string>)
    requires TreeOk(t, root) && Walk(t, root, names).Some?
    ensures t[Walk(t, root, names).value].depth == |names|
  {
    if names != [] {
      WalkLast(t, root, names);
      WalkDepth(t, root, names[..|names| - 1]);
      ChildSpot(t, root, Walk(t, root, names[..|names| - 1]).value, names[|names| - 1]);
    }
  }

  // Every node has at most one path.
  lemma {:induction false} PathUnique<N>(t: Tree<N>, root: N, a: seq<string>, b: seq<string>)
    requires TreeOk(t, root) && Walk(t, root, a).Some? && Walk(t, root, a) == Walk(t, root, b)
    ensures a == b
  {
    WalkDepth(t, root, a);
    WalkDepth(t, root, b);
    if a != [] {
      var fa, fb := a[..|a| - 1], b[..|b| - 1];
      WalkLast(t, root, a);
      WalkLast(t, root, b);
      var d, e := Walk(t, root, fa).value, Walk(t, root, fb).value;
      ChildSpot(t, root, d, a[|a| - 1]);
      ChildSpot(t, root, e, b[|b| - 1]);
      SameParent(t, root, d, e, Walk(t, root, a).value);
      PathUnique(t, root, fa, fb);
      assert a == fa + [a[|a| - 1]] && b == fb + [b[|b| - 1]];
    }
  }

  lemma SameParent<N>(t: Tree<N>, root: N, d: N, e: N, c: N)
    requires TreeOk(t, root) && d in t && e in t
    requires (exists i :: 0 <= i < |t[d].kids| && t[d].kids[i] == c) && (exists i :: 0 <= i < |t[e].kids| && t[e].kids[i] == c)
    ensures d == e
  {
    var i :| 0 <= i < |t[d].kids| && t[d].kids[i] == c;
    var j :| 0 <= j < |t[e].kids| && t[e].kids[j] == c;
    assert OneSpot(t, d, i, e, j);
  }

  // Creating a node under a name not yet taken extends the path map by exactly one path.
  lemma CreateExtends<N>(t: Tree<N>, root: N, d: N, x: N, name: string, dir: bool, above: seq<string>, names: seq<string>)
    requires TreeOk(t, root) && d in t && t[d].dir && x !in t
    requires Walk(t, root, above) == Some(d) && Child(t, d, name) == None
    ensures Walk(Add(t, d, x, name, dir), root, names)
         == if names == above + [name] then Some(x) else Walk(t, root, names)
  {
    WalkAfterAdd(t, root, d, x, name, dir, root, names);
    if names != [] {
      var front, last := names[..|names| - 1], names[|names| - 1];
      WalkLast(t, root, names);
      assert names == front + [last];
      if Walk(t, root, front) == Some(d) {
        PathUnique(t, root, front, above);
      }
    }
    if names == above + [name] {
      assert names[..|names| - 1] == above;
    }
  }
}
