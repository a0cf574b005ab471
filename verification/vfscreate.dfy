// What creation does to the map from paths to nodes: which paths resolve afterwards, when the
// created node is found again, and when sibling names stay distinct.

module Creation {
  import opened Options
  import opened Paths
  import opened FsTree
  import opened VfsNode
  import opened Vfs

  ghost predicate NamesFit(t: Tree<Node>) {
    forall n :: n in t ==> |t[n].name| <= MAX_NAME
  }

  // The path does what the source expects of it: its last name fits a node.
  ghost predicate LeafFits(path: string) {
    0 < |Leaf(path)| <= MAX_NAME
  }

  // Path p has a directory to create in, and x was created there.
  ghost predicate Created(t: Tree<Node>, t': Tree<Node>, root: Node, p: string, x: Node, dir: bool) {
    TreeOk(t, root) && Home(t, root, p).Some? && NewNode(t, t', Home(t, root, p).value, x, Leaf(p), dir)
  }

  lemma HomeSplits(t: Tree<Node>, root: Node, p: string)
    requires Home(t, root, p).Some?
    ensures Walk(t, root, Components(Above(p))) == Home(t, root, p)
    ensures Components(p) == Components(Above(p)) + (if Leaf(p) == "" then [] else [Leaf(p)])
    ensures Walk(t, root, Components(p))
         == if Leaf(p) == "" then Home(t, root, p) else Child(t, Home(t, root, p).value, Leaf(p))
  {
    SplitComponents(p);
    if Leaf(p) == "" {
      assert Components(Above(p)) + [] == Components(Above(p));
    } else {
      WalkJoin(t, root, Components(Above(p)), [Leaf(p)]);
      assert [Leaf(p)][1..] == [];
    }
  }

  // Nothing that resolved before resolves to anything else now; the tree stays a tree.
  lemma CreationKeepsPaths(t: Tree<Node>, t': Tree<Node>, root: Node, p: string, x: Node, dir: bool, names: seq<string>)
    requires Created(t, t', root, p, x, dir)
    ensures TreeOk(t', root) && (NamesFit(t) ==> NamesFit(t'))
    ensures Walk(t, root, names).Some? ==> Walk(t', root, names) == Walk(t, root, names)
  {
    var d, name := Home(t, root, p).value, Clip(Leaf(p), MAX_NAME);
    AddKeepsTree(t, root, d, x, name, dir);
    WalkAfterAdd(t, root, d, x, name, dir, root, names);
  }

  // Under a free name, exactly one path is added: the parent's, with the name cut at 127.
  lemma CreationAddsOnePath(t: Tree<Node>, t': Tree<Node>, root: Node, p: string, x: Node, dir: bool, names: seq<string>)
    requires Created(t, t', root, p, x, dir)
    requires Child(t, Home(t, root, p).value, Clip(Leaf(p), MAX_NAME)) == None
    ensures Walk(t', root, names)
         == if names == Components(Above(p)) + [Clip(Leaf(p), MAX_NAME)] then Some(x) else Walk(t, root, names)
  {
    HomeSplits(t, root, p);
    CreateExtends(t, root, Home(t, root, p).value, x, Clip(Leaf(p), MAX_NAME), dir, Components(Above(p)), names);
  }

  // The created node is found under its own path exactly if the last name is not empty, fits,
  // and was free.
  lemma CreatedFoundIff(t: Tree<Node>, t': Tree<Node>, root: Node, p: string, x: Node, dir: bool)
    requires Created(t, t', root, p, x, dir)
    ensures Walk(t', root, Components(p)) == Some(x)
       <==> LeafFits(p) && Child(t, Home(t, root, p).value, Leaf(p)) == None
  {
    var d, name := Home(t, root, p).value, Clip(Leaf(p), MAX_NAME);
    HomeSplits(t, root, p);
    CreationKeepsPaths(t, t', root, p, x, dir, Components(Above(p)));
    WalkAfterAdd(t, root, d, x, name, dir, root, Components(Above(p)));
    AddAt(t, d, x, name, dir, d);
    HomeSplits(t', root, p);
    ChildAfterAdd(t, root, d, x, name, dir, d, Leaf(p));
  }

  // Sibling names stay distinct exactly if the clipped name was free.
  lemma UniqueIff(t: Tree<Node>, t': Tree<Node>, root: Node, p: string, x: Node, dir: bool)
    requires Created(t, t', root, p, x, dir) && UniqueNames(t)
    ensures UniqueNames(t') <==> Child(t, Home(t, root, p).value, Clip(Leaf(p), MAX_NAME)) == None
  {
    var d, name := Home(t, root, p).value, Clip(Leaf(p), MAX_NAME);
    if Child(t, d, name) == None {
      AddKeepsNames(t, root, d, x, name, dir);
    } else {
      ChildSpot(t, root, d, name);
      var i :| 0 <= i < |t[d].kids| && t[d].kids[i] == Child(t, d, name).value;
      AddAt(t, d, x, name, dir, d);
      AddKid(t, root, d, x, name, dir, d, i);
      AddKid(t, root, d, x, name, dir, d, |t[d].kids|);
      AddAt(t, d, x, name, dir, t[d].kids[i]);
      assert !Differ(t', d, i, |t[d].kids|);
    }
  }

  lemma LongNameFree(t: Tree<Node>, d: Node, name: string)
    requires NamesFit(t) && |name| > MAX_NAME
    ensures Child(t, d, name) == None
  {
  }

  // Open creates only where the name is not empty and was free.
  lemma OpenCreates(t: Tree<Node>, root: Node, path: string)
    requires LookupIn(t, root, path) == None && Home(t, root, Clip(path, MAX_PATH - 1)).Some?
    ensures var p := Clip(path, MAX_PATH - 1);
      Leaf(p) != "" && Child(t, Home(t, root, p).value, Leaf(p)) == None
  {
    HomeSplits(t, root, Clip(path, MAX_PATH - 1));
  }

  // A file that open returned is what its path resolves to, unless it was created under a name
  // of more than 127 characters.
  lemma OpenResolves(t: Tree<Node>, t': Tree<Node>, root: Node, path: string, mode: Mode, r: Option<Node>)
    requires TreeOk(t, root) && OpenOutcome(t, t', root, path, mode, r) && r.Some?
    ensures LookupIn(t', root, path) == r
       <==> LookupIn(t, root, path).Some? || |Leaf(Clip(path, MAX_PATH - 1))| <= MAX_NAME
  {
    if LookupIn(t, root, path) == None {
      OpenCreates(t, root, path);
      CreatedFoundIff(t, t', root, Clip(path, MAX_PATH - 1), r.value, false);
    }
  }

  lemma StrippedSame(s: string)
    requires s != "" && s[0] == '/'
    ensures Components(Stripped(s)) == Components(s)
  {
    var r := Stripped(s);
    if r != s {
      TrailingSlash(r);
      assert s == r + "/";
    }
  }

  // A directory that mkdir returned, new or not, is what its path resolves to exactly if the
  // last name, one trailing slash dropped, is neither empty nor too long.
  lemma MkdirResolves(t: Tree<Node>, t': Tree<Node>, root: Node, path: string, r: Option<Node>)
    requires TreeOk(t, root) && NamesFit(t) && MkdirOutcome(t, t', root, path, r) && r.Some?
    ensures LookupIn(t', root, path) == r <==> LeafFits(Stripped(Clip(path, MAX_PATH - 1)))
  {
    var q := Clip(path, MAX_PATH - 1);
    var p := Stripped(q);
    var d := Home(t, root, p).value;
    assert path != "" && path[0] == '/' by { assert p[0] == '/' && p <= q <= path; }
    StrippedSame(q);
    HomeSplits(t, root, p);
    if Child(t, d, Leaf(p)).Some? {
      ChildSpot(t, root, d, Leaf(p));
    } else {
      CreatedFoundIff(t, t', root, p, r.value, true);
    }
  }

  // Two opens of one path with too long a last name create two files of the same name.
  lemma LongNamesCollide(t: Tree<Node>, t': Tree<Node>, t'': Tree<Node>, root: Node, path: string, mode: Mode, a: Option<Node>, b: Option<Node>)
    requires TreeOk(t, root) && NamesFit(t) && |Leaf(Clip(path, MAX_PATH - 1))| > MAX_NAME
    requires OpenOutcome(t, t', root, path, mode, a) && OpenOutcome(t', t'', root, path, mode, b) && a.Some?
    ensures b.Some? && a != b && (UniqueNames(t') ==> !UniqueNames(t''))
  {
    var p := Clip(path, MAX_PATH - 1);
    if Home(t, root, p).Some? {
      HomeSplits(t, root, p);
      LongNameFree(t, Home(t, root, p).value, Leaf(p));
    }
    assert LookupIn(t, root, path) == None by { LongPathUnknown(t, root, path); }
    var d, name := Home(t, root, p).value, Clip(Leaf(p), MAX_NAME);
    CreationKeepsPaths(t, t', root, p, a.value, false, Components(Above(p)));
    LongPathUnknown(t', root, path);
    AddAt(t, d, a.value, name, false, d);
    HomeSplits(t, root, p);
    assert Home(t', root, p) == Some(d);
    ChildAfterAdd(t, root, d, a.value, name, false, d, name);
    if UniqueNames(t') { UniqueIff(t', t'', root, p, b.value, false); }
  }

  lemma LongPathUnknown(t: Tree<Node>, root: Node, path: string)
    requires NamesFit(t) && |Leaf(Clip(path, MAX_PATH - 1))| > MAX_NAME
    ensures LookupIn(t, root, path) == None
  {
    var p := Clip(path, MAX_PATH - 1);
    if path != "" && path[0] == '/' {
      SplitComponents(p);
      WalkLast(t, root, Components(p));
    }
  }

  // Runs of the calls that can create.
  datatype Call = MkdirCall(path: string) | OpenCall(path: string, mode: Mode) | CreateCall(path: string)

  ghost predicate CallOutcome(t: Tree<Node>, t': Tree<Node>, root: Node, call: Call, r: Option<Node>) {
    match call
    case MkdirCall(path) => MkdirOutcome(t, t', root, path, r)
    case OpenCall(path, mode) => OpenOutcome(t, t', root, path, mode, r)
    case CreateCall(path) => CreateOutcome(t, t', root, path, r)
  }

  // The path at which the call creates, and what.
  function Target(call: Call): string {
    match call
    case MkdirCall(path) => Stripped(Clip(path, MAX_PATH - 1))
    case OpenCall(path, _) => Clip(path, MAX_PATH - 1)
    case CreateCall(path) => Clip(path, MAX_PATH - 1)
  }

  lemma CallCreates(t: Tree<Node>, t': Tree<Node>, root: Node, call: Call, r: Option<Node>)
    requires TreeOk(t, root) && CallOutcome(t, t', root, call, r) && t' != t
    ensures r.Some? && Created(t, t', root, Target(call), r.value, call.MkdirCall?)
  {
  }

  lemma CallKeeps(t: Tree<Node>, t': Tree<Node>, root: Node, call: Call, r: Option<Node>, names: seq<string>)
    requires TreeOk(t, root) && CallOutcome(t, t', root, call, r)
    ensures TreeOk(t', root)
    ensures Walk(t, root, names).Some? ==> Walk(t', root, names) == Walk(t, root, names)
  {
    if t' != t {
      CallCreates(t, t', root, call, r);
      CreationKeepsPaths(t, t', root, Target(call), r.value, call.MkdirCall?, names);
    }
  }

  // The call checks first whether the name is taken, and its last name is not longer than a
  // node can hold.
  predicate CallFits(call: Call) {
    !call.CreateCall? && |Leaf(Target(call))| <= MAX_NAME
  }

  lemma CallKeepsNames(t: Tree<Node>, t': Tree<Node>, root: Node, call: Call, r: Option<Node>)
    requires TreeOk(t, root) && UniqueNames(t) && CallFits(call) && CallOutcome(t, t', root, call, r)
    ensures UniqueNames(t')
  {
    if t' != t {
      CallCreates(t, t', root, call, r);
      if call.OpenCall? { OpenCreates(t, root, call.path); }
      UniqueIff(t, t', root, Target(call), r.value, call.MkdirCall?);
    }
  }

  // The states of a run, one call after another.
  ghost predicate IsRun(ts: seq<Tree<Node>>, root: Node, calls: seq<Call>, rs: seq<Option<Node>>) {
    |ts| == |calls| + 1 && |rs| == |calls|
    && forall i :: 0 <= i < |calls| ==> CallOutcome(ts[i], ts[i + 1], root, calls[i], rs[i])
  }

  // Over any run, the tree stays a tree, and a path that resolves once resolves to the same
  // node ever after.
  lemma {:induction false} RunKeepsPaths(ts: seq<Tree<Node>>, root: Node, calls: seq<Call>, rs: seq<Option<Node>>, i: nat, j: nat, names: seq<string>)
    requires IsRun(ts, root, calls, rs) && i <= j <= |calls| && TreeOk(ts[i], root)
    ensures TreeOk(ts[j], root)
    ensures Walk(ts[i], root, names).Some? ==> Walk(ts[j], root, names) == Walk(ts[i], root, names)
    decreases j - i
  {
    if i < j {
      CallKeeps(ts[i], ts[i + 1], root, calls[i], rs[i], names);
      RunKeepsPaths(ts, root, calls, rs, i + 1, j, names);
    }
  }

  // Over any run of mkdir and open whose last names fit, sibling names stay distinct.
  lemma {:induction false} RunKeepsNames(ts: seq<Tree<Node>>, root: Node, calls: seq<Call>, rs: seq<Option<Node>>, j: nat)
    requires IsRun(ts, root, calls, rs) && j <= |calls| && TreeOk(ts[0], root) && UniqueNames(ts[0])
    requires forall k :: 0 <= k < j ==> CallFits(calls[k])
    ensures TreeOk(ts[j], root) && UniqueNames(ts[j])
  {
    if j > 0 {
      RunKeepsNames(ts, root, calls, rs, j - 1);
      CallKeeps(ts[j - 1], ts[j], root, calls[j - 1], rs[j - 1], []);
      CallKeepsNames(ts[j - 1], ts[j], root, calls[j - 1], rs[j - 1]);
    }
  }
}
