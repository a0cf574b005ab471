// What lookup, creation, mkdir and open do for a path written out as a parent and a name, and
// what the flags of an open mean, in the source's own numbers.

module PathCalls {
  import opened Options
  import opened Words
  import opened Pte
  import opened Paths
  import opened FsTree
  import opened FileData
  import opened VfsNode
  import opened Vfs

  // The directory that a names.
  ghost predicate DirAt(t: Tree<Node>, root: Node, a: string) {
    var d := Walk(t, root, Components(a));
    d.Some? && d.value in t && t[d.value].dir
  }

  // An absolute path of at most 255 characters, as parent and name.
  predicate Splits(path: string, a: string, n: string) {
    path == a + "/" + n && '/' !in n && (a == "" || a[0] == '/')
  }

  lemma SplitsAt(path: string, a: string, n: string)
    requires Splits(path, a, n)
    ensures path[0] == '/' && Leaf(path) == n && Above(path) == a
    ensures Components(path) == Components(a) + (if n == "" then [] else [n])
  {
    LeafAndAbove(path, a, n);
    ComponentsJoin(a, n);
    ComponentsOfName(n);
  }

  lemma LeafAndAbove(path: string, a: string, n: string)
    requires Splits(path, a, n)
    ensures path[0] == '/' && Leaf(path) == n && Above(path) == a
  {
    assert forall k :: |a| < k < |path| ==> path[k] == n[k - |a| - 1];
    LastSlashIs(path, |a|);
    assert path[|a| + 1..] == n && path[..|a|] == a;
  }

  // Every absolute path splits, at its last slash.
  lemma SplitExists(path: string)
    requires path != "" && path[0] == '/'
    ensures exists a, n :: Splits(path, a, n)
  {
    var i := LastSlash(path);
    var a, n := path[..i], path[i + 1..];
    assert path == a + "/" + n;
    assert Splits(path, a, n);
  }

  // Calls with a relative path do nothing, and one too long is cut at 255 characters.
  lemma OtherPaths(t: Tree<Node>, t': Tree<Node>, root: Node, path: string, mode: Mode, r: Option<Node>)
    ensures path == "" || path[0] != '/' ==>
              && LookupIn(t, root, path) == None
              && (CreateOutcome(t, t', root, path, r) <==> r == None && t' == t)
              && (MkdirOutcome(t, t', root, path, r) <==> r == None && t' == t)
              && (OpenOutcome(t, t', root, path, mode, r) <==> r == None && t' == t)
    ensures |path| > 255 ==>
              && LookupIn(t, root, path) == LookupIn(t, root, path[..255])
              && (CreateOutcome(t, t', root, path, r) <==> CreateOutcome(t, t', root, path[..255], r))
              && (MkdirOutcome(t, t', root, path, r) <==> MkdirOutcome(t, t', root, path[..255], r))
              && (OpenOutcome(t, t', root, path, mode, r) <==> OpenOutcome(t, t', root, path[..255], mode, r))
  {
    var q := Clip(path, 255);
    assert |path| > 0 ==> |q| > 0 && q[0] == path[0];
    assert |path| > 0 ==> Stripped(q) != "" && Stripped(q)[0] == path[0];
  }

  // Lookup finds the parent, and in it the child of that name; the root is its own path.
  lemma LookupFinds(t: Tree<Node>, root: Node, path: string, a: string, n: string)
    requires Splits(path, a, n) && |path| <= 255
    ensures var d := Walk(t, root, Components(a));
      LookupIn(t, root, path) == if n == "" then d else if d == None then None else Child(t, d.value, n)
    ensures path == "/" ==> LookupIn(t, root, path) == Some(root)
  {
    SplitsAt(path, a, n);
    WalkJoin(t, root, Components(a), if n == "" then [] else [n]);
    assert n != "" ==> [n][1..] == [];
    assert Components(a) + [] == Components(a);
    if path == "/" {
      assert |a| == 0 && |n| == 0;
      assert a == "" && Components(a) == [];
    }
  }

  // The node stands last in the parent, under the name cut at 127 characters.
  ghost predicate MadeIn(t: Tree<Node>, t': Tree<Node>, root: Node, a: string, n: string, x: Node, dir: bool) {
    DirAt(t, root, a) && x !in t
    && t' == Add(t, Walk(t, root, Components(a)).value, x, if |n| <= 127 then n else n[..127], dir)
  }

  // A file is created exactly if the parent is a directory.
  lemma CreateReturnsIff(t: Tree<Node>, t': Tree<Node>, root: Node, path: string, a: string, n: string, r: Option<Node>)
    requires Splits(path, a, n) && |path| <= 255 && CreateOutcome(t, t', root, path, r)
    ensures r.Some? <==> DirAt(t, root, a)
    ensures if r.Some? then MadeIn(t, t', root, a, n, r.value, false) else t' == t
  {
    SplitsAt(path, a, n);
  }

  // The path that mkdir works on: one trailing slash dropped, unless the path is the root's.
  predicate MkdirSplits(path: string, a: string, n: string) {
    '/' !in n && (a == "" || a[0] == '/') && (path == a + "/" + n + "/" || (path == a + "/" + n && (n != "" || a == "")))
  }

  lemma MkdirStrips(path: string, a: string, n: string)
    requires MkdirSplits(path, a, n)
    ensures path != "" && path[0] == '/' && Splits(Stripped(path), a, n)
  {
    var p := a + "/" + n;
    if path == p + "/" {
      assert path[..|path| - 1] == p;
    } else if n != "" {
      assert path[|path| - 1] == n[|n| - 1] && n[|n| - 1] in n;
    }
  }

  // mkdir returns a node exactly if the parent is a directory: the child of that name if there
  // is one, else a new directory.
  lemma MkdirReturnsIff(t: Tree<Node>, t': Tree<Node>, root: Node, path: string, a: string, n: string, r: Option<Node>)
    requires MkdirSplits(path, a, n) && |path| <= 255 && MkdirOutcome(t, t', root, path, r)
    ensures r.Some? <==> DirAt(t, root, a)
    ensures if r == None then t' == t
            else
              var c := Child(t, Walk(t, root, Components(a)).value, n);
              if c.Some? then r == c && t' == t else MadeIn(t, t', root, a, n, r.value, true)
  {
    MkdirStrips(path, a, n);
    SplitsAt(Stripped(path), a, n);
  }

  // Open returns the node that lookup finds; with bit 2 of its flags set, it creates a file if
  // there is none, and so returns a node whenever the parent is a directory.
  lemma OpenReturnsIff(t: Tree<Node>, t': Tree<Node>, root: Node, path: string, a: string, n: string, flags: nat, r: Option<Node>)
    requires Splits(path, a, n) && |path| <= 255 && OpenOutcome(t, t', root, path, ModeOf(flags), r)
    ensures var found := LookupIn(t, root, path);
      && (found.Some? ==> r == found && t' == t)
      && (r.Some? <==> found.Some? || (flags / 4 % 2 == 1 && DirAt(t, root, a)))
      && (found == None && r.Some? ==> MadeIn(t, t', root, a, n, r.value, false))
    ensures flags / 4 % 2 == 1 && DirAt(t, root, a) ==> r.Some?
  {
    ModeIs(flags);
    if LookupIn(t, root, path) == None && ModeOf(flags).create {
      CreateReturnsIff(t, t', root, path, a, n, r);
    }
  }

  // Bit 2 creates, bit 3 truncates, bit 4 appends.
  lemma ModeIs(flags: nat)
    ensures var m := ModeOf(flags);
      && m.flags == flags && (m.create <==> flags / 4 % 2 == 1)
      && (m.truncate <==> flags / 8 % 2 == 1) && (m.append <==> flags / 16 % 2 == 1)
  {
    assert Pow2(2) == 4 && Pow2(3) == 8 && Pow2(4) == 16;
    BitAt(flags, 2);
    BitAt(flags, 3);
    BitAt(flags, 4);
  }

  // A descriptor just opened: the lowest that was not in use, standing at the end of the file
  // if that was asked for, else at its beginning; all others stay as they were.
  lemma OpenedDescriptor(t: seq<Fd>, t1: seq<Fd>, node: Node, flags: nat, fd: int, size: nat)
    requires Opened(t, t1, node, ModeOf(flags), fd, size)
    ensures fd == -1 <==> forall i :: 0 <= i < |t| ==> t[i].used
    ensures fd == -1 ==> t1 == t
    ensures fd != -1 ==>
              && 0 <= fd < |t| == |t1| && !t[fd].used && (forall i :: 0 <= i < fd ==> t[i].used)
              && t1[fd] == Fd(node, if flags / 16 % 2 == 1 then size else 0, flags, true)
              && forall i :: 0 <= i < |t| && i != fd ==> t1[i] == t[i]
  {
    ModeIs(flags);
  }

  // The first write through a descriptor just opened: at the end of the file if it was opened
  // for appending, else over its beginning.
  lemma FirstWrite(files: map<Node, seq<bv8>>, t: seq<Fd>, t1: seq<Fd>, files2: map<Node, seq<bv8>>, t2: seq<Fd>,
                   node: Node, flags: nat, fd: int, content: seq<bv8>, size: nat, d: seq<bv8>, bytes: seq<bv8>)
    requires node in files && fd >= 0 && Opened(t, t1, node, ModeOf(flags), fd, |files[node]|)
    requires WriteDone(files, t1, files2, t2, fd, content, size, d, bytes)
    ensures files2 == files[node := bytes]
    ensures bytes == if flags / 16 % 2 == 1 then files[node] + d else Splice(files[node], 0, d)
  {
    ModeIs(flags);
    if ModeOf(flags).append {
      assert Splice(files[node], |files[node]|, d) == files[node] + d;
    }
  }

  // And the first read starts at the end or at the beginning.
  lemma FirstRead(files: map<Node, seq<bv8>>, t: seq<Fd>, t1: seq<Fd>, t2: seq<Fd>, node: Node, flags: nat, fd: int, count: nat, n: int)
    requires node in files && fd >= 0 && Opened(t, t1, node, ModeOf(flags), fd, |files[node]|)
    requires ReadDone(files, t1, t2, fd, count, n)
    ensures n == if flags / 16 % 2 == 1 then 0 else if count <= |files[node]| then count else |files[node]|
  {
    ModeIs(flags);
  }
}
