// The in-memory file system: nodes linked by parent, child and sibling pointers, path lookup,
// creation, and descriptor input and output.

module FileData {
  // b with d written over it from o on.
  function Splice(b: seq<bv8>, o: nat, d: seq<bv8>): (r: seq<bv8>)
    requires o <= |b|
    ensures |r| == if o + |d| > |b| then o + |d| else |b|
    ensures forall k :: 0 <= k < |r| ==> r[k] == if o <= k < o + |d| then d[k - o] else b[k]
  {
    b[..o] + d + (if o + |d| < |b| then b[o + |d|..] else [])
  }

  // Writing in two chunks is writing at once.
  lemma SpliceChunks(b: seq<bv8>, o: nat, d: seq<bv8>, e: seq<bv8>)
    requires o <= |b|
    ensures Splice(Splice(b, o, d), o + |d|, e) == Splice(b, o, d + e)
  {
  }

  // Writing any list of chunks one after another.
  function SpliceAll(b: seq<bv8>, o: nat, chunks: seq<seq<bv8>>): seq<bv8>
    requires o <= |b|
    decreases |chunks|
  {
    if chunks == [] then b else SpliceAll(Splice(b, o, chunks[0]), o + |chunks[0]|, chunks[1..])
  }

  function Concat(chunks: seq<seq<bv8>>): seq<bv8> {
    if chunks == [] then [] else chunks[0] + Concat(chunks[1..])
  }

  // Any chunking of the same data gives the same file.
  lemma {:induction false} AnyChunking(b: seq<bv8>, o: nat, chunks: seq<seq<bv8>>)
    requires o <= |b|
    ensures SpliceAll(b, o, chunks) == Splice(b, o, Concat(chunks))
    decreases |chunks|
  {
    if chunks == [] {
      assert Splice(b, o, []) == b;
    } else {
      AnyChunking(Splice(b, o, chunks[0]), o + |chunks[0]|, chunks[1..]);
      SpliceChunks(b, o, chunks[0], Concat(chunks[1..]));
    }
  }

  // The file b that data d, written at o, makes of a buffer whose first `size` bytes were the
  // file: d from o on, and the buffer elsewhere, what lay beyond the end of the file included.
  ghost predicate Overwrites(buf: seq<bv8>, size: nat, o: nat, d: seq<bv8>, b: seq<bv8>) {
    && size <= |buf| && |b| == (if o + |d| > size then o + |d| else size)
    && forall k :: 0 <= k < |b| ==> if o <= k < o + |d| then b[k] == d[k - o] else k < |buf| ==> b[k] == buf[k]
  }

  // Within the file that is the splice.
  lemma OverwritesIsSplice(buf: seq<bv8>, size: nat, o: nat, d: seq<bv8>, b: seq<bv8>)
    requires Overwrites(buf, size, o, d, b) && o <= size
    ensures b == Splice(buf[..size], o, d)
  {
  }

  // The same beside the old file: within it, a splice.
  ghost predicate Rewrites(buf: seq<bv8>, size: nat, file: seq<bv8>, o: nat, d: seq<bv8>, b: seq<bv8>) {
    Overwrites(buf, size, o, d, b) && |b| >= |file| && (o <= |file| ==> b == Splice(file, o, d))
  }

  // Beyond the end, the file and what was left in the buffer behind it come back.
  lemma OverwritesBeyond(buf: seq<bv8>, size: nat, o: nat, d: seq<bv8>, b: seq<bv8>)
    requires Overwrites(buf, size, o, d, b) && size <= o <= |buf|
    ensures b == buf[..o] + d
  {
  }

  // The bytes one read returns.
  function Slice(b: seq<bv8>, o: nat, count: nat): (r: seq<bv8>)
    ensures |r| == if o >= |b| then 0 else if o + count > |b| then |b| - o else count
  {
    if o >= |b| then [] else if o + count > |b| then b[o..] else b[o..o + count]
  }

  // What was just written is read back.
  lemma WriteThenRead(b: seq<bv8>, o: nat, d: seq<bv8>)
    requires o <= |b|
    ensures Slice(Splice(b, o, d), o, |d|) == d
  {
    assert Splice(b, o, d)[o..o + |d|] == d;
  }

  // Reading chunk after chunk until a read returns nothing.
  function ReadAll(b: seq<bv8>, o: nat, chunk: nat): seq<bv8>
    requires chunk > 0
    decreases if o >= |b| then 0 else |b| - o
  {
    var got := Slice(b, o, chunk);
    if got == [] then [] else got + ReadAll(b, o + |got|, chunk)
  }

  // Whatever the chunk size, that yields exactly the rest of the file.
  lemma {:induction false} ReadAllIsSuffix(b: seq<bv8>, o: nat, chunk: nat)
    requires chunk > 0
    ensures ReadAll(b, o, chunk) == if o >= |b| then [] else b[o..]
    decreases if o >= |b| then 0 else |b| - o
  {
    var got := Slice(b, o, chunk);
    if got != [] {
      ReadAllIsSuffix(b, o + |got|, chunk);
      assert b[o..] == got + b[o + |got|..];
    }
  }
}

module VfsNode {
  import opened FileData

  const MAX_SIZE: nat := 0x4000_0000_0000_0000

  class Node {
    var name: string
    var dir: bool
    var size: nat
    var inode: nat
    var content: seq<bv8>
    var capacity: nat
    var parent: Node?
    var children: Node?
    var next: Node?

    // The buffer has `capacity` bytes, of which the first `size` are the file.
    predicate FileOk()
      reads this`size, this`capacity, this`content
    {
      size <= capacity == |content|
    }

    function Bytes(): seq<bv8>
      reads this`size, this`capacity, this`content
      requires FileOk()
    {
      content[..size]
    }

    constructor (name: string, dir: bool, inode: nat)
      ensures this.name == name && this.dir == dir && this.inode == inode && FileOk() && size == 0
      ensures parent == null && children == null && next == null
    {
      this.name, this.dir, this.inode := name, dir, inode;
      size, content, capacity := 0, [], 0;
      parent, children, next := null, null, null;
    }

    // Written bytes replace the old ones from the offset on. Beyond the end of the file, what
    // lies between is whatever the buffer held.
    method RamfsWrite(offset: nat, data: seq<bv8>) returns (n: nat)
      requires FileOk() && offset + |data| < MAX_SIZE
      modifies this`content, this`capacity, this`size
      ensures FileOk() && n == |data|
      ensures var required := offset + |data|;
        capacity == if required <= old(capacity) then old(capacity) else if required < 64 then 64 else 2 * required
      ensures Overwrites(old(content), old(size), offset, data, Bytes())
    {
      var required := offset + |data|;
      if required > capacity {
        var newCap := if required < 64 then 64 else required * 2;
        content := Regrow(content, newCap);
        capacity := newCap;
      }
      content := content[..offset] + data + content[offset + |data|..];
      if offset + |data| > size {
        size := offset + |data|;
      }
      n := |data|;
    }

    // A larger buffer with the old bytes first; the others are not initialised.
    static method Regrow(bytes: seq<bv8>, newCap: nat) returns (r: seq<bv8>)
      requires |bytes| <= newCap
      ensures |r| == newCap && r[..|bytes|] == bytes
    {
      var spare := new bv8[newCap - |bytes|];
      r := bytes + spare[..];
    }

    method RamfsRead(offset: nat, count: nat, buffer: array<bv8>) returns (n: nat)
      requires FileOk() && count <= buffer.Length
      modifies buffer
      ensures n == |Slice(Bytes(), offset, count)| && buffer[..n] == Slice(Bytes(), offset, count)
      ensures forall k :: n <= k < buffer.Length ==> buffer[k] == old(buffer[k])
    {
      if offset >= size { return 0; }
      n := count;
      if offset + n > size {
        n := size - offset;
      }
      for i := 0 to n
        invariant forall k :: 0 <= k < buffer.Length ==> buffer[k] == if k < i then content[offset + k] else old(buffer[k])
      {
        buffer[i] := content[offset + i];
      }
    }
  }
}

module Vfs {
  import opened Options
  import opened Words
  import opened Paths
  import opened FsTree
  import opened FileData
  import opened VfsNode

  const MAX_FDS: nat := 64
  const O_CREAT: nat := 4
  const O_TRUNC: nat := 8
  const O_APPEND: nat := 16

  predicate HasFlag(flags: nat, bit: nat) {
    And(flags, bit) != 0
  }

  // What the flags of an open ask for.
  datatype Mode = Mode(create: bool, truncate: bool, append: bool, flags: nat)

  function ModeOf(flags: nat): Mode {
    Mode(HasFlag(flags, O_CREAT), HasFlag(flags, O_TRUNC), HasFlag(flags, O_APPEND), flags)
  }

  // The tree of names, and the bytes of every node.
  datatype Fs = Fs(tree: Tree<Node>, root: Node, files: map<Node, seq<bv8>>)

  datatype Fd = Fd(node: Node?, offset: nat, flags: nat, used: bool)

  function First(kids: seq<Node>): Node? {
    if kids == [] then null else kids[0]
  }

  // The sibling after the i-th child.
  function After(kids: seq<Node>, i: nat): Node?
    requires i < |kids|
  {
    if i + 1 < |kids| then kids[i + 1] else null
  }

  // The node's fields say what the tree says.
  ghost predicate NodeIs(n: Node, e: Entry<Node>)
    reads n`name, n`dir, n`children
  {
    n.name == e.name && |n.name| <= MAX_NAME && n.dir == e.dir && n.children == First(e.kids)
  }

  ghost predicate Holding(n: Node, bytes: seq<bv8>)
    reads n`size, n`capacity, n`content
  {
    n.FileOk() && n.Bytes() == bytes
  }

  ghost predicate KidIs(kids: seq<Node>, i: nat, parent: Node)
    requires i < |kids|
    reads {kids[i]}`parent, {kids[i]}`next
  {
    kids[i].parent == parent && kids[i].next == After(kids, i)
  }

  // The child list of every node, linked through sibling pointers.
  ghost predicate Linked(t: Tree<Node>)
    reads t.Keys`parent, t.Keys`next
  {
    forall d, i {:trigger KidIs(t[d].kids, i, d)} ::
      d in t && 0 <= i < |t[d].kids| && t[d].kids[i] in t ==> KidIs(t[d].kids, i, d)
  }

  // n is the last child of parent.
  ghost predicate IsLast(t: Tree<Node>, parent: Node, n: Node)
    requires parent in t
  {
    t[parent].kids != [] && n == t[parent].kids[|t[parent].kids| - 1]
  }

  lemma LastIs(t: Tree<Node>, root: Node, parent: Node, d: Node, i: nat)
    requires TreeOk(t, root) && parent in t && d in t && i < |t[d].kids|
    ensures IsLast(t, parent, t[d].kids[i]) <==> d == parent && i == |t[d].kids| - 1
  {
    if t[parent].kids != [] {
      assert OneSpot(t, d, i, parent, |t[parent].kids| - 1);
    }
  }

  // strcmp on two names is equality.
  class Vfs {
    var root: Node
    var fds: array<Fd>
    var nextInode: nat
    ghost var tree: Tree<Node>
    ghost var files: map<Node, seq<bv8>>

    // The pointers and names are those of the tree.
    ghost predicate Shaped()
      reads this`root, this`tree, tree.Keys`name, tree.Keys`dir, tree.Keys`children, tree.Keys`parent, tree.Keys`next
    {
      TreeOk(tree, root) && (forall n :: n in tree ==> NodeIs(n, tree[n])) && Linked(tree)
    }

    // The buffers hold the bytes.
    ghost predicate AllHold()
      reads this`files, files.Keys`size, files.Keys`capacity, files.Keys`content
    {
      forall n :: n in files ==> Holding(n, files[n])
    }

    ghost predicate Filled()
      reads this`tree, this`files, files.Keys`size, files.Keys`capacity, files.Keys`content
    {
      files.Keys == tree.Keys && AllHold()
    }

    // Open descriptors are of nodes in the tree.
    ghost predicate Rooted()
      reads this`tree, this`fds, fds
    {
      fds.Length == MAX_FDS && forall i :: 0 <= i < MAX_FDS && fds[i].used ==> fds[i].node != null && fds[i].node in tree
    }

    ghost predicate Valid()
      reads this, tree.Keys, files.Keys, fds
    {
      Shaped() && Filled() && Rooted()
    }

    ghost function State(): Fs
      reads this
    {
      Fs(tree, root, files)
    }

    // An empty root directory and no open file.
    constructor ()
      ensures Valid() && UniqueNames(tree) && fds.Length == 64 && forall i :: 0 <= i < 64 ==> !fds[i].used
      ensures tree == map[root := Entry("/", true, 0, [])] && files == map[root := []] && fresh(root) && fresh(fds)
    {
      var r := new Node("/", true, 1);
      root := r;
      nextInode := 2;
      fds := new Fd[MAX_FDS](_ => Fd(null, 0, 0, false));
      tree, files := map[r := Entry("/", true, 0, [])], map[r := []];
    }

    // The child of that name, by a walk over the sibling pointers.
    method FindDir(node: Node, name: string) returns (r: Option<Node>)
      requires Shaped() && node in tree
      ensures r == Child(tree, node, name)
    {
      assert NodeIs(node, tree[node]);
      if !node.dir { return None; }
      ghost var kids := tree[node].kids;
      var curr := node.children;
      ghost var i := 0;
      while curr != null
        invariant 0 <= i <= |kids| && (curr == if i < |kids| then kids[i] else null)
        invariant Named(tree, kids, name) == Named(tree, kids[i..], name)
        decreases |kids| - i
      {
        assert KidOk(tree, node, i);
        assert NodeIs(curr, tree[curr]) && KidIs(kids, i, node);
        if curr.name == name { return Some(curr); }
        curr := curr.next;
        i := i + 1;
      }
      return None;
    }

    // The last child, found by a walk over the sibling pointers.
    method LastChild(parent: Node) returns (curr: Node)
      requires Shaped() && parent in tree && parent.children != null
      ensures tree[parent].kids != [] && curr == tree[parent].kids[|tree[parent].kids| - 1]
    {
      assert NodeIs(parent, tree[parent]);
      ghost var kids := tree[parent].kids;
      curr := parent.children;
      ghost var i := 0;
      assert KidOk(tree, parent, 0) && KidIs(kids, 0, parent);
      while curr.next != null
        invariant 0 <= i < |kids| && curr == kids[i] && KidIs(kids, i, parent)
        decreases |kids| - i
      {
        curr := curr.next;
        i := i + 1;
        assert KidOk(tree, parent, i) && KidIs(kids, i, parent);
      }
    }

    // Puts a new node last on its parent's child list: at most one pointer in the tree changes.
    method LinkChild(parent: Node, child: Node)
      requires Shaped() && AllHold() && parent in tree && child !in tree
      modifies tree.Keys`next, tree.Keys`children, child`parent
      ensures child.parent == parent && AllHold()
      ensures forall n :: n in tree ==> n.children == if n == parent && tree[n].kids == [] then child else old(n.children)
      ensures forall n :: n in tree ==> n.next == if IsLast(tree, parent, n) then child else old(n.next)
    {
      assert NodeIs(parent, tree[parent]);
      child.parent := parent;
      if parent.children == null {
        parent.children := child;
      } else {
        var last := LastChild(parent);
        assert KidOk(tree, parent, |tree[parent].kids| - 1);
        last.next := child;
      }
    }

    method AddChild(parent: Node, child: Node)
      requires Shaped() && AllHold() && parent in tree && tree[parent].dir && child !in tree
      requires child.next == null && child.children == null && |child.name| <= MAX_NAME
      modifies this`tree, tree.Keys`next, tree.Keys`children, child`parent
      ensures Shaped() && AllHold() && tree == Add(old(tree), parent, child, child.name, child.dir)
    {
      ghost var t := tree;
      LinkChild(parent, child);
      tree := Add(t, parent, child, child.name, child.dir);
      AddKeepsTree(t, root, parent, child, child.name, child.dir);
      forall n | n in tree ensures NodeIs(n, tree[n]) {
        AddAt(t, parent, child, child.name, child.dir, n);
        assert n in t ==> old(NodeIs(n, t[n]));
      }
      forall d, i | d in tree && 0 <= i < |tree[d].kids| && tree[d].kids[i] in tree
        ensures KidIs(tree[d].kids, i, d)
      {
        AddKid(t, root, parent, child, child.name, child.dir, d, i);
        AddAt(t, parent, child, child.name, child.dir, d);
        if i < |t[d].kids| {
          assert old(KidIs(t[d].kids, i, d));
          LastIs(t, root, parent, d, i);
        }
      }
    }

    // Path lookup: the tokens of the path are cut out in place, one after another.
    method Lookup(path: string) returns (r: Option<Node>)
      requires Shaped() && NUL !in path
      ensures r == LookupIn(tree, root, path)
    {
      if path == "" || path[0] != '/' { return None; }
      if path == "/" {
        assert "/"[1..] == "";
        return Some(root);
      }
      ghost var s := Clip(path, MAX_PATH - 1);
      var temp := CopyPath(path);
      var curr, token := root, 1;
      assert s[0] == '/';
      while temp[token] != NUL
        invariant 1 <= token <= |s| && temp.Length == MAX_PATH && curr in tree
        invariant Holds(temp[..], token, s)
        invariant Walk(tree, root, Components(s)) == Walk(tree, curr, Components(s[token..]))
        decreases |s| - token
      {
        var next, isEnd, after := Advance(curr, temp, token, s);
        if next == None || isEnd { return next; }
        curr, token := next.value, after;
      }
      return Some(curr);
    }

    // One turn of the lookup loop: the token at `token` is terminated and looked up.
    method Advance(curr: Node, temp: array<char>, token: nat, ghost s: string) returns (next: Option<Node>, isEnd: bool, after: nat)
      requires Shaped() && curr in tree && token <= |s| && Holds(temp[..], token, s)
      modifies temp
      ensures Shaped() && (next.Some? ==> next.value in tree)
      ensures !isEnd ==> token < after <= |s| && Holds(temp[..], after, s)
      ensures Walk(tree, curr, Components(s[token..]))
           == if next == None || isEnd then next else Walk(tree, next.value, Components(s[after..]))
    {
      var name;
      name, isEnd, after := CutToken(temp, token, s);
      assert Shaped();
      next := StepInto(curr, name);
      TokenStep(tree, curr, s, token, after - 1);
    }

    // An empty token stays where it is.
    method StepInto(curr: Node, name: string) returns (next: Option<Node>)
      requires Shaped() && curr in tree
      ensures next == if name == "" then Some(curr) else Child(tree, curr, name)
    {
      next := Some(curr);
      if |name| > 0 {
        next := FindDir(curr, name);
      }
    }

    // The directory that holds, or would hold, the last name of a clipped absolute path.
    method FindParent(temp: string, last: nat) returns (r: Option<Node>)
      requires Shaped() && NUL !in temp && |temp| < MAX_PATH && temp != "" && temp[0] == '/' && last == LastSlash(temp)
      ensures r == Walk(tree, root, Components(Above(temp))) && (r.Some? ==> r.value in tree)
    {
      if last == 0 {
        assert Components("") == [];
        return Some(root);
      }
      assert temp[..last][0] == '/';
      r := Lookup(temp[..last]);
    }

    method CreateNode(name: string, dir: bool) returns (x: Node)
      modifies this`nextInode
      ensures fresh(x) && x.name == Clip(name, MAX_NAME) && x.dir == dir && x.FileOk() && x.size == 0
      ensures x.parent == null && x.children == null && x.next == null
      ensures x.inode == old(nextInode) && nextInode == old(nextInode) + 1
    {
      x := new Node(Clip(name, MAX_NAME), dir, nextInode);
      nextInode := nextInode + 1;
    }

    // The directory for the last name of a clipped absolute path, and that name.
    method FindHome(temp: string) returns (d: Option<Node>, name: string)
      requires Shaped() && NUL !in temp && |temp| < MAX_PATH && temp != "" && temp[0] == '/'
      ensures d == Home(tree, root, temp) && name == Leaf(temp)
      ensures d.Some? ==> d.value in tree && tree[d.value].dir
    {
      var last := FindLastSlash(temp);
      assert temp[0] == '/' ==> last >= 0;
      name := temp[last + 1..];
      d := FindParent(temp, last);
      if d == None { return None, name; }
      assert NodeIs(d.value, tree[d.value]);
      if !d.value.dir { d := None; }
    }

    method FilledNode(name: string, dir: bool, data: seq<bv8>) returns (x: Node)
      requires |data| < MAX_SIZE
      modifies this`nextInode
      ensures fresh(x) && x.name == Clip(name, MAX_NAME) && x.dir == dir && x.FileOk() && x.Bytes() == data
      ensures x.parent == null && x.children == null && x.next == null
    {
      x := CreateNode(name, dir);
      if data != [] {
        var n := x.RamfsWrite(0, data);
      }
    }

    method NewChild(d: Node, name: string, dir: bool, data: seq<bv8>) returns (x: Node)
      requires Valid() && d in tree && tree[d].dir && |data| < MAX_SIZE
      modifies this`tree, this`files, this`nextInode, tree.Keys`next, tree.Keys`children
      ensures Valid() && fresh(x) && NewNode(old(tree), tree, d, x, name, dir)
      ensures x.FileOk() && x.Bytes() == data
      ensures files == old(files)[x := data]
    {
      x := Recorded(name, dir, data);
      Insert(d, x);
    }

    // A new node, its bytes recorded, not yet in the tree.
    method Recorded(name: string, dir: bool, data: seq<bv8>) returns (x: Node)
      requires Valid() && |data| < MAX_SIZE
      modifies this`nextInode, this`files
      ensures fresh(x) && x.name == Clip(name, MAX_NAME) && x.dir == dir && x.FileOk() && x.Bytes() == data
      ensures x.parent == null && x.children == null && x.next == null
      ensures Shaped() && AllHold() && Rooted() && files == old(files)[x := data]
    {
      x := FilledNode(name, dir, data);
      AddFile(x);
    }

    // The new node joins the tree.
    method Insert(d: Node, x: Node)
      requires Shaped() && AllHold() && Rooted() && files.Keys == tree.Keys + {x}
      requires d in tree && tree[d].dir && x !in tree && x.next == null && x.children == null && |x.name| <= MAX_NAME
      modifies this`tree, tree.Keys`next, tree.Keys`children, x`parent
      ensures Valid() && tree == Add(old(tree), d, x, x.name, x.dir)
    {
      AddChild(d, x);
    }

    ghost method AddFile(x: Node)
      requires Valid() && x !in tree && x.FileOk()
      modifies this`files
      ensures Shaped() && AllHold() && Rooted() && files == old(files)[x := x.Bytes()]
    {
      files := files[x := x.Bytes()];
    }

    method Mkdir(path: string) returns (r: Option<Node>)
      requires Valid() && NUL !in path
      modifies this`tree, this`files, this`nextInode, tree.Keys`next, tree.Keys`children
      ensures Valid() && MkdirOutcome(old(tree), tree, root, path, r)
      ensures State() == NewState(old(State()), tree, r, [])
    {
      if path == "" || path[0] != '/' { return None; }
      var temp := Stripped(Clip(path, MAX_PATH - 1));
      var d, name := FindHome(temp);
      if d == None { return None; }
      r := MakeIn(d.value, name);
    }

    // The directory of that name, new if there is no entry of that name.
    method MakeIn(d: Node, name: string) returns (r: Option<Node>)
      requires Valid() && d in tree && tree[d].dir
      modifies this`tree, this`files, this`nextInode, tree.Keys`next, tree.Keys`children
      ensures Valid() && State() == NewState(old(State()), tree, r, [])
      ensures var c := Child(old(tree), d, name);
        if c.Some? then r == c && tree == old(tree) else r.Some? && NewNode(old(tree), tree, d, r.value, name, true)
    {
      r := FindDir(d, name);
      if r == None {
        var x := NewChild(d, name, true, []);
        r := Some(x);
      }
    }

    method CreateFile(path: string, data: seq<bv8>) returns (r: Option<Node>)
      requires Valid() && NUL !in path && |data| < MAX_SIZE
      modifies this`tree, this`files, this`nextInode, tree.Keys`next, tree.Keys`children
      ensures Valid() && CreateOutcome(old(tree), tree, root, path, r)
      ensures State() == NewState(old(State()), tree, r, data)
      ensures r.Some? ==> fresh(r.value) && r.value.FileOk() && r.value.Bytes() == data
    {
      if path == "" || path[0] != '/' { return None; }
      var d, name := FindHome(Clip(path, MAX_PATH - 1));
      if d == None { return None; }
      var x := NewChild(d.value, name, false, data);
      return Some(x);
    }

    ghost predicate OffsetsOk()
      reads this`fds, this`files, fds
    {
      Within(fds[..], files)
    }

    predicate IsOpen(fd: int)
      reads this, fds
    {
      0 <= fd < fds.Length && fds[fd].used
    }

    // The node of a path, created as an empty file if that is asked for.
    method FindOrCreate(path: string, mode: Mode) returns (r: Option<Node>)
      requires Valid() && NUL !in path
      modifies this`tree, this`files, this`nextInode, tree.Keys`next, tree.Keys`children
      ensures Valid() && FoundOrMade(old(State()), State(), path, mode, r)
      ensures r.Some? && r.value !in old(tree) ==> fresh(r.value)
    {
      r := Lookup(path);
      if r == None && mode.create {
        r := CreateFile(path, []);
      }
    }

    // Opening gives the lowest descriptor not in use, or -1; a full table fails only after the
    // file has been created or truncated. Truncation leaves every descriptor within its file
    // exactly when no descriptor of that file has moved.
    method Open(path: string, flags: nat) returns (fd: int, ghost node: Option<Node>)
      requires Valid() && NUL !in path
      modifies this`tree, this`files, this`nextInode, tree.Keys`next, tree.Keys`children, tree.Keys`size, fds
      ensures Valid() && OpenResult(old(State()), State(), old(fds[..]), fds[..], path, ModeOf(flags), fd, node)
    {
      ghost var s, t := State(), fds[..];
      ghost var mid;
      fd, node, mid := OpenWith(path, ModeOf(flags));
      OpenDone(s, mid, State(), t, fds[..], path, ModeOf(flags), fd, node);
    }

    // The two halves of open, and the state between them.
    method OpenWith(path: string, mode: Mode) returns (fd: int, ghost node: Option<Node>, ghost mid: Fs)
      requires Valid() && NUL !in path
      modifies this`tree, this`files, this`nextInode, tree.Keys`next, tree.Keys`children, tree.Keys`size, fds
      ensures Valid() && FoundOrMade(old(State()), mid, path, mode, node)
      ensures OpenedFrom(mid, State(), old(fds[..]), fds[..], mode, fd, node)
    {
      var r := FindOrCreate(path, mode);
      node, mid := r, State();
      fd := OpenFound(r, mode);
    }

    method OpenFound(node: Option<Node>, mode: Mode) returns (fd: int)
      requires Valid() && (node.Some? ==> node.value in tree)
      modifies this`files, if node.Some? then {node.value} else {}`size, fds
      ensures Valid() && OpenedFrom(old(State()), State(), old(fds[..]), fds[..], mode, fd, node)
    {
      fd := -1;
      if node.Some? {
        fd := OpenNode(node.value, mode);
      }
    }

    method OpenNode(node: Node, mode: Mode) returns (fd: int)
      requires Valid() && node in tree
      modifies this`files, node`size, fds
      ensures Valid()
      ensures files == if mode.truncate then old(files)[node := []] else old(files)
      ensures Opened(old(fds[..]), fds[..], node, mode, fd, |files[node]|)
    {
      if mode.truncate {
        Truncate(node);
      }
      assert Holding(node, files[node]);
      fd := TakeFd(node, if mode.append then node.size else 0, mode.flags);
    }

    method Truncate(node: Node)
      requires Shaped() && Filled() && node in tree
      modifies this`files, node`size
      ensures Shaped() && Filled() && files == old(files)[node := []]
    {
      assert Holding(node, files[node]);
      node.size := 0;
      files := files[node := []];
      forall n | n in tree ensures Holding(n, files[n]) {
        assert n != node ==> old(Holding(n, files[n]));
      }
    }

    method TakeFd(node: Node, offset: nat, flags: nat) returns (fd: int)
      requires Valid() && node in tree
      modifies fds
      ensures Valid()
      ensures fd == FreeFd(old(fds[..]), 0)
      ensures fd >= 0 ==> fds[..] == old(fds[..])[fd := Fd(node, offset, flags, true)]
      ensures fd < 0 ==> fds[..] == old(fds[..])
    {
      var i := 0;
      while i < MAX_FDS
        invariant 0 <= i <= MAX_FDS && FreeFd(fds[..], 0) == FreeFd(fds[..], i) && fds[..] == old(fds[..]) && Rooted() && unchanged(fds)
      {
        if !fds[i].used {
          fds[i] := Fd(node, offset, flags, true);
          assert forall k :: 0 <= k < MAX_FDS && k != i ==> fds[k] == old(fds[k]);
          return i;
        }
        i := i + 1;
      }
      return -1;
    }

    // A read returns the bytes at the descriptor's offset and moves past them.
    method Read(fd: int, buffer: array<bv8>, count: nat) returns (n: int)
      requires Valid() && count <= buffer.Length && (buffer as object) != (fds as object)
      modifies fds, buffer
      ensures Valid() && (old(OffsetsOk()) ==> OffsetsOk())
      ensures !old(IsOpen(fd)) ==> n == -1 && fds[..] == old(fds[..]) && buffer[..] == old(buffer[..])
      ensures old(IsOpen(fd)) ==>
                && ReadDone(files, old(fds[..]), fds[..], fd, count, n)
                && buffer[..n] == Slice(files[old(fds[fd].node)], old(fds[fd].offset), count) && buffer[n..] == old(buffer[n..])
    {
      if fd < 0 || fd >= MAX_FDS || !fds[fd].used { return -1; }
      n := ReadOpen(fd, buffer, count);
    }

    method ReadOpen(fd: nat, buffer: array<bv8>, count: nat) returns (n: nat)
      requires Valid() && IsOpen(fd) && count <= buffer.Length && (buffer as object) != (fds as object)
      modifies fds, buffer
      ensures Valid() && (old(OffsetsOk()) ==> OffsetsOk())
      ensures ReadDone(files, old(fds[..]), fds[..], fd, count, n)
      ensures buffer[..n] == Slice(files[old(fds[fd].node)], old(fds[fd].offset), count) && buffer[n..] == old(buffer[n..])
    {
      ghost var t := fds[..];
      n := ReadAndMove(fd, buffer, count);
      WithinAfterRead(files, t, fds[..], fd, count, n);
    }

    method ReadAndMove(fd: nat, buffer: array<bv8>, count: nat) returns (n: nat)
      requires Filled() && Rooted() && IsOpen(fd) && count <= buffer.Length && (buffer as object) != (fds as object)
      modifies fds, buffer
      ensures Filled() && Rooted() && ReadDone(files, old(fds[..]), fds[..], fd, count, n)
      ensures buffer[..n] == Slice(files[old(fds[fd].node)], old(fds[fd].offset), count) && buffer[n..] == old(buffer[n..])
    {
      ghost var t := fds[..];
      n := ReadAt(fds[fd].node, fds[fd].offset, count, buffer);
      assert fds[..] == t && fds[fd] == t[fd];
      MoveOn(fd, n);
    }

    method ReadAt(node: Node, offset: nat, count: nat, buffer: array<bv8>) returns (n: nat)
      requires Filled() && node in files && count <= buffer.Length && (buffer as object) != (fds as object)
      modifies buffer
      ensures Filled() && n == |Slice(files[node], offset, count)|
      ensures buffer[..n] == Slice(files[node], offset, count) && buffer[n..] == old(buffer[n..])
    {
      assert Holding(node, files[node]);
      n := node.RamfsRead(offset, count, buffer);
    }

    // A descriptor moves past the bytes just read or written.
    method MoveOn(fd: nat, n: nat)
      requires Rooted() && IsOpen(fd)
      modifies fds
      ensures Rooted() && fds[..] == old(fds[..])[fd := old(fds[fd]).(offset := old(fds[fd]).offset + n)]
    {
      if n > 0 {
        fds[fd] := fds[fd].(offset := fds[fd].offset + n);
      }
      assert forall k :: 0 <= k < MAX_FDS && k != fd ==> fds[k] == old(fds[k]);
    }

    // A write makes of the file what the data over it at the descriptor's offset makes, and
    // moves past it; no other file changes.
    method Write(fd: int, data: seq<bv8>) returns (n: int, ghost bytes: seq<bv8>)
      requires Valid() && (IsOpen(fd) ==> fds[fd].offset + |data| < MAX_SIZE)
      modifies this`files, fds, tree.Keys`content, tree.Keys`capacity, tree.Keys`size
      ensures Valid() && (old(OffsetsOk()) ==> OffsetsOk())
      ensures !old(IsOpen(fd)) ==> n == -1 && fds[..] == old(fds[..]) && files == old(files)
      ensures old(IsOpen(fd)) ==> n == |data| && WriteDone(old(files), old(fds[..]), files, fds[..], fd, old(fds[fd].node.content), old(fds[fd].node.size), data, bytes)
    {
      bytes := [];
      if fd < 0 || fd >= MAX_FDS || !fds[fd].used { return -1, bytes; }
      n, bytes := WriteOpen(fd, data);
    }

    method WriteOpen(fd: nat, data: seq<bv8>) returns (n: nat, ghost bytes: seq<bv8>)
      requires Valid() && IsOpen(fd) && fds[fd].offset + |data| < MAX_SIZE
      modifies this`files, fds, tree.Keys`content, tree.Keys`capacity, tree.Keys`size
      ensures Valid() && (old(OffsetsOk()) ==> OffsetsOk())
      ensures n == |data| && WriteDone(old(files), old(fds[..]), files, fds[..], fd, old(fds[fd].node.content), old(fds[fd].node.size), data, bytes)
    {
      ghost var t, s, content, size := fds[..], files, fds[fd].node.content, fds[fd].node.size;
      n, bytes := WriteAndMove(fd, data);
      WithinAfterWrite(s, t, files, fds[..], fd, content, size, data, bytes);
    }

    method WriteAndMove(fd: nat, data: seq<bv8>) returns (n: nat, ghost bytes: seq<bv8>)
      requires Filled() && Rooted() && IsOpen(fd) && fds[fd].offset + |data| < MAX_SIZE
      modifies this`files, fds, tree.Keys`content, tree.Keys`capacity, tree.Keys`size
      ensures Filled() && Rooted()
      ensures n == |data| && WriteDone(old(files), old(fds[..]), files, fds[..], fd, old(fds[fd].node.content), old(fds[fd].node.size), data, bytes)
    {
      ghost var t := fds[..];
      var node, offset := fds[fd].node, fds[fd].offset;
      n, bytes := WriteAt(node, offset, data);
      assert fds[..] == t && fds[fd] == t[fd];
      MoveOn(fd, n);
      assert fds[..] == t[fd := t[fd].(offset := offset + n)];
    }

    method WriteAt(node: Node, offset: nat, data: seq<bv8>) returns (n: nat, ghost bytes: seq<bv8>)
      requires Filled() && node in tree && offset + |data| < MAX_SIZE
      modifies this`files, node`content, node`capacity, node`size
      ensures Filled() && n == |data| && files == old(files)[node := bytes]
      ensures Rewrites(old(node.content), old(node.size), old(files)[node], offset, data, bytes)
    {
      assert Holding(node, files[node]);
      n := node.RamfsWrite(offset, data);
      bytes := node.Bytes();
      if offset <= old(node.size) { OverwritesIsSplice(old(node.content), old(node.size), offset, data, bytes); }
      files := files[node := bytes];
      forall m | m in tree ensures Holding(m, files[m]) {
        assert m != node ==> old(Holding(m, files[m]));
      }
    }

    method Close(fd: int) returns (r: int)
      requires Valid()
      modifies fds
      ensures Valid() && (old(OffsetsOk()) ==> OffsetsOk())
      ensures r == if old(IsOpen(fd)) then 0 else -1
      ensures old(IsOpen(fd)) ==>
                fds[..] == old(fds[..])[fd := old(fds[fd]).(used := false, node := null)]
      ensures !old(IsOpen(fd)) ==> fds[..] == old(fds[..])
    {
      if fd < 0 || fd >= MAX_FDS || !fds[fd].used { return -1; }
      Release(fd);
      return 0;
    }

    method Release(fd: nat)
      requires Rooted() && fd < MAX_FDS
      modifies fds
      ensures Rooted() && fds[..] == old(fds[..])[fd := old(fds[fd]).(used := false, node := null)]
    {
      fds[fd] := fds[fd].(used := false);
      fds[fd] := fds[fd].(node := null);
      assert forall k :: 0 <= k < MAX_FDS && k != fd ==> fds[k] == old(fds[k]);
    }
  }

  lemma TokenStep(tree: Tree<Node>, curr: Node, s: string, token: nat, e: nat)
    requires curr in tree && token <= e <= |s| && (forall k :: token <= k < e ==> s[k] != '/') && (e < |s| ==> s[e] == '/')
    ensures var rest := if e < |s| then Components(s[e + 1..]) else [];
      Walk(tree, curr, Components(s[token..]))
      == if e == token then Walk(tree, curr, rest)
         else var c := Child(tree, curr, s[token..e]); if c.None? then None else Walk(tree, c.value, rest)
  {
    NextToken(s, token, e);
    var rest := if e < |s| then Components(s[e + 1..]) else [];
    if e > token {
      assert ([s[token..e]] + rest)[1..] == rest;
    } else {
      assert [] + rest == rest;
    }
  }

  // mkdir drops one trailing slash.
  function Stripped(s: string): (r: string)
    ensures s != "" ==> r != "" && r[0] == s[0]
    ensures |r| <= |s| && r <= s
  {
    if |s| > 1 && s[|s| - 1] == '/' then s[..|s| - 1] else s
  }

  method FindLastSlash(s: string) returns (i: int)
    ensures i == LastSlash(s)
  {
    i := |s| - 1;
    while i >= 0 && s[i] != '/'
      invariant -1 <= i < |s| && forall k :: i < k < |s| ==> s[k] != '/'
    {
      i := i - 1;
    }
    LastSlashIs(s, i);
  }

  // The directory in which a clipped absolute path would create its last name.
  function Home(t: Tree<Node>, root: Node, path: string): (r: Option<Node>)
    ensures root in t && r.Some? ==> r.value in t && t[r.value].dir
  {
    if path == "" || path[0] != '/' then None
    else
      var d := Walk(t, root, Components(Above(path)));
      if d.Some? && d.value in t && t[d.value].dir then d else None
  }

  // A new node stands last in the directory, under the name clipped to 127 characters.
  ghost predicate NewNode(t: Tree<Node>, t': Tree<Node>, d: Node, x: Node, name: string, dir: bool) {
    d in t && x !in t && t' == Add(t, d, x, Clip(name, MAX_NAME), dir)
  }

  ghost predicate CreateOutcome(t: Tree<Node>, t': Tree<Node>, root: Node, path: string, r: Option<Node>) {
    var p := Clip(path, MAX_PATH - 1);
    var d := Home(t, root, p);
    if d == None then r == None && t' == t
    else r.Some? && NewNode(t, t', d.value, r.value, Leaf(p), false)
  }

  ghost predicate MkdirOutcome(t: Tree<Node>, t': Tree<Node>, root: Node, path: string, r: Option<Node>) {
    var p := Stripped(Clip(path, MAX_PATH - 1));
    var d := Home(t, root, p);
    if d == None then r == None && t' == t
    else if Child(t, d.value, Leaf(p)).Some? then r == Child(t, d.value, Leaf(p)) && t' == t
    else r.Some? && NewNode(t, t', d.value, r.value, Leaf(p), true)
  }

  ghost predicate OpenOutcome(t: Tree<Node>, t': Tree<Node>, root: Node, path: string, mode: Mode, r: Option<Node>) {
    if LookupIn(t, root, path).Some? then r == LookupIn(t, root, path) && t' == t
    else if mode.create then CreateOutcome(t, t', root, path, r)
    else r == None && t' == t
  }

  // The state after a creation, if there was one.
  ghost function NewState(s: Fs, t': Tree<Node>, r: Option<Node>, data: seq<bv8>): Fs {
    Fs(t', s.root, if t' == s.tree || r == None then s.files else s.files[r.value := data])
  }

  // The state after an open: a new or truncated file is empty.
  ghost function OpenState(s: Fs, t': Tree<Node>, mode: Mode, r: Option<Node>): Fs {
    Fs(t', s.root, if r.Some? && (t' != s.tree || mode.truncate) then s.files[r.value := []] else s.files)
  }

  // Open's first half: a node for the path, if any.
  ghost predicate FoundOrMade(s: Fs, s1: Fs, path: string, mode: Mode, node: Option<Node>) {
    && OpenOutcome(s.tree, s1.tree, s.root, path, mode, node) && s1 == NewState(s, s1.tree, node, [])
    && s.files.Keys == s.tree.Keys && s1.files.Keys == s1.tree.Keys && (node.Some? ==> node.value in s1.tree)
    && s.tree.Keys <= s1.tree.Keys && (s1.tree != s.tree ==> node.Some? && node.value !in s.tree)
  }

  // Open's second half: truncation and a descriptor.
  ghost predicate OpenedFrom(s1: Fs, s2: Fs, t: seq<Fd>, t2: seq<Fd>, mode: Mode, fd: int, node: Option<Node>) {
    match node
    case None => s2 == s1 && t2 == t && fd == -1
    case Some(n) =>
      && s2 == s1.(files := if mode.truncate then s1.files[n := []] else s1.files)
      && n in s2.files && Opened(t, t2, n, mode, fd, |s2.files[n]|)
  }

  // What an open does to the tree, the bytes and the descriptors.
  ghost predicate OpenResult(s: Fs, s2: Fs, t: seq<Fd>, t2: seq<Fd>, path: string, mode: Mode, fd: int, node: Option<Node>) {
    match node
    case None => OpenOutcome(s.tree, s2.tree, s.root, path, mode, None) && s2 == s && fd == -1 && t2 == t
    case Some(n) =>
      && OpenOutcome(s.tree, s2.tree, s.root, path, mode, node) && s2 == OpenState(s, s2.tree, mode, node)
      && n in s2.files && Opened(t, t2, n, mode, fd, |s2.files[n]|)
      && (Within(t, s.files) ==> (Within(t2, s2.files) <==> !mode.truncate || Unmoved(t, n)))
  }

  // s, t: before the open; s1: once the node has been found or created; s2, t2: after it.
  lemma OpenDone(s: Fs, s1: Fs, s2: Fs, t: seq<Fd>, t2: seq<Fd>, path: string, mode: Mode, fd: int, node: Option<Node>)
    requires forall i :: 0 <= i < |t| && t[i].used ==> t[i].node in s.tree
    ensures FoundOrMade(s, s1, path, mode, node) && OpenedFrom(s1, s2, t, t2, mode, fd, node) ==>
              OpenResult(s, s2, t, t2, path, mode, fd, node)
  {
    if FoundOrMade(s, s1, path, mode, node) && OpenedFrom(s1, s2, t, t2, mode, fd, node) && node.Some? && Within(t, s.files) {
      WithinAfterOpen(t, t2, s1.files, mode, fd, node.value);
    }
  }

  lemma WithinAfterOpen(t: seq<Fd>, t2: seq<Fd>, files: map<Node, seq<bv8>>, mode: Mode, fd: int, node: Node)
    requires node in files && Within(t, files)
    requires var files2 := if mode.truncate then files[node := []] else files;
      Opened(t, t2, node, mode, fd, |files2[node]|)
    ensures var files2 := if mode.truncate then files[node := []] else files;
      Within(t2, files2) <==> !mode.truncate || Unmoved(t, node)
  {
    var files2 := if mode.truncate then files[node := []] else files;
    WithinAfterTruncate(t, files, node);
    if fd >= 0 {
      assert forall i :: 0 <= i < |t| && i != fd ==> t2[i] == t[i];
    }
  }

  // The descriptor table after an open.
  ghost predicate Opened(fds: seq<Fd>, fds': seq<Fd>, node: Node, mode: Mode, fd: int, size: nat) {
    && fd == FreeFd(fds, 0)
    && fds' == if fd < 0 then fds else fds[fd := Fd(node, if mode.append then size else 0, mode.flags, true)]
  }

  // What a write makes of the bytes and the descriptors; content and size: the node's buffer
  // before it, and how much of it was the file.
  ghost predicate WriteDone(files: map<Node, seq<bv8>>, t: seq<Fd>, files2: map<Node, seq<bv8>>, t2: seq<Fd>,
                            fd: int, content: seq<bv8>, size: nat, d: seq<bv8>, bytes: seq<bv8>)
  {
    && 0 <= fd < |t| && t[fd].node in files && files2 == files[t[fd].node := bytes]
    && Rewrites(content, size, files[t[fd].node], t[fd].offset, d, bytes)
    && t2 == t[fd := t[fd].(offset := t[fd].offset + |d|)]
  }

  // Every descriptor in use stands within its file.
  ghost predicate Within(fds: seq<Fd>, files: map<Node, seq<bv8>>) {
    forall i :: 0 <= i < |fds| && fds[i].used && fds[i].node in files ==> fds[i].offset <= |files[fds[i].node]|
  }

  // Emptying a file leaves the descriptors within their files exactly if none of that file's
  // has moved.
  lemma WithinAfterTruncate(fds: seq<Fd>, files: map<Node, seq<bv8>>, node: Node)
    requires Within(fds, files)
    ensures Within(fds, files[node := []]) <==> Unmoved(fds, node)
  {
  }

  // A read of up to `count` bytes returns as many as there are, and moves past them.
  ghost predicate ReadDone(files: map<Node, seq<bv8>>, t: seq<Fd>, t2: seq<Fd>, fd: int, count: nat, n: int) {
    && 0 <= fd < |t| && t[fd].node in files && n == |Slice(files[t[fd].node], t[fd].offset, count)|
    && t2 == t[fd := t[fd].(offset := t[fd].offset + n)]
  }

  lemma WithinAfterRead(files: map<Node, seq<bv8>>, t: seq<Fd>, t2: seq<Fd>, fd: int, count: nat, n: int)
    ensures ReadDone(files, t, t2, fd, count, n) && Within(t, files) ==> Within(t2, files)
  {
  }

  lemma WithinAfterWrite(files: map<Node, seq<bv8>>, t: seq<Fd>, files2: map<Node, seq<bv8>>, t2: seq<Fd>,
                         fd: int, content: seq<bv8>, size: nat, d: seq<bv8>, bytes: seq<bv8>)
    ensures WriteDone(files, t, files2, t2, fd, content, size, d, bytes) && Within(t, files) ==> Within(t2, files2)
  {
  }

  // Every open descriptor of the node is at offset 0.
  ghost predicate Unmoved(fds: seq<Fd>, node: Node) {
    forall i :: 0 <= i < |fds| && fds[i].used && fds[i].node == node ==> fds[i].offset == 0
  }

  // The lowest descriptor not in use from i on, or -1.
  function FreeFd(fds: seq<Fd>, i: nat): (fd: int)
    requires i <= |fds|
    ensures -1 <= fd < |fds| && (fd >= 0 ==> fd >= i && !fds[fd].used && forall k :: i <= k < fd ==> fds[k].used)
    ensures fd == -1 ==> forall k :: i <= k < |fds| ==> fds[k].used
    decreases |fds| - i
  {
    if i == |fds| then -1 else if !fds[i].used then i else FreeFd(fds, i + 1)
  }

  // From index `from` on, the buffer holds the string and then terminators.
  ghost predicate Holds(temp: string, from: nat, s: string) {
    |s| < |temp| && NUL !in s && forall k :: from <= k < |temp| ==> temp[k] == if k < |s| then s[k] else NUL
  }

  // The token at `token`, terminated in place, whether it was the last, and where the next begins.
  method CutToken(temp: array<char>, token: nat, ghost s: string) returns (name: string, isEnd: bool, after: nat)
    requires token <= |s| && Holds(temp[..], token, s)
    modifies temp
    ensures token < after <= |s| + 1 && name == s[token..after - 1] && Holds(temp[..], after, s)
    ensures (forall k :: token <= k < after - 1 ==> s[k] != '/') && (after <= |s| ==> s[after - 1] == '/')
    ensures isEnd <==> after == |s| + 1
  {
    var nextSlash := TokenEnd(temp, token, s);
    isEnd := temp[nextSlash] == NUL;
    name := TerminateToken(temp, token, nextSlash, s);
    after := nextSlash + 1;
  }

  method TerminateToken(temp: array<char>, token: nat, e: nat, ghost s: string) returns (name: string)
    requires token <= e <= |s| && Holds(temp[..], token, s)
    modifies temp
    ensures name == s[token..e] && Holds(temp[..], e + 1, s)
  {
    assert forall k :: token <= k < temp.Length ==> temp[k] == temp[..][k];
    temp[e] := NUL;
    name := temp[token..e];
  }

  // The index of the slash or terminator that ends the token.
  method TokenEnd(temp: array<char>, token: nat, ghost s: string) returns (e: nat)
    requires token <= |s| && Holds(temp[..], token, s)
    ensures token <= e <= |s| && (forall k :: token <= k < e ==> s[k] != '/') && (e < |s| ==> s[e] == '/')
    ensures temp[e] == NUL <==> e == |s|
  {
    assert forall k :: token <= k < temp.Length ==> temp[k] == temp[..][k];
    e := token;
    while temp[e] != NUL && temp[e] != '/'
      invariant token <= e <= |s| && forall k :: token <= k < e ==> s[k] != '/'
      decreases |s| - e
    {
      e := e + 1;
    }
    assert e < |s| ==> s[e] in s;
  }

  const NUL: char := '\0'

  // strncpy of a path into a 256-byte buffer, padded with terminators.
  method CopyPath(path: string) returns (temp: array<char>)
    requires NUL !in path
    ensures fresh(temp) && temp.Length == MAX_PATH
    ensures Holds(temp[..], 0, Clip(path, MAX_PATH - 1))
  {
    temp := new char[MAX_PATH](_ => NUL);
    var i := 0;
    while i < MAX_PATH - 1 && i < |path|
      invariant 0 <= i <= |path| && i <= MAX_PATH - 1
      invariant forall k :: 0 <= k < MAX_PATH ==> temp[k] == if k < i then path[k] else NUL
    {
      temp[i] := path[i];
      i := i + 1;
    }
  }

  // What a path resolves to: absolute paths only, cut at 255 characters.
  function LookupIn(t: Tree<Node>, root: Node, path: string): Option<Node> {
    if path == "" || path[0] != '/' then None else Walk(t, root, Components(Clip(path, MAX_PATH - 1)))
  }
}
