// The file system as a map from paths to byte sequences: what each call does to that map, and
// loops of reads and writes on a descriptor.

module Files {
  import opened Options
  import opened Paths
  import opened FsTree
  import opened FileData
  import opened VfsNode
  import opened Vfs
  import opened Creation

  // The bytes of the file that a list of names leads to.
  function FileAt(s: Fs, names: seq<string>): Option<seq<bv8>> {
    var n := Walk(s.tree, s.root, names);
    if n.Some? && n.value in s.tree && n.value in s.files && !s.tree[n.value].dir then Some(s.files[n.value]) else None
  }

  // New bytes for one node: the file at its path changes, and no other.
  lemma OneFileChanges(s: Fs, node: Node, bytes: seq<bv8>, path: seq<string>, names: seq<string>)
    requires TreeOk(s.tree, s.root) && node in s.tree && node in s.files && Walk(s.tree, s.root, path) == Some(node)
    ensures FileAt(s.(files := s.files[node := bytes]), names)
         == if names == path && !s.tree[node].dir then Some(bytes) else FileAt(s, names)
  {
    if Walk(s.tree, s.root, names) == Some(node) {
      PathUnique(s.tree, s.root, names, path);
    }
  }

  // A node that no path leads to shows nowhere.
  lemma HiddenFileChanges(s: Fs, node: Node, bytes: seq<bv8>, names: seq<string>)
    requires Walk(s.tree, s.root, names) != Some(node)
    ensures FileAt(s.(files := s.files[node := bytes]), names) == FileAt(s, names)
  {
  }

  // A created node adds at most the file at its own path, and changes no other.
  lemma CreationAddsFile(s: Fs, s2: Fs, p: string, x: Node, dir: bool, bytes: seq<bv8>, names: seq<string>)
    requires Created(s.tree, s2.tree, s.root, p, x, dir) && s2 == s.(tree := s2.tree, files := s.files[x := bytes])
    requires s.files.Keys == s.tree.Keys
    ensures FileAt(s2, names)
         == if Walk(s.tree, s.root, names) == None && Walk(s2.tree, s.root, names) == Some(x) && !dir then Some(bytes)
            else FileAt(s, names)
  {
    var d, name := Home(s.tree, s.root, p).value, Clip(Leaf(p), MAX_NAME);
    var n := Walk(s.tree, s.root, names);
    WalkAfterAdd(s.tree, s.root, d, x, name, dir, s.root, names);
    if n.Some? {
      AddAt(s.tree, d, x, name, dir, n.value);
    } else {
      AddAt(s.tree, d, x, name, dir, x);
    }
  }

  // mkdir changes no file.
  lemma MkdirKeepsFiles(s: Fs, s2: Fs, path: string, r: Option<Node>, names: seq<string>)
    requires TreeOk(s.tree, s.root) && s.files.Keys == s.tree.Keys
    requires MkdirOutcome(s.tree, s2.tree, s.root, path, r) && s2 == NewState(s, s2.tree, r, [])
    ensures FileAt(s2, names) == FileAt(s, names)
  {
    if s2.tree != s.tree {
      CreationAddsFile(s, s2, Stripped(Clip(path, MAX_PATH - 1)), r.value, true, [], names);
    }
  }

  // The path at which a creation puts its node: the parent's, and the name cut at 127.
  function CutPath(p: string): seq<string> {
    Components(Above(p)) + [Clip(Leaf(p), MAX_NAME)]
  }

  // Opening changes at most one file: an existing one is emptied if that is asked for, and a
  // new one is empty, if the cut name was free; otherwise the new one is hidden.
  lemma OpenChangesOneFile(s: Fs, s2: Fs, path: string, mode: Mode, r: Option<Node>, names: seq<string>)
    requires TreeOk(s.tree, s.root) && s.files.Keys == s.tree.Keys
    requires OpenOutcome(s.tree, s2.tree, s.root, path, mode, r) && s2 == OpenState(s, s2.tree, mode, r)
    ensures var p := Clip(path, MAX_PATH - 1);
      FileAt(s2, names)
      == if LookupIn(s.tree, s.root, path).Some? then
           (if mode.truncate && names == Components(p) && FileAt(s, names).Some? then Some([]) else FileAt(s, names))
         else if r.Some? && names == CutPath(p) && Child(s.tree, Home(s.tree, s.root, p).value, Clip(Leaf(p), MAX_NAME)) == None
           then Some([])
         else FileAt(s, names)
  {
    var p := Clip(path, MAX_PATH - 1);
    if LookupIn(s.tree, s.root, path).Some? {
      if mode.truncate { OneFileChanges(s, r.value, [], Components(p), names); }
    } else if r.Some? {
      CreationAddsFile(s, s2, p, r.value, false, [], names);
      NewPathIs(s, s2, p, r.value, names);
    }
  }

  lemma LeadsToOne(t: Tree<Node>, root: Node, d: Node, name: string, above: seq<string>, names: seq<string>)
    requires TreeOk(t, root) && Walk(t, root, above) == Some(d)
    ensures LeadsTo(t, root, names, d, name) <==> names == above + [name]
    ensures Walk(t, root, above + [name]) == Child(t, d, name)
  {
    var whole := above + [name];
    assert whole[..|whole| - 1] == above;
    WalkLast(t, root, whole);
    if LeadsTo(t, root, names, d, name) {
      PathUnique(t, root, names[..|names| - 1], above);
      assert names == names[..|names| - 1] + [name];
    }
  }

  lemma NewPathIs(s: Fs, s2: Fs, p: string, x: Node, names: seq<string>)
    requires Created(s.tree, s2.tree, s.root, p, x, false)
    ensures Walk(s.tree, s.root, names) == None && Walk(s2.tree, s.root, names) == Some(x)
       <==> names == CutPath(p) && Child(s.tree, Home(s.tree, s.root, p).value, Clip(Leaf(p), MAX_NAME)) == None
  {
    var d, name := Home(s.tree, s.root, p).value, Clip(Leaf(p), MAX_NAME);
    HomeSplits(s.tree, s.root, p);
    LeadsToOne(s.tree, s.root, d, name, Components(Above(p)), names);
    WalkAfterAdd(s.tree, s.root, d, x, name, false, s.root, names);
  }

  // That path is the one asked for when the name fits.
  lemma CutPathIs(p: string)
    requires p != "" && p[0] == '/' && LeafFits(p)
    ensures CutPath(p) == Components(p)
  {
    SplitComponents(p);
  }

  // Data d has been written through descriptor fd, within its file.
  ghost predicate Wrote(files: map<Node, seq<bv8>>, t: seq<Fd>, files2: map<Node, seq<bv8>>, t2: seq<Fd>, fd: nat, d: seq<bv8>) {
    && fd < |t| && t[fd].used && t[fd].node in files && t[fd].offset <= |files[t[fd].node]|
    && files2 == files[t[fd].node := Splice(files[t[fd].node], t[fd].offset, d)]
    && t2 == t[fd := t[fd].(offset := t[fd].offset + |d|)]
  }

  lemma WroteNothing(files: map<Node, seq<bv8>>, t: seq<Fd>, fd: nat)
    requires fd < |t| && t[fd].used && t[fd].node in files && t[fd].offset <= |files[t[fd].node]|
    ensures Wrote(files, t, files, t, fd, [])
  {
    assert Splice(files[t[fd].node], t[fd].offset, []) == files[t[fd].node];
    assert t[fd].(offset := t[fd].offset + 0) == t[fd];
  }

  lemma WroteTwice(files: map<Node, seq<bv8>>, t: seq<Fd>, files1: map<Node, seq<bv8>>, t1: seq<Fd>,
                   files2: map<Node, seq<bv8>>, t2: seq<Fd>, fd: nat, d: seq<bv8>, e: seq<bv8>)
    requires Wrote(files, t, files1, t1, fd, d)
    ensures Wrote(files1, t1, files2, t2, fd, e) ==> Wrote(files, t, files2, t2, fd, d + e)
  {
    SpliceChunks(files[t[fd].node], t[fd].offset, d, e);
  }

  method WriteChunk(v: Vfs, fd: nat, d: seq<bv8>)
    requires v.Valid() && v.IsOpen(fd) && v.fds[fd].offset + |d| < MAX_SIZE
    requires v.fds[fd].offset <= |v.files[v.fds[fd].node]|
    modifies v`files, v.fds, v.tree.Keys`content, v.tree.Keys`capacity, v.tree.Keys`size
    ensures v.Valid() && (old(v.OffsetsOk()) ==> v.OffsetsOk())
    ensures Wrote(old(v.files), old(v.fds[..]), v.files, v.fds[..], fd, d)
  {
    var n, bytes := v.Write(fd, d);
  }

  // Writes of any chunks, one after another, leave the file as one write of them all would.
  method WriteChunks(v: Vfs, fd: nat, chunks: seq<seq<bv8>>)
    requires v.Valid() && v.IsOpen(fd) && v.fds[fd].offset + |Concat(chunks)| < MAX_SIZE
    requires v.fds[fd].offset <= |v.files[v.fds[fd].node]|
    modifies v`files, v.fds, v.tree.Keys`content, v.tree.Keys`capacity, v.tree.Keys`size
    ensures v.Valid() && (old(v.OffsetsOk()) ==> v.OffsetsOk())
    ensures Wrote(old(v.files), old(v.fds[..]), v.files, v.fds[..], fd, Concat(chunks))
    decreases |chunks|
  {
    ghost var files, t := v.files, v.fds[..];
    if chunks == [] {
      WroteNothing(files, t, fd);
    } else {
      WriteChunk(v, fd, chunks[0]);
      ghost var files1, t1 := v.files, v.fds[..];
      assert v.fds[fd] == t1[fd];
      WriteChunks(v, fd, chunks[1..]);
      WroteTwice(files, t, files1, t1, v.files, v.fds[..], fd, chunks[0], Concat(chunks[1..]));
    }
  }

  // What was written is read back from where it was written.
  lemma WrittenIsReadBack(files: map<Node, seq<bv8>>, t: seq<Fd>, files2: map<Node, seq<bv8>>, t2: seq<Fd>, fd: nat, d: seq<bv8>)
    requires Wrote(files, t, files2, t2, fd, d)
    ensures Slice(files2[t[fd].node], t[fd].offset, |d|) == d
  {
    WriteThenRead(files[t[fd].node], t[fd].offset, d);
  }

  // Reading through descriptor fd has yielded `got` so far, and the last read n bytes; what
  // is to come is the rest.
  ghost predicate Reading(file: seq<bv8>, t: seq<Fd>, t2: seq<Fd>, fd: nat, got: seq<bv8>, chunk: nat, n: int) {
    && fd < |t| && chunk > 0 && t2 == t[fd := t[fd].(offset := t[fd].offset + |got|)]
    && SoFar(file, t[fd].offset, chunk, got, n)
  }

  ghost predicate SoFar(file: seq<bv8>, o: nat, chunk: nat, got: seq<bv8>, n: int)
    requires chunk > 0
  {
    ReadAll(file, o, chunk) == got + (if n > 0 then ReadAll(file, o + |got|, chunk) else [])
  }

  lemma ReadingBegins(file: seq<bv8>, t: seq<Fd>, fd: nat, chunk: nat)
    requires fd < |t| && chunk > 0
    ensures Reading(file, t, t, fd, [], chunk, 1)
  {
    assert t[fd].(offset := t[fd].offset + 0) == t[fd];
  }

  lemma SoFarGoesOn(file: seq<bv8>, o: nat, chunk: nat, got: seq<bv8>, more: seq<bv8>)
    requires chunk > 0 && SoFar(file, o, chunk, got, 1) && more == Slice(file, o + |got|, chunk)
    ensures SoFar(file, o, chunk, got + more, |more|)
  {
    var rest := ReadAll(file, o + |got|, chunk);
    if |more| > 0 {
      var tail := ReadAll(file, o + |got + more|, chunk);
      assert rest == more + tail;
      JoinThree(got, more, tail);
    } else {
      assert more == [] && rest == [];
      JoinThree(got, [], []);
    }
  }

  lemma JoinThree(a: seq<bv8>, b: seq<bv8>, c: seq<bv8>)
    ensures a + (b + c) == a + b + c
  {
  }

  lemma MovedTwice(t: seq<Fd>, fd: nat, m: nat, n: nat)
    requires fd < |t|
    ensures var t1 := t[fd := t[fd].(offset := t[fd].offset + m)];
      t1[fd := t1[fd].(offset := t1[fd].offset + n)] == t[fd := t[fd].(offset := t[fd].offset + m + n)]
  {
  }

  lemma ReadingGoesOn(file: seq<bv8>, t: seq<Fd>, t1: seq<Fd>, t2: seq<Fd>, fd: nat, got: seq<bv8>, chunk: nat, more: seq<bv8>)
    requires Reading(file, t, t1, fd, got, chunk, 1) && more == Slice(file, t1[fd].offset, chunk)
    requires t2 == t1[fd := t1[fd].(offset := t1[fd].offset + |more|)]
    ensures Reading(file, t, t2, fd, got + more, chunk, |more|)
  {
    SoFarGoesOn(file, t[fd].offset, chunk, got, more);
    MovedTwice(t, fd, |got|, |more|);
  }

  lemma ReadingEnds(file: seq<bv8>, t: seq<Fd>, t2: seq<Fd>, fd: nat, got: seq<bv8>, chunk: nat)
    requires Reading(file, t, t2, fd, got, chunk, 0)
    ensures got == if t[fd].offset >= |file| then [] else file[t[fd].offset..]
  {
    ReadAllIsSuffix(file, t[fd].offset, chunk);
  }

  // Reads into a buffer, one after another until nothing comes, yield the rest of the file.
  method ReadToEnd(v: Vfs, fd: nat, buffer: array<bv8>) returns (got: seq<bv8>)
    requires v.Valid() && v.IsOpen(fd) && buffer.Length > 0 && (buffer as object) != (v.fds as object)
    modifies v.fds, buffer
    ensures v.Valid() && (old(v.OffsetsOk()) ==> v.OffsetsOk())
    ensures var f := old(v.fds[fd]);
      && f.node in v.files && got == (if f.offset >= |v.files[f.node]| then [] else v.files[f.node][f.offset..])
      && v.fds[..] == old(v.fds[..])[fd := f.(offset := f.offset + |got|)]
  {
    ghost var t := v.fds[..];
    ghost var file := v.files[t[fd].node];
    ReadingBegins(file, t, fd, buffer.Length);
    var n: int := 1;
    got := [];
    while n > 0
      invariant v.Valid() && (old(v.OffsetsOk()) ==> v.OffsetsOk())
      invariant n >= 0 && Reading(file, t, v.fds[..], fd, got, buffer.Length, n)
      decreases if t[fd].offset + |got| >= |file| then 0 else |file| - t[fd].offset - |got|, n
    {
      n := ReadMore(v, fd, buffer, file, t, got);
      got := got + buffer[..n];
    }
    ReadingEnds(file, t, v.fds[..], fd, got, buffer.Length);
  }

  // One turn of the loop.
  method ReadMore(v: Vfs, fd: nat, buffer: array<bv8>, ghost file: seq<bv8>, ghost t: seq<Fd>, ghost got: seq<bv8>) returns (n: int)
    requires v.Valid() && fd < |t| && t[fd].used && t[fd].node in v.files && file == v.files[t[fd].node]
    requires buffer.Length > 0 && (buffer as object) != (v.fds as object)
    requires Reading(file, t, v.fds[..], fd, got, buffer.Length, 1)
    modifies v.fds, buffer
    ensures v.Valid() && (old(v.OffsetsOk()) ==> v.OffsetsOk())
    ensures 0 <= n <= buffer.Length && Reading(file, t, v.fds[..], fd, got + buffer[..n], buffer.Length, n)
    ensures n > 0 ==> t[fd].offset + |got| < |file|
  {
    ghost var t1 := v.fds[..];
    assert v.fds[fd] == t1[fd];
    n := v.Read(fd, buffer, buffer.Length);
    ReadingGoesOn(file, t, t1, v.fds[..], fd, got, buffer.Length, buffer[..n]);
  }
}
