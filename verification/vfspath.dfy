// Absolute paths: their non-empty components, and the split into parent and last name.

module Paths {
  const MAX_PATH: nat := 256
  const MAX_NAME: nat := 127

  // strncpy into a buffer of n + 1 bytes, then terminated.
  function Clip(s: string, n: nat): (r: string)
    ensures |r| <= n && r <= s && (if |s| <= n then r == s else |r| == n)
  {
    if |s| <= n then s else s[..n]
  }

  // The number of characters before the first slash.
  function RunLength(s: string): (n: nat)
    ensures n <= |s| && (forall k :: 0 <= k < n ==> s[k] != '/') && (n < |s| ==> s[n] == '/')
  {
    if s == "" || s[0] == '/' then 0 else 1 + RunLength(s[1..])
  }

  lemma RunLengthIs(s: string, n: nat)
    requires n <= |s| && (forall k :: 0 <= k < n ==> s[k] != '/') && (n < |s| ==> s[n] == '/')
    ensures n == RunLength(s)
  {
  }

  // The non-empty names between slashes.
  function Components(s: string): (c: seq<string>)
    ensures forall i :: 0 <= i < |c| ==> c[i] != "" && '/' !in c[i]
    decreases |s|
  {
    if s == "" then []
    else if s[0] == '/' then Components(s[1..])
    else [s[..RunLength(s)]] + Components(s[RunLength(s)..])
  }

  lemma {:induction false} ComponentsOfName(s: string)
    requires '/' !in s
    ensures Components(s) == if s == "" then [] else [s]
  {
    if s != "" {
      RunLengthIs(s, |s|);
      assert s[..|s|] == s && s[|s|..] == "";
    }
  }

  // A slash only separates.
  lemma {:induction false} ComponentsJoin(a: string, b: string)
    ensures Components(a + "/" + b) == Components(a) + Components(b)
    decreases |a|
  {
    var s := a + "/" + b;
    if a == "" {
      assert s[1..] == b;
    } else if a[0] == '/' {
      assert s[1..] == a[1..] + "/" + b;
      ComponentsJoin(a[1..], b);
    } else {
      var n := RunLength(a);
      JoinRun(a, b, n);
      ComponentsJoin(a[n..], b);
    }
  }

  lemma JoinRun(a: string, b: string, n: nat)
    requires a != "" && a[0] != '/' && n == RunLength(a)
    ensures var s := a + "/" + b;
      n > 0 && s[0] == a[0] && RunLength(s) == n && s[..n] == a[..n] && s[n..] == a[n..] + "/" + b
  {
    var s := a + "/" + b;
    assert forall k :: 0 <= k < |a| ==> s[k] == a[k];
    RunLengthIs(s, n);
  }

  lemma TrailingSlash(a: string)
    ensures Components(a + "/") == Components(a)
  {
    ComponentsJoin(a, "");
    assert a + "/" + "" == a + "/";
  }

  // Repeated and trailing slashes make no difference.
  lemma SlashesCollapse(a: string, b: string)
    ensures Components(a + "//" + b) == Components(a + "/" + b)
    ensures Components(a + "/") == Components(a)
  {
    ComponentsJoin(a, b);
    ComponentsJoin(a, "/" + b);
    TrailingSlash(a);
    assert a + "/" + ("/" + b) == a + "//" + b;
    assert ("/" + b)[1..] == b;
  }

  // The index of the last slash, or -1.
  function LastSlash(s: string): (i: int)
    ensures -1 <= i < |s| && (i >= 0 ==> s[i] == '/') && forall k :: i < k < |s| ==> s[k] != '/'
  {
    if s == "" then -1 else if s[|s| - 1] == '/' then |s| - 1 else LastSlash(s[..|s| - 1])
  }

  lemma LastSlashIs(s: string, i: int)
    requires -1 <= i < |s| && (i >= 0 ==> s[i] == '/') && forall k :: i < k < |s| ==> s[k] != '/'
    ensures i == LastSlash(s)
  {
  }

  function Leaf(s: string): string {
    s[LastSlash(s) + 1..]
  }

  function Above(s: string): string {
    if LastSlash(s) <= 0 then "" else s[..LastSlash(s)]
  }

  lemma SplitComponents(s: string)
    requires s != "" && s[0] == '/'
    ensures '/' !in Leaf(s) && LastSlash(s) >= 0
    ensures Components(s) == Components(Above(s)) + (if Leaf(s) == "" then [] else [Leaf(s)])
  {
    var i := LastSlash(s);
    assert s == s[..i] + "/" + s[i + 1..];
    ComponentsJoin(s[..i], s[i + 1..]);
    ComponentsOfName(s[i + 1..]);
    assert i == 0 ==> s[..i] == "";
  }

  // One token at a time: the characters from t up to a slash or the end, and what follows.
  lemma NextToken(s: string, t: nat, e: nat)
    requires t <= e <= |s| && (forall k :: t <= k < e ==> s[k] != '/') && (e < |s| ==> s[e] == '/')
    ensures Components(s[t..])
         == (if e == t then [] else [s[t..e]]) + (if e < |s| then Components(s[e + 1..]) else [])
  {
    var r := s[t..];
    RunLengthIs(r, e - t);
    assert r[..e - t] == s[t..e] && r[e - t..] == s[e..];
    if e < |s| {
      assert s[e..][1..] == s[e + 1..];
    } else {
      assert s[e..] == "";
    }
  }
}
