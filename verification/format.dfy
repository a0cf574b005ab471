// The bounded formatter, against the unbounded expansion of its format, and overlapping copies.

module Format {
  import opened Paging
  import opened Numerals

  // A variadic argument: a 64-bit word, or a string pointer that may be null.
  datatype Arg = Word(w: nat) | Text(s: string) | NullText

  predicate ArgOk(a: Arg) {
    match a case Word(w) => w < TWO64 case Text(s) => NUL !in s case NullText => true
  }

  function Signed(w: nat): int {
    if w < 0x8000_0000_0000_0000 then w else w - TWO64
  }

  predicate IsDigitChar(c: char) {
    '0' <= c <= '9'
  }

  predicate TakesWord(c: char) {
    c == 'd' || c == 'u' || c == 'x'
  }

  function NumberText(c: char, w: nat): string
    requires TakesWord(c)
  {
    if c == 'd' then ItoaText(Signed(w), 10) else Numeral(w, if c == 'u' then 10 else 16)
  }

  function StringText(a: Arg): string {
    match a case Text(s) => s case _ => "(null)"
  }

  function Zeros(n: int): (s: string)
    ensures |s| == if n > 0 then n else 0
  {
    seq(if n > 0 then n else 0, _ => '0')
  }

  // The length of the run of decimal digits at the start of s.
  function DigitRun(s: string): (n: nat)
    ensures n <= |s| && (n < |s| ==> !IsDigitChar(s[n])) && forall k :: 0 <= k < n ==> IsDigitChar(s[k])
  {
    if s == "" || !IsDigitChar(s[0]) then 0 else 1 + DigitRun(s[1..])
  }

  // What a conversion prints, and how many characters of the format and arguments it uses.
  datatype Item = Item(piece: string, chars: nat, args: nat)

  // The format starts with a conversion, complete and with arguments of the right kind.
  predicate ItemOk(fmt: string, args: seq<Arg>)
    requires |fmt| >= 2
  {
    if fmt[1] == '0' then
      var k := DigitRun(fmt[1..]);
      && 1 + k < |fmt| && Value(fmt[1..1 + k], 10) < 0x8000_0000
      && (TakesWord(fmt[1 + k]) ==> args != [] && args[0].Word?)
    else if fmt[1] == 's' then args != [] && !args[0].Word?
    else TakesWord(fmt[1]) ==> args != [] && args[0].Word?
  }

  function ItemAt(fmt: string, args: seq<Arg>): (it: Item)
    requires |fmt| >= 2 && ItemOk(fmt, args)
    ensures 2 <= it.chars <= |fmt| && it.args <= |args|
  {
    if fmt[1] == '0' then
      var k := DigitRun(fmt[1..]);
      var c, pad := fmt[1 + k], Value(fmt[1..1 + k], 10);
      var text := SpecText(c, args);
      Item(Zeros(pad - |text|) + text, 2 + k, if TakesWord(c) then 1 else 0)
    else if fmt[1] == 's' then Item(StringText(args[0]), 2, 1)
    else if TakesWord(fmt[1]) then Item(NumberText(fmt[1], args[0].w), 2, 1)
    else if fmt[1] == '%' then Item("%", 2, 0)
    else Item(['%', fmt[1]], 2, 0)
  }

  predicate IsItem(fmt: string) {
    |fmt| >= 2 && fmt[0] == '%'
  }

  // Every conversion of the format is complete and finds its argument.
  predicate Complete(fmt: string, args: seq<Arg>)
    decreases |fmt|
  {
    if fmt == "" then true
    else if IsItem(fmt) then
      ItemOk(fmt, args) && Complete(fmt[ItemAt(fmt, args).chars..], args[ItemAt(fmt, args).args..])
    else Complete(fmt[1..], args)
  }

  // All that the format says, with no bound.
  function Expand(fmt: string, args: seq<Arg>): string
    requires Complete(fmt, args)
    decreases |fmt|
  {
    if fmt == "" then ""
    else if IsItem(fmt) then
      var it := ItemAt(fmt, args);
      it.piece + Expand(fmt[it.chars..], args[it.args..])
    else [fmt[0]] + Expand(fmt[1..], args)
  }

  // So far pos characters of `all` are in the buffer, of at most limit; `rest` is to come.
  ghost predicate Shown(buf0: string, buf: string, pos: nat, limit: nat, all: string, rest: string) {
    && pos <= limit < |buf| && |buf| == |buf0| && pos <= |all| && buf[..pos] == all[..pos]
    && (forall k :: pos <= k < |buf| ==> buf[k] == buf0[k])
    && (pos < limit ==> all == buf[..pos] + rest)
  }

  // The effect of printing a piece: as much of it as there is room for.
  ghost predicate Emitted(buf: string, buf': string, pos: nat, pos': nat, limit: nat, piece: string) {
    && pos <= limit < |buf| && |buf'| == |buf|
    && pos' == (if pos + |piece| <= limit then pos + |piece| else limit)
    && buf'[..pos'] == buf[..pos] + piece[..pos' - pos]
    && forall k :: pos' <= k < |buf| ==> buf'[k] == buf[k]
  }

  lemma EmittedShown(buf0: string, buf: string, buf': string, pos: nat, pos': nat, limit: nat, all: string, piece: string, rest: string)
    requires Shown(buf0, buf, pos, limit, all, piece + rest) && Emitted(buf, buf', pos, pos', limit, piece)
    ensures Shown(buf0, buf', pos', limit, all, rest)
  {
    if pos < limit {
      assert all == buf[..pos] + (piece + rest);
      assert all[..pos'] == buf[..pos] + piece[..pos' - pos];
    }
  }

  lemma EmittedTwice(buf: string, buf1: string, buf2: string, pos: nat, pos1: nat, pos2: nat, limit: nat, p: string, q: string)
    requires Emitted(buf, buf1, pos, pos1, limit, p) && Emitted(buf1, buf2, pos1, pos2, limit, q)
    ensures Emitted(buf, buf2, pos, pos2, limit, p + q)
  {
    assert (p + q)[..pos2 - pos] == p[..pos1 - pos] + q[..pos2 - pos1];
  }

  method EmitString(buf: array<char>, pos: nat, limit: nat, s: string) returns (pos': nat)
    requires pos <= limit < buf.Length
    modifies buf
    ensures Emitted(old(buf[..]), buf[..], pos, pos', limit, s)
  {
    pos' := pos;
    var j: nat := 0;
    while j < |s| && pos' < limit
      invariant pos' == pos + j && j <= |s| && pos' <= limit
      invariant forall k :: 0 <= k < buf.Length ==> buf[k] == if pos <= k < pos' then s[k - pos] else old(buf[k])
    {
      buf[pos'] := s[j];
      pos' := pos' + 1;
      j := j + 1;
    }
    assert buf[..pos'] == old(buf[..pos]) + s[..j];
  }

  // Prints what a scratch buffer holds up to its terminator.
  method EmitBuffer(buf: array<char>, pos: nat, limit: nat, tmp: array<char>, ghost s: string) returns (pos': nat)
    requires pos <= limit < buf.Length && tmp != buf && |s| < tmp.Length
    requires tmp[..|s|] == s && tmp[|s|] == NUL && NUL !in s
    modifies buf
    ensures Emitted(old(buf[..]), buf[..], pos, pos', limit, s)
  {
    pos' := pos;
    var j: nat := 0;
    while tmp[j] != NUL && pos' < limit
      invariant pos' == pos + j && j <= |s| && pos' <= limit && tmp[..|s|] == s && tmp[|s|] == NUL
      invariant forall k :: 0 <= k < buf.Length ==> buf[k] == if pos <= k < pos' then s[k - pos] else old(buf[k])
      decreases |s| - j
    {
      assert tmp[j] == tmp[..|s|][j];
      buf[pos'] := tmp[j];
      pos' := pos' + 1;
      j := j + 1;
    }
    assert j < |s| ==> tmp[j] == tmp[..|s|][j];
    assert buf[..pos'] == old(buf[..pos]) + s[..j];
  }

  method EmitZeros(buf: array<char>, pos: nat, limit: nat, len: nat, padWidth: nat) returns (pos': nat)
    requires pos <= limit < buf.Length
    modifies buf
    ensures Emitted(old(buf[..]), buf[..], pos, pos', limit, Zeros(padWidth - len))
  {
    pos' := pos;
    var pad := padWidth;
    while len < pad && pos' < limit
      invariant pos' - pos == padWidth - pad && (pad == padWidth || len <= pad) && pos <= pos' <= limit
      invariant forall k :: 0 <= k < buf.Length ==> buf[k] == if pos <= k < pos' then '0' else old(buf[k])
      decreases pad
    {
      buf[pos'] := '0';
      pos' := pos' + 1;
      pad := pad - 1;
    }
    assert buf[..pos'] == old(buf[..pos]) + Zeros(padWidth - len)[..pos' - pos];
  }

  // The text of a number in a scratch buffer.
  method WriteNumber(c: char, w: nat, tmp: array<char>)
    requires TakesWord(c) && w < TWO64 && tmp.Length >= 32
    modifies tmp
    ensures var s := NumberText(c, w); |s| < tmp.Length && tmp[..|s|] == s && tmp[|s|] == NUL && NUL !in s
  {
    NumberTextFits(c, w);
    if c == 'd' {
      Itoa(Signed(w), tmp, 10);
    } else {
      Utoa(w, tmp, 0, if c == 'u' then 10 else 16);
    }
  }

  lemma NumberTextFits(c: char, w: nat)
    requires TakesWord(c) && w < TWO64
    ensures |NumberText(c, w)| <= 23 && NUL !in NumberText(c, w)
  {
    var v := Signed(w);
    var m := if c == 'd' then (if v < 0 then -v % TWO64 else v % TWO64) else w;
    NumeralFits(m, 10);
    NumeralFits(m, 16);
    DigitsNotNul(m, 10);
    DigitsNotNul(m, 16);
  }

  method EmitNumber(buf: array<char>, pos: nat, limit: nat, c: char, w: nat) returns (pos': nat)
    requires pos <= limit < buf.Length && TakesWord(c) && w < TWO64
    modifies buf
    ensures Emitted(old(buf[..]), buf[..], pos, pos', limit, NumberText(c, w))
  {
    var tmp := new char[32];
    WriteNumber(c, w, tmp);
    pos' := EmitBuffer(buf, pos, limit, tmp, NumberText(c, w));
  }

  // The pad width at fmt[i..], and the index of the character after its digits.
  method ReadPadWidth(fmt: string, i: nat) returns (pad: nat, next: nat)
    requires i <= |fmt|
    ensures next == i + DigitRun(fmt[i..]) && pad == Value(fmt[i..next], 10)
  {
    pad, next := 0, i;
    while next < |fmt| && IsDigitChar(fmt[next])
      invariant i <= next <= |fmt| && pad == Value(fmt[i..next], 10)
      invariant forall k :: i <= k < next ==> IsDigitChar(fmt[k])
    {
      OneMoreDigit(fmt, i, next);
      pad := pad * 10 + (fmt[next] as nat - '0' as nat);
      next := next + 1;
    }
    RunLength(fmt[i..], next - i);
  }

  lemma OneMoreDigit(s: string, i: nat, n: nat)
    requires i <= n < |s|
    ensures Value(s[i..n + 1], 10) == Value(s[i..n], 10) * 10 + DigitValue(s[n])
  {
    var t := s[i..n + 1];
    assert |t| == n + 1 - i && t[|t| - 1] == s[n];
    assert t[..|t| - 1] == s[i..n];
  }

  lemma RunLength(s: string, n: nat)
    requires n <= |s| && (n < |s| ==> !IsDigitChar(s[n])) && forall k :: 0 <= k < n ==> IsDigitChar(s[k])
    ensures n == DigitRun(s)
  {
  }

  // A zero-padded conversion, starting at the first pad digit.
  method EmitPadded(buf: array<char>, pos: nat, limit: nat, fmt: string, i: nat, args: seq<Arg>, a: nat)
    returns (pos': nat, i': nat, a': nat)
    requires pos <= limit < buf.Length && 1 <= i < |fmt| && a <= |args| && fmt[i] == '0'
    requires NUL !in fmt && ItemOk(fmt[i - 1..], args[a..]) && forall k :: 0 <= k < |args| ==> ArgOk(args[k])
    modifies buf
    ensures var it := ItemAt(fmt[i - 1..], args[a..]);
      Emitted(old(buf[..]), buf[..], pos, pos', limit, it.piece) && i' == i - 1 + it.chars && a' == a + it.args
  {
    var pad, next := ReadPadWidth(fmt, i);
    PaddedItem(fmt, i, args, a, pad, next);
    var c := fmt[next];
    var tmp, len, used := PaddedText(c, args, a);
    i', a' := next + 1, a + used;
    pos' := EmitZeros(buf, pos, limit, len, pad);
    ghost var mid, pos1, text := buf[..], pos', SpecText(c, args[a..]);
    pos' := EmitBuffer(buf, pos', limit, tmp, text);
    EmittedTwice(old(buf[..]), mid, buf[..], pos, pos1, pos', limit, Zeros(pad - |text|), text);
  }

  // The padded conversion at fmt[i - 1..], by indices into the whole format.
  lemma PaddedItem(fmt: string, i: nat, args: seq<Arg>, a: nat, pad: nat, next: nat)
    requires 1 <= i < |fmt| && a <= |args| && fmt[i] == '0' && ItemOk(fmt[i - 1..], args[a..])
    requires next == i + DigitRun(fmt[i..]) && pad == Value(fmt[i..next], 10)
    ensures next < |fmt| && (TakesWord(fmt[next]) ==> a < |args| && args[a].Word?)
    ensures var text := SpecText(fmt[next], args[a..]);
      ItemAt(fmt[i - 1..], args[a..])
      == Item(Zeros(pad - |text|) + text, next + 2 - i, if TakesWord(fmt[next]) then 1 else 0)
  {
    var f := fmt[i - 1..];
    assert f[1..] == fmt[i..];
    assert f[1..1 + (next - i)] == fmt[i..next] && f[1 + (next - i)] == fmt[next];
    assert a < |args| ==> args[a..][0] == args[a];
  }

  // What a padded conversion prints after the padding; an unknown one prints its letter.
  function SpecText(c: char, args: seq<Arg>): string
    requires TakesWord(c) ==> args != [] && args[0].Word?
  {
    if TakesWord(c) then NumberText(c, args[0].w) else [c]
  }

  method PaddedText(c: char, args: seq<Arg>, a: nat) returns (tmp: array<char>, len: nat, used: nat)
    requires a <= |args| && (TakesWord(c) ==> a < |args| && args[a].Word? && args[a].w < TWO64) && c != NUL
    ensures fresh(tmp) && used == if TakesWord(c) then 1 else 0
    ensures var s := SpecText(c, args[a..]);
      len == |s| < tmp.Length && tmp[..|s|] == s && tmp[|s|] == NUL && NUL !in s
  {
    tmp := new char[64];
    if TakesWord(c) {
      WriteNumber(c, args[a].w, tmp);
      len := TextLength(tmp, NumberText(c, args[a].w));
      used := 1;
    } else {
      tmp[0], tmp[1] := c, NUL;
      assert tmp[..1] == [c];
      len, used := 1, 0;
    }
  }

  method TextLength(tmp: array<char>, ghost s: string) returns (len: nat)
    requires |s| < tmp.Length && tmp[..|s|] == s && tmp[|s|] == NUL && NUL !in s
    ensures len == |s|
  {
    len := 0;
    assert forall k :: 0 <= k < |s| ==> tmp[k] == tmp[..|s|][k] == s[k];
    while tmp[len] != NUL
      invariant len <= |s| && forall k :: 0 <= k < |s| ==> tmp[k] == s[k] && s[k] != NUL
      decreases |s| - len
    {
      len := len + 1;
    }
  }

  // One conversion, its '%' at i - 1.
  method EmitItem(buf: array<char>, pos: nat, limit: nat, fmt: string, i: nat, args: seq<Arg>, a: nat)
    returns (pos': nat, i': nat, a': nat)
    requires pos < limit < buf.Length && 1 <= i < |fmt| && a <= |args|
    requires NUL !in fmt && ItemOk(fmt[i - 1..], args[a..]) && forall k :: 0 <= k < |args| ==> ArgOk(args[k])
    modifies buf
    ensures var it := ItemAt(fmt[i - 1..], args[a..]);
      Emitted(old(buf[..]), buf[..], pos, pos', limit, it.piece) && i' == i - 1 + it.chars && a' == a + it.args
  {
    ghost var f := fmt[i - 1..];
    assert f[1] == fmt[i];
    assert a < |args| ==> args[a..][0] == args[a];
    var c := fmt[i];
    if c == '0' {
      pos', i', a' := EmitPadded(buf, pos, limit, fmt, i, args, a);
    } else if c == 's' {
      var s := if args[a].NullText? then "(null)" else args[a].s;
      pos' := EmitString(buf, pos, limit, s);
      i', a' := i + 1, a + 1;
    } else if TakesWord(c) {
      pos' := EmitNumber(buf, pos, limit, c, args[a].w);
      i', a' := i + 1, a + 1;
    } else if c == '%' {
      buf[pos] := '%';
      pos', i', a' := pos + 1, i + 1, a;
      assert buf[..pos'] == old(buf[..pos]) + "%"[..1];
    } else {
      buf[pos] := '%';
      pos' := pos + 1;
      if pos' < limit {
        buf[pos'] := c;
        pos' := pos' + 1;
      }
      i', a' := i + 1, a;
      assert buf[..pos'] == old(buf[..pos]) + ['%', c][..pos' - pos];
    }
  }

  // One turn of the formatter's loop: the next conversion, or one character copied.
  method EmitNext(buf: array<char>, pos: nat, limit: nat, fmt: string, i: nat, args: seq<Arg>, a: nat)
    returns (pos': nat, i': nat, a': nat, ghost piece: string)
    requires pos < limit < buf.Length && i < |fmt| && a <= |args|
    requires NUL !in fmt && Complete(fmt[i..], args[a..]) && forall k :: 0 <= k < |args| ==> ArgOk(args[k])
    modifies buf
    ensures Emitted(old(buf[..]), buf[..], pos, pos', limit, piece)
    ensures i < i' <= |fmt| && a' <= |args| && Complete(fmt[i'..], args[a'..])
    ensures Expand(fmt[i..], args[a..]) == piece + Expand(fmt[i'..], args[a'..])
  {
    ghost var f, r := fmt[i..], args[a..];
    if fmt[i] == '%' && i + 1 < |fmt| {
      ghost var it := ItemAt(f, r);
      piece := it.piece;
      pos', i', a' := EmitItem(buf, pos, limit, fmt, i + 1, args, a);
      assert fmt[i'..] == f[it.chars..] && args[a'..] == r[it.args..];
    } else {
      piece := [fmt[i]];
      buf[pos] := fmt[i];
      pos', i', a' := pos + 1, i + 1, a;
      assert fmt[i'..] == f[1..] && buf[..pos'] == old(buf[..pos]) + piece[..1];
    }
  }

  // With a buffer of `size` bytes, exactly the first size - 1 characters of the expansion are
  // written, then a terminator; the number written is returned.
  method Ksnprintf(buf: array<char>, size: nat, fmt: string, args: seq<Arg>) returns (n: nat)
    requires size <= buf.Length && NUL !in fmt && Complete(fmt, args)
    requires forall k :: 0 <= k < |args| ==> ArgOk(args[k])
    modifies buf
    ensures size == 0 ==> n == 0 && buf[..] == old(buf[..])
    ensures size > 0 ==>
              var all := Expand(fmt, args);
              && n == (if |all| < size then |all| else size - 1)
              && buf[..n] == all[..n] && buf[n] == NUL
              && forall k :: n < k < buf.Length ==> buf[k] == old(buf[k])
  {
    if size == 0 { return 0; }
    ghost var buf0, all := buf[..], Expand(fmt, args);
    var pos: nat, i: nat, a: nat := 0, 0, 0;
    var limit := size - 1;
    assert fmt[0..] == fmt && args[0..] == args;
    while i < |fmt| && pos < limit
      invariant i <= |fmt| && a <= |args| && Complete(fmt[i..], args[a..])
      invariant Shown(buf0, buf[..], pos, limit, all, Expand(fmt[i..], args[a..]))
      decreases |fmt| - i
    {
      ghost var before, pos0, piece := buf[..], pos, "";
      pos, i, a, piece := EmitNext(buf, pos, limit, fmt, i, args, a);
      EmittedShown(buf0, before, buf[..], pos0, pos, limit, all, piece, Expand(fmt[i..], args[a..]));
    }
    assert pos < limit ==> all == buf[..pos];
    buf[pos] := NUL;
    return pos;
  }
}

module Copying {
  // memmove within one buffer: the destination ends up with what the source held, even when
  // the two overlap, and nothing else changes.
  method Memmove(a: array<bv8>, dest: nat, src: nat, count: nat)
    requires dest + count <= a.Length && src + count <= a.Length
    modifies a
    ensures forall k :: 0 <= k < a.Length ==>
              a[k] == if dest <= k < dest + count then old(a[src + (k - dest)]) else old(a[k])
  {
    if dest < src {
      for i := 0 to count
        invariant forall k :: 0 <= k < a.Length ==>
                    a[k] == if dest <= k < dest + i then old(a[src + (k - dest)]) else old(a[k])
      {
        a[dest + i] := a[src + i];
      }
    } else if dest > src {
      for i := count downto 0
        invariant forall k :: 0 <= k < a.Length ==>
                    a[k] == if dest + i <= k < dest + count then old(a[src + (k - dest)]) else old(a[k])
      {
        a[dest + i] := a[src + i];
      }
    }
  }
}
