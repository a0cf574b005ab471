// What the conversions of a format print, by what the printed text reads back as, and how
// formats compose.

module Conversions {
  import opened Paging
  import opened Numerals
  import opened Format

  // A decimal text with a minus sign exactly for negative values.
  ghost predicate ReadsSigned(s: string, v: int) {
    if v < 0 then s != "" && s[0] == '-' && IsNumeral(s[1..], 10) && Value(s[1..], 10) == -v
    else IsNumeral(s, 10) && Value(s, 10) == v
  }

  // itoa in base 10 prints the sign and the value; in other bases it prints the 64-bit word.
  lemma ItoaReads(v: int, b: nat)
    requires -0x8000_0000_0000_0000 <= v < 0x8000_0000_0000_0000 && 2 <= b <= 16
    ensures b == 10 ==> ReadsSigned(ItoaText(v, 10), v)
    ensures b != 10 ==> IsNumeral(ItoaText(v, b), b) && Value(ItoaText(v, b), b) == v % 0x1_0000_0000_0000_0000
  {
    if v < 0 && b == 10 {
      ItoaNegative(v);
    } else {
      NumeralRoundTrip(v % TWO64, b);
    }
  }

  lemma ItoaNegative(v: int)
    requires -0x8000_0000_0000_0000 <= v < 0
    ensures ReadsSigned(ItoaText(v, 10), v)
  {
    var m := -v % TWO64;
    assert m == -v;
    NumeralRoundTrip(m, 10);
    var s := "-" + Numeral(m, 10);
    assert s[1..] == Numeral(m, 10);
  }

  // A word read as a signed 64-bit integer.
  lemma SignedIs(w: nat)
    requires w < 0x1_0000_0000_0000_0000
    ensures -0x8000_0000_0000_0000 <= Signed(w) < 0x8000_0000_0000_0000 && Signed(w) % 0x1_0000_0000_0000_0000 == w
  {
  }

  // What a number conversion prints for a word.
  ghost predicate Reads(c: char, s: string, w: nat) {
    if c == 'u' then IsNumeral(s, 10) && Value(s, 10) == w
    else if c == 'x' then IsNumeral(s, 16) && Value(s, 16) == w
    else exists v: int :: -0x8000_0000_0000_0000 <= v < 0x8000_0000_0000_0000
           && v % 0x1_0000_0000_0000_0000 == w && ReadsSigned(s, v)
  }

  lemma NumberReads(c: char, w: nat)
    requires TakesWord(c) && w < TWO64
    ensures Reads(c, NumberText(c, w), w)
  {
    NumeralRoundTrip(w, 10);
    NumeralRoundTrip(w, 16);
    SignedIs(w);
    ItoaReads(Signed(w), 10);
  }

  lemma ExpandEnd(args: seq<Arg>)
    ensures Complete("", args) && Expand("", args) == ""
  {
  }

  // A format that is a single conversion.
  lemma ExpandItem(fmt: string, args: seq<Arg>)
    requires IsItem(fmt) && ItemOk(fmt, args) && ItemAt(fmt, args).chars == |fmt|
    ensures Complete(fmt, args) && Expand(fmt, args) == ItemAt(fmt, args).piece
  {
    var it := ItemAt(fmt, args);
    ExpandEnd(args[it.args..]);
    assert fmt[it.chars..] == "";
    assert it.piece + "" == it.piece;
  }

  // %u, %x and %d.
  lemma NumberConversion(c: char, w: nat)
    requires (c == 'u' || c == 'x' || c == 'd') && w < 0x1_0000_0000_0000_0000
    ensures Complete(['%', c], [Word(w)]) && Reads(c, Expand(['%', c], [Word(w)]), w)
  {
    NumberReads(c, w);
    ExpandItem(['%', c], [Word(w)]);
  }

  // %s, of a string and of the null pointer.
  lemma StringConversion(s: string)
    ensures Complete("%s", [Text(s)]) && Expand("%s", [Text(s)]) == s
    ensures Complete("%s", [NullText]) && Expand("%s", [NullText]) == "(null)"
  {
    ExpandItem("%s", [Text(s)]);
    ExpandItem("%s", [NullText]);
  }

  // %% is one per cent sign; any other letter is itself, sign included.
  lemma OtherConversion(c: char)
    requires c != '0' && c != 's' && c != 'd' && c != 'u' && c != 'x'
    ensures Complete(['%', c], []) && Expand(['%', c], []) == if c == '%' then "%" else ['%', c]
  {
    ExpandItem(['%', c], []);
  }

  // A character that starts no conversion is itself, and so is a per cent sign at the end.
  lemma PlainCharacter(c: char)
    ensures Complete([c], []) && Expand([c], []) == [c]
  {
    ExpandEnd([]);
    assert [c][1..] == "";
    assert [c] + "" == [c];
  }

  // The text s, with zeros before it up to a length of `width`.
  ghost predicate Padded(r: string, s: string, width: nat) {
    && |r| == (if |s| >= width then |s| else width)
    && r[|r| - |s|..] == s && forall k :: 0 <= k < |r| - |s| ==> r[k] == '0'
  }

  // %0 with a width: the number's plain text, padded; another letter stands for itself.
  lemma PaddedConversion(digits: string, c: char, args: seq<Arg>)
    requires (forall k :: 0 <= k < |digits| ==> '0' <= digits[k] <= '9') && !('0' <= c <= '9')
    requires Value("0" + digits, 10) < 0x8000_0000
    requires if TakesWord(c) then |args| == 1 && args[0].Word? && args[0].w < TWO64 else args == []
    ensures Complete("%0" + digits + [c], args)
    ensures Padded(Expand("%0" + digits + [c], args), if TakesWord(c) then Expand(['%', c], args) else [c],
                   Value("0" + digits, 10))
  {
    var fmt, width, s := "%0" + digits + [c], Value("0" + digits, 10), SpecText(c, args);
    PaddedShape(fmt, digits, c);
    PaddedItem(fmt, args, 1 + |digits|, c, width, s);
    ExpandItem(fmt, args);
    if TakesWord(c) { PlainItem(c, args, s); }
    ZerosPad(s, width);
  }

  lemma PaddedShape(fmt: string, digits: string, c: char)
    requires fmt == "%0" + digits + [c]
    requires (forall k :: 0 <= k < |digits| ==> '0' <= digits[k] <= '9') && !('0' <= c <= '9')
    ensures var k := 1 + |digits|;
      |fmt| == k + 2 && fmt[0] == '%' && fmt[1] == '0' && DigitRun(fmt[1..]) == k
      && fmt[1..1 + k] == "0" + digits && fmt[1 + k] == c
  {
    RunLength(fmt[1..], 1 + |digits|);
  }

  lemma PaddedItem(fmt: string, args: seq<Arg>, k: nat, c: char, width: nat, s: string)
    requires |fmt| == k + 2 && k >= 1 && fmt[0] == '%' && fmt[1] == '0' && DigitRun(fmt[1..]) == k && fmt[1 + k] == c
    requires Value(fmt[1..1 + k], 10) == width < 0x8000_0000 && (TakesWord(c) ==> args != [] && args[0].Word?)
    requires SpecText(c, args) == s
    ensures IsItem(fmt) && ItemOk(fmt, args)
    ensures ItemAt(fmt, args) == Item(Zeros(width - |s|) + s, |fmt|, if TakesWord(c) then 1 else 0)
  {
  }

  lemma PlainItem(c: char, args: seq<Arg>, s: string)
    requires TakesWord(c) && |args| == 1 && args[0].Word? && SpecText(c, args) == s
    ensures Complete(['%', c], args) && Expand(['%', c], args) == s
  {
    ExpandItem(['%', c], args);
  }

  lemma ZerosPad(s: string, width: nat)
    ensures Padded(Zeros(width - |s|) + s, s, width)
  {
  }

  // How many arguments a format uses.
  function Used(fmt: string, args: seq<Arg>): (n: nat)
    requires Complete(fmt, args)
    ensures n <= |args|
    decreases |fmt|
  {
    if fmt == "" then 0
    else if IsItem(fmt) then
      var it := ItemAt(fmt, args);
      it.args + Used(fmt[it.chars..], args[it.args..])
    else Used(fmt[1..], args)
  }

  // The format does not end in the middle of a conversion.
  predicate Closed(fmt: string, args: seq<Arg>)
    requires Complete(fmt, args)
    decreases |fmt|
  {
    if fmt == "" then true
    else if IsItem(fmt) then
      var it := ItemAt(fmt, args);
      Closed(fmt[it.chars..], args[it.args..])
    else fmt[0] != '%' && Closed(fmt[1..], args)
  }

  // What follows does not change a complete conversion.
  lemma ItemExtends(f: string, g: string, args: seq<Arg>)
    requires IsItem(f) && ItemOk(f, args)
    ensures IsItem(f + g) && ItemOk(f + g, args) && ItemAt(f + g, args) == ItemAt(f, args)
    ensures (f + g)[ItemAt(f, args).chars..] == f[ItemAt(f, args).chars..] + g
  {
    var h := f + g;
    assert h[1] == f[1] && h[0] == f[0];
    if f[1] == '0' {
      var k := DigitRun(f[1..]);
      RunExtends(f, g, k);
    }
  }

  lemma RunExtends(f: string, g: string, k: nat)
    requires f != "" && k == DigitRun(f[1..]) && 1 + k < |f|
    ensures DigitRun((f + g)[1..]) == k && (f + g)[1..1 + k] == f[1..1 + k] && (f + g)[1 + k] == f[1 + k]
    ensures (f + g)[2 + k..] == f[2 + k..] + g
  {
    var h := f + g;
    assert h[1..] == f[1..] + g;
    assert f[1..][k] == f[1 + k];
    RunLength(h[1..], k);
  }

  // Formats compose: the second one goes on with the arguments that the first leaves.
  lemma {:induction false} ExpandJoin(f: string, g: string, args: seq<Arg>)
    requires Complete(f, args) && Closed(f, args) && Complete(g, args[Used(f, args)..])
    ensures Complete(f + g, args)
    ensures Expand(f + g, args) == Expand(f, args) + Expand(g, args[Used(f, args)..])
    decreases |f|
  {
    if f == "" {
      assert f + g == g && args[0..] == args;
    } else if IsItem(f) {
      var it, e := ItemAt(f, args), Expand(g, args[Used(f, args)..]);
      FirstItem(f, args, it);
      ExpandJoin(f[it.chars..], g, args[it.args..]);
      JoinItem(f, g, args, it, e);
    } else {
      JoinPlain(f, g, args, Expand(g, args[Used(f, args)..]));
      ExpandJoin(f[1..], g, args);
    }
  }

  // The step over the first conversion, and over a first plain character.
  lemma FirstItem(f: string, args: seq<Arg>, it: Item)
    requires IsItem(f) && Complete(f, args) && it == ItemAt(f, args)
    ensures Complete(f[it.chars..], args[it.args..]) && Expand(f, args) == it.piece + Expand(f[it.chars..], args[it.args..])
    ensures Closed(f, args) ==> Closed(f[it.chars..], args[it.args..])
    ensures args[it.args..][Used(f[it.chars..], args[it.args..])..] == args[Used(f, args)..]
  {
    DropTwice(args, it.args, Used(f[it.chars..], args[it.args..]));
  }

  lemma JoinItem(f: string, g: string, args: seq<Arg>, it: Item, e: string)
    requires IsItem(f) && Complete(f, args) && it == ItemAt(f, args)
    requires var f', args' := f[it.chars..], args[it.args..];
      Complete(f' + g, args') && Expand(f' + g, args') == Expand(f', args') + e
    ensures Complete(f + g, args) && Expand(f + g, args) == Expand(f, args) + e
  {
    ItemExtends(f, g, args);
    ItemFirst(f + g, args, it);
    FirstItem(f, args, it);
    JoinThree(it.piece, Expand(f[it.chars..], args[it.args..]), e);
  }

  lemma ItemFirst(fmt: string, args: seq<Arg>, it: Item)
    requires IsItem(fmt) && ItemOk(fmt, args) && it == ItemAt(fmt, args) && Complete(fmt[it.chars..], args[it.args..])
    ensures Complete(fmt, args) && Expand(fmt, args) == it.piece + Expand(fmt[it.chars..], args[it.args..])
  {
  }

  lemma JoinThree(a: string, b: string, c: string)
    ensures a + (b + c) == a + b + c
  {
  }

  lemma JoinPlain(f: string, g: string, args: seq<Arg>, e: string)
    requires f != "" && !IsItem(f) && Complete(f, args) && Closed(f, args)
    ensures Used(f, args) == Used(f[1..], args) && Closed(f[1..], args)
    ensures Complete(f[1..] + g, args) && Expand(f[1..] + g, args) == Expand(f[1..], args) + e ==>
              Complete(f + g, args) && Expand(f + g, args) == Expand(f, args) + e
  {
    assert (f + g)[1..] == f[1..] + g && (f + g)[0] == f[0];
    JoinThree([f[0]], Expand(f[1..], args), e);
  }

  lemma DropTwice(args: seq<Arg>, m: nat, n: nat)
    requires m + n <= |args|
    ensures args[m..][n..] == args[m + n..]
  {
  }
}
