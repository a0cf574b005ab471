// Integer to text conversion: the numeral of a value in a base from 2 to 16, and the two
// routines that write it.

module Numerals {
  import opened Paging
  import opened Words

  const NUL: char := '\0'
  const DIGITS: string := "0123456789abcdef"

  predicate IsBase(b: int) {
    2 <= b <= 16
  }

  function Digit(d: nat): (c: char)
    requires d < 16
  {
    DIGITS[d]
  }

  function DigitValue(c: char): nat {
    if '0' <= c <= '9' then c as nat - '0' as nat
    else if 'a' <= c <= 'f' then c as nat - 'a' as nat + 10
    else 16
  }

  // The sixteen digits.
  lemma DigitsAre(d: nat)
    requires d < 16
    ensures Digit(d) == "0123456789abcdef"[d] && DigitValue("0123456789abcdef"[d]) == d
  {
    DigitRoundTrip(d);
  }

  lemma DigitRoundTrip(d: nat)
    requires d < 16
    ensures DigitValue(Digit(d)) == d && Digit(d) != NUL
  {
    if d == 0 {} else if d == 1 {} else if d == 2 {} else if d == 3 {} else if d == 4 {} else if d == 5 {}
    else if d == 6 {} else if d == 7 {} else if d == 8 {} else if d == 9 {} else if d == 10 {} else if d == 11 {}
    else if d == 12 {} else if d == 13 {} else if d == 14 {} else { assert d == 15; }
  }

  lemma DigitOfValue(c: char)
    requires DigitValue(c) < 16
    ensures Digit(DigitValue(c)) == c
  {
    DigitRoundTrip(DigitValue(c));
  }

  lemma DivStep(v: nat, b: nat)
    requires b >= 2
    ensures v == v / b * b + v % b && v % b < b && 2 * (v / b) <= v
  {
    TwiceBelow(v / b, b);
  }

  lemma TwiceBelow(q: nat, b: nat)
    requires b >= 2
    ensures 2 * q <= q * b
  {
    assert q * (b - 2) >= 0;
  }

  // The digits of v, most significant first; none for zero.
  function DigitsOf(v: nat, b: nat): (s: string)
    requires IsBase(b)
    ensures v > 0 ==> s != ""
    decreases v
  {
    if v == 0 then "" else
      DivStep(v, b);
      DigitsOf(v / b, b) + [Digit(v % b)]
  }

  function Numeral(v: nat, b: nat): (s: string)
    requires IsBase(b)
    ensures s != ""
  {
    if v == 0 then "0" else DigitsOf(v, b)
  }

  function Value(s: string, b: nat): nat {
    if s == "" then 0 else Value(s[..|s| - 1], b) * b + DigitValue(s[|s| - 1])
  }

  predicate IsNumeral(s: string, b: nat) {
    s != "" && (forall i :: 0 <= i < |s| ==> DigitValue(s[i]) < b) && (s[0] == '0' ==> |s| == 1)
  }

  // Digits below b that read back as v, with no leading zero.
  ghost predicate Spells(s: string, v: nat, b: nat) {
    Value(s, b) == v && (forall i :: 0 <= i < |s| ==> DigitValue(s[i]) < b) && (s != "" ==> s[0] != '0')
  }

  lemma SpellsMore(front: string, q: nat, d: nat, b: nat)
    requires IsBase(b) && d < b && Spells(front, q, b) && (front == "" ==> d != 0)
    ensures Spells(front + [Digit(d)], q * b + d, b)
  {
    var s := front + [Digit(d)];
    DigitRoundTrip(d);
    assert s[..|s| - 1] == front;
    if front == "" { DigitRoundTrip(0); }
  }

  lemma {:induction false} DigitsRoundTrip(v: nat, b: nat)
    requires IsBase(b)
    ensures Spells(DigitsOf(v, b), v, b)
    decreases v
  {
    if v > 0 {
      DivStep(v, b);
      DigitsRoundTrip(v / b, b);
      SpellsMore(DigitsOf(v / b, b), v / b, v % b, b);
    }
  }

  // The numeral has no leading zero and reads back as the value.
  lemma NumeralRoundTrip(v: nat, b: nat)
    requires IsBase(b)
    ensures IsNumeral(Numeral(v, b), b) && Value(Numeral(v, b), b) == v
  {
    DigitsRoundTrip(v, b);
    assert Value("0", b) == Value("", b) * b + 0;
  }

  lemma {:induction false} DigitsUnique(s: string, b: nat)
    requires IsBase(b) && (forall i :: 0 <= i < |s| ==> DigitValue(s[i]) < b)
    requires s != "" ==> s[0] != '0'
    ensures s == DigitsOf(Value(s, b), b)
  {
    if s != "" {
      var front, d := s[..|s| - 1], DigitValue(s[|s| - 1]);
      DigitsUnique(front, b);
      DigitOfValue(s[|s| - 1]);
      var v := Value(front, b);
      ValuePositive(s, b);
      QuotientIs(v, d, b);
      assert s == front + [s[|s| - 1]];
    }
  }

  lemma QuotientIs(q: nat, d: nat, b: nat)
    requires d < b
    ensures (q * b + d) / b == q && (q * b + d) % b == d
  {
    var x := q * b + d;
    assert x == x / b * b + x % b;
    var e := x / b - q;
    assert e * b == d - x % b;
    assert e >= 1 ==> e * b >= b;
    assert e <= -1 ==> e * b + b <= 0;
  }

  lemma {:induction false} ValuePositive(s: string, b: nat)
    requires IsBase(b) && s != "" && s[0] != '0' && DigitValue(s[0]) < b
    ensures Value(s, b) > 0
  {
    if |s| == 1 {
      assert s[..0] == "";
    } else {
      ValuePositive(s[..|s| - 1], b);
    }
  }

  // It is the only one that does.
  lemma NumeralUnique(s: string, b: nat)
    requires IsBase(b) && IsNumeral(s, b)
    ensures s == Numeral(Value(s, b), b)
  {
    if s[0] == '0' {
      assert s == "0" && s[..0] == "";
    } else {
      DigitsUnique(s, b);
      ValuePositive(s, b);
    }
  }

  // v below 2^k has at most k digits in any base.
  lemma {:induction false} DigitsLength(v: nat, b: nat, k: nat)
    requires IsBase(b) && v < Pow2(k)
    ensures |DigitsOf(v, b)| <= k
  {
    if v > 0 {
      DivStep(v, b);
      DigitsLength(v / b, b, k - 1);
    }
  }

  lemma Pow2At64()
    ensures Pow2(64) == TWO64
  {
    assert Pow2(10) == 0x400;
    assert Pow2(20) == 0x10_0000;
    assert Pow2(30) == 0x4000_0000;
    assert Pow2(40) == 0x100_0000_0000;
    assert Pow2(50) == 0x4_0000_0000_0000;
    assert Pow2(60) == 0x1000_0000_0000_0000;
    assert Pow2(64) == TWO64;
  }

  lemma DigitsFit(v: nat, b: nat)
    requires IsBase(b) && v < TWO64
    ensures |DigitsOf(v, b)| <= 64
  {
    Pow2At64();
    DigitsLength(v, b, 64);
  }

  lemma EighthBelow(v: nat, b: nat)
    requires b >= 8
    ensures 8 * (v / b) <= v
  {
    var q := v / b;
    assert v == q * b + v % b;
    assert q * (b - 8) >= 0;
  }

  function Pow8(k: nat): nat {
    if k == 0 then 1 else 8 * Pow8(k - 1)
  }

  // Three bits a digit from base 8 up: a 64-bit word has at most 22.
  lemma {:induction false} DigitsLengthFrom8(v: nat, b: nat, k: nat)
    requires IsBase(b) && b >= 8 && v < Pow8(k)
    ensures |DigitsOf(v, b)| <= k
  {
    if v > 0 {
      EighthBelow(v, b);
      DigitsLengthFrom8(v / b, b, k - 1);
    }
  }

  lemma NumeralFits(v: nat, b: nat)
    requires IsBase(b) && b >= 8 && v < TWO64
    ensures |Numeral(v, b)| <= 22
  {
    assert Pow8(8) == 0x100_0000;
    assert Pow8(16) == 0x1_0000_0000_0000;
    assert Pow8(22) == 4 * TWO64;
    DigitsLengthFrom8(v, b, 22);
  }

  lemma {:induction false} DigitsNotNul(v: nat, b: nat)
    requires IsBase(b)
    ensures NUL !in DigitsOf(v, b)
    decreases v
  {
    if v > 0 {
      DivStep(v, b);
      DigitsNotNul(v / b, b);
      DigitRoundTrip(v % b);
    }
  }

  // What utoa and itoa write: nothing for a base they do not know.
  function UtoaText(v: nat, base: int): string {
    if IsBase(base) then Numeral(v, base) else ""
  }

  function ItoaText(v: int, base: int): string {
    if v < 0 && base == 10 then "-" + Numeral(-v % TWO64, 10) else UtoaText(v % TWO64, base)
  }

  // The buffer now holds s and a terminator from `at` on, and is otherwise as it was.
  ghost predicate Written(before: string, after: string, at: nat, s: string) {
    && |after| == |before| && at + |s| < |after|
    && forall k :: 0 <= k < |after| ==>
         after[k] == if at <= k < at + |s| then s[k - at] else if k == at + |s| then NUL else before[k]
  }

  // tmp[..i] holds the last i digits of the numeral s, last digit first.
  ghost predicate ReversedTail(tmp: string, i: nat, s: string) {
    i <= |tmp| && i <= |s| && forall k :: 0 <= k < i ==> tmp[k] == s[|s| - 1 - k]
  }

  method Utoa(value: nat, dest: array<char>, at: nat, base: int)
    requires value < TWO64 && at + |UtoaText(value, base)| < dest.Length
    modifies dest
    ensures Written(old(dest[..]), dest[..], at, UtoaText(value, base))
  {
    if base < 2 || base > 16 {
      dest[at] := NUL;
      return;
    }
    if value == 0 {
      dest[at] := '0';
      dest[at + 1] := NUL;
      return;
    }
    var tmp := new char[65];
    var i := ReverseDigits(value, tmp, base);
    CopyReversed(tmp, i, dest, at, DigitsOf(value, base));
  }

  // utoa's second loop: the digits in order, and the terminator.
  method CopyReversed(tmp: array<char>, n: nat, dest: array<char>, at: nat, ghost s: string)
    requires tmp != dest && n == |s| && ReversedTail(tmp[..], n, s) && at + n < dest.Length
    modifies dest
    ensures Written(old(dest[..]), dest[..], at, s)
  {
    var i, j: nat := n, 0;
    while i > 0
      invariant 0 <= i && i + j == n && n <= tmp.Length
      invariant forall k :: 0 <= k < n ==> tmp[k] == s[n - 1 - k]
      invariant forall k :: 0 <= k < dest.Length ==> dest[k] == if at <= k < at + j then s[k - at] else old(dest[k])
    {
      i := i - 1;
      dest[at + j] := tmp[i];
      j := j + 1;
    }
    dest[at + j] := NUL;
  }

  // utoa's first loop: the digits, last one first.
  method ReverseDigits(value: nat, tmp: array<char>, base: nat) returns (i: nat)
    requires value < TWO64 && IsBase(base) && tmp.Length == 65
    modifies tmp
    ensures i == |DigitsOf(value, base)| && ReversedTail(tmp[..], i, DigitsOf(value, base))
  {
    DigitsFit(value, base);
    ghost var s := DigitsOf(value, base);
    var v: nat := value;
    i := 0;
    while v > 0
      invariant 0 <= i <= |s| <= 64 && DigitsOf(v, base) == s[..|s| - i]
      invariant forall k :: 0 <= k < i ==> tmp[k] == s[|s| - 1 - k]
      decreases v
    {
      tmp[i], v := TakeDigit(v, base, s, i);
      i := i + 1;
    }
  }

  method TakeDigit(v: nat, base: nat, ghost s: string, ghost i: nat) returns (c: char, rest: nat)
    requires IsBase(base) && v > 0 && i <= |s| && DigitsOf(v, base) == s[..|s| - i]
    ensures i < |s| && rest < v && c == s[|s| - 1 - i] && DigitsOf(rest, base) == s[..|s| - i - 1]
  {
    LastDigit(v, base, s, i);
    c := DIGITS[v % base];
    rest := v / base;
  }

  lemma LastDigit(v: nat, b: nat, s: string, i: nat)
    requires IsBase(b) && v > 0 && i <= |s| && DigitsOf(v, b) == s[..|s| - i]
    ensures i < |s| && v % b < b && v / b < v
    ensures s[|s| - 1 - i] == Digit(v % b) && DigitsOf(v / b, b) == s[..|s| - i - 1]
  {
    DivStep(v, b);
    var front, t := DigitsOf(v / b, b), DigitsOf(v, b);
    assert t == front + [Digit(v % b)];
    DropLast(s, i, front, Digit(v % b));
  }

  lemma DropLast(s: string, i: nat, front: string, c: char)
    requires i <= |s| && front + [c] == s[..|s| - i]
    ensures i < |s| && s[|s| - 1 - i] == c && front == s[..|s| - i - 1]
  {
    var t := s[..|s| - i];
    assert t[|t| - 1] == c && t[..|t| - 1] == front;
  }

  // value is a signed 64-bit integer; its negation wraps at 2^64.
  method Itoa(value: int, dest: array<char>, base: int)
    requires -0x8000_0000_0000_0000 <= value < 0x8000_0000_0000_0000
    requires |ItoaText(value, base)| < dest.Length
    modifies dest
    ensures Written(old(dest[..]), dest[..], 0, ItoaText(value, base))
  {
    if value < 0 && base == 10 {
      dest[0] := '-';
      Utoa(-value % TWO64, dest, 1, base);
    } else {
      Utoa(value % TWO64, dest, 0, base);
    }
  }
}
