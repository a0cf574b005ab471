// Bitwise operators on unsigned words, kept as natural numbers so that addresses can be used
// in ordinary arithmetic.

module Words {
  function And(a: nat, b: nat): (r: nat)
    ensures r <= a && r <= b
    decreases a
  {
    if a == 0 || b == 0 then 0
    else 2 * And(a / 2, b / 2) + (if a % 2 == 1 && b % 2 == 1 then 1 else 0)
  }

  function Or(a: nat, b: nat): (r: nat)
    ensures r >= a && r >= b
    ensures r == 0 <==> a == 0 && b == 0
    decreases a
  {
    if a == 0 then b else if b == 0 then a
    else 2 * Or(a / 2, b / 2) + (if a % 2 == 1 || b % 2 == 1 then 1 else 0)
  }

  // One bit of the operators at a time: halves and parities.
  lemma AndBit(a: nat, b: nat)
    ensures And(a, b) / 2 == And(a / 2, b / 2)
    ensures And(a, b) % 2 == (if a % 2 == 1 && b % 2 == 1 then 1 else 0)
  {
  }

  lemma OrBit(a: nat, b: nat)
    ensures Or(a, b) / 2 == Or(a / 2, b / 2)
    ensures Or(a, b) % 2 == (if a % 2 == 1 || b % 2 == 1 then 1 else 0)
  {
  }

  lemma SameBits(x: nat, y: nat)
    requires x / 2 == y / 2 && x % 2 == y % 2
    ensures x == y
  {
  }

  lemma {:induction false} AndOr(a: nat, b: nat, c: nat)
    ensures And(Or(a, b), c) == Or(And(a, c), And(b, c))
    decreases a + b
  {
    if a > 0 || b > 0 {
      AndOr(a / 2, b / 2, c / 2);
      OrBit(a, b);
      AndBit(Or(a, b), c);
      AndBit(a, c);
      AndBit(b, c);
      OrBit(And(a, c), And(b, c));
      SameBits(And(Or(a, b), c), Or(And(a, c), And(b, c)));
    }
  }

  lemma {:induction false} AndAnd(a: nat, b: nat, c: nat)
    ensures And(And(a, b), c) == And(a, And(b, c))
    decreases a
  {
    if a > 0 {
      AndAnd(a / 2, b / 2, c / 2);
      AndBit(a, b);
      AndBit(And(a, b), c);
      AndBit(b, c);
      AndBit(a, And(b, c));
      SameBits(And(And(a, b), c), And(a, And(b, c)));
    }
  }

  function Pow2(k: nat): (r: nat)
    ensures r > 0
  {
    if k == 0 then 1 else 2 * Pow2(k - 1)
  }

  lemma AndDouble(x: nat, y: nat)
    ensures And(2 * x, 2 * y) == 2 * And(x, y)
  {
    AndBit(2 * x, 2 * y);
    assert 2 * x / 2 == x && 2 * y / 2 == y;
    SameBits(And(2 * x, 2 * y), 2 * And(x, y));
  }

  lemma {:induction false} AndShift(a: nat, b: nat, k: nat)
    ensures And(Pow2(k) * a, Pow2(k) * b) == Pow2(k) * And(a, b)
  {
    if k > 0 {
      AndShift(a, b, k - 1);
      PowStep(k, a);
      PowStep(k, b);
      PowStep(k, And(a, b));
      AndDouble(Pow2(k - 1) * a, Pow2(k - 1) * b);
    }
  }

  lemma PowStep(k: nat, a: nat)
    requires k > 0
    ensures Pow2(k) * a == 2 * (Pow2(k - 1) * a)
  {
  }

  // A word shifted up by k bits has none of the lowest k.
  lemma {:induction false} AndLow(a: nat, b: nat, k: nat)
    requires b < Pow2(k)
    ensures And(Pow2(k) * a, b) == 0 && And(b, Pow2(k) * a) == 0
    decreases k
  {
    if k > 0 {
      PowStep(k, a);
      AndLow(a, b / 2, k - 1);
      AndEven(Pow2(k - 1) * a, b);
    }
  }

  lemma AndEven(x: nat, b: nat)
    ensures And(2 * x, b) == 2 * And(x, b / 2) && And(b, 2 * x) == 2 * And(b / 2, x)
  {
    AndBit(2 * x, b);
    AndBit(b, 2 * x);
    assert 2 * x / 2 == x;
    SameBits(And(2 * x, b), 2 * And(x, b / 2));
    SameBits(And(b, 2 * x), 2 * And(b / 2, x));
  }

  lemma {:induction false} AndOnes(a: nat, k: nat)
    requires a < Pow2(k)
    ensures And(a, Pow2(k) - 1) == a
  {
    if k > 0 {
      AndOnes(a / 2, k - 1);
    }
  }

  // Division and remainder by 2p, a bit at a time.
  lemma HalfDiv(e: nat, p: nat)
    requires p > 0
    ensures e / 2 / p == e / (2 * p) && 2 * (e / 2 % p) + e % 2 == e % (2 * p)
  {
    var q, r := e / 2 / p, e / 2 % p;
    assert e / 2 == q * p + r;
    assert e == 2 * (q * p + r) + e % 2;
    DivIs(e, 2 * p, q, 2 * r + e % 2);
  }

  lemma DivIs(e: nat, d: nat, q: nat, r: nat)
    requires r < d && e == q * d + r
    ensures e / d == q && e % d == r
  {
    var k := e / d - q;
    assert e == e / d * d + e % d;
    assert k * d == r - e % d;
    assert k >= 1 ==> k * d >= d;
    assert k <= -1 ==> k * d + d <= 0;
  }

  // Masking with k ones is the remainder by the power of two.
  lemma {:induction false} AndMod(a: nat, k: nat)
    ensures And(a, Pow2(k) - 1) == a % Pow2(k)
  {
    if k > 0 {
      AndMod(a / 2, k - 1);
      AndBit(a, Pow2(k) - 1);
      assert (Pow2(k) - 1) / 2 == Pow2(k - 1) - 1;
      HalfDiv(a, Pow2(k - 1));
    } else {
      DivIs(a, 1, a, 0);
    }
  }

  // A word shifted down by k bits.
  function Shifted(e: nat, k: nat): nat {
    if k == 0 then e else Shifted(e / 2, k - 1)
  }

  lemma {:induction false} ShiftedIs(e: nat, k: nat)
    ensures Shifted(e, k) == e / Pow2(k)
  {
    if k > 0 {
      ShiftedIs(e / 2, k - 1);
      HalfDiv(e, Pow2(k - 1));
    } else {
      DivIs(e, 1, e, 0);
    }
  }

  // A mask shifted up by k bits looks at the word shifted down.
  lemma {:induction false} AndHigh(e: nat, m: nat, k: nat)
    ensures And(e, Pow2(k) * m) == Pow2(k) * And(Shifted(e, k), m)
  {
    if k > 0 {
      AndHigh(e / 2, m, k - 1);
      PowStep(k, m);
      AndEven(Pow2(k - 1) * m, e);
      PowStep(k, And(Shifted(e, k), m));
    }
  }

  // A single bit.
  lemma AndOneBit(e: nat, k: nat)
    ensures And(e, Pow2(k)) == Pow2(k) * (Shifted(e, k) % 2)
  {
    AndHigh(e, 1, k);
    AndBit(Shifted(e, k), 1);
    assert And(Shifted(e, k) / 2, 0) == 0;
  }
}
