/**
  Powers and logarithms, for the bounds on the work of the operations.
 */
module Arithmetic {

  ghost function Max(a: nat, b: nat): nat {
    if a < b then b else a
  }

  ghost function Pow2(n: nat): nat {
    if n == 0 then 1 else 2 * Pow2(n - 1)
  }

  lemma SquareMonotone(a: nat, b: nat)
    requires a <= b
    ensures a * a <= b * b
  {
    assert a * a <= a * b <= b * b;
  }

  lemma {:induction false} Pow2Double(n: nat)
    ensures Pow2(2 * n) == Pow2(n) * Pow2(n)
  {
    if n == 0 {
    } else {
      Pow2Double(n - 1);
      assert Pow2(2 * n) == 2 * (2 * Pow2(2 * n - 2));
    }
  }

  lemma {:induction false} Pow2Monotone(m: nat, n: nat)
    requires m <= n
    ensures Pow2(m) <= Pow2(n)
    decreases n
  {
    if m == n {
    } else {
      Pow2Monotone(m, n - 1);
    }
  }

  /** `steps` is at most 2 lg (n + 1). */
  ghost predicate Logarithmic(steps: nat, n: nat) {
    Pow2(steps) <= (n + 1) * (n + 1)
  }

  lemma LogarithmicDown(a: nat, b: nat, n: nat)
    requires a <= b && Logarithmic(b, n)
    ensures Logarithmic(a, n)
  {
    Pow2Monotone(a, b);
  }

  lemma LogarithmicStart(n: nat)
    ensures Logarithmic(0, n)
  {
    SquareMonotone(1, n + 1);
  }

  ghost function Power(b: nat, e: nat): nat {
    if e == 0 then 1 else b * Power(b, e - 1)
  }

  /** The product, as a function that a proof can hide. */
  ghost function Mul(a: nat, b: nat): nat {
    a * b
  }

  lemma MulOne(a: nat)
    ensures Mul(a, 1) == a && Mul(1, a) == a
  {
  }

  lemma MulComm(a: nat, b: nat)
    ensures Mul(a, b) == Mul(b, a)
  {
  }

  lemma MulAssoc(a: nat, b: nat, c: nat)
    ensures Mul(Mul(a, b), c) == Mul(a, Mul(b, c))
  {
  }

  lemma MulSwap(a: nat, b: nat, c: nat)
    ensures Mul(a, Mul(b, c)) == Mul(b, Mul(a, c))
  {
  }

  lemma MulPair(a: nat, b: nat, c: nat, d: nat)
    ensures Mul(Mul(a, b), Mul(c, d)) == Mul(Mul(a, c), Mul(b, d))
  {
    hide Mul;
    MulAssoc(a, b, Mul(c, d));
    MulSwap(b, c, d);
    MulAssoc(a, c, Mul(b, d));
  }

  lemma MulMonotone(a: nat, b: nat, c: nat, d: nat)
    requires a <= b && c <= d
    ensures a * c <= b * d
  {
    assert a * c <= a * d <= b * d;
  }

  lemma MulStrict(a: nat, b: nat, c: nat)
    requires a < b && c > 0
    ensures a * c < b * c
  {
    MulMonotone(a + 1, b, c, c);
    assert (a + 1) * c == a * c + c;
  }

  lemma MulCancel(a: nat, b: nat, c: nat)
    requires c > 0 && a * c <= b * c
    ensures a <= b
  {
    if b < a {
      MulStrict(b, a, c);
    }
  }

  lemma {:induction false} PowerMonotone(a: nat, b: nat, e: nat)
    requires a <= b
    ensures Power(a, e) <= Power(b, e)
  {
    if e == 0 {
    } else {
      PowerMonotone(a, b, e - 1);
      MulMonotone(a, b, Power(a, e - 1), Power(b, e - 1));
    }
  }

  lemma {:induction false} PowerAdd(b: nat, m: nat, n: nat)
    ensures Power(b, m + n) == Power(b, m) * Power(b, n)
  {
    if m == 0 {
    } else {
      PowerAdd(b, m - 1, n);
      assert b * (Power(b, m - 1) * Power(b, n)) == (b * Power(b, m - 1)) * Power(b, n);
    }
  }

  lemma {:induction false} Pow2Add(m: nat, n: nat)
    ensures Pow2(m + n) == Pow2(m) * Pow2(n)
  {
    if m == 0 {
    } else {
      Pow2Add(m - 1, n);
    }
  }

  lemma {:induction false} PowerOfPow2(c: nat, e: nat)
    ensures Power(Pow2(c), e) == Pow2(c * e)
  {
    if e == 0 {
    } else {
      PowerOfPow2(c, e - 1);
      Pow2Add(c, c * (e - 1));
      assert c + c * (e - 1) == c * e;
    }
  }

  lemma {:induction false} Pow2Grows(n: nat)
    ensures Pow2(n) > 0
  {
    if n == 0 {
    } else {
      Pow2Grows(n - 1);
    }
  }

  lemma Pow2Reflects(a: nat, b: nat)
    requires Pow2(a) <= Pow2(b)
    ensures a <= b
  {
    if b < a {
      Pow2Monotone(b + 1, a);
      Pow2Grows(b);
    }
  }

  lemma SquareOfSum(a: int, b: int)
    ensures (a + b) * (a + b) == a * a + 2 * (a * b) + b * b
  {
    assert (a + b) * (a + b) == (a + b) * a + (a + b) * b;
    assert (a + b) * a == a * a + b * a && (a + b) * b == a * b + b * b;
  }

  lemma SquareNotNegative(d: int)
    ensures d * d >= 0
  {
  }

  /** Of two parts of a whole, four times the product is at most the square of the whole. */
  lemma ProductOfParts(a: nat, b: nat, c: nat)
    requires a + b <= c
    ensures 4 * (a * b) <= c * c
  {
    SquareOfSum(a, b);
    var d: int := 0 - b;
    SquareOfSum(a, d);
    SquareNotNegative(a + d);
    assert a * d == -(a * b) && d * d == b * b;
    SquareMonotone(a + b, c);
  }
}
