/**
 * Positional notation and the integer facts the encoders and the generator
 * rely on: powers, big-endian digit sequences in an arbitrary base, and
 * division with remainder.
 */
module Radix {

  /** b to the power n. */
  function Pow(b: int, n: nat): (r: int)
    ensures b > 0 ==> r > 0
  {
    if n == 0 then 1 else b * Pow(b, n - 1)
  }

  lemma {:induction false} PowPositive(b: int, n: nat)
    requires b > 0
    ensures Pow(b, n) > 0
  {
    if n > 0 {
      PowPositive(b, n - 1);
    }
  }

  lemma {:induction false} PowAdd(b: int, m: nat, n: nat)
    ensures Pow(b, m + n) == Pow(b, m) * Pow(b, n)
  {
    if n > 0 {
      PowAdd(b, m, n - 1);
      var x, y := Pow(b, m), Pow(b, n - 1);
      assert Pow(b, m + n) == b * Pow(b, m + n - 1);
      assert Pow(b, n) == b * y;
      MulLeftCommute(b, x, y);
    }
  }

  lemma MulLeftCommute(b: int, x: int, y: int)
    ensures b * (x * y) == x * (b * y)
  {
  }

  lemma ShiftAdd(h: int, p: int, f: int, b: int, d: int)
    ensures (h * p + f) * b + d == h * (b * p) + (f * b + d)
  {
  }

  /** Division with remainder is determined by its defining equation. */
  lemma DivModUnique(x: int, d: int, q: int, r: int)
    requires d > 0 && 0 <= r < d && x == q * d + r
    ensures x / d == q && x % d == r
  {
    var q', r' := x / d, x % d;
    assert x == q' * d + r';
    assert (q - q') * d == r' - r;
    if q > q' {
      assert (q - q') * d >= d by { MulAtLeast(q - q', d); }
    } else if q < q' {
      assert (q' - q) * d >= d by { MulAtLeast(q' - q, d); }
    }
  }

  lemma MulAtLeast(k: int, d: int)
    requires k >= 1 && d > 0
    ensures k * d >= d
  {
  }

  /** Adding a multiple of the modulus does not change the remainder. */
  lemma ModAddMultiple(q: int, r: int, d: int)
    requires d > 0
    ensures (q * d + r) % d == r % d
  {
    DivModUnique(q * d + r, d, q + r / d, r % d);
  }

  /** Scaling dividend and divisor by k scales the remainder by k. */
  lemma ModScale(g: int, k: int, m: int)
    requires k > 0 && m > 0
    ensures (k * g) % (k * m) == k * (g % m)
    ensures (k * g) / (k * m) == g / m
  {
    var q, r := g / m, g % m;
    assert k * g == q * (k * m) + k * r;
    assert k * r < k * m;
    DivModUnique(k * g, k * m, q, k * r);
  }

  /** Appending one digit to a value below p gives a value below p * b. */
  lemma ShiftBound(f: int, p: int, b: int, d: int)
    requires 0 <= f < p && 0 <= d < b
    ensures 0 <= f * b + d < p * b
  {
    assert f * b <= (p - 1) * b;
  }

  /** Big-endian value of the digit sequence ds in base b. */
  function FromDigits(ds: seq<int>, b: int): int
  {
    if ds == [] then 0 else FromDigits(ds[..|ds| - 1], b) * b + ds[|ds| - 1]
  }

  predicate DigitsIn(ds: seq<int>, b: int)
  {
    forall i :: 0 <= i < |ds| ==> 0 <= ds[i] < b
  }

  /** Quotient and remainder of a natural number by a positive divisor. */
  lemma DivModRange(x: nat, b: int)
    requires b > 0
    ensures x / b >= 0 && 0 <= x % b < b && x == (x / b) * b + x % b
  {
  }

  /** A value below p * b has a quotient by b below p. */
  lemma QuotientBound(x: nat, b: int, p: int)
    requires b > 0 && x < p * b
    ensures x / b < p
  {
    DivModRange(x, b);
    CancelFactor(x / b, p, b);
  }

  lemma CancelFactor(q: int, p: int, b: int)
    requires b > 0 && q * b < p * b
    ensures q < p
  {
  }

  /** The n least significant base-b digits of x, most significant first. */
  function ToDigits(x: nat, b: int, n: nat): (ds: seq<int>)
    requires b > 1
    ensures |ds| == n && DigitsIn(ds, b)
    decreases n
  {
    if n == 0 then []
    else
      DivModRange(x, b);
      var q: nat, r := x / b, x % b;
      var rest := ToDigits(q, b, n - 1);
      assert DigitsIn(rest + [r], b) by {
        forall i | 0 <= i < |rest| + 1
          ensures 0 <= (rest + [r])[i] < b
        {
          if i < |rest| { assert (rest + [r])[i] == rest[i]; }
        }
      }
      rest + [r]
  }

  lemma {:induction false} FromDigitsBound(ds: seq<int>, b: int)
    requires b > 1 && DigitsIn(ds, b)
    ensures 0 <= FromDigits(ds, b) < Pow(b, |ds|)
  {
    if ds != [] {
      var init := ds[..|ds| - 1];
      FromDigitsBound(init, b);
      ShiftBound(FromDigits(init, b), Pow(b, |init|), b, ds[|ds| - 1]);
    }
  }

  /** Reading back the n digits of a value below b^n gives the value. */
  lemma {:induction false} FromToDigits(x: nat, b: int, n: nat)
    requires b > 1 && x < Pow(b, n)
    ensures FromDigits(ToDigits(x, b, n), b) == x
    decreases n
  {
    if n > 0 {
      var p := Pow(b, n - 1);
      assert Pow(b, n) == b * p;
      MulLeftCommute(b, p, 1);
      QuotientBound(x, b, p);
      DivModRange(x, b);
      var q: nat, r := x / b, x % b;
      FromToDigits(q, b, n - 1);
      var ds := ToDigits(x, b, n);
      assert ds == ToDigits(q, b, n - 1) + [r];
      assert ds[..n - 1] == ToDigits(q, b, n - 1) && ds[n - 1] == r;
      assert FromDigits(ds, b) == FromDigits(ds[..n - 1], b) * b + r;
    }
  }

  /** Writing out the value of a digit sequence gives the sequence back. */
  lemma {:induction false} ToFromDigits(ds: seq<int>, b: int)
    requires b > 1 && DigitsIn(ds, b)
    ensures FromDigits(ds, b) >= 0
    ensures ToDigits(FromDigits(ds, b), b, |ds|) == ds
  {
    FromDigitsBound(ds, b);
    if ds != [] {
      var init := ds[..|ds| - 1];
      ToFromDigits(init, b);
      DivModUnique(FromDigits(ds, b), b, FromDigits(init, b), ds[|ds| - 1]);
    }
  }

  /** The value of a concatenation: the high part shifted by the low part's width. */
  lemma {:induction false} FromDigitsAppend(hi: seq<int>, lo: seq<int>, b: int)
    ensures FromDigits(hi + lo, b) == FromDigits(hi, b) * Pow(b, |lo|) + FromDigits(lo, b)
    decreases |lo|
  {
    if lo == [] {
      assert hi + lo == hi;
    } else {
      var lo', d := lo[..|lo| - 1], lo[|lo| - 1];
      assert (hi + lo)[..|hi + lo| - 1] == hi + lo' && (hi + lo)[|hi + lo| - 1] == d;
      FromDigitsAppend(hi, lo', b);
      var h, p, f := FromDigits(hi, b), Pow(b, |lo'|), FromDigits(lo', b);
      assert FromDigits(hi + lo, b) == FromDigits(hi + lo', b) * b + d;
      assert FromDigits(lo, b) == f * b + d;
      assert Pow(b, |lo|) == b * p;
      ShiftAdd(h, p, f, b, d);
    }
  }

  /** Distinct values below b^n have distinct n-digit expansions. */
  lemma ToDigitsInjective(x: nat, y: nat, b: int, n: nat)
    requires b > 1 && x < Pow(b, n) && y < Pow(b, n)
    requires ToDigits(x, b, n) == ToDigits(y, b, n)
    ensures x == y
  {
    FromToDigits(x, b, n);
    FromToDigits(y, b, n);
  }
}
