/**
 * The subdomain generator of connect/utils.py: a 64-bit linear congruential
 * generator with Knuth's MMIX multiplier and increment, evaluated in closed
 * form at an index, and the label obtained from its value by writing it as 8
 * big-endian bytes, base-32 encoding them, removing the "=" padding and
 * lower-casing the result; and the step of `get_compose_file` that draws
 * the next index from a counter and names the tunnel's token claims after it.
 */
module ConnectUtils {
  import opened Wrappers
  import opened Radix
  import opened Text
  import Base32
  import opened KvStore

  /** Multiplier, increment and modulus of the generator. */
  const A: int := 6364136223846793005
  const C: int := 1442695040888963407
  const M: int := 0x1_0000_0000_0000_0000

  /** Default of the configured prefix put in front of every label. */
  const DefaultSubdomainPrefix: string := "t-"

  // ------------------------------------------------------------ generator

  /**
   * `lcg(n)` with seed x0: the n-th term of the sequence, computed directly
   * from n with the jump-ahead formula.
   */
  function Lcg(seed: int, n: nat): (r: nat)
    ensures r < M
  {
    var an := Pow(A, n);
    (((an * seed) % M) + ((an - 1) % ((A - 1) * M)) / (A - 1) * C) % M
  }

  /** One step of the generator. */
  function Step(x: int): int
  {
    (A * x + C) % M
  }

  /** The n-th term obtained by stepping n times from the reduced seed. */
  function Term(seed: int, n: nat): int
  {
    if n == 0 then seed % M else Step(Term(seed, n - 1))
  }

  /** The n-th term before reduction modulo M, starting from y. */
  function Unreduced(y: int, n: nat): int
  {
    if n == 0 then y else A * Unreduced(y, n - 1) + C
  }

  /** 1 + A + ... + A^(n-1), by Horner's rule. */
  function GeomSum(n: nat): int
  {
    if n == 0 then 0 else A * GeomSum(n - 1) + 1
  }

  lemma {:induction false} UnreducedClosedForm(y: int, n: nat)
    ensures Unreduced(y, n) == Pow(A, n) * y + GeomSum(n) * C
  {
    if n > 0 {
      UnreducedClosedForm(y, n - 1);
      var p, g := Pow(A, n - 1), GeomSum(n - 1);
      calc {
        Unreduced(y, n);
        A * (p * y + g * C) + C;
        (A * p) * y + (A * g + 1) * C;
      }
    }
  }

  lemma {:induction false} PowMinusOne(n: nat)
    ensures Pow(A, n) - 1 == (A - 1) * GeomSum(n)
  {
    if n > 0 {
      PowMinusOne(n - 1);
      var g := GeomSum(n - 1);
      calc {
        Pow(A, n) - 1;
        A * Pow(A, n - 1) - 1;
        A * ((A - 1) * g + 1) - 1;
        (A - 1) * (A * g + 1);
      }
    }
  }

  /** Sums of remainders have the remainder of the sum. */
  lemma ModLinear(x: int, y: int, c: int, m: int)
    requires m > 0
    ensures (x % m + (y % m) * c) % m == (x + y * c) % m
  {
    var qx, qy := x / m, y / m;
    assert x + y * c == (qx + qy * c) * m + (x % m + (y % m) * c) by {
      assert y * c == (qy * m + y % m) * c;
    }
    ModAddMultiple(qx + qy * c, x % m + (y % m) * c, m);
  }

  /** A step may be taken on the remainder or on the full value. */
  lemma StepOfMod(x: int)
    ensures (A * (x % M) + C) % M == (A * x + C) % M
  {
    var q := x / M;
    assert A * x + C == (A * q) * M + (A * (x % M) + C) by {
      assert A * x == A * (q * M + x % M);
    }
    ModAddMultiple(A * q, A * (x % M) + C, M);
  }

  /** The closed form is the unreduced sequence taken modulo M. */
  lemma LcgIsUnreducedMod(seed: int, n: nat)
    ensures Lcg(seed, n) == Unreduced(seed, n) % M
  {
    var an, g := Pow(A, n), GeomSum(n);
    JumpSum(n);
    assert Lcg(seed, n) == ((an * seed) % M + (g % M) * C) % M;
    ModLinear(an * seed, g, C, M);
    UnreducedClosedForm(seed, n);
  }

  /** The closed form's second term recovers 1 + A + ... + A^(n-1) modulo M. */
  lemma JumpSum(n: nat)
    ensures ((Pow(A, n) - 1) % ((A - 1) * M)) / (A - 1) == GeomSum(n) % M
  {
    var g := GeomSum(n);
    PowMinusOne(n);
    ModScale(g, A - 1, M);
    DivModUnique((A - 1) * (g % M), A - 1, g % M, 0);
  }

  lemma {:induction false} TermIsUnreducedMod(seed: int, n: nat)
    ensures Term(seed, n) == Unreduced(seed, n) % M
  {
    if n > 0 {
      TermIsUnreducedMod(seed, n - 1);
      StepOfMod(Unreduced(seed, n - 1));
    }
  }

  /** The closed form agrees with stepping the generator n times from the seed. */
  lemma LcgAgreesWithStepping(seed: int, n: nat)
    ensures Lcg(seed, n) == Term(seed, n)
  {
    LcgIsUnreducedMod(seed, n);
    TermIsUnreducedMod(seed, n);
  }

  /** Consecutive indices are one generator step apart. */
  lemma LcgStep(seed: int, n: nat)
    ensures Lcg(seed, n + 1) == (A * Lcg(seed, n) + C) % M
  {
    LcgAgreesWithStepping(seed, n);
    LcgAgreesWithStepping(seed, n + 1);
  }

  /** Index 0 gives the seed reduced modulo 2^64. */
  lemma LcgZero(seed: int)
    ensures Lcg(seed, 0) == seed % M
  {
  }

  // ---------------------------------------------------------- full period

  lemma {:induction false} UnreducedShift(y: int, i: nat, t: nat)
    ensures Unreduced(y, i + t) == Unreduced(Unreduced(y, i), t)
  {
    if t > 0 {
      UnreducedShift(y, i, t - 1);
    }
  }

  /** Running t steps from y moves it by GeomSum(t) times one step's move. */
  lemma {:induction false} UnreducedDelta(y: int, t: nat)
    ensures Unreduced(y, t) - y == GeomSum(t) * ((A - 1) * y + C)
  {
    if t > 0 {
      UnreducedDelta(y, t - 1);
      var g, d := GeomSum(t - 1), (A - 1) * y + C;
      calc {
        Unreduced(y, t) - y;
        A * (y + g * d) + C - y;
        d + A * (g * d);
        (A * g + 1) * d;
      }
    }
  }

  lemma {:induction false} GeomSumSplit(i: nat, t: nat)
    ensures GeomSum(i + t) == Pow(A, t) * GeomSum(i) + GeomSum(t)
  {
    if t > 0 {
      GeomSumSplit(i, t - 1);
      var p, gi, gt := Pow(A, t - 1), GeomSum(i), GeomSum(t - 1);
      assert GeomSum(i + (t - 1)) == p * gi + gt;
      assert GeomSum(i + t) == A * GeomSum(i + t - 1) + 1;
      assert Pow(A, t) == A * p && GeomSum(t) == A * gt + 1;
      SplitStep(p, gi, gt);
    }
  }

  lemma SplitStep(p: int, gi: int, gt: int)
    ensures A * (p * gi + gt) + 1 == (A * p) * gi + (A * gt + 1)
  {
  }

  lemma ProductParity(o: int, x: int)
    requires o % 2 == 1
    ensures (o * x) % 2 == x % 2
  {
    var p := o / 2;
    assert o * x == (p * x) * 2 + x by {
      assert o == 2 * p + 1;
    }
    ModAddMultiple(p * x, x, 2);
  }

  lemma {:induction false} GeomSumParity(n: nat)
    ensures GeomSum(n) % 2 == n % 2
  {
    if n > 0 {
      GeomSumParity(n - 1);
      ProductParity(A, GeomSum(n - 1));
      var g := GeomSum(n - 1);
      ModAddMultiple((A * g) / 2, (A * g) % 2 + 1, 2);
      ModAddMultiple((n - 1) / 2, (n - 1) % 2 + 1, 2);
    }
  }

  lemma {:induction false} PowAModFour(n: nat)
    ensures Pow(A, n) % 4 == 1
  {
    if n > 0 {
      PowAModFour(n - 1);
      var p := Pow(A, n - 1);
      var q, r := A / 4, p / 4;
      assert A * p == (4 * q * r + q + r) * 4 + 1 by {
        assert A == 4 * q + 1 && p == 4 * r + 1;
      }
      ModAddMultiple(4 * q * r + q + r, 1, 4);
    }
  }

  /** A multiple of 2^k, k >= 1, is even. */
  lemma EvenOfPowerMultiple(x: int, k: nat)
    requires k >= 1 && x % Pow(2, k) == 0
    ensures x % 2 == 0
  {
    PowPositive(2, k - 1);
    var q := x / Pow(2, k);
    assert x == (q * Pow(2, k - 1)) * 2 by {
      DivModUnique(x, Pow(2, k), q, 0);
    }
    ModAddMultiple(q * Pow(2, k - 1), 0, 2);
  }

  /** An odd factor does not contribute to divisibility by a power of two. */
  lemma {:induction false} OddFactor(o: int, x: int, k: nat)
    requires o % 2 == 1 && (o * x) % Pow(2, k) == 0
    ensures x % Pow(2, k) == 0
    decreases k
  {
    if k > 0 {
      PowPositive(2, k - 1);
      EvenOfPowerMultiple(o * x, k);
      ProductParity(o, x);
      var y := x / 2;
      assert x == 2 * y;
      assert o * x == 2 * (o * y);
      ModScale(o * y, 2, Pow(2, k - 1));
      OddFactor(o, y, k - 1);
      ModScale(y, 2, Pow(2, k - 1));
    }
  }

  /** GeomSum(2h) is GeomSum(h) times twice an odd number. */
  lemma GeomSumDouble(h: nat) returns (o: int)
    ensures o % 2 == 1 && GeomSum(2 * h) == 2 * (o * GeomSum(h))
  {
    GeomSumSplit(h, h);
    PowAModFour(h);
    assert h + h == 2 * h;
    o := OddHalf(Pow(A, h), GeomSum(h), GeomSum(2 * h));
  }

  lemma OddHalf(p: int, g: int, g2: int) returns (o: int)
    requires p % 4 == 1 && g2 == p * g + g
    ensures o % 2 == 1 && g2 == 2 * (o * g)
  {
    var r := p / 4;
    assert p == 4 * r + 1;
    o := 2 * r + 1;
    assert p * g + g == 2 * (o * g);
  }

  /** Halving the index removes exactly one factor of two from GeomSum. */
  lemma GeomSumHalve(h: nat, k: nat)
    requires k >= 1 && GeomSum(2 * h) % Pow(2, k) == 0
    ensures GeomSum(h) % Pow(2, k - 1) == 0
  {
    var o := GeomSumDouble(h);
    var g := GeomSum(h);
    ModScale(o * g, 2, Pow(2, k - 1));
    OddFactor(o, g, k - 1);
  }

  /** For A = 1 (mod 4), 2^k divides GeomSum(t) only when it divides t. */
  lemma {:induction false} GeomSumTwoAdic(t: nat, k: nat)
    requires GeomSum(t) % Pow(2, k) == 0
    ensures t % Pow(2, k) == 0
    decreases t
  {
    if k == 0 {
      DivModUnique(t, 1, t, 0);
    } else if t > 0 {
      EvenOfPowerMultiple(GeomSum(t), k);
      GeomSumParity(t);
      var h := t / 2;
      assert t == 2 * h;
      GeomSumHalve(h, k);
      GeomSumTwoAdic(h, k - 1);
      ModScale(h, 2, Pow(2, k - 1));
    }
  }

  lemma TwoToThe64()
    ensures Pow(2, 64) == M
  {
    assert Pow(2, 4) == 16;
    PowSquare(2, 4, 16);
    PowSquare(2, 8, 0x100);
    PowSquare(2, 16, 0x1_0000);
    PowSquare(2, 32, 0x1_0000_0000);
  }

  lemma PowSquare(b: int, n: nat, v: int)
    requires Pow(b, n) == v
    ensures Pow(b, 2 * n) == v * v
  {
    PowAdd(b, n, n);
  }

  /** The difference of two unreduced terms j = i + t apart. */
  lemma UnreducedGap(seed: int, i: nat, t: nat)
    ensures Unreduced(seed, i + t) - Unreduced(seed, i)
         == GeomSum(t) * ((A - 1) * Unreduced(seed, i) + C)
  {
    UnreducedShift(seed, i, t);
    UnreducedDelta(Unreduced(seed, i), t);
  }

  /** Equal remainders modulo 2^64 force the index gap to be a multiple of 2^64. */
  lemma GapMultiple(seed: int, i: nat, t: nat)
    requires Unreduced(seed, i + t) % M == Unreduced(seed, i) % M
    ensures t % M == 0
  {
    var ui, uj := Unreduced(seed, i), Unreduced(seed, i + t);
    SameRemainder(uj, ui);
    UnreducedGap(seed, i, t);
    var d, g := (A - 1) * ui + C, GeomSum(t);
    OddMove(ui);
    MulCommute(g, d);
    OddFactorM(d, g);
    GeomSumTwoAdicM(t);
  }

  lemma SameRemainder(x: int, y: int)
    requires x % M == y % M
    ensures (x - y) % M == 0
  {
    DivModUnique(x - y, M, x / M - y / M, 0);
  }

  /** One step's move is odd, because A - 1 is even and C is odd. */
  lemma OddMove(u: int)
    ensures ((A - 1) * u + C) % 2 == 1
  {
    var h := (A - 1) / 2;
    assert (A - 1) * u + C == (h * u) * 2 + C;
    ModAddMultiple(h * u, C, 2);
  }

  lemma MulCommute(x: int, y: int)
    ensures x * y == y * x
  {
  }

  lemma OddFactorM(o: int, x: int)
    requires o % 2 == 1 && (o * x) % M == 0
    ensures x % M == 0
  {
    TwoToThe64();
    OddFactor(o, x, 64);
  }

  lemma GeomSumTwoAdicM(t: nat)
    requires GeomSum(t) % M == 0
    ensures t % M == 0
  {
    TwoToThe64();
    GeomSumTwoAdic(t, 64);
  }

  /**
   * Full period: the index range [0, 2^64) is mapped one-to-one, because C is
   * odd and A - 1 is divisible by 4.
   */
  lemma LcgInjective(seed: int, i: nat, j: nat)
    requires i < M && j < M && Lcg(seed, i) == Lcg(seed, j)
    ensures i == j
  {
    if i > j {
      LcgInjective(seed, j, i);
    } else {
      LcgIsUnreducedMod(seed, i);
      LcgIsUnreducedMod(seed, j);
      GapMultiple(seed, i, j - i);
      DivModUnique(j - i, M, 0, j - i);
    }
  }

  // ---------------------------------------------------------------- label

  lemma PowerFacts()
    ensures Pow(256, 8) == M && Pow(256, 3) == 0x100_0000
    ensures Pow(32, 8) == 0x100_0000_0000 && Pow(32, 5) == 0x200_0000
    ensures Pow(2, 0) == 1 && Pow(2, 1) == 2
  {
    PowAdd(256, 4, 4);
    PowAdd(256, 2, 2);
    PowAdd(32, 4, 4);
    PowAdd(32, 2, 2);
    assert Pow(32, 5) == 32 * Pow(32, 4);
    assert Pow(256, 3) == 256 * Pow(256, 2);
  }

  /**
   * `get_subdomain(idx)` after the prefix: the 64-bit value as 8 big-endian
   * bytes, base-32 encoded, stripped of "=" and lower-cased.
   */
  function Label(v: nat): string
    requires v < M
  {
    var encoded := Base32.Encode(Bytes8(v));
    LowerAscii(Strip(encoded, '='))
  }

  /** `v.to_bytes(length=8, byteorder='big')`. */
  function Bytes8(v: nat): (bs: seq<byte>)
    requires v < M
    ensures |bs| == 8 && FromDigits(bs, 256) == v
  {
    PowerFacts();
    ToBytes(v, 8)
  }

  /** `get_subdomain(idx)` with the configured prefix and seed. */
  function GetSubdomain(prefix: string, seed: int, idx: nat): string
  {
    prefix + Label(Lcg(seed, idx))
  }

  /**
   * The 13 base-32 digits the label spells: the high 40 bits of the value,
   * then its low 24 bits followed by one zero bit.
   */
  function LabelDigits(v: nat): (ds: seq<int>)
    ensures |ds| == 13 && DigitsIn(ds, 32)
  {
    ToDigits(v / 0x100_0000, 32, 8) + ToDigits(2 * (v % 0x100_0000), 32, 5)
  }

  function LowerSymbols(ds: seq<int>): (s: string)
    requires DigitsIn(ds, 32)
    ensures |s| == |ds|
  {
    seq(|ds|, i requires 0 <= i < |ds| => Base32.LowerAlphabet[ds[i]])
  }

  /** The first five bytes hold the high 40 bits, the last three the low 24. */
  lemma HighLowBytes(v: nat)
    requires v < M
    ensures FromDigits(Bytes8(v)[..5], 256) == v / 0x100_0000
    ensures FromDigits(Bytes8(v)[5..], 256) == v % 0x100_0000
  {
    PowerFacts();
    var bytes := Bytes8(v);
    var hi, lo := bytes[..5], bytes[5..];
    assert bytes == hi + lo;
    FromDigitsAppend(hi, lo, 256);
    FromDigitsBound(lo, 256);
    DivModUnique(v, 0x100_0000, FromDigits(hi, 256), FromDigits(lo, 256));
  }

  lemma FullQuantum(g: seq<byte>)
    requires |g| == 5
    ensures FromDigits(g, 256) >= 0
    ensures Base32.Quantum(g) == Base32.Symbols(ToDigits(FromDigits(g, 256), 32, 8))
  {
    FromDigitsBound(g, 256);
    assert Base32.Padding(0) == [];
  }

  lemma ThreeByteQuantum(g: seq<byte>)
    requires |g| == 3
    ensures FromDigits(g, 256) >= 0
    ensures Base32.Quantum(g) == Base32.Symbols(ToDigits(2 * FromDigits(g, 256), 32, 5)) + Base32.Padding(3)
  {
    FromDigitsBound(g, 256);
    var x := FromDigits(g, 256);
    assert Base32.DataChars(|g|) == 5;
    assert Base32.QuantumValue(g) == 2 * x;
  }

  /** The base-32 text of 8 bytes: one full quantum and one of 3 bytes. */
  lemma EncodeEightBytes(v: nat)
    requires v < M
    ensures Base32.Encode(Bytes8(v)) == Base32.Symbols(LabelDigits(v)) + Base32.Padding(3)
  {
    HighLowBytes(v);
    EncodeEightOf(Bytes8(v));
  }

  /** The base-32 text of any 8 bytes, by the values of their first 5 and last 3. */
  lemma EncodeEightOf(bytes: seq<byte>)
    requires |bytes| == 8
    ensures FromDigits(bytes[..5], 256) >= 0 && FromDigits(bytes[5..], 256) >= 0
    ensures Base32.Encode(bytes) ==
      Base32.Symbols(ToDigits(FromDigits(bytes[..5], 256), 32, 8) + ToDigits(2 * FromDigits(bytes[5..], 256), 32, 5))
      + Base32.Padding(3)
  {
    var hi, lo := bytes[..5], bytes[5..];
    FullQuantum(hi);
    ThreeByteQuantum(lo);
    Base32.EncodeEight(bytes);
    var d1, d2 := ToDigits(FromDigits(hi, 256), 32, 8), ToDigits(2 * FromDigits(lo, 256), 32, 5);
    SymbolsAppend(d1, d2);
    Regroup(Base32.Symbols(d1), Base32.Symbols(d2), Base32.Padding(3));
  }

  lemma Regroup(x: string, y: string, z: string)
    ensures x + (y + z) == (x + y) + z
  {
  }

  lemma LabelIsDigits(v: nat)
    requires v < M
    ensures Label(v) == LowerSymbols(LabelDigits(v))
  {
    EncodeEightBytes(v);
    var ds := LabelDigits(v);
    var x := Base32.Symbols(ds);
    Base32.AlphabetTable(ds[0]);
    Base32.AlphabetTable(ds[12]);
    assert Base32.Padding(3) == seq(3, _ => '=');
    StripAppended(x, '=', 3);
    LowerOfSymbols(ds);
  }

  lemma SymbolsAppend(d1: seq<int>, d2: seq<int>)
    requires DigitsIn(d1, 32) && DigitsIn(d2, 32)
    ensures DigitsIn(d1 + d2, 32)
    ensures Base32.Symbols(d1 + d2) == Base32.Symbols(d1) + Base32.Symbols(d2)
  {
    assert forall i :: 0 <= i < |d1 + d2| ==> (d1 + d2)[i] == if i < |d1| then d1[i] else d2[i - |d1|];
  }

  /** Lower-casing the upper-case symbols of some digits gives their lower-case symbols. */
  lemma LowerOfSymbols(ds: seq<int>)
    requires DigitsIn(ds, 32)
    ensures LowerAscii(Base32.Symbols(ds)) == LowerSymbols(ds)
  {
    var x := Base32.Symbols(ds);
    forall i | 0 <= i < |ds|
      ensures LowerAscii(x)[i] == LowerSymbols(ds)[i]
    {
      Base32.AlphabetTable(ds[i]);
      assert LowerAscii([x[i]])[0] == LowerAscii(x)[i];
    }
  }

  /** A label is exactly 13 characters of the lower-cased base-32 alphabet. */
  lemma LabelShape(v: nat)
    requires v < M
    ensures |Label(v)| == 13
    ensures forall i :: 0 <= i < 13 ==> Label(v)[i] in Base32.LowerAlphabet
  {
    LabelIsDigits(v);
  }

  /** The inverse of Label: the 64-bit value spelled by a 13-character label. */
  function DecodeLabel(s: string): (r: Option<int>)
  {
    if |s| != 13 || exists i :: 0 <= i < 13 && s[i] !in Base32.LowerAlphabet then None
    else
      var ds := seq(13, i requires 0 <= i < 13 => Base32.LowerSymbolValue(s[i]));
      Some(FromDigits(ds[..8], 32) * 0x100_0000 + FromDigits(ds[8..], 32) / 2)
  }

  /** Reading the symbols of a label back gives its digits. */
  lemma LabelSymbolValues(v: nat)
    requires v < M
    ensures |Label(v)| == 13
    ensures forall i :: 0 <= i < 13 ==> Label(v)[i] in Base32.LowerAlphabet
    ensures seq(13, i requires 0 <= i < 13 => Base32.LowerSymbolValue(Label(v)[i])) == LabelDigits(v)
  {
    LabelIsDigits(v);
    LowerSymbolsBack(LabelDigits(v));
  }

  /** Each lower-case symbol reads back as its digit. */
  lemma LowerSymbolsBack(ds: seq<int>)
    requires DigitsIn(ds, 32)
    ensures forall i :: 0 <= i < |ds| ==> LowerSymbols(ds)[i] in Base32.LowerAlphabet
    ensures seq(|ds|, i requires 0 <= i < |ds| => Base32.LowerSymbolValue(LowerSymbols(ds)[i])) == ds
  {
    var s := LowerSymbols(ds);
    forall i | 0 <= i < |ds|
      ensures s[i] in Base32.LowerAlphabet && Base32.LowerSymbolValue(s[i]) == ds[i]
    {
      Base32.AlphabetTable(ds[i]);
      assert s[i] == Base32.LowerAlphabet[ds[i]];
    }
  }

  /** The arithmetic half of the round trip: the two digit groups give back v. */
  lemma LabelDigitsValue(v: nat)
    requires v < M
    ensures FromDigits(LabelDigits(v)[..8], 32) * 0x100_0000 + FromDigits(LabelDigits(v)[8..], 32) / 2 == v
  {
    var hi, lo := v / 0x100_0000, v % 0x100_0000;
    assert Pow(32, 8) == 0x100_0000_0000 && Pow(32, 5) == 0x200_0000 by { PowerFacts(); }
    assert hi < 0x100_0000_0000 by { QuotientBound(v, 0x100_0000, 0x100_0000_0000); }
    var ds := LabelDigits(v);
    assert ds[..8] == ToDigits(hi, 32, 8);
    assert ds[8..] == ToDigits(2 * lo, 32, 5);
    FromToDigits(hi, 32, 8);
    FromToDigits(2 * lo, 32, 5);
    DivModRange(v, 0x100_0000);
  }

  /** `get_subdomain`'s label decodes back to the generator value it encodes. */
  lemma LabelRoundTrip(v: nat)
    requires v < M
    ensures DecodeLabel(Label(v)) == Some(v)
  {
    LabelSymbolValues(v);
    DecodeDigits(Label(v), LabelDigits(v));
    LabelDigitsValue(v);
  }

  /** DecodeLabel on 13 alphabet characters reads their digits as two groups. */
  lemma DecodeDigits(s: string, ds: seq<int>)
    requires |s| == 13 && forall i :: 0 <= i < 13 ==> s[i] in Base32.LowerAlphabet
    requires seq(13, i requires 0 <= i < 13 => Base32.LowerSymbolValue(s[i])) == ds
    ensures DecodeLabel(s) == Some(FromDigits(ds[..8], 32) * 0x100_0000 + FromDigits(ds[8..], 32) / 2)
  {
  }

  /** Distinct indices in [0, 2^64) get distinct subdomains. */
  lemma SubdomainInjective(prefix: string, seed: int, i: nat, j: nat)
    requires i < M && j < M
    requires GetSubdomain(prefix, seed, i) == GetSubdomain(prefix, seed, j)
    ensures i == j
  {
    var li, lj := Label(Lcg(seed, i)), Label(Lcg(seed, j));
    assert li == GetSubdomain(prefix, seed, i)[|prefix|..];
    assert lj == GetSubdomain(prefix, seed, j)[|prefix|..];
    LabelRoundTrip(Lcg(seed, i));
    LabelRoundTrip(Lcg(seed, j));
    LcgInjective(seed, i, j);
  }

  /** A subdomain is the prefix followed by 13 characters from a-z and 2-7. */
  lemma SubdomainShape(prefix: string, seed: int, idx: nat)
    ensures |GetSubdomain(prefix, seed, idx)| == |prefix| + 13
    ensures GetSubdomain(prefix, seed, idx)[..|prefix|] == prefix
    ensures forall i :: |prefix| <= i < |prefix| + 13 ==>
      GetSubdomain(prefix, seed, idx)[i] in Base32.LowerAlphabet
  {
    LabelShape(Lcg(seed, idx));
    var s := GetSubdomain(prefix, seed, idx);
    forall i | |prefix| <= i < |prefix| + 13
      ensures s[i] in Base32.LowerAlphabet
    {
      assert s[i] == Label(Lcg(seed, idx))[i - |prefix|];
    }
  }

  // ------------------------------------------------------- compose step

  /** The counter `get_compose_file` draws subdomain indices from. */
  const IndexCounter: string := "connect:subdomain:idx"

  /**
   * The claims `create_tunnel_token` signs: format version 1, a fresh
   * connector id and the tunnel's subdomain.
   */
  datatype Claims = Claims(ver: int, cid: string, tname: string)

  function TokenClaims(connectorId: string, tunnelName: string): Claims
  {
    Claims(1, connectorId, tunnelName)
  }

  /**
   * The counter step of `get_compose_file` followed by the claims of the
   * token it embeds; the fresh connector id is `str(uuid4())`, passed in.
   */
  method ComposeClaims<V(==)>(store: Store<V>, prefix: string, seed: int, connectorId: string)
    returns (idx: int, claims: Option<Claims>)
    modifies store
    ensures idx == CounterValue(old(store.Contents()), IndexCounter) + 1
    ensures store.Contents() == IncrSpec(old(store.Contents()), IndexCounter)
    ensures claims.Some? <==> idx >= 0
    ensures idx >= 0 ==> claims == Some(Claims(1, connectorId, GetSubdomain(prefix, seed, idx)))
  {
    idx := store.Incr(IndexCounter);
    if idx < 0 {
      // a negative power makes `lcg` a float, which has no `to_bytes`
      return idx, None;
    }
    claims := Some(TokenClaims(connectorId, GetSubdomain(prefix, seed, idx)));
  }

  /** The index the (n+1)-th compose call from key space s draws. */
  function NthIndex<V>(s: Keyspace<V>, n: nat): (idx: nat)
    requires CounterValue(s, IndexCounter) >= 0
    ensures idx == CounterValue(s, IndexCounter) + n + 1
  {
    IncrsCount(s, IndexCounter, n + 1);
    CounterValue(Incrs(s, IndexCounter, n + 1), IndexCounter)
  }

  /** Different indices below 2^64 name different subdomains. */
  lemma SubdomainsDiffer(prefix: string, seed: int, i: nat, j: nat)
    requires i != j && i < M && j < M
    ensures GetSubdomain(prefix, seed, i) != GetSubdomain(prefix, seed, j)
  {
    if GetSubdomain(prefix, seed, i) == GetSubdomain(prefix, seed, j) {
      SubdomainInjective(prefix, seed, i, j);
    }
  }

  /**
   * Compose calls use indices 1, 2, 3, ... from a fresh counter, and any
   * two of them name different subdomains while the indices stay below 2^64.
   */
  lemma ComposeSubdomainsDistinct<V>(s: Keyspace<V>, prefix: string, seed: int, i: nat, j: nat)
    requires CounterValue(s, IndexCounter) >= 0
    requires i < j && CounterValue(s, IndexCounter) + j + 1 < M
    ensures IndexCounter !in s.counters ==> NthIndex(s, 0) == 1
    ensures NthIndex(s, i) < NthIndex(s, j)
    ensures GetSubdomain(prefix, seed, NthIndex(s, i)) != GetSubdomain(prefix, seed, NthIndex(s, j))
  {
    SubdomainsDiffer(prefix, seed, NthIndex(s, i), NthIndex(s, j));
  }
}
