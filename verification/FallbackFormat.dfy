/**
 * fallback_format for a requested number of digits, from a binary significand and exponent
 * to decimal text: it sets up the exact fraction and generates the digits from it.
 */
module FallbackFormat {
  import opened Powers
  import opened LimbLemmas
  import opened BigintModule
  import opened DigitText
  import opened Dragon4

  function Up(x: int): nat {
    if x > 0 then x else 0
  }

  /** f * 2^e / 10^b as a fraction of naturals. */
  function Over(f: nat, e: int, b: int): nat {
    f * Pow(2, Up(e)) * Pow(10, Up(-b))
  }

  function Under(e: int, b: int): (d: nat)
    ensures d > 0
  {
    Pow(2, Up(-e)) * Pow(10, Up(b))
  }

  /** A value of two to the e with too many factors of two is no power of ten. */
  lemma TooManyTwos(f: nat, e: nat, i: nat, m: nat)
    requires e > m
    ensures f * Pow(2, e) * Pow(10, i) != Pow(10, m)
  {
    PowProduct(5, 2, m);
    PowAdd(2, m, e - m);
    FivePowerOdd(m);
    assert Pow(2, e - m) == 2 * Pow(2, e - m - 1);
    hide Pow;
    var h, t, five := Pow(2, e - m - 1), Pow(10, i), Pow(5, m);
    if f * Pow(2, e) * t == Pow(10, m) {
      assert (f * (Pow(2, m) * (2 * h))) * t == (2 * (f * h * t)) * Pow(2, m) by {
        TwoFactors(f, Pow(2, m), h, t);
      }
      CancelRight(five, 2 * (f * h * t), Pow(2, m));
    }
  }

  lemma TwoFactors(f: int, p: int, h: int, t: int)
    ensures (f * (p * (2 * h))) * t == (2 * (f * h * t)) * p
  {
    assert p * (2 * h) == 2 * (p * h);
    assert f * (2 * (p * h)) == 2 * (f * (p * h));
    assert f * (p * h) == (f * h) * p by { MulAssoc(f, h, p); }
    ProductRotate(f * h, p, t);
  }

  /** A scaled fraction below ten needs at least as many twos below as tens above. */
  lemma EnoughTwos(k: nat, s: nat, t: nat)
    requires s > 0 && Pow(10, k) * s < 10 * Pow(2, t)
    ensures k <= t
  {
    if k > t {
      PowMonotone(10, t + 1, k);
      PowBases(2, 10, t);
      MulMonotone(1, s, Pow(10, k));
    }
  }

  lemma {:induction false} PowBases(a: nat, b: nat, n: nat)
    requires a <= b
    ensures Pow(a, n) <= Pow(b, n)
  {
    if n == 0 {
    } else {
      PowBases(a, b, n - 1);
      MulMonotone(a, b, Pow(a, n - 1));
      MulMonotone(Pow(a, n - 1), Pow(b, n - 1), b);
    }
  }

  /** The fraction moves by decimal places when its decimal exponent does. */
  lemma MovedFraction(f: nat, e: int, a: int, b: int, x: nat, y: nat)
    requires a + y == b + x
    ensures (Over(f, e, a) * Pow(10, x)) * Under(e, b) == Over(f, e, b) * (Under(e, a) * Pow(10, y))
  {
    var g, u := f * Pow(2, Up(e)), Pow(2, Up(-e));
    var p, q, p', q' := Up(-a), Up(b), Up(-b), Up(a);
    assert p + x + q == p' + q' + y;
    TensTogether(p, x, q);
    TensTogether(p', q', y);
    assert Over(f, e, a) == g * Pow(10, p) && Over(f, e, b) == g * Pow(10, p');
    assert Under(e, a) == u * Pow(10, q') && Under(e, b) == u * Pow(10, q);
    hide *;
    Regroup(g, Pow(10, p), Pow(10, x), u, Pow(10, q));
    RegroupRight(g, Pow(10, p'), u, Pow(10, q'), Pow(10, y));
  }

  lemma TensTogether(a: nat, b: nat, c: nat)
    ensures (Pow(10, a) * Pow(10, b)) * Pow(10, c) == Pow(10, a + b + c)
  {
    hide Pow;
    PowAdd(10, a, b);
    PowAdd(10, a + b, c);
  }

  lemma Regroup(g: int, p: int, x: int, u: int, q: int)
    ensures ((g * p) * x) * (u * q) == (g * u) * ((p * x) * q)
  {
    MulAssoc(g, p, x);
    MulSwap(g, p * x, u, q);
  }

  lemma RegroupRight(g: int, p: int, u: int, q: int, y: int)
    ensures (g * p) * ((u * q) * y) == (g * u) * ((p * q) * y)
  {
    MulAssoc(u, q, y);
    MulSwap(g, p, u, q * y);
    MulAssoc(p, q, y);
  }

  /** What the set-up establishes: an exact fraction, scaled by a power of two. */
  ghost predicate HoldsFraction(numerator: Bigint, denominator: Bigint, f: nat, e: int, shift: nat, exp10: int)
    reads numerator, denominator
  {
    && TopNonzero(numerator.bigits) && TopNonzero(denominator.bigits)
    && numerator.Value() == Over(f, e, exp10) * Pow(2, shift)
    && denominator.Value() == Under(e, exp10) * Pow(2, shift)
    && NeverMisjudged(numerator, denominator)
  }

  /** The significand is held shifted by one bit, or by two at a power of two. */
  lemma SignificandFits(f: nat, shift: nat)
    requires 0 < f < 0x20_0000_0000_0000 && 1 <= shift <= 2
    ensures 0 < f * Pow(2, shift) < 0x1_0000_0000_0000_0000
  {
    assert Pow(2, 1) == 2;
    assert Pow(2, 2) == 4;
  }

  method SetUpIntegral(numerator: Bigint, denominator: Bigint, f: nat, e: nat, shift: nat, exp10: nat)
    requires numerator != denominator && 0 < f < 0x20_0000_0000_0000 && 1 <= shift <= 2
    requires exp10 < 0x4000_0000
    modifies numerator, denominator
    ensures HoldsFraction(numerator, denominator, f, e, shift, exp10)
  {
    hide Scaled, Pow, NeverEqual;
    SignificandFits(f, shift);
    numerator.Assign(f * Pow(2, shift));
    TrimmedTop(numerator.bigits, numerator.exp);
    numerator.ShiftLeft(e);
    denominator.AssignPow10(exp10);
    denominator.ShiftLeft(shift);
    IntegralFraction(f, e, shift, exp10);
  }

  lemma IntegralFraction(f: nat, e: nat, shift: nat, exp10: nat)
    ensures (f * Pow(2, shift)) * Pow(2, e) == Over(f, e, exp10) * Pow(2, shift)
    ensures Pow(10, exp10) * Pow(2, shift) == Under(e, exp10) * Pow(2, shift)
    ensures e / 32 > exp10 / 32 ==>
              NeverEqual(Over(f, e, exp10) * Pow(2, shift), Under(e, exp10) * Pow(2, shift))
  {
    UnitPowers();
    hide Pow;
    ProductRotate(f, Pow(2, shift), Pow(2, e));
    if e / 32 > exp10 / 32 {
      forall i: nat
        ensures (Over(f, e, exp10) * Pow(2, shift)) * Pow(10, i) != Under(e, exp10) * Pow(2, shift)
      {
        TooManyTwos(f, e, i, exp10);
        NotEqualScaled(f * Pow(2, e), Pow(10, i), Pow(10, exp10), Pow(2, shift));
      }
    }
  }

  lemma UnitPowers()
    ensures Pow(2, 0) == 1 && Pow(10, 0) == 1
  {
  }

  lemma NotEqualScaled(v: int, t: int, w: int, p: int)
    requires p > 0 && v * t != w
    ensures (v * p) * t != w * p
  {
    ProductRotate(v, p, t);
    if (v * t) * p == w * p {
      CancelRight(v * t, w, p);
    }
  }

  method SetUpSmall(numerator: Bigint, denominator: Bigint, f: nat, e: int, shift: nat, exp10: int)
    requires numerator != denominator && 0 < f < 0x20_0000_0000_0000 && 1 <= shift <= 2
    requires e < 0 && -0x4000_0000 < exp10 < 0
    requires Over(f, e, exp10) < 10 * Under(e, exp10)
    modifies numerator, denominator
    ensures HoldsFraction(numerator, denominator, f, e, shift, exp10)
  {
    hide Scaled, Pow, NeverEqual;
    SignificandFits(f, shift);
    numerator.AssignPow10(-exp10);
    numerator.Multiply64(f * Pow(2, shift));
    denominator.Assign(1);
    TrimmedTop(denominator.bigits, denominator.exp);
    denominator.ShiftLeft(shift - e);
    SmallFraction(f, e, shift, exp10);
  }

  lemma FractionSides(f: nat, e: int, exp10: int)
    requires e < 0 && exp10 < 0
    ensures Over(f, e, exp10) == f * Pow(10, -exp10) && Under(e, exp10) == Pow(2, -e)
  {
    UnitPowers();
    hide Pow;
  }

  lemma SmallFraction(f: nat, e: int, shift: nat, exp10: int)
    requires e < 0 && exp10 < 0 && f > 0
    ensures Pow(10, -exp10) * (f * Pow(2, shift)) == Over(f, e, exp10) * Pow(2, shift)
    ensures 1 * Pow(2, shift - e) == Under(e, exp10) * Pow(2, shift)
    ensures Over(f, e, exp10) < 10 * Under(e, exp10) ==> -exp10 / 32 <= (shift - e) / 32
  {
    hide Pow, Over, Under;
    PowAdd(2, shift, -e);
    FractionSides(f, e, exp10);
    MulAssoc(Pow(10, -exp10), f, Pow(2, shift));
    if Over(f, e, exp10) < 10 * Under(e, exp10) {
      EnoughTwos(-exp10, f, -e);
    }
  }

  method SetUpFraction(numerator: Bigint, denominator: Bigint, f: nat, e: int, shift: nat, exp10: nat)
    requires numerator != denominator && 0 < f < 0x20_0000_0000_0000 && 1 <= shift <= 2
    requires e < 0 && exp10 < 0x4000_0000
    modifies numerator, denominator
    ensures HoldsFraction(numerator, denominator, f, e, shift, exp10)
  {
    hide Scaled, Pow, NeverEqual;
    SignificandFits(f, shift);
    numerator.Assign(f * Pow(2, shift));
    TrimmedTop(numerator.bigits, numerator.exp);
    denominator.AssignPow10(exp10);
    denominator.ShiftLeft(shift - e);
    MixedFraction(f, e, shift, exp10);
  }

  lemma MixedFraction(f: nat, e: int, shift: nat, exp10: nat)
    requires e < 0
    ensures f * Pow(2, shift) == Over(f, e, exp10) * Pow(2, shift)
    ensures Pow(10, exp10) * Pow(2, shift - e) == Under(e, exp10) * Pow(2, shift)
  {
    UnitPowers();
    PowAdd(2, -e, shift);
    hide Pow;
    assert f * 1 * 1 == f;
    assert Pow(10, exp10) * (Pow(2, -e) * Pow(2, shift)) == (Pow(2, -e) * Pow(10, exp10)) * Pow(2, shift) by {
      MulAssoc(Pow(10, exp10), Pow(2, -e), Pow(2, shift));
    }
  }

  /**
   * Formats f * 2^e with numDigits digits, given that its decimal exponent is at most exp10.
   * The digits that result, at the decimal exponent that results, are the value rounded to
   * nearest at the place exp10 - (numDigits - 1), ties to even.
   */
  method FormatDigits(f: nat, e: int, shift: nat, numDigits: nat, exp10: int)
      returns (buf: seq<char>, resultExp: int)
    requires 0 < f < 0x20_0000_0000_0000 && 1 <= shift <= 2
    requires -0x4000_0000 < exp10 < 0x4000_0000 && (e >= 0 ==> exp10 >= 0)
    requires Over(f, e, exp10) < 10 * Under(e, exp10)
    ensures AllDigits(buf) && |buf| == if numDigits == 0 then 1 else numDigits
    ensures var place := exp10 - (numDigits - 1);
            && (resultExp == place
                || (numDigits > 0 && resultExp == place + 1 && Number(buf) == Pow(10, numDigits - 1)))
            && NearestEven(if resultExp == place then Number(buf) else 10 * Number(buf),
                           Over(f, e, place), Under(e, place))
  {
    hide Scaled, Pow, NeverMisjudged, NearestEven, Over, Under, Number;
    var numerator := new Bigint();
    var denominator := new Bigint();
    if e >= 0 {
      SetUpIntegral(numerator, denominator, f, e, shift, exp10);
    } else if exp10 < 0 {
      SetUpSmall(numerator, denominator, f, e, shift, exp10);
    } else {
      SetUpFraction(numerator, denominator, f, e, shift, exp10);
    }
    // value == (numerator / denominator) * pow(10, exp10)
    ghost var n, d := numerator.Value(), denominator.Value();
    BelowTen(Over(f, e, exp10), Under(e, exp10), Pow(2, shift));
    if numDigits == 0 {
      denominator.Multiply32(10);
      var result := AddCompare(numerator, numerator, denominator);
      buf := [if result > 0 then '1' else '0'];
      resultExp := exp10 - (numDigits - 1);
      OneDigit(n, d, result > 0);
      RoundsPlace(f, e, exp10, shift, if result > 0 then 1 else 0, 0, 1);
      NumberSingle(buf);
      return;
    }
    buf, resultExp := GenerateDigits(numerator, denominator, numDigits, exp10);
    UnitPowers();
    assert d * Pow(10, 0) == d;
    RoundsPlace(f, e, exp10, shift,
      if resultExp == exp10 - (numDigits - 1) then Number(buf) else 10 * Number(buf), numDigits - 1, 0);
  }

  lemma BelowTen(x: int, y: int, p: int)
    requires x < 10 * y && p > 0
    ensures x * p < 10 * (y * p)
  {
    MulStrictMonotone(x, 10 * y, p);
    assert (10 * y) * p == 10 * (y * p);
  }

  /** Without any digit, the value is rounded to zero or one unit of the next higher place. */
  lemma OneDigit(n: nat, d: nat, up: bool)
    requires n < 10 * d && (up <==> n + n > d * 10)
    ensures NearestEven(if up then 1 else 0, n * Pow(10, 0), d * Pow(10, 1))
  {
    assert Pow(10, 0) == 1 && Pow(10, 1) == 10 * Pow(10, 0);
  }

  /** From the fraction that the digits were generated from to the value itself. */
  lemma RoundsPlace(f: nat, e: int, exp10: int, shift: nat, q: int, x: nat, y: nat)
    requires NearestEven(q, (Over(f, e, exp10) * Pow(2, shift)) * Pow(10, x),
                            (Under(e, exp10) * Pow(2, shift)) * Pow(10, y))
    ensures NearestEven(q, Over(f, e, exp10 - x + y), Under(e, exp10 - x + y))
  {
    hide *;
    var b := exp10 - x + y;
    MovedFraction(f, e, exp10, b, x, y);
    RoundsScaled(q, Over(f, e, exp10), Under(e, exp10), Pow(2, shift), Pow(10, x), Pow(10, y),
      Over(f, e, b), Under(e, b));
  }

  lemma RoundsScaled(q: int, o: int, u: int, p: int, x: int, y: int, o': int, u': int)
    requires u > 0 && p > 0 && y > 0 && u' > 0
    requires (o * x) * u' == o' * (u * y) && NearestEven(q, (o * p) * x, (u * p) * y)
    ensures NearestEven(q, o', u')
  {
    hide NearestEven;
    assert ((o * p) * x) * u' == o' * ((u * p) * y) by {
      ProductRotate(o, p, x);
      ProductRotate(u, p, y);
      ScaleFraction(o * x, u * y, p, o', u');
    }
    PositiveProduct(u, p);
    PositiveProduct(u * p, y);
    NearestEvenRatio(q, (o * p) * x, (u * p) * y, o', u');
  }

  lemma PositiveProduct(a: int, b: int)
    requires a > 0 && b > 0
    ensures a * b > 0
  {
  }

  lemma ScaleFraction(x: int, d: int, p: int, x': int, d': int)
    requires x * d' == x' * d
    ensures (x * p) * d' == x' * (d * p)
  {
    ProductRotate(x, p, d');
    MulAssoc(x', d, p);
  }
}
