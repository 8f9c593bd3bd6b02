/**
 * Why 767 digits are enough: no double has a nonzero digit beyond the 767th, counted from its
 * first. Counted from the point some have, and what is then left out is said exactly.
 */
module DigitLimit {
  import opened Powers
  import opened DigitText
  import opened DigitCount
  import opened FallbackFormat
  import opened Divisibility

  // ----- powers of two, five and ten -----

  lemma {:induction false} BaseMonotone(a: nat, b: nat, n: nat)
    requires a <= b
    ensures Pow(a, n) <= Pow(b, n)
  {
    if n > 0 {
      BaseMonotone(a, b, n - 1);
      hide Pow;
      PowStep(a, n - 1);
      PowStep(b, n - 1);
      MulMonotone(a, b, Pow(a, n - 1));
      MulMonotone(Pow(a, n - 1), Pow(b, n - 1), b);
    }
  }

  lemma PowStep(b: nat, n: nat)
    ensures Pow(b, n + 1) == b * Pow(b, n)
  {
  }

  lemma FiftyNineFives()
    ensures Pow(5, 12) < Pow(2, 28) && Pow(5, 59) < Pow(2, 137)
  {
    TwelveFives();
    LargeTwos();
    hide Pow;
    PowAdd(5, 12, 12);
    PowAdd(5, 24, 24);
    PowAdd(5, 48, 12);
    PowStep(5, 59);
  }

  lemma TwelveFives()
    ensures Pow(5, 12) == 244140625
  {
    assert Pow(5, 3) == 125;
    hide Pow;
    PowAdd(5, 3, 3);
    PowAdd(5, 6, 6);
  }

  lemma LargeTwos()
    ensures Pow(2, 28) == 0x1000_0000 && Pow(2, 137) == 0x200_0000_0000_0000_0000_0000_0000_0000_0000
  {
    TwoPowers();
    hide Pow;
    PowAdd(2, 19, 9);
    PowAdd(2, 64, 64);
    PowAdd(2, 128, 9);
  }

  lemma ManyFives(c: nat)
    requires c <= 307
    ensures Pow(5, c) < Pow(2, 713)
  {
    hide Pow;
    FiftyNineFives();
    PowMonotone(5, c, 307);
    PowPow(5, 59, 5);
    PowPow(2, 137, 5);
    BaseMonotone(Pow(5, 59), Pow(2, 137), 5);
    PowAdd(5, 295, 12);
    PowAdd(2, 685, 28);
    MulMonotone(Pow(5, 295), Pow(2, 685), Pow(5, 12));
    MulStrictMonotone(Pow(5, 12), Pow(2, 28), Pow(2, 685));
  }

  lemma TenIsTwoFives(n: nat)
    ensures Pow(10, n) == Pow(2, n) * Pow(5, n)
  {
    PowProduct(2, 5, n);
  }

  /** Eight for ten. */
  lemma TenAtLeast(n: nat)
    ensures Pow(2, 3 * n) <= Pow(10, n)
  {
    assert Pow(2, 3) == 8;
    PowPow(2, 3, n);
    BaseMonotone(8, 10, n);
  }

  // ----- where a double ends -----

  lemma NearestExact(total: int, q: int, d: int)
    requires d > 0 && Nearest(total, q * d, d)
    ensures total == q
  {
    assert 2 * (q * d - total * d) == (2 * (q - total)) * d;
    if q - total >= 1 {
      MulMonotone(2, 2 * (q - total), d);
    } else if q - total <= -1 {
      MulMonotone(2 * (q - total), -2, d);
    }
  }

  /** At a place as low as its binary exponent nothing is left of a number. */
  lemma EndsThere(f0: nat, e0: int, place: int, total: int)
    requires place <= 0 && place <= e0 && Nearest(total, Over(f0, e0, place), Under(e0, place))
    ensures Over(f0, e0, place) == total * Under(e0, place)
  {
    UnitPowers();
    var n, a := -place, Up(-e0);
    PowAdd(10, a, n - a);
    TenIsTwoFives(a);
    assert Under(e0, place) == Pow(2, a) * Pow(10, 0);
    assert Over(f0, e0, place) == f0 * Pow(2, Up(e0)) * Pow(10, n);
    hide *;
    var q := f0 * Pow(2, Up(e0)) * (Pow(5, a) * Pow(10, n - a));
    TakeOut(f0 * Pow(2, Up(e0)), Pow(2, a), Pow(5, a), Pow(10, n - a));
    NearestExact(total, q, Pow(2, a));
  }

  lemma TakeOut(g: int, t: int, v: int, w: int)
    ensures g * ((t * v) * w) == (g * (v * w)) * t
  {
    MulAssoc(t, v, w);
    MulAssoc(g, v * w, t);
  }

  /** Half of the value is at least the power of ten of its first digit, so 767 digits reach its end. */
  lemma ReachesEnd(f0: nat, e0: int, place: int)
    requires 0 < f0 < 0x20_0000_0000_0000 && -1074 <= e0 <= 971
    requires Under(e0, place + 766) <= 2 * Over(f0, e0, place + 766)
    ensures place <= 0 && place <= e0
  {
    var b := place + 766;
    UnitPowers();
    assert Under(e0, b) == Pow(2, Up(-e0)) * Pow(10, Up(b));
    assert Over(f0, e0, b) == f0 * Pow(2, Up(e0)) * Pow(10, Up(-b));
    hide Over, Under, Pow;
    if e0 >= 0 && place > 0 {
      WholeTooLarge(f0, e0, b);
    } else if e0 < 0 && place > e0 && b >= 0 {
      FractionTooLarge(f0, -e0, b);
    } else if e0 < 0 && place > e0 {
      FractionTooSmall(f0, -e0, -b);
    }
  }

  lemma Doubled(f0: nat)
    requires f0 < 0x20_0000_0000_0000
    ensures 2 * f0 < Pow(2, 54)
  {
    TwoPowers();
    PowStep(2, 53);
  }

  lemma WholeTooLarge(f0: nat, e: nat, b: nat)
    requires f0 < 0x20_0000_0000_0000 && e <= 971 && b >= 767
    ensures 2 * (f0 * Pow(2, e)) < Pow(10, b)
  {
    hide Pow;
    Doubled(f0);
    TenAtLeast(b);
    PowAdd(2, 54, e);
    MulStrictMonotone(2 * f0, Pow(2, 54), Pow(2, e));
    PowMonotone(2, 54 + e, 3 * b);
    MulAssoc(2, f0, Pow(2, e));
  }

  lemma FractionTooLarge(f0: nat, a: nat, b: nat)
    requires f0 < 0x20_0000_0000_0000 && b >= 767 - a
    ensures 2 * f0 < Pow(2, a) * Pow(10, b)
  {
    hide Pow;
    Doubled(f0);
    TenAtLeast(b);
    PowAdd(2, a, 3 * b);
    MulMonotone(Pow(2, 3 * b), Pow(10, b), Pow(2, a));
    PowMonotone(2, 54, a + 3 * b);
  }

  lemma FractionTooSmall(f0: nat, a: nat, c: nat)
    requires f0 < 0x20_0000_0000_0000 && 767 + c <= a <= 1074
    ensures 2 * (f0 * Pow(10, c)) < Pow(2, a)
  {
    hide Pow;
    Doubled(f0);
    ManyFives(c);
    TenIsTwoFives(c);
    MulStrictMonotone(2 * f0, Pow(2, 54), Pow(10, c));
    MulAssoc(2, f0, Pow(10, c));
    PowAdd(2, 54, c);
    MulAssoc(Pow(2, 54), Pow(2, c), Pow(5, c));
    MulStrictMonotone(Pow(5, c), Pow(2, 713), Pow(2, 54 + c));
    PowAdd(2, 54 + c, 713);
    PowMonotone(2, 767 + c, a);
  }

  // ----- 767 places behind the point -----

  /** The power of two by which a number is still divided when it has been multiplied by ten 767 times. */
  function Divisor(e0: int): (d: nat)
    ensures d > 0
  {
    Pow(2, Up(-e0 - 767))
  }

  /** How far a number lies from the nearest multiple of 10^-767, in units of 10^-767 / Divisor. */
  function Beyond(f0: nat, e0: int): nat {
    var r := (f0 * Pow(5, 767)) % Divisor(e0);
    if 2 * r <= Divisor(e0) then r else Divisor(e0) - r
  }

  function Abs(x: int): nat {
    if x < 0 then -x else x
  }

  /** How far a rounded quotient is off is a matter of the remainder alone. */
  lemma OffByRemainder(total: int, x: int, d: int)
    requires d > 0 && Nearest(total, x, d)
    ensures Abs(x - total * d) == if 2 * (x % d) <= d then x % d else d - x % d
  {
    var q, r := x / d, x % d;
    assert x == q * d + r;
    assert x - total * d == (q - total) * d + r;
    if q - total >= 1 {
      MulMonotone(1, q - total, d);
    } else if q - total <= -2 {
      MulMonotone(q - total, -2, d);
    } else {
      assert q - total == 0 || q - total == -1;
    }
  }

  lemma NearestIsClose(total: int, x: int, d: int)
    ensures Nearest(total, x, d) <==> 2 * Abs(x - total * d) <= d
  {
  }

  lemma AbsScaled(x: int, n: nat)
    ensures Abs(x * n) == Abs(x) * n
  {
    if x < 0 {
      assert x * n == -((-x) * n);
      MulMonotone(0, -x, n);
    } else {
      MulMonotone(0, x, n);
    }
  }

  /** At the 767th place behind the point the fraction is f0 * 5^767 over the divisor, and a common factor. */
  lemma ScaledPlace(f0: nat, e0: int) returns (g: nat, x: nat)
    ensures g > 0 && Over(f0, e0, -767) == x * g && Under(e0, -767) == Divisor(e0) * g
    ensures x % Divisor(e0) == (f0 * Pow(5, 767)) % Divisor(e0)
  {
    hide *;
    AtLimit(f0, e0);
    TenIsTwoFives(767);
    if -e0 > 767 {
      DeepDivisor(e0);
      g, x := Pow(2, 767), f0 * Pow(5, 767);
      MulAssoc(f0, Pow(5, 767), g);
    } else {
      ShallowDivisor(e0);
      var n := 767 - Up(-e0);
      g := Pow(2, Up(-e0));
      x := f0 * Pow(2, Up(e0)) * (Pow(2, n) * Pow(5, 767));
      MulAssoc(g, Pow(2, n), Pow(5, 767));
      MulAssoc(f0 * Pow(2, Up(e0)), Pow(2, n) * Pow(5, 767), g);
    }
  }

  lemma AtLimit(f0: nat, e0: int)
    ensures Over(f0, e0, -767) == f0 * Pow(2, Up(e0)) * Pow(10, 767) && Under(e0, -767) == Pow(2, Up(-e0))
  {
    UnitPowers();
    hide Pow;
  }

  lemma DeepDivisor(e0: int)
    requires -e0 > 767
    ensures Pow(2, Up(e0)) == 1 && Pow(2, Up(-e0)) == Divisor(e0) * Pow(2, 767)
  {
    UnitPowers();
    hide Pow;
    PowAdd(2, -e0 - 767, 767);
  }

  lemma ShallowDivisor(e0: int)
    requires -e0 <= 767
    ensures Divisor(e0) == 1 && Up(-e0) <= 767 && Pow(2, 767) == Pow(2, Up(-e0)) * Pow(2, 767 - Up(-e0))
    ensures forall x: nat :: x % Divisor(e0) == 0
  {
    UnitPowers();
    hide Pow;
    PowAdd(2, Up(-e0), 767 - Up(-e0));
  }

  /** Rounded at the 767th place, a number is off by Beyond units. */
  lemma OffBy(f0: nat, e0: int, total: int) returns (g: nat)
    requires Nearest(total, Over(f0, e0, -767), Under(e0, -767))
    ensures g > 0 && Under(e0, -767) == Divisor(e0) * g
    ensures Abs(Over(f0, e0, -767) - total * Under(e0, -767)) == Beyond(f0, e0) * g
  {
    hide Over, Under, Pow, Nearest, Abs;
    var x;
    g, x := ScaledPlace(f0, e0);
    var d := Divisor(e0);
    hide Divisor;
    PositiveProduct(d, g);
    MulAssoc(x, g, d);
    MulAssoc(x, d, g);
    NearestRatio(total, x * g, d * g, x, d);
    OffByRemainder(total, x, d);
    MulAssoc(total, d, g);
    assert x * g - (total * d) * g == (x - total * d) * g;
    AbsScaled(x - total * d, g);
  }

  lemma OddNoMatter(f: nat, v: nat, t: nat)
    requires v % 2 == 1
    ensures (f * v) % Pow(2, t) == 0 <==> f % Pow(2, t) == 0
  {
    hide Pow;
    var d := Pow(2, t);
    if (f * v) % d == 0 {
      assert f * v == v * f;
      OddFactor(v, f, t);
    }
    if f % d == 0 {
      var q := f / d;
      assert f == d * q;
      MulAssoc(d, q, v);
      DivUnique(f * v, d, q * v, 0);
    }
  }

  /** A number ends within 767 places behind the point just when its lowest bits allow it. */
  lemma EndsWithin(f0: nat, e0: int)
    ensures Beyond(f0, e0) == 0 <==> e0 >= -767 || f0 % Pow(2, -e0 - 767) == 0
  {
    hide Pow;
    if e0 >= -767 {
      UnitPowers();
      assert Divisor(e0) == 1;
    } else {
      FivePowerOdd(767);
      OddNoMatter(f0, Pow(5, 767), -e0 - 767);
    }
  }

  /** Digits rounded at the 767th place, with zeros up to the place that was asked for. */
  predicate AsAsked(total: int, f0: nat, e0: int, precision: nat)
    requires precision >= 767
  {
    Nearest(total * Pow(10, precision - 767), Over(f0, e0, -(precision as int)), Under(e0, -(precision as int)))
  }

  /**
   * What has been rounded at the 767th place behind the point is the whole number just when nothing
   * lies beyond, and it is the rounding at a lower place just when what lies beyond is small enough.
   */
  lemma FixedLimit(f0: nat, e0: int, total: int, precision: nat)
    requires precision >= 767 && Nearest(total, Over(f0, e0, -767), Under(e0, -767))
    ensures Over(f0, e0, -767) == total * Under(e0, -767) <==> Beyond(f0, e0) == 0
    ensures AsAsked(total, f0, e0, precision)
       <==> 2 * (Pow(10, precision - 767) * Beyond(f0, e0)) <= Divisor(e0)
  {
    hide *;
    MorePlaces(f0, e0, precision);
    AskedMeans(total, f0, e0, precision);
    var g := OffBy(f0, e0, total);
    var t, o, u, w := Pow(10, precision - 767), Over(f0, e0, -767), Under(e0, -767), Beyond(f0, e0);
    AbsZero(o - total * u);
    ProductZero(w, g);
    NearestIsClose(total * t, o * t, u);
    MulAssoc(total, u, t);
    MulAssoc(total, t, u);
    assert o * t - (total * t) * u == (o - total * u) * t;
    AbsScaled(o - total * u, t);
    CommonFactor(w, g, t, Divisor(e0));
  }

  lemma MorePlaces(f0: nat, e0: int, precision: nat)
    requires precision >= 767
    ensures Over(f0, e0, -(precision as int)) == Over(f0, e0, -767) * Pow(10, precision - 767)
    ensures Under(e0, -(precision as int)) == Under(e0, -767)
  {
    PowAdd(10, 767, precision - 767);
    hide Pow;
    MulAssoc(f0 * Pow(2, Up(e0)), Pow(10, 767), Pow(10, precision - 767));
  }

  lemma AskedMeans(total: int, f0: nat, e0: int, precision: nat)
    requires precision >= 767
    ensures AsAsked(total, f0, e0, precision)
       <==> Nearest(total * Pow(10, precision - 767), Over(f0, e0, -(precision as int)), Under(e0, -(precision as int)))
  {
  }

  lemma AbsZero(x: int)
    ensures Abs(x) == 0 <==> x == 0
  {
  }

  lemma ProductZero(w: nat, g: nat)
    requires g > 0
    ensures w * g == 0 <==> w == 0
  {
  }

  lemma CommonFactor(w: nat, g: nat, t: nat, d: nat)
    requires g > 0
    ensures 2 * ((w * g) * t) <= d * g <==> 2 * (t * w) <= d
  {
    assert 2 * ((w * g) * t) == (2 * (t * w)) * g;
    if 2 * (t * w) <= d {
      MulMonotone(2 * (t * w), d, g);
    } else {
      MulStrictMonotone(d, 2 * (t * w), g);
    }
  }

  /** 2^-768 ends in a five at the 768th place behind the point, which the limit leaves out. */
  lemma LimitLosesDigit()
    ensures Beyond(1, -768) == 1 && Divisor(-768) == 2
    ensures forall total :: Nearest(total, Over(1, -768, -767), Under(-768, -767)) ==> !AsAsked(total, 1, -768, 768)
  {
    FivePowerOdd(767);
    assert Pow(2, 1) == 2 && Pow(10, 1) == 10;
    hide Pow, Over, Under, Nearest, AsAsked;
    forall total | Nearest(total, Over(1, -768, -767), Under(-768, -767))
      ensures !AsAsked(total, 1, -768, 768)
    {
      FixedLimit(1, -768, total, 768);
    }
  }
}
