/**
 * Formatting with a given precision: the fast generator works on the value scaled by a cached
 * power of ten, and where it gives up the exact algorithm takes over at the exponent it has found.
 */
module FormatFloat {
  import opened Powers
  import opened DigitText
  import opened DigitCount
  import opened FallbackFormat
  import opened CachedPowers
  import opened DigitLimit
  import Grisu
  import Products

  /** value * 10^k = value0 * 2^e0 * 10^k lies within one unit of f, all of them scaled by 2^s. */
  predicate WithinOne(f0: nat, e0: int, k: int, f: nat, s: nat) {
    var unit := Under(e0, -k);
    (f - 1) * unit <= Over(f0, e0, -k) * Pow(2, s) <= (f + 1) * unit
  }

  /** The upper bound is never met, as the error of a rounded product with a rounded power is below one. */
  predicate BelowOneMore(f0: nat, e0: int, k: int, f: nat, s: nat) {
    Over(f0, e0, -k) * Pow(2, s) < (f + 1) * Under(e0, -k)
  }

  /** What the exact algorithm asks of its decimal exponent. */
  predicate Fits(f0: nat, e0: int, exp10: int) {
    Over(f0, e0, exp10) < 10 * Under(e0, exp10)
  }

  // ----- the scaled number -----

  /**
   * The product of a normalized significand m * 2^en and a cached power c * 2^ec that is right to
   * half a unit is off by less than one unit.
   */
  lemma ScaledByProduct(f0: nat, e0: int, m: Products.Word, en: int, c: Products.Word, ec: int, k: int, s: nat)
    requires en <= e0 && m == f0 * Pow(2, e0 - en) && s == -(en + ec + 64)
    requires Nearest(c, Over(1, -ec, -k), Under(-ec, -k))
    ensures WithinOne(f0, e0, k, Products.Multiply(m, c), s) && BelowOneMore(f0, e0, k, Products.Multiply(m, c), s)
  {
    var f: nat := Products.Multiply(m, c);
    var a, d, p, q := Over(f0, e0, -k), Under(e0, -k), Over(1, -ec, -k), Under(-ec, -k);
    hide *;
    SameProduct(f0, e0, m, en, ec, k, s);
    ProductBounds(m, c, f);
    ErrorBelowOne(m, c, f, p, q);
    BoundsCarryOver(a * Pow(2, s), 0x1_0000_0000_0000_0000 * q, (m as int) * p, d, f - 1, f + 1);
    BetweenMeans(f0, e0, k, f, s);
  }

  /** The number f * 2^-s as it stands for a value times 10^k. */
  datatype Scaled = Scaled(f: nat, s: nat, k: int)

  /** What the generator of digits asks of its input, and how close to the value it is. */
  predicate StandsFor(x: Scaled, f0: nat, e0: int) {
    && 32 <= x.s <= 60 && x.f < 0x1_0000_0000_0000_0000 && 0 < x.f / Pow(2, x.s) < 0x1_0000_0000 && -348 <= x.k <= 340
    && WithinOne(f0, e0, x.k, x.f, x.s) && BelowOneMore(f0, e0, x.k, x.f, x.s)
  }

  function Times(x: Fp, y: Fp): Fp
    requires x.f < 0x1_0000_0000_0000_0000 && y.f < 0x1_0000_0000_0000_0000
  {
    Fp(Products.Multiply(x.f, y.f), x.e + y.e + 64)
  }

  const MIN_EXP := -60

  /** Every double is scaled to fewer than 33 bits before the point and less than 61 behind it. */
  method Scale(f0: nat, e0: int) returns (x: Scaled)
    requires 0 < f0 < 0x20_0000_0000_0000 && -1074 <= e0 <= 971
    ensures StandsFor(x, f0, e0)
  {
    hide Nearest, Over, Under, WithinOne, BelowOneMore, Products.Multiply, Pow;
    var value := Normalize(Fp(f0, e0));
    var cachedPow, cachedExp10 := GetCachedPower(MIN_EXP - (value.e + 64));
    var normalized := Times(value, cachedPow);
    x := Scaled(normalized.f, -normalized.e, cachedExp10);
    ScaledByProduct(f0, e0, value.f, value.e, cachedPow.f, cachedPow.e, cachedExp10, x.s);
    BitsBeforePoint(value.f, cachedPow.f, x.s);
  }

  lemma BitsBeforePoint(m: Products.Word, c: Products.Word, s: nat)
    requires m >= 0x8000_0000_0000_0000 && c >= 0x8000_0000_0000_0000 && 32 <= s <= 60
    ensures 0 < Products.Multiply(m, c) / Pow(2, s) < 0x1_0000_0000
  {
    var f: nat := Products.Multiply(m, c);
    ProductBounds(m, c, f);
    EightPowers();
    TwoPowers();
    assert Pow(2, 60) == 2 * Pow(2, 59);
    hide *;
    MulMonotone(0x8000_0000_0000_0000, m, c);
    PowMonotone(2, 32, s);
    PowMonotone(2, s, 60);
    QuotientBounds(f, Pow(2, s));
  }

  lemma QuotientBounds(f: nat, d: nat)
    requires 0x1_0000_0000 <= d <= f && f < 0x1_0000_0000_0000_0000
    ensures 0 < f / d < 0x1_0000_0000
  {
    if f / d >= 0x1_0000_0000 {
      MulMonotone(0x1_0000_0000, f / d, d);
    }
    if f / d <= 0 {
      MulMonotone(f / d, 0, d);
    }
  }

  lemma BetweenMeans(f0: nat, e0: int, k: int, f: nat, s: nat)
    requires (f - 1) * Under(e0, -k) < Over(f0, e0, -k) * Pow(2, s) < (f + 1) * Under(e0, -k)
    ensures WithinOne(f0, e0, k, f, s) && BelowOneMore(f0, e0, k, f, s)
  {
  }

  lemma BoundsCarryOver(x: int, w: int, y: int, d: int, lo: int, hi: int)
    requires w > 0 && d > 0 && x * w == y * d && lo * w < y < hi * w
    ensures lo * d < x < hi * d
  {
    MulStrictMonotone(lo * w, y, d);
    MulStrictMonotone(y, hi * w, d);
    assert (lo * w) * d == (lo * d) * w && (hi * w) * d == (hi * d) * w;
    MulCancelLess(lo * d, x, w);
    MulCancelLess(x, hi * d, w);
  }

  lemma ProductBounds(m: Products.Word, c: Products.Word, f: nat)
    requires f == Products.Multiply(m, c)
    ensures f * 0x1_0000_0000_0000_0000 <= (m as int) * (c as int) + 0x8000_0000_0000_0000
    ensures (m as int) * (c as int) + 0x8000_0000_0000_0000 < (f + 1) * 0x1_0000_0000_0000_0000
  {
    hide Products.Multiply;
  }

  /** Half a unit of the power times m and half a unit of rounding stay below one. */
  lemma ErrorBelowOne(m: Products.Word, c: Products.Word, f: nat, p: nat, q: nat)
    requires Nearest(c, p, q) && q > 0
    requires f * 0x1_0000_0000_0000_0000 <= (m as int) * (c as int) + 0x8000_0000_0000_0000
    requires (m as int) * (c as int) + 0x8000_0000_0000_0000 < (f + 1) * 0x1_0000_0000_0000_0000
    ensures (f - 1) * (0x1_0000_0000_0000_0000 * q) < (m as int) * p < (f + 1) * (0x1_0000_0000_0000_0000 * q)
  {
    var mc := (m as int) * (c as int);
    ErrorOfPower(m, c, p, q);
    hide Nearest;
    MulStrictMonotone(2 * mc + m, 2 * (0x1_0000_0000_0000_0000 * (f + 1)), q);
    MulStrictMonotone(2 * (0x1_0000_0000_0000_0000 * (f - 1)), 2 * mc - m, q);
    WidthOut(f + 1, q);
    WidthOut(f - 1, q);
  }

  lemma ErrorOfPower(m: int, c: int, p: int, q: int)
    requires Nearest(c, p, q) && m >= 0
    ensures (2 * (m * c) - m) * q <= 2 * (m * p) <= (2 * (m * c) + m) * q
  {
    MulMonotone(2 * c * q - q, 2 * p, m);
    MulMonotone(2 * p, 2 * c * q + q, m);
    assert (2 * c * q - q) * m == (2 * (m * c) - m) * q && (2 * c * q + q) * m == (2 * (m * c) + m) * q;
  }

  lemma WidthOut(f: int, q: int)
    ensures (2 * (0x1_0000_0000_0000_0000 * f)) * q == 2 * (f * (0x1_0000_0000_0000_0000 * q))
  {
    MulAssoc(f, 0x1_0000_0000_0000_0000, q);
    MulAssoc(2, 0x1_0000_0000_0000_0000 * f, q);
  }

  /** Both sides hold the same powers of two, and of ten. */
  lemma SameProduct(f0: nat, e0: int, m: nat, en: int, ec: int, k: int, s: nat)
    requires en <= e0 && m == f0 * Pow(2, e0 - en) && s == -(en + ec + 64)
    ensures (Over(f0, e0, -k) * Pow(2, s)) * (0x1_0000_0000_0000_0000 * Under(-ec, -k))
         == (m * Over(1, -ec, -k)) * Under(e0, -k)
  {
    var t, u := Pow(10, Up(k)), Pow(10, Up(-k));
    var x, y, y', x', n := Up(e0), Up(ec), Up(-ec), Up(-e0), e0 - en;
    TwoPowers();
    assert x + s + y + 64 == n + y' + x';
    assert Over(f0, e0, -k) == f0 * Pow(2, x) * t && Under(e0, -k) == Pow(2, x') * u;
    assert Over(1, -ec, -k) == 1 * Pow(2, y') * t && Under(-ec, -k) == Pow(2, y) * u;
    hide *;
    TwosTogether(x, s, y);
    TwosTogether(n, y', x');
    PowAdd(2, x + s + y, 64);
    SortScaled(f0, Pow(2, x), t, Pow(2, s), Pow(2, 64), Pow(2, y), u);
    SortProduct(f0, Pow(2, n), Pow(2, y'), t, Pow(2, x'), u);
  }

  lemma TwosTogether(a: nat, b: nat, c: nat)
    ensures (Pow(2, a) * Pow(2, b)) * Pow(2, c) == Pow(2, a + b + c)
  {
    hide Pow;
    PowAdd(2, a, b);
    PowAdd(2, a + b, c);
  }

  lemma SortScaled(f: int, x: int, t: int, s: int, w: int, y: int, u: int)
    ensures ((f * x * t) * s) * (w * (y * u)) == (f * (((x * s) * y) * w)) * (t * u)
  {
    MulSwap(f * x, t, s, 1);
    assert w * (y * u) == (w * y) * u;
    MulSwap((f * x) * s, t, w * y, u);
    MulAssoc(f, x, s);
    MulAssoc(f, x * s, w * y);
    MulAssoc(x * s, y, w);
  }

  lemma SortProduct(f: int, n: int, y: int, t: int, x: int, u: int)
    ensures ((f * n) * (1 * y * t)) * (x * u) == (f * ((n * y) * x)) * (t * u)
  {
    MulAssoc(f * n, y, t);
    MulSwap((f * n) * y, t, x, u);
    MulAssoc(f, n, y);
    MulAssoc(f, n * y, x);
  }

  // ----- the hand-over -----

  /** The exponent that kappa digits before the point give fits when the scaled value has no more. */
  lemma FitsMeans(f0: nat, e0: int, k: int, kappa: nat, s: nat)
    requires kappa >= 1
    ensures Fits(f0, e0, kappa - k - 1)
       <==> Over(f0, e0, -k) * Pow(2, s) < (Pow(10, kappa) * Pow(2, s)) * Under(e0, -k)
  {
    hide Over, Under, Pow;
    var b := kappa - k - 1;
    MovedFraction(f0, e0, -k, b, 0, kappa - 1);
    UnitPowers();
    Grisu.NextTen(kappa - 1);
    assert Over(f0, e0, -k) * Pow(10, 0) == Over(f0, e0, -k);
    FitsRatio(Over(f0, e0, -k), Under(e0, -k), Over(f0, e0, b), Under(e0, b), Pow(10, kappa - 1));
    ScaledOrder(Over(f0, e0, -k), Pow(10, kappa), Under(e0, -k), Pow(2, s));
  }

  lemma FitsRatio(o: nat, u: nat, o': nat, u': nat, t: nat)
    requires u > 0 && u' > 0 && t > 0 && o * u' == o' * (u * t)
    ensures o' < 10 * u' <==> o < (10 * t) * u
  {
    var w := u * t;
    PositiveProduct(u, t);
    assert (10 * t) * u == 10 * w;
    assert (10 * u') * w == (10 * w) * u';
    if o' < 10 * u' {
      MulStrictMonotone(o', 10 * u', w);
      MulCancelLess(o, 10 * w, u');
    }
    if o < 10 * w {
      MulStrictMonotone(o, 10 * w, u');
      MulCancelLess(o', 10 * u', w);
    }
  }

  lemma ScaledOrder(o: nat, t: nat, u: nat, p: nat)
    requires p > 0
    ensures o < t * u <==> o * p < (t * p) * u
  {
    assert (t * p) * u == (t * u) * p;
    if o < t * u {
      MulStrictMonotone(o, t * u, p);
    } else {
      MulMonotone(t * u, o, p);
    }
  }

  /** Short of the next power of ten by more than the error, or with the bound not met, the exponent fits. */
  lemma HandOver(f0: nat, e0: int, k: int, f: nat, s: nat, kappa: nat)
    requires kappa >= 1 && f < Pow(10, kappa) * Pow(2, s)
    requires WithinOne(f0, e0, k, f, s)
    requires f + 1 < Pow(10, kappa) * Pow(2, s) || BelowOneMore(f0, e0, k, f, s)
    ensures Fits(f0, e0, kappa - k - 1)
  {
    FitsMeans(f0, e0, k, kappa, s);
    hide Over, Under, Pow;
    var bound, unit := Pow(10, kappa) * Pow(2, s), Under(e0, -k);
    if f + 1 < bound {
      MulStrictMonotone(f + 1, bound, unit);
    } else {
      assert f + 1 == bound;
    }
  }

  /** Ten to the kappa itself, when f falls one short of it. */
  lemma NextPower(f: nat, s: nat, kappa: nat)
    requires 1 <= kappa <= 10 && f + 1 == Pow(10, kappa) * Pow(2, s)
    ensures 0 < Pow(10, kappa) < 0x20_0000_0000_0000
    ensures WithinOne(Pow(10, kappa), 0, 0, f, s) && !Fits(Pow(10, kappa), 0, kappa - 1)
  {
    hide Pow, Over, Under;
    var ten := Pow(10, kappa);
    TenPowers();
    PowMonotone(10, kappa, 10);
    Whole(ten);
    FitsMeans(ten, 0, 0, kappa, s);
  }

  lemma Whole(n: nat)
    ensures Over(n, 0, 0) == n && Under(0, 0) == 1
  {
  }

  predicate AlwaysFits(f: nat, s: nat, kappa: nat, f0: nat, e0: int, k: int) {
    0 < f0 < 0x20_0000_0000_0000 && WithinOne(f0, e0, k, f, s) ==> Fits(f0, e0, kappa - k - 1)
  }

  /**
   * With nothing known but the error of one unit, the exponent handed over is right for every
   * significand, exponent and power if and only if f is not just one short of a power of ten.
   */
  lemma HandOverExactly(f: nat, s: nat, kappa: nat)
    requires 1 <= kappa <= 10 && f < Pow(10, kappa) * Pow(2, s)
    ensures (forall f0: nat, e0: int, k: int :: AlwaysFits(f, s, kappa, f0, e0, k))
        <==> f + 1 < Pow(10, kappa) * Pow(2, s)
  {
    if f + 1 < Pow(10, kappa) * Pow(2, s) {
      forall f0: nat, e0: int, k: int
        ensures AlwaysFits(f, s, kappa, f0, e0, k)
      {
        if 0 < f0 < 0x20_0000_0000_0000 && WithinOne(f0, e0, k, f, s) {
          HandOver(f0, e0, k, f, s, kappa);
        }
      }
    } else {
      NextPower(f, s, kappa);
      assert !AlwaysFits(f, s, kappa, Pow(10, kappa), 0, 0);
    }
  }

  // ----- the first digit -----

  /** The value reaches the power of ten, so that its first digit at this exponent is not zero. */
  predicate Leads(f0: nat, e0: int, exp10: int) {
    Under(e0, exp10) <= Over(f0, e0, exp10)
  }

  lemma LeadsMeans(f0: nat, e0: int, k: int, kappa: nat, s: nat)
    requires kappa >= 1
    ensures Leads(f0, e0, kappa - k - 1)
       <==> Over(f0, e0, -k) * Pow(2, s) >= (Pow(10, kappa - 1) * Pow(2, s)) * Under(e0, -k)
  {
    hide Over, Under, Pow;
    var b := kappa - k - 1;
    MovedFraction(f0, e0, -k, b, 0, kappa - 1);
    UnitPowers();
    assert Over(f0, e0, -k) * Pow(10, 0) == Over(f0, e0, -k);
    LeadsRatio(Over(f0, e0, -k), Under(e0, -k), Over(f0, e0, b), Under(e0, b), Pow(10, kappa - 1));
    ScaledOrder(Over(f0, e0, -k), Pow(10, kappa - 1), Under(e0, -k), Pow(2, s));
  }

  lemma LeadsRatio(o: nat, u: nat, o': nat, u': nat, t: nat)
    requires u > 0 && u' > 0 && t > 0 && o * u' == o' * (u * t)
    ensures u' <= o' <==> o >= t * u
  {
    var w := u * t;
    PositiveProduct(u, t);
    if o' < u' {
      MulStrictMonotone(o', u', w);
      MulCancelLess(o, w, u');
    }
    if o < w {
      MulStrictMonotone(o, w, u');
      MulCancelLess(o', u', w);
    }
  }

  /** Above the power of ten by more than the error, every value within it leads with a nonzero digit. */
  lemma LeadsBelow(f0: nat, e0: int, k: int, f: nat, s: nat, kappa: nat)
    requires kappa >= 1 && f - 1 >= Pow(10, kappa - 1) * Pow(2, s)
    requires WithinOne(f0, e0, k, f, s)
    ensures Leads(f0, e0, kappa - k - 1)
  {
    LeadsMeans(f0, e0, k, kappa, s);
    hide Over, Under, Pow;
    MulMonotone(Pow(10, kappa - 1) * Pow(2, s), f - 1, Under(e0, -k));
  }

  predicate AlwaysLeads(f: nat, s: nat, kappa: nat, f0: nat, e0: int, k: int) {
    WithinOne(f0, e0, k, f, s) ==> Leads(f0, e0, kappa - k - 1)
  }

  /** One unit below the power of ten that f just reaches. */
  lemma JustBelow(f: nat, s: nat, kappa: nat)
    requires kappa >= 1 && f == Pow(10, kappa - 1) * Pow(2, s) && f > 0
    ensures WithinOne(f - 1, -(s as int), 0, f, s) && !Leads(f - 1, -(s as int), kappa - 1)
  {
    var e0 := -(s as int);
    Below(f - 1, s);
    LeadsMeans(f - 1, e0, 0, kappa, s);
    hide Pow, Over, Under;
    var p := Pow(2, s);
    MulStrictMonotone(f - 1, f, p);
    MulMonotone(f, f + 1, p);
  }

  lemma Below(n: nat, s: nat)
    ensures Over(n, -(s as int), 0) == n && Under(-(s as int), 0) == Pow(2, s)
  {
    UnitPowers();
    hide Pow;
  }

  /**
   * The first digit the exact algorithm writes at the exponent handed over is nonzero for every
   * value within one unit of f if and only if f does not just reach the power of ten.
   */
  lemma FirstDigitExactly(f: nat, s: nat, kappa: nat)
    requires kappa >= 1 && f >= Pow(10, kappa - 1) * Pow(2, s)
    ensures (forall f0: nat, e0: int, k: int :: AlwaysLeads(f, s, kappa, f0, e0, k))
       <==> f - 1 >= Pow(10, kappa - 1) * Pow(2, s)
  {
    if f - 1 >= Pow(10, kappa - 1) * Pow(2, s) {
      forall f0: nat, e0: int, k: int
        ensures AlwaysLeads(f, s, kappa, f0, e0, k)
      {
        if WithinOne(f0, e0, k, f, s) {
          LeadsBelow(f0, e0, k, f, s, kappa);
        }
      }
    } else {
      PositiveProduct(Pow(10, kappa - 1), Pow(2, s));
      JustBelow(f, s, kappa);
      assert !AlwaysLeads(f, s, kappa, f - 1, -(s as int), 0);
    }
  }

  /** What is rounded from at least a power of ten is at least that power. */
  lemma AtLeastPower(f0: nat, e0: int, b: int, place: int, wanted: int, total: int)
    requires Leads(f0, e0, b) && wanted > 0 && b == place + wanted - 1
    requires Nearest(total, Over(f0, e0, place), Under(e0, place))
    ensures total >= Pow(10, wanted - 1)
  {
    hide Over, Under, Pow;
    MovedFraction(f0, e0, b, place, wanted - 1, 0);
    UnitPowers();
    var o, u, o', u', t := Over(f0, e0, b), Under(e0, b), Over(f0, e0, place), Under(e0, place), Pow(10, wanted - 1);
    assert u * Pow(10, 0) == u;
    PowerReached(o, u, o', u', t);
    NearestAtLeast(total, o', u', t);
  }

  lemma PowerReached(o: nat, u: nat, o': nat, u': nat, t: nat)
    requires u > 0 && u' > 0 && t > 0 && (o * t) * u' == o' * u && u <= o
    ensures o' >= t * u'
  {
    if o' < t * u' {
      MulStrictMonotone(o', t * u', u);
      MulMonotone(u, o, t * u');
      assert (o * t) * u' == o * (t * u') by { MulAssoc(o, t, u'); }
    }
  }

  lemma NearestAtLeast(q: int, x: int, d: int, t: int)
    requires Nearest(q, x, d) && d > 0 && x >= t * d
    ensures q >= t
  {
    assert (t - 1) * d == t * d - d;
    if q <= t - 1 {
      MulMonotone(q, t - 1, d);
    }
  }

  /** A whole value has no negative decimal exponent. */
  lemma WholeExponent(f0: nat, e0: int, exp10: int)
    requires f0 > 0 && e0 >= 0 && Fits(f0, e0, exp10)
    ensures exp10 >= 0
  {
    if exp10 < 0 {
      assert Under(e0, exp10) == Pow(2, 0) * Pow(10, 0);
      UnitPowers();
      assert Pow(10, -exp10) == 10 * Pow(10, -exp10 - 1);
      var a, t := f0 * Pow(2, e0), Pow(10, -exp10 - 1);
      assert Over(f0, e0, exp10) == a * (10 * t);
      hide *;
      MulLowerBound(f0, Pow(2, e0));
      AtLeastTen(a, t);
    }
  }

  lemma AtLeastTen(a: nat, t: nat)
    requires a > 0 && t > 0
    ensures a * (10 * t) >= 10
  {
    MulLowerBound(a, t);
    assert a * (10 * t) == 10 * (a * t);
  }

  // ----- from the scaled number to the value -----

  lemma HalfScaled(m: int, u: int, lo: int, hi: int, d: int, x: int)
    requires Grisu.WithinHalf(m, u, lo, hi) && d > 0 && lo * d <= x <= hi * d
    ensures Nearest(m, x, u * d)
  {
    assert (m * u) * d == m * (u * d) by { MulAssoc(m, u, d); }
    MulMonotone(2 * (m * u - lo), u, d);
    MulMonotone(2 * (hi - m * u), u, d);
    assert (2 * (m * u - lo)) * d == 2 * (m * (u * d) - lo * d);
    assert (2 * (hi - m * u)) * d == 2 * (hi * d - m * (u * d));
  }

  /** Digits that are right for all numbers within one unit of the scaled input are right for the value. */
  lemma RoundedValue(f0: nat, e0: int, k: int, f: nat, s: nat, total: int, p: int)
    requires WithinOne(f0, e0, k, f, s) && Grisu.Rounded(f, s, total, p)
    ensures Nearest(total, Over(f0, e0, p - k), Under(e0, p - k))
  {
    var a, d, two := Over(f0, e0, -k), Under(e0, -k), Pow(2, s);
    var o, u := Over(f0, e0, p - k), Under(e0, p - k);
    var x, y := if p < 0 then -p else 0, if p < 0 then 0 else p;
    MovedFraction(f0, e0, -k, p - k, x, y);
    UnitPowers();
    assert (f - 1) * d <= a * two <= (f + 1) * d;
    if p >= 0 {
      var t := Pow(10, p);
      assert Grisu.WithinHalf(total, t * two, f - 1, f + 1);
      hide *;
      HalfScaled(total, t * two, f - 1, f + 1, d, a * two);
      WholePlaces(a, u, o, d, t, two);
      PositiveProduct(t, two);
      PositiveProduct(t * two, d);
      NearestRatio(total, a * two, (t * two) * d, o, u);
    } else {
      var t := Pow(10, -p);
      assert Grisu.WithinHalf(total, two, (f - 1) * t, (f + 1) * t);
      hide *;
      ScaledBetween(f - 1, d, a * two, f + 1, t);
      HalfScaled(total, two, (f - 1) * t, (f + 1) * t, d, (a * two) * t);
      FractionPlaces(a, u, o, d, t, two);
      PositiveProduct(two, d);
      NearestRatio(total, (a * two) * t, two * d, o, u);
    }
  }

  lemma WholePlaces(a: int, u: int, o: int, d: int, t: int, two: int)
    requires (a * 1) * u == o * (d * t)
    ensures (a * two) * u == o * ((t * two) * d)
  {
    assert (a * two) * u == (a * u) * two;
    assert (t * two) * d == (d * t) * two;
    MulAssoc(o, d * t, two);
  }

  lemma FractionPlaces(a: int, u: int, o: int, d: int, t: int, two: int)
    requires (a * t) * u == o * (d * 1)
    ensures ((a * two) * t) * u == o * (two * d)
  {
    assert (a * two) * t == (a * t) * two;
    assert ((a * t) * two) * u == ((a * t) * u) * two;
    assert o * (two * d) == (o * d) * two;
  }

  lemma ScaledBetween(lo: int, d: int, x: int, hi: int, t: int)
    requires lo * d <= x <= hi * d && t > 0
    ensures (lo * t) * d <= x * t <= (hi * t) * d
  {
    MulMonotone(lo * d, x, t);
    MulMonotone(x, hi * d, t);
    assert (lo * t) * d == (lo * d) * t && (hi * t) * d == (hi * d) * t;
  }

  // ----- the result -----

  /** Digits denoting n at decimal exponent exp are the total counted in units of place. */
  predicate Printed(n: int, exp: int, total: int, place: int) {
    (n == 0 && total == 0) || (exp >= place && total == n * Pow(10, exp - place))
  }

  const MAX_DOUBLE_DIGITS: nat := 767

  function Limited(precision: nat): nat {
    if precision > MAX_DOUBLE_DIGITS then MAX_DOUBLE_DIGITS else precision
  }

  /**
   * The decimal place that is asked for: counted from the point, or from the first digit of the
   * scaled value. With a precision of zero and no fixed point the fast algorithm prints the first
   * digit and the exact one, which steps in where that is in doubt, the place above it.
   */
  function WantedPlace(fixed: bool, precision: nat, f: nat, s: nat, kappa: int, k: int): int {
    if fixed then -(precision as int)
    else if precision > 0 then kappa - k - precision
    else if Grisu.Undecided(f, s, kappa - 1) then kappa - k
    else kappa - k - 1
  }

  /** How many digits are wanted: the precision, counted from the first digit or from the point. */
  function WantedDigits(fixed: bool, precision: nat, kappa: int, k: int): int {
    if fixed then precision + kappa - k else if precision > 0 then precision else 1
  }

  /** The text has the wanted digits at its place, unless a carry has made it a one followed by zeros. */
  predicate RightSize(buf: seq<char>, exp: int, place: int, wanted: int) {
    if wanted < 0 then buf == []
    else if wanted == 0 then |buf| == 1 && exp == place
    else
      || (|buf| == wanted && exp == place)
      || (wanted <= |buf| <= wanted + 1 && exp + |buf| == place + wanted + 1 && Number(buf) == Pow(10, |buf| - 1))
  }

  /** The first digit is a zero just when the total is below the power of ten of the wanted length. */
  lemma FirstDigit(buf: seq<char>, exp: int, total: int, place: int, wanted: int)
    requires AllDigits(buf) && wanted > 0 && RightSize(buf, exp, place, wanted)
    requires Printed(Number(buf), exp, total, place)
    ensures buf[0] == '0' <==> total < Pow(10, wanted - 1)
  {
    UnitPowers();
    hide Pow, Number;
    LeadingZero(buf);
    if |buf| != wanted || exp != place {
      PowAdd(10, |buf| - 1, exp - place);
      PowMonotone(10, wanted - 1, wanted);
    }
  }

  /** The fast algorithm and, where it fails, the exact one; total is the value in units of place. */
  method PrintDigits(f0: nat, e0: int, shift: nat, f: nat, s: nat, k: int, precision: nat, fixed: bool)
      returns (buf: seq<char>, exp: int, ghost total: int)
    requires 0 < f0 < 0x20_0000_0000_0000 && 1 <= shift <= 2 && -348 <= k <= 340 && precision <= MAX_DOUBLE_DIGITS
    requires 32 <= s <= 60 && f < 0x1_0000_0000_0000_0000 && 0 < f / Pow(2, s) < 0x1_0000_0000
    requires WithinOne(f0, e0, k, f, s) && BelowOneMore(f0, e0, k, f, s)
    ensures var place := WantedPlace(fixed, precision, f, s, CountDigits32(f / Pow(2, s)), k);
            && AllDigits(buf) && Printed(Number(buf), exp, total, place)
            && Nearest(total, Over(f0, e0, place), Under(e0, place))
            && RightSize(buf, exp, place, WantedDigits(fixed, precision, CountDigits32(f / Pow(2, s)), k))
    ensures !fixed ==> |buf| == if precision == 0 then 1 else precision
    ensures var wanted := WantedDigits(fixed, precision, CountDigits32(f / Pow(2, s)), k);
            && (wanted > 0 ==> buf != [] && (buf[0] == '0' <==> total < Pow(10, wanted - 1)))
            && (wanted > 0 && (fixed || precision > 0) && Leads(f0, e0, CountDigits32(f / Pow(2, s)) - k - 1)
                ==> buf[0] != '0')
  {
    hide Pow, Number, Over, Under, WithinOne, BelowOneMore, CountDigits32, Nearest, NearestEven, Fits, Printed;
    hide Grisu.Rounded;
    hide Grisu.Undecided;
    ghost var place := WantedPlace(fixed, precision, f, s, CountDigits32(f / Pow(2, s)), k);
    ghost var kappa := CountDigits32(f / Pow(2, s));
    Grisu.IntegralDigits(f, s, kappa);
    var handler := new Grisu.FixedHandler(precision, -k, fixed);
    var result;
    result, exp := Grisu.GenerateDigits(f, s, handler);
    if result == Grisu.Error {
      exp := exp + |handler.buf| - k - 1;
      HandOver(f0, e0, k, f, s, kappa);
      if e0 >= 0 {
        WholeExponent(f0, e0, exp);
      }
      FitsIs(f0, e0, exp);
      assert place == exp - (handler.precision - 1);
      buf, exp := FormatDigits(f0, e0, shift, handler.precision, exp);
      total := if exp == place then Number(buf) else 10 * Number(buf);
      EvenIsNearest(total, Over(f0, e0, place), Under(e0, place));
    } else {
      buf := handler.buf;
      exp := exp + handler.exp10;
      total := handler.Total(-k);
      ghost var p := Grisu.RoundingPlace(fixed, precision, -k, exp - handler.exp10);
      assert handler.precision >= 0 || !fixed ==> place == p - k;
      assert place == p - k;
      RoundedValue(f0, e0, k, f, s, total, p);
      NumberNothing();
    }
    PrintedAt(Number(buf), exp, total, place);
    ghost var wanted := WantedDigits(fixed, precision, kappa, k);
    if wanted > 0 {
      FirstDigit(buf, exp, total, place, wanted);
      if (fixed || precision > 0) && Leads(f0, e0, kappa - k - 1) {
        AtLeastPower(f0, e0, kappa - k - 1, place, wanted, total);
      }
    }
  }

  lemma FitsIs(f0: nat, e0: int, exp10: int)
    ensures Fits(f0, e0, exp10) <==> Over(f0, e0, exp10) < 10 * Under(e0, exp10)
  {
    hide Over, Under;
  }

  lemma EvenIsNearest(q: int, x: int, d: int)
    ensures NearestEven(q, x, d) ==> Nearest(q, x, d)
  {
  }

  lemma PrintedAt(n: int, exp: int, total: int, place: int)
    ensures exp == place && total == n ==> Printed(n, exp, total, place)
    ensures exp == place + 1 && total == 10 * n ==> Printed(n, exp, total, place)
    ensures n == 0 && total == 0 ==> Printed(n, exp, total, place)
  {
    assert Pow(10, 1) == 10 * Pow(10, 0);
  }

  /** Removes the zeros at the end of the text, each of which raises the exponent by one. */
  method RemoveZeros(text: seq<char>, start: int) returns (buf: seq<char>, exp: int)
    requires AllDigits(text)
    ensures buf <= text && exp == start + |text| - |buf|
    ensures Number(text) == Number(buf) * Pow(10, exp - start)
    ensures buf == [] || buf[|buf| - 1] != '0'
    ensures text != [] && text[0] != '0' ==> buf != []
  {
    var numDigits := |text|;
    exp := start;
    assert text[..numDigits] == text;
    while numDigits > 0 && text[numDigits - 1] == '0'
      invariant 0 <= numDigits <= |text| && exp == start + |text| - numDigits
      invariant Number(text) == Number(text[..numDigits]) * Pow(10, exp - start)
      invariant text != [] && text[0] != '0' ==> numDigits > 0
    {
      var front := text[..numDigits - 1];
      assert text[..numDigits] == front + ['0'];
      NumberAppend(front, '0');
      MulSwapTen(Number(front), exp - start);
      numDigits := numDigits - 1;
      exp := exp + 1;
    }
    buf := text[..numDigits];
  }

  lemma MulSwapTen(n: int, k: nat)
    ensures (10 * n) * Pow(10, k) == n * Pow(10, k + 1)
  {
    assert Pow(10, k + 1) == 10 * Pow(10, k);
    hide Pow;
    MulAssoc(n, 10, Pow(10, k));
  }

  lemma PrintedShorter(n: int, n': int, k: nat, exp: int, total: int, place: int)
    requires Printed(n, exp, total, place) && n == n' * Pow(10, k)
    ensures Printed(n', exp + k, total, place)
  {
    if n == 0 {
      hide Printed;
      if n' != 0 {
        NonzeroProduct(n', Pow(10, k));
      }
    } else {
      PowAdd(10, k, exp - place);
      hide Pow;
      MulAssoc(n', Pow(10, k), Pow(10, exp - place));
    }
  }

  lemma NonzeroProduct(a: int, b: nat)
    requires a != 0 && b > 0
    ensures a * b != 0
  {
  }

  /** format_float for zero: a single zero, or as many as there are places behind the point. */
  method FormatZero(precision: nat, fixed: bool) returns (buf: seq<char>, exp: int)
    ensures AllDigits(buf) && Number(buf) == 0 && |buf| >= 1
    ensures if fixed && precision > 0 then |buf| == precision && exp == -(precision as int)
            else |buf| == 1 && exp == 0
  {
    if precision == 0 || !fixed {
      buf, exp := ['0'], 0;
    } else {
      buf, exp := seq(precision, _ => '0'), -(precision as int);
    }
    AllZeros(buf);
  }

  /** How many digits the scaled number has before the point. */
  function Kappa(x: Scaled): (kappa: nat)
    requires x.f / Pow(2, x.s) < 0x1_0000_0000
    ensures kappa >= 1
  {
    CountDigits32(x.f / Pow(2, x.s))
  }

  /** The place of the last digit of format_float. */
  function PlaceOf(fixed: bool, precision: nat, x: Scaled): int
    requires x.f / Pow(2, x.s) < 0x1_0000_0000
  {
    WantedPlace(fixed, Limited(precision), x.f, x.s, Kappa(x), x.k)
  }

  function DigitsOf(fixed: bool, precision: nat, x: Scaled): int
    requires x.f / Pow(2, x.s) < 0x1_0000_0000
  {
    WantedDigits(fixed, Limited(precision), Kappa(x), x.k)
  }

  /** Even the smallest value that the scaled number can stand for has its end within 767 digits. */
  lemma HalfLeads(f0: nat, e0: int, x: Scaled)
    requires StandsFor(x, f0, e0)
    ensures Under(e0, Kappa(x) - x.k - 1) <= 2 * Over(f0, e0, Kappa(x) - x.k - 1)
  {
    hide *;
    StandsMeans(x, f0, e0);
    var kappa := Kappa(x);
    Grisu.IntegralDigits(x.f, x.s, kappa);
    LeadsMeans(2 * f0, e0, x.k, kappa, x.s);
    LeadsIs(2 * f0, e0, kappa - x.k - 1);
    TwiceOver(f0, e0, -x.k);
    TwiceOver(f0, e0, kappa - x.k - 1);
    MulLowerBound(Pow(10, kappa - 1), Pow(2, x.s));
    HalfOfFirst(x.f, Pow(10, kappa - 1) * Pow(2, x.s), Under(e0, -x.k), Over(f0, e0, -x.k), Pow(2, x.s));
  }

  lemma StandsMeans(x: Scaled, f0: nat, e0: int)
    requires StandsFor(x, f0, e0)
    ensures 32 <= x.s <= 60 && x.f < 0x1_0000_0000_0000_0000 && 0 < x.f / Pow(2, x.s) < 0x1_0000_0000
    ensures IsDigitCount(x.f / Pow(2, x.s), Kappa(x))
    ensures (x.f - 1) * Under(e0, -x.k) <= Over(f0, e0, -x.k) * Pow(2, x.s)
  {
    hide Pow, Over, Under, IsDigitCount, CountDigits32;
  }

  lemma LeadsIs(f0: nat, e0: int, b: int)
    ensures Leads(f0, e0, b) <==> Under(e0, b) <= Over(f0, e0, b)
  {
    hide Over, Under;
  }

  lemma HalfOfFirst(f: nat, unit: nat, u: nat, o: nat, p: nat)
    requires 2 <= unit <= f && (f - 1) * u <= o * p
    ensures (2 * o) * p >= unit * u
  {
    MulMonotone(unit, 2 * (f - 1), u);
    assert (2 * (f - 1)) * u == 2 * ((f - 1) * u);
    MulAssoc(2, o, p);
  }

  lemma TwiceOver(f0: nat, e0: int, b: int)
    ensures Over(2 * f0, e0, b) == 2 * Over(f0, e0, b)
  {
    hide Pow;
    MulAssoc(2, f0, Pow(2, Up(e0)));
    MulAssoc(2, f0 * Pow(2, Up(e0)), Pow(10, Up(-b)));
  }

  /** What the limit comes to, whether digits are counted from the first one or from the point. */
  lemma LimitMeans(f0: nat, e0: int, x: Scaled, precision: nat, fixed: bool, total: int)
    requires 0 < f0 < 0x20_0000_0000_0000 && -1074 <= e0 <= 971 && StandsFor(x, f0, e0)
    requires Nearest(total, Over(f0, e0, PlaceOf(fixed, precision, x)), Under(e0, PlaceOf(fixed, precision, x)))
    ensures Limited(precision) == if precision <= 767 then precision else 767
    ensures fixed ==> PlaceOf(fixed, precision, x) == if precision <= 767 then -(precision as int) else -767
    ensures !fixed && precision >= 767 ==>
              Over(f0, e0, PlaceOf(fixed, precision, x)) == total * Under(e0, PlaceOf(fixed, precision, x))
    ensures fixed && precision > 767 ==>
              (AsAsked(total, f0, e0, precision)
               <==> 2 * (Pow(10, precision - 767) * Beyond(f0, e0)) <= Divisor(e0))
  {
    hide Pow, Over, Under, Nearest, AsAsked, Beyond, Divisor, Kappa, WithinOne, BelowOneMore;
    if precision >= 767 {
      if fixed {
        FixedLimit(f0, e0, total, precision);
      } else {
        LimitIsExact(f0, e0, x, total);
      }
    }
  }

  /** With 767 digits counted from the first nothing of a double is left out. */
  lemma LimitIsExact(f0: nat, e0: int, x: Scaled, total: int)
    requires 0 < f0 < 0x20_0000_0000_0000 && -1074 <= e0 <= 971 && StandsFor(x, f0, e0)
    requires var place := Kappa(x) - x.k - 767; Nearest(total, Over(f0, e0, place), Under(e0, place))
    ensures var place := Kappa(x) - x.k - 767; Over(f0, e0, place) == total * Under(e0, place)
  {
    HalfLeads(f0, e0, x);
    hide *;
    var place := Kappa(x) - x.k - 767;
    ReachesEnd(f0, e0, place);
    EndsThere(f0, e0, place, total);
  }

  /**
   * format_float for a double f0 * 2^e0 and a precision. The digits and the exponent it returns
   * are the value rounded to nearest at the place that the precision asks for, whichever algorithm
   * has produced them. Beyond 767 no more digits are generated: counted from the first digit the
   * value has come to its end by then, and counted from the point what is printed is the value
   * rounded as asked exactly when what lies beyond is small enough. Zeros are removed from the end
   * of digits only where neither the form nor the caller asks for them.
   */
  method Format(f0: nat, e0: int, shift: nat, precision: nat, fixed: bool, showpoint: bool)
      returns (buf: seq<char>, exp: int, ghost total: int, ghost digits: seq<char>, ghost x: Scaled)
    requires 0 < f0 < 0x20_0000_0000_0000 && -1074 <= e0 <= 971 && 1 <= shift <= 2
    ensures StandsFor(x, f0, e0)
    ensures AllDigits(buf) && Printed(Number(buf), exp, total, PlaceOf(fixed, precision, x))
    ensures Nearest(total, Over(f0, e0, PlaceOf(fixed, precision, x)), Under(e0, PlaceOf(fixed, precision, x)))
    ensures RightSize(digits, exp + |buf| - |digits|, PlaceOf(fixed, precision, x), DigitsOf(fixed, precision, x))
    ensures fixed ==> PlaceOf(fixed, precision, x) == if precision <= 767 then -(precision as int) else -767
    ensures !fixed ==> |digits| == if precision == 0 then 1 else if precision <= 767 then precision else 767
    ensures !fixed && precision >= 767 ==>
              Over(f0, e0, PlaceOf(fixed, precision, x)) == total * Under(e0, PlaceOf(fixed, precision, x))
    ensures fixed && precision > 767 ==>
              (AsAsked(total, f0, e0, precision)
               <==> 2 * (Pow(10, precision - 767) * Beyond(f0, e0)) <= Divisor(e0))
    ensures buf <= digits && if !fixed && !showpoint then buf == [] || buf[|buf| - 1] != '0' else buf == digits
    ensures var wanted := DigitsOf(fixed, precision, x);
            && (wanted > 0 ==> digits != [] && (digits[0] == '0' <==> total < Pow(10, wanted - 1)))
            && (wanted > 0 && (fixed || precision > 0) && Leads(f0, e0, Kappa(x) - x.k - 1)
                ==> buf != [] && buf[0] != '0')
  {
    hide Pow, Number, Over, Under, WithinOne, BelowOneMore, WantedPlace, Nearest, Printed, RightSize, Leads;
    hide CountDigits32;
    var scaled := Scale(f0, e0);
    x := scaled;
    buf, exp, total := PrintDigits(f0, e0, shift, scaled.f, scaled.s, scaled.k, Limited(precision), fixed);
    digits := buf;
    LimitMeans(f0, e0, x, precision, fixed, total);
    if !fixed && !showpoint {
      ghost var text, start := buf, exp;
      buf, exp := RemoveZeros(buf, exp);
      PrintedShorter(Number(text), Number(buf), exp - start, start, total, PlaceOf(fixed, precision, x));
    }
  }

  /**
   * Without digits, 2.25 is rounded to units but 2.5, where the fast algorithm is in doubt, to
   * tens. Both are scaled by the fourth power of ten.
   */
  lemma NoDigitsWanted()
    ensures var f := 0x57E4_0000_0000_0000;
            WithinOne(9, -2, 4, f, 48) && IsDigitCount(f / Pow(2, 48), 5) && WantedPlace(false, 0, f, 48, 5, 4) == 0
    ensures var f := 0x61A8_0000_0000_0000;
            WithinOne(5, -1, 4, f, 48) && IsDigitCount(f / Pow(2, 48), 5) && WantedPlace(false, 0, f, 48, 5, 4) == 1
  {
    SmallPowers();
    TenPowers();
    TwoPowers();
    assert Pow(2, 1) == 2 && Pow(2, 2) == 4;
    assert Pow(2, 48) == 0x1_0000_0000_0000 by {
      PowAdd(2, 46, 2);
    }
    hide Pow;
  }
}
