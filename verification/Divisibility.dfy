/** Divisibility by multiplication with a modular inverse, and trailing decimal zeros found with it. */
module Divisibility {
  import opened Powers
  import opened Limbs

  /**
   * Modulo w, multiplication with the inverse of d divides the multiples of d exactly and sends
   * all other numbers beyond the largest quotient.
   */
  lemma InverseTest(x: nat, d: nat, inverse: nat, maxQuotient: nat, w: nat)
    requires d > 0 && x < w && d * inverse % w == 1 && maxQuotient == (w - 1) / d
    ensures x * inverse % w <= maxQuotient <==> x % d == 0
    ensures x % d == 0 ==> x * inverse % w == x / d
  {
    var y := x * inverse % w;
    var j := d * inverse / w;
    if x % d == 0 {
      var k := x / d;
      MultipleQuotient(x, d, k, inverse, j, w);
      QuotientMonotone(x, w - 1, d);
    }
    if y <= maxQuotient {
      SmallQuotient(x, d, inverse, j, w, y);
    }
  }

  lemma MultipleQuotient(x: nat, d: nat, k: nat, inverse: nat, j: nat, w: nat)
    requires d > 0 && x < w && x == k * d && d * inverse == w * j + 1
    ensures x * inverse % w == k
  {
    assert x * inverse == w * (k * j) + k by {
      MulAssoc(k, d, inverse);
      assert k * (w * j + 1) == k * (w * j) + k;
      MulAssoc(k, w, j);
      MulAssoc(w, k, j);
    }
    MulLowerBound(d, k);
    DivUnique(x * inverse, w, k * j, k);
  }

  lemma QuotientMonotone(x: nat, z: nat, d: nat)
    requires d > 0 && x <= z
    ensures x / d <= z / d
  {
    if x / d > z / d {
      MulMonotone(z / d + 1, x / d, d);
    }
  }

  /** A small y with y == x * inverse modulo w gives x back as d * y. */
  lemma SmallQuotient(x: nat, d: nat, inverse: nat, j: nat, w: nat, y: nat)
    requires d > 0 && x < w && d * inverse == w * j + 1 && y == x * inverse % w && y <= (w - 1) / d
    ensures x % d == 0
  {
    var q := x * inverse / w;
    assert x * inverse == w * q + y;
    CrossProducts(x, d, inverse, j, w, q, y);
    QuotientBound(y, d, w - 1);
    SameResidue(x, d, d * y, w, x * j - d * q);
    DivUnique(x, d, y, 0);
  }

  lemma QuotientBound(y: nat, d: nat, z: nat)
    requires d > 0 && y <= z / d
    ensures 0 <= d * y <= z
  {
    var q := z / d;
    assert z == d * q + z % d;
    MulMonotone(y, q, d);
  }

  lemma SameResidue(x: nat, d: nat, p: nat, w: nat, m: int)
    requires x < w && p < w && p == w * m + x
    ensures p == x
  {
    DivUnique(p, w, m, x);
    DivUnique(p, w, 0, p);
  }

  lemma CrossProducts(x: int, d: int, inverse: int, j: int, w: int, q: int, y: int)
    requires d * inverse == w * j + 1 && x * inverse == w * q + y
    ensures d * y == w * (x * j - d * q) + x
  {
    MulAssoc(d, x, inverse);
    MulAssoc(x, d, inverse);
    Distributed(d, w, q, y);
    Distributed(x, w, j, 1);
    assert w * (x * j - d * q) == w * (x * j) - w * (d * q);
  }

  lemma Distributed(a: int, w: int, b: int, c: int)
    ensures a * (w * b + c) == w * (a * b) + a * c
  {
    MulAssoc(a, w, b);
    MulAssoc(w, a, b);
  }

  const INVERSES_64: seq<nat> := [
    1, 0xcccccccccccccccd, 0x8f5c28f5c28f5c29, 0x1cac083126e978d5,
    0xd288ce703afb7e91, 0x5d4e8fb00bcbe61d, 0x790fb65668c26139, 0xe5032477ae8d46a5,
    0xc767074b22e90e21, 0x8e47ce423a2e9c6d, 0x4fa7f60d3ed61f49, 0xfee64690c913975,
    0x3662e0e1cf503eb1, 0xa47a2cf9f6433fbd, 0x54186f653140a659, 0x7738164770402145,
    0xe4a4d1417cd9a041, 0xc75429d9e5c5200d, 0xc1773b91fac10669, 0x26b172506559ce15,
    0xd489e3a9addec2d1, 0x90e860bb892c8d5d, 0x502e79bf1b6f4f79, 0xdcd618596be30fe5]

  const MAX_QUOTIENTS_64: seq<nat> := [
    0xffffffffffffffff, 0x3333333333333333, 0xa3d70a3d70a3d70, 0x20c49ba5e353f7c,
    0x68db8bac710cb2, 0x14f8b588e368f0, 0x431bde82d7b63, 0xd6bf94d5e57a,
    0x2af31dc46118, 0x89705f4136b, 0x1b7cdfd9d7b, 0x57f5ff85e5,
    0x119799812d, 0x384b84d09, 0xb424dc35, 0x24075f3d,
    0x734aca5, 0x170ef54, 0x49c977, 0xec1e4,
    0x2f394, 0x971d, 0x1e39, 0x60b]

  const INVERSES_32: seq<nat> := [
    1, 0xcccccccd, 0xc28f5c29, 0x26e978d5, 0x3afb7e91, 0xbcbe61d,
    0x68c26139, 0xae8d46a5, 0x22e90e21, 0x3a2e9c6d, 0x3ed61f49]

  const MAX_QUOTIENTS_32: seq<nat> := [
    0xffffffff, 0x33333333, 0xa3d70a3, 0x20c49ba, 0x68db8b, 0x14f8b5,
    0x431bd, 0xd6bf, 0x2af3, 0x897, 0x1b7]

  lemma FivePowers()
    ensures Pow(5, 0) == 1 && Pow(5, 1) == 5 && Pow(5, 2) == 25
    ensures Pow(5, 3) == 125 && Pow(5, 4) == 625 && Pow(5, 5) == 3125
    ensures Pow(5, 6) == 15625 && Pow(5, 7) == 78125 && Pow(5, 8) == 390625
    ensures Pow(5, 9) == 1953125 && Pow(5, 10) == 9765625 && Pow(5, 11) == 48828125
    ensures Pow(5, 12) == 244140625 && Pow(5, 13) == 1220703125 && Pow(5, 14) == 6103515625
    ensures Pow(5, 15) == 30517578125 && Pow(5, 16) == 152587890625 && Pow(5, 17) == 762939453125
    ensures Pow(5, 18) == 3814697265625 && Pow(5, 19) == 19073486328125 && Pow(5, 20) == 95367431640625
    ensures Pow(5, 21) == 476837158203125 && Pow(5, 22) == 2384185791015625 && Pow(5, 23) == 11920928955078125
  {
    assert Pow(5, 1) == 5;
    assert Pow(5, 2) == 25;
    hide Pow;
    PowAdd(5, 1, 2);
    PowAdd(5, 2, 2);
    PowAdd(5, 3, 2);
    PowAdd(5, 4, 2);
    PowAdd(5, 5, 2);
    PowAdd(5, 6, 2);
    PowAdd(5, 7, 2);
    PowAdd(5, 8, 2);
    PowAdd(5, 9, 2);
    PowAdd(5, 10, 2);
    PowAdd(5, 11, 2);
    PowAdd(5, 12, 2);
    PowAdd(5, 13, 2);
    PowAdd(5, 14, 2);
    PowAdd(5, 15, 2);
    PowAdd(5, 16, 2);
    PowAdd(5, 17, 2);
    PowAdd(5, 18, 2);
    PowAdd(5, 19, 2);
    PowAdd(5, 20, 2);
    PowAdd(5, 21, 2);
  }

  predicate EntryFits(d: nat, inverse: nat, maxQuotient: nat, w: nat) {
    d > 0 && w > 0 && d * inverse % w == 1 && maxQuotient == (w - 1) / d
  }

  lemma LowEntry64(e: nat)
    requires 0 <= e < 8
    ensures EntryFits(Pow(5, e), INVERSES_64[e], MAX_QUOTIENTS_64[e], 0x1_0000_0000_0000_0000)
  {
    FivePowers();
    hide Pow;
  }

  lemma MiddleEntry64(e: nat)
    requires 8 <= e < 16
    ensures EntryFits(Pow(5, e), INVERSES_64[e], MAX_QUOTIENTS_64[e], 0x1_0000_0000_0000_0000)
  {
    FivePowers();
    hide Pow;
  }

  lemma HighEntry64(e: nat)
    requires 16 <= e < 24
    ensures EntryFits(Pow(5, e), INVERSES_64[e], MAX_QUOTIENTS_64[e], 0x1_0000_0000_0000_0000)
  {
    FivePowers();
    hide Pow;
  }

  lemma Entry64(e: nat)
    requires e < 24
    ensures EntryFits(Pow(5, e), INVERSES_64[e], MAX_QUOTIENTS_64[e], 0x1_0000_0000_0000_0000)
  {
    hide *;
    if e < 8 {
      LowEntry64(e);
    } else if e < 16 {
      MiddleEntry64(e);
    } else {
      HighEntry64(e);
    }
  }

  lemma Entry32(e: nat)
    requires e < 11
    ensures EntryFits(Pow(5, e), INVERSES_32[e], MAX_QUOTIENTS_32[e], 0x1_0000_0000)
  {
    FivePowers();
    hide Pow;
  }

  predicate DivisibleByPowerOf5_64(x: nat, e: nat)
    requires x < 0x1_0000_0000_0000_0000 && e < 24
    ensures DivisibleByPowerOf5_64(x, e) <==> x % Pow(5, e) == 0
  {
    Entry64(e);
    InverseTest(x, Pow(5, e), INVERSES_64[e], MAX_QUOTIENTS_64[e], 0x1_0000_0000_0000_0000);
    Wrap64(x * INVERSES_64[e]) <= MAX_QUOTIENTS_64[e]
  }

  predicate DivisibleByPowerOf5_32(x: Limb, e: nat)
    requires e < 11
    ensures DivisibleByPowerOf5_32(x, e) <==> (x as int) % Pow(5, e) == 0
  {
    Entry32(e);
    InverseTest(x, Pow(5, e), INVERSES_32[e], MAX_QUOTIENTS_32[e], 0x1_0000_0000);
    Wrap32((x as int) * INVERSES_32[e]) <= MAX_QUOTIENTS_32[e]
  }

  // ----- trailing zeros -----

  /** Index of the lowest set bit. */
  function TrailingBits(n: nat): (t: nat)
    requires n > 0
    ensures n % Pow(2, t) == 0 && n / Pow(2, t) % 2 == 1
  {
    if n % 2 == 1 then assert Pow(2, 0) == 1; 0
    else
      var t := TrailingBits(n / 2);
      EvenSteps(n, t);
      t + 1
  }

  lemma EvenSteps(n: nat, t: nat)
    requires n % 2 == 0 && n / 2 % Pow(2, t) == 0
    ensures n % Pow(2, t + 1) == 0 && n / Pow(2, t + 1) == n / 2 / Pow(2, t)
  {
    var p, q := Pow(2, t), n / 2 / Pow(2, t);
    assert Pow(2, t + 1) == 2 * p;
    hide Pow;
    assert n / 2 == p * q;
    assert (2 * p) * q == 2 * (p * q);
    DivUnique(n, 2 * p, q, 0);
  }

  /** An odd factor takes no part in the powers of two that divide a product. */
  lemma {:induction false} OddFactor(f: nat, c: nat, t: nat)
    requires f % 2 == 1 && f * c % Pow(2, t) == 0
    ensures c % Pow(2, t) == 0
  {
    if t == 0 {
      assert Pow(2, 0) == 1;
    } else {
      var p := Pow(2, t - 1);
      assert Pow(2, t) == 2 * p;
      hide Pow;
      Halved(f, c, p);
      OddFactor(f, c / 2, t - 1);
      DoubledMultiple(c / 2, p);
    }
  }

  lemma Halved(f: nat, c: nat, p: nat)
    requires p > 0 && f % 2 == 1 && f * c % (2 * p) == 0
    ensures c % 2 == 0 && f * (c / 2) % p == 0
  {
    var k := f * c / (2 * p);
    assert f * c == (2 * p) * k;
    MulAssoc(2, p, k);
    OddTimesEven(f, c, p * k);
    DivUnique(f * (c / 2), p, k, 0);
  }

  lemma DoubledMultiple(h: nat, p: nat)
    requires p > 0 && h % p == 0
    ensures 2 * h % (2 * p) == 0
  {
    var m := h / p;
    assert h == p * m;
    MulAssoc(2, p, m);
    DivUnique(2 * h, 2 * p, m, 0);
  }

  lemma OddTimesEven(f: nat, c: nat, h: nat)
    requires f % 2 == 1 && f * c == 2 * h
    ensures c % 2 == 0 && f * (c / 2) == h
  {
    var g, k := f / 2, c / 2;
    assert f == 2 * g + 1 && c == 2 * k + c % 2;
    assert (2 * g + 1) * c == 2 * (g * c) + c;
    assert f * (2 * k) == 2 * (f * k);
  }

  lemma LowerPower(n: nat, s: nat, t: nat)
    requires s <= t && n % Pow(2, t) == 0
    ensures n % Pow(2, s) == 0
    ensures n / Pow(2, s) == n / Pow(2, t) * Pow(2, t - s)
  {
    hide Pow;
    PowAdd(2, s, t - s);
    FactorDivides(n, Pow(2, s), Pow(2, t - s));
  }

  lemma FactorDivides(n: nat, p: nat, q: nat)
    requires p > 0 && q > 0 && p * q > 0 && n % (p * q) == 0
    ensures n % p == 0 && n / p == n / (p * q) * q
  {
    var k := n / (p * q);
    assert n == (p * q) * k;
    MulAssoc(p, q, k);
    DivUnique(n, p, q * k, 0);
  }

  /** c >> s. */
  function Shr(c: nat, s: nat): nat {
    c / Pow(2, s)
  }

  /** c is what is left of n after s divisions by five. */
  predicate FivesOut(n: nat, c: nat, s: nat) {
    n == c * Pow(5, s)
  }

  lemma FiveOut(n: nat, c: nat, s: nat)
    requires FivesOut(n, c, s) && c % 5 == 0
    ensures FivesOut(n, c / 5, s + 1)
  {
    assert Pow(5, s + 1) == 5 * Pow(5, s);
    assert c == 5 * (c / 5);
    hide Pow;
    MulAssoc(c / 5, 5, Pow(5, s));
  }

  lemma NoFives(n: nat)
    ensures FivesOut(n, n, 0)
  {
  }

  /** Shifting out as many twos as fives have gone divides by a power of ten. */
  lemma TwosOut(n: nat, c: nat, s: nat)
    requires FivesOut(n, c, s) && n % Pow(2, s) == 0
    ensures Shr(c, s) <= c && c == Shr(c, s) * Pow(2, s) && n == Shr(c, s) * Pow(10, s)
    ensures n / Pow(2, s) == Shr(c, s) * Pow(5, s)
  {
    FivePowerOdd(s);
    PowProduct(2, 5, s);
    hide Pow;
    var five, two := Pow(5, s), Pow(2, s);
    OddFactor(five, c, s);
    var m := c / two;
    assert c == m * two;
    assert n == (m * two) * five;
    MulAssoc(m, two, five);
    MulAssoc(m, five, two);
    DivUnique(n, two, m * five, 0);
    MulLowerBound(two, m);
  }

  /** When all the twos have gone, or no five is left, the rest is no multiple of ten. */
  lemma NotTen(n: nat, c: nat, s: nat)
    requires n > 0 && FivesOut(n, c, s) && s <= TrailingBits(n)
    requires s == TrailingBits(n) || c % 5 != 0
    ensures Shr(c, s) % 2 != 0 || Shr(c, s) % 5 != 0
  {
    hide TrailingBits, Pow, FivesOut, Shr;
    var t := TrailingBits(n);
    LowerPower(n, s, t);
    TwosOut(n, c, s);
    hide *;
    var m := Shr(c, s);
    if s == t {
      FactorOf(n / Pow(2, t), m, Pow(5, s), 2);
    } else {
      FactorOf(c, m, Pow(2, s), 5);
    }
  }

  /** A factor of a number that k does not divide is not divided by k either. */
  lemma FactorOf(n: nat, m: nat, f: nat, k: nat)
    requires n == m * f && k > 0 && n % k != 0
    ensures m % k != 0
  {
    if m % k == 0 {
      assert m == k * (m / k);
      MulAssoc(k, m / k, f);
      DivUnique(n, k, m / k * f, 0);
    }
  }

  /** A rest that is a multiple of ten would have given one more zero. */
  lemma TenMore(n: nat, m: nat, s: nat)
    requires n == m * Pow(10, s)
    ensures m % 10 == 0 <==> n % Pow(10, s + 1) == 0
  {
    var p := Pow(10, s);
    assert Pow(10, s + 1) == 10 * p;
    hide Pow;
    if m % 10 == 0 {
      MulAssoc(m / 10, 10, p);
      DivUnique(n, 10 * p, m / 10, 0);
    }
    if n % (10 * p) == 0 {
      var k := n / (10 * p);
      assert n == (10 * p) * k;
      MulAssoc(p, 10, k);
      assert m * p == (10 * k) * p;
      CancelRight(m, 10 * k, p);
    }
  }

  lemma TenParts(m: nat)
    ensures m % 10 == 0 ==> m % 2 == 0 && m % 5 == 0
  {
    if m % 10 == 0 {
      DivUnique(m, 2, 5 * (m / 10), 0);
      DivUnique(m, 5, 2 * (m / 10), 0);
    }
  }

  lemma LowerTen(n: nat, j: nat, k: nat)
    requires j <= k && n % Pow(10, j) != 0
    ensures n % Pow(10, k) != 0
  {
    PowAdd(10, j, k - j);
    hide Pow;
    if n % Pow(10, k) == 0 {
      var p, q, m := Pow(10, j), Pow(10, k - j), n / Pow(10, k);
      assert n == (p * q) * m;
      MulAssoc(p, q, m);
      DivUnique(n, p, q * m, 0);
    }
  }

  // ----- 32 bits -----

  const MAX_TRAILING_ZEROS_32: nat := 7

  /** The result of removing s zeros from n, at most so many: none is left, or the limit is reached. */
  predicate ZerosRemoved(n: nat, r: nat, s: nat, limit: nat) {
    n == r * Pow(10, s) && s <= limit && (s < limit ==> r % 10 != 0)
  }

  /** c holds n without s fives; dividing it by as many twos finishes the job. */
  lemma RemovalDone(n: nat, c: nat, s: nat, t: nat, limit: nat)
    requires n > 0 && FivesOut(n, c, s) && s <= t
    requires t == if TrailingBits(n) > limit then limit else TrailingBits(n)
    requires s == t || c % 5 != 0
    ensures Shr(c, s) <= c && ZerosRemoved(n, Shr(c, s), s, limit)
  {
    LowerPower(n, s, TrailingBits(n));
    TwosOut(n, c, s);
    hide TrailingBits, Pow, FivesOut, Shr;
    if s < limit {
      NotTen(n, c, s);
      TenParts(Shr(c, s));
    }
  }

  /** All zeros are gone exactly when there were no more than the limit allows. */
  lemma AllZerosRemoved(n: nat, r: nat, s: nat, limit: nat)
    requires ZerosRemoved(n, r, s, limit)
    ensures r % 10 != 0 <==> n % Pow(10, limit + 1) != 0
  {
    TenMore(n, r, s);
    hide Pow;
    if s < limit {
      LowerTen(n, s + 1, limit + 1);
    }
  }

  /** With a limit of seven, ten million is taken out of 10^8 and one zero stays. */
  lemma ZeroLeftBehind(r: nat, s: nat)
    requires ZerosRemoved(100000000, r, s, MAX_TRAILING_ZEROS_32)
    ensures s == 7 && r == 10
  {
    TenPower8();
    AllZerosRemoved(100000000, r, s, 7);
    assert Pow(10, 8) == 10 * Pow(10, 7);
  }

  /** Removes up to seven trailing zeros; all of them are gone exactly when 10^8 does not divide n. */
  method RemoveTrailingZeros32(n: Limb) returns (r: Limb, s: nat)
    requires n > 0
    ensures ZerosRemoved(n, r, s, MAX_TRAILING_ZEROS_32)
    ensures r % 10 != 0 <==> (n as int) % Pow(10, 8) != 0
  {
    hide Pow, FivesOut, TrailingBits, ZerosRemoved, Shr;
    var t := TrailingBits(n);
    if t > MAX_TRAILING_ZEROS_32 {
      t := MAX_TRAILING_ZEROS_32;
    }
    s := 0;
    var c: Limb := n;
    NoFives(n);
    ghost var stopped := false;
    while s < t - 1
      invariant 0 <= s <= t && FivesOut(n, c, s)
      invariant !stopped
    {
      TestBy25(c);
      if Wrap32((c as int) * 0xC28F5C29) > 0x0A3D70A3 {
        stopped := true;
        break;
      }
      TwoFivesOut(n, c, s);
      c := Wrap32((c as int) * 0xC28F5C29);
      s := s + 2;
    }
    TestBy5(c);
    if s < t && Wrap32((c as int) * 0xCCCCCCCD) <= 0x33333333 {
      FiveOut(n, c, s);
      c := Wrap32((c as int) * 0xCCCCCCCD);
      s := s + 1;
    }
    RemovalDone(n, c, s, t, MAX_TRAILING_ZEROS_32);
    r := Shr(c, s);
    AllZerosRemoved(n, r, s, MAX_TRAILING_ZEROS_32);
  }

  lemma TwoFivesOut(n: nat, c: nat, s: nat)
    requires FivesOut(n, c, s) && c % 5 == 0 && c / 5 % 5 == 0
    ensures FivesOut(n, c / 25, s + 2)
  {
    FiveOut(n, c, s);
    FiveOut(n, c / 5, s + 1);
  }

  lemma TestBy25(c: Limb)
    ensures Wrap32((c as int) * 0xC28F5C29) <= 0x0A3D70A3 <==> (c as int) % 5 == 0 && c as int / 5 % 5 == 0
    ensures Wrap32((c as int) * 0xC28F5C29) <= 0x0A3D70A3 ==> Wrap32((c as int) * 0xC28F5C29) == c / 25
  {
    InverseTest(c, 25, 0xC28F5C29, 0x0A3D70A3, 0x1_0000_0000);
    FiveTwice(c);
  }

  lemma FiveTwice(c: nat)
    ensures c % 25 == 0 <==> c % 5 == 0 && c / 5 % 5 == 0
  {
    var q, a, b := c / 25, c % 25 / 5, c % 25 % 5;
    DivUnique(c, 5, 5 * q + a, b);
    DivUnique(5 * q + a, 5, q, a);
  }

  lemma TestBy5(c: Limb)
    ensures Wrap32((c as int) * 0xCCCCCCCD) <= 0x33333333 <==> (c as int) % 5 == 0
    ensures (c as int) % 5 == 0 ==> Wrap32((c as int) * 0xCCCCCCCD) == c / 5
  {
    InverseTest(c, 5, 0xCCCCCCCD, 0x33333333, 0x1_0000_0000);
  }

  // ----- 64 bits -----

  const MAX_TRAILING_ZEROS_64: nat := 16

  /** All trailing zeros removed. */
  predicate AllRemoved(n: nat, r: nat, s: nat) {
    n == r * Pow(10, s) && r % 10 != 0
  }

  /** A number of this size has no more than sixteen zeros, so the limit does no harm. */
  lemma SixteenSuffice(n: nat, r: nat, s: nat)
    requires 0 < n <= 18446744073709551 && ZerosRemoved(n, r, s, MAX_TRAILING_ZEROS_64)
    ensures AllRemoved(n, r, s)
  {
    if s == 16 {
      TenPower16();
      hide Pow;
      if r >= 2 {
        MulMonotone(2, r, Pow(10, 16));
      }
    }
  }

  lemma TenPower16()
    ensures Pow(10, 16) == 10000000000000000
  {
    TenPower8();
    hide Pow;
    PowAdd(10, 8, 8);
  }

  lemma TenPower8()
    ensures Pow(10, 8) == 100000000
  {
    assert Pow(10, 4) == 10000;
    hide Pow;
    PowAdd(10, 4, 4);
  }

  /** The eight twos that go with the first eight fives have been shifted out at once. */
  lemma ShiftedEarly(q: nat, s: nat)
    requires s >= 8
    ensures Shr(256 * q, s) == Shr(q, s - 8)
  {
    hide Pow;
    EightTwos();
    PowAdd(2, 8, s - 8);
    DivideBoth(q, Pow(2, s - 8));
  }

  lemma EightTwos()
    ensures Pow(2, 8) == 256
  {
    assert Pow(2, 4) == 16;
    PowAdd(2, 4, 4);
  }

  lemma DivideBoth(q: nat, p: nat)
    requires p > 0
    ensures 256 * q / (256 * p) == q / p
  {
    var k, r := q / p, q % p;
    assert q == p * k + r;
    assert (256 * p) * k == 256 * (p * k);
    DivUnique(256 * q, 256 * p, k, 256 * r);
  }

  /** The candidate that the inverse of 5^8 gives is the quotient, and a multiple of 2^8. */
  lemma EightZeros(n: nat, t: nat)
    requires 0 < n <= 18446744073709551 && 8 <= t && n % Pow(2, t) == 0
    ensures var candidate := Wrap64(n * 0xC767074B22E90E21);
            && (candidate <= 0x00002AF31DC46118 <==> n % Pow(5, 8) == 0)
            && (candidate <= 0x00002AF31DC46118 ==>
                  candidate / 256 < 0x1_0000_0000 && FivesOut(n, 256 * (candidate / 256), 8))
  {
    FivePowers();
    FivePowerOdd(8);
    LowerPower(n, 8, t);
    assert Pow(2, 4) == 16;
    PowAdd(2, 4, 4);
    hide Pow;
    InverseTest(n, 390625, 0xC767074B22E90E21, 0x00002AF31DC46118, 0x1_0000_0000_0000_0000);
    if n % 390625 == 0 {
      assert n == n / 390625 * 390625;
      OddFactor(390625, n / 390625, 8);
    }
  }

  lemma FiveOfShifted(q: nat)
    ensures 256 * q % 5 == 0 <==> q % 5 == 0
    ensures q % 5 == 0 ==> 256 * q / 5 == 256 * (q / 5)
  {
    var k, r := q / 5, q % 5;
    DivUnique(256 * q, 5, 256 * k + 51 * r, r);
  }

  /** Zeros beyond the eighth, found on the quotient that fits 32 bits. */
  method ManyZeros(n: nat, t: nat, first: Limb) returns (r: Limb, s: nat)
    requires 0 < n <= 18446744073709551 && 8 <= t && FivesOut(n, 256 * (first as int), 8)
    requires t == CappedBits(n)
    ensures AllRemoved(n, r, s)
  {
    hide Pow, FivesOut, TrailingBits, ZerosRemoved, Shr, AllRemoved;
    var quotient := first;
    s := 8;
    while s < t
      invariant 8 <= s <= t && FivesOut(n, 256 * (quotient as int), s)
    {
      TestBy5(quotient);
      FiveOfShifted(quotient);
      if Wrap32((quotient as int) * 0xCCCCCCCD) > 0x33333333 {
        break;
      }
      FiveOut(n, 256 * (quotient as int), s);
      quotient := Wrap32((quotient as int) * 0xCCCCCCCD);
      s := s + 1;
    }
    RemovalDone(n, 256 * (quotient as int), s, t, MAX_TRAILING_ZEROS_64);
    ShiftedEarly(quotient, s);
    SixteenSuffice(n, Shr(256 * (quotient as int), s), s);
    ShrBelow(quotient, s - 8);
    r := Shr(quotient, s - 8);
  }

  lemma ShrBelow(c: nat, s: nat)
    ensures Shr(c, s) <= c
  {
    var p := Pow(2, s);
    hide Pow;
    assert c == p * (c / p) + c % p;
    MulLowerBound(p, c / p);
  }

  /** The eight low digits without k fives, of a number that has k more factors of ten at least. */
  predicate LowPart(n: nat, remainder: nat, k: nat, t: nat) {
    n > 0 && k <= t && k <= 7 && FivesOut(n % 100000000, remainder, k)
  }

  /** The eight low digits have the same low bits as the number. */
  lemma LowBits(n: nat, k: nat, t: nat)
    requires k <= t && k <= 8 && n % Pow(2, t) == 0
    ensures n % 100000000 % Pow(2, k) == 0
  {
    LowerPower(n, k, t);
    TenPower8();
    PowProduct(2, 5, 8);
    PowAdd(2, k, 8 - k);
    hide Pow;
    MulAssoc(Pow(2, k), Pow(2, 8 - k), Pow(5, 8));
    RemainderMultiple(n, Pow(2, k), Pow(2, 8 - k) * Pow(5, 8));
  }

  lemma RemainderMultiple(n: nat, p: nat, q: nat)
    requires p > 0 && p * q > 0 && n % p == 0
    ensures n % (p * q) % p == 0
  {
    var m, h, r := n / p, n / (p * q), n % (p * q);
    assert n == p * m && n == (p * q) * h + r;
    MulAssoc(p, q, h);
    assert p * (m - q * h) == p * m - p * (q * h);
    DivUnique(r, p, m - q * h, 0);
  }

  /** The number put back together from the remainder without its k zeros and the upper digits. */
  function Rebuilt(n: nat, remainder: nat, k: nat): nat
    requires k <= 7
  {
    Shr(remainder, k) + n / 100000000 * Pow(10, 8 - k)
  }

  /** Putting the digits back together after k zeros: the upper digits move down by k places. */
  lemma Reassembled(n: nat, remainder: nat, k: nat, t: nat)
    requires LowPart(n, remainder, k, t) && n % Pow(2, t) == 0
    ensures n == Rebuilt(n, remainder, k) * Pow(10, k) && remainder == Shr(remainder, k) * Pow(2, k)
  {
    LowBits(n, k, t);
    TwosOut(n % 100000000, remainder, k);
    TenPower8();
    PowAdd(10, 8 - k, k);
    assert Rebuilt(n, remainder, k) == Shr(remainder, k) + n / 100000000 * Pow(10, 8 - k);
    hide *;
    PutTogether(n, Shr(remainder, k), n / 100000000, Pow(10, 8 - k), Pow(10, k));
  }

  lemma PutTogether(n: nat, m: nat, h: nat, p: nat, q: nat)
    requires p * q == 100000000 && h == n / 100000000 && n % 100000000 == m * q
    ensures n == (m + h * p) * q
  {
    MulAssoc(h, p, q);
    assert (m + h * p) * q == m * q + (h * p) * q;
  }

  /** With all its twos taken out the number is odd. */
  lemma OddRest(n: nat, r: nat, k: nat)
    requires n > 0 && n == r * Pow(10, k) && TrailingBits(n) == k
    ensures r % 2 != 0
  {
    PowProduct(5, 2, k);
    hide Pow, TrailingBits;
    MulAssoc(r, Pow(5, k), Pow(2, k));
    DivUnique(n, Pow(2, k), r * Pow(5, k), 0);
    FactorOf(n / Pow(2, k), r, Pow(5, k), 2);
  }

  /** A remainder that is no multiple of five leaves a number that is none. */
  lemma NoFiveLeft(n: nat, remainder: nat, k: nat)
    requires k <= 7 && remainder == Shr(remainder, k) * Pow(2, k) && remainder % 5 != 0
    ensures Rebuilt(n, remainder, k) % 5 != 0
  {
    assert Pow(10, 8 - k) == 10 * Pow(10, 7 - k);
    FactorOf(remainder, Shr(remainder, k), Pow(2, k), 5);
    assert Rebuilt(n, remainder, k) == Shr(remainder, k) + n / 100000000 * Pow(10, 8 - k);
    hide *;
    UpperIsFive(n / 100000000, Pow(10, 7 - k));
    FiveShift(Shr(remainder, k), 2 * (n / 100000000 * Pow(10, 7 - k)));
  }

  lemma UpperIsFive(h: nat, p: nat)
    ensures h * (10 * p) == 5 * (2 * (h * p))
  {
  }

  lemma FiveShift(m: nat, x: nat)
    ensures (m + 5 * x) % 5 == m % 5
  {
    DivUnique(m + 5 * x, 5, m / 5 + x, m % 5);
  }

  /** Stopping after k zeros, for lack of twos or of fives, leaves no zero behind. */
  lemma StopAt(n: nat, remainder: nat, k: nat, t: nat)
    requires LowPart(n, remainder, k, t) && t == CappedBits(n)
    requires t == k || remainder % 5 != 0
    ensures AllRemoved(n, Rebuilt(n, remainder, k), k)
  {
    LowerPower(n, t, TrailingBits(n));
    Reassembled(n, remainder, k, t);
    hide Pow, Shr, TrailingBits, Rebuilt, FivesOut;
    if t == k {
      OddRest(n, Rebuilt(n, remainder, k), k);
    } else {
      NoFiveLeft(n, remainder, k);
    }
    TenParts(Rebuilt(n, remainder, k));
  }

  /** After seven zeros there is no eighth, as the first test has ruled that out. */
  lemma StopAtSeven(n: nat, remainder: nat, t: nat)
    requires LowPart(n, remainder, 7, t) && t == CappedBits(n)
    requires t >= 8 ==> n % Pow(5, 8) != 0
    ensures AllRemoved(n, Rebuilt(n, remainder, 7), 7)
  {
    if t == 7 {
      StopAt(n, remainder, 7, 7);
    } else {
      LowerPower(n, t, TrailingBits(n));
      Reassembled(n, remainder, 7, t);
      hide Pow, Shr, TrailingBits, Rebuilt, FivesOut;
      TenMore(n, Rebuilt(n, remainder, 7), 7);
      if Rebuilt(n, remainder, 7) % 10 == 0 {
        PowProduct(5, 2, 8);
        MultipleOfFactor(n, Pow(5, 8), Pow(2, 8));
      }
    }
  }

  lemma MultipleOfFactor(n: nat, a: nat, b: nat)
    requires a > 0 && b > 0 && a * b > 0 && n % (a * b) == 0
    ensures n % a == 0
  {
    var k := n / (a * b);
    assert n == (a * b) * k;
    MulAssoc(a, b, k);
    DivUnique(n, a, b * k, 0);
  }

  function CappedBits(n: nat): nat
    requires n > 0
  {
    if TrailingBits(n) > MAX_TRAILING_ZEROS_64 then MAX_TRAILING_ZEROS_64 else TrailingBits(n)
  }

  /** What stopping after k zeros would give, and what the next division by five keeps true. */
  lemma StopFacts(n: nat, remainder: nat, k: nat, t: nat)
    requires LowPart(n, remainder, k, t) && t == CappedBits(n)
    ensures t == k || remainder % 5 != 0 ==> AllRemoved(n, Rebuilt(n, remainder, k), k)
    ensures t > k && k < 7 && remainder % 5 == 0 ==> LowPart(n, remainder / 5, k + 1, t)
  {
    if t == k || remainder % 5 != 0 {
      StopAt(n, remainder, k, t);
    }
    if remainder % 5 == 0 {
      FiveOut(n % 100000000, remainder, k);
    }
  }

  lemma SplitAtEight(n: nat)
    requires 0 < n <= 18446744073709551
    ensures Wrap32(n / 100000000) == n / 100000000
    ensures Wrap32(n - Wrap32(100000000 * (n / 100000000))) == n % 100000000
    ensures LowPart(n, n % 100000000, 0, CappedBits(n))
  {
    NoFives(n % 100000000);
    assert n == 100000000 * (n / 100000000) + n % 100000000;
    WrapDifference(n, 100000000 * (n / 100000000));
  }

  lemma WrapDifference(n: nat, p: nat)
    requires p <= n && n - p < 0x1_0000_0000
    ensures Wrap32(n - Wrap32(p)) == n - p
  {
    DivUnique(n - Wrap32(p), 0x1_0000_0000, p / 0x1_0000_0000, n - p);
  }

  /** The places by which the upper digits move, written out as constants. */
  lemma UpperPlaces(n: nat, remainder: nat)
    ensures Rebuilt(n, remainder, 1) == Shr(remainder, 1) + n / 100000000 * 10000000
    ensures Rebuilt(n, remainder, 2) == Shr(remainder, 2) + n / 100000000 * 1000000
    ensures Rebuilt(n, remainder, 3) == Shr(remainder, 3) + n / 100000000 * 100000
    ensures Rebuilt(n, remainder, 4) == Shr(remainder, 4) + n / 100000000 * 10000
    ensures Rebuilt(n, remainder, 5) == Shr(remainder, 5) + n / 100000000 * 1000
    ensures Rebuilt(n, remainder, 6) == Shr(remainder, 6) + n / 100000000 * 100
    ensures Rebuilt(n, remainder, 7) == Shr(remainder, 7) + n / 100000000 * 10
  {
    assert Pow(10, 1) == 10 && Pow(10, 2) == 100 && Pow(10, 3) == 1000 && Pow(10, 4) == 10000;
    PowAdd(10, 4, 1);
    PowAdd(10, 4, 2);
    PowAdd(10, 4, 3);
    hide Pow, Shr;
  }

  lemma KeptWhole(n: nat)
    ensures Rebuilt(n, n % 100000000, 0) == n
  {
    assert Pow(2, 0) == 1;
    TenPower8();
  }

  /** Removes all trailing zeros of a decimal significand. */
  method RemoveTrailingZeros64(n: nat) returns (r: nat, s: nat)
    requires 0 < n <= 18446744073709551
    ensures AllRemoved(n, r, s)
  {
    var t := CappedBits(n);
    LowerPower(n, t, TrailingBits(n));
    FivePowers();
    hide Pow, FivesOut, Shr, AllRemoved, Rebuilt, LowPart, CappedBits, TrailingBits;
    // If the number is divisible by 10^8, work with the quotient.
    if t >= 8 {
      EightZeros(n, t);
      var quotientCandidate := Wrap64(n * 0xC767074B22E90E21);
      if quotientCandidate <= 0x00002AF31DC46118 {
        r, s := ManyZeros(n, t, Wrap32(quotientCandidate / 256));
        return;
      }
    }
    // Otherwise, work with the remainder.
    SplitAtEight(n);
    var quotient := Wrap32(n / 100000000);
    var remainder := Wrap32(n - Wrap32(100000000 * (quotient as int)));
    r, s := FewZeros(n, t, quotient, remainder);
  }

  /** One zero fewer: whether to stop after k zeros, and the remainder without one more five. */
  method OneMoreZero(n: nat, remainder: Limb, k: nat, t: nat) returns (stop: bool, next: Limb)
    requires n > 0 && k < 7 && t == CappedBits(n) && LowPart(n, remainder, k, t)
    ensures stop ==> AllRemoved(n, Rebuilt(n, remainder, k), k)
    ensures !stop ==> t > k && LowPart(n, next, k + 1, t)
  {
    hide *;
    StopFacts(n, remainder, k, t);
    TestBy5(remainder);
    LowPartFits(n, remainder, k, t);
    next := Wrap32((remainder as int) * 0xCCCCCCCD);
    stop := t == k || next > 0x33333333;
  }

  lemma LowPartFits(n: nat, remainder: nat, k: nat, t: nat)
    requires LowPart(n, remainder, k, t)
    ensures k <= t
  {
  }

  /** At most seven zeros, found on the eight low digits. */
  method FewZeros(n: nat, t: nat, quotient: nat, low: Limb) returns (r: nat, s: nat)
    requires 0 < n && t == CappedBits(n) && quotient == n / 100000000 && low == n % 100000000
    requires LowPart(n, low, 0, t) && (t >= 8 ==> n % Pow(5, 8) != 0)
    ensures AllRemoved(n, r, s)
  {
    hide *;
    var remainder := low;
    var stop, next := OneMoreZero(n, remainder, 0, t);
    if stop {
      KeptWhole(n);
      return n, 0;
    }
    remainder := next;
    stop, next := OneMoreZero(n, remainder, 1, t);
    if stop {
      UpperPlaces(n, remainder);
      return Shr(remainder, 1) + quotient * 10000000, 1;
    }
    remainder := next;
    stop, next := OneMoreZero(n, remainder, 2, t);
    if stop {
      UpperPlaces(n, remainder);
      return Shr(remainder, 2) + quotient * 1000000, 2;
    }
    remainder := next;
    stop, next := OneMoreZero(n, remainder, 3, t);
    if stop {
      UpperPlaces(n, remainder);
      return Shr(remainder, 3) + quotient * 100000, 3;
    }
    remainder := next;
    stop, next := OneMoreZero(n, remainder, 4, t);
    if stop {
      UpperPlaces(n, remainder);
      return Shr(remainder, 4) + quotient * 10000, 4;
    }
    remainder := next;
    stop, next := OneMoreZero(n, remainder, 5, t);
    if stop {
      UpperPlaces(n, remainder);
      return Shr(remainder, 5) + quotient * 1000, 5;
    }
    remainder := next;
    stop, next := OneMoreZero(n, remainder, 6, t);
    if stop {
      UpperPlaces(n, remainder);
      return Shr(remainder, 6) + quotient * 100, 6;
    }
    remainder := next;
    UpperPlaces(n, remainder);
    StopAtSeven(n, remainder, t);
    r, s := Shr(remainder, 7) + quotient * 10, 7;
  }
}
