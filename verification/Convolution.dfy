/** Why summing the cross products limb by limb squares a number. */
module Convolution {
  import opened Powers
  import opened Limbs
  import opened LimbLemmas

  function At(s: seq<Limb>, i: int): Limb {
    if 0 <= i < |s| then s[i] else 0
  }

  /** Sum of a[t] * b[m - t] over t < i. */
  function ConvPart(a: seq<Limb>, b: seq<Limb>, m: int, i: nat): nat
    requires i <= |a|
  {
    if i == 0 then 0 else ConvPart(a, b, m, i - 1) + CrossTerm(a[i - 1], At(b, m - (i - 1)))
  }

  function CrossTerm(x: Limb, y: Limb): (p: nat)
    ensures p <= 0xFFFF_FFFE_0000_0001
  {
    LimbProductBound(x, y, 0, 0);
    MulMonotone(x, 0xFFFF_FFFF, y);
    x * y
  }

  /** The sums of position 0..k, each at its place. */
  function ConvSum(a: seq<Limb>, i: nat, b: seq<Limb>, k: nat): nat
    requires i <= |a|
  {
    if k == 0 then 0 else ConvSum(a, i, b, k - 1) + ConvPart(a, b, k - 1, i) * Radix(k - 1)
  }

  /** The limbs of b moved up by t positions, as far as position k. */
  function Moved(b: seq<Limb>, t: nat, k: nat): nat {
    if k == 0 then 0 else Moved(b, t, k - 1) + At(b, k - 1 - t) * Radix(k - 1)
  }

  lemma {:induction false} MovedValue(b: seq<Limb>, t: nat, k: nat)
    ensures k <= t ==> Moved(b, t, k) == 0
    ensures t <= k <= t + |b| ==> Moved(b, t, k) == Radix(t) * Val(b[..k - t])
    ensures k >= t + |b| ==> Moved(b, t, k) == Radix(t) * Val(b)
  {
    if k == 0 {
    } else {
      MovedValue(b, t, k - 1);
      assert b[..|b|] == b;
      if t < k <= t + |b| {
        ValExtend(b, k - 1 - t);
        RadixAdd(t, k - 1 - t);
        MovedStep(Radix(t), Val(b[..k - 1 - t]), Radix(k - 1 - t), b[k - 1 - t]);
      }
    }
  }

  lemma MovedStep(r: int, v: int, q: int, d: int)
    ensures r * (v + q * d) == r * v + d * (r * q)
  {
    assert r * (v + q * d) == r * v + r * (q * d);
    MulAssoc(r, q, d);
  }

  lemma {:induction false} ConvSumStep(a: seq<Limb>, i: nat, b: seq<Limb>, k: nat)
    requires 0 < i <= |a|
    ensures ConvSum(a, i, b, k) == ConvSum(a, i - 1, b, k) + a[i - 1] * Moved(b, i - 1, k)
  {
    if k == 0 {
    } else {
      ConvSumStep(a, i, b, k - 1);
      hide Radix, At;
      DistributeTerm(a[i - 1], Moved(b, i - 1, k - 1), At(b, k - 1 - (i - 1)), Radix(k - 1), ConvPart(a, b,
        k - 1, i - 1));
    }
  }

  lemma DistributeTerm(x: int, m: int, y: int, r: int, c: int)
    ensures x * (m + y * r) == x * m + (x * y) * r
    ensures (c + x * y) * r == c * r + (x * y) * r
  {
    assert x * (m + y * r) == x * m + x * (y * r);
    MulAssoc(x, y, r);
  }

  /** The cross products at all positions add up to the product. */
  lemma {:induction false} ConvSumValue(a: seq<Limb>, i: nat, b: seq<Limb>, k: nat)
    requires i <= |a| && k >= i + |b|
    ensures ConvSum(a, i, b, k) == Val(a[..i]) * Val(b)
  {
    if i == 0 {
      ConvSumNothing(a, b, k);
    } else {
      ConvSumValue(a, i - 1, b, k);
      ConvSumStep(a, i, b, k);
      MovedValue(b, i - 1, k);
      ValExtend(a, i - 1);
      hide *;
      DistributeProduct(Val(a[..i - 1]), Radix(i - 1), a[i - 1], Val(b));
    }
  }

  lemma DistributeProduct(v: int, r: int, d: int, w: int)
    ensures (v + r * d) * w == v * w + d * (r * w)
  {
    MulAssoc(d, r, w);
  }

  lemma {:induction false} ConvSumNothing(a: seq<Limb>, b: seq<Limb>, k: nat)
    ensures ConvSum(a, 0, b, k) == 0
  {
    if k == 0 {
    } else {
      ConvSumNothing(a, b, k - 1);
    }
  }

  /** Terms whose second index runs below zero vanish. */
  lemma {:induction false} ConvTail(a: seq<Limb>, b: seq<Limb>, m: nat, i: nat)
    requires m < i <= |a|
    ensures ConvPart(a, b, m, |a|) == ConvPart(a, b, m, i)
    decreases |a| - i
  {
    if i == |a| {
    } else {
      ConvTail(a, b, m, i + 1);
    }
  }

  /** Terms whose second index lies beyond the top limb vanish. */
  lemma {:induction false} ConvHead(a: seq<Limb>, b: seq<Limb>, m: nat, i: nat)
    requires i <= |a| && i <= m - |b| + 1
    ensures ConvPart(a, b, m, i) == 0
  {
    if i == 0 {
    } else {
      ConvHead(a, b, m, i - 1);
    }
  }

  lemma {:induction false} ConvBound(a: seq<Limb>, b: seq<Limb>, m: int, i: nat)
    requires i <= |a|
    ensures ConvPart(a, b, m, i) <= 0xFFFF_FFFE_0000_0001 * i
  {
    if i == 0 {
    } else {
      ConvBound(a, b, m, i - 1);
    }
  }

  /** The limbs below k hold the square but for what the accumulator carries on. */
  predicate SquarePrefix(res: seq<Limb>, s: seq<Limb>, k: nat, sum: int)
    requires k <= |res|
  {
    Val(res[..k]) + Radix(k) * sum == ConvSum(s, |s|, s, k)
  }

  lemma SquareStep(res: seq<Limb>, s: seq<Limb>, k: nat, sum: nat, total: nat)
    requires k < |res| && SquarePrefix(res, s, k, sum)
    requires total == sum + ConvPart(s, s, k, |s|) && sum <= 0x1_0000_0000 * |s|
    ensures SquarePrefix(res[k := total % 0x1_0000_0000], s, k + 1, total / 0x1_0000_0000)
    ensures total / 0x1_0000_0000 <= 0x1_0000_0000 * |s|
  {
    var d: Limb := total % 0x1_0000_0000;
    assert res[k := d][..k + 1] == res[..k] + [d];
    ValAppend(res[..k], d);
    RadixStep(k);
    ConvBound(s, s, k, |s|);
    hide Val, Radix, ConvPart;
    CarryTotal(Radix(k), total, sum, ConvPart(s, s, k, |s|));
  }

  lemma CarryTotal(r: int, total: int, sum: int, c: int)
    requires total == sum + c
    ensures r * (total % 0x1_0000_0000) + (0x1_0000_0000 * r) * (total / 0x1_0000_0000) == r * sum + c * r
  {
    var l, h := total % 0x1_0000_0000, total / 0x1_0000_0000;
    assert total == l + 0x1_0000_0000 * h;
    assert r * (l + 0x1_0000_0000 * h) == r * l + (0x1_0000_0000 * r) * h;
    assert r * (sum + c) == r * sum + c * r;
  }

  /** Nothing is left to carry, so the limbs hold exactly the square. */
  lemma SquareDone(res: seq<Limb>, s: seq<Limb>, sum: nat, e: nat)
    requires |res| == 2 * |s| && SquarePrefix(res, s, |res|, sum)
    ensures Scaled(res, 2 * e) == Scaled(s, e) * Scaled(s, e)
  {
    var n := |s|;
    assert res[..2 * n] == res && s[..n] == s;
    ConvSumValue(s, n, s, 2 * n);
    ValBound(s);
    RadixAdd(n, n);
    RadixAdd(e, e);
    assert Scaled(res, 2 * e) == Val(res) * Radix(e + e);
    assert Scaled(s, e) == Val(s) * Radix(e);
    hide *;
    assert Val(s) * Val(s) < Radix(n) * Radix(n) by {
      MulMonotone(Val(s), Radix(n), Val(s));
      MulStrictMonotone(Val(s), Radix(n), Radix(n));
    }
    NoCarryLeft(Val(res), Radix(n + n), sum, Val(s) * Val(s));
    MulSwap(Val(s), Radix(e), Val(s), Radix(e));
  }

  lemma NoCarryLeft(v: nat, r: nat, sum: nat, w: int)
    requires v + r * sum == w < r
    ensures v == w
  {
    if sum > 0 {
      MulMonotone(1, sum, r);
    }
  }

  lemma SquareStart(res: seq<Limb>, s: seq<Limb>)
    ensures SquarePrefix(res, s, 0, 0)
  {
  }

  /** The next cross term of a square, which fits one 64-bit word. */
  lemma ConvNext(s: seq<Limb>, m: int, i: nat)
    requires i < |s| && 0 <= m - i < |s|
    ensures ConvPart(s, s, m, i + 1) == ConvPart(s, s, m, i) + (s[i] as int) * (s[m - i] as int)
    ensures 0 <= (s[i] as int) * (s[m - i] as int) <= 0xFFFF_FFFE_0000_0001
  {
    assert CrossTerm(s[i], s[m - i]) == (s[i] as int) * (s[m - i] as int);
  }

  lemma SameVal(s: seq<Limb>, t: seq<Limb>, e: nat)
    requires Val(s) == Val(t)
    ensures Scaled(s, e) == Scaled(t, e)
  {
  }
}
