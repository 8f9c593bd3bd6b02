/** Facts about limb sequences that the in-place routines of Bigint rest on. */
module LimbLemmas {
  import opened Powers
  import opened Limbs

  /** Number denoted by limbs s whose lowest limb stands at position e. */
  function Scaled(s: seq<Limb>, e: nat): nat {
    Val(s) * Radix(e)
  }

  predicate TopNonzero(s: seq<Limb>) {
    |s| > 0 && s[|s| - 1] != 0
  }

  /** No leading zero limbs, except that zero is a single zero limb. */
  predicate Trimmed(s: seq<Limb>) {
    |s| > 0 && (|s| == 1 || s[|s| - 1] != 0)
  }

  lemma TrimmedPositive(s: seq<Limb>)
    requires Trimmed(s) && Val(s) > 0
    ensures TopNonzero(s)
  {
    assert |s| == 1 ==> s[1..] == [];
  }

  lemma ScaledBounds(s: seq<Limb>, e: nat)
    ensures Scaled(s, e) < Radix(|s| + e)
    ensures TopNonzero(s) ==> Radix(|s| + e - 1) <= Scaled(s, e)
  {
    ValBound(s);
    RadixAdd(|s|, e);
    MulStrictMonotone(Val(s), Radix(|s|), Radix(e));
    if TopNonzero(s) {
      ValTop(s);
      RadixAdd(|s| - 1, e);
      MulMonotone(Radix(|s| - 1), Val(s), Radix(e));
    }
  }

  /** More limb positions means a larger number. */
  lemma LongerIsLarger(s: seq<Limb>, e: nat, t: seq<Limb>, f: nat)
    requires TopNonzero(s) && |s| + e > |t| + f
    ensures Scaled(s, e) > Scaled(t, f)
  {
    ScaledBounds(s, e);
    ScaledBounds(t, f);
    RadixMonotone(|t| + f, |s| + e - 1);
  }

  lemma ShiftScale(x: int, y: int, i: nat, e: nat)
    ensures (x + Radix(i) * y) * Radix(e) == x * Radix(e) + Radix(i + e) * y
  {
    RadixAdd(i, e);
    Distribute(x, Radix(i), y, Radix(e));
  }

  lemma Distribute(x: int, r: int, y: int, s: int)
    ensures (x + r * y) * s == x * s + (r * s) * y
  {
    assert (x + r * y) * s == x * s + (r * y) * s;
    assert (r * y) * s == (r * s) * y by { MulAssoc(r, y, s); MulAssoc(r, s, y); }
  }

  /** The limbs from i up fix a number to within one unit of position i. */
  lemma SplitBounds(s: seq<Limb>, i: nat)
    requires i <= |s|
    ensures Radix(i) * Val(s[i..]) <= Val(s) < Radix(i) * (Val(s[i..]) + 1)
  {
    ValSplit(s, i);
    ValBound(s[..i]);
    assert Radix(i) * (Val(s[i..]) + 1) == Radix(i) * Val(s[i..]) + Radix(i);
  }

  lemma ScaledSplit(s: seq<Limb>, e: nat, i: nat)
    requires i <= |s|
    ensures Radix(i + e) * Val(s[i..]) <= Scaled(s, e) < Radix(i + e) * (Val(s[i..]) + 1)
  {
    var r, x, v, q := Radix(i), Radix(e), Val(s), Val(s[i..]);
    SplitBounds(s, i);
    RadixAdd(i, e);
    MulMonotone(r * q, v, x);
    MulStrictMonotone(v, r * (q + 1), x);
    ProductRotate(r, q, x);
    ProductRotate(r, q + 1, x);
  }

  lemma ProductRotate(a: int, b: int, c: int)
    ensures (a * b) * c == (a * c) * b
  {
    MulAssoc(a, b, c);
    MulAssoc(a, c, b);
  }

  /** The first limb from the top in which two numbers differ decides their order. */
  lemma TopDifference(l: seq<Limb>, e: nat, r: seq<Limb>, f: nat, i: nat, j: nat)
    requires |l| + e == |r| + f && i < |l| && j < |r| && |l| - i == |r| - j
    requires l[i + 1..] == r[j + 1..] && l[i] > r[j]
    ensures Scaled(l, e) > Scaled(r, f)
  {
    hide *;
    ScaledSplit(l, e, i);
    ScaledSplit(r, f, j);
    ValDrop(l, i);
    ValDrop(r, j);
    MulMonotone(Val(r[j..]) + 1, Val(l[i..]), Radix(i + e));
  }

  lemma ExtraLowLimbs(l: seq<Limb>, e: nat, r: seq<Limb>, f: nat)
    requires |l| + e == |r| + f && |l| >= |r| && l[|l| - |r|..] == r
    ensures Scaled(l, e) >= Scaled(r, f)
  {
    ScaledSplit(l, e, |l| - |r|);
  }

  lemma LongerTail(l: seq<Limb>, r: seq<Limb>, i: nat, j: nat)
    requires i < |l| && j < |r| && l[i] == r[j] && l[i + 1..] == r[j + 1..]
    ensures l[i..] == r[j..]
  {
    assert l[i..] == [l[i]] + l[i + 1..] && r[j..] == [r[j]] + r[j + 1..];
  }

  /** When the limbs have been used up on one side, the other number is at least as large. */
  lemma SameTail(l: seq<Limb>, e: nat, r: seq<Limb>, f: nat, i: int, j: int)
    requires |l| + e == |r| + f && i - j == |l| - |r|
    requires -1 <= i < |l| && -1 <= j < |r| && l[i + 1..] == r[j + 1..]
    ensures j == -1 ==> Scaled(l, e) >= Scaled(r, f)
    ensures i == -1 ==> Scaled(r, f) >= Scaled(l, e)
  {
    hide Scaled;
    if j == -1 {
      assert r[j + 1..] == r;
      ExtraLowLimbs(l, e, r, f);
    }
    if i == -1 {
      assert l[i + 1..] == l;
      ExtraLowLimbs(r, f, l, e);
    }
  }

  lemma NoZeros(s: seq<Limb>)
    ensures Zeros(0) + s == s
  {
  }

  lemma MovedUp(t: seq<Limb>, s: seq<Limb>, d: nat)
    requires |t| == |s| + d && forall k :: d <= k < |t| ==> t[k] == s[k - d]
    ensures t[d..] == s
  {
  }

  // ----- the carry chains -----

  lemma CarryStep(p: int, r: int, c: int, c': int, d: int, x: int, v: int, q: int)
    requires p + r * c == q * v
    requires d + 0x1_0000_0000 * c' == x * v + c
    ensures (p + r * d) + (0x1_0000_0000 * r) * c' == (q + r * x) * v
  {
    assert r * (d + 0x1_0000_0000 * c') == r * (x * v + c);
    assert r * (d + 0x1_0000_0000 * c') == r * d + (0x1_0000_0000 * r) * c';
    assert r * (x * v + c) == (r * x) * v + r * c by { MulAssoc(r, x, v); }
  }

  lemma BorrowStep(p: int, q: int, o: int, r: int, b: int, b': int, d: int, x: int, y: int)
    requires p == q - o + r * b
    requires d - 0x1_0000_0000 * b' == x - y - b
    ensures p + r * d == (q + r * x) - (o + r * y) + (0x1_0000_0000 * r) * b'
  {
    assert r * d == r * (x - y - b + 0x1_0000_0000 * b');
    assert r * (x - y - b + 0x1_0000_0000 * b') == r * x - r * y - r * b + (0x1_0000_0000 * r) * b';
  }

  /** Zeros below and above a number, so that operands share their positions lo..hi. */
  function Padded(s: seq<Limb>, e: nat, lo: nat, hi: nat): (t: seq<Limb>)
    requires lo <= e && |s| + e <= hi
    ensures |t| == hi - lo
    ensures forall k :: 0 <= k < hi - lo ==>
      t[k] == if e - lo <= k < e - lo + |s| then s[k - (e - lo)] else 0
  {
    Zeros(e - lo) + s + Zeros(hi - |s| - e)
  }

  lemma PaddedValue(s: seq<Limb>, e: nat, lo: nat, hi: nat)
    requires lo <= e && |s| + e <= hi
    ensures Scaled(Padded(s, e, lo, hi), lo) == Scaled(s, e)
  {
    var low, up := Zeros(e - lo), Zeros(hi - |s| - e);
    ValZero(low);
    ValZero(up);
    ValConcat(low + s, up);
    ValConcat(low, s);
    RadixAdd(e - lo, lo);
    MulAssoc(Radix(e - lo), Val(s), Radix(lo));
    MulAssoc(Val(s), Radix(e - lo), Radix(lo));
    assert Val(low + s + up) == Radix(e - lo) * Val(s);
  }

  /** The number x lies within one unit r above r * h. */
  predicate Within(x: int, r: int, h: int) {
    r * h <= x < r * h + r
  }

  lemma SplitWithin(s: seq<Limb>, i: nat)
    requires i <= |s|
    ensures Within(Val(s), Radix(i), Val(s[i..]))
  {
    ValSplit(s, i);
    ValBound(s[..i]);
  }

  lemma SettledBounds(r: int, ha: int, hb: int, hc: int, a: int, b: int, c: int)
    requires r > 0 && Within(a, r, ha) && Within(b, r, hb) && Within(c, r, hc)
    ensures ha + hb > hc ==> a + b > c
    ensures hc > ha + hb + 1 ==> c > a + b
  {
    assert r * (ha + hb) == r * ha + r * hb;
    if ha + hb > hc {
      MulMonotone(hc + 1, ha + hb, r);
    }
    if hc > ha + hb + 1 {
      MulMonotone(ha + hb + 2, hc, r);
    }
  }

  /** Difference of two aligned sums that is settled by their limbs from k up. */
  lemma SettledDifference(a: seq<Limb>, b: seq<Limb>, c: seq<Limb>, k: nat)
    requires |a| == |b| == |c| && k <= |a|
    ensures Val(a[k..]) + Val(b[k..]) > Val(c[k..]) ==> Val(a) + Val(b) > Val(c)
    ensures Val(c[k..]) > Val(a[k..]) + Val(b[k..]) + 1 ==> Val(c) > Val(a) + Val(b)
  {
    SplitWithin(a, k);
    SplitWithin(b, k);
    SplitWithin(c, k);
    SettledBounds(Radix(k), Val(a[k..]), Val(b[k..]), Val(c[k..]), Val(a), Val(b), Val(c));
  }

  /** Two summands that end more than one position below the third number cannot reach it. */
  lemma FarSmaller(a: nat, b: nat, m: nat, c: seq<Limb>, e: nat)
    requires TopNonzero(c) && a < Radix(m) && b < Radix(m) && m + 1 < |c| + e
    ensures a + b < Scaled(c, e)
  {
    ScaledBounds(c, e);
    RadixStep(m);
    RadixMonotone(m + 1, |c| + e - 1);
  }

  function Sign(x: int): int {
    if x > 0 then 1 else if x < 0 then -1 else 0
  }

  lemma SignCases(x: int, y: int)
    ensures Sign(x - y) == if x > y then 1 else if x < y then -1 else 0
  {
  }

  lemma ScaledSign(a: seq<Limb>, b: seq<Limb>, c: seq<Limb>, lo: nat)
    ensures Sign(Scaled(a, lo) + Scaled(b, lo) - Scaled(c, lo)) == Sign(Val(a) + Val(b) - Val(c))
  {
    SignOfMultiple(Val(a), Val(b), Val(c), Radix(lo));
  }

  lemma SignOfMultiple(a: int, b: int, c: int, r: int)
    requires r > 0
    ensures Sign(a * r + b * r - c * r) == Sign(a + b - c)
  {
    var d := a + b - c;
    assert a * r + b * r - c * r == d * r;
    if d > 0 {
      MulLowerBound(d, r);
    } else if d < 0 {
      MulLowerBound(-d, r);
      assert (-d) * r == -(d * r);
    }
  }

  lemma TrimmedCount(s: seq<Limb>, m: nat)
    requires TopNonzero(s) && Val(s) < Radix(m)
    ensures |s| <= m
  {
    ValTop(s);
    if m < |s| {
      RadixMonotone(m, |s| - 1);
    }
  }

  lemma TrimmedTop(s: seq<Limb>, e: nat)
    requires Trimmed(s)
    ensures Scaled(s, e) > 0 ==> TopNonzero(s)
    ensures TopNonzero(s) ==> Scaled(s, e) > 0
  {
    ScaledBounds(s, e);
    if Scaled(s, e) > 0 {
      assert Val(s) > 0;
      TrimmedPositive(s);
    }
  }

  lemma ScaledBelow(s: seq<Limb>, e: nat, m: nat)
    requires |s| + e <= m
    ensures Scaled(s, e) < Radix(m)
  {
    ScaledBounds(s, e);
    RadixMonotone(|s| + e, m);
  }
}
