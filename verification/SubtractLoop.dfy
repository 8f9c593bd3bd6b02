/** Why the in-place subtraction is exact, and the one case in which it is not. */
module SubtractLoop {
  import opened Powers
  import opened Limbs
  import opened LimbLemmas

  /** Limbs y hold the difference of x and the first j limbs of b, but for a borrow. */
  predicate BorrowPrefix(y: seq<Limb>, x: seq<Limb>, b: seq<Limb>, j: nat, borrow: int)
    requires j <= |b| && j <= |x| == |y|
  {
    Val(y[..j]) == Val(x[..j]) - Val(b[..j]) + Radix(j) * borrow
  }

  /** One limb of the chain: the stored limb and the borrow account for the difference. */
  predicate LimbDifference(d: Limb, borrow': int, x: Limb, y: Limb, borrow: int) {
    0 <= borrow' <= 1 && d - 0x1_0000_0000 * borrow' == x - y - borrow
  }

  /** The last operand limb has been used up; the borrow loop then stays on the next limb. */
  predicate BorrowLost(x: seq<Limb>, b: seq<Limb>) {
    |b| < |x| && Val(x[..|b|]) < Val(b) && x[|b|] == 0
  }

  function LimbsFrom(s: seq<Limb>, k: nat): seq<Limb> {
    if k <= |s| then s[k..] else []
  }

  /** What the lost borrow adds to the difference, in units of the operand's lowest limb. */
  function Excess(x: seq<Limb>, b: seq<Limb>): nat {
    if BorrowLost(x, b) then 0xFFFF_FFFF * Radix(|b|) else 0
  }

  lemma BorrowChain(y: seq<Limb>, x: seq<Limb>, b: seq<Limb>, j: nat, borrow: int, borrow': int, d: Limb)
    requires j < |b| && j < |x| == |y| && BorrowPrefix(y, x, b, j, borrow)
    requires LimbDifference(d, borrow', x[j], b[j], borrow)
    ensures BorrowPrefix(y[j := d], x, b, j + 1, borrow')
  {
    assert y[j := d][..j + 1] == y[..j] + [d];
    ValAppend(y[..j], d);
    ValExtend(x, j);
    ValExtend(b, j);
    BorrowStep(Val(y[..j]), Val(x[..j]), Val(b[..j]), Radix(j), borrow, borrow', d, x[j], b[j]);
  }

  /** A borrow out of the operand's limbs says that the matched limbs were too small. */
  lemma BorrowMeaning(y: seq<Limb>, x: seq<Limb>, b: seq<Limb>, borrow: int)
    requires |b| <= |x| == |y| && 0 <= borrow <= 1
    requires BorrowPrefix(y, x, b, |b|, borrow)
    ensures borrow == 1 <==> Val(x[..|b|]) < Val(b)
    ensures Val(x) >= Val(b) && borrow == 1 ==> |b| < |x|
  {
    hide Val, Radix;
    assert b[..|b|] == b;
    ValBound(y[..|b|]);
    if |x| == |b| {
      assert x[..|b|] == x;
    }
  }

  /** The limb that the borrow loop rewrites, from its old value o. */
  function Borrowed(o: Limb): Limb {
    if o > 0 then o - 1 else 0xFFFF_FFFE
  }

  lemma NothingOwed(y: seq<Limb>, x: seq<Limb>, b: seq<Limb>)
    requires |b| <= |x| == |y| && Val(x) >= Val(b)
    requires BorrowPrefix(y, x, b, |b|, 0) && y[|b|..] == x[|b|..]
    ensures Val(y) == Val(x) - Val(b) + Excess(x, b)
  {
    hide Val, Radix;
    BorrowMeaning(y, x, b, 0);
    ValSplit(x, |b|);
    ValSplit(y, |b|);
    assert b[..|b|] == b;
  }

  lemma BorrowTaken(y: seq<Limb>, x: seq<Limb>, b: seq<Limb>)
    requires |b| < |x| == |y| && Val(x) >= Val(b)
    requires BorrowPrefix(y, x, b, |b|, 1) && y[|b|..] == x[|b|..]
    ensures Val(y[|b| := Borrowed(x[|b|])]) == Val(x) - Val(b) + Excess(x, b)
  {
    hide Val, Radix;
    var m := |b|;
    var z := y[m := Borrowed(x[m])];
    BorrowMeaning(y, x, b, 1);
    ValSplit(x, m);
    ValSplit(z, m);
    ValDrop(x, m);
    ValDrop(z, m);
    assert b[..m] == b && z[..m] == y[..m] && z[m + 1..] == x[m + 1..];
    BorrowedUnits(Radix(m), x[m], Val(x[m + 1..]));
    assert Val(z[..m]) == Val(x[..m]) - Val(b) + Radix(m);
  }

  lemma BorrowedUnits(r: int, o: Limb, h: int)
    ensures r + r * (Borrowed(o) + 0x1_0000_0000 * h)
         == r * (o + 0x1_0000_0000 * h) + (if o > 0 then 0 else 0xFFFF_FFFF * r)
  {
    assert r * (Borrowed(o) + 0x1_0000_0000 * h) == r * Borrowed(o) + r * (0x1_0000_0000 * h);
    assert r * (o + 0x1_0000_0000 * h) == r * o + r * (0x1_0000_0000 * h);
  }

  /** From the limbs at and above the operand's position to the whole number. */
  lemma SubtractValue(z: seq<Limb>, a: seq<Limb>, e: nat, b: seq<Limb>, k: nat)
    requires k <= |a| == |z| && z[..k] == a[..k]
    requires Val(z[k..]) == Val(a[k..]) - Val(b) + Excess(a[k..], b)
    ensures Scaled(z, e) == Scaled(a, e) - Scaled(b, k + e) + Excess(a[k..], b) * Radix(k + e)
  {
    hide Val, Radix, Excess;
    ValSplit(z, k);
    ValSplit(a, k);
    var l := Val(a[..k]);
    ShiftScale(l, Val(z[k..]), k, e);
    ShiftScale(l, Val(a[k..]), k, e);
    DistributeThree(Radix(k + e), Val(a[k..]), Val(b), Excess(a[k..], b));
  }

  lemma DistributeThree(r: int, x: int, d: int, q: int)
    ensures r * (x - d + q) == r * x - r * d + r * q
  {
  }

  /** The operand lies within the minuend, also after both have been shifted to k. */
  lemma OperandFits(a: seq<Limb>, e: nat, b: seq<Limb>, k: nat)
    requires TopNonzero(b) && Scaled(a, e) >= Scaled(b, k + e)
    ensures 0 < |b| <= |a| - k && Val(a[k..]) >= Val(b)
  {
    hide Scaled, Radix, Val;
    if k + |b| > |a| {
      LongerIsLarger(b, k + e, a, e);
    }
    ScaledSplit(a, e, k);
    ScaledIs(b, k + e);
    MulCancelLess(Val(b), Val(a[k..]) + 1, Radix(k + e));
  }

  lemma ScaledIs(b: seq<Limb>, e: nat)
    ensures Scaled(b, e) == Radix(e) * Val(b)
  {
  }

  /** With at most one limb above the operand no borrow can be lost. */
  lemma OneExtraLimb(a: seq<Limb>, k: nat, b: seq<Limb>)
    requires Trimmed(a) && |b| > 0 && k + |b| <= |a| <= k + |b| + 1
    ensures LimbsFrom(a, k) == a[k..] && Excess(LimbsFrom(a, k), b) == 0
  {
  }

  /** A quotient below 2^32 leaves at most one limb above the divisor. */
  lemma SmallQuotientLimbs(a: seq<Limb>, e: nat, b: seq<Limb>, k: nat)
    requires TopNonzero(a) && Scaled(a, e) < 0x1_0000_0000 * Scaled(b, k + e)
    ensures |a| <= k + |b| + 1
  {
    ScaledBounds(a, e);
    ScaledBounds(b, k + e);
    RadixStep(|b| + k + e);
    if |a| > k + |b| + 1 {
      RadixMonotone(|b| + k + e + 1, |a| + e - 1);
    }
  }

  /** So no borrow is lost when the quotient fits 32 bits. */
  lemma NoBorrowLost(a: seq<Limb>, e: nat, b: seq<Limb>, k: nat)
    requires TopNonzero(a) && TopNonzero(b)
    requires Scaled(b, k + e) <= Scaled(a, e) < 0x1_0000_0000 * Scaled(b, k + e)
    ensures Excess(LimbsFrom(a, k), b) == 0
  {
    SmallQuotientLimbs(a, e, b, k);
    OperandFits(a, e, b, k);
    OneExtraLimb(a, k, b);
  }

  /** A minuend two limbs longer than the operand can lose the borrow. */
  lemma LostBorrowExample()
    ensures var a: seq<Limb> := [0, 0, 1]; var b: seq<Limb> := [1];
            Trimmed(a) && TopNonzero(b) && Val(a) >= Val(b) && BorrowLost(a, b) && Excess(a, b) > 0
  {
    var a: seq<Limb>, b: seq<Limb> := [0, 0, 1], [1];
    ValSplit(a, 1);
    ValDrop(a, 1);
    ValDrop(a, 2);
    assert a[..1] == [0];
  }

  /** Rewriting limb j of the part above k, seen from below and from above. */
  lemma OneLimb(s: seq<Limb>, k: nat, j: nat, d: Limb)
    requires k + j < |s|
    ensures s[k + j := d][k..] == s[k..][j := d] && s[k + j := d][..k] == s[..k]
    ensures s[k + j := d][k + j + 1..] == s[k + j..][1..]
    ensures s[k..][j] == s[k + j]
  {
  }

  lemma SameLimb(s: seq<Limb>, a: seq<Limb>, k: nat, j: nat)
    requires k + j < |s| == |a| && s[k + j..] == a[k + j..]
    ensures s[k..][j] == s[k + j] == a[k + j] == a[k..][j] && s[k + j..][1..] == a[k + j + 1..]
  {
    assert s[k + j..][0] == s[k + j] && a[k + j..][0] == a[k + j];
  }

  lemma SliceTwice(s: seq<Limb>, a: seq<Limb>, k: nat, n: nat)
    requires k + n <= |s| == |a| && s[k + n..] == a[k + n..]
    ensures s[k..][n..] == a[k..][n..]
  {
    assert s[k..][n..] == s[k + n..] && a[k..][n..] == a[k + n..];
  }

  lemma BorrowNothing(x: seq<Limb>, b: seq<Limb>)
    ensures BorrowPrefix(x, x, b, 0, 0)
  {
  }

  /** The states of the limb on which the trailing borrow loop works, from its old value o. */
  predicate BorrowPending(c: Limb, o: Limb, borrow: int) {
    || (borrow == 1 && c == o)
    || (borrow == 1 && o == 0 && c == 0xFFFF_FFFF)
    || (borrow == 0 && c == Borrowed(o))
  }

  /** Low zero limbs do not change the number. */
  lemma LowZeros(s: seq<Limb>, d: nat, e: nat)
    ensures Scaled(Zeros(d) + s, e) == Scaled(s, e + d)
  {
    ValZero(Zeros(d));
    ValConcat(Zeros(d), s);
    RadixAdd(d, e);
    ProductRotate(Radix(d), Val(s), Radix(e));
    assert Scaled(s, e + d) == Val(s) * Radix(d + e);
  }

  /** a has been divided by d as far as quotient q and the rest that is left. */
  predicate Divided(a: int, q: int, d: int, rest: int) {
    a == q * d + rest
  }

  lemma DividedStart(a: int, d: int)
    ensures Divided(a, 0, d, a)
  {
  }

  /** The division that a quotient and a smaller rest describe is the only one. */
  lemma DividedMeaning(a: nat, q: nat, d: nat, rest: nat)
    requires Divided(a, q, d, rest) && rest < d
    ensures q == a / d && rest == a % d
  {
    DivUnique(a, d, q, rest);
  }

  lemma DivisionIs(a: nat, d: nat)
    requires d > 0
    ensures Divided(a, a / d, d, a % d)
  {
  }

  lemma DividedStep(a: int, q: int, d: int, rest: int, rest': int, lost: int, r: int)
    requires Divided(a, q, d, rest) && rest' == rest - d + lost * r && lost == 0
    ensures rest' == rest - d && Divided(a, q + 1, d, rest')
  {
    assert (q + 1) * d == q * d + d;
  }

  lemma AlignedTop(s: seq<Limb>, d: nat)
    ensures TopNonzero(s) ==> TopNonzero(Zeros(d) + s)
  {
  }
}
