/**
 * Little-endian sequences of 32-bit limbs and the number each denotes, with the
 * wrap-around of the 32-bit and 64-bit unsigned types made explicit.
 */
module Limbs {
  import opened Powers

  type Limb = x: int | 0 <= x < 0x1_0000_0000

  /** Truncation to uint32_t. */
  function Wrap32(x: int): (r: Limb)
    ensures 0 <= x < 0x1_0000_0000 ==> r == x
  {
    x % 0x1_0000_0000
  }

  /** Truncation to uint64_t. */
  function Wrap64(x: int): (r: int)
    ensures 0 <= r < 0x1_0000_0000_0000_0000
    ensures 0 <= x < 0x1_0000_0000_0000_0000 ==> r == x
  {
    x % 0x1_0000_0000_0000_0000
  }

  function Val(s: seq<Limb>): nat {
    if s == [] then 0 else s[0] + 0x1_0000_0000 * Val(s[1..])
  }

  function Radix(n: nat): (r: nat)
    ensures r > 0
  {
    Pow(0x1_0000_0000, n)
  }

  lemma RadixStep(n: nat)
    ensures Radix(0) == 1
    ensures Radix(n + 1) == 0x1_0000_0000 * Radix(n)
  {
  }

  lemma {:induction false} ValConcat(a: seq<Limb>, b: seq<Limb>)
    ensures Val(a + b) == Val(a) + Radix(|a|) * Val(b)
  {
    if a == [] {
      assert a + b == b;
    } else {
      assert (a + b)[1..] == a[1..] + b;
      ValConcat(a[1..], b);
      MulAssoc(0x1_0000_0000, Radix(|a| - 1), Val(b));
    }
  }

  lemma ValAppend(a: seq<Limb>, d: Limb)
    ensures Val(a + [d]) == Val(a) + Radix(|a|) * d
  {
    ValConcat(a, [d]);
    assert Val([d]) == d;
  }

  lemma ValSplit(s: seq<Limb>, k: nat)
    requires k <= |s|
    ensures Val(s) == Val(s[..k]) + Radix(k) * Val(s[k..])
  {
    assert s == s[..k] + s[k..];
    ValConcat(s[..k], s[k..]);
  }

  lemma ValExtend(s: seq<Limb>, k: nat)
    requires k < |s|
    ensures Val(s[..k + 1]) == Val(s[..k]) + Radix(k) * s[k]
  {
    assert s[..k + 1] == s[..k] + [s[k]];
    ValAppend(s[..k], s[k]);
  }

  lemma ValDrop(s: seq<Limb>, k: nat)
    requires k < |s|
    ensures Val(s[k..]) == s[k] + 0x1_0000_0000 * Val(s[k + 1..])
  {
    assert s[k..][1..] == s[k + 1..];
  }

  lemma {:induction false} ValBound(s: seq<Limb>)
    ensures Val(s) < Radix(|s|)
  {
    if s == [] {
    } else {
      ValBound(s[1..]);
    }
  }

  /** A nonzero top limb makes the number as large as its length says. */
  lemma ValTop(s: seq<Limb>)
    requires |s| > 0 && s[|s| - 1] != 0
    ensures Radix(|s| - 1) <= Val(s)
  {
    var k := |s| - 1;
    ValExtend(s, k);
    assert s[..k + 1] == s;
    MulMonotone(1, s[k], Radix(k));
  }

  function Zeros(n: nat): (s: seq<Limb>)
    ensures |s| == n && forall i :: 0 <= i < n ==> s[i] == 0
  {
    seq(n, _ => 0)
  }

  lemma {:induction false} ValZero(s: seq<Limb>)
    requires forall i :: 0 <= i < |s| ==> s[i] == 0
    ensures Val(s) == 0
  {
    if s == [] {
    } else {
      ValZero(s[1..]);
    }
  }

  lemma RadixAdd(m: nat, n: nat)
    ensures Radix(m + n) == Radix(m) * Radix(n)
  {
    PowAdd(0x1_0000_0000, m, n);
  }

  lemma RadixMonotone(m: nat, n: nat)
    requires m <= n
    ensures Radix(m) <= Radix(n)
  {
    PowMonotone(0x1_0000_0000, m, n);
  }

  lemma LimbProductBound(a: Limb, b: Limb, c: Limb, d: Limb)
    ensures 0 <= a * b
    ensures a * b + c + d < 0x1_0000_0000_0000_0000
  {
    MulMonotone(0, a, b);
    MulMonotone(a, 0xFFFF_FFFF, b);
    assert a * b <= 0xFFFF_FFFF * b;
  }
}
