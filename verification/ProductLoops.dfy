/** Why the in-place product and shift loops of Bigint are exact. */
module ProductLoops {
  import opened Powers
  import opened Limbs
  import opened LimbLemmas

  /** The limbs below i already hold the product of those of s by v, but for a carry. */
  predicate ProductPrefix(cur: seq<Limb>, s: seq<Limb>, i: nat, carry: int, v: int)
    requires i <= |cur| == |s|
  {
    Val(cur[..i]) + Radix(i) * carry == Val(s[..i]) * v
  }

  lemma ProductStart(s: seq<Limb>, v: int)
    ensures ProductPrefix(s, s, 0, 0, v)
  {
  }

  lemma ProductDone(cur: seq<Limb>, s: seq<Limb>, carry: int, v: int, e: nat)
    requires |cur| == |s| && ProductPrefix(cur, s, |s|, carry, v)
    ensures carry == 0 ==> Scaled(cur, e) == Scaled(s, e) * v
    ensures 0 < carry < 0x1_0000_0000 ==> Scaled(cur + [carry], e) == Scaled(s, e) * v
  {
    FlushStart(cur, s, carry, v);
    if carry == 0 {
      FlushDone(cur, s, v, e);
    } else if 0 < carry < 0x1_0000_0000 {
      FlushStep(cur, s, carry, v);
      FlushDone(cur + [carry], s, v, e);
    }
  }

  /** One limb of a product loop: d is stored, c' is carried on. */
  lemma ProductStep(cur: seq<Limb>, s: seq<Limb>, i: nat, c: int, c': int, d: Limb, v: int)
    requires i < |cur| == |s| && ProductPrefix(cur, s, i, c, v)
    requires d + 0x1_0000_0000 * c' == s[i] * v + c
    ensures ProductPrefix(cur[i := d], s, i + 1, c', v)
  {
    assert cur[i := d][..i + 1] == cur[..i] + [d];
    ValAppend(cur[..i], d);
    ValExtend(s, i);
    CarryStep(Val(cur[..i]), Radix(i), c, c', d, s[i], v, Val(s[..i]));
  }

  /** All limbs hold the product but for a carry that has yet to be appended. */
  predicate Flushed(cur: seq<Limb>, s: seq<Limb>, carry: int, v: int) {
    Val(cur) + Radix(|cur|) * carry == Val(s) * v
  }

  lemma FlushStart(cur: seq<Limb>, s: seq<Limb>, carry: int, v: int)
    requires |cur| == |s| && ProductPrefix(cur, s, |s|, carry, v)
    ensures Flushed(cur, s, carry, v)
  {
    assert cur[..|s|] == cur && s[..|s|] == s;
  }

  lemma FlushStep(cur: seq<Limb>, s: seq<Limb>, carry: nat, v: int)
    requires Flushed(cur, s, carry, v)
    ensures Flushed(cur + [carry % 0x1_0000_0000], s, carry / 0x1_0000_0000, v)
  {
    ValAppend(cur, carry % 0x1_0000_0000);
    CarryOut(Radix(|cur|), carry);
    RadixStep(|cur|);
  }

  lemma FlushDone(cur: seq<Limb>, s: seq<Limb>, v: int, e: nat)
    requires Flushed(cur, s, 0, v)
    ensures Scaled(cur, e) == Scaled(s, e) * v
  {
    ProductRotate(Val(s), v, Radix(e));
  }

  lemma CarryOut(r: int, c: int)
    ensures r * (c % 0x1_0000_0000) + (0x1_0000_0000 * r) * (c / 0x1_0000_0000) == r * c
  {
    var l, h := c % 0x1_0000_0000, c / 0x1_0000_0000;
    assert c == l + 0x1_0000_0000 * h;
    assert r * (l + 0x1_0000_0000 * h) == r * l + (0x1_0000_0000 * r) * h;
  }

  /** The two half products of multiply(uint64_t) add up to the whole one and never wrap. */
  lemma WideProduct(x: Limb, lower: Limb, upper: Limb, c: int)
    requires 0 <= c < 0x1_0000_0000_0000_0000
    ensures var result := x * lower + c % 0x1_0000_0000;
            var carry := x * upper + result / 0x1_0000_0000 + c / 0x1_0000_0000;
            && Wrap64(result) == result >= 0 && Wrap64(carry) == carry >= 0
            && Wrap32(result) + 0x1_0000_0000 * carry == x * (lower + 0x1_0000_0000 * upper) + c
            && (x != 0 && lower + 0x1_0000_0000 * upper != 0 ==> Wrap32(result) != 0 || carry != 0)
  {
    var value := lower + 0x1_0000_0000 * upper;
    LimbProductBound(x, lower, c % 0x1_0000_0000, 0);
    var result := x * lower + c % 0x1_0000_0000;
    LimbProductBound(x, upper, result / 0x1_0000_0000, c / 0x1_0000_0000);
    assert x * value == x * lower + 0x1_0000_0000 * (x * upper);
    if x != 0 && value != 0 {
      MulLowerBound(x, value);
    }
  }

  lemma ShiftSplit(bits: nat)
    requires 0 < bits < 32
    ensures Pow(2, bits) * Pow(2, 32 - bits) == 0x1_0000_0000
    ensures Pow(2, bits) < 0x1_0000_0000
  {
    PowAdd(2, bits, 32 - bits);
    PowStrict(2, bits, 32);
    TwoTo32();
  }

  lemma TwoTo32()
    ensures Pow(2, 32) == 0x1_0000_0000
  {
    assert Pow(2, 4) == 16;
    hide *;
    PowAdd(2, 4, 4);
    assert Pow(2, 8) == 16 * 16;
    PowAdd(2, 8, 8);
    assert Pow(2, 16) == 256 * 256;
    PowAdd(2, 16, 16);
  }

  /** A value moved up by shift bits, as whole limbs and remaining bits. */
  lemma ShiftFactor(s: seq<Limb>, e: nat, shift: nat)
    ensures Scaled(s, e + shift / 32) * Pow(2, shift % 32) == Scaled(s, e) * Pow(2, shift)
  {
    var k, bits := shift / 32, shift % 32;
    PowerOfLimbs(k);
    RadixAdd(e, k);
    assert Scaled(s, e + k) == Val(s) * Radix(e + k);
    assert Scaled(s, e) == Val(s) * Radix(e);
    hide *;
    PowAdd(2, 32 * k, bits);
    assert shift == 32 * k + bits;
    FourFactors(Val(s), Radix(e), Radix(k), Pow(2, bits));
  }

  lemma PowerOfLimbs(k: nat)
    ensures Pow(2, 32 * k) == Radix(k)
  {
    TwoTo32();
    hide Pow;
    PowPow(2, 32, k);
  }

  lemma FourFactors(v: int, e: int, k: int, p: int)
    ensures (v * (e * k)) * p == (v * e) * (k * p)
  {
    MulAssoc(v, e, k);
    MulAssoc(v * e, k, p);
  }

  /** The part of a limb that stays in its 32 bits when it moves up. */
  function StayingBits(x: Limb, bits: nat): Limb {
    Wrap32(x * Pow(2, bits))
  }

  /** The part that moves into the next limb. */
  function LeavingBits(x: Limb, bits: nat): (c: int)
    requires 0 < bits < 32
  {
    x / Pow(2, 32 - bits)
  }

  lemma KeepLimb(s: seq<Limb>)
    ensures Pow(2, 0) == 1
    ensures |s| > 0 ==> StayingBits(s[0], 0) == s[0]
  {
  }

  lemma ShiftLimb(x: Limb, bits: nat, carry: int)
    requires 0 < bits < 32 && 0 <= carry < Pow(2, bits)
    ensures 0 <= LeavingBits(x, bits) < Pow(2, bits) < 0x1_0000_0000
    ensures Wrap32(StayingBits(x, bits) + carry) == StayingBits(x, bits) + carry
    ensures StayingBits(x, bits) + carry + 0x1_0000_0000 * LeavingBits(x, bits) == x * Pow(2, bits) + carry
    ensures x != 0 ==> StayingBits(x, bits) != 0 || LeavingBits(x, bits) != 0
  {
    ShiftSplit(bits);
    ShiftParts(x, Pow(2, bits), Pow(2, 32 - bits));
  }

  lemma ShiftParts(x: Limb, p: int, q: int)
    requires p > 0 && q > 0 && p * q == 0x1_0000_0000
    ensures 0 <= x / q < p
    ensures Wrap32(x * p) <= 0x1_0000_0000 - p
    ensures Wrap32(x * p) + 0x1_0000_0000 * (x / q) == x * p
    ensures x != 0 ==> Wrap32(x * p) != 0 || x / q != 0
  {
    var c, r := x / q, x % q;
    assert x == q * c + r;
    assert x * p == 0x1_0000_0000 * c + r * p by {
      assert (q * c + r) * p == (q * c) * p + r * p;
      ProductRotate(q, c, p);
    }
    MulMonotone(r, q - 1, p);
    assert (q - 1) * p == 0x1_0000_0000 - p;
    assert 0 <= r * p;
    if c >= p {
      MulMonotone(p, c, q);
    }
    assert Wrap32(x * p) == r * p;
    if x != 0 && c == 0 {
      MulLowerBound(p, r);
    }
  }
}
