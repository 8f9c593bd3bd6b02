/** Why walking the bits of the exponent from the top raises five to it. */
module PowerLoop {
  import opened Powers
  import opened Limbs
  import opened LimbLemmas

  /** Each shorter prefix of the exponent is half the next, the rest being the next bit. */
  lemma NextBit(power: nat, k: nat)
    requires k > 0
    ensures power / Pow(2, k - 1) == 2 * (power / Pow(2, k)) + power / Pow(2, k - 1) % 2
    ensures Pow(2, k) == 2 * Pow(2, k - 1)
  {
    var p := Pow(2, k - 1);
    assert Pow(2, k) == 2 * p;
    hide *;
    var q, r := power / p, power % p;
    var h, b := q / 2, q % 2;
    assert power == p * q + r;
    assert p * (2 * h + b) == (2 * p) * h + p * b;
    assert 0 <= p * b <= p;
    DivUnique(power, 2 * p, h, p * b + r);
  }

  lemma OddPower(x: nat, h: nat)
    requires x == Pow(5, h)
    ensures x * x == Pow(5, 2 * h)
    ensures (x * x) * 5 == Pow(5, 2 * h + 1)
  {
    PowAdd(5, h, h);
  }

  lemma {:induction false} FivePowerBound(h: nat)
    requires h > 0
    ensures Pow(5, h) < Radix(h)
  {
    if h == 1 {
      assert Pow(5, 1) == 5 * Pow(5, 0);
      RadixStep(0);
    } else {
      FivePowerBound(h - 1);
      RadixStep(h - 1);
    }
  }

  /** The test (exp & bitmask) != 0 for a bitmask with a single bit. */
  predicate BitSet(power: nat, bitmask: nat)
    requires bitmask > 0
  {
    power / bitmask % 2 != 0
  }

  /** v is five raised to the exponent's bits from k up. */
  predicate FivePrefix(v: int, power: nat, k: nat) {
    Pow(2, k) <= power && v == Pow(5, power / Pow(2, k))
  }

  lemma FiveStart(power: nat, k: nat)
    requires Pow(2, k) <= power < 2 * Pow(2, k)
    ensures FivePrefix(5, power, k)
    ensures Pow(2, k) / 2 == if k == 0 then 0 else Pow(2, k - 1)
  {
    DivUnique(power, Pow(2, k), 1, power - Pow(2, k));
    PowerBasics(0);
    if k > 0 {
      PowerBasics(k - 1);
    }
  }

  /** Squaring, and multiplying by five when the next bit is set, takes in one more bit. */
  lemma FiveStep(v: int, power: nat, k: nat)
    requires k > 0 && FivePrefix(v, power, k)
    ensures FivePrefix(if BitSet(power, Pow(2, k - 1)) then (v * v) * 5 else v * v, power, k - 1)
    ensures v * v > 0
  {
    hide Pow;
    NextBit(power, k);
    OddPower(v, power / Pow(2, k));
  }

  lemma FiveDone(v: int, power: nat)
    requires FivePrefix(v, power, 0)
    ensures v * Pow(2, power) == Pow(10, power)
  {
    PowerBasics(0);
    assert power / 1 == power;
    hide Pow;
    PowProduct(5, 2, power);
  }

  lemma FiveLimbs(s: seq<Limb>, power: nat, k: nat)
    requires k > 0 && TopNonzero(s) && FivePrefix(Scaled(s, 0), power, k)
    ensures 2 * |s| <= power
  {
    hide Scaled;
    var h := power / Pow(2, k);
    NextBit(power, k);
    PowerBasics(k - 1);
    hide Pow;
    QuotientBounds(power, Pow(2, k));
    FivePowerBound(h);
    CountBelow(s, h);
  }

  lemma QuotientBounds(x: nat, d: nat)
    requires 2 <= d <= x
    ensures 1 <= x / d && 2 * (x / d) <= x
  {
    var q := x / d;
    assert x == d * q + x % d;
    if q == 0 {
    } else {
      MulMonotone(2, d, q);
    }
  }

  lemma CountBelow(s: seq<Limb>, h: nat)
    requires TopNonzero(s) && Scaled(s, 0) < Radix(h)
    ensures |s| <= h
  {
    RadixStep(0);
    TrimmedCount(s, h);
  }

  lemma PowerBasics(k: int)
    ensures Pow(2, 0) == 1 && Pow(10, 0) == 1 && Pow(5, 0) == 1 && Pow(5, 1) == 5
    ensures k >= 0 ==> Pow(2, k + 1) == 2 * Pow(2, k)
  {
  }
}
