/** Counting decimal digits: by division, and by tables indexed with the top bit. */
module DigitCount {
  import opened Powers
  import opened DigitText

  lemma DigitCountUnique(n: nat, j: nat, k: nat)
    requires IsDigitCount(n, j) && IsDigitCount(n, k)
    ensures j == k
  {
    if j < k {
      PowMonotone(10, j, k - 1);
    } else if k < j {
      PowMonotone(10, k, j - 1);
    }
  }

  lemma SmallPowers()
    ensures Pow(10, 0) == 1 && Pow(10, 1) == 10 && Pow(10, 2) == 100 && Pow(10, 3) == 1000 && Pow(10, 4) == 10000
  {
    assert Pow(10, 2) == 10 * Pow(10, 1);
    assert Pow(10, 3) == 10 * Pow(10, 2);
    assert Pow(10, 4) == 10 * Pow(10, 3);
  }

  /** The count of n follows from that of n / 10000. */
  lemma FourMoreDigits(n: nat, k: nat)
    requires n >= 10000 && IsDigitCount(n / 10000, k)
    ensures IsDigitCount(n, k + 4)
  {
    SmallPowers();
    PowAdd(10, k, 4);
    PowAdd(10, k - 1, 4);
  }

  /** Four digits a turn. */
  method CountDigitsFallback(n: nat) returns (count: nat)
    ensures IsDigitCount(n, count)
  {
    SmallPowers();
    hide Pow;
    count := 1;
    var rest := n;
    while true
      invariant count >= 1
      invariant forall k :: IsDigitCount(rest, k) ==> IsDigitCount(n, count - 1 + k)
      decreases rest
    {
      if rest < 10 {
        assert IsDigitCount(rest, 1);
        return;
      }
      if rest < 100 {
        assert IsDigitCount(rest, 2);
        count := count + 1;
        return;
      }
      if rest < 1000 {
        assert IsDigitCount(rest, 3);
        count := count + 2;
        return;
      }
      if rest < 10000 {
        assert IsDigitCount(rest, 4);
        count := count + 3;
        return;
      }
      forall k | IsDigitCount(rest / 10000, k)
        ensures IsDigitCount(n, count + 4 - 1 + k)
      {
        FourMoreDigits(rest, k);
      }
      rest := rest / 10000;
      count := count + 4;
    }
  }

  /** Index of the highest set bit: the builtin's leading-zero count, subtracted from the width. */
  function TopBit(n: nat): (b: nat)
    requires n > 0
    ensures Pow(2, b) <= n < Pow(2, b + 1)
  {
    if n == 1 then assert Pow(2, 1) == 2; 0 else 1 + TopBit(n / 2)
  }

  function OrOne(n: nat): (m: nat)
    ensures m > 0
  {
    if n % 2 == 0 then n + 1 else n
  }

  /** The digit count is t or t - 1, according to whether n reaches the t-digit numbers. */
  predicate CountsDown(n: nat, t: nat) {
    t >= 1 && n < Pow(10, t) && (t >= 2 ==> Pow(10, t - 2) <= n)
  }

  lemma CountFromTable(n: nat, t: nat)
    requires CountsDown(n, t) && (t == 1 || n > 0)
    ensures IsDigitCount(n, if t >= 2 && n < Pow(10, t - 1) then t - 1 else t)
  {
  }

  /** Powers of two at which the table for 64 bits steps up. */
  lemma TwoPowers()
    ensures Pow(2, 0) == 1 && Pow(2, 3) == 8 && Pow(2, 6) == 64 && Pow(2, 9) == 512 && Pow(2, 13) == 8192
    ensures Pow(2, 16) == 0x1_0000 && Pow(2, 19) == 0x8_0000 && Pow(2, 23) == 0x80_0000 && Pow(2, 26) == 0x400_0000
    ensures Pow(2, 29) == 0x2000_0000 && Pow(2, 33) == 0x2_0000_0000 && Pow(2, 36) == 0x10_0000_0000
    ensures Pow(2, 39) == 0x80_0000_0000 && Pow(2, 43) == 0x800_0000_0000 && Pow(2, 46) == 0x4000_0000_0000
    ensures Pow(2, 49) == 0x2_0000_0000_0000 && Pow(2, 53) == 0x20_0000_0000_0000
    ensures Pow(2, 56) == 0x100_0000_0000_0000 && Pow(2, 59) == 0x800_0000_0000_0000
    ensures Pow(2, 63) == 0x8000_0000_0000_0000 && Pow(2, 64) == 0x1_0000_0000_0000_0000
  {
    assert Pow(2, 3) == 8;
    assert Pow(2, 4) == 16;
    hide Pow;
    PowAdd(2, 3, 3);
    PowAdd(2, 6, 3);
    PowAdd(2, 9, 4);
    PowAdd(2, 13, 3);
    PowAdd(2, 16, 3);
    PowAdd(2, 19, 4);
    PowAdd(2, 23, 3);
    PowAdd(2, 26, 3);
    PowAdd(2, 29, 4);
    PowAdd(2, 33, 3);
    PowAdd(2, 36, 3);
    PowAdd(2, 39, 4);
    PowAdd(2, 43, 3);
    PowAdd(2, 46, 3);
    PowAdd(2, 49, 4);
    PowAdd(2, 53, 3);
    PowAdd(2, 56, 3);
    PowAdd(2, 59, 4);
    PowAdd(2, 60, 4);
    PowAdd(2, 56, 4);
  }

  lemma TenPowers()
    ensures Pow(10, 5) == 100000 && Pow(10, 6) == 1000000 && Pow(10, 7) == 10000000 && Pow(10, 8) == 100000000
    ensures Pow(10, 9) == 1000000000 && Pow(10, 10) == 10000000000 && Pow(10, 11) == 100000000000
    ensures Pow(10, 12) == 1000000000000 && Pow(10, 13) == 10000000000000 && Pow(10, 14) == 100000000000000
    ensures Pow(10, 15) == 1000000000000000 && Pow(10, 16) == 10000000000000000
    ensures Pow(10, 17) == 100000000000000000 && Pow(10, 18) == 1000000000000000000
    ensures Pow(10, 19) == 10000000000000000000 && Pow(10, 20) == 100000000000000000000
  {
    SmallPowers();
    hide Pow;
    PowAdd(10, 4, 1);
    PowAdd(10, 4, 2);
    PowAdd(10, 4, 3);
    PowAdd(10, 4, 4);
    PowAdd(10, 8, 1);
    PowAdd(10, 8, 2);
    PowAdd(10, 8, 3);
    PowAdd(10, 8, 4);
    PowAdd(10, 12, 1);
    PowAdd(10, 12, 2);
    PowAdd(10, 12, 3);
    PowAdd(10, 12, 4);
    PowAdd(10, 16, 1);
    PowAdd(10, 16, 2);
    PowAdd(10, 16, 3);
    PowAdd(10, 16, 4);
  }

  /** The 64-entry table from the top bit b to the number of digits of 2^(b+1) - 1, run by run. */
  function Bsr2Log10(b: nat): nat {
    if b < 3 then 1 else if b < 6 then 2 else if b < 9 then 3 else if b < 13 then 4 else if b < 16 then 5 else
    if b < 19 then 6 else if b < 23 then 7 else if b < 26 then 8 else if b < 29 then 9 else if b < 33 then 10 else
    if b < 36 then 11 else if b < 39 then 12 else if b < 43 then 13 else if b < 46 then 14 else if b < 49 then 15 else
    if b < 53 then 16 else if b < 56 then 17 else if b < 59 then 18 else if b < 63 then 19 else 20
  }

  const ZERO_OR_POWERS_OF_10: seq<nat> := [
    0, 0, 10, 100, 1000, 10000, 100000, 1000000, 10000000, 100000000, 1000000000,
    10000000000, 100000000000, 1000000000000, 10000000000000, 100000000000000, 1000000000000000,
    10000000000000000, 100000000000000000, 1000000000000000000, 10000000000000000000]

  /** Row t of the table serves the top bits from lo up to but not including hi. */
  predicate RowFits(t: nat, lo: nat, hi: nat) {
    t >= 1 && lo < hi && Pow(2, hi) <= Pow(10, t) && (t >= 2 ==> Pow(10, t - 2) <= Pow(2, lo))
  }

  function RowStart(t: nat): nat {
    if t <= 1 then 0 else if t == 2 then 3 else if t == 3 then 6 else if t == 4 then 9
    else if t == 5 then 13 else if t == 6 then 16 else if t == 7 then 19 else if t == 8 then 23
    else if t == 9 then 26 else if t == 10 then 29 else if t == 11 then 33 else if t == 12 then 36
    else if t == 13 then 39 else if t == 14 then 43 else if t == 15 then 46 else if t == 16 then 49
    else if t == 17 then 53 else if t == 18 then 56 else if t == 19 then 59 else if t == 20 then 63
    else 64
  }

  lemma RowBounds(t: nat)
    requires 1 <= t <= 20
    ensures RowFits(t, RowStart(t), RowStart(t + 1))
    ensures ZERO_OR_POWERS_OF_10[t] == if t == 1 then 0 else Pow(10, t - 1)
  {
    TwoPowers();
    SmallPowers();
    TenPowers();
    hide Pow;
  }

  lemma RowOf(b: nat)
    requires b < 64
    ensures 1 <= Bsr2Log10(b) <= 20 && RowStart(Bsr2Log10(b)) <= b < RowStart(Bsr2Log10(b) + 1)
  {
  }

  lemma RowCounts(n: nat, t: nat, lo: nat, hi: nat, b: nat)
    requires RowFits(t, lo, hi) && lo <= b < hi && (b == 0 ==> t == 1)
    requires Pow(2, b) <= OrOne(n) < Pow(2, b + 1)
    ensures n > 0 || t == 1
    ensures CountsDown(n, t)
  {
    PowMonotone(2, lo, b);
    PowMonotone(2, b + 1, hi);
    assert Pow(10, 1) == 10;
    if b > 0 {
      PowMonotone(2, 1, b);
      assert Pow(2, 1) == 2;
    }
  }

  /** The 64-bit version: table lookup by top bit, corrected by one comparison. */
  function CountDigits64(n: nat): (count: nat)
    requires n < 0x1_0000_0000_0000_0000
    ensures IsDigitCount(n, count)
  {
    var b := TopBit(OrOne(n));
    TwoPowers();
    TopBitBound(OrOne(n), 64);
    var t := Bsr2Log10(b);
    RowOf(b);
    RowBounds(t);
    RowCounts(n, t, RowStart(t), RowStart(t + 1), b);
    CountFromTable(n, t);
    if n < ZERO_OR_POWERS_OF_10[t] then t - 1 else t
  }

  lemma TopBitBound(n: nat, w: nat)
    requires 0 < n < Pow(2, w)
    ensures TopBit(n) < w
  {
    if TopBit(n) >= w {
      PowMonotone(2, w, TopBit(n));
    }
  }

  /** Three top bits share each entry of the 32-bit table, the last five the largest. */
  function IncDigits(b: nat): (d: nat)
    ensures 1 <= d <= 10
  {
    if b < 27 then b / 3 + 1 else 10
  }

  /** The table entry FMT_INC(T), in which T is the least number with that many digits, or 0. */
  function CountDigitsInc(b: nat): nat {
    var d := IncDigits(b);
    d * 0x1_0000_0000 - ZERO_OR_POWERS_OF_10[d]
  }

  lemma IncRow(d: nat)
    requires 1 <= d <= 10
    ensures RowFits(d, 3 * (d - 1), if d < 10 then 3 * d else 32)
    ensures ZERO_OR_POWERS_OF_10[d] == if d == 1 then 0 else Pow(10, d - 1)
    ensures ZERO_OR_POWERS_OF_10[d] < 0x1_0000_0000
  {
    EightPowers();
    SmallPowers();
    TenPowers();
    hide Pow;
  }

  lemma EightPowers()
    ensures Pow(2, 0) == 1 && Pow(2, 3) == 8 && Pow(2, 6) == 64 && Pow(2, 9) == 512 && Pow(2, 12) == 4096
    ensures Pow(2, 15) == 0x8000 && Pow(2, 18) == 0x4_0000 && Pow(2, 21) == 0x20_0000
    ensures Pow(2, 24) == 0x100_0000 && Pow(2, 27) == 0x800_0000 && Pow(2, 32) == 0x1_0000_0000
  {
    TwoPowers();
    hide Pow;
    PowAdd(2, 9, 3);
    PowAdd(2, 9, 6);
    PowAdd(2, 9, 9);
    PowAdd(2, 12, 9);
    PowAdd(2, 12, 12);
    PowAdd(2, 12, 15);
    PowAdd(2, 16, 16);
  }

  /** The 32-bit version: one addition whose carry out of the low word corrects the count. */
  function CountDigits32(n: nat): (count: nat)
    requires n < 0x1_0000_0000
    ensures IsDigitCount(n, count)
  {
    var b := TopBit(OrOne(n));
    TopBitBelow32(OrOne(n));
    var d := IncDigits(b);
    IncRow(d);
    RowCounts(n, d, 3 * (d - 1), if d < 10 then 3 * d else 32, b);
    CountFromTable(n, d);
    IncCarry(n, d, ZERO_OR_POWERS_OF_10[d]);
    (n + CountDigitsInc(b)) / 0x1_0000_0000
  }

  lemma TopBitBelow32(n: nat)
    requires 0 < n < 0x1_0000_0000
    ensures TopBit(n) < 32
  {
    EightPowers();
    TopBitBound(n, 32);
  }

  lemma IncCarry(n: nat, d: nat, t: nat)
    requires n < 0x1_0000_0000 && t < 0x1_0000_0000
    ensures (n + (d * 0x1_0000_0000 - t)) / 0x1_0000_0000 == if n < t then d - 1 else d
  {
  }
}
