/**
 * The arbitrary-precision natural number used for exact digit generation:
 * 32-bit limbs held least significant first, and an exponent counted in limbs.
 * Every operation updates the object in place.
 */
module BigintModule {
  import opened Powers
  import opened Limbs
  import opened LimbLemmas
  import opened ProductLoops
  import opened SubtractLoop
  import opened Convolution
  import opened PowerLoop
  import opened AddCompareLoop

  /** Two 64-bit words that hold the sums of the squaring loop. */
  class Accumulator {
    var lower: int
    var upper: int

    predicate Valid()
      reads this
    {
      0 <= lower < 0x1_0000_0000_0000_0000 && 0 <= upper < 0x1_0000_0000_0000_0000
    }

    function Value(): int
      reads this
    {
      lower + 0x1_0000_0000_0000_0000 * upper
    }

    constructor ()
      ensures Valid() && Value() == 0
    {
      lower, upper := 0, 0;
    }

    method ToLimb() returns (d: Limb)
      requires Valid()
      ensures d == Value() % 0x1_0000_0000
    {
      d := Wrap32(lower);
    }

    method Add(n: int)
      requires Valid() && 0 <= n < 0x1_0000_0000_0000_0000
      modifies this
      ensures Valid()
      ensures Value() == (old(Value()) + n) % 0x1_0000_0000_0000_0000_0000_0000_0000_0000
      ensures old(Value()) + n < 0x1_0000_0000_0000_0000_0000_0000_0000_0000 ==> Value() == old(Value()) + n
    {
      lower := Wrap64(lower + n);
      if lower < n {
        upper := Wrap64(upper + 1);
      }
    }

    /** The bits that come down from the upper word land where the lower word has none left. */
    method ShiftRight32()
      requires Valid()
      modifies this
      ensures Valid() && Value() == old(Value()) / 0x1_0000_0000
    {
      assert Wrap64(upper * 0x1_0000_0000) == upper % 0x1_0000_0000 * 0x1_0000_0000;
      lower := Wrap64(upper * 0x1_0000_0000) + lower / 0x1_0000_0000;
      upper := upper / 0x1_0000_0000;
    }
  }

  /** Adds the terms n[i] * n[k - i] of a result position in the bottom half. */
  method AddLowTerms(n: seq<Limb>, k: nat, sum: Accumulator)
    requires k < |n| <= 0x4000_0000
    requires sum.Valid() && sum.Value() <= 0x1_0000_0000 * |n|
    modifies sum
    ensures sum.Valid() && sum.Value() == old(sum.Value()) + ConvPart(n, n, k, |n|)
  {
    assert ConvPart(n, n, k, 0) == 0;
    hide ConvPart;
    var i, j := 0, k;
    while j >= 0
      invariant i + j == k && -1 <= j <= k
      invariant sum.Valid() && sum.Value() == old(sum.Value()) + ConvPart(n, n, k, i)
    {
      ConvBound(n, n, k, i);
      ConvNext(n, k, i);
      sum.Add((n[i] as int) * (n[j] as int));
      i, j := i + 1, j - 1;
    }
    ConvTail(n, n, k, i);
  }

  /** The same for the top half, where the first index starts above zero. */
  method AddHighTerms(n: seq<Limb>, k: nat, sum: Accumulator)
    requires |n| <= k < 2 * |n| && |n| <= 0x4000_0000
    requires sum.Valid() && sum.Value() <= 0x1_0000_0000 * |n|
    modifies sum
    ensures sum.Valid() && sum.Value() == old(sum.Value()) + ConvPart(n, n, k, |n|)
  {
    hide ConvPart;
    var j := |n| - 1;
    var i := k - j;
    ConvHead(n, n, k, i);
    while i < |n|
      invariant i + j == k && k - (|n| - 1) <= i <= |n|
      invariant sum.Valid() && sum.Value() == old(sum.Value()) + ConvPart(n, n, k, i)
    {
      ConvBound(n, n, k, i);
      ConvNext(n, k, i);
      sum.Add((n[i] as int) * (n[j] as int));
      i, j := i + 1, j - 1;
    }
  }

  class Bigint {
    var bigits: seq<Limb>
    var exp: nat

    function Value(): nat
      reads this
    {
      Scaled(bigits, exp)
    }

    function NumBigits(): nat
      reads this
    {
      |bigits| + exp
    }

    constructor ()
      ensures bigits == [] && exp == 0
    {
      bigits, exp := [], 0;
    }

    method Assign(n: int)
      requires 0 <= n < 0x1_0000_0000_0000_0000
      modifies this
      ensures Value() == n && exp == 0 && Trimmed(bigits)
      ensures |bigits| <= 2
    {
      bigits := [];
      var rest := n;
      RadixStep(0);
      RadixStep(1);
      // do { ... } while (rest != 0)
      bigits := bigits + [Wrap32(rest)];
      rest := rest / 0x1_0000_0000;
      while rest != 0
        invariant 0 <= rest < 0x1_0000_0000
        invariant 1 <= |bigits| <= 2 && (|bigits| == 2 ==> rest == 0 && bigits[1] != 0)
        invariant Val(bigits) + Radix(|bigits|) * rest == n
        decreases rest
      {
        ValAppend(bigits, Wrap32(rest));
        bigits := bigits + [Wrap32(rest)];
        rest := rest / 0x1_0000_0000;
      }
      exp := 0;
    }

    method RemoveLeadingZeros()
      modifies this`bigits
      ensures Val(bigits) == old(Val(bigits))
      ensures if old(bigits) == [] then bigits == [] else Trimmed(bigits)
      ensures |bigits| <= old(|bigits|)
    {
      var numBigits := |bigits| - 1;
      ghost var all := bigits;
      assert all[..numBigits + 1] == all;
      while numBigits > 0 && bigits[numBigits] == 0
        invariant -1 <= numBigits < |bigits| && bigits == all && (all != [] ==> numBigits >= 0)
        invariant Val(all[..numBigits + 1]) == Val(all)
      {
        ValExtend(all, numBigits);
        numBigits := numBigits - 1;
      }
      bigits := bigits[..numBigits + 1];
    }

    method Multiply32(value: Limb)
      modifies this`bigits
      ensures Value() == old(Value()) * value
      ensures value != 0 && old(Trimmed(bigits)) ==> Trimmed(bigits)
      ensures old(|bigits|) <= |bigits| <= old(|bigits|) + 1
      ensures value != 0 && old(TopNonzero(bigits)) ==> TopNonzero(bigits)
    {
      hide ProductPrefix, Scaled;
      ghost var s := bigits;
      var carry: Limb := 0;
      var i, n := 0, |bigits|;
      ProductStart(bigits, value);
      while i < n
        invariant 0 <= i <= n == |bigits| == |s|
        invariant bigits[i..] == s[i..]
        invariant ProductPrefix(bigits, s, i, carry, value)
        invariant i > 0 && s[i - 1] != 0 && value != 0 ==> bigits[i - 1] != 0 || carry != 0
      {
        LimbProductBound(bigits[i], value, carry, 0);
        var result := Wrap64(bigits[i] * value + carry);
        ProductStep(bigits, s, i, carry, result / 0x1_0000_0000, Wrap32(result), value);
        bigits := bigits[i := Wrap32(result)];
        if s[i] != 0 && value != 0 {
          MulLowerBound(s[i], value);
        }
        carry := result / 0x1_0000_0000;
        i := i + 1;
      }
      ProductDone(bigits, s, carry, value, exp);
      if carry != 0 {
        bigits := bigits + [carry];
      }
    }

    method Multiply64(value: int)
      requires 0 <= value < 0x1_0000_0000_0000_0000
      modifies this`bigits
      ensures Value() == old(Value()) * value
      ensures value != 0 && old(TopNonzero(bigits)) ==> TopNonzero(bigits)
      ensures |bigits| <= old(|bigits|) + 2
    {
      hide ProductPrefix, Scaled, Wrap64, Wrap32, Flushed;
      ghost var s := bigits;
      var lower: Limb := value % 0x1_0000_0000;
      var upper: Limb := value / 0x1_0000_0000;
      var carry := 0;
      var i, n := 0, |bigits|;
      ProductStart(bigits, value);
      while i < n
        invariant 0 <= i <= n == |bigits| == |s|
        invariant bigits[i..] == s[i..]
        invariant 0 <= carry < 0x1_0000_0000_0000_0000
        invariant ProductPrefix(bigits, s, i, carry, value)
        invariant i > 0 && s[i - 1] != 0 && value != 0 ==> bigits[i - 1] != 0 || carry != 0
      {
        ghost var c := carry;
        WideProduct(bigits[i], lower, upper, carry);
        var result := Wrap64(bigits[i] * lower + carry % 0x1_0000_0000);
        carry := Wrap64(bigits[i] * upper + result / 0x1_0000_0000 + carry / 0x1_0000_0000);
        ProductStep(bigits, s, i, c, carry, Wrap32(result), value);
        bigits := bigits[i := Wrap32(result)];
        i := i + 1;
      }
      FlushStart(bigits, s, carry, value);
      while carry != 0
        invariant 0 <= carry < 0x1_0000_0000_0000_0000
        invariant n <= |bigits| <= n + 2
        invariant |bigits| == n + 1 ==> carry < 0x1_0000_0000
        invariant |bigits| == n + 2 ==> carry == 0
        invariant Flushed(bigits, s, carry, value)
        invariant value != 0 && TopNonzero(s) && carry == 0 ==> TopNonzero(bigits)
        decreases carry
      {
        FlushStep(bigits, s, carry, value);
        bigits := bigits + [carry % 0x1_0000_0000];
        carry := carry / 0x1_0000_0000;
      }
      FlushDone(bigits, s, value, exp);
    }

    method ShiftLeft(shift: nat)
      modifies this
      ensures Value() == old(Value()) * Pow(2, shift)
      ensures exp == old(exp) + shift / 32
      ensures old(TopNonzero(bigits)) ==> TopNonzero(bigits)
      ensures old(Trimmed(bigits)) ==> Trimmed(bigits)
      ensures |bigits| <= old(|bigits|) + 1
      ensures old(|bigits|) > 0 ==> |bigits| > 0 && bigits[0] == StayingBits(old(bigits[0]), shift % 32)
    {
      hide ProductPrefix, Scaled, StayingBits, LeavingBits;
      ghost var s, e := bigits, exp;
      exp := exp + shift / 32;
      var bits := shift % 32;
      ShiftFactor(s, e, shift);
      if bits == 0 {
        KeepLimb(s);
        return;
      }
      ghost var p := Pow(2, bits);
      ShiftSplit(bits);
      var carry: Limb := 0;
      var i, n := 0, |bigits|;
      ProductStart(bigits, p);
      while i < n
        invariant exp == e + shift / 32
        invariant 0 <= i <= n == |bigits| == |s|
        invariant bigits[i..] == s[i..]
        invariant carry < p
        invariant ProductPrefix(bigits, s, i, carry, p)
        invariant i > 0 && s[i - 1] != 0 ==> bigits[i - 1] != 0 || carry != 0
        invariant i == 0 ==> carry == 0
        invariant i > 0 ==> bigits[0] == StayingBits(s[0], bits)
      {
        ShiftLimb(bigits[i], bits, carry);
        var c: Limb := LeavingBits(bigits[i], bits);
        var shifted := Wrap32(StayingBits(bigits[i], bits) + carry);
        ProductStep(bigits, s, i, carry, c, shifted, p);
        bigits := bigits[i := shifted];
        carry := c;
        i := i + 1;
      }
      ProductDone(bigits, s, carry, p, exp);
      if carry != 0 {
        bigits := bigits + [carry];
      }
    }

    /** The 32-bit limb at an absolute position, zero outside the stored limbs. */
    function GetBigit(i: int): Limb
      reads this
    {
      if exp <= i < NumBigits() then bigits[i - exp] else 0
    }

    method Square()
      requires 2 * |bigits| <= 0x7FFF_FFFF
      modifies this
      ensures Value() == old(Value()) * old(Value())
      ensures exp == 2 * old(exp) && (old(bigits) != [] ==> Trimmed(bigits))
    {
      hide SquarePrefix, ConvPart, Scaled, Val, Radix, Wrap32;
      ghost var e := exp;
      var numBigits := |bigits|;
      var numResultBigits := 2 * numBigits;
      var n := bigits;
      bigits := Zeros(numResultBigits);
      var sum := new Accumulator();
      SquareStart(bigits, n);
      var k := 0;
      while k < numBigits
        invariant 0 <= k <= numBigits && |bigits| == numResultBigits && exp == e && fresh(sum)
        invariant sum.Valid() && 0 <= sum.Value() <= 0x1_0000_0000 * numBigits
        invariant SquarePrefix(bigits, n, k, sum.Value())
      {
        ghost var carried := sum.Value();
        AddLowTerms(n, k, sum);
        var d := sum.ToLimb();
        SquareStep(bigits, n, k, carried, sum.Value());
        bigits := bigits[k := d];
        sum.ShiftRight32();
        k := k + 1;
      }
      while k < numResultBigits
        invariant numBigits <= k <= numResultBigits == |bigits| && exp == e && fresh(sum)
        invariant sum.Valid() && 0 <= sum.Value() <= 0x1_0000_0000 * numBigits
        invariant SquarePrefix(bigits, n, k, sum.Value())
      {
        ghost var carried := sum.Value();
        AddHighTerms(n, k, sum);
        var d := sum.ToLimb();
        SquareStep(bigits, n, k, carried, sum.Value());
        bigits := bigits[k := d];
        sum.ShiftRight32();
        k := k + 1;
      }
      SquareDone(bigits, n, sum.Value(), exp);
      ghost var full := bigits;
      RemoveLeadingZeros();
      SameVal(full, bigits, 2 * exp);
      exp := exp * 2;
    }

    method Align(other: Bigint)
      modifies this
      ensures Value() == old(Value())
      ensures exp == if old(exp) <= old(other.exp) then old(exp) else old(other.exp)
      ensures bigits == Zeros(old(exp) - exp) + old(bigits)
      ensures old(TopNonzero(bigits)) ==> TopNonzero(bigits)
    {
      hide Scaled, Val, TopNonzero, Radix, Pow, Zeros;
      ghost var s := bigits;
      var expDifference := exp - other.exp;
      if expDifference <= 0 {
        NoZeros(s);
        return;
      }
      var numBigits := |bigits|;
      bigits := bigits + Zeros(expDifference);
      var i := numBigits - 1;
      var j := i + expDifference;
      ghost var e, f := exp, other.exp;
      while i >= 0
        invariant -1 <= i < numBigits && j == i + expDifference && |bigits| == numBigits + expDifference
        invariant exp == e
        invariant forall k :: 0 <= k <= i ==> bigits[k] == s[k]
        invariant forall k :: j < k < |bigits| ==> bigits[k] == s[k - expDifference]
      {
        bigits := bigits[j := bigits[i]];
        i, j := i - 1, j - 1;
      }
      MovedUp(bigits, s, expDifference);
      bigits := Zeros(expDifference) + bigits[expDifference..];
      LowZeros(s, expDifference, exp - expDifference);
      AlignedTop(s, expDifference);
      exp := exp - expDifference;
    }

    method SubtractBigits(index: nat, other: Limb, borrow: Limb) returns (borrow': Limb)
      requires index < |bigits| && borrow <= 1
      modifies this`bigits
      ensures |bigits| == old(|bigits|) && bigits == old(bigits)[index := bigits[index]]
      ensures LimbDifference(bigits[index], borrow', old(bigits[index]), other, borrow)
    {
      var result := Wrap64(bigits[index] - other - borrow);
      bigits := bigits[index := Wrap32(result)];
      borrow' := result / 0x8000_0000_0000_0000;
    }

    /** The trailing borrow loop, which stays on limb i until nothing is owed. */
    method PropagateBorrow(i: nat, owed: Limb)
      requires owed <= 1 && (owed == 1 ==> i < |bigits|)
      modifies this`bigits
      ensures bigits == if owed == 0 then old(bigits) else old(bigits)[i := Borrowed(old(bigits)[i])]
    {
      var borrow := owed;
      while borrow > 0
        invariant borrow <= owed && |bigits| == old(|bigits|)
        invariant owed == 0 ==> bigits == old(bigits)
        invariant owed == 1 ==> bigits == old(bigits)[i := bigits[i]]
        invariant owed == 1 ==> BorrowPending(bigits[i], old(bigits)[i], borrow)
        decreases borrow, if borrow > 0 && bigits[i] == 0 then 1 else 0
      {
        borrow := SubtractBigits(i, 0, borrow);
      }
    }

    /**
     * Subtracts other in place. The difference is exact unless the last borrow is lost, and
     * then it is too large by the stated amount.
     */
    method SubtractAligned(other: Bigint)
      requires this != other && exp <= other.exp
      requires TopNonzero(other.bigits) && Value() >= other.Value()
      modifies this`bigits
      ensures Value() == old(Value()) - other.Value()
                       + Excess(LimbsFrom(old(bigits), other.exp - exp), other.bigits) * Radix(other.exp)
      ensures Trimmed(bigits)
    {
      hide BorrowPrefix, Scaled, Val, Excess, Radix, Pow, TopNonzero;
      var i := other.exp - exp;
      ghost var a, k := bigits, i;
      ghost var b, n := other.bigits, |other.bigits|;
      OperandFits(a, exp, b, k);
      ghost var x := a[k..];
      var borrow := SubtractLimbs(i, other);
      i := i + |other.bigits|;
      ghost var y := bigits[k..];
      BorrowMeaning(y, x, b, borrow);
      SliceTwice(bigits, a, k, n);
      if borrow == 0 {
        NothingOwed(y, x, b);
      } else {
        BorrowTaken(y, x, b);
        OneLimb(bigits, k, n, Borrowed(x[n]));
      }
      PropagateBorrow(i, borrow);
      SubtractValue(bigits, a, exp, b, k);
      ghost var full := bigits;
      RemoveLeadingZeros();
      SameVal(full, bigits, exp);
    }

    /** The loop over the limbs of other, from position k on. */
    method SubtractLimbs(k: nat, other: Bigint) returns (borrow: Limb)
      requires this != other && k + |other.bigits| <= |bigits|
      modifies this`bigits
      ensures |bigits| == old(|bigits|) && borrow <= 1 && bigits[..k] == old(bigits[..k])
      ensures BorrowPrefix(bigits[k..], old(bigits[k..]), other.bigits, |other.bigits|, borrow)
      ensures bigits[k + |other.bigits|..] == old(bigits)[k + |other.bigits|..]
    {
      hide *;
      ghost var a, x, b := bigits, bigits[k..], other.bigits;
      BorrowNothing(x, b);
      borrow := 0;
      var i, j, n := k, 0, |other.bigits|;
      while j != n
        invariant 0 <= j <= n == |b| && i == k + j && |bigits| == |a| && borrow <= 1
        invariant bigits[..k] == a[..k] && bigits[i..] == a[i..]
        invariant BorrowPrefix(bigits[k..], x, b, j, borrow)
      {
        ghost var before, o := bigits, borrow;
        borrow := SubtractBigits(i, other.bigits[j], borrow);
        OneLimb(before, k, j, bigits[i]);
        SameLimb(before, a, k, j);
        BorrowChain(before[k..], x, b, j, o, borrow, bigits[i]);
        i, j := i + 1, j + 1;
      }
    }

    /**
     * Divides in place by repeated subtraction. The one operand pair it misjudges is a pair
     * of equal values of which this one has the larger exponent.
     */
    method DivmodAssign(divisor: Bigint) returns (quotient: nat)
      requires this != divisor && TopNonzero(divisor.bigits) && Trimmed(bigits)
      requires Value() < 0x1_0000_0000 * divisor.Value()
      requires Value() == 0 ==> NumBigits() <= divisor.NumBigits()
      modifies this
      ensures Trimmed(bigits)
      ensures quotient == 0 ==> bigits == old(bigits) && exp == old(exp)
      ensures quotient != 0 ==> exp <= divisor.exp
      ensures if old(exp) > divisor.exp && old(Value()) == divisor.Value() then quotient == 0
              else quotient == old(Value()) / divisor.Value() && Value() == old(Value()) % divisor.Value()
    {
      hide Scaled, Excess, Val, Radix, Pow, Divided, LimbsFrom;
      ghost var a, d := Value(), divisor.Value();
      TrimmedTop(bigits, exp);
      var order := Compare(this, divisor);
      DividedStart(a, d);
      if order < 0 {
        if a != d {
          DividedMeaning(a, 0, d, a);
        }
        return 0;
      }
      TrimmedTop(divisor.bigits, divisor.exp);
      Align(divisor);
      quotient := 0;
      var more := true;
      // do { ... } while (more)
      while more
        invariant exp <= divisor.exp && Trimmed(bigits)
        invariant more ==> Value() >= d && TopNonzero(bigits)
        invariant !more ==> Value() < d && quotient > 0
        invariant Divided(a, quotient, d, Value())
        decreases Value(), more
      {
        NoBorrowLost(bigits, exp, divisor.bigits, divisor.exp - exp);
        ghost var rest := Value();
        ghost var lost := Excess(LimbsFrom(bigits, divisor.exp - exp), divisor.bigits);
        SubtractAligned(divisor);
        DividedStep(a, quotient, d, rest, Value(), lost, Radix(divisor.exp));
        quotient := quotient + 1;
        TrimmedTop(bigits, exp);
        order := Compare(this, divisor);
        more := order >= 0;
      }
      DividedMeaning(a, quotient, d, Value());
    }

    /** Raises ten to a power by repeated squaring of five. */
    method AssignPow10(power: nat)
      requires power < 0x4000_0000
      modifies this
      ensures Value() == Pow(10, power) && TopNonzero(bigits)
      ensures exp == power / 32
    {
      hide Scaled, Val, Radix, Pow, FivePrefix, BitSet;
      PowerBasics(0);
      if power == 0 {
        Assign(1);
        TrimmedTop(bigits, exp);
        return;
      }
      // Find the top bit.
      var bitmask := 1;
      ghost var k: nat := 0;
      while power >= bitmask
        invariant bitmask == Pow(2, k) && (k > 0 ==> power >= Pow(2, k - 1))
        invariant 1 <= bitmask <= 2 * power
        decreases 2 * power - bitmask
      {
        PowerBasics(k);
        k := k + 1;
        bitmask := bitmask * 2;
      }
      PowerBasics(k - 1);
      bitmask, k := bitmask / 2, k - 1;
      Assign(5);
      TrimmedTop(bigits, exp);
      FiveStart(power, k);
      bitmask := bitmask / 2;
      while bitmask != 0
        invariant bitmask == if k == 0 then 0 else Pow(2, k - 1)
        invariant exp == 0 && TopNonzero(bigits)
        invariant FivePrefix(Value(), power, k)
        decreases k
      {
        ghost var v := Value();
        FiveLimbs(bigits, power, k);
        FiveStep(v, power, k);
        Square();
        TrimmedTop(bigits, exp);
        if BitSet(power, bitmask) {
          Multiply32(5);
        }
        k := k - 1;
        PowerBasics(k - 1);
        bitmask := bitmask / 2;
      }
      FiveDone(Value(), power);
      ShiftLeft(power);
    }
  }

  /** The number that reaches further, if any, has a nonzero limb there. */
  predicate ReachIsReal(lhs: Bigint, rhs: Bigint)
    reads lhs, rhs
  {
    && (TopNonzero(lhs.bigits) || lhs.NumBigits() <= rhs.NumBigits())
    && (TopNonzero(rhs.bigits) || rhs.NumBigits() <= lhs.NumBigits())
  }

  /** Compares by position of the top limb, then limb by limb; extra low limbs count last. */
  method Compare(lhs: Bigint, rhs: Bigint) returns (r: int)
    ensures lhs.NumBigits() != rhs.NumBigits() ==> r == Sign(lhs.NumBigits() - rhs.NumBigits())
    ensures ReachIsReal(lhs, rhs) && lhs.Value() != rhs.Value() ==> r == Sign(lhs.Value() - rhs.Value())
    ensures ReachIsReal(lhs, rhs) && lhs.Value() == rhs.Value() ==> r == Sign(rhs.exp - lhs.exp)
  {
    hide Scaled, Val, Radix, Pow, TopNonzero, Sign;
    SignCases(lhs.Value(), rhs.Value());
    var numLhs, numRhs := lhs.NumBigits(), rhs.NumBigits();
    SignCases(numLhs, numRhs);
    if numLhs != numRhs {
      if numLhs > numRhs {
        if TopNonzero(lhs.bigits) {
          LongerIsLarger(lhs.bigits, lhs.exp, rhs.bigits, rhs.exp);
        }
        return 1;
      }
      if TopNonzero(rhs.bigits) {
        LongerIsLarger(rhs.bigits, rhs.exp, lhs.bigits, lhs.exp);
      }
      return -1;
    }
    r := CompareLimbs(lhs.bigits, lhs.exp, rhs.bigits, rhs.exp);
  }

  /** The loop over the limbs of two numbers whose top limbs stand at the same position. */
  method CompareLimbs(l: seq<Limb>, e: nat, s: seq<Limb>, f: nat) returns (r: int)
    requires |l| + e == |s| + f
    ensures Scaled(l, e) != Scaled(s, f) ==> r == Sign(Scaled(l, e) - Scaled(s, f))
    ensures Scaled(l, e) == Scaled(s, f) ==> r == Sign(f - e)
  {
    hide *;
    SignCases(Scaled(l, e), Scaled(s, f));
    SignCases(f, e);
    var i, j := |l| - 1, |s| - 1;
    var end := if i - j < 0 then 0 else i - j;
    while i >= end
      invariant i - j == |l| - |s| && end - 1 <= i < |l| && -1 <= j < |s|
      invariant l[i + 1..] == s[j + 1..]
    {
      if l[i] != s[j] {
        if l[i] > s[j] {
          TopDifference(l, e, s, f, i, j);
          return 1;
        }
        TopDifference(s, f, l, e, j, i);
        return -1;
      }
      LongerTail(l, s, i, j);
      i, j := i - 1, j - 1;
    }
    SameTail(l, e, s, f, i, j);
    r := if i != j then (if i > j then 1 else -1) else 0;
  }

  /** The exact sign of lhs1 + lhs2 - rhs, found from the top without forming the sum. */
  method AddCompare(lhs1: Bigint, lhs2: Bigint, rhs: Bigint) returns (r: int)
    requires TopNonzero(rhs.bigits) || rhs.NumBigits() <= lhs1.NumBigits() + 1
        || rhs.NumBigits() <= lhs2.NumBigits() + 1
    requires TopNonzero(lhs1.bigits) || lhs1.NumBigits() <= rhs.NumBigits()
    requires TopNonzero(lhs2.bigits) || lhs2.NumBigits() <= rhs.NumBigits()
    ensures r == Sign(lhs1.Value() + lhs2.Value() - rhs.Value())
  {
    hide Scaled, Val, Radix, Lead, Padded;
    var maxLhs := if lhs1.NumBigits() < lhs2.NumBigits() then lhs2.NumBigits() else lhs1.NumBigits();
    var numRhs := rhs.NumBigits();
    if maxLhs + 1 < numRhs {
      ScaledBelow(lhs1.bigits, lhs1.exp, maxLhs);
      ScaledBelow(lhs2.bigits, lhs2.exp, maxLhs);
      FarSmaller(lhs1.Value(), lhs2.Value(), maxLhs, rhs.bigits, rhs.exp);
      return -1;
    }
    if maxLhs > numRhs {
      if lhs1.NumBigits() > numRhs {
        LongerIsLarger(lhs1.bigits, lhs1.exp, rhs.bigits, rhs.exp);
      } else {
        LongerIsLarger(lhs2.bigits, lhs2.exp, rhs.bigits, rhs.exp);
      }
      return 1;
    }
    var minExp := if lhs1.exp < lhs2.exp then lhs1.exp else lhs2.exp;
    minExp := if rhs.exp < minExp then rhs.exp else minExp;
    ghost var a := Padded(lhs1.bigits, lhs1.exp, minExp, numRhs);
    ghost var b := Padded(lhs2.bigits, lhs2.exp, minExp, numRhs);
    ghost var c := Padded(rhs.bigits, rhs.exp, minExp, numRhs);
    PaddedValue(lhs1.bigits, lhs1.exp, minExp, numRhs);
    PaddedValue(lhs2.bigits, lhs2.exp, minExp, numRhs);
    PaddedValue(rhs.bigits, rhs.exp, minExp, numRhs);
    ScaledSign(a, b, c, minExp);
    var borrow := 0;
    var i := (numRhs as int) - 1;
    NothingAbove(a, b, c);
    WholeLead(a, b, c);
    while i >= minExp
      invariant minExp - 1 <= i < numRhs
      invariant borrow == 0 || borrow == 0x1_0000_0000
      invariant borrow == 0x1_0000_0000 * Lead(a, b, c, i + 1 - minExp)
    {
      var sum := lhs1.GetBigit(i) + lhs2.GetBigit(i);
      var rhsBigit := rhs.GetBigit(i);
      ghost var k := i - minExp;
      assert a[k] == lhs1.GetBigit(i) && b[k] == lhs2.GetBigit(i) && c[k] == rhsBigit;
      LeadStep(a, b, c, k);
      assert Lead(a, b, c, k) == rhsBigit + borrow - sum;
      if sum > rhsBigit + borrow {
        return 1;
      }
      borrow := rhsBigit + borrow - sum;
      if borrow > 1 {
        return -1;
      }
      borrow := borrow * 0x1_0000_0000;
      i := i - 1;
    }
    r := if borrow != 0 then -1 else 0;
  }

  /** Two representations of 2^32: dividing the one with the larger exponent by the other gives quotient 0. */
  method MisjudgedDivision() returns (a: Bigint, d: Bigint, quotient: nat)
    ensures fresh(a) && fresh(d) && a.Value() == d.Value() == 0x1_0000_0000
    ensures quotient == 0
  {
    hide Scaled, Val, Radix, Pow, Divided;
    a := new Bigint();
    a.Assign(1);
    d := new Bigint();
    d.Assign(0x1_0000_0000);
    TwoTo32();
    TrimmedTop(a.bigits, 0);
    TrimmedTop(d.bigits, 0);
    a.ShiftLeft(32);
    quotient := a.DivmodAssign(d);
  }

  /**
   * A zero shifted by 64 bits is one zero limb that reaches the third position, and is taken for
   * larger than one; dividing it would begin with a subtraction. Hence what division asks of a zero.
   */
  method ZeroTakenForLarger() returns (a: Bigint, d: Bigint, order: int)
    ensures fresh(a) && fresh(d) && a.Value() == 0 && d.Value() == 1
    ensures order == 1
  {
    hide Scaled, Val, Radix, Pow;
    a := new Bigint();
    a.Assign(0);
    d := new Bigint();
    d.Assign(1);
    a.ShiftLeft(64);
    order := Compare(a, d);
  }
}
