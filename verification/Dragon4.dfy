/**
 * Exact digit generation for a given number of digits: the value is held as a fraction of
 * two big naturals, and digits are divided out one by one and rounded half to even.
 */
module Dragon4 {
  import opened Powers
  import opened LimbLemmas
  import opened SubtractLoop
  import opened BigintModule
  import opened DigitText

  /**
   * n * 10^i has been split into the digits so far, denoting p, and the remainder r that is
   * still to be divided by d.
   */
  predicate Generated(n: nat, i: nat, p: int, d: nat, r: int) {
    n * Pow(10, i) == 10 * p * d + r && 0 <= r < 10 * d
  }

  lemma FirstDigit(n: nat, d: nat)
    requires n < 10 * d
    ensures Generated(n, 0, 0, d, n)
  {
  }

  lemma NextDigit(n: nat, i: nat, p: int, d: nat, r: int, digit: int, rest: int)
    requires Generated(n, i, p, d, r) && Divided(r, digit, d, rest) && 0 <= rest < d && digit >= 0
    ensures digit <= 9
    ensures Generated(n, i + 1, 10 * p + digit, d, rest * 10)
  {
    if digit >= 10 {
      MulMonotone(10, digit, d);
    }
    TenTimes(n, i);
    hide Pow;
    SplitProduct(10 * p, digit, d);
    assert 10 * (10 * p + digit) * d == 10 * ((10 * p + digit) * d);
  }

  /** Rounding up is decided by comparing twice the remainder with the divisor. */
  predicate RoundsUp(digit: nat, rest: int, d: int) {
    2 * rest > d || (2 * rest == d && digit % 2 != 0)
  }

  lemma LastDigit(n: nat, i: nat, p: int, d: nat, r: int, digit: int, rest: int)
    requires Generated(n, i, p, d, r) && Divided(r, digit, d, rest) && 0 <= rest < d && digit >= 0
    ensures NearestEven(if RoundsUp(digit, rest, d) then 10 * p + digit + 1 else 10 * p + digit, n * Pow(10, i), d)
  {
    var q, x := 10 * p + digit, n * Pow(10, i);
    assert x == q * d + rest by {
      SplitProduct(10 * p, digit, d);
    }
    hide *;
    NearestQuotient(q, x, d, digit, rest, p);
  }

  lemma SplitProduct(a: int, b: int, d: int)
    ensures (a + b) * d == a * d + b * d
  {
  }

  lemma NearestQuotient(q: int, x: int, d: int, digit: nat, rest: int, p: int)
    requires x == q * d + rest && 0 <= rest < d && q == 10 * p + digit
    ensures NearestEven(if RoundsUp(digit, rest, d) then q + 1 else q, x, d)
  {
    assert q % 2 == digit % 2;
    if RoundsUp(digit, rest, d) {
      SplitProduct(q, 1, d);
      assert 2 * (x - (q + 1) * d) == 2 * rest - 2 * d;
    } else {
      assert 2 * (x - q * d) == 2 * rest;
    }
  }

  /** With exponents e and f, divmod is in doubt only while nothing has been divided out yet. */
  predicate Judged(e: nat, f: nat, r: int, n: nat, i: nat) {
    e <= f || (r > 0 && r == n * Pow(10, i))
  }

  lemma JudgedFirst(e: nat, f: nat, n: nat)
    requires n > 0
    ensures Judged(e, f, n, n, 0)
  {
  }

  lemma JudgedNext(e: nat, f: nat, r: int, n: nat, i: nat)
    requires Judged(e, f, r, n, i)
    ensures Judged(e, f, r * 10, n, i + 1)
  {
    TenTimes(n, i);
  }

  /** No shift of n by decimal places ever gives exactly d. */
  ghost predicate NeverEqual(n: nat, d: nat) {
    forall i: nat :: n * Pow(10, i) != d
  }

  lemma NotEqual(n: nat, d: nat, i: nat)
    requires NeverEqual(n, d)
    ensures n * Pow(10, i) != d
  {
  }

  /** The operands on which divmod_assign is exact throughout. */
  ghost predicate NeverMisjudged(numerator: Bigint, denominator: Bigint)
    reads numerator, denominator
  {
    numerator.exp > denominator.exp ==> NeverEqual(numerator.Value(), denominator.Value())
  }

  /** One divmod_assign of the digit loop, which is exact there. */
  method DivideDigit(numerator: Bigint, denominator: Bigint, ghost n: nat, ghost i: nat, ghost p: int)
      returns (digit: nat)
    requires numerator != denominator && Trimmed(numerator.bigits) && TopNonzero(denominator.bigits)
    requires Generated(n, i, p, denominator.Value(), numerator.Value())
    requires Judged(numerator.exp, denominator.exp, numerator.Value(), n, i)
    requires numerator.exp > denominator.exp ==> NeverEqual(n, denominator.Value())
    modifies numerator
    ensures Trimmed(numerator.bigits)
    ensures Divided(old(numerator.Value()), digit, denominator.Value(), numerator.Value())
    ensures numerator.Value() < denominator.Value() && digit <= 9
    ensures numerator.exp > denominator.exp ==> numerator.exp == old(numerator.exp) && numerator.Value() > 0
    ensures Judged(numerator.exp, denominator.exp, numerator.Value(), n, i)
  {
    hide Scaled, Pow, Generated, Divided, NeverEqual;
    GeneratedRange(n, i, p, denominator.Value(), numerator.Value());
    TrimmedTop(numerator.bigits, numerator.exp);
    TrimmedTop(denominator.bigits, denominator.exp);
    ghost var r := numerator.Value();
    if numerator.exp > denominator.exp {
      NotEqual(n, denominator.Value(), i);
    }
    digit := numerator.DivmodAssign(denominator);
    DivisionIs(r, denominator.Value());
    NextDigit(n, i, p, denominator.Value(), r, digit, numerator.Value());
  }

  /** The loop that writes all digits but the last. */
  method LeadingDigits(numerator: Bigint, denominator: Bigint, count: nat) returns (buf: seq<char>)
    requires numerator != denominator
    requires TopNonzero(numerator.bigits) && TopNonzero(denominator.bigits)
    requires numerator.Value() < 10 * denominator.Value()
    requires NeverMisjudged(numerator, denominator)
    modifies numerator
    ensures |buf| == count && AllDigits(buf) && Trimmed(numerator.bigits)
    ensures Generated(old(numerator.Value()), count, Number(buf), denominator.Value(), numerator.Value())
    ensures Judged(numerator.exp, denominator.exp, numerator.Value(), old(numerator.Value()), count)
    ensures numerator.exp > denominator.exp ==> NeverEqual(old(numerator.Value()), denominator.Value())
  {
    assert Number([]) == 0;
    hide Scaled, Pow, Generated, Divided, Number, NeverEqual, Judged;
    ghost var n, d := numerator.Value(), denominator.Value();
    TrimmedTop(numerator.bigits, numerator.exp);
    buf := [];
    FirstDigit(n, d);
    JudgedFirst(numerator.exp, denominator.exp, n);
    var i := 0;
    while i < count
      invariant 0 <= i <= count && |buf| == i && AllDigits(buf)
      invariant Trimmed(numerator.bigits) && denominator.Value() == d
      invariant Generated(n, i, Number(buf), d, numerator.Value())
      invariant Judged(numerator.exp, denominator.exp, numerator.Value(), n, i)
      invariant numerator.exp > denominator.exp ==> NeverEqual(n, d)
    {
      ghost var r := numerator.Value();
      var digit := DivideDigit(numerator, denominator, n, i, Number(buf));
      NextDigit(n, i, Number(buf), d, r, digit, numerator.Value());
      NumberAppend(buf, DigitChar(digit));
      buf := buf + [DigitChar(digit)];
      JudgedNext(numerator.exp, denominator.exp, numerator.Value(), n, i);
      numerator.Multiply32(10);
      i := i + 1;
    }
  }

  /**
   * The fixed-digits part of fallback_format. The text and the exponent it returns denote
   * numerator / denominator at the requested number of digits, rounded to nearest, ties to even.
   */
  method GenerateDigits(numerator: Bigint, denominator: Bigint, numDigits: nat, exp10: int)
      returns (buf: seq<char>, resultExp: int)
    requires numerator != denominator && numDigits > 0
    requires TopNonzero(numerator.bigits) && TopNonzero(denominator.bigits)
    requires numerator.Value() < 10 * denominator.Value()
    requires NeverMisjudged(numerator, denominator)
    modifies numerator
    ensures |buf| == numDigits && AllDigits(buf)
    ensures resultExp == exp10 - (numDigits - 1)
         || (resultExp == exp10 - (numDigits - 1) + 1 && Number(buf) == Pow(10, numDigits - 1))
    ensures NearestEven(if resultExp == exp10 - (numDigits - 1) then Number(buf) else 10 * Number(buf),
                        old(numerator.Value()) * Pow(10, numDigits - 1), denominator.Value())
  {
    hide Scaled, Pow, Generated, Divided, NearestEven, Number, NeverEqual, RoundsUp, Judged;
    ghost var n, d := numerator.Value(), denominator.Value();
    resultExp := exp10 - (numDigits - 1);
    buf := LeadingDigits(numerator, denominator, numDigits - 1);
    ghost var r, p := numerator.Value(), Number(buf);
    var digit := DivideDigit(numerator, denominator, n, numDigits - 1, p);
    LastDigit(n, numDigits - 1, p, d, r, digit, numerator.Value());
    TrimmedTop(numerator.bigits, numerator.exp);
    var result := AddCompare(numerator, numerator, denominator);
    RoundingTest(digit, numerator.Value(), d);
    var carried;
    buf, carried := FinishText(buf, digit, result > 0 || (result == 0 && digit % 2 != 0));
    if carried {
      resultExp := resultExp + 1;
    }
  }

  lemma RoundingTest(digit: nat, rest: int, d: int)
    ensures RoundsUp(digit, rest, d)
       <==> (Sign(rest + rest - d) > 0 || (Sign(rest + rest - d) == 0 && digit % 2 != 0))
  {
  }

  /** Stores the last digit, rounded up if need be; carried says that the text became 10...0. */
  method FinishText(text: seq<char>, lastDigit: nat, up: bool) returns (buf: seq<char>, carried: bool)
    requires AllDigits(text) && lastDigit <= 9
    ensures |buf| == |text| + 1 && AllDigits(buf)
    ensures var total := 10 * Number(text) + lastDigit + (if up then 1 else 0);
            total == if carried then 10 * Number(buf) else Number(buf)
    ensures carried ==> Number(buf) == Pow(10, |buf| - 1)
  {
    hide Number;
    var digit := lastDigit;
    carried := false;
    if up {
      if digit == 9 {
        NumberAppend(text, OVERFLOW);
        buf, carried := PropagateCarry(text + [OVERFLOW], 10 * Number(text) + 10);
        return;
      }
      digit := digit + 1;
    }
    NumberAppend(text, DigitChar(digit));
    buf := text + [DigitChar(digit)];
  }

  /** Carries an overflowing last digit to the left; carried says that it left the text. */
  method PropagateCarry(text: seq<char>, ghost total: int) returns (buf: seq<char>, carried: bool)
    requires |text| > 0 && Carrying(text, |text| - 1, total)
    ensures |buf| == |text| && AllDigits(buf)
    ensures total == if carried then 10 * Number(buf) else Number(buf)
    ensures carried ==> Number(buf) == Pow(10, |buf| - 1)
  {
    buf := text;
    var i := |buf| - 1;
    while i > 0 && buf[i] == OVERFLOW
      invariant 0 <= i < |buf| == |text| && Carrying(buf, i, total)
    {
      CarryMove(buf, i, total);
      buf := buf[i := '0'][i - 1 := Successor(buf[i - 1])];
      i := i - 1;
    }
    carried := false;
    if buf[0] == OVERFLOW {
      CarryOutOfText(buf, total);
      buf := buf[0 := '1'];
      carried := true;
    }
  }

  lemma TenTimes(n: nat, i: nat)
    ensures n * Pow(10, i + 1) == (n * Pow(10, i)) * 10
  {
    assert Pow(10, i + 1) == 10 * Pow(10, i);
    hide *;
    assert n * (10 * Pow(10, i)) == (n * Pow(10, i)) * 10;
  }

  lemma GeneratedRange(n: nat, i: nat, p: int, d: nat, r: int)
    requires Generated(n, i, p, d, r)
    ensures 0 <= r < 10 * d
  {
  }
}
