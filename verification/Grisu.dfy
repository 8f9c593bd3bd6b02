/**
 * The fast digit generator with a fixed-precision handler: it must either round correctly
 * for every number within the error of its input or admit that it cannot.
 */
module Grisu {
  import opened Powers
  import opened Limbs
  import opened DigitText
  import opened DigitCount

  datatype Direction = Unknown | RoundUp | RoundDown

  datatype Result = More | Done | Error

  /**
   * Rounds a remainder of divisor that is known to within error. The tests avoid overflow;
   * what they decide is stated without regard to it.
   */
  function GetRoundDirection(divisor: nat, remainder: nat, error: nat): (r: Direction)
    requires divisor < 0x1_0000_0000_0000_0000
    requires remainder < divisor && error < divisor && error < divisor - error
    ensures r == RoundDown <==> 2 * (remainder + error) <= divisor
    ensures r == RoundUp <==> 2 * (remainder + error) > divisor && 2 * (remainder - error) >= divisor
  {
    if remainder <= divisor - remainder && Wrap64(error * 2) <= divisor - Wrap64(remainder * 2) then RoundDown
    else if remainder >= error && remainder - error >= divisor - (remainder - error) then RoundUp
    else Unknown
  }

  /** A remainder that may be more or less than half the divisor, for all that is known. */
  predicate Open(divisor: int, remainder: int, error: int) {
    2 * (remainder + error) > divisor && 2 * (remainder - error) < divisor
  }

  /**
   * The number m, in units of u, lies within half a unit of everything between lo and hi.
   */
  predicate WithinHalf(m: int, u: int, lo: int, hi: int) {
    2 * (m * u - lo) <= u && 2 * (hi - m * u) <= u
  }

  /**
   * Digits denoting p have been generated for a number c of which remainder is left in units of u,
   * where c itself is known to within error.
   */
  predicate Split(c: int, p: int, u: int, remainder: int) {
    c == p * u + remainder && 0 <= remainder < u
  }

  /** A direction that the handler trusts gives a correct rounding for every value within the error. */
  lemma DirectionIsSound(c: int, p: int, u: int, remainder: int, error: int, total: int)
    requires Split(c, p, u, remainder) && 0 <= error && 2 * error < u
    requires Settled(u, remainder, error, p, total)
    ensures WithinHalf(total, u, c - error, c + error)
  {
    assert (p + 1) * u == p * u + u;
  }

  /** The total has been rounded from the digits that denote p as the remainder and error allow. */
  predicate Settled(divisor: int, remainder: int, error: int, p: int, total: int) {
    || (2 * (remainder + error) <= divisor && total == p)
    || (2 * (remainder - error) >= divisor && total == p + 1)
  }

  /** Generates a fixed number of digits into buf, counted from the first digit or, if fixed, from the point. */
  class FixedHandler {
    var buf: seq<char>
    var precision: int
    var exp10: int
    const fixed: bool

    constructor (precision: int, exp10: int, fixed: bool)
      ensures buf == [] && this.precision == precision && this.exp10 == exp10 && this.fixed == fixed
    {
      buf, this.precision, this.exp10, this.fixed := [], precision, exp10, fixed;
    }

    method OnStart(divisor: nat, remainder: nat, error: nat, exp: int) returns (r: Result)
      requires buf == [] && divisor < 0x1_0000_0000_0000_0000
      requires remainder < divisor && error < divisor && error < divisor - error
      modifies this
      ensures precision == old(precision) + (if fixed then exp + exp10 else 0) && exp10 == old(exp10)
      ensures r == More <==> !fixed || precision > 0
      ensures r == More ==> buf == []
      ensures fixed && precision < 0 ==> r == Done && buf == []
      ensures fixed && precision == 0 ==>
                r == (if GetRoundDirection(divisor, remainder, error) == Unknown then Error else Done)
      ensures fixed && precision == 0 && r == Done ==>
                buf == [if GetRoundDirection(divisor, remainder, error) == RoundUp then '1' else '0']
      ensures fixed && precision == 0 && r == Error ==> buf == []
    {
      if !fixed {
        return More;
      }
      precision := precision + exp + exp10;
      if precision > 0 {
        return More;
      }
      if precision < 0 {
        return Done;
      }
      var dir := GetRoundDirection(divisor, remainder, error);
      if dir == Unknown {
        return Error;
      }
      buf := buf + [if dir == RoundUp then '1' else '0'];
      r := Done;
    }

    /** The digits so far, counting a carry that has gone into the exponent. */
    function Total(start: int): int
      reads this
    {
      if exp10 == start then Number(buf) else 10 * Number(buf)
    }

    method OnDigit(digit: char, divisor: nat, remainder: nat, error: nat, integral: bool) returns (r: Result)
      requires IsDigit(digit) && AllDigits(buf)
      requires remainder < divisor < 0x1_0000_0000_0000_0000
      requires integral ==> error == 1 && divisor > 2
      modifies this
      ensures precision == old(precision)
      ensures AllDigits(buf) && |buf| >= 1
      ensures r == More ==> buf == old(buf) + [digit] && |buf| < precision && exp10 == old(exp10)
      ensures r == More && !integral ==> error < remainder
      ensures r == Error ==> |buf| == old(|buf|) + 1 && exp10 == old(exp10)
      ensures r == Error ==> (!integral && error >= remainder) || Open(divisor, remainder, error)
      ensures r == Done ==> (integral || error < remainder) && !Open(divisor, remainder, error)
      ensures r == Done ==> old(|buf|) + 1 >= precision && 2 * error < divisor
      ensures r == Done ==> |buf| == old(|buf|) + 1 || (fixed && |buf| == old(|buf|) + 2)
      ensures r == Done ==> exp10 == old(exp10) || (!fixed && exp10 == old(exp10) + 1)
      ensures r == Done ==>
                (exp10 == old(exp10) && |buf| == old(|buf|) + 1) || Number(buf) == Pow(10, |buf| - 1)
      ensures r == Done ==>
                Settled(divisor, remainder, error, 10 * old(Number(buf)) + DigitValue(digit), Total(old(exp10)))
    {
      hide Number;
      NumberAppend(buf, digit);
      buf := buf + [digit];
      if !integral && error >= remainder {
        return Error;
      }
      if |buf| < precision {
        return More;
      }
      if !integral {
        // error * 2 < divisor, with overflow prevention
        if error >= divisor || error >= divisor - error {
          return Error;
        }
      }
      var dir := GetRoundDirection(divisor, remainder, error);
      if dir != RoundUp {
        return if dir == RoundDown then Done else Error;
      }
      IncrementLast();
      r := Done;
    }

    /** Adds one to the last digit and carries to the left; a carry out gives 10...0. */
    method IncrementLast()
      requires |buf| > 0 && AllDigits(buf)
      modifies this
      ensures AllDigits(buf) && precision == old(precision)
      ensures Total(old(exp10)) == old(Number(buf)) + 1
      ensures |buf| == old(|buf|) || (fixed && |buf| == old(|buf|) + 1)
      ensures exp10 == old(exp10) || (!fixed && exp10 == old(exp10) + 1)
      ensures (exp10 == old(exp10) && |buf| == old(|buf|)) || Number(buf) == Pow(10, |buf| - 1)
    {
      hide Number, Pow;
      ghost var total := Number(buf) + 1;
      var i := |buf| - 1;
      LastIncremented(buf);
      buf := buf[i := Successor(buf[i])];
      while i > 0 && buf[i] > '9'
        invariant 0 <= i < |buf| == old(|buf|) && Carrying(buf, i, total)
        invariant precision == old(precision) && exp10 == old(exp10)
      {
        CarryMove(buf, i, total);
        buf := buf[i := '0'][i - 1 := Successor(buf[i - 1])];
        i := i - 1;
      }
      if buf[0] > '9' {
        CarryOutOfText(buf, total);
        buf := buf[0 := '1'];
        if fixed {
          NextTen(|buf| - 1);
          NumberAppend(buf, '0');
          buf := buf + ['0'];
        } else {
          exp10 := exp10 + 1;
        }
      }
    }
  }

  lemma LastIncremented(s: seq<char>)
    requires |s| > 0 && AllDigits(s)
    ensures var i := |s| - 1; Carrying(s[i := Successor(s[i])], i, Number(s) + 1)
  {
    var i := |s| - 1;
    NumberUpdate(s, i, Successor(s[i]));
    assert Pow(10, 0) == 1;
  }

  const POWERS_OF_10: seq<nat> := [
    1, 10, 100, 1000, 10000, 100000, 1000000, 10000000, 100000000, 1000000000,
    10000000000, 100000000000, 1000000000000, 10000000000000, 100000000000000, 1000000000000000,
    10000000000000000, 100000000000000000, 1000000000000000000, 10000000000000000000]

  lemma PowerTable(exp: nat)
    requires exp < 20
    ensures POWERS_OF_10[exp] == Pow(10, exp)
  {
    SmallPowers();
    TenPowers();
    hide Pow;
  }

  /**
   * total, at decimal place, is within half a unit of every number within one unit of f / 2^s.
   * Below the point the numbers are scaled up by tens so that all stay whole.
   */
  predicate Rounded(f: int, s: nat, total: int, place: int) {
    if place >= 0 then WithinHalf(total, Pow(10, place) * Pow(2, s), f - 1, f + 1)
    else WithinHalf(total, Pow(2, s), (f - 1) * Pow(10, -place), (f + 1) * Pow(10, -place))
  }

  /** At this place the digits of f leave a remainder that the error of one unit does not decide. */
  predicate Undecided(f: nat, s: nat, place: int) {
    if place >= 0 then
      var unit := Pow(10, place) * Pow(2, s);
      Open(unit, f % unit, 1)
    else
      var error := Pow(10, -place);
      var remainder := f * error % Pow(2, s);
      error >= remainder || Open(Pow(2, s), remainder, error)
  }

  // ----- the start -----

  lemma IntegralDigits(f: nat, s: nat, kappa: nat)
    requires 32 <= s <= 60 && f < 0x1_0000_0000_0000_0000 && f / Pow(2, s) < 0x1_0000_0000
    requires f / Pow(2, s) > 0 && IsDigitCount(f / Pow(2, s), kappa)
    ensures 1 <= kappa <= 10
    ensures Pow(2, s) >= 0x1_0000_0000
    ensures Pow(10, kappa - 1) * Pow(2, s) <= f < Pow(10, kappa) * Pow(2, s)
    ensures Pow(10, kappa) * Pow(2, s) == 10 * (Pow(10, kappa - 1) * Pow(2, s))
  {
    EightPowers();
    TenPowers();
    assert Pow(10, kappa) == 10 * Pow(10, kappa - 1);
    hide Pow;
    PowMonotone(2, 32, s);
    if kappa > 10 {
      PowMonotone(10, 10, kappa - 1);
    }
    QuotientRange(f, Pow(2, s), Pow(10, kappa - 1), Pow(10, kappa));
    MulAssoc(10, Pow(10, kappa - 1), Pow(2, s));
  }

  lemma QuotientRange(f: nat, one: nat, lo: nat, hi: nat)
    requires one > 0 && lo <= f / one < hi
    ensures lo * one <= f < hi * one
  {
    var q, r := f / one, f % one;
    assert f == q * one + r;
    MulMonotone(lo, q, one);
    MulMonotone(q + 1, hi, one);
  }

  lemma NextTen(k: nat)
    ensures Pow(10, k + 1) == 10 * Pow(10, k)
  {
  }

  /** No digit is wanted, and even the first one lies below half a unit of the wanted place. */
  lemma NothingToPrint(f: nat, s: nat, kappa: nat, place: int)
    requires 1 <= kappa < place && f < Pow(10, kappa) * Pow(2, s) && Pow(2, s) >= 2
    ensures Rounded(f, s, 0, place)
  {
    hide Pow;
    PowMonotone(10, kappa + 1, place);
    NextTen(kappa);
    MulMonotone(10 * Pow(10, kappa), Pow(10, place), Pow(2, s));
    assert (10 * Pow(10, kappa)) * Pow(2, s) == 10 * (Pow(10, kappa) * Pow(2, s));
  }

  /** The first digit decides between zero and one unit of the place above it. */
  lemma OneUnitOrNothing(f: nat, s: nat, kappa: nat, up: bool)
    requires 1 <= kappa && f < Pow(10, kappa) * Pow(2, s)
    requires var divisor := Pow(10, kappa - 1) * Pow(2, s);
             if up then 2 * (f / 10 - 10) >= divisor else 2 * (f / 10 + 10) <= divisor
    requires Pow(10, kappa) * Pow(2, s) == 10 * (Pow(10, kappa - 1) * Pow(2, s))
    ensures Rounded(f, s, if up then 1 else 0, kappa)
  {
    hide Pow;
  }

  // ----- the integral part -----

  /** x << s before any truncation. */
  function Shl(x: int, s: nat): int {
    x * Pow(2, s)
  }

  /** Before the digit of place exp - 1: the digits so far and what is left of f. */
  predicate IntegralState(f: int, s: nat, p: int, exp: nat, integral: int, fractional: int) {
    && 0 <= integral < Pow(10, exp) && 0 <= fractional < Pow(2, s)
    && f == p * Shl(Pow(10, exp), s) + Shl(integral, s) + fractional
  }

  lemma IntegralStart(f: nat, s: nat, kappa: nat)
    requires IsDigitCount(f / Pow(2, s), kappa)
    ensures IntegralState(f, s, 0, kappa, f / Pow(2, s), f % Pow(2, s))
  {
    hide Pow;
    DivideBack(f, Pow(2, s));
  }

  lemma DivideBack(x: nat, d: nat)
    requires d > 0
    ensures x == x / d * d + x % d && 0 <= x / d && 0 <= x % d < d
  {
  }

  lemma IntegralStep(f: int, s: nat, p: int, exp: nat, integral: int, fractional: int)
    requires exp > 0 && IntegralState(f, s, p, exp, integral, fractional)
    ensures var digit := integral / Pow(10, exp - 1); var rest := integral % Pow(10, exp - 1);
            && 0 <= digit <= 9 && 0 <= Shl(rest, s)
            && IntegralState(f, s, 10 * p + digit, exp - 1, rest, fractional)
            && Split(f, 10 * p + digit, Shl(Pow(10, exp - 1), s), Shl(rest, s) + fractional)
  {
    var t, one := Pow(10, exp - 1), Pow(2, s);
    assert Pow(10, exp) == 10 * t;
    hide Pow;
    DigitSplit(f, p, t, one, integral, fractional);
  }

  /** One turn of the integral loop: what it computes fits 64 bits and splits f at the next place. */
  lemma IntegralTurn(f: nat, s: nat, kappa: nat, p: int, exp: nat, integral: int, fractional: int)
    requires 0 < exp <= kappa <= 20 && p >= 0 && IntegralState(f, s, p, exp, integral, fractional)
    requires f < 0x1_0000_0000_0000_0000
    requires Pow(10, kappa - 1) * Pow(2, s) <= f && Pow(2, s) >= 0x1_0000_0000
    ensures var divisor := POWERS_OF_10[exp - 1];
            var digit := integral / divisor; var rest := integral % divisor; var unit := Shl(divisor, s);
            && divisor == Pow(10, exp - 1) && 0 <= digit <= 9
            && 2 < Wrap64(unit) == unit && 0 <= Wrap64(Shl(rest, s)) == Shl(rest, s)
            && 0 <= Wrap64(Shl(rest, s) + fractional) == Shl(rest, s) + fractional < unit
            && IntegralState(f, s, 10 * p + digit, exp - 1, rest, fractional)
            && Split(f, 10 * p + digit, unit, Shl(rest, s) + fractional)
  {
    PowerTable(exp - 1);
    IntegralStep(f, s, p, exp, integral, fractional);
    UnitFits(s, exp - 1, kappa, f);
    assert 0 <= fractional;
    assert Shl(Pow(10, exp - 1), s) == Pow(10, exp - 1) * Pow(2, s);
    hide Pow, Shl, IntegralState;
    var divisor := POWERS_OF_10[exp - 1];
    SplitRange(f, 10 * p + integral / divisor, Shl(divisor, s), Shl(integral % divisor, s) + fractional);
  }

  lemma SplitRange(c: int, p: int, u: int, remainder: int)
    requires Split(c, p, u, remainder) && p >= 0 && u > 0
    ensures 0 <= remainder < u && remainder <= c
  {
    MulMonotone(0, p, u);
  }

  lemma DigitSplit(f: int, p: int, t: int, one: int, integral: int, fractional: int)
    requires t > 0 && one > 0 && 0 <= integral < 10 * t && 0 <= fractional < one
    requires f == p * ((10 * t) * one) + integral * one + fractional
    ensures var digit := integral / t; var rest := integral % t;
            && 0 <= digit <= 9 && 0 <= rest < t
            && f == (10 * p + digit) * (t * one) + rest * one + fractional
            && 0 <= rest * one + fractional < t * one
  {
    var digit, rest := integral / t, integral % t;
    TenthPart(integral, t);
    SplitAgain(p, digit, rest, t, one);
    MulMonotone(rest + 1, t, one);
    assert (rest + 1) * one == rest * one + one;
    MulMonotone(0, rest, one);
  }

  lemma TenthPart(x: int, t: int)
    requires t > 0 && 0 <= x < 10 * t
    ensures x == x / t * t + x % t && 0 <= x / t <= 9 && 0 <= x % t < t
  {
    var q, r := x / t, x % t;
    assert x == q * t + r;
    hide *;
    if q >= 10 {
      MulMonotone(10, q, t);
    }
    if q < 0 {
      MulMonotone(q, -1, t);
    }
  }

  lemma SplitAgain(p: int, digit: int, rest: int, t: int, one: int)
    ensures p * ((10 * t) * one) + (digit * t + rest) * one == (10 * p + digit) * (t * one) + rest * one
  {
    assert (digit * t + rest) * one == digit * (t * one) + rest * one by {
      MulAssoc(digit, t, one);
    }
    assert p * ((10 * t) * one) == (10 * p) * (t * one) by {
      MulAssoc(10, t, one);
      MulAssoc(p, 10, t * one);
    }
    assert (10 * p + digit) * (t * one) == (10 * p) * (t * one) + digit * (t * one);
  }

  // ----- the fractional part -----

  /** After k digits behind the point: the digits so far and what is left of f * 10^k. */
  predicate FractionState(f: int, s: nat, p: int, k: nat, fractional: int) {
    Split(f * Pow(10, k), p, Pow(2, s), fractional)
  }

  lemma FractionStart(f: int, s: nat, p: int, fractional: int)
    requires IntegralState(f, s, p, 0, 0, fractional)
    ensures FractionState(f, s, p, 0, fractional)
  {
  }

  lemma FractionStep(f: int, s: nat, p: int, k: nat, fractional: int)
    requires FractionState(f, s, p, k, fractional)
    ensures var digit := fractional * 10 / Pow(2, s);
            && 0 <= digit <= 9
            && FractionState(f, s, 10 * p + digit, k + 1, fractional * 10 % Pow(2, s))
  {
    assert Pow(10, k + 1) == 10 * Pow(10, k);
    assert f * (10 * Pow(10, k)) == 10 * (f * Pow(10, k));
    hide Pow;
    TenfoldSplit(f * Pow(10, k), p, Pow(2, s), fractional);
  }

  lemma TenfoldSplit(c: int, p: int, one: int, r: int)
    requires one > 0 && Split(c, p, one, r)
    ensures var digit := r * 10 / one;
            0 <= digit <= 9 && Split(10 * c, 10 * p + digit, one, r * 10 % one)
  {
    var digit, rest := r * 10 / one, r * 10 % one;
    assert r * 10 == digit * one + rest;
    if digit >= 10 {
      MulMonotone(10, digit, one);
    }
    assert (10 * p + digit) * one == 10 * (p * one) + digit * one;
  }

  /** A digit that ended the integral part is rounded as its place demands. */
  lemma IntegralDone(f: int, s: nat, p: int, exp: nat, remainder: int, total: int)
    requires var u := Shl(Pow(10, exp), s);
             Split(f, p, u, remainder) && 2 < u && Settled(u, remainder, 1, p, total)
    ensures Rounded(f, s, total, exp)
  {
    DirectionIsSound(f, p, Pow(10, exp) * Pow(2, s), remainder, 1, total);
  }

  lemma FractionDone(f: int, s: nat, p: int, k: nat, fractional: int, error: int, total: int)
    requires k > 0 && error == Pow(10, k) && FractionState(f, s, p, k, fractional)
    requires 2 * error < Pow(2, s) && Settled(Pow(2, s), fractional, error, p, total)
    ensures Rounded(f, s, total, -(k as int))
  {
    DirectionIsSound(f * Pow(10, k), p, Pow(2, s), fractional, error, total);
    assert f * Pow(10, k) - error == (f - 1) * Pow(10, k);
    assert f * Pow(10, k) + error == (f + 1) * Pow(10, k);
  }

  lemma IntegralVerdict(f: nat, s: nat, p: int, exp: nat, remainder: int)
    requires Split(f, p, Shl(Pow(10, exp), s), remainder)
    ensures Undecided(f, s, exp) <==> Open(Shl(Pow(10, exp), s), remainder, 1)
  {
    hide Pow, Open;
    DivUnique(f, Pow(10, exp) * Pow(2, s), p, remainder);
  }

  lemma FractionVerdict(f: nat, s: nat, p: int, k: nat, fractional: int)
    requires k > 0 && FractionState(f, s, p, k, fractional)
    ensures Undecided(f, s, -(k as int))
       <==> Pow(10, k) >= fractional || Open(Pow(2, s), fractional, Pow(10, k))
  {
    hide Pow, Open;
    DivUnique(f * Pow(10, k), Pow(2, s), p, fractional);
  }

  /** The unit of place exp, which fits 64 bits as it does not exceed f. */
  lemma UnitFits(s: nat, exp: nat, kappa: nat, f: nat)
    requires exp < kappa && Pow(10, kappa - 1) * Pow(2, s) <= f && Pow(2, s) >= 0x1_0000_0000
    ensures 0x1_0000_0000 <= Pow(10, exp) * Pow(2, s) <= f
  {
    PowMonotone(10, exp, kappa - 1);
    hide Pow;
    MulMonotone(Pow(10, exp), Pow(10, kappa - 1), Pow(2, s));
    MulMonotone(1, Pow(10, exp), Pow(2, s));
  }

  /** The loop over the integral part, entered with all of its kappa digits still to come. */
  method IntegralPart(f: nat, s: nat, kappa: nat, handler: FixedHandler) returns (result: Result, exp: int)
    requires 32 <= s <= 60 && f < 0x1_0000_0000_0000_0000 && 0 < f / Pow(2, s) < 0x1_0000_0000
    requires IsDigitCount(f / Pow(2, s), kappa)
    requires handler.buf == [] && (handler.fixed ==> handler.precision > 0)
    modifies handler
    ensures AllDigits(handler.buf) && handler.precision == old(handler.precision)
    ensures result == Done ==>
              handler.exp10 == old(handler.exp10) || (!handler.fixed && handler.exp10 == old(handler.exp10) + 1)
    ensures handler.fixed ==> handler.exp10 == old(handler.exp10)
    ensures result == More ==>
              && exp == 0 && |handler.buf| == kappa < handler.precision && handler.exp10 == old(handler.exp10)
              && IntegralState(f, s, Number(handler.buf), 0, 0, f % Pow(2, s))
    ensures result == Error ==> exp + |handler.buf| == kappa && handler.exp10 == old(handler.exp10)
    ensures result == Error ==> |handler.buf| <= (if handler.precision < 1 then 1 else handler.precision)
    ensures result != More ==> 0 <= exp < kappa && (result == Error <==> Undecided(f, s, exp))
    ensures result == Done ==>
              && exp >= 0 && Rounded(f, s, handler.Total(old(handler.exp10)), exp)
              && Finished(handler.fixed, handler.precision, |handler.buf|, kappa - exp)
              && CarriedOrSized(handler.buf, handler.exp10 == old(handler.exp10), kappa - exp)
  {
    hide Pow, Number, IntegralState, Rounded, Split, Settled, Shl, Wrap64, Undecided, Open, IsDigitCount;
    IntegralDigits(f, s, kappa);
    IntegralStart(f, s, kappa);
    NumberNothing();
    exp := kappa;
    var integral := f / Pow(2, s);
    var fractional := f % Pow(2, s);
    ghost var start := handler.exp10;
    result := More;
    while exp > 0
      invariant 0 <= exp <= kappa && result == More
      invariant AllDigits(handler.buf) && |handler.buf| == kappa - exp
      invariant exp < kappa ==> |handler.buf| < handler.precision
      invariant handler.precision == old(handler.precision) && handler.exp10 == start
      invariant IntegralState(f, s, Number(handler.buf), exp, integral, fractional)
      invariant fractional == f % Pow(2, s)
    {
      ghost var text := handler.buf;
      ghost var p := Number(text);
      NumberBounds(text);
      IntegralTurn(f, s, kappa, p, exp, integral, fractional);
      var divisor := POWERS_OF_10[exp - 1];
      var digit := integral / divisor;
      integral := integral % divisor;
      exp := exp - 1;
      var remainder := Wrap64(Wrap64(Shl(integral, s)) + fractional);
      result := handler.OnDigit(DigitChar(digit), Wrap64(Shl(divisor, s)), remainder, 1, true);
      if result != More {
        IntegralVerdict(f, s, 10 * p + digit, exp, remainder);
        if result == Done {
          IntegralDone(f, s, 10 * p + digit, exp, remainder, handler.Total(start));
        }
        return;
      }
      NumberAppend(text, DigitChar(digit));
    }
    NoIntegralLeft(f, s, Number(handler.buf), integral, fractional);
  }

  lemma NoIntegralLeft(f: int, s: nat, p: int, integral: int, fractional: int)
    requires IntegralState(f, s, p, 0, integral, fractional)
    ensures integral == 0
  {
  }

  /** How many digits a finished run has: up to its place, with one more after a carry in fixed mode. */
  predicate Finished(fixed: bool, precision: int, size: int, places: int) {
    && (size == places || (fixed && size == places + 1))
    && places == if precision < 1 then 1 else precision
  }

  /** Text of the expected length, unless a carry has made it a one followed by zeros. */
  predicate CarriedOrSized(buf: seq<char>, sameExp: bool, places: int) {
    (sameExp && |buf| == places) || (buf != [] && Number(buf) == Pow(10, |buf| - 1))
  }

  /** One turn of the fractional loop, which never leaves 64 bits. */
  lemma FractionTurn(f: nat, s: nat, p: int, k: nat, fractional: int, error: int)
    requires FractionState(f, s, p, k, fractional) && s <= 60 && error == Pow(10, k) && error <= Pow(2, s)
    ensures var scaled := Wrap64(fractional * 10);
            var digit := scaled / Pow(2, s); var rest := scaled % Pow(2, s);
            && 0 <= digit <= 9 && 0 <= rest < Pow(2, s) <= 0x1000_0000_0000_0000
            && FractionState(f, s, 10 * p + digit, k + 1, rest)
            && Wrap64(error * 10) == error * 10 == Pow(10, k + 1)
  {
    FractionStep(f, s, p, k, fractional);
    assert Pow(10, k + 1) == 10 * Pow(10, k);
    Sixty();
    hide Pow;
    PowMonotone(2, s, 60);
    assert 0 <= fractional < Pow(2, s);
  }

  lemma Sixty()
    ensures Pow(2, 60) == 0x1000_0000_0000_0000
  {
    TwoPowers();
    hide Pow;
    PowAdd(2, 56, 4);
    assert Pow(2, 4) == 16 by {
      SixteenIsPower();
    }
  }

  lemma SixteenIsPower()
    ensures Pow(2, 4) == 16
  {
  }

  /**
   * The loop over the fractional part. The error grows tenfold each turn, and the handler stops
   * as soon as it reaches the remainder, so the loop ends.
   */
  method FractionalPart(f: nat, s: nat, handler: FixedHandler) returns (result: Result, exp: int)
    requires 32 <= s <= 60
    requires AllDigits(handler.buf) && |handler.buf| < handler.precision
    requires IntegralState(f, s, Number(handler.buf), 0, 0, f % Pow(2, s))
    modifies handler
    ensures handler.precision == old(handler.precision)
    ensures result == Done ==>
              handler.exp10 == old(handler.exp10) || (!handler.fixed && handler.exp10 == old(handler.exp10) + 1)
    ensures handler.fixed ==> handler.exp10 == old(handler.exp10)
    ensures exp < 0 && result != More
    ensures result == Error ==> |handler.buf| <= (if handler.precision < 1 then 1 else handler.precision)
    ensures result == Error <==> Undecided(f, s, exp)
    ensures result == Error ==> |handler.buf| == old(|handler.buf|) - exp && handler.exp10 == old(handler.exp10)
    ensures result == Done ==>
              && AllDigits(handler.buf) && Rounded(f, s, handler.Total(old(handler.exp10)), exp)
              && Finished(handler.fixed, handler.precision, |handler.buf|, old(|handler.buf|) - exp)
              && CarriedOrSized(handler.buf, handler.exp10 == old(handler.exp10), old(|handler.buf|) - exp)
  {
    hide Number, IntegralState, FractionState, Rounded, Settled, Wrap64, Undecided, Open, GetRoundDirection;
    var one := Pow(2, s);
    var fractional := f % one;
    FractionStart(f, s, Number(handler.buf), fractional);
    OneUnit(s);
    hide Pow;
    var error := 1;
    exp := 0;
    ghost var start, size := handler.exp10, |handler.buf|;
    while true
      invariant exp <= 0 && 1 <= error == Pow(10, -exp) < one && (exp < 0 ==> error < fractional)
      invariant AllDigits(handler.buf) && |handler.buf| == size - exp < handler.precision
      invariant handler.precision == old(handler.precision) && handler.exp10 == start
      invariant FractionState(f, s, Number(handler.buf), -exp, fractional)
      decreases one - error
    {
      ghost var text := handler.buf;
      ghost var p := Number(text);
      FractionTurn(f, s, p, -exp, fractional, error);
      fractional := Wrap64(fractional * 10);
      error := Wrap64(error * 10);
      var digit := fractional / one;
      fractional := fractional % one;
      exp := exp - 1;
      result := handler.OnDigit(DigitChar(digit), one, fractional, error, false);
      if result != More {
        FractionVerdict(f, s, 10 * p + digit, -exp, fractional);
        if result == Done {
          FractionDone(f, s, 10 * p + digit, -exp, fractional, error, handler.Total(start));
        }
        return;
      }
      NumberAppend(text, DigitChar(digit));
    }
  }

  lemma OneUnit(s: nat)
    requires s >= 1
    ensures Pow(10, 0) == 1 && Pow(2, s) > 1
  {
    PowMonotone(2, 1, s);
    assert Pow(2, 1) == 2;
  }

  /** The decimal place to which the result is rounded. */
  function RoundingPlace(fixed: bool, precision: int, exp10: int, exp: int): int {
    if fixed then -(precision + exp10) else exp
  }

  /** The unit of the first digit is a word, and far enough from zero for the test before the first digit. */
  lemma LeadingDivisor(f: nat, s: nat, kappa: nat)
    requires 1 <= kappa <= 10 && Pow(2, s) >= 0x1_0000_0000 && f < 0x1_0000_0000_0000_0000
    requires Pow(10, kappa - 1) * Pow(2, s) <= f < 10 * (Pow(10, kappa - 1) * Pow(2, s))
    ensures var divisor := Wrap64(POWERS_OF_10[kappa - 1] * Pow(2, s));
            && divisor == Pow(10, kappa - 1) * Pow(2, s) < 0x1_0000_0000_0000_0000
            && f / 10 < divisor && 10 < divisor - 10
  {
    PowerTable(kappa - 1);
    hide Pow;
    MulLowerBound(Pow(10, kappa - 1), Pow(2, s));
  }

  /**
   * Generates the digits of f * 2^-s. Done means that the digits are a correct rounding of every
   * number within one unit of f; otherwise the result is Error, and exp and the number of digits
   * written still locate the first digit for the exact algorithm.
   */
  method GenerateDigits(f: nat, s: nat, handler: FixedHandler) returns (result: Result, exp: int)
    requires 32 <= s <= 60 && f < 0x1_0000_0000_0000_0000 && 0 < f / Pow(2, s) < 0x1_0000_0000
    requires handler.buf == []
    modifies handler
    ensures result != More
    ensures result == Done ==> AllDigits(handler.buf)
    ensures result == Done ==>
              Rounded(f, s, handler.Total(old(handler.exp10)),
                RoundingPlace(handler.fixed, old(handler.precision), old(handler.exp10), exp))
    ensures result == Done && !handler.fixed ==>
              |handler.buf| == CountDigits32(f / Pow(2, s)) - exp
              && |handler.buf| == if old(handler.precision) < 1 then 1 else old(handler.precision)
    ensures result == Done && handler.fixed ==>
              if handler.precision < 0 then exp == CountDigits32(f / Pow(2, s)) && handler.buf == []
              else exp == RoundingPlace(true, old(handler.precision), old(handler.exp10), exp)
                   && (if handler.precision == 0 then |handler.buf| == 1
                       else handler.precision <= |handler.buf| <= handler.precision + 1)
    ensures result == Done && (!handler.fixed || handler.precision > 0) ==>
              CarriedOrSized(handler.buf, handler.exp10 == old(handler.exp10),
                if handler.precision < 1 then 1 else handler.precision)
    ensures result == Done ==>
              handler.exp10 == old(handler.exp10) || (!handler.fixed && handler.exp10 == old(handler.exp10) + 1)
    ensures handler.fixed ==> handler.exp10 == old(handler.exp10)
    ensures handler.precision == old(handler.precision)
              + (if handler.fixed then CountDigits32(f / Pow(2, s)) + old(handler.exp10) else 0)
    ensures !handler.fixed || handler.precision > 0 ==>
              exp < CountDigits32(f / Pow(2, s)) && (result == Error <==> Undecided(f, s, exp))
    ensures handler.fixed && handler.precision == 0 ==>
              (result == Error <==> Open(Pow(10, CountDigits32(f / Pow(2, s)) - 1) * Pow(2, s), f / 10, 10))
    ensures result == Error ==> |handler.buf| <= (if handler.precision < 1 then 1 else handler.precision)
    ensures result == Error ==>
              exp + |handler.buf| == CountDigits32(f / Pow(2, s)) && handler.exp10 == old(handler.exp10)
              && (handler.fixed ==> handler.precision >= 0)
  {
    hide Pow, Number, IntegralState, Rounded, CountDigits32, GetRoundDirection, Undecided, Wrap64;
    hide CarriedOrSized;
    var one := Pow(2, s);
    var integral := f / one;
    var kappa := CountDigits32(integral);
    IntegralDigits(f, s, kappa);
    LeadingDivisor(f, s, kappa);
    exp := kappa;
    ghost var start, wanted := handler.exp10, handler.precision;
    var divisor := Wrap64(POWERS_OF_10[kappa - 1] * one);
    result := handler.OnStart(divisor, f / 10, 10, exp);
    if result != More {
      if result == Done {
        NumberNothing();
        if handler.precision < 0 {
          NothingToPrint(f, s, kappa, RoundingPlace(handler.fixed, wanted, start, exp));
        } else {
          NumberSingle(handler.buf);
          OneUnitOrNothing(f, s, kappa, GetRoundDirection(divisor, f / 10, 10) == RoundUp);
        }
      }
      return;
    }
    result, exp := IntegralPart(f, s, kappa, handler);
    if result != More {
      return;
    }
    result, exp := FractionalPart(f, s, handler);
  }

  /** The number m, in units of u, is at most half a unit away from x. */
  predicate HalfUnitFrom(m: int, u: int, x: real) {
    -(u as real) <= 2.0 * ((m * u) as real - x) <= u as real
  }

  /** The rounding is correct for every real number within one unit of f; t scales to whole digits. */
  lemma CorrectForEveryReal(f: int, s: nat, total: int, place: int, x: real, t: int)
    requires Rounded(f, s, total, place) && (f - 1) as real <= x <= (f + 1) as real
    requires t == if place >= 0 then 1 else Pow(10, -place)
    ensures HalfUnitFrom(total, if place >= 0 then Pow(10, place) * Pow(2, s) else Pow(2, s), x * t as real)
  {
    var u := if place >= 0 then Pow(10, place) * Pow(2, s) else Pow(2, s);
    assert WithinHalf(total, u, (f - 1) * t, (f + 1) * t);
    hide *;
    ScaledReal(f - 1, f + 1, x, t);
    RealWithinHalf(total, u, (f - 1) * t, (f + 1) * t, x * t as real);
  }

  lemma RealWithinHalf(m: int, u: int, lo: int, hi: int, x: real)
    requires WithinHalf(m, u, lo, hi) && lo as real <= x <= hi as real
    ensures HalfUnitFrom(m, u, x)
  {
    var c := m * u;
    assert 2 * (c - lo) <= u && 2 * (hi - c) <= u;
    HalfUnitReal(c, u, lo, hi, x);
  }

  lemma HalfUnitReal(c: int, u: int, lo: int, hi: int, x: real)
    requires 2 * (c - lo) <= u && 2 * (hi - c) <= u && lo as real <= x <= hi as real
    ensures -(u as real) <= 2.0 * (c as real - x) <= u as real
  {
  }

  lemma ScaledReal(lo: int, hi: int, x: real, t: int)
    requires t > 0 && lo as real <= x <= hi as real
    ensures (lo * t) as real <= x * t as real <= (hi * t) as real
  {
    assert (lo * t) as real == lo as real * t as real;
    assert (hi * t) as real == hi as real * t as real;
  }
}
