/** Decimal digit strings and the numbers they denote. */
module DigitText {
  import opened Powers

  function DigitChar(d: int): (c: char)
    requires 0 <= d <= 10
    ensures DigitValue(c) == d
  {
    ('0' as int + d) as char
  }

  function DigitValue(c: char): int {
    c as int - '0' as int
  }

  predicate IsDigit(c: char) {
    '0' <= c <= '9'
  }

  predicate AllDigits(s: seq<char>) {
    forall i :: 0 <= i < |s| ==> IsDigit(s[i])
  }

  /** The number a digit string denotes, most significant digit first. */
  function Number(s: seq<char>): int {
    if s == [] then 0 else 10 * Number(s[..|s| - 1]) + DigitValue(s[|s| - 1])
  }

  lemma NumberNothing()
    ensures Number([]) == 0
  {
  }

  lemma NumberSingle(s: seq<char>)
    requires |s| == 1
    ensures Number(s) == DigitValue(s[0])
  {
    assert s[..0] == [];
  }

  lemma NumberAppend(s: seq<char>, c: char)
    ensures Number(s + [c]) == 10 * Number(s) + DigitValue(c)
  {
    assert (s + [c])[..|s|] == s;
  }

  lemma {:induction false} NumberConcat(a: seq<char>, b: seq<char>)
    ensures Number(a + b) == Number(a) * Pow(10, |b|) + Number(b)
  {
    if b == [] {
      assert a + b == a;
    } else {
      var k := |b| - 1;
      assert (a + b)[..|a + b| - 1] == a + b[..k];
      NumberConcat(a, b[..k]);
      TimesTen(Number(a), k);
    }
  }

  /** Text of n: its digits without leading zeros. */
  predicate Denotes(s: seq<char>, n: nat) {
    AllDigits(s) && Number(s) == n && IsDigitCount(n, |s|)
  }

  /** k is the number of decimal digits of n, one for zero. */
  predicate IsDigitCount(n: nat, k: nat) {
    k >= 1 && n < Pow(10, k) && (k > 1 ==> Pow(10, k - 1) <= n)
  }

  lemma {:induction false} NumberBounds(s: seq<char>)
    requires AllDigits(s)
    ensures 0 <= Number(s) < Pow(10, |s|)
  {
    if s == [] {
    } else {
      NumberBounds(s[..|s| - 1]);
    }
  }

  /** A leading zero leaves the number short of the power that its length stands for. */
  lemma LeadingZero(s: seq<char>)
    requires AllDigits(s) && s != []
    ensures s[0] == '0' <==> Number(s) < Pow(10, |s| - 1)
  {
    hide Pow, Number;
    var rest := s[1..];
    assert s == [s[0]] + rest;
    NumberConcat([s[0]], rest);
    NumberSingle([s[0]]);
    NumberBounds(rest);
    if s[0] != '0' {
      MulLowerBound(DigitValue(s[0]), Pow(10, |rest|));
    }
  }

  /** Raising one digit by x raises the number by x units of its place. */
  lemma {:induction false} NumberUpdate(s: seq<char>, i: nat, c: char)
    requires i < |s|
    ensures Number(s[i := c]) == Number(s) + (DigitValue(c) - DigitValue(s[i])) * Pow(10, |s| - 1 - i)
  {
    var n := |s| - 1;
    if i == n {
      assert s[i := c][..n] == s[..n];
    } else {
      assert s[i := c][..n] == s[..n][i := c];
      NumberUpdate(s[..n], i, c);
      TimesTen(DigitValue(c) - DigitValue(s[i]), n - 1 - i);
    }
  }

  lemma TimesTen(x: int, k: nat)
    ensures 10 * (x * Pow(10, k)) == x * Pow(10, k + 1)
  {
  }

  // ----- rounding up in the text: a digit past nine is carried to its left -----

  /** The character after '9', which stands for a digit ten that is still to be carried. */
  const OVERFLOW: char := ':'

  /** The text denotes total; only position i may overflow and all behind it is zero. */
  predicate Carrying(s: seq<char>, i: nat, total: int) {
    && i < |s| && Number(s) == total
    && (IsDigit(s[i]) || s[i] == OVERFLOW)
    && (forall k :: 0 <= k < i ==> IsDigit(s[k]))
    && (s[i] == OVERFLOW ==> forall k :: i < k < |s| ==> s[k] == '0')
    && (forall k :: i < k < |s| ==> IsDigit(s[k]))
  }

  function Successor(c: char): char
    requires IsDigit(c)
  {
    (c as int + 1) as char
  }

  lemma CarryMove(s: seq<char>, i: nat, total: int)
    requires i > 0 && Carrying(s, i, total) && s[i] == OVERFLOW
    ensures Carrying(s[i := '0'][i - 1 := Successor(s[i - 1])], i - 1, total)
  {
    var t := s[i := '0'];
    NumberUpdate(s, i, '0');
    NumberUpdate(t, i - 1, Successor(s[i - 1]));
    assert Pow(10, |s| - 1 - (i - 1)) == 10 * Pow(10, |s| - 1 - i);
  }

  lemma {:induction false} AllZeros(s: seq<char>)
    requires forall k :: 0 <= k < |s| ==> s[k] == '0'
    ensures Number(s) == 0
  {
    if s == [] {
    } else {
      AllZeros(s[..|s| - 1]);
    }
  }

  /** When the carry leaves the text, it denoted a power of ten and becomes 10...0. */
  lemma CarryOutOfText(s: seq<char>, total: int)
    requires Carrying(s, 0, total) && s[0] == OVERFLOW
    ensures AllDigits(s[0 := '1']) && total == 10 * Number(s[0 := '1'])
    ensures Number(s[0 := '1']) == Pow(10, |s| - 1)
  {
    hide Number, Pow;
    NumberUpdate(s, 0, '0');
    NumberUpdate(s, 0, '1');
    AllZeros(s[0 := '0']);
  }

  /** q is the multiple of d nearest to x, and the even one of two equally near. */
  predicate NearestEven(q: int, x: int, d: int) {
    && -d <= 2 * (x - q * d) <= d
    && (2 * (x - q * d) == d || 2 * (x - q * d) == -d ==> q % 2 == 0)
  }

  /** q is a multiple of d nearest to x. */
  predicate Nearest(q: int, x: int, d: int) {
    -d <= 2 * (x - q * d) <= d
  }

  lemma RoundingErrors(q: int, x: int, d: int, x': int, d': int)
    requires x * d' == x' * d
    ensures (2 * (x - q * d)) * d' == (2 * (x' - q * d')) * d
  {
    assert (2 * (x - q * d)) * d' == 2 * (x * d') - 2 * ((q * d) * d');
    assert (2 * (x' - q * d')) * d == 2 * (x' * d) - 2 * ((q * d') * d);
    assert (q * d) * d' == (q * d') * d by { MulAssoc(q, d, d'); MulAssoc(q, d', d); }
  }

  lemma NearestRatio(q: int, x: int, d: int, x': int, d': int)
    requires d > 0 && d' > 0 && x * d' == x' * d
    requires Nearest(q, x, d)
    ensures Nearest(q, x', d')
  {
    RoundingErrors(q, x, d, x', d');
    RatioBounds(2 * (x - q * d), d, 2 * (x' - q * d'), d');
  }

  /** Rounding does not depend on how the fraction x / d is written. */
  lemma NearestEvenRatio(q: int, x: int, d: int, x': int, d': int)
    requires d > 0 && d' > 0 && x * d' == x' * d
    requires NearestEven(q, x, d)
    ensures NearestEven(q, x', d')
  {
    RoundingErrors(q, x, d, x', d');
    RatioBounds(2 * (x - q * d), d, 2 * (x' - q * d'), d');
  }

  lemma RatioBounds(u: int, d: int, v: int, d': int)
    requires d > 0 && d' > 0 && u * d' == v * d && -d <= u <= d
    ensures -d' <= v <= d'
    ensures v == d' ==> u == d
    ensures v == -d' ==> u == -d
  {
    if v > d' {
      MulStrictMonotone(d', v, d);
      MulMonotone(u, d, d');
    } else if v < -d' {
      MulStrictMonotone(v, -d', d);
      MulMonotone(-d, u, d');
    }
    if v == d' && u < d {
      MulStrictMonotone(u, d, d');
    }
    if v == -d' && u > -d {
      MulStrictMonotone(-d, u, d');
    }
  }
}
