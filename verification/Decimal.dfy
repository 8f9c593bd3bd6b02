/** Decimal output two digits at a time, and decimal input with 32-bit wrap-around. */
module Decimal {
  import opened Powers
  import opened Limbs
  import opened DigitText
  import opened DigitCount

  /** The two characters that the digit table holds for a number below one hundred. */
  function TwoDigits(v: nat): (s: seq<char>)
    requires v < 100
    ensures |s| == 2 && AllDigits(s) && Number(s) == v
  {
    var s := [DigitChar(v / 10), DigitChar(v % 10)];
    assert s == [] + [s[0]] + [s[1]];
    NumberAppend([], s[0]);
    NumberAppend([] + [s[0]], s[1]);
    s
  }

  /** The text after the cursor denotes the low digits of n, of which rest are still to be written. */
  predicate Written(n: nat, rest: nat, s: seq<char>) {
    AllDigits(s) && n == rest * Pow(10, |s|) + Number(s)
  }

  lemma WriteMore(n: nat, rest: nat, s: seq<char>, front: seq<char>, rest': nat)
    requires Written(n, rest, s) && AllDigits(front)
    requires rest == rest' * Pow(10, |front|) + Number(front)
    ensures Written(n, rest', front + s)
  {
    hide Pow, Number;
    NumberConcat(front, s);
    PowAdd(10, |front|, |s|);
    MovePlaces(rest', Pow(10, |front|), Number(front), Pow(10, |s|));
  }

  lemma MovePlaces(r: int, p: int, f: int, q: int)
    ensures (r * p + f) * q == r * (p * q) + f * q
  {
    MulAssoc(r, p, q);
  }

  /** The last digits written make the text the whole numeral of n. */
  lemma WriteLast(n: nat, rest: nat, s: seq<char>, front: seq<char>)
    requires Written(n, rest, s) && Denotes(front, rest)
    requires rest > 0 || s == []
    ensures Denotes(front + s, n)
  {
    WriteMore(n, rest, s, front, 0);
    NumberBounds(front + s);
    NumberBounds(s);
    if |front + s| > 1 {
      PowAdd(10, |front| - 1, |s|);
      if |front| > 1 {
        MulMonotone(Pow(10, |front| - 1), rest, Pow(10, |s|));
      } else {
        MulMonotone(1, rest, Pow(10, |s|));
      }
    }
  }

  lemma PairWritten(v: nat)
    requires v >= 100
    ensures v == v / 100 * Pow(10, 2) + v % 100
  {
    SmallPowers();
  }

  lemma SmallText(v: nat)
    requires v < 100
    ensures v < 10 ==> Denotes([DigitChar(v)], v)
    ensures v >= 10 ==> Denotes(TwoDigits(v), v)
  {
    SmallPowers();
    if v < 10 {
      assert [DigitChar(v)] == [] + [DigitChar(v)];
      NumberAppend([], DigitChar(v));
    }
  }

  /** Puts two characters in front of what has been written up to end. */
  method Copy2(out: array<char>, p: nat, pair: seq<char>, ghost end: nat)
    requires |pair| == 2 && p + 2 <= end <= out.Length
    modifies out
    ensures out[p..end] == pair + old(out[p + 2..end])
    ensures forall k :: 0 <= k < out.Length && !(p <= k < p + 2) ==> out[k] == old(out[k])
  {
    out[p], out[p + 1] := pair[0], pair[1];
    assert out[p + 2..end] == old(out[p + 2..end]);
    assert out[p..end] == [out[p], out[p + 1]] + out[p + 2..end];
    assert pair == [pair[0], pair[1]];
  }

  /** Writes value at the end of the first size characters of out. */
  method FormatDecimal(out: array<char>, value: nat, size: nat) returns (begin: nat, end: nat)
    requires value < 0x1_0000_0000_0000_0000
    requires CountDigits64(value) <= size <= out.Length
    modifies out
    ensures begin <= end == size && Denotes(out[begin..end], value)
    ensures end - begin == CountDigits64(value)
    ensures forall k :: 0 <= k < out.Length && !(begin <= k < end) ==> out[k] == old(out[k])
  {
    hide Pow, Number, Written, TwoDigits, CountDigits64, AllDigits;
    end := size;
    var p, v := size, value;
    assert out[p..end] == [];
    WrittenNothing(value);
    while v >= 100
      invariant 0 <= p <= end
      invariant Written(value, v, out[p..end])
      invariant p == end || v >= 1
      invariant forall k :: 0 <= k < out.Length && !(p <= k < end) ==> out[k] == old(out[k])
    {
      ghost var s := out[p..end];
      RoomLeft(value, v, s, size);
      p := p - 2;
      Copy2(out, p, TwoDigits(v % 100), end);
      PairWritten(v);
      WriteMore(value, v, s, TwoDigits(v % 100), v / 100);
      v := v / 100;
    }
    SmallText(v);
    ghost var s := out[p..end];
    RoomLeft(value, v, s, size);
    if v < 10 {
      WriteLast(value, v, s, [DigitChar(v)]);
      p := p - 1;
      out[p] := DigitChar(v);
      assert out[p..end] == [DigitChar(v)] + s;
    } else {
      WriteLast(value, v, s, TwoDigits(v));
      p := p - 2;
      Copy2(out, p, TwoDigits(v), end);
    }
    begin := p;
    DigitCountUnique(value, end - begin, CountDigits64(value));
  }

  lemma WrittenNothing(n: nat)
    ensures Written(n, n, [])
  {
  }

  /** What is still to be written fits in front of what has been written. */
  lemma RoomLeft(n: nat, rest: nat, s: seq<char>, size: nat)
    requires n < 0x1_0000_0000_0000_0000 && CountDigits64(n) <= size
    requires Written(n, rest, s) && (rest > 0 || s == [])
    ensures rest < 100 ==> |s| + (if rest < 10 then 1 else 2) <= size
    ensures rest >= 100 ==> |s| + 2 <= size
  {
    SmallPowers();
    NumberBounds(s);
    var k := if rest < 10 then 0 else 1;
    PowAdd(10, k, |s|);
    if rest > 0 {
      MulMonotone(Pow(10, k), rest, Pow(10, |s|));
      if CountDigits64(n) < |s| + k + 1 {
        PowMonotone(10, CountDigits64(n), |s| + k);
      }
    }
  }

  /** Where the run of digits that starts at begin ends. */
  function RunEnd(s: seq<char>, begin: nat): (p: nat)
    requires begin <= |s|
    ensures begin <= p <= |s| && AllDigits(s[begin..p]) && (p < |s| ==> !IsDigit(s[p]))
    decreases |s| - begin
  {
    if begin < |s| && IsDigit(s[begin]) then
      var p := RunEnd(s, begin + 1);
      assert s[begin..p] == [s[begin]] + s[begin + 1..p];
      p
    else begin
  }

  lemma {:induction false} RunEndIs(s: seq<char>, begin: nat, p: nat)
    requires begin <= p <= |s| && AllDigits(s[begin..p]) && (p < |s| ==> !IsDigit(s[p]))
    ensures RunEnd(s, begin) == p
    decreases p - begin
  {
    if begin < p {
      assert s[begin..p][0] == s[begin] && s[begin..p][1..] == s[begin + 1..p];
      RunEndIs(s, begin + 1, p);
    }
  }

  /** What a run of digits is read as: a number that fits an int, written with at most ten digits. */
  function ParsedInt(digits: seq<char>, errorValue: int): int {
    if |digits| <= 10 && Number(digits) <= 0x7FFF_FFFF then Number(digits) else errorValue
  }

  /** Reads a run of digits with 32-bit wrap-around and detects every overflow. */
  method ParseNonnegativeInt(s: seq<char>, begin: nat, errorValue: int) returns (value: int, next: nat)
    requires begin < |s| && IsDigit(s[begin])
    ensures next == RunEnd(s, begin) && begin < next
    ensures value == ParsedInt(s[begin..next], errorValue)
  {
    hide Pow, Number;
    var word, prev := 0, 0;
    var p := begin;
    assert s[begin..p] == [];
    NumberNothing();
    var more := true;
    // do { ... } while (more)
    while more
      invariant begin <= p <= |s| && AllDigits(s[begin..p])
      invariant 0 <= word < 0x1_0000_0000 && 0 <= prev < 0x1_0000_0000
      invariant word == Number(s[begin..p]) % 0x1_0000_0000
      invariant p > begin ==> prev == Number(s[begin..p - 1]) % 0x1_0000_0000
      invariant p > begin || more
      invariant more <==> p < |s| && IsDigit(s[p])
      decreases |s| - p, more
    {
      prev := word;
      assert s[begin..p + 1] == s[begin..p] + [s[p]] && s[begin..p + 1 - 1] == s[begin..p];
      NumberAppend(s[begin..p], s[p]);
      NumberBounds(s[begin..p]);
      WrapDigit(Number(s[begin..p]), word, DigitValue(s[p]));
      word := Wrap32(Wrap32(word * 10) + DigitValue(s[p]));
      p := p + 1;
      more := p < |s| && IsDigit(s[p]);
    }
    RunEndIs(s, begin, p);
    next := p;
    ghost var digits := s[begin..p];
    assert digits[..|digits| - 1] == s[begin..p - 1] && digits[|digits| - 1] == s[p - 1];
    ShortRun(digits);
    var numDigits := p - begin;
    if numDigits <= 9 {
      value := word;
      return;
    }
    value := if numDigits == 10 && prev * 10 + DigitValue(s[p - 1]) <= 0x7FFF_FFFF then word else errorValue;
  }

  lemma WrapDigit(n: nat, word: int, d: int)
    requires word == n % 0x1_0000_0000 && 0 <= d <= 9
    ensures Wrap32(Wrap32(word * 10) + d) == (10 * n + d) % 0x1_0000_0000
  {
    var q, k := n / 0x1_0000_0000, word * 10 / 0x1_0000_0000;
    var low := Wrap32(word * 10);
    var t := low + d;
    DivUnique(10 * n + d, 0x1_0000_0000, 10 * q + k + t / 0x1_0000_0000, t % 0x1_0000_0000);
  }

  /** Nine digits always fit 32 bits, and so does what precedes the last of ten. */
  lemma ShortRun(digits: seq<char>)
    requires AllDigits(digits) && |digits| > 0
    ensures Number(digits) == 10 * Number(digits[..|digits| - 1]) + DigitValue(digits[|digits| - 1])
    ensures |digits| <= 9 ==> 0 <= Number(digits) <= 0x7FFF_FFFF
    ensures |digits| == 10 ==> 0 <= Number(digits[..9]) <= 0x7FFF_FFFF
    ensures 0 <= Number(digits) && 0 <= Number(digits[..|digits| - 1])
  {
    NumberBounds(digits);
    NumberBounds(digits[..|digits| - 1]);
    TenPowers();
    hide Pow;
    if |digits| <= 9 {
      PowMonotone(10, |digits|, 9);
    }
  }

  /** Reading back what was written gives the number, for every int that is not negative. */
  /** Without a needless zero at the front, the error value is all that a number beyond an int is read as. */
  lemma ReadOrTooLarge(digits: seq<char>, errorValue: int)
    requires AllDigits(digits) && digits != [] && (digits[0] == '0' ==> |digits| == 1)
    ensures ParsedInt(digits, errorValue) == if Number(digits) <= 0x7FFF_FFFF then Number(digits) else errorValue
  {
    if |digits| > 10 {
      TenPowers();
      hide Pow, Number;
      LeadingZero(digits);
      PowMonotone(10, 10, |digits| - 1);
    }
  }

  lemma RoundTrip(text: seq<char>, n: nat, errorValue: int)
    requires Denotes(text, n) && n <= 0x7FFF_FFFF
    ensures RunEnd(text, 0) == |text| && ParsedInt(text[0..RunEnd(text, 0)], errorValue) == n
  {
    assert text[0..|text|] == text;
    RunEndIs(text, 0, |text|);
    if |text| > 10 {
      TenPowers();
      hide Pow;
      PowMonotone(10, 10, |text| - 1);
    }
  }
}
