/** Products of 64-bit words put together from 32-bit halves, without losing a carry. */
module Products {
  import opened Powers
  import opened Limbs

  type Word = x: int | 0 <= x < 0x1_0000_0000_0000_0000

  datatype Wide = Wide(high: Word, low: Word)

  function Value(w: Wide): nat {
    (w.high as int) * 0x1_0000_0000_0000_0000 + w.low
  }

  /** A word is its halves, and a product of words the four products of their halves. */
  predicate HalvesOf(x: Word, hi: Limb, lo: Limb) {
    x == 0x1_0000_0000 * hi + lo
  }

  lemma Halves(x: Word)
    ensures HalvesOf(x, x / 0x1_0000_0000, x % 0x1_0000_0000)
  {
  }

  lemma ProductOfHalves(x: Word, y: Word, a: Limb, b: Limb, c: Limb, d: Limb)
    requires HalvesOf(x, a, b) && HalvesOf(y, c, d)
    ensures (x as int) * (y as int)
         == 0x1_0000_0000_0000_0000 * Half(a, c) + 0x1_0000_0000 * (Half(a, d) + Half(b, c)) + Half(b, d)
  {
    var p, q := 0x1_0000_0000 * (a as int), 0x1_0000_0000 * (c as int);
    assert (p + b) * (q + d) == p * q + p * d + b * q + b * d;
  }

  /** A product of two halves fits a word, with room for two more halves. */
  function Half(x: Limb, y: Limb): (p: int)
    ensures 0 <= p <= 0xFFFF_FFFE_0000_0001
  {
    LimbProductBound(x, y, 0, 0);
    MulMonotone(x, 0xFFFF_FFFF, y);
    (x as int) * (y as int)
  }

  /** The product divided by 2^64, rounded to nearest with ties upwards. */
  function Multiply(lhs: Word, rhs: Word): (r: Word)
    ensures r == ((lhs as int) * (rhs as int) + 0x8000_0000_0000_0000) / 0x1_0000_0000_0000_0000
  {
    var a, b := lhs / 0x1_0000_0000, lhs % 0x1_0000_0000;
    var c, d := rhs / 0x1_0000_0000, rhs % 0x1_0000_0000;
    Halves(lhs);
    Halves(rhs);
    ProductOfHalves(lhs, rhs, a, b, c, d);
    var ac, bc, ad, bd := Half(a, c), Half(b, c), Half(a, d), Half(b, d);
    RoundedSum(ac, ad, bc, bd);
    var mid := Wrap64(bd / 0x1_0000_0000 + ad % 0x1_0000_0000 + bc % 0x1_0000_0000 + 0x8000_0000);
    Wrap64(ac + ad / 0x1_0000_0000 + bc / 0x1_0000_0000 + mid / 0x1_0000_0000)
  }

  lemma RoundedSum(ac: int, ad: int, bc: int, bd: int)
    requires 0 <= ac <= 0xFFFF_FFFE_0000_0001 && 0 <= ad <= 0xFFFF_FFFE_0000_0001
    requires 0 <= bc <= 0xFFFF_FFFE_0000_0001 && 0 <= bd <= 0xFFFF_FFFE_0000_0001
    ensures var mid := bd / 0x1_0000_0000 + ad % 0x1_0000_0000 + bc % 0x1_0000_0000 + 0x8000_0000;
            var r := ac + ad / 0x1_0000_0000 + bc / 0x1_0000_0000 + mid / 0x1_0000_0000;
            && 0 <= mid < 0x1_0000_0000_0000_0000 && 0 <= r < 0x1_0000_0000_0000_0000
            && r == (0x1_0000_0000_0000_0000 * ac + 0x1_0000_0000 * (ad + bc) + bd + 0x8000_0000_0000_0000)
                    / 0x1_0000_0000_0000_0000
  {
    var mid := bd / 0x1_0000_0000 + ad % 0x1_0000_0000 + bc % 0x1_0000_0000 + 0x8000_0000;
    var r := ac + ad / 0x1_0000_0000 + bc / 0x1_0000_0000 + mid / 0x1_0000_0000;
    var rest := mid % 0x1_0000_0000 * 0x1_0000_0000 + bd % 0x1_0000_0000;
    DivUnique(0x1_0000_0000_0000_0000 * ac + 0x1_0000_0000 * (ad + bc) + bd + 0x8000_0000_0000_0000,
      0x1_0000_0000_0000_0000, r, rest);
  }

  /** The full product. */
  function Umul128(x: Word, y: Word): (w: Wide)
    ensures Value(w) == (x as int) * (y as int)
  {
    var a, b := x / 0x1_0000_0000, x % 0x1_0000_0000;
    var c, d := y / 0x1_0000_0000, y % 0x1_0000_0000;
    Halves(x);
    Halves(y);
    ProductOfHalves(x, y, a, b, c, d);
    var ac, bc, ad, bd := Half(a, c), Half(b, c), Half(a, d), Half(b, d);
    FullSum(ac, ad, bc, bd);
    var intermediate := Wrap64(bd / 0x1_0000_0000 + ad % 0x1_0000_0000 + bc % 0x1_0000_0000);
    Wide(
      Wrap64(ac + intermediate / 0x1_0000_0000 + ad / 0x1_0000_0000 + bc / 0x1_0000_0000),
      Wrap64(Wrap64(intermediate * 0x1_0000_0000) + bd % 0x1_0000_0000))
  }

  lemma FullSum(ac: int, ad: int, bc: int, bd: int)
    requires 0 <= ac <= 0xFFFF_FFFE_0000_0001 && 0 <= ad <= 0xFFFF_FFFE_0000_0001
    requires 0 <= bc <= 0xFFFF_FFFE_0000_0001 && 0 <= bd <= 0xFFFF_FFFE_0000_0001
    ensures var i := Wrap64(bd / 0x1_0000_0000 + ad % 0x1_0000_0000 + bc % 0x1_0000_0000);
            Value(Wide(
              Wrap64(ac + i / 0x1_0000_0000 + ad / 0x1_0000_0000 + bc / 0x1_0000_0000),
              Wrap64(Wrap64(i * 0x1_0000_0000) + bd % 0x1_0000_0000)))
            == 0x1_0000_0000_0000_0000 * ac + 0x1_0000_0000 * (ad + bc) + bd
  {
    var i := bd / 0x1_0000_0000 + ad % 0x1_0000_0000 + bc % 0x1_0000_0000;
    ShiftedLow(i);
  }

  lemma ShiftedLow(i: int)
    requires 0 <= i
    ensures Wrap64(i * 0x1_0000_0000) == i % 0x1_0000_0000 * 0x1_0000_0000
  {
    DivUnique(i * 0x1_0000_0000, 0x1_0000_0000_0000_0000, i / 0x1_0000_0000, i % 0x1_0000_0000 * 0x1_0000_0000);
  }

  function Umul128Upper64(x: Word, y: Word): (r: Word)
    ensures r == (x as int) * (y as int) / 0x1_0000_0000_0000_0000
  {
    var w := Umul128(x, y);
    DivUnique((x as int) * (y as int), 0x1_0000_0000_0000_0000, w.high, w.low);
    w.high
  }

  /** Adds a word, passing the carry of the low word on to the high one, modulo 2^128. */
  function AddWord(w: Wide, n: Word): (r: Wide)
    ensures Value(r) == (Value(w) + n) % 0x1_0000_0000_0000_0000_0000_0000_0000_0000
  {
    CarryIntoHigh(w.high, w.low, n);
    var sum := Wrap64(w.low + n);
    Wide(Wrap64(w.high + (if sum < w.low then 1 else 0)), sum)
  }

  lemma CarryIntoHigh(high: Word, low: Word, n: Word)
    ensures var sum := Wrap64(low + n); var h := Wrap64(high + (if sum < low then 1 else 0));
            sum + 0x1_0000_0000_0000_0000 * h
            == (low + 0x1_0000_0000_0000_0000 * high + n) % 0x1_0000_0000_0000_0000_0000_0000_0000_0000
  {
    var m := 0x1_0000_0000_0000_0000;
    if low + n < m {
      assert Wrap64(low + n) == low + n && Wrap64(high + 0) == high;
    } else {
      assert Wrap64(low + n) == low + n - m;
      assert Wrap64(high + 1) == if high + 1 == m then 0 else high + 1;
      assert low + n - m + m * (high + 1) == low + m * high + n;
    }
  }

  lemma AddWithoutWrap(w: Wide, n: Word)
    requires Value(w) + n < 0x1_0000_0000_0000_0000_0000_0000_0000_0000
    ensures Value(AddWord(w, n)) == Value(w) + n
  {
    hide AddWord;
  }

  /** The upper 64 of the 192 bits of a product. */
  function Umul192Upper64(x: Word, y: Wide): (r: Word)
    ensures r == (x as int) * Value(y) / 0x1_0000_0000_0000_0000_0000_0000_0000_0000
  {
    var g0 := Umul128(x, y.high);
    var carry := Umul128Upper64(x, y.low);
    WideProductBound(x, y.high, carry);
    UpperOfThree(x, y, carry);
    AddWithoutWrap(g0, carry);
    AddWord(g0, carry).high
  }

  lemma WideProductBound(x: Word, y: Word, n: Word)
    ensures 0 <= (x as int) * (y as int) && (x as int) * (y as int) + n < 0x1_0000_0000_0000_0000_0000_0000_0000_0000
  {
    MulMonotone(0, x, y);
    MulMonotone(x, 0xFFFF_FFFF_FFFF_FFFF, y);
    assert (x as int) * (y as int) <= 0xFFFF_FFFF_FFFF_FFFF * (y as int);
  }

  /** The product split at its 64-bit and 128-bit places. */
  lemma UpperOfThree(x: Word, y: Wide, carry: Word)
    requires carry == (x as int) * (y.low as int) / 0x1_0000_0000_0000_0000
    ensures var sum := (x as int) * (y.high as int) + carry;
            && (x as int) * Value(y) / 0x1_0000_0000_0000_0000 == sum
            && (x as int) * Value(y) / 0x1_0000_0000_0000_0000_0000_0000_0000_0000 == sum / 0x1_0000_0000_0000_0000
    ensures forall w: Wide :: Value(w) == (x as int) * (y.high as int) + carry ==>
              w.high == ((x as int) * (y.high as int) + carry) / 0x1_0000_0000_0000_0000
  {
    var p, q := (x as int) * (y.high as int), (x as int) * (y.low as int);
    assert (x as int) * Value(y) == p * 0x1_0000_0000_0000_0000 + q;
    MulMonotone(0, x, y.low);
    ThreeParts(p, q);
  }

  lemma ThreeParts(p: int, q: int)
    requires 0 <= q
    ensures var m := 0x1_0000_0000_0000_0000; var sum := p + q / m;
            && (p * m + q) / m == sum
            && (p * m + q) / 0x1_0000_0000_0000_0000_0000_0000_0000_0000 == sum / m
  {
    var m := 0x1_0000_0000_0000_0000;
    var sum := p + q / m;
    DivUnique(p * m + q, m, sum, q % m);
    DivUnique(p * m + q, 0x1_0000_0000_0000_0000_0000_0000_0000_0000, sum / m, sum % m * m + q % m);
  }

  /** The middle 64 of the 192 bits of a product. */
  function Umul192Middle64(x: Word, y: Wide): (r: Word)
    ensures r == (x as int) * Value(y) / 0x1_0000_0000_0000_0000 % 0x1_0000_0000_0000_0000
  {
    var g01 := Wrap64((x as int) * (y.high as int));
    var g10 := Umul128Upper64(x, y.low);
    UpperOfThree(x, y, g10);
    WrapSum((x as int) * (y.high as int), g10);
    Wrap64(g01 + g10)
  }

  lemma WrapSum(a: int, b: int)
    ensures Wrap64(Wrap64(a) + b) == (a + b) % 0x1_0000_0000_0000_0000
  {
    var m := 0x1_0000_0000_0000_0000;
    var l := a % m + b;
    DivUnique(a + b, m, a / m + l / m, l % m);
  }
}
