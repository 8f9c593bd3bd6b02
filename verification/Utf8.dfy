/** UTF-8 (section 3 of RFC 3629): the encoder loop and the branchless block decoder. */
module Utf8 {
  import opened Common
  import opened Powers

  predicate IsScalar(c: int) {
    0 <= c <= 0xD7FF || 0xE000 <= c <= 0x10FFFF
  }

  // ----- encoding -----

  /** The bytes of one scalar value; marker and payload share no bits, so joining them is adding. */
  function Encode(c: int): (b: seq<Byte>)
    requires IsScalar(c)
    ensures 1 <= |b| <= 4
  {
    if c < 0x80 then [c]
    else if c < 0x800 then [0xC0 + c / 64, 0x80 + c % 64]
    else if c < 0x10000 then [0xE0 + c / 4096, 0x80 + c % 4096 / 64, 0x80 + c % 64]
    else [0xF0 + c / 0x40000, 0x80 + c % 0x40000 / 4096, 0x80 + c % 4096 / 64, 0x80 + c % 64]
  }

  predicate AllScalar(v: seq<int>) {
    forall i :: 0 <= i < |v| ==> IsScalar(v[i])
  }

  function EncodeAll(v: seq<int>): seq<Byte>
    requires AllScalar(v)
  {
    if v == [] then [] else EncodeAll(v[..|v| - 1]) + Encode(v[|v| - 1])
  }

  datatype Scalars = Invalid | Valid(v: seq<int>)

  /** Two 16-bit units that together stand for one scalar value. */
  predicate SurrogatePair(hi: int, lo: int) {
    0xD800 <= hi < 0xDC00 && 0xDC00 <= lo < 0xE000
  }

  function Joined(hi: int, lo: int): int {
    hi * 1024 + lo - 0x35FDC00
  }

  lemma JoinedIsScalar(hi: int, lo: int)
    requires SurrogatePair(hi, lo)
    ensures 0x10000 <= Joined(hi, lo) <= 0x10FFFF
    ensures Joined(hi, lo) == 0x10000 + (hi - 0xD800) * 0x400 + (lo - 0xDC00)
  {
  }

  lemma PairIs(hi: int, lo: int)
    ensures hi * 1024 + lo - 0x35FDC00 == Joined(hi, lo)
  {
  }

  /** The scalar values that code units denote: one each, or pairs of surrogates among 16-bit units. */
  function ScalarsOf(units: seq<nat>, wide16: bool, i: nat): Scalars
    requires i <= |units|
    decreases |units| - i
  {
    if i == |units| then Valid([])
    else
      var pair := wide16 && 0xD800 <= units[i] <= 0xDFFF;
      if pair && (i + 1 == |units| || !SurrogatePair(units[i], units[i + 1])) then Invalid
      else
        var c := if pair then Joined(units[i], units[i + 1]) else units[i];
        if !IsScalar(c) then Invalid
        else
          match ScalarsOf(units, wide16, if pair then i + 2 else i + 1)
          case Invalid => Invalid
          case Valid(rest) => Valid([c] + rest)
  }

  /** One turn of the encoder: pushes the bytes of c, or refuses a surrogate or too large a value. */
  method AppendUtf8(str: seq<Byte>, c: int) returns (ok: bool, str': seq<Byte>)
    requires c >= 0
    ensures ok <==> c <= 0xD7FF || 0xE000 <= c <= 0x10FFFF
    ensures ok <==> IsScalar(c)
    ensures ok ==> str' == str + Encode(c)
  {
    ok, str' := true, str;
    if c < 0x80 {
      str' := str' + [c];
    } else if c < 0x800 {
      str' := str' + [0xC0 + c / 64];
      str' := str' + [0x80 + c % 64];
    } else if 0x800 <= c <= 0xD7FF || 0xE000 <= c <= 0xFFFF {
      str' := str' + [0xE0 + c / 4096];
      str' := str' + [0x80 + c % 4096 / 64];
      str' := str' + [0x80 + c % 64];
    } else if 0x10000 <= c <= 0x10FFFF {
      str' := str' + [0xF0 + c / 0x40000];
      str' := str' + [0x80 + c % 0x40000 / 4096];
      str' := str' + [0x80 + c % 4096 / 64];
      str' := str' + [0x80 + c % 64];
    } else {
      ok := false;
    }
  }

  /** The values read so far, followed by what the rest gives, are the whole. */
  predicate ReadSoFar(done: seq<int>, rest: Scalars, whole: Scalars) {
    match rest
    case Invalid => whole == Invalid
    case Valid(v) => whole == Valid(done + v)
  }

  lemma ReadNothing(whole: Scalars)
    ensures ReadSoFar([], whole, whole)
  {
    assert whole.Valid? ==> [] + whole.v == whole.v;
  }

  lemma ReadMore(done: seq<int>, c: int, rest: Scalars, whole: Scalars)
    requires ReadSoFar(done, if rest.Invalid? then Invalid else Valid([c] + rest.v), whole) || !IsScalar(c)
    ensures IsScalar(c) ==> ReadSoFar(done + [c], rest, whole)
  {
    assert rest.Valid? ==> done + ([c] + rest.v) == (done + [c]) + rest.v;
  }

  lemma ReadFailure(done: seq<int>, whole: Scalars)
    ensures ReadSoFar(done, Invalid, whole) ==> whole == Invalid
  {
  }

  lemma ReadNothingMore(done: seq<int>, whole: Scalars)
    ensures ReadSoFar(done, Valid([]), whole) ==> whole == Valid(done)
  {
    assert done + [] == done;
  }

  // ----- what code units stand for -----

  /** The 16-bit units of a scalar value: one, or a surrogate pair (section 3.9 of the Unicode standard). */
  function UnitsOf(c: int): (u: seq<nat>)
    requires IsScalar(c)
  {
    if c < 0x10000 then [c] else [0xD800 + (c - 0x10000) / 0x400, 0xDC00 + (c - 0x10000) % 0x400]
  }

  /** The UTF-16 writing of scalar values. */
  function Utf16(v: seq<int>): seq<nat>
    requires AllScalar(v)
  {
    if v == [] then [] else UnitsOf(v[0]) + Utf16(v[1..])
  }

  predicate Writes16(v: seq<int>, units: seq<nat>) {
    AllScalar(v) && units == Utf16(v)
  }

  predicate Units16(units: seq<nat>) {
    forall i :: 0 <= i < |units| ==> units[i] < 0x10000
  }

  /** Units of any other width stand for themselves. */
  lemma {:induction false} WideUnits(units: seq<nat>, i: nat)
    requires i <= |units|
    ensures ScalarsOf(units, false, i) == if AllScalar(units[i..]) then Valid(units[i..]) else Invalid
    decreases |units| - i
  {
    if i < |units| {
      WideUnits(units, i + 1);
      hide IsScalar;
      assert units[i..] == [units[i]] + units[i + 1..];
      assert AllScalar(units[i..]) <==> IsScalar(units[i]) && AllScalar(units[i + 1..]);
    }
  }

  lemma PairOf(c: int)
    requires 0x10000 <= c <= 0x10FFFF
    ensures var u := UnitsOf(c); |u| == 2 && SurrogatePair(u[0], u[1]) && Joined(u[0], u[1]) == c
  {
    JoinedIsScalar(UnitsOf(c)[0], UnitsOf(c)[1]);
  }

  lemma UnitsOfPair(hi: int, lo: int)
    requires SurrogatePair(hi, lo)
    ensures IsScalar(Joined(hi, lo)) && UnitsOf(Joined(hi, lo)) == [hi, lo]
  {
    JoinedIsScalar(hi, lo);
    DivUnique(Joined(hi, lo) - 0x10000, 0x400, hi - 0xD800, lo - 0xDC00);
  }

  lemma FirstUnits(units: seq<nat>, i: nat, c: int, rest: seq<nat>)
    requires i <= |units| && IsScalar(c) && units[i..] == UnitsOf(c) + rest
    ensures i + |UnitsOf(c)| <= |units| && units[i + |UnitsOf(c)|..] == rest
    ensures forall k :: 0 <= k < |UnitsOf(c)| ==> units[i + k] == UnitsOf(c)[k]
  {
    hide UnitsOf;
    assert units[i..][|UnitsOf(c)|..] == rest;
    assert forall k :: 0 <= k < |UnitsOf(c)| ==> units[i..][k] == units[i + k];
  }

  /** The writing of scalar values is read as those values. */
  lemma {:induction false} WritingRead(units: seq<nat>, i: nat, v: seq<int>)
    requires i <= |units| && AllScalar(v) && units[i..] == Utf16(v)
    ensures ScalarsOf(units, true, i) == Valid(v)
    decreases |v|
  {
    if v != [] {
      var c := v[0];
      FirstUnits(units, i, c, Utf16(v[1..]));
      WritingRead(units, i + |UnitsOf(c)|, v[1..]);
      if c >= 0x10000 {
        PairOf(c);
      }
      hide Joined, SurrogatePair;
      assert [c] + v[1..] == v;
    }
  }

  /** Whatever is read without failure is the writing of the values it is read as. */
  lemma {:induction false} ReadIsWriting(units: seq<nat>, i: nat)
    requires i <= |units| && Units16(units) && ScalarsOf(units, true, i).Valid?
    ensures Writes16(ScalarsOf(units, true, i).v, units[i..])
    decreases |units| - i
  {
    if i < |units| {
      var pair := 0xD800 <= units[i] <= 0xDFFF;
      var j := if pair then i + 2 else i + 1;
      ReadIsWriting(units, j);
      if pair {
        UnitsOfPair(units[i], units[i + 1]);
      }
      var v := ScalarsOf(units, true, i).v;
      assert v[1..] == ScalarsOf(units, true, j).v;
      hide Joined, SurrogatePair, ScalarsOf;
      assert units[i..] == units[i..j] + units[j..];
      assert units[i..j] == UnitsOf(v[0]);
    }
  }

  /** Reading 16-bit units gives v exactly when they are the writing of v. */
  lemma ReadsExactly(units: seq<nat>, v: seq<int>)
    requires Units16(units)
    ensures ScalarsOf(units, true, 0) == Valid(v) <==> Writes16(v, units)
  {
    hide ScalarsOf, Utf16;
    assert units[0..] == units;
    if ScalarsOf(units, true, 0) == Valid(v) {
      ReadIsWriting(units, 0);
    }
    if Writes16(v, units) {
      WritingRead(units, 0, v);
    }
  }

  datatype Encoded = Failed | Bytes(b: seq<Byte>)

  /** The loop of do_write: code units in, bytes out, or an error. */
  method EncodeUnits(units: seq<nat>, wide16: bool) returns (r: Encoded)
    ensures r.Failed? <==> ScalarsOf(units, wide16, 0).Invalid?
    ensures r.Bytes? ==> AllScalar(ScalarsOf(units, wide16, 0).v) && r.b == EncodeAll(ScalarsOf(units, wide16, 0).v)
    ensures !wide16 ==> r == if AllScalar(units) then Bytes(EncodeAll(units)) else Failed
    ensures wide16 && Units16(units) ==>
              && (forall v :: AllScalar(v) ==> (Writes16(v, units) <==> r == Bytes(EncodeAll(v))))
              && (r.Failed? <==> forall v :: !Writes16(v, units))
  {
    hide *;
    ReadNothing(ScalarsOf(units, wide16, 0));
    NothingEncoded(units, wide16);
    var str: seq<Byte> := [];
    ghost var done: seq<int> := [];
    var p := 0;
    while p != |units|
      invariant p <= |units| && AllScalar(done) && str == EncodeAll(done)
      invariant ReadSoFar(done, ScalarsOf(units, wide16, p), ScalarsOf(units, wide16, 0))
      decreases |units| - p
    {
      var c := units[p];
      NextScalar(units, wide16, p);
      ReadFailure(done, ScalarsOf(units, wide16, 0));
      if wide16 && 0xD800 <= c <= 0xDFFF {
        p := p + 1;
        if p == |units| || !SurrogatePair(c, units[p]) {
          ResultMeans(units, wide16, Failed);
          return Failed;
        }
        JoinedIsScalar(c, units[p]);
        PairIs(c, units[p]);
        c := c * 1024 + units[p] - 0x35FDC00;
      }
      ReadMore(done, c, ScalarsOf(units, wide16, p + 1), ScalarsOf(units, wide16, 0));
      var ok;
      ok, str := AppendUtf8(str, c);
      if !ok {
        ResultMeans(units, wide16, Failed);
        return Failed;
      }
      MoreEncoded(done, c);
      done := done + [c];
      p := p + 1;
    }
    ReadNothingMore(done, ScalarsOf(units, wide16, 0));
    r := Bytes(str);
    ResultMeans(units, wide16, r);
  }

  /** The reading at p: a failure, or one value and the reading behind it. */
  lemma NextScalar(units: seq<nat>, wide16: bool, p: nat)
    requires p < |units|
    ensures var pair := wide16 && 0xD800 <= units[p] <= 0xDFFF;
            && (pair && (p + 1 == |units| || !SurrogatePair(units[p], units[p + 1])) ==>
                  ScalarsOf(units, wide16, p) == Invalid)
            && (!pair || (p + 1 < |units| && SurrogatePair(units[p], units[p + 1])) ==>
                  var c := if pair then Joined(units[p], units[p + 1]) else units[p];
                  var rest := ScalarsOf(units, wide16, if pair then p + 2 else p + 1);
                  ScalarsOf(units, wide16, p)
                  == if !IsScalar(c) || rest.Invalid? then Invalid else Valid([c] + rest.v))
  {
    hide Joined, SurrogatePair, IsScalar;
  }

  lemma NothingEncoded(units: seq<nat>, wide16: bool)
    ensures AllScalar([]) && EncodeAll([]) == [] && ScalarsOf(units, wide16, |units|) == Valid([])
  {
  }

  lemma MoreEncoded(done: seq<int>, c: int)
    requires AllScalar(done) && IsScalar(c)
    ensures AllScalar(done + [c]) && EncodeAll(done + [c]) == EncodeAll(done) + Encode(c)
  {
    hide Encode, IsScalar;
    assert (done + [c])[..|done|] == done;
  }

  /** What the encoder's result says about the units, given what it says about their reading. */
  lemma ResultMeans(units: seq<nat>, wide16: bool, r: Encoded)
    requires r.Failed? <==> ScalarsOf(units, wide16, 0).Invalid?
    requires r.Bytes? ==> AllScalar(ScalarsOf(units, wide16, 0).v) && r.b == EncodeAll(ScalarsOf(units, wide16, 0).v)
    ensures !wide16 ==> r == if AllScalar(units) then Bytes(EncodeAll(units)) else Failed
    ensures wide16 && Units16(units) ==>
              && (forall v :: AllScalar(v) ==> (Writes16(v, units) <==> r == Bytes(EncodeAll(v))))
              && (r.Failed? <==> forall v :: !Writes16(v, units))
  {
    hide ScalarsOf, EncodeAll, Units16, Utf16, IsScalar;
    if !wide16 {
      assert units[0..] == units;
      WideUnits(units, 0);
    } else if Units16(units) {
      forall v | AllScalar(v)
        ensures Writes16(v, units) <==> r == Bytes(EncodeAll(v))
      {
        ReadsExactly(units, v);
        if r == Bytes(EncodeAll(v)) {
          EncodeInjective(v, ScalarsOf(units, true, 0).v);
        }
      }
      forall v
        ensures Writes16(v, units) ==> r.Bytes?
      {
        ReadsExactly(units, v);
      }
      if r.Bytes? {
        ReadsExactly(units, ScalarsOf(units, true, 0).v);
      }
    }
  }

  // ----- decoding -----

  /** code_point_length: the table by the five top bits of the lead byte, with one for its zeros. */
  function CodePointLength(b: Byte): (len: nat)
    ensures 1 <= len <= 4
  {
    if b < 0xC0 then 1 else if b < 0xE0 then 2 else if b < 0xF0 then 3 else if b < 0xF8 then 4 else 1
  }

  /** Lead bytes that begin no sequence; the length table calls them one byte long all the same. */
  predicate InvalidLead(b: Byte) {
    0x80 <= b < 0xC0 || b >= 0xF8
  }

  /** By sequence length: one more than the mask of the lead byte's payload, and the least value. */
  function Payload(len: nat): nat {
    if len == 1 then 0x80 else if len == 2 then 0x20 else if len == 3 then 0x10 else 0x08
  }

  function Min(len: nat): nat {
    if len == 1 then 0 else if len == 2 then 128 else if len == 3 then 2048 else 65536
  }

  /** The payload bits of a lead byte and of a tail byte. */
  function Lead(b: Byte, len: nat): int {
    b % Payload(len)
  }

  function Low6(b: Byte): (x: int)
    ensures 0 <= x < 64
  {
    b % 64
  }

  /** Two bits exclusive-or binary 10: zero exactly for the top bits of a tail byte. */
  function TailBits(b: Byte): (x: int)
    ensures 0 <= x <= 3 && (x == 0 <==> 0x80 <= b < 0xC0)
  {
    var top := b / 64;
    if top >= 2 then top - 2 else top + 2
  }

  function Bit(b: bool): int {
    if b then 1 else 0
  }

  datatype Decoding = Decoding(cp: int, error: int, length: nat)

  /** utf8_decode on the four bytes it always reads; masking and shifting are written as arithmetic. */
  function DecodeBlock(s: seq<Byte>): (d: Decoding)
    requires |s| == 4
    ensures d.length == CodePointLength(s[0])
  {
    var len := CodePointLength(s[0]);
    var cp := ShiftOut64(Lead(s[0], len), Low6(s[1]), Low6(s[2]), Low6(s[3]), len);
    var high := Bit(cp < Min(len)) + Bit(cp / 2048 == 0x1B) * 2 + Bit(cp > 0x10FFFF) * 4;
    Decoding(cp, ShiftOut4(high, TailBits(s[1]), TailBits(s[2]), TailBits(s[3]), len), len)
  }

  /** Four fields of six bits, from which those beyond the length are shifted out. */
  function ShiftOut64(x: int, a: int, b: int, c: int, len: nat): (r: int)
    requires 0 <= a < 64 && 0 <= b < 64 && 0 <= c < 64 && 1 <= len <= 4
    ensures r == if len == 1 then x else if len == 2 then x * 64 + a
                 else if len == 3 then (x * 64 + a) * 64 + b else ((x * 64 + a) * 64 + b) * 64 + c
  {
    var all := ((x * 64 + a) * 64 + b) * 64 + c;
    if len == 1 then all / 0x40000 else if len == 2 then all / 4096 else if len == 3 then all / 64 else all
  }

  /** The same with fields of two bits. */
  function ShiftOut4(x: int, a: int, b: int, c: int, len: nat): (r: int)
    requires 0 <= a < 4 && 0 <= b < 4 && 0 <= c < 4 && 1 <= len <= 4
    ensures r == if len == 1 then x else if len == 2 then x * 4 + a
                 else if len == 3 then (x * 4 + a) * 4 + b else ((x * 4 + a) * 4 + b) * 4 + c
  {
    var all := ((x * 4 + a) * 4 + b) * 4 + c;
    if len == 1 then all / 64 else if len == 2 then all / 16 else if len == 3 then all / 4 else all
  }

  /** The first four bytes, with zeros after the end of the data. */
  function Block(s: seq<Byte>): (b: seq<Byte>)
    ensures |b| == 4
  {
    if |s| >= 4 then s[..4] else s + seq(4 - |s|, _ => 0)
  }

  datatype Callback = Callback(cp: int, error: int)

  /** The calls that a byte string gives rise to, decoded one after the other. */
  function Calls(s: seq<Byte>): seq<Callback>
    decreases |s|
  {
    if s == [] then []
    else
      var d := DecodeBlock(Block(s));
      [Callback(d.cp, d.error)] + Calls(if d.length <= |s| then s[d.length..] else [])
  }

  /** The whole block loop and the zero-padded tail, with every read inside the data or the buffer. */
  method ForEachCodepoint(s: seq<Byte>) returns (calls: seq<Callback>)
    ensures calls == Calls(s)
  {
    hide DecodeBlock, CalledSoFar, Block, Calls;
    CalledNothing(s);
    calls := [];
    var p := 0;
    if |s| >= 4 {
      var end := |s| - 3;
      while p < end
        invariant 0 <= p <= |s| && CalledSoFar(calls, s[p..], s)
      {
        var d := DecodeBlock(s[p..p + 4]);
        WholeBlock(s, p, d.length);
        CalledMore(calls, s[p..], s);
        calls := calls + [Callback(d.cp, d.error)];
        p := p + d.length;
      }
    }
    var left := |s| - p;
    if left != 0 {
      var buf := s[p..] + seq(7 - left, _ => 0);
      ghost var rest := s[p..];
      var q := 0;
      var more := true;
      // do { ... } while (more)
      while more
        invariant 0 <= q <= left + 3 && (more ==> q < left) && (!more ==> q >= left)
        invariant CalledSoFar(calls, if q <= left then rest[q..] else [], s)
        decreases left + 4 - q, more
      {
        var d := DecodeBlock(buf[q..q + 4]);
        PaddedBlock(rest, buf, q);
        CalledMore(calls, rest[q..], s);
        RestAfter(rest, q, d.length);
        calls := calls + [Callback(d.cp, d.error)];
        q := q + d.length;
        more := q < left;
      }
      assert (if q <= left then rest[q..] else []) == [];
    } else {
      assert s[p..] == [];
    }
    CalledAll(calls, s);
  }

  lemma WholeBlock(s: seq<Byte>, p: nat, n: nat)
    requires p + 4 <= |s| && n <= 4
    ensures Block(s[p..]) == s[p..p + 4] && s[p..][n..] == s[p + n..]
  {
    assert s[p..][..4] == s[p..p + 4];
  }

  lemma RestAfter(rest: seq<Byte>, q: nat, n: nat)
    requires q <= |rest|
    ensures n <= |rest[q..]| ==> rest[q..][n..] == rest[q + n..]
  {
  }

  lemma PaddedBlock(rest: seq<Byte>, buf: seq<Byte>, q: nat)
    requires q < |rest| < 4 && buf == rest + seq(7 - |rest|, _ => 0)
    ensures Block(rest[q..]) == buf[q..q + 4]
  {
  }

  predicate CalledSoFar(calls: seq<Callback>, rest: seq<Byte>, s: seq<Byte>) {
    calls + Calls(rest) == Calls(s)
  }

  lemma CalledNothing(s: seq<Byte>)
    ensures CalledSoFar([], s, s) && s[0..] == s
  {
  }

  lemma CalledMore(calls: seq<Callback>, rest: seq<Byte>, s: seq<Byte>)
    requires rest != [] && CalledSoFar(calls, rest, s)
    ensures var d := DecodeBlock(Block(rest));
            CalledSoFar(calls + [Callback(d.cp, d.error)], if d.length <= |rest| then rest[d.length..] else [], s)
  {
    hide DecodeBlock;
    NextCall(rest);
  }

  lemma CalledAll(calls: seq<Callback>, s: seq<Byte>)
    ensures CalledSoFar(calls, [], s) ==> calls == Calls(s)
  {
    assert calls + [] == calls;
  }

  lemma NextCall(s: seq<Byte>)
    requires s != []
    ensures var d := DecodeBlock(Block(s));
            Calls(s) == [Callback(d.cp, d.error)] + Calls(if d.length <= |s| then s[d.length..] else [])
  {
  }

  // ----- the round trip -----

  /** No error: the value is in range and not a surrogate, and the tail bytes are tail bytes. */
  lemma NoError(s: seq<Byte>)
    requires |s| == 4
    ensures var d := DecodeBlock(s);
            d.error == 0 <==> Min(d.length) <= d.cp && IsScalar(d.cp)
                              && forall i :: 1 <= i < d.length ==> 0x80 <= s[i] < 0xC0
  {
    var d := DecodeBlock(s);
    hide ShiftOut64, ShiftOut4, CodePointLength;
    assert d.length == 1 || d.length == 2 || d.length == 3 || d.length == 4;
  }

  lemma PayloadOf(s: seq<Byte>)
    requires |s| == 4
    ensures var d := DecodeBlock(s);
            && (d.length == 1 ==> d.cp == Lead(s[0], 1))
            && (d.length == 2 ==> d.cp == Lead(s[0], 2) * 64 + Low6(s[1]))
            && (d.length == 3 ==> d.cp == (Lead(s[0], 3) * 64 + Low6(s[1])) * 64 + Low6(s[2]))
            && (d.length == 4 ==> d.cp == ((Lead(s[0], 4) * 64 + Low6(s[1])) * 64 + Low6(s[2])) * 64 + Low6(s[3]))
  {
    hide ShiftOut64, ShiftOut4, CodePointLength, Lead, Low6;
  }

  /** The bits of a scalar value, taken apart by the encoder, join again. */
  lemma EncodedParts(c: int)
    requires IsScalar(c)
    ensures var b := Encode(c);
            && CodePointLength(b[0]) == |b|
            && (forall i :: 1 <= i < |b| ==> 0x80 <= b[i] < 0xC0)
            && Min(|b|) <= c
            && (|b| == 1 ==> c == Lead(b[0], 1))
            && (|b| == 2 ==> c == Lead(b[0], 2) * 64 + Low6(b[1]))
            && (|b| == 3 ==> c == (Lead(b[0], 3) * 64 + Low6(b[1])) * 64 + Low6(b[2]))
            && (|b| == 4 ==> c == ((Lead(b[0], 4) * 64 + Low6(b[1])) * 64 + Low6(b[2])) * 64 + Low6(b[3]))
  {
    hide CodePointLength, Lead, Low6;
    if c < 0x80 {
      OnePart(c);
    } else if c < 0x800 {
      TwoParts(c);
    } else if c < 0x10000 {
      ThreeParts(c);
    } else {
      FourParts(c);
    }
  }

  lemma OnePart(c: int)
    requires 0 <= c < 0x80
    ensures Lead(c, 1) == c && CodePointLength(c) == 1
  {
  }

  lemma TwoParts(c: int)
    requires 0x80 <= c < 0x800
    ensures Lead(0xC0 + c / 64, 2) == c / 64 && Low6(0x80 + c % 64) == c % 64
    ensures CodePointLength(0xC0 + c / 64) == 2
  {
  }

  lemma ThreeParts(c: int)
    requires 0x800 <= c < 0x10000
    ensures Lead(0xE0 + c / 4096, 3) == c / 4096 && Low6(0x80 + c % 4096 / 64) == c % 4096 / 64
    ensures Low6(0x80 + c % 64) == c % 64 && CodePointLength(0xE0 + c / 4096) == 3
    ensures c == (c / 4096 * 64 + c % 4096 / 64) * 64 + c % 64
  {
    Fields(c / 4096, c % 4096 / 64, c % 4096 % 64);
  }

  lemma FourParts(c: int)
    requires 0x10000 <= c < 0x110000
    ensures Lead(0xF0 + c / 0x40000, 4) == c / 0x40000 && Low6(0x80 + c % 0x40000 / 4096) == c % 0x40000 / 4096
    ensures Low6(0x80 + c % 4096 / 64) == c % 4096 / 64 && Low6(0x80 + c % 64) == c % 64
    ensures CodePointLength(0xF0 + c / 0x40000) == 4
    ensures c == ((c / 0x40000 * 64 + c % 0x40000 / 4096) * 64 + c % 4096 / 64) * 64 + c % 64
  {
    var r := c % 0x40000;
    Fields(c / 0x40000 * 64 + r / 4096, r % 4096 / 64, r % 4096 % 64);
  }

  /** The fields of a number to the base 64, read off by division. */
  lemma Fields(x: int, b: int, c: int)
    requires 0 <= x && 0 <= b < 64 && 0 <= c < 64
    ensures var v := (x * 64 + b) * 64 + c;
            v / 4096 == x && v % 4096 == b * 64 + c && v % 4096 / 64 == b && v % 64 == c
  {
    var v := (x * 64 + b) * 64 + c;
    DivUnique(v, 4096, x, b * 64 + c);
    DivUnique(v, 64, x * 64 + b, c);
    DivUnique(b * 64 + c, 64, b, c);
  }

  lemma HighField(x: int, a: int, r: int)
    requires 0 <= x && 0 <= a < 64 && 0 <= r < 4096
    ensures var v := (x * 64 + a) * 4096 + r; v / 0x40000 == x && v % 0x40000 / 4096 == a
  {
    var v := (x * 64 + a) * 4096 + r;
    DivUnique(v, 0x40000, x, a * 4096 + r);
    DivUnique(a * 4096 + r, 4096, a, r);
  }

  /** A block that begins with the bytes of a scalar value decodes to it without error. */
  lemma DecodeEncoded(c: int, s: seq<Byte>)
    requires IsScalar(c) && |s| == 4 && Encode(c) <= s
    ensures DecodeBlock(s) == Decoding(c, 0, |Encode(c)|)
  {
    var b := Encode(c);
    assert forall i :: 0 <= i < |b| ==> s[i] == b[i];
    EncodedParts(c);
    PayloadOf(s);
    NoError(s);
    hide DecodeBlock, Encode, Lead, Low6;
  }

  /** The calls for values that were read without error. */
  function Accepted(v: seq<int>): seq<Callback> {
    if v == [] then [] else Accepted(v[..|v| - 1]) + [Callback(v[|v| - 1], 0)]
  }

  lemma {:induction false} AcceptedAt(v: seq<int>)
    ensures |Accepted(v)| == |v| && forall i :: 0 <= i < |v| ==> Accepted(v)[i] == Callback(v[i], 0)
  {
    if v == [] {
    } else {
      AcceptedAt(v[..|v| - 1]);
    }
  }

  lemma EncodedCalls(c: int, rest: seq<Byte>)
    requires IsScalar(c)
    ensures Calls(Encode(c) + rest) == [Callback(c, 0)] + Calls(rest)
  {
    hide DecodeBlock, Encode, Calls;
    var b := Encode(c);
    assert b <= Block(b + rest);
    DecodeEncoded(c, Block(b + rest));
    NextCall(b + rest);
    assert (b + rest)[|b|..] == rest;
  }

  /** Reading back what was encoded calls back exactly the encoded values, all without error. */
  lemma {:induction false} RoundTrip(v: seq<int>, rest: seq<Byte>)
    requires AllScalar(v)
    ensures Calls(EncodeAll(v) + rest) == Accepted(v) + Calls(rest)
  {
    hide DecodeBlock, Encode, Calls;
    if v == [] {
      assert EncodeAll(v) + rest == rest;
    } else {
      var k := |v| - 1;
      var b := Encode(v[k]);
      assert EncodeAll(v) + rest == EncodeAll(v[..k]) + (b + rest);
      RoundTrip(v[..k], b + rest);
      EncodedCalls(v[k], rest);
    }
  }

  /** Different values have different encodings. */
  lemma EncodeInjective(v: seq<int>, w: seq<int>)
    requires AllScalar(v) && AllScalar(w) && EncodeAll(v) == EncodeAll(w)
    ensures v == w
  {
    hide Calls, EncodeAll, Accepted;
    CalledBack(v);
    CalledBack(w);
    AcceptedAt(v);
    AcceptedAt(w);
    assert forall i :: 0 <= i < |v| ==> Accepted(v)[i] == Accepted(w)[i];
  }

  /** The decoder calls back exactly the encoded values, all without error. */
  lemma CalledBack(v: seq<int>)
    requires AllScalar(v)
    ensures Calls(EncodeAll(v)) == Accepted(v)
  {
    RoundTrip(v, []);
    assert EncodeAll(v) + [] == EncodeAll(v) && Calls([]) == [] && Accepted(v) + [] == Accepted(v);
  }

  // ----- any bytes -----

  /** The call for the code point that begins at an offset. */
  function CallAt(s: seq<Byte>, offset: nat): Callback
    requires offset <= |s|
  {
    var d := DecodeBlock(Block(s[offset..]));
    Callback(d.cp, d.error)
  }

  /** One call for each offset, the offsets following one another by the lengths of the lead bytes. */
  predicate Covers(offsets: seq<nat>, calls: seq<Callback>, s: seq<Byte>) {
    && |offsets| == |calls| > 0 && offsets[0] == 0
    && (forall i :: 0 <= i < |offsets| ==> offsets[i] < |s| && calls[i] == CallAt(s, offsets[i]))
    && (forall i :: 0 < i < |offsets| ==> offsets[i] == offsets[i - 1] + CodePointLength(s[offsets[i - 1]]))
    && offsets[|offsets| - 1] + CodePointLength(s[offsets[|offsets| - 1]]) >= |s|
  }

  /**
   * Whatever the bytes are, there is one call for each code point, at offsets that follow one another
   * by the lengths of the lead bytes from the beginning of the data to its end, errors or not.
   */
  lemma {:induction false} CallsCover(s: seq<Byte>) returns (offsets: seq<nat>)
    requires s != []
    ensures Covers(offsets, Calls(s), s)
    decreases |s|
  {
    hide DecodeBlock, CodePointLength, Calls, Covers;
    NextCall(s);
    FirstLength(s);
    var n := CodePointLength(s[0]);
    assert s[0..] == s;
    if n >= |s| {
      assert n == |s| ==> s[n..] == [];
      NoCalls();
      offsets := [0];
      assert Calls(s) == [CallAt(s, 0)];
      CoverOne(s);
    } else {
      var later := CallsCover(s[n..]);
      offsets := [0] + Shifted(n, later);
      CoverMore(s, n, later, Calls(s[n..]));
    }
  }

  function Shifted(n: nat, offsets: seq<nat>): (r: seq<nat>)
    ensures |r| == |offsets| && forall i :: 0 <= i < |r| ==> r[i] == n + offsets[i]
  {
    seq(|offsets|, i requires 0 <= i < |offsets| => n + offsets[i])
  }

  lemma CoverOne(s: seq<Byte>)
    requires s != [] && CodePointLength(s[0]) >= |s|
    ensures Covers([0], [CallAt(s, 0)], s)
  {
    hide CallAt, CodePointLength;
  }

  lemma CoverMore(s: seq<Byte>, n: nat, later: seq<nat>, calls: seq<Callback>)
    requires s != [] && n == CodePointLength(s[0]) < |s| && Covers(later, calls, s[n..])
    ensures Covers([0] + Shifted(n, later), [CallAt(s, 0)] + calls, s)
  {
    hide CallAt, CodePointLength;
    var offsets := [0] + Shifted(n, later);
    forall i | 0 < i < |offsets|
      ensures offsets[i] == n + later[i - 1] < |s| && s[offsets[i]] == s[n..][later[i - 1]]
      ensures CallAt(s, offsets[i]) == CallAt(s[n..], later[i - 1])
    {
      SameCall(s, n, later[i - 1]);
    }
  }

  lemma SameCall(s: seq<Byte>, n: nat, offset: nat)
    requires n + offset <= |s|
    ensures CallAt(s, n + offset) == CallAt(s[n..], offset)
  {
    assert s[n + offset..] == s[n..][offset..];
  }

  lemma NoCalls()
    ensures Calls([]) == []
  {
  }

  lemma FirstLength(s: seq<Byte>)
    requires s != []
    ensures Block(s)[0] == s[0] && DecodeBlock(Block(s)).length == CodePointLength(s[0])
  {
    hide CodePointLength;
  }

  /** A sequence that is cut off by the end of the data is an error. */
  lemma CutOffIsError(s: seq<Byte>)
    requires s != [] && CodePointLength(s[0]) > |s|
    ensures DecodeBlock(Block(s)).error != 0
  {
    FirstLength(s);
    NoError(Block(s));
    hide DecodeBlock, CodePointLength;
    assert |s| < 4 ==> Block(s)[|s|] == 0;
  }

  /** The bytes of a scalar value by the table of section 3 of RFC 3629. */
  lemma EncodedByTable(c: int)
    requires IsScalar(c)
    ensures var b := Encode(c);
            if c < 0x80 then b == [c]
            else if c < 0x800 then
              && |b| == 2 && 0xC2 <= b[0] <= 0xDF && 0x80 <= b[1] <= 0xBF
              && c == (b[0] as int - 0xC0) * 0x40 + (b[1] as int - 0x80)
            else if c < 0x10000 then
              && |b| == 3 && 0xE0 <= b[0] <= 0xEF && 0x80 <= b[1] <= 0xBF && 0x80 <= b[2] <= 0xBF
              && c == (b[0] as int - 0xE0) * 0x1000 + (b[1] as int - 0x80) * 0x40 + (b[2] as int - 0x80)
            else
              && |b| == 4 && 0xF0 <= b[0] <= 0xF4 && (forall i :: 1 <= i < 4 ==> 0x80 <= b[i] <= 0xBF)
              && c == (b[0] as int - 0xF0) * 0x40000 + (b[1] as int - 0x80) * 0x1000
                      + (b[2] as int - 0x80) * 0x40 + (b[3] as int - 0x80)
  {
    hide Lead, Low6, CodePointLength;
    if 0x800 <= c < 0x10000 {
      ThreeParts(c);
    } else if c >= 0x10000 {
      FourParts(c);
    }
  }

  /**
   * The decoder accepts a block exactly when it begins with the bytes of a scalar value, but for
   * the invalid lead bytes, which the length table lets pass as single bytes.
   */
  lemma AcceptsExactly(s: seq<Byte>)
    requires |s| == 4 && !InvalidLead(s[0])
    ensures var d := DecodeBlock(s);
            d.error == 0 <==> IsScalar(d.cp) && Encode(d.cp) == s[..d.length]
  {
    var d := DecodeBlock(s);
    if IsScalar(d.cp) && Encode(d.cp) == s[..d.length] {
      DecodeEncoded(d.cp, s);
    }
    if d.error == 0 {
      AcceptedIsEncoded(s);
    }
  }

  lemma LeadParts(b: Byte)
    requires !InvalidLead(b)
    ensures var len := CodePointLength(b);
            && 0 <= Lead(b, len)
            && (len == 1 ==> b == Lead(b, 1) < 128) && (len == 2 ==> b == 0xC0 + Lead(b, 2) && Lead(b, 2) < 32)
            && (len == 3 ==> b == 0xE0 + Lead(b, 3) && Lead(b, 3) < 16)
            && (len == 4 ==> b == 0xF0 + Lead(b, 4) && Lead(b, 4) < 8)
  {
  }

  lemma TailParts(b: Byte)
    requires 0x80 <= b < 0xC0
    ensures b == 0x80 + Low6(b)
  {
  }

  lemma AcceptedIsEncoded(s: seq<Byte>)
    requires |s| == 4 && !InvalidLead(s[0]) && DecodeBlock(s).error == 0
    ensures var d := DecodeBlock(s); IsScalar(d.cp) && Encode(d.cp) == s[..d.length]
  {
    hide DecodeBlock, CodePointLength, Lead, Low6, Payload, Encode, IsScalar;
    PayloadOf(s);
    NoError(s);
    LeadParts(s[0]);
    var d := DecodeBlock(s);
    if d.length == 1 {
      EncodesOne(s[0]);
      assert s[..1] == [s[0]];
    } else if d.length == 2 {
      TailParts(s[1]);
      EncodesTwo(Lead(s[0], 2), Low6(s[1]));
      assert s[..2] == [s[0], s[1]];
    } else if d.length == 3 {
      TailParts(s[1]);
      TailParts(s[2]);
      EncodesThree(Lead(s[0], 3), Low6(s[1]), Low6(s[2]));
      assert s[..3] == [s[0], s[1], s[2]];
    } else {
      TailParts(s[1]);
      TailParts(s[2]);
      TailParts(s[3]);
      EncodesFour(Lead(s[0], 4), Low6(s[1]), Low6(s[2]), Low6(s[3]));
      assert s[..4] == [s[0], s[1], s[2], s[3]];
    }
  }

  lemma EncodesOne(x: int)
    requires 0 <= x < 0x80
    ensures IsScalar(x) && Encode(x) == [x]
  {
  }

  lemma EncodesTwo(x: int, a: int)
    requires 0 <= x < 32 && 0 <= a < 64 && x * 64 + a >= 0x80
    ensures IsScalar(x * 64 + a) && Encode(x * 64 + a) == [0xC0 + x, 0x80 + a]
  {
    Fields(0, x, a);
  }

  lemma EncodesThree(x: int, a: int, b: int)
    requires 0 <= x < 16 && 0 <= a < 64 && 0 <= b < 64
    requires var c := (x * 64 + a) * 64 + b; c >= 0x800 && IsScalar(c)
    ensures Encode((x * 64 + a) * 64 + b) == [0xE0 + x, 0x80 + a, 0x80 + b]
  {
    Fields(x, a, b);
  }

  lemma EncodesFour(x: int, a: int, b: int, c: int)
    requires 0 <= x < 8 && 0 <= a < 64 && 0 <= b < 64 && 0 <= c < 64
    requires var v := ((x * 64 + a) * 64 + b) * 64 + c; v >= 0x10000 && IsScalar(v)
    ensures Encode(((x * 64 + a) * 64 + b) * 64 + c) == [0xF0 + x, 0x80 + a, 0x80 + b, 0x80 + c]
  {
    Fields(x * 64 + a, b, c);
    HighField(x, a, b * 64 + c);
  }

  /** A stray tail byte or an impossible lead byte is passed off as a character below 128. */
  lemma InvalidLeadPasses(s: seq<Byte>)
    requires |s| == 4 && InvalidLead(s[0])
    ensures DecodeBlock(s) == Decoding(s[0] % 128, 0, 1)
  {
  }
}
