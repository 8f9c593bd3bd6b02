/** The pattern compiler, the padding of fields, and what a compiled pattern writes. */
module PatternFormatter {
  import opened Common
  import opened DigitText
  import opened Decimal

  // ----- padding -----

  /** Where the spaces go: left of the text, right of it, or on both sides. */
  datatype Side = Left | Right | Center

  datatype Padding = Padding(width: nat, side: Side, truncate: bool, enabled: bool)

  const NO_PADDING: Padding := Padding(0, Left, false, false)

  const MAX_WIDTH: nat := 64

  const SPACES: string := Spaces(64)

  const SIZE_RANGE: nat := 0x1_0000_0000_0000_0000

  function Spaces(n: nat): (s: string)
    ensures |s| == n && forall i :: 0 <= i < n ==> s[i] == ' '
  {
    seq(n, i => ' ')
  }

  /** What a field holds: the text between spaces, or its first width characters. */
  function Padded(text: string, p: Padding): string {
    if !p.enabled then text
    else if |text| < p.width then
      var room := p.width - |text|;
      match p.side
      case Left => Spaces(room) + text
      case Right => text + Spaces(room)
      case Center => Spaces(room / 2) + text + Spaces(room / 2 + room % 2)
    else if p.truncate then text[..p.width]
    else text
  }

  /**
   * A field takes max(width, length) characters, exactly width with the truncation mark, and shows
   * the text unbroken with only spaces around it, evenly when centred.
   */
  lemma FieldWidth(text: string, p: Padding)
    requires p.enabled
    ensures |Padded(text, p)| == if p.truncate || |text| < p.width then p.width else |text|
    ensures var shown := if p.truncate && |text| > p.width then text[..p.width] else text;
            var f := Padded(text, p);
            exists k {:trigger Spaces(k)} :: 0 <= k <= |f| - |shown|
              && f == Spaces(k) + shown + Spaces(|f| - |shown| - k)
              && (p.side.Left? ==> k == |f| - |shown|)
              && (p.side.Right? ==> k == 0)
              && (p.side.Center? ==> k <= |f| - |shown| - k <= k + 1)
  {
    var shown := if p.truncate && |text| > p.width then text[..p.width] else text;
    var f := Padded(text, p);
    var k := match p.side
      case Left => |f| - |shown|
      case Right => 0
      case Center => (|f| - |shown|) / 2;
    assert f == Spaces(k) + shown + Spaces(|f| - |shown| - k);
  }

  /** The buffer formatters write to. */
  class MemoryBuffer {
    var data: string

    constructor ()
      ensures data == []
    {
      data := [];
    }

    method Append(s: string)
      modifies this
      ensures data == old(data) + s
    {
      data := data + s;
    }

    method Resize(n: nat)
      requires n <= |data|
      modifies this
      ensures data == old(data)[..n]
    {
      data := data[..n];
    }
  }

  /** Pads on construction what goes before the text, and the rest when it is finished. */
  class ScopedPadder {
    const padding: Padding
    const dest: MemoryBuffer
    var remainingPad: int

    constructor (wrappedSize: nat, padding: Padding, dest: MemoryBuffer)
      requires padding.width <= MAX_WIDTH
      modifies dest
      ensures this.padding == padding && this.dest == dest
      ensures var room := padding.width - wrappedSize;
              && (room <= 0 || padding.side.Right? ==> dest.data == old(dest.data) && remainingPad == room)
              && (room > 0 && padding.side.Left? ==> dest.data == old(dest.data) + Spaces(room) && remainingPad == 0)
              && (room > 0 && padding.side.Center? ==>
                    dest.data == old(dest.data) + Spaces(room / 2) && remainingPad == room / 2 + room % 2)
    {
      this.padding, this.dest := padding, dest;
      remainingPad := padding.width - wrappedSize;
      new;
      if remainingPad <= 0 {
        return;
      }
      if padding.side.Left? {
        PadIt(remainingPad);
        remainingPad := 0;
      } else if padding.side.Center? {
        var halfPad := remainingPad / 2;
        var reminder := remainingPad % 2;
        PadIt(halfPad);
        remainingPad := halfPad + reminder;
      }
    }

    /** There are 64 spaces to take from. */
    method PadIt(count: int)
      requires 0 <= count <= |SPACES|
      modifies dest
      ensures dest.data == old(dest.data) + Spaces(count)
    {
      assert SPACES[..count] == Spaces(count);
      dest.Append(SPACES[..count]);
    }

    /** The destructor. */
    method Finish()
      requires remainingPad <= MAX_WIDTH && |dest.data| + remainingPad >= 0
      modifies dest
      ensures remainingPad >= 0 ==> dest.data == old(dest.data) + Spaces(remainingPad)
      ensures remainingPad < 0 ==>
                dest.data == if padding.truncate then old(dest.data)[..|old(dest.data)| + remainingPad]
                    else old(dest.data)
    {
      if remainingPad >= 0 {
        PadIt(remainingPad);
      } else if padding.truncate {
        dest.Resize(|dest.data| + remainingPad);
      }
    }
  }

  /** v_formatter::format with the padder its flag was compiled with. */
  method FormatPayload(payload: string, padding: Padding, dest: MemoryBuffer)
    requires padding.width <= MAX_WIDTH
    modifies dest
    ensures dest.data == old(dest.data) + Padded(payload, padding)
  {
    hide Spaces, Padded;
    PaddedCases(payload, padding, dest.data);
    if !padding.enabled {
      dest.Append(payload);
      return;
    }
    var p := new ScopedPadder(|payload|, padding, dest);
    dest.Append(payload);
    p.Finish();
  }

  /** What the buffer holds after the padder, the text and the padder's end, case by case. */
  lemma PaddedCases(text: string, p: Padding, before: string)
    ensures !p.enabled ==> Padded(text, p) == text
    ensures var room := p.width - |text|;
            p.enabled ==>
              && (room > 0 && p.side.Left? ==> before + Spaces(room) + text + Spaces(0) == before + Padded(text, p))
              && (room > 0 && p.side.Right? ==> before + text + Spaces(room) == before + Padded(text, p))
              && (room > 0 && p.side.Center? ==>
                    before + Spaces(room / 2) + text + Spaces(room / 2 + room % 2) == before + Padded(text, p))
              && (room == 0 ==> before + text + Spaces(room) == before + Padded(text, p))
              && (room < 0 && !p.truncate ==> before + text == before + Padded(text, p))
              && (room < 0 && p.truncate ==> (before + text)[..|before + text| + room] == before + Padded(text, p))
  {
  }

  // ----- padding specification -----

  /** The side a specification at i starts with, and where it goes on. */
  function SideSpec(p: string, i: nat): (r: (Side, nat))
    requires i <= |p|
    ensures i <= r.1 <= |p|
  {
    if i < |p| && p[i] == '-' then (Right, i + 1) else if i < |p| && p[i] == '=' then (Center, i + 1) else (Left, i)
  }

  /** What handle_padspec_ finds at i and where the specification ends. */
  function PadSpec(p: string, i: nat): (r: (Padding, nat))
    requires i <= |p|
    ensures i <= r.1 <= |p| && r.0.width <= MAX_WIDTH
  {
    var (side, j) := SideSpec(p, i);
    if j == |p| || !IsDigit(p[j]) then (NO_PADDING, j)
    else
      var e := RunEnd(p, j);
      var truncate := e < |p| && p[e] == '!';
      (Padding(EffectiveWidth(Number(p[j..e])), side, truncate, true), if truncate then e + 1 else e)
  }

  /** The width a number stands for: it is read as a size_t and capped. */
  function EffectiveWidth(n: int): (w: nat)
    ensures w <= MAX_WIDTH
  {
    var width := n % SIZE_RANGE;
    if width < MAX_WIDTH then width else MAX_WIDTH
  }

  /** The cap is the number itself or 64, except for a number past size_t that wraps to less than 64. */
  lemma WidthIsCapped(n: nat)
    ensures EffectiveWidth(n) == (if n < 64 then n else 64)
       <==> n < 0x1_0000_0000_0000_0000 || n % 0x1_0000_0000_0000_0000 >= 64
  {
    if n < SIZE_RANGE {
      assert n % SIZE_RANGE == n;
    }
  }

  /** A width of 2^64 is read as none at all. */
  lemma WidthLost()
    ensures EffectiveWidth(0x1_0000_0000_0000_0000) == 0
  {
  }

  method HandlePadspec(pattern: string, start: nat) returns (padding: Padding, it: nat)
    requires start <= |pattern|
    ensures (padding, it) == PadSpec(pattern, start)
  {
    it := start;
    if it == |pattern| {
      return NO_PADDING, it;
    }
    var side := Left;
    if pattern[it] == '-' {
      side := Right;
      it := it + 1;
    } else if pattern[it] == '=' {
      side := Center;
      it := it + 1;
    }
    assert (side, it) == SideSpec(pattern, start);
    if it == |pattern| || !IsDigit(pattern[it]) {
      return NO_PADDING, it;
    }
    hide Number, RunEnd, AllDigits, IsDigit, SideSpec;
    var width: int;
    width, it := ReadWidth(pattern, it);
    var truncate := it < |pattern| && pattern[it] == '!';
    if truncate {
      it := it + 1;
    }
    padding := Padding(if width < MAX_WIDTH then width else MAX_WIDTH, side, truncate, true);
  }

  /** The digits of a width, multiplied up with the wrap-around of size_t. */
  method ReadWidth(pattern: string, start: nat) returns (width: nat, it: nat)
    requires start < |pattern| && IsDigit(pattern[start])
    ensures it == RunEnd(pattern, start)
    ensures width == Number(pattern[start..it]) % SIZE_RANGE
  {
    hide Number;
    width := DigitValue(pattern[start]);
    it := start + 1;
    assert pattern[start..start] == [];
    assert pattern[start..it] == pattern[start..start] + [pattern[start]];
    NumberAppend(pattern[start..start], pattern[start]);
    NumberNothing();
    while it < |pattern| && IsDigit(pattern[it])
      invariant start < it <= |pattern| && AllDigits(pattern[start..it])
      invariant width == Number(pattern[start..it]) % SIZE_RANGE
    {
      var digit := DigitValue(pattern[it]);
      assert pattern[start..it + 1] == pattern[start..it] + [pattern[it]];
      NumberAppend(pattern[start..it], pattern[it]);
      WrapWidth(Number(pattern[start..it]), width, digit);
      width := (width * 10 % SIZE_RANGE + digit) % SIZE_RANGE;
      it := it + 1;
    }
    RunEndIs(pattern, start, it);
  }

  lemma WrapWidth(n: int, width: int, d: int)
    requires width == n % SIZE_RANGE
    ensures (width * 10 % SIZE_RANGE + d) % SIZE_RANGE == (10 * n + d) % SIZE_RANGE
  {
    var q := n / SIZE_RANGE;
    assert n == q * SIZE_RANGE + width;
    var q' := width * 10 / SIZE_RANGE;
    assert 10 * n + d == (10 * q + q') * SIZE_RANGE + (width * 10 % SIZE_RANGE + d);
    Reduce(width * 10 % SIZE_RANGE + d, 10 * q + q');
  }

  lemma {:induction false} Reduce(x: int, k: int)
    ensures (k * SIZE_RANGE + x) % SIZE_RANGE == x % SIZE_RANGE
  {
  }

  // ----- compilation -----

  /** Compiled parts of a pattern: user text, a single character, a built-in flag, a custom flag. */
  datatype Formatter =
    | Aggregate(text: string)
    | Ch(c: char)
    | Flag(flag: char, padding: Padding)
    | Custom(flag: char, padding: Padding)

  /** The flags handle_flag_ knows. */
  predicate IsBuiltin(flag: char) {
    flag in "+nlLtvaAbhB" || flag in "cCYDxmdHIMS" || flag in "efFEprRTXzP" || flag in "^$@sg#!%uioO"
  }

  function HandleFlag(flag: char, padding: Padding, custom: set<char>): seq<Formatter>
  {
    if flag in custom then [Custom(flag, padding)]
    else if flag == '%' then [Ch('%')]
    else if IsBuiltin(flag) then [Flag(flag, padding)]
    else if !padding.truncate then [Aggregate(['%', flag])]
    else [Flag('!', padding.(truncate := false)), Aggregate([flag])]
  }

  predicate WellPadded(formatters: seq<Formatter>) {
    forall i :: 0 <= i < |formatters| && formatters[i].Flag? ==> formatters[i].padding.width <= MAX_WIDTH
  }

  /** Where the first percent sign from i on is. */
  function TextEnd(p: string, i: nat): (e: nat)
    requires i <= |p|
    ensures i <= e <= |p| && (e < |p| ==> p[e] == '%')
    decreases |p| - i
  {
    if i == |p| || p[i] == '%' then i else TextEnd(p, i + 1)
  }

  /** The formatters of a pattern from i on: text as it stands between flags with their padding. */
  function Pieces(p: string, i: nat, custom: set<char>): seq<Formatter>
    requires i <= |p|
    decreases |p| - i
  {
    if i == |p| then []
    else if p[i] != '%' then
      var e := TextEnd(p, i);
      [Aggregate(p[i..e])] + Pieces(p, e, custom)
    else
      var (padding, j) := PadSpec(p, i + 1);
      if j == |p| then []
      else HandleFlag(p[j], padding, custom) + Pieces(p, j + 1, custom)
  }

  /** No field asks for more than the spaces there are. */
  lemma {:induction false} PiecesWellPadded(p: string, i: nat, custom: set<char>)
    requires i <= |p|
    ensures WellPadded(Pieces(p, i, custom))
    decreases |p| - i
  {
    hide *;
    PiecesStep(p, i, custom);
    if i == |p| {
      WellPaddedConcat([], []);
    } else if p[i] != '%' {
      var e := TextEnd(p, i);
      PiecesWellPadded(p, e, custom);
      TextWellPadded(p[i..e]);
      WellPaddedConcat([Aggregate(p[i..e])], Pieces(p, e, custom));
    } else {
      var (padding, j) := PadSpec(p, i + 1);
      WellPaddedConcat([], []);
      if j < |p| {
        PiecesWellPadded(p, j + 1, custom);
        FlagWellPadded(p[j], padding, custom);
        WellPaddedConcat(HandleFlag(p[j], padding, custom), Pieces(p, j + 1, custom));
      }
    }
  }

  lemma WellPaddedConcat(a: seq<Formatter>, b: seq<Formatter>)
    ensures WellPadded([])
    ensures WellPadded(a) && WellPadded(b) ==> WellPadded(a + b)
  {
  }

  lemma TextWellPadded(text: string)
    ensures WellPadded([Aggregate(text)])
  {
  }

  lemma FlagWellPadded(flag: char, padding: Padding, custom: set<char>)
    requires padding.width <= MAX_WIDTH
    ensures WellPadded(HandleFlag(flag, padding, custom))
  {
  }

  lemma WellPaddedAt(a: seq<Formatter>, i: nat)
    requires WellPadded(a) && i < |a|
    ensures a[i].Flag? ==> a[i].padding.width <= MAX_WIDTH
  {
  }

  lemma PiecesStep(p: string, i: nat, custom: set<char>)
    requires i <= |p|
    ensures i == |p| ==> Pieces(p, i, custom) == []
    ensures i < |p| && p[i] != '%' ==>
              i < TextEnd(p, i)
              && Pieces(p, i, custom) == [Aggregate(p[i..TextEnd(p, i)])] + Pieces(p, TextEnd(p, i), custom)
    ensures i < |p| && p[i] == '%' ==>
              var (padding, j) := PadSpec(p, i + 1);
              Pieces(p, i, custom)
              == if j == |p| then [] else HandleFlag(p[j], padding, custom) + Pieces(p, j + 1, custom)
  {
  }

  /** The formatters still to come when some user text has been gathered. */
  function Rest(userChars: Option<string>, p: string, i: nat, custom: set<char>): seq<Formatter>
    requires i <= |p|
  {
    match userChars
    case None => Pieces(p, i, custom)
    case Some(text) => [Aggregate(text + p[i..TextEnd(p, i)])] + Pieces(p, TextEnd(p, i), custom)
  }

  lemma GatherFirst(p: string, i: nat, custom: set<char>)
    requires i < |p| && p[i] != '%'
    ensures Rest(None, p, i, custom) == Rest(Some([p[i]]), p, i + 1, custom)
  {
    var e := TextEnd(p, i);
    assert p[i..e] == [p[i]] + p[i + 1..e];
  }

  lemma GatherMore(text: string, p: string, i: nat, custom: set<char>)
    requires i < |p| && p[i] != '%'
    ensures Rest(Some(text), p, i, custom) == Rest(Some(text + [p[i]]), p, i + 1, custom)
  {
    var e := TextEnd(p, i);
    assert text + p[i..e] == text + [p[i]] + p[i + 1..e];
  }

  lemma EndText(text: string, p: string, i: nat, custom: set<char>)
    requires i <= |p| && (i == |p| || p[i] == '%')
    ensures Rest(Some(text), p, i, custom) == [Aggregate(text)] + Rest(None, p, i, custom)
  {
    assert text + p[i..i] == text;
  }

  lemma FlagStep(p: string, i: nat, custom: set<char>)
    requires i < |p| && p[i] == '%'
    ensures var (padding, j) := PadSpec(p, i + 1);
            Rest(None, p, i, custom)
            == if j == |p| then [] else HandleFlag(p[j], padding, custom) + Rest(None, p, j + 1, custom)
  {
  }

  lemma AtEnd(p: string, custom: set<char>)
    ensures Rest(None, p, |p|, custom) == []
    ensures [] + Rest(None, p, 0, custom) == Pieces(p, 0, custom)
  {
  }

  lemma Assoc(a: seq<Formatter>, b: seq<Formatter>, c: seq<Formatter>)
    ensures a + b + c == a + (b + c)
  {
  }

  // ----- what formatters write -----

  /** A record as the formatters see it: its payload, and what every other flag shows of it. */
  datatype Record = Record(payload: string, builtin: (char, Padding) -> string, custom: (char, Padding) -> string)

  function Shown(f: Formatter, r: Record): string {
    match f
    case Aggregate(text) => text
    case Ch(c) => [c]
    case Flag(flag, padding) => if flag == 'v' then Padded(r.payload, padding) else r.builtin(flag, padding)
    case Custom(flag, padding) => r.custom(flag, padding)
  }

  function Line(formatters: seq<Formatter>, r: Record): string {
    if formatters == [] then [] else Shown(formatters[0], r) + Line(formatters[1..], r)
  }

  lemma {:induction false} LineConcat(a: seq<Formatter>, b: seq<Formatter>, r: Record)
    ensures Line(a + b, r) == Line(a, r) + Line(b, r)
  {
    hide Shown;
    if a == [] {
      assert a + b == b;
    } else {
      LineConcat(a[1..], b, r);
      assert (a + b)[1..] == a[1..] + b;
    }
  }

  lemma LineLast(a: seq<Formatter>, f: Formatter, r: Record)
    ensures Line(a + [f], r) == Line(a, r) + Shown(f, r)
  {
    LineConcat(a, [f], r);
    assert Line([f], r) == Shown(f, r) + Line([], r);
  }

  lemma LineNone(a: seq<Formatter>, r: Record)
    ensures Line(a[..0], r) == []
  {
  }

  lemma LinePrefix(a: seq<Formatter>, i: nat, r: Record)
    requires i < |a|
    ensures Line(a[..i + 1], r) == Line(a[..i], r) + Shown(a[i], r)
  {
    LineLast(a[..i], a[i], r);
    assert a[..i + 1] == a[..i] + [a[i]];
  }

  class PatternFormatter {
    const eol: string
    const customHandlers: set<char>
    var pattern: string
    var formatters: seq<Formatter>

    predicate Valid()
      reads this
    {
      formatters == Pieces(pattern, 0, customHandlers)
    }

    constructor (pattern: string, eol: string, customHandlers: set<char>)
      ensures Valid() && this.pattern == pattern && this.eol == eol && this.customHandlers == customHandlers
    {
      this.pattern, this.eol, this.customHandlers := pattern, eol, customHandlers;
      formatters := [];
      new;
      CompilePattern(pattern);
    }

    method SetPattern(pattern: string)
      modifies this
      ensures Valid() && this.pattern == pattern
    {
      this.pattern := pattern;
      CompilePattern(pattern);
    }

    method CompilePattern(pattern: string)
      modifies `formatters
      ensures formatters == Pieces(pattern, 0, customHandlers)
    {
      var userChars := None;
      formatters := [];
      var it := 0;
      hide *;
      AtEnd(pattern, customHandlers);
      ghost var all := Pieces(pattern, 0, customHandlers);
      while it < |pattern|
        invariant it <= |pattern|
        invariant formatters + Rest(userChars, pattern, it, customHandlers) == all
      {
        if pattern[it] == '%' {
          AppendText(userChars, pattern, it);
          userChars := None;
          it := AppendFlag(pattern, it);
        } else {
          userChars := AddCh(userChars, pattern, it, customHandlers);
          it := it + 1;
        }
      }
      AppendText(userChars, pattern, it);
      assert formatters + [] == formatters;
    }

    /** Appends the user text gathered so far, if any. */
    method AppendText(userChars: Option<string>, ghost p: string, ghost i: nat)
      requires i <= |p| && (i == |p| || p[i] == '%')
      modifies `formatters
      ensures formatters + Rest(None, p, i, customHandlers) == old(formatters) + Rest(userChars, p, i, customHandlers)
    {
      if userChars.Some? {
        hide *;
        EndText(userChars.value, p, i, customHandlers);
        Assoc(formatters, [Aggregate(userChars.value)], Rest(None, p, i, customHandlers));
        formatters := formatters + [Aggregate(userChars.value)];
      }
    }

    /** What follows a percent sign: padding and flag, or nothing when the pattern ends there. */
    method AppendFlag(pattern: string, start: nat) returns (it: nat)
      requires start < |pattern| && pattern[start] == '%'
      modifies `formatters
      ensures start < it <= |pattern|
      ensures formatters + Rest(None, pattern, it, customHandlers)
           == old(formatters) + Rest(None, pattern, start, customHandlers)
    {
      hide *;
      FlagStep(pattern, start, customHandlers);
      AtEnd(pattern, customHandlers);
      var padding;
      padding, it := HandlePadspec(pattern, start + 1);
      if it < |pattern| {
        var added := HandleFlag(pattern[it], padding, customHandlers);
        Assoc(formatters, added, Rest(None, pattern, it + 1, customHandlers));
        formatters := formatters + added;
        it := it + 1;
      }
    }

    method Format(r: Record, dest: MemoryBuffer)
      requires Valid()
      modifies dest
      ensures dest.data == old(dest.data) + Line(formatters, r) + eol
      ensures forall l: Layout :: IsLayout(pattern, l, customHandlers) ==>
                dest.data == old(dest.data) + LayoutShown(l.segments, customHandlers, r) + eol
    {
      PatternMeans(pattern, customHandlers, r);
      hide Line, Shown, Pieces, WellPadded, IsLayout, LayoutShown;
      ghost var before := dest.data;
      ghost var compiled := formatters;
      LineNone(compiled, r);
      PiecesWellPadded(pattern, 0, customHandlers);
      var i := 0;
      while i < |formatters|
        invariant i <= |formatters| && formatters == compiled
        invariant dest.data == before + Line(formatters[..i], r)
      {
        LinePrefix(compiled, i, r);
        WellPaddedAt(compiled, i);
        FormatOne(formatters[i], r, dest);
        i := i + 1;
      }
      assert formatters[..i] == formatters;
      dest.Append(eol);
    }
  }

  /** One more character of user text. */
  method AddCh(userChars: Option<string>, pattern: string, it: nat,
        ghost custom: set<char>) returns (gathered: Option<string>)
    requires it < |pattern| && pattern[it] != '%'
    ensures Rest(gathered, pattern, it + 1, custom) == Rest(userChars, pattern, it, custom)
  {
    hide *;
    if userChars.None? {
      GatherFirst(pattern, it, custom);
      gathered := Some([pattern[it]]);
    } else {
      GatherMore(userChars.value, pattern, it, custom);
      gathered := Some(userChars.value + [pattern[it]]);
    }
  }

  /** format of each kind of formatter. */
  method FormatOne(f: Formatter, r: Record, dest: MemoryBuffer)
    requires f.Flag? ==> f.padding.width <= MAX_WIDTH
    modifies dest
    ensures dest.data == old(dest.data) + Shown(f, r)
  {
    match f {
      case Aggregate(text) => dest.Append(text);
      case Ch(c) => dest.Append([c]);
      case Flag(flag, padding) =>
        if flag == 'v' {
          FormatPayload(r.payload, padding, dest);
        } else {
          dest.Append(r.builtin(flag, padding));
        }
      case Custom(flag, padding) => dest.Append(r.custom(flag, padding));
    }
  }

  // ----- what patterns mean -----

  /** Text with every percent sign doubled. */
  function Doubled(t: string): string {
    if t == [] then [] else (if t[0] == '%' then ['%', '%'] else [t[0]]) + Doubled(t[1..])
  }

  /** A layout: text, and flags with what stands between the percent sign and the flag. */
  datatype Segment =
    | Text(text: string)
    | Flagged(side: Side, digits: string, truncate: bool, flag: char)

  /** Where a flag could be read as part of its padding, or a doubled percent sign as a custom flag, it is not meant. */
  predicate WellFormed(g: Segment, custom: set<char>) {
    match g
    case Text(text) => '%' in custom ==> '%' !in text
    case Flagged(side, digits, truncate, flag) =>
      && AllDigits(digits) && (truncate ==> digits != [])
      && (!truncate ==> !IsDigit(flag))
      && (!truncate && digits != [] ==> flag != '!')
      && (digits == [] && side.Left? ==> flag != '-' && flag != '=')
  }

  predicate AllWellFormed(layout: seq<Segment>, custom: set<char>) {
    forall i :: 0 <= i < |layout| ==> WellFormed(layout[i], custom)
  }

  function SideText(side: Side): string {
    match side
    case Left => []
    case Right => ['-']
    case Center => ['=']
  }

  function SpecText(side: Side, digits: string, truncate: bool): string {
    SideText(side) + digits + if truncate then ['!'] else []
  }

  /** A specification without digits asks for no padding at all, whatever its side. */
  function SpecPadding(side: Side, digits: string, truncate: bool): (p: Padding)
    ensures p.width <= MAX_WIDTH
  {
    if digits == [] then Padding(0, Left, false, false)
    else Padding(EffectiveWidth(Number(digits)), side, truncate, true)
  }

  function SegmentText(g: Segment): string {
    match g
    case Text(text) => Doubled(text)
    case Flagged(side, digits, truncate, flag) => ['%'] + (SpecText(side, digits, truncate) + [flag])
  }

  /** The flags of the formatter by what they show of a record, besides the message and the percent sign. */
  predicate Known(flag: char) {
    || flag == '+'                                         // the default line
    || flag == 'n' || flag == 'l' || flag == 'L'           // logger and level
    || flag == 't' || flag == 'P'                          // thread and process
    || flag in "aAbhBcCYDxmdH" || flag in "IMSefFEprRTXz"  // the time of the record
    || flag in "uioO"                                      // the time since the last record
    || flag in "@sg#!"                                     // the place in the source
    || flag == '^' || flag == '$'                          // the colored range
  }

  lemma BuiltinFlags(flag: char)
    ensures IsBuiltin(flag) <==> flag == 'v' || flag == '%' || Known(flag)
  {
  }

  /** What a flag shows: unknown ones stand for themselves, but a truncation mark before one is the function's name. */
  function FlagShown(flag: char, padding: Padding, custom: set<char>, r: Record): string {
    if flag in custom then r.custom(flag, padding)
    else if flag == '%' then ['%']
    else if flag == 'v' then if padding.enabled then Padded(r.payload, padding) else r.payload
    else if Known(flag) then r.builtin(flag, padding)
    else if padding.truncate then
      r.builtin('!', Padding(padding.width, padding.side, false, padding.enabled)) + [flag]
    else ['%', flag]
  }

  function SegmentShown(g: Segment, custom: set<char>, r: Record): string {
    match g
    case Text(text) => text
    case Flagged(side, digits, truncate, flag) => FlagShown(flag, SpecPadding(side, digits, truncate), custom, r)
  }

  function LayoutText(layout: seq<Segment>): string {
    if layout == [] then [] else SegmentText(layout[0]) + LayoutText(layout[1..])
  }

  function LayoutShown(layout: seq<Segment>, custom: set<char>, r: Record): string {
    if layout == [] then [] else SegmentShown(layout[0], custom, r) + LayoutShown(layout[1..], custom, r)
  }

  /** What a pattern writes before the end of line. */
  function Written(s: string, custom: set<char>, r: Record): string {
    Line(Pieces(s, 0, custom), r)
  }

  // A pattern reads the same from any place on, whatever stands before.

  lemma {:induction false} RunEndShift(a: string, s: string, i: nat)
    requires i <= |s|
    ensures RunEnd(a + s, |a| + i) == |a| + RunEnd(s, i)
    decreases |s| - i
  {
    if i < |s| && IsDigit(s[i]) {
      RunEndShift(a, s, i + 1);
    }
  }

  lemma {:induction false} TextEndShift(a: string, s: string, i: nat)
    requires i <= |s|
    ensures TextEnd(a + s, |a| + i) == |a| + TextEnd(s, i)
    decreases |s| - i
  {
    if i < |s| && s[i] != '%' {
      TextEndShift(a, s, i + 1);
    }
  }

  lemma SliceShift(a: string, s: string, i: nat, e: nat)
    requires i <= e <= |s|
    ensures (a + s)[|a| + i..|a| + e] == s[i..e]
  {
  }

  lemma PadSpecShift(a: string, s: string, i: nat)
    requires i <= |s|
    ensures PadSpec(a + s, |a| + i) == (PadSpec(s, i).0, |a| + PadSpec(s, i).1)
  {
    hide RunEnd, Number, EffectiveWidth, AllDigits;
    var j := SideSpec(s, i).1;
    if j < |s| {
      RunEndShift(a, s, j);
      SliceShift(a, s, j, RunEnd(s, j));
    }
  }

  lemma {:induction false} PiecesShift(a: string, s: string, i: nat, custom: set<char>)
    requires i <= |s|
    ensures Pieces(a + s, |a| + i, custom) == Pieces(s, i, custom)
    decreases |s| - i
  {
    hide *;
    PiecesStep(s, i, custom);
    PiecesStep(a + s, |a| + i, custom);
    if i < |s| {
      IndexShift(a, s, i);
      if s[i] != '%' {
        var e := TextEnd(s, i);
        TextEndShift(a, s, i);
        SliceShift(a, s, i, e);
        PiecesShift(a, s, e, custom);
      } else {
        PadSpecShift(a, s, i + 1);
        var j := PadSpec(s, i + 1).1;
        if j < |s| {
          IndexShift(a, s, j);
          PiecesShift(a, s, j + 1, custom);
        }
      }
    }
  }

  lemma IndexShift(a: string, s: string, i: nat)
    requires i < |s|
    ensures |a + s| == |a| + |s| && (a + s)[|a| + i] == s[i]
  {
  }

  lemma LineFirst(f: Formatter, rest: seq<Formatter>, r: Record)
    ensures Line([f] + rest, r) == Shown(f, r) + Line(rest, r)
  {
    assert ([f] + rest)[1..] == rest;
  }

  lemma ShownText(text: string, r: Record)
    ensures Shown(Aggregate(text), r) == text
  {
  }

  lemma GatheredLine(text: string, p: string, i: nat, custom: set<char>, r: Record)
    requires i <= |p|
    ensures Line(Rest(Some(text), p, i, custom), r) == text + Line(Pieces(p, i, custom), r)
  {
    hide Shown, Line;
    if i == |p| || p[i] == '%' {
      EndText(text, p, i, custom);
      LineFirst(Aggregate(text), Pieces(p, i, custom), r);
      ShownText(text, r);
    } else {
      var e := TextEnd(p, i);
      LineFirst(Aggregate(text + p[i..e]), Pieces(p, e, custom), r);
      LineFirst(Aggregate(p[i..e]), Pieces(p, e, custom), r);
      ShownText(text + p[i..e], r);
      ShownText(p[i..e], r);
      hide *;
    }
  }

  /** A character outside flags is written as it is, whatever text it is gathered with. */
  lemma PlainCharacter(c: char, s: string, custom: set<char>, r: Record)
    requires c != '%'
    ensures Written([c] + s, custom, r) == [c] + Written(s, custom, r)
  {
    var whole := [c] + s;
    GatherFirst(whole, 0, custom);
    GatheredLine([whole[0]], whole, 1, custom, r);
    PiecesShift([c], s, 0, custom);
    hide Line, Pieces, Rest;
  }

  /** Reading back a written specification gives what it was written from. */
  lemma SpecRoundTrip(side: Side, digits: string, truncate: bool, flag: char, s: string)
    requires WellFormed(Flagged(side, digits, truncate, flag), {})
    ensures PadSpec(SpecText(side, digits, truncate) + ([flag] + s), 0)
         == (SpecPadding(side, digits, truncate), |SpecText(side, digits, truncate)|)
  {
    hide *;
    var whole := SpecText(side, digits, truncate) + ([flag] + s);
    var j := |SideText(side)|;
    SpecParts(side, digits, truncate, flag, s);
    if digits == [] {
      NoDigits(whole, side, j);
    } else {
      var e := j + |digits|;
      RunEndIs(whole, j, e);
      SomeDigits(whole, side, digits, truncate, j, e);
    }
  }

  /** Where side, digits, mark and flag stand in a written specification. */
  lemma SpecParts(side: Side, digits: string, truncate: bool, flag: char, s: string)
    requires WellFormed(Flagged(side, digits, truncate, flag), {})
    ensures var whole := SpecText(side, digits, truncate) + ([flag] + s);
            var j := |SideText(side)|; var e := j + |digits|;
            && SideSpec(whole, 0) == (side, j) && e < |whole| && whole[j..e] == digits && AllDigits(digits)
            && !IsDigit(whole[e]) && (whole[e] == '!' && digits != [] <==> truncate)
            && |SpecText(side, digits, truncate)| == if truncate then e + 1 else e
  {
    var whole := SpecText(side, digits, truncate) + ([flag] + s);
    var j := |SideText(side)|;
    var e := j + |digits|;
    assert whole[e] == if truncate then '!' else flag;
    assert digits != [] ==> whole[j] == digits[0];
  }

  lemma NoDigits(whole: string, side: Side, j: nat)
    requires SideSpec(whole, 0) == (side, j) && j < |whole| && !IsDigit(whole[j])
    ensures PadSpec(whole, 0) == (SpecPadding(side, [], false), j)
  {
    hide SideSpec;
  }

  lemma SomeDigits(whole: string, side: Side, digits: string, truncate: bool, j: nat, e: nat)
    requires SideSpec(whole, 0) == (side, j) && j < e < |whole| && whole[j..e] == digits && AllDigits(digits)
    requires RunEnd(whole, j) == e && (whole[e] == '!' <==> truncate)
    ensures PadSpec(whole, 0) == (SpecPadding(side, digits, truncate), if truncate then e + 1 else e)
  {
    hide SideSpec, RunEnd, Number, EffectiveWidth;
    assert whole[j] == digits[0];
  }

  lemma FlagPieces(side: Side, digits: string, truncate: bool, flag: char, s: string, custom: set<char>)
    requires WellFormed(Flagged(side, digits, truncate, flag), {})
    ensures Pieces(SegmentText(Flagged(side, digits, truncate, flag)) + s, 0, custom)
         == HandleFlag(flag, SpecPadding(side, digits, truncate), custom) + Pieces(s, 0, custom)
  {
    hide *;
    var spec := SpecText(side, digits, truncate);
    var text := ['%'] + (spec + [flag]);
    FlagText(side, digits, truncate, flag);
    SpecRoundTrip(side, digits, truncate, flag, s);
    FlagSlices(spec, flag, s);
    PadSpecShift(['%'], spec + ([flag] + s), 0);
    PiecesStep(text + s, 0, custom);
    PiecesShift(text, s, 0, custom);
  }

  lemma FlagText(side: Side, digits: string, truncate: bool, flag: char)
    ensures SegmentText(Flagged(side, digits, truncate, flag)) == ['%'] + (SpecText(side, digits, truncate) + [flag])
  {
  }

  lemma FlagSlices(spec: string, flag: char, s: string)
    ensures var whole := ['%'] + (spec + [flag]) + s;
            && whole == ['%'] + (spec + ([flag] + s))
            && |['%'] + (spec + [flag])| == 2 + |spec| && 1 + |spec| < |whole|
            && whole[0] == '%' && whole[1 + |spec|] == flag
  {
  }

  /** What the formatters of a flag write is what the flag shows. */
  lemma FlagLine(flag: char, padding: Padding, rest: seq<Formatter>, custom: set<char>, r: Record)
    ensures Line(HandleFlag(flag, padding, custom) + rest, r) == FlagShown(flag, padding, custom, r) + Line(rest, r)
  {
    BuiltinFlags(flag);
    hide IsBuiltin, Known, Line, Padded;
    var fs := HandleFlag(flag, padding, custom);
    if |fs| == 1 {
      LineFirst(fs[0], rest, r);
      assert fs == [fs[0]];
    } else {
      LineFirst(fs[0], [fs[1]] + rest, r);
      LineFirst(fs[1], rest, r);
      assert fs + rest == [fs[0]] + ([fs[1]] + rest);
    }
    PaddedNothing(r.payload, padding);
  }

  lemma PaddedNothing(text: string, padding: Padding)
    ensures !padding.enabled ==> Padded(text, padding) == text
  {
  }

  lemma FlagWritten(side: Side, digits: string, truncate: bool, flag: char, s: string, custom: set<char>, r: Record)
    requires WellFormed(Flagged(side, digits, truncate, flag), {})
    ensures Written(SegmentText(Flagged(side, digits, truncate, flag)) + s, custom, r)
         == FlagShown(flag, SpecPadding(side, digits, truncate), custom, r) + Written(s, custom, r)
  {
    hide WellFormed, SegmentText, HandleFlag, FlagShown, SpecPadding, Pieces, Line;
    FlagPieces(side, digits, truncate, flag, s, custom);
    FlagLine(flag, SpecPadding(side, digits, truncate), Pieces(s, 0, custom), custom, r);
  }

  lemma DoubledPercent(s: string, custom: set<char>, r: Record)
    requires '%' !in custom
    ensures Written(['%', '%'] + s, custom, r) == ['%'] + Written(s, custom, r)
  {
    hide Written;
    assert SegmentText(Flagged(Left, [], false, '%')) == ['%', '%'];
    FlagWritten(Left, [], false, '%', s, custom, r);
  }

  lemma {:induction false} DoubledText(t: string, s: string, custom: set<char>, r: Record)
    requires '%' !in custom || '%' !in t
    ensures Written(Doubled(t) + s, custom, r) == t + Written(s, custom, r)
  {
    hide *;
    if t == [] {
      DoubledNothing(s);
    } else {
      DoubledText(t[1..], s, custom, r);
      DoubledFirst(t, s);
      var more := Doubled(t[1..]) + s;
      if t[0] == '%' {
        DoubledPercent(more, custom, r);
      } else {
        PlainCharacter(t[0], more, custom, r);
      }
      FirstOff(t, Written(s, custom, r));
    }
  }

  lemma DoubledNothing(s: string)
    ensures Doubled([]) + s == s && [] + s == s
  {
  }

  lemma DoubledFirst(t: string, s: string)
    requires t != []
    ensures Doubled(t) + s == (if t[0] == '%' then ['%', '%'] else [t[0]]) + (Doubled(t[1..]) + s)
  {
  }

  lemma FirstOff(t: string, s: string)
    requires t != []
    ensures [t[0]] + (t[1..] + s) == t + s
  {
  }

  lemma SegmentWritten(g: Segment, s: string, custom: set<char>, r: Record)
    requires WellFormed(g, custom)
    ensures Written(SegmentText(g) + s, custom, r) == SegmentShown(g, custom, r) + Written(s, custom, r)
  {
    hide Written, FlagShown, SpecPadding;
    match g
    case Text(text) => DoubledText(text, s, custom, r);
    case Flagged(side, digits, truncate, flag) => FlagWritten(side, digits, truncate, flag, s, custom, r);
  }

  // ----- the end of a pattern -----

  /** A percent sign, with or without the beginning of a specification, behind which the pattern ends. */
  predicate IsCut(cut: string, side: Side, digits: string, truncate: bool) {
    cut == [] || (AllDigits(digits) && (truncate ==> digits != []) && cut == ['%'] + SpecText(side, digits, truncate))
  }

  /** A flag that is missing writes nothing, and neither does its padding. */
  lemma CutWritten(cut: string, side: Side, digits: string, truncate: bool, custom: set<char>, r: Record)
    requires IsCut(cut, side, digits, truncate)
    ensures Written(cut, custom, r) == []
  {
    hide *;
    var spec := SpecText(side, digits, truncate);
    CutParts(cut, side, digits, truncate);
    if cut != [] {
      CutSpec(side, digits, truncate);
      PadSpecShift(['%'], spec, 0);
      PiecesStep(['%'] + spec, 0, custom);
    }
    NothingCompiled(cut, custom, r);
  }

  lemma CutParts(cut: string, side: Side, digits: string, truncate: bool)
    requires IsCut(cut, side, digits, truncate)
    ensures cut != [] ==> AllDigits(digits) && (truncate ==> digits != [])
    ensures cut != [] ==> cut == ['%'] + SpecText(side, digits, truncate) && cut[0] == '%'
  {
    hide SpecText;
  }

  lemma NothingCompiled(s: string, custom: set<char>, r: Record)
    ensures s == [] || Pieces(s, 0, custom) == [] ==> Written(s, custom, r) == []
  {
  }

  lemma CutSpec(side: Side, digits: string, truncate: bool)
    requires AllDigits(digits) && (truncate ==> digits != [])
    ensures PadSpec(SpecText(side, digits, truncate), 0).1 == |SpecText(side, digits, truncate)|
  {
    var whole := SpecText(side, digits, truncate);
    var j := |SideText(side)|;
    if digits != [] {
      var e := j + |digits|;
      assert whole[j] == digits[0];
      assert whole[j..e] == digits;
      assert e < |whole| ==> whole[e] == '!';
      RunEndIs(whole, j, e);
    }
    assert SideSpec(whole, 0) == (side, j);
  }

  /**
   * Every layout, with or without the beginning of a flag behind it, compiles to formatters that
   * write exactly what it means: text with its percent signs, known and custom flags with their
   * padding, messages in their fields, and unknown flags as they stand.
   */
  lemma {:induction false} LayoutIsExact(layout: seq<Segment>, cut: string, side: Side, digits: string, truncate: bool,
        custom: set<char>, r: Record)
    requires AllWellFormed(layout, custom) && IsCut(cut, side, digits, truncate)
    ensures Written(LayoutText(layout) + cut, custom, r) == LayoutShown(layout, custom, r)
    decreases |layout|
  {
    hide Written, WellFormed, SegmentText, SegmentShown, IsCut;
    if layout == [] {
      CutWritten(cut, side, digits, truncate, custom, r);
      assert [] + cut == cut;
    } else {
      LayoutIsExact(layout[1..], cut, side, digits, truncate, custom, r);
      SegmentWritten(layout[0], LayoutText(layout[1..]) + cut, custom, r);
      assert SegmentText(layout[0]) + LayoutText(layout[1..]) + cut
          == SegmentText(layout[0]) + (LayoutText(layout[1..]) + cut);
    }
  }

  /** A whole pattern: segments, and possibly the beginning of a flag. */
  datatype Layout = Layout(segments: seq<Segment>, cut: string, side: Side, digits: string, truncate: bool)

  predicate IsLayout(p: string, l: Layout, custom: set<char>) {
    && AllWellFormed(l.segments, custom) && IsCut(l.cut, l.side, l.digits, l.truncate)
    && p == LayoutText(l.segments) + l.cut
  }

  /** What is compiled from a pattern writes what any layout of the pattern means. */
  lemma PatternMeans(p: string, custom: set<char>, r: Record)
    ensures forall l: Layout :: IsLayout(p, l, custom) ==>
              Line(Pieces(p, 0, custom), r) == LayoutShown(l.segments, custom, r)
  {
    forall l: Layout | IsLayout(p, l, custom)
      ensures Line(Pieces(p, 0, custom), r) == LayoutShown(l.segments, custom, r)
    {
      hide Line, Pieces, LayoutShown, LayoutText, AllWellFormed, IsCut;
      LayoutIsExact(l.segments, l.cut, l.side, l.digits, l.truncate, custom, r);
    }
  }

  /** Every pattern has a layout, so there is none of which the meaning is left open. */
  lemma EveryPatternMeans(p: string, custom: set<char>) returns (l: Layout)
    ensures IsLayout(p, l, custom)
  {
    var layout, cut, side, digits, truncate := LayoutFound(p, 0, custom);
    l := Layout(layout, cut, side, digits, truncate);
    hide AllWellFormed, IsCut, LayoutText;
    assert p[0..] == p;
  }

  /** From any place on, a pattern is such a layout, so there is none of which the meaning is left open. */
  lemma {:induction false} LayoutFound(p: string, i: nat, custom: set<char>)
      returns (layout: seq<Segment>, cut: string, side: Side, digits: string, truncate: bool)
    requires i <= |p|
    ensures AllWellFormed(layout, custom) && IsCut(cut, side, digits, truncate)
    ensures p[i..] == LayoutText(layout) + cut
    decreases |p| - i
  {
    hide *;
    if i == |p| {
      layout, cut, side, digits, truncate := [], [], Left, [], false;
      EmptyLayout(side, digits, truncate, custom);
    } else if p[i] != '%' {
      layout, cut, side, digits, truncate := LayoutFound(p, i + 1, custom);
      PlainFound(p, i, layout, cut, custom);
      layout := [Text([p[i]])] + layout;
    } else {
      var j;
      side, digits, truncate, j := SpecFound(p, i + 1);
      if j == |p| {
        layout, cut := [], p[i..];
        EmptyLayout(side, digits, truncate, custom);
        CutFound(p, i, side, digits, truncate);
      } else {
        var first := Flagged(side, digits, truncate, p[j]);
        layout, cut, side, digits, truncate := LayoutFound(p, j + 1, custom);
        FlagFound(p, i, j, first, layout, cut, custom);
        layout := [first] + layout;
      }
    }
  }

  lemma EmptyLayout(side: Side, digits: string, truncate: bool, custom: set<char>)
    ensures AllWellFormed([], custom) && IsCut([], side, digits, truncate)
    ensures forall cut: string :: LayoutText([]) + cut == cut
  {
  }

  lemma PlainFound(p: string, i: nat, layout: seq<Segment>, cut: string, custom: set<char>)
    requires i < |p| && p[i] != '%' && AllWellFormed(layout, custom) && p[i + 1..] == LayoutText(layout) + cut
    ensures var whole := [Text([p[i]])] + layout; AllWellFormed(whole, custom) && p[i..] == LayoutText(whole) + cut
  {
    hide LayoutText, AllWellFormed, Doubled;
    var first := Text([p[i]]);
    OneCharacter(p[i]);
    MoreLayout(first, layout, custom);
    assert p[i..] == [p[i]] + (LayoutText(layout) + cut);
  }

  lemma OneCharacter(c: char)
    ensures c != '%' ==> Doubled([c]) == [c]
  {
  }

  lemma CutFound(p: string, i: nat, side: Side, digits: string, truncate: bool)
    requires i < |p| && p[i] == '%' && AllDigits(digits) && (truncate ==> digits != [])
    requires p[i + 1..|p|] == SpecText(side, digits, truncate)
    ensures IsCut(p[i..], side, digits, truncate)
  {
    hide SpecText;
    assert p[i..] == [p[i]] + p[i + 1..|p|];
  }

  lemma FlagFound(p: string, i: nat, j: nat, first: Segment, layout: seq<Segment>, cut: string, custom: set<char>)
    requires i < j < |p| && p[i] == '%' && first.Flagged? && first.flag == p[j]
    requires p[i + 1..j] == SpecText(first.side, first.digits, first.truncate)
    requires WellFormed(first, {}) && AllWellFormed(layout, custom) && p[j + 1..] == LayoutText(layout) + cut
    ensures AllWellFormed([first] + layout, custom) && p[i..] == LayoutText([first] + layout) + cut
  {
    assert WellFormed(first, custom);
    FlagText(first.side, first.digits, first.truncate, first.flag);
    hide *;
    MoreLayout(first, layout, custom);
    FlagSlice(p, i, j);
    Regroup(SegmentText(first), LayoutText(layout), cut);
  }

  lemma FlagSlice(p: string, i: nat, j: nat)
    requires i < j < |p|
    ensures p[i..] == ([p[i]] + (p[i + 1..j] + [p[j]])) + p[j + 1..]
  {
  }

  lemma Regroup(a: string, b: string, c: string)
    ensures a + (b + c) == a + b + c
  {
  }

  lemma MoreLayout(first: Segment, layout: seq<Segment>, custom: set<char>)
    requires WellFormed(first, custom) && AllWellFormed(layout, custom)
    ensures AllWellFormed([first] + layout, custom)
    ensures LayoutText([first] + layout) == SegmentText(first) + LayoutText(layout)
  {
    hide WellFormed, SegmentText;
    assert ([first] + layout)[1..] == layout;
  }

  /** The specification that stands at i, and a flag behind it that is not part of it. */
  lemma SpecFound(p: string, i: nat) returns (side: Side, digits: string, truncate: bool, j: nat)
    requires i <= |p|
    ensures i <= j <= |p| && p[i..j] == SpecText(side, digits, truncate)
    ensures AllDigits(digits) && (truncate ==> digits != [])
    ensures j < |p| ==> WellFormed(Flagged(side, digits, truncate, p[j]), {})
  {
    var start;
    side, start := SideSpec(p, i).0, SideSpec(p, i).1;
    digits, truncate, j := [], false, start;
    if start < |p| && IsDigit(p[start]) {
      var e := RunEnd(p, start);
      digits := p[start..e];
      truncate := e < |p| && p[e] == '!';
      j := if truncate then e + 1 else e;
      assert p[i..j] == p[i..start] + digits + p[e..j];
    }
    assert p[i..start] == SideText(side);
  }

  /** Doubling every percent sign of any text gives a pattern that writes that text. */
  lemma DoublingIsExact(t: string, custom: set<char>, r: Record)
    requires '%' !in custom
    ensures Written(Doubled(t), custom, r) == t
  {
    DoubledText(t, [], custom, r);
    assert Doubled(t) + [] == Doubled(t) && t + [] == t;
  }
}
