/**
 * Parsing of format strings: replacement fields, doubled braces and text. Short strings go
 * through a loop over the characters, long ones through a loop that searches for braces; both
 * are proved against one reference grammar.
 */
module FormatParser {
  import opened DigitText
  import opened Decimal

  datatype ArgRef = Index(i: int) | Name(name: seq<char>)

  /** What the handler is told. Text is reported by character, so chunking makes no difference. */
  datatype Event = Text(c: char) | Field(arg: ArgRef) | FieldSpecs(arg: ArgRef, specs: seq<char>)

  /** The state of argument numbering and, from the handler, where format specifiers end. */
  datatype SpecResult = SpecError | SpecEnd(pos: nat, nextArg: int)

  /** Any handler: which names and arguments it accepts, and how it parses specifiers. */
  datatype Handler = Handler(
    knows: seq<char> -> bool, accepts: ArgRef -> bool, specs: (int, ArgRef, seq<char>, nat) -> SpecResult)

  datatype FieldResult = FieldError | FieldOk(next: nat, event: Event, nextArg: int)

  /** An error ends the parse. */
  datatype Outcome = Failed | Parsed(events: seq<Event>, nextArg: int)

  function Prepend(events: seq<Event>, o: Outcome): Outcome {
    match o
    case Failed => Failed
    case Parsed(rest, a) => Parsed(events + rest, a)
  }

  function Texts(t: seq<char>): (e: seq<Event>)
    ensures |e| == |t| && forall i :: 0 <= i < |t| ==> e[i] == Text(t[i])
  {
    seq(|t|, i requires 0 <= i < |t| => Text(t[i]))
  }

  // ----- the reference grammar -----

  predicate IsNameStart(c: char) {
    'a' <= c <= 'z' || 'A' <= c <= 'Z' || c == '_'
  }

  /** Where the identifier that begins before position i ends. */
  function NameEnd(s: seq<char>, i: nat): (j: nat)
    requires i <= |s|
    ensures i <= j <= |s|
    decreases |s| - i
  {
    if i < |s| && (IsNameStart(s[i]) || IsDigit(s[i])) then NameEnd(s, i + 1) else i
  }

  /** Numbers may only be given while none has been assigned, and switch automatic numbering off. */
  predicate CheckArg(nextArg: int) {
    nextArg <= 0
  }

  datatype ArgResult = ArgError | ArgOk(pos: nat, arg: ArgRef, nextArg: int)

  function AutoArg(pos: nat, nextArg: int): ArgResult {
    if nextArg >= 0 then ArgOk(pos, Index(nextArg), nextArg + 1) else ArgError
  }

  /** The argument id at position i: a number, an identifier, or nothing before a colon. */
  function ArgId(h: Handler, s: seq<char>, i: nat, nextArg: int): (r: ArgResult)
    requires i < |s|
    ensures r.ArgOk? ==> i <= r.pos <= |s|
  {
    var c := s[i];
    if c == '}' || c == ':' then AutoArg(i, nextArg)
    else if IsDigit(c) then
      var end := if c == '0' then i + 1 else RunEnd(s, i);
      var index := if c == '0' then 0 else ParsedInt(s[i..end], 0x7FFF_FFFF);
      if end == |s| || (s[end] != '}' && s[end] != ':') then ArgError
      else if CheckArg(nextArg) then ArgOk(end, Index(index), -1)
      else ArgError
    else if !IsNameStart(c) then ArgError
    else
      var end := NameEnd(s, i + 1);
      if h.knows(s[i..end]) then ArgOk(end, Name(s[i..end]), nextArg) else ArgError
  }

  /** What follows the argument id: the closing brace, or a colon and format specifiers. */
  function AfterArg(h: Handler, s: seq<char>, r: ArgResult): (f: FieldResult)
    ensures f.FieldOk? ==> r.ArgOk? && r.pos < f.next <= |s|
  {
    if r.ArgError? || r.pos >= |s| then FieldError
    else if s[r.pos] == '}' then
      if h.accepts(r.arg) then FieldOk(r.pos + 1, Field(r.arg), r.nextArg) else FieldError
    else if s[r.pos] == ':' then
      var e := h.specs(r.nextArg, r.arg, s, r.pos + 1);
      if e.SpecError? || e.pos >= |s| || e.pos < r.pos + 1 || s[e.pos] != '}' then FieldError
      else FieldOk(e.pos + 1, FieldSpecs(r.arg, s[r.pos + 1..e.pos]), e.nextArg)
    else FieldError
  }

  /** The replacement field, or the escaped brace, that begins at the brace at position p. */
  function ReplacementField(h: Handler, s: seq<char>, p: nat, nextArg: int): (f: FieldResult)
    requires p < |s| && s[p] == '{'
    ensures f.FieldOk? ==> p < f.next <= |s|
  {
    if p + 1 == |s| then FieldError
    else if s[p + 1] == '}' then AfterArg(h, s, AutoArg(p + 1, nextArg))
    else if s[p + 1] == '{' then FieldOk(p + 2, Text('{'), nextArg)
    else AfterArg(h, s, ArgId(h, s, p + 1, nextArg))
  }

  /** The meaning of a format string from position i on. */
  function Parse(h: Handler, s: seq<char>, i: nat, nextArg: int): Outcome
    requires i <= |s|
    decreases |s| - i
  {
    if i == |s| then Parsed([], nextArg)
    else if s[i] == '{' then
      match ReplacementField(h, s, i, nextArg)
      case FieldError => Failed
      case FieldOk(j, event, a) => Prepend([event], Parse(h, s, j, a))
    else if s[i] == '}' then
      if i + 1 < |s| && s[i + 1] == '}' then Prepend([Text('}')], Parse(h, s, i + 2, nextArg)) else Failed
    else Prepend([Text(s[i])], Parse(h, s, i + 1, nextArg))
  }

  // ----- the field parser -----

  method ParseReplacementField(h: Handler, s: seq<char>, p: nat, nextArg: int) returns (f: FieldResult)
    requires p < |s| && s[p] == '{'
    ensures f == ReplacementField(h, s, p, nextArg)
  {
    var begin := p + 1;
    if begin == |s| {
      return FieldError;
    }
    if s[begin] == '}' {
      if nextArg < 0 || !h.accepts(Index(nextArg)) {
        return FieldError;
      }
      return FieldOk(begin + 1, Field(Index(nextArg)), nextArg + 1);
    }
    if s[begin] == '{' {
      return FieldOk(begin + 1, Text('{'), nextArg);
    }
    var r := ParseArgId(h, s, begin, nextArg);
    if r.ArgError? {
      return FieldError;
    }
    begin := r.pos;
    if begin != |s| && s[begin] == '}' {
      return if h.accepts(r.arg) then FieldOk(begin + 1, Field(r.arg), r.nextArg) else FieldError;
    }
    if begin != |s| && s[begin] == ':' {
      var e := h.specs(r.nextArg, r.arg, s, begin + 1);
      if e.SpecError? || e.pos < begin + 1 || e.pos >= |s| || s[e.pos] != '}' {
        return FieldError;
      }
      return FieldOk(e.pos + 1, FieldSpecs(r.arg, s[begin + 1..e.pos]), e.nextArg);
    }
    f := FieldError;
  }

  method ParseArgId(h: Handler, s: seq<char>, start: nat, nextArg: int) returns (r: ArgResult)
    requires start < |s|
    ensures r == ArgId(h, s, start, nextArg)
  {
    var c := s[start];
    if c == '}' || c == ':' {
      return AutoArg(start, nextArg);
    }
    var begin := start;
    if IsDigit(c) {
      var index := 0;
      if c != '0' {
        index, begin := ParseNonnegativeInt(s, begin, 0x7FFF_FFFF);
      } else {
        begin := begin + 1;
      }
      if begin == |s| || (s[begin] != '}' && s[begin] != ':') || !CheckArg(nextArg) {
        return ArgError;
      }
      return ArgOk(begin, Index(index), -1);
    }
    if !IsNameStart(c) {
      return ArgError;
    }
    var it := begin + 1;
    while it != |s| && (IsNameStart(s[it]) || IsDigit(s[it]))
      invariant begin + 1 <= it <= |s| && NameEnd(s, it) == NameEnd(s, begin + 1)
      decreases |s| - it
    {
      it := it + 1;
    }
    r := if h.knows(s[begin..it]) then ArgOk(it, Name(s[begin..it]), nextArg) else ArgError;
  }

  // ----- the loop for short strings -----

  /** What has been reported so far, with the rest still to be parsed from position i, is the whole. */
  predicate Consumed(h: Handler, s: seq<char>, log: seq<Event>, i: nat, nextArg: int, whole: Outcome)
    requires i <= |s|
  {
    Prepend(log, Parse(h, s, i, nextArg)) == whole
  }

  lemma PrependTwice(a: seq<Event>, b: seq<Event>, o: Outcome)
    ensures Prepend(a, Prepend(b, o)) == Prepend(a + b, o)
  {
    if o.Parsed? {
      assert a + (b + o.events) == (a + b) + o.events;
    }
  }

  lemma ConsumedStart(h: Handler, s: seq<char>, nextArg: int)
    ensures Consumed(h, s, [], 0, nextArg, Parse(h, s, 0, nextArg))
  {
  }

  /** A plain character is only remembered. */
  lemma ConsumeChar(h: Handler, s: seq<char>, log: seq<Event>, begin: nat, p: nat, nextArg: int, whole: Outcome)
    requires begin <= p < |s| && s[p] != '{' && s[p] != '}'
    requires Consumed(h, s, log + Texts(s[begin..p]), p, nextArg, whole)
    ensures Consumed(h, s, log + Texts(s[begin..p + 1]), p + 1, nextArg, whole)
  {
    PrependTwice(log + Texts(s[begin..p]), [Text(s[p])], Parse(h, s, p + 1, nextArg));
    assert Texts(s[begin..p + 1]) == Texts(s[begin..p]) + [Text(s[p])];
    assert log + Texts(s[begin..p]) + [Text(s[p])] == log + Texts(s[begin..p + 1]);
  }

  lemma ConsumeClosing(h: Handler, s: seq<char>, log: seq<Event>, begin: nat, p: nat, nextArg: int, whole: Outcome)
    requires begin <= p < |s| && s[p] == '}'
    requires Consumed(h, s, log + Texts(s[begin..p]), p, nextArg, whole)
    ensures if p + 1 < |s| && s[p + 1] == '}'
            then Consumed(h, s, log + Texts(s[begin..p + 1]), p + 2, nextArg, whole)
            else whole == Failed
  {
    if p + 1 < |s| && s[p + 1] == '}' {
      PrependTwice(log + Texts(s[begin..p]), [Text('}')], Parse(h, s, p + 2, nextArg));
      assert Texts(s[begin..p + 1]) == Texts(s[begin..p]) + [Text('}')];
      assert log + Texts(s[begin..p]) + [Text('}')] == log + Texts(s[begin..p + 1]);
    }
  }

  lemma ConsumeField(h: Handler, s: seq<char>, log: seq<Event>, p: nat, nextArg: int, whole: Outcome)
    requires p < |s| && s[p] == '{' && Consumed(h, s, log, p, nextArg, whole)
    ensures var f := ReplacementField(h, s, p, nextArg);
            if f.FieldError? then whole == Failed
            else Consumed(h, s, log + [f.event], f.next, f.nextArg, whole)
  {
    var f := ReplacementField(h, s, p, nextArg);
    if f.FieldOk? {
      PrependTwice(log, [f.event], Parse(h, s, f.next, f.nextArg));
    }
  }

  lemma ConsumedAll(h: Handler, s: seq<char>, log: seq<Event>, nextArg: int, whole: Outcome)
    requires Consumed(h, s, log, |s|, nextArg, whole)
    ensures whole == Parsed(log, nextArg)
  {
    assert log + [] == log;
  }

  method ParseShort(h: Handler, s: seq<char>, start: int) returns (o: Outcome)
    ensures o == Parse(h, s, 0, start)
  {
    hide Parse, Consumed;
    ghost var whole := Parse(h, s, 0, start);
    ConsumedStart(h, s, start);
    var log: seq<Event> := [];
    var begin, p, nextArg := 0, 0, start;
    assert log + Texts(s[0..0]) == [];
    while p != |s|
      invariant begin <= p <= |s| && Consumed(h, s, log + Texts(s[begin..p]), p, nextArg, whole)
      decreases |s| - p
    {
      var c := s[p];
      if c == '{' {
        log := log + Texts(s[begin..p]);
        ConsumeField(h, s, log, p, nextArg, whole);
        var f := ParseReplacementField(h, s, p, nextArg);
        if f.FieldError? {
          return Failed;
        }
        log := log + [f.event];
        begin, p, nextArg := f.next, f.next, f.nextArg;
        assert log + Texts(s[begin..p]) == log;
      } else if c == '}' {
        ConsumeClosing(h, s, log, begin, p, nextArg, whole);
        if p + 1 == |s| || s[p + 1] != '}' {
          return Failed;
        }
        log := log + Texts(s[begin..p + 1]);
        begin, p := p + 2, p + 2;
        assert log + Texts(s[begin..p]) == log;
      } else {
        ConsumeChar(h, s, log, begin, p, nextArg, whole);
        p := p + 1;
      }
    }
    log := log + Texts(s[begin..|s|]);
    ConsumedAll(h, s, log, nextArg, whole);
    o := Parsed(log, nextArg);
  }

  // ----- the loop for long strings -----

  /** The first position from first up to last at which value stands. */
  method Find(s: seq<char>, first: nat, last: nat, value: char) returns (found: bool, out: nat)
    requires first <= last <= |s|
    ensures found ==> first <= out < last && s[out] == value
    ensures forall k :: first <= k < (if found then out else last) ==> s[k] != value
  {
    out := first;
    while out != last
      invariant first <= out <= last && forall k :: first <= k < out ==> s[k] != value
    {
      if s[out] == value {
        return true, out;
      }
      out := out + 1;
    }
    found := false;
  }

  /** Text up to the next replacement field, or the end, in which only closing braces need care. */
  predicate TextSegment(s: seq<char>, from: nat, end: nat) {
    from <= end <= |s| && (end == |s| || s[end] == '{') && forall k :: from <= k < end ==> s[k] != '{'
  }

  lemma {:induction false} ConsumeText(h: Handler, s: seq<char>, log: seq<Event>, begin: nat, p: nat,
        nextArg: int, whole: Outcome)
    requires begin <= p <= |s| && forall k :: begin <= k < p ==> s[k] != '{' && s[k] != '}'
    requires Consumed(h, s, log, begin, nextArg, whole)
    ensures Consumed(h, s, log + Texts(s[begin..p]), p, nextArg, whole)
    decreases p - begin
  {
    if begin == p {
      assert log + Texts(s[begin..p]) == log;
    } else {
      ConsumeText(h, s, log, begin, p - 1, nextArg, whole);
      ConsumeChar(h, s, log, begin, p - 1, nextArg, whole);
    }
  }

  /** The writer of the long loop: reports the text of a segment, undoubling closing braces. */
  method WriteText(h: Handler, s: seq<char>, from: nat, end: nat, log: seq<Event>, ghost nextArg: int,
        ghost whole: Outcome)
      returns (ok: bool, log': seq<Event>)
    requires TextSegment(s, from, end) && Consumed(h, s, log, from, nextArg, whole)
    ensures if ok then Consumed(h, s, log', end, nextArg, whole) else whole == Failed
  {
    hide Parse, Consumed;
    ok, log' := true, log;
    if from == end {
      return;
    }
    var begin := from;
    while true
      invariant from <= begin <= end && Consumed(h, s, log', begin, nextArg, whole)
      decreases end - begin
    {
      var found, p := Find(s, begin, end, '}');
      if !found {
        ConsumeText(h, s, log', begin, end, nextArg, whole);
        log' := log' + Texts(s[begin..end]);
        return true, log';
      }
      ConsumeText(h, s, log', begin, p, nextArg, whole);
      ConsumeClosing(h, s, log', begin, p, nextArg, whole);
      if p + 1 == end || s[p + 1] != '}' {
        return false, log';
      }
      log' := log' + Texts(s[begin..p + 1]);
      begin := p + 2;
    }
  }

  method ParseLong(h: Handler, s: seq<char>, start: int) returns (o: Outcome)
    ensures o == Parse(h, s, 0, start)
  {
    hide Parse, Consumed;
    ghost var whole := Parse(h, s, 0, start);
    ConsumedStart(h, s, start);
    var log: seq<Event> := [];
    var begin, nextArg := 0, start;
    while begin != |s|
      invariant begin <= |s| && Consumed(h, s, log, begin, nextArg, whole)
      decreases |s| - begin
    {
      var p := begin;
      var ok;
      if s[begin] != '{' {
        var found;
        found, p := Find(s, begin + 1, |s|, '{');
        if !found {
          ok, log := WriteText(h, s, begin, |s|, log, nextArg, whole);
          if !ok {
            return Failed;
          }
          ConsumedAll(h, s, log, nextArg, whole);
          return Parsed(log, nextArg);
        }
      }
      ok, log := WriteText(h, s, begin, p, log, nextArg, whole);
      if !ok {
        return Failed;
      }
      ConsumeField(h, s, log, p, nextArg, whole);
      var f := ParseReplacementField(h, s, p, nextArg);
      if f.FieldError? {
        return Failed;
      }
      log := log + [f.event];
      begin, nextArg := f.next, f.nextArg;
    }
    ConsumedAll(h, s, log, nextArg, whole);
    o := Parsed(log, nextArg);
  }

  /** Both loops give a format string the same meaning, so the length that selects one does not matter. */
  method ParseFormatString(h: Handler, s: seq<char>) returns (o: Outcome)
    ensures o == Parse(h, s, 0, 0)
  {
    if |s| < 32 {
      o := ParseShort(h, s, 0);
    } else {
      o := ParseLong(h, s, 0);
    }
  }

  // ----- escaping -----

  function Escape(c: char): seq<char> {
    if c == '{' || c == '}' then [c, c] else [c]
  }

  /** The text with every brace doubled. */
  function Doubled(t: seq<char>): seq<char> {
    if t == [] then [] else Escape(t[0]) + Doubled(t[1..])
  }

  /** Text with its braces doubled is reported as that text, wherever it stands in a string. */
  lemma {:induction false} DoubledFormatsBack(h: Handler, front: seq<char>, t: seq<char>, rest: seq<char>, nextArg: int)
    ensures var s := front + Doubled(t) + rest;
            Parse(h, s, |front|, nextArg) == Prepend(Texts(t), Parse(h, s, |front + Doubled(t)|, nextArg))
    decreases |t|
  {
    var s, i := front + Doubled(t) + rest, |front|;
    if t == [] {
      NothingFirst(Parse(h, s, i, nextArg));
    } else {
      var e := Escape(t[0]);
      assert s == (front + e) + Doubled(t[1..]) + rest && front + Doubled(t) == (front + e) + Doubled(t[1..]);
      DoubledFormatsBack(h, front + e, t[1..], rest, nextArg);
      assert s[i] == t[0] && (|e| == 2 ==> s[i + 1] == t[0]);
      assert Texts(t) == [Text(t[0])] + Texts(t[1..]);
      PrependTwice([Text(t[0])], Texts(t[1..]), Parse(h, s, |front + Doubled(t)|, nextArg));
    }
  }

  lemma NothingFirst(o: Outcome)
    ensures Prepend(Texts([]), o) == o
  {
  }

  /** What parses to nothing but text is that text with its braces doubled. */
  lemma {:induction false} TextOnlyIsDoubled(h: Handler, s: seq<char>, i: nat, t: seq<char>, nextArg: int)
    requires i <= |s| && Parse(h, s, i, nextArg) == Parsed(Texts(t), nextArg)
    ensures s[i..] == Doubled(t)
    decreases |s| - i
  {
    if i == |s| {
      assert t == [];
    } else {
      var step := if s[i] == '{' || s[i] == '}' then 2 else 1;
      var rest := Parse(h, s, i + step, nextArg);
      assert Texts(t)[0] == Text(t[0]);
      assert rest.Parsed? && rest.events == Texts(t)[1..] == Texts(t[1..]);
      TextOnlyIsDoubled(h, s, i + step, t[1..], nextArg);
      assert s[i..] == Escape(t[0]) + s[i + step..];
    }
  }

  /** Doubling braces is the only way to write a text, and it always works. */
  lemma EscapingIsExact(h: Handler, s: seq<char>, t: seq<char>, nextArg: int)
    ensures Parse(h, s, 0, nextArg) == Parsed(Texts(t), nextArg) <==> s == Doubled(t)
  {
    if s == Doubled(t) {
      assert s == [] + Doubled(t) + [] && [] + Doubled(t) == s;
      DoubledFormatsBack(h, [], t, [], nextArg);
      assert Texts(t) + [] == Texts(t);
    }
    if Parse(h, s, 0, nextArg) == Parsed(Texts(t), nextArg) {
      TextOnlyIsDoubled(h, s, 0, t, nextArg);
      assert s[0..] == s;
    }
  }

  // ----- layouts -----

  /** An argument as it is written in a field: left out, by number, or by name. */
  datatype ArgText = Auto | Numbered(digits: seq<char>) | Named(name: seq<char>)

  /** A piece of a format string: text, a field, or a field with specifiers and the numbering they leave. */
  datatype Segment =
    | Plain(text: seq<char>)
    | Bare(arg: ArgText)
    | Detailed(arg: ArgText, specs: seq<char>, after: int)

  function WrittenArg(arg: ArgText): seq<char> {
    match arg
    case Auto => []
    case Numbered(digits) => digits
    case Named(name) => name
  }

  function Written(g: Segment): seq<char> {
    match g
    case Plain(text) => Doubled(text)
    case Bare(arg) => ['{'] + (WrittenArg(arg) + ['}'])
    case Detailed(arg, specs, _) => ['{'] + (WrittenArg(arg) + ([':'] + (specs + ['}'])))
  }

  /** A letter, digit or underscore of ASCII. */
  predicate IsWordChar(c: char) {
    '0' <= c <= '9' || 'A' <= c <= 'Z' || c == '_' || 'a' <= c <= 'z'
  }

  predicate IsName(name: seq<char>) {
    name != [] && !('0' <= name[0] <= '9') && forall i :: 0 <= i < |name| ==> IsWordChar(name[i])
  }

  /** Digits without a needless zero at the front. */
  predicate IsNumeral(digits: seq<char>) {
    digits != [] && AllDigits(digits) && (digits[0] == '0' ==> |digits| == 1)
  }

  /** The index that a numeral stands for: one too large for an int is taken for the largest int. */
  function IndexOf(digits: seq<char>): int {
    if Number(digits) <= 0x7FFF_FFFF then Number(digits) else 0x7FFF_FFFF
  }

  /** The argument may be written so when numbering stands at nextArg. */
  predicate ArgFits(h: Handler, arg: ArgText, nextArg: int) {
    match arg
    case Auto => nextArg >= 0
    case Numbered(digits) => nextArg <= 0 && IsNumeral(digits)
    case Named(name) => IsName(name) && h.knows(name)
  }

  function Meant(arg: ArgText, nextArg: int): ArgRef {
    match arg
    case Auto => Index(nextArg)
    case Numbered(digits) => Index(IndexOf(digits))
    case Named(name) => Name(name)
  }

  function Numbering(arg: ArgText, nextArg: int): int {
    match arg
    case Auto => nextArg + 1
    case Numbered(_) => -1
    case Named(_) => nextArg
  }

  /** The handler takes exactly the specifiers, standing as they do between front and rest. */
  predicate TakesSpecs(h: Handler, g: Segment, nextArg: int, front: seq<char>, rest: seq<char>)
    requires g.Detailed?
  {
    h.specs(Numbering(g.arg, nextArg), Meant(g.arg, nextArg), front + (g.specs + ['}']) + rest, |front|)
    == SpecEnd(|front| + |g.specs|, g.after)
  }

  /** The segment may be written between front and rest when numbering stands at nextArg. */
  predicate Fits(h: Handler, g: Segment, nextArg: int, front: seq<char>, rest: seq<char>) {
    match g
    case Plain(_) => true
    case Bare(arg) => ArgFits(h, arg, nextArg) && h.accepts(Meant(arg, nextArg))
    case Detailed(arg, _, _) =>
      ArgFits(h, arg, nextArg) && TakesSpecs(h, g, nextArg, front + ['{'] + WrittenArg(arg) + [':'], rest)
  }

  function Events(g: Segment, nextArg: int): seq<Event> {
    match g
    case Plain(text) => Texts(text)
    case Bare(arg) => [Field(Meant(arg, nextArg))]
    case Detailed(arg, specs, _) => [FieldSpecs(Meant(arg, nextArg), specs)]
  }

  function After(g: Segment, nextArg: int): int {
    match g
    case Plain(_) => nextArg
    case Bare(arg) => Numbering(arg, nextArg)
    case Detailed(_, _, after) => after
  }

  function WrittenLayout(layout: seq<Segment>): seq<char> {
    if layout == [] then [] else Written(layout[0]) + WrittenLayout(layout[1..])
  }

  /** Every segment of the layout may be written where it stands behind front. */
  predicate LaidOut(h: Handler, front: seq<char>, layout: seq<Segment>, nextArg: int)
    decreases |layout|
  {
    layout == [] || (
      && Fits(h, layout[0], nextArg, front, WrittenLayout(layout[1..]))
      && LaidOut(h, front + Written(layout[0]), layout[1..], After(layout[0], nextArg)))
  }

  function LayoutOutcome(layout: seq<Segment>, nextArg: int): Outcome {
    if layout == [] then Parsed([], nextArg)
    else Prepend(Events(layout[0], nextArg), LayoutOutcome(layout[1..], After(layout[0], nextArg)))
  }

  lemma {:induction false} NameEndIs(s: seq<char>, i: nat, j: nat)
    requires i <= j < |s| && (forall k :: i <= k < j ==> IsNameStart(s[k]) || IsDigit(s[k]))
    requires !IsNameStart(s[j]) && !IsDigit(s[j])
    ensures NameEnd(s, i) == j
    decreases j - i
  {
    if i < j {
      NameEndIs(s, i + 1, j);
    }
  }

  /** A numeral behind an opening brace is read as the index it stands for. */
  lemma NumberedArg(h: Handler, front: seq<char>, digits: seq<char>, tail: seq<char>, nextArg: int)
    requires IsNumeral(digits) && nextArg <= 0
    requires tail != [] && (tail[0] == '}' || tail[0] == ':')
    ensures ArgId(h, front + (digits + tail), |front|, nextArg)
         == ArgOk(|front| + |digits|, Index(IndexOf(digits)), -1)
  {
    var s, i, e := front + (digits + tail), |front|, |front| + |digits|;
    assert s[i] == digits[0] && s[e] == tail[0] && s[i..e] == digits && IsDigit(digits[0]);
    ReadOrTooLarge(digits, 0x7FFF_FFFF);
    RunEndIs(s, i, e);
    NumberSingle([digits[0]]);
    assert |digits| == 1 ==> digits == [digits[0]];
    hide RunEnd, Number, ParsedInt;
  }

  lemma NamedArg(h: Handler, front: seq<char>, name: seq<char>, tail: seq<char>, nextArg: int)
    requires IsName(name) && h.knows(name) && tail != [] && (tail[0] == '}' || tail[0] == ':')
    ensures ArgId(h, front + (name + tail), |front|, nextArg) == ArgOk(|front| + |name|, Name(name), nextArg)
  {
    var s, i, e := front + (name + tail), |front|, |front| + |name|;
    assert s[i] == name[0] && s[e] == tail[0] && s[i..e] == name;
    assert forall k :: i <= k < e ==> s[k] == name[k - i];
    NameEndIs(s, i + 1, e);
    hide NameEnd, RunEnd;
  }

  /** An argument is read back as it was written. */
  lemma ArgRead(h: Handler, front: seq<char>, arg: ArgText, tail: seq<char>, nextArg: int)
    requires ArgFits(h, arg, nextArg) && tail != [] && (tail[0] == '}' || tail[0] == ':')
    ensures var s := front + (WrittenArg(arg) + tail);
            ArgId(h, s, |front|, nextArg)
            == ArgOk(|front| + |WrittenArg(arg)|, Meant(arg, nextArg), Numbering(arg, nextArg))
  {
    var s := front + (WrittenArg(arg) + tail);
    match arg
    case Auto => assert s[|front|] == tail[0];
    case Numbered(digits) => NumberedArg(h, front, digits, tail, nextArg);
    case Named(name) => NamedArg(h, front, name, tail, nextArg);
  }

  lemma ReadAsArg(h: Handler, s: seq<char>, p: nat, nextArg: int)
    requires p + 1 < |s| && s[p] == '{' && s[p + 1] != '{'
    ensures ReplacementField(h, s, p, nextArg) == AfterArg(h, s, ArgId(h, s, p + 1, nextArg))
  {
  }

  /** A written argument cannot be taken for an escaped brace. */
  lemma ArgStart(h: Handler, arg: ArgText, tail: seq<char>, nextArg: int)
    requires ArgFits(h, arg, nextArg) && tail != [] && (tail[0] == '}' || tail[0] == ':')
    ensures (WrittenArg(arg) + tail)[0] != '{'
  {
  }

  lemma ClosedField(h: Handler, s: seq<char>, r: ArgResult)
    requires r.ArgOk? && r.pos < |s| && s[r.pos] == '}' && h.accepts(r.arg)
    ensures AfterArg(h, s, r) == FieldOk(r.pos + 1, Field(r.arg), r.nextArg)
  {
  }

  lemma BareText(front: seq<char>, arg: seq<char>, rest: seq<char>)
    ensures var s := front + (['{'] + (arg + ['}'])) + rest;
            && s == (front + ['{']) + (arg + (['}'] + rest))
            && s[|front|] == '{' && s[|front| + 1] == (arg + (['}'] + rest))[0]
            && s[|front| + 1 + |arg|] == '}'
  {
  }

  lemma BareRead(h: Handler, front: seq<char>, arg: ArgText, rest: seq<char>, nextArg: int)
    requires ArgFits(h, arg, nextArg) && h.accepts(Meant(arg, nextArg))
    ensures var g := ['{'] + (WrittenArg(arg) + ['}']);
            ReplacementField(h, front + g + rest, |front|, nextArg)
            == FieldOk(|front + g|, Field(Meant(arg, nextArg)), Numbering(arg, nextArg))
  {
    hide *;
    var tail := ['}'] + rest;
    BareText(front, WrittenArg(arg), rest);
    ArgRead(h, front + ['{'], arg, tail, nextArg);
    ArgStart(h, arg, tail, nextArg);
    var s := (front + ['{']) + (WrittenArg(arg) + tail);
    ReadAsArg(h, s, |front|, nextArg);
    ClosedField(h, s, ArgId(h, s, |front| + 1, nextArg));
  }

  lemma SpecField(h: Handler, s: seq<char>, r: ArgResult, e: nat, after: int)
    requires r.ArgOk? && r.pos < e < |s| && s[r.pos] == ':' && s[e] == '}'
    requires h.specs(r.nextArg, r.arg, s, r.pos + 1) == SpecEnd(e, after)
    ensures AfterArg(h, s, r) == FieldOk(e + 1, FieldSpecs(r.arg, s[r.pos + 1..e]), after)
  {
  }

  lemma DetailedText(front: seq<char>, arg: seq<char>, specs: seq<char>, rest: seq<char>)
    ensures var s := front + (['{'] + (arg + ([':'] + (specs + ['}'])))) + rest;
            var tail := [':'] + (specs + ['}']) + rest; var before := front + ['{'] + arg + [':'];
            && s == (front + ['{']) + (arg + tail) == before + (specs + ['}']) + rest
            && s[|front|] == '{' && s[|front| + 1] == (arg + tail)[0]
            && s[|before| - 1] == ':' && s[|before|..|before| + |specs|] == specs && s[|before| + |specs|] == '}'
  {
  }

  lemma DetailedRead(h: Handler, front: seq<char>, g: Segment, rest: seq<char>, nextArg: int)
    requires g.Detailed? && ArgFits(h, g.arg, nextArg)
    requires TakesSpecs(h, g, nextArg, front + ['{'] + WrittenArg(g.arg) + [':'], rest)
    ensures var w := ['{'] + (WrittenArg(g.arg) + ([':'] + (g.specs + ['}'])));
            ReplacementField(h, front + w + rest, |front|, nextArg)
            == FieldOk(|front + w|, FieldSpecs(Meant(g.arg, nextArg), g.specs), g.after)
  {
    hide ArgFits, WrittenArg, ArgId, AfterArg, ReplacementField, Meant, Numbering;
    var tail, before := [':'] + (g.specs + ['}']) + rest, front + ['{'] + WrittenArg(g.arg) + [':'];
    DetailedText(front, WrittenArg(g.arg), g.specs, rest);
    ArgRead(h, front + ['{'], g.arg, tail, nextArg);
    ArgStart(h, g.arg, tail, nextArg);
    var s := (front + ['{']) + (WrittenArg(g.arg) + tail);
    ReadAsArg(h, s, |front|, nextArg);
    SpecField(h, s, ArgId(h, s, |front| + 1, nextArg), |before| + |g.specs|, g.after);
  }

  lemma SegmentRead(h: Handler, front: seq<char>, g: Segment, rest: seq<char>, nextArg: int)
    requires Fits(h, g, nextArg, front, rest)
    ensures var s := front + Written(g) + rest;
            Parse(h, s, |front|, nextArg)
            == Prepend(Events(g, nextArg), Parse(h, s, |front + Written(g)|, After(g, nextArg)))
  {
    if g.Plain? {
      DoubledFormatsBack(h, front, g.text, rest, nextArg);
    } else {
      FieldRead(h, front, g, rest, nextArg);
      hide ReplacementField;
    }
  }

  lemma FieldRead(h: Handler, front: seq<char>, g: Segment, rest: seq<char>, nextArg: int)
    requires !g.Plain? && Fits(h, g, nextArg, front, rest)
    ensures var s := front + Written(g) + rest;
            && s[|front|] == '{'
            && ReplacementField(h, s, |front|, nextArg)
               == FieldOk(|front + Written(g)|, Events(g, nextArg)[0], After(g, nextArg))
  {
    hide ArgFits, ReplacementField;
    if g.Bare? {
      BareRead(h, front, g.arg, rest, nextArg);
    } else {
      hide TakesSpecs;
      DetailedRead(h, front, g, rest, nextArg);
    }
  }

  /**
   * Any layout of texts, automatic, numbered and named fields, and fields with specifiers that the
   * handler takes where they stand, is parsed back to exactly those texts and fields.
   */
  lemma {:induction false} LayoutIsExact(h: Handler, front: seq<char>, layout: seq<Segment>, nextArg: int)
    requires LaidOut(h, front, layout, nextArg)
    ensures Parse(h, front + WrittenLayout(layout), |front|, nextArg) == LayoutOutcome(layout, nextArg)
    decreases |layout|
  {
    hide *;
    LayoutParts(h, front, layout, nextArg);
    if layout == [] {
      NothingLeft(h, front, nextArg);
    } else {
      var g, rest := layout[0], WrittenLayout(layout[1..]);
      SegmentRead(h, front, g, rest, nextArg);
      LayoutIsExact(h, front + Written(g), layout[1..], After(g, nextArg));
      Reassociate(front, Written(g), rest);
    }
  }

  lemma LayoutParts(h: Handler, front: seq<char>, layout: seq<Segment>, nextArg: int)
    requires LaidOut(h, front, layout, nextArg)
    ensures layout == [] ==> WrittenLayout(layout) == [] && LayoutOutcome(layout, nextArg) == Parsed([], nextArg)
    ensures layout != [] ==>
              && WrittenLayout(layout) == Written(layout[0]) + WrittenLayout(layout[1..])
              && Fits(h, layout[0], nextArg, front, WrittenLayout(layout[1..]))
              && LaidOut(h, front + Written(layout[0]), layout[1..], After(layout[0], nextArg))
              && LayoutOutcome(layout, nextArg)
                 == Prepend(Events(layout[0], nextArg), LayoutOutcome(layout[1..], After(layout[0], nextArg)))
  {
    hide Fits, Written, Events, After, Prepend;
  }

  lemma NothingLeft(h: Handler, front: seq<char>, nextArg: int)
    ensures front + [] == front && Parse(h, front, |front|, nextArg) == Parsed([], nextArg)
  {
  }

  lemma Reassociate(a: seq<char>, b: seq<char>, c: seq<char>)
    ensures a + (b + c) == a + b + c
  {
  }

  // ----- whatever parses is a layout -----

  lemma {:induction false} NameChars(s: seq<char>, i: nat, k: nat)
    requires i <= |s| && i <= k < NameEnd(s, i)
    ensures IsNameStart(s[k]) || IsDigit(s[k])
    decreases k - i
  {
    if i < k {
      NameChars(s, i + 1, k);
    }
  }

  lemma NameRead(s: seq<char>, i: nat)
    requires i < |s| && IsNameStart(s[i])
    ensures IsName(s[i..NameEnd(s, i + 1)])
  {
    var name := s[i..NameEnd(s, i + 1)];
    forall k | 0 < k < |name|
      ensures IsNameStart(name[k]) || IsDigit(name[k])
    {
      NameChars(s, i + 1, i + k);
    }
  }

  lemma NumeralFound(s: seq<char>, i: nat)
    requires i < |s| && IsDigit(s[i])
    ensures var end := if s[i] == '0' then i + 1 else RunEnd(s, i);
            var digits := s[i..end];
            && i < end && IsNumeral(digits)
            && IndexOf(digits) == if s[i] == '0' then 0 else ParsedInt(digits, 0x7FFF_FFFF)
  {
    NumberSingle([s[i]]);
    assert s[i..i + 1] == [s[i]];
    if s[i] != '0' {
      ReadOrTooLarge(s[i..RunEnd(s, i)], 0x7FFF_FFFF);
    }
    hide Number, ParsedInt;
  }

  /** What is read as an argument has been written as one. */
  lemma ArgFound(h: Handler, s: seq<char>, i: nat, nextArg: int) returns (arg: ArgText)
    requires i < |s|
    requires var r := ArgId(h, s, i, nextArg); r.ArgOk? && r.pos < |s| && (s[r.pos] == '}' || s[r.pos] == ':')
    ensures var r := ArgId(h, s, i, nextArg);
            && s[i..r.pos] == WrittenArg(arg) && ArgFits(h, arg, nextArg)
            && r.arg == Meant(arg, nextArg) && r.nextArg == Numbering(arg, nextArg)
  {
    hide Number, ParsedInt, RunEnd, NameEnd, IsName, IsNumeral, IndexOf;
    var r := ArgId(h, s, i, nextArg);
    if s[i] == '}' || s[i] == ':' {
      arg := Auto;
    } else if IsDigit(s[i]) {
      NumeralFound(s, i);
      arg := Numbered(s[i..r.pos]);
    } else {
      NameRead(s, i);
      arg := Named(s[i..r.pos]);
    }
  }

  /** How a field ends that has been read. */
  lemma EndFound(h: Handler, s: seq<char>, r: ArgResult)
    requires AfterArg(h, s, r).FieldOk?
    ensures var f := AfterArg(h, s, r);
            && r.ArgOk? && r.pos < f.next <= |s| && s[f.next - 1] == '}'
            && if s[r.pos] == '}' then f.next == r.pos + 1 && f.nextArg == r.nextArg && h.accepts(r.arg)
               else s[r.pos] == ':' && r.pos + 2 <= f.next
                    && h.specs(r.nextArg, r.arg, s, r.pos + 1) == SpecEnd(f.next - 1, f.nextArg)
  {
  }

  lemma BareFound(h: Handler, s: seq<char>, p: nat, end: nat, arg: ArgText, nextArg: int)
    requires p < end < |s| && s[p] == '{' && s[p + 1..end] == WrittenArg(arg) && s[end] == '}'
    requires ArgFits(h, arg, nextArg) && h.accepts(Meant(arg, nextArg))
    ensures s[p..end + 1] == Written(Bare(arg)) && Fits(h, Bare(arg), nextArg, s[..p], s[end + 1..])
    ensures After(Bare(arg), nextArg) == Numbering(arg, nextArg)
  {
    hide WrittenArg, Numbering, Meant, ArgFits;
    Enclosed(s, p, end);
  }

  lemma Enclosed(s: seq<char>, p: nat, end: nat)
    requires p < end < |s|
    ensures s[p..end + 1] == [s[p]] + (s[p + 1..end] + [s[end]])
  {
  }

  lemma DetailedFound(h: Handler, s: seq<char>, p: nat, colon: nat, next: nat, g: Segment, nextArg: int)
    requires p < colon && colon + 2 <= next <= |s| && g.Detailed? && g.specs == s[colon + 1..next - 1]
    requires s[p] == '{' && s[p + 1..colon] == WrittenArg(g.arg) && s[colon] == ':' && s[next - 1] == '}'
    requires ArgFits(h, g.arg, nextArg)
    requires h.specs(Numbering(g.arg, nextArg), Meant(g.arg, nextArg), s, colon + 1) == SpecEnd(next - 1, g.after)
    ensures s[p..next] == Written(g) && Fits(h, g, nextArg, s[..p], s[next..]) && After(g, nextArg) == g.after
  {
    hide WrittenArg, Numbering, Meant, ArgFits;
    var front := s[..p] + ['{'] + WrittenArg(g.arg) + [':'];
    assert front == s[..colon + 1];
    assert front + (g.specs + ['}']) + s[next..] == s;
    Enclosed(s, p, next - 1);
    assert s[p + 1..next - 1] == WrittenArg(g.arg) + ([':'] + g.specs);
    assert s[p..next] == Written(g);
  }

  /** What is read as a field has been written as one. */
  lemma FieldFound(h: Handler, s: seq<char>, p: nat, nextArg: int) returns (g: Segment)
    requires p + 1 < |s| && s[p] == '{' && s[p + 1] != '{' && ReplacementField(h, s, p, nextArg).FieldOk?
    ensures var f := ReplacementField(h, s, p, nextArg);
            && s[p..f.next] == Written(g) && Fits(h, g, nextArg, s[..p], s[f.next..]) && f.nextArg == After(g, nextArg)
  {
    hide *;
    ReadAsArg(h, s, p, nextArg);
    var r := ArgId(h, s, p + 1, nextArg);
    var f := AfterArg(h, s, r);
    EndFound(h, s, r);
    var arg := ArgFound(h, s, p + 1, nextArg);
    if s[r.pos] == '}' {
      g := Bare(arg);
      BareFound(h, s, p, r.pos, arg, nextArg);
    } else {
      g := Detailed(arg, s[r.pos + 1..f.next - 1], f.nextArg);
      DetailedFound(h, s, p, r.pos, f.next, g, nextArg);
    }
  }

  /** What is read next has been written as a segment. */
  lemma SegmentFound(h: Handler, s: seq<char>, i: nat, nextArg: int) returns (g: Segment, next: nat, after: int)
    requires i < |s| && Parse(h, s, i, nextArg).Parsed?
    ensures i < next <= |s| && s[i..next] == Written(g) && Fits(h, g, nextArg, s[..i], s[next..])
    ensures After(g, nextArg) == after && Parse(h, s, next, after).Parsed?
  {
    if s[i] == '{' {
      var f := ReplacementField(h, s, i, nextArg);
      next, after := f.next, f.nextArg;
      if s[i + 1] == '{' {
        g := Plain(['{']);
        assert s[i..i + 2] == Doubled(['{']);
      } else {
        hide ReplacementField, Written, Fits, After;
        g := FieldFound(h, s, i, nextArg);
      }
    } else {
      g, after := Plain([s[i]]), nextArg;
      next := if s[i] == '}' then i + 2 else i + 1;
      assert s[i..next] == Doubled([s[i]]);
    }
  }

  lemma LaidOutMore(h: Handler, front: seq<char>, g: Segment, rest: seq<Segment>, nextArg: int)
    requires Fits(h, g, nextArg, front, WrittenLayout(rest))
    requires LaidOut(h, front + Written(g), rest, After(g, nextArg))
    ensures LaidOut(h, front, [g] + rest, nextArg) && WrittenLayout([g] + rest) == Written(g) + WrittenLayout(rest)
  {
    hide Fits, Written, After;
    assert ([g] + rest)[1..] == rest;
  }

  /** Any format string that parses is the writing of some layout. */
  lemma {:induction false} LayoutFound(h: Handler, s: seq<char>, i: nat, nextArg: int) returns (layout: seq<Segment>)
    requires i <= |s| && Parse(h, s, i, nextArg).Parsed?
    ensures s[i..] == WrittenLayout(layout) && LaidOut(h, s[..i], layout, nextArg)
    decreases |s| - i
  {
    hide Parse, Fits, Written, After;
    if i == |s| {
      layout := [];
    } else {
      var g, next, after := SegmentFound(h, s, i, nextArg);
      var rest := LayoutFound(h, s, next, after);
      layout := [g] + rest;
      hide *;
      assert s[..i] + Written(g) == s[..next];
      assert s[i..] == s[i..next] + s[next..];
      LaidOutMore(h, s[..i], g, rest, nextArg);
    }
  }

  lemma {:induction false} OutcomeParsed(layout: seq<Segment>, nextArg: int)
    ensures LayoutOutcome(layout, nextArg).Parsed?
  {
    if layout != [] {
      OutcomeParsed(layout[1..], After(layout[0], nextArg));
    }
  }

  /** The format string is the writing of the layout, each segment of which may stand where it does. */
  predicate Writes(h: Handler, layout: seq<Segment>, s: seq<char>, nextArg: int) {
    s == WrittenLayout(layout) && LaidOut(h, [], layout, nextArg)
  }

  /** The strings that parse are exactly the writings of layouts, and they parse to what the layout says. */
  lemma ParsesExactly(h: Handler, s: seq<char>, nextArg: int)
    ensures Parse(h, s, 0, nextArg).Parsed? <==> exists layout :: Writes(h, layout, s, nextArg)
    ensures forall layout :: Writes(h, layout, s, nextArg) ==> Parse(h, s, 0, nextArg) == LayoutOutcome(layout, nextArg)
  {
    hide Parse, LaidOut, WrittenLayout, LayoutOutcome;
    forall layout | Writes(h, layout, s, nextArg)
      ensures Parse(h, s, 0, nextArg) == LayoutOutcome(layout, nextArg) && LayoutOutcome(layout, nextArg).Parsed?
    {
      assert [] + s == s;
      LayoutIsExact(h, [], layout, nextArg);
      OutcomeParsed(layout, nextArg);
    }
    if Parse(h, s, 0, nextArg).Parsed? {
      var layout := LayoutFound(h, s, 0, nextArg);
      assert s[0..] == s && s[..0] == [];
      assert Writes(h, layout, s, nextArg);
    }
  }
}
