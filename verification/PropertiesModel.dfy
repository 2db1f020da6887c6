/** Java properties files: natural lines, logical lines, key and value fragments, escapes. */
module PropertiesModel {
  import opened Wrappers

  // ------------------------------------------------------------------------------- lines

  function LineLength(text: string): (n: nat)
    ensures n <= |text|
  {
    if text == "" || text[0] == '\r' || text[0] == '\n' then 0 else 1 + LineLength(text[1..])
  }

  /** Only CR, LF and CRLF end a natural line. */
  function NaturalLines(text: string): seq<string>
    decreases |text|
  {
    var n := LineLength(text);
    if n == |text| then [text]
    else
      var next := if text[n] == '\r' && n + 1 < |text| && text[n + 1] == '\n' then n + 2 else n + 1;
      [text[..n]] + NaturalLines(text[next..])
  }

  const FORM_FEED: char := 12 as char

  predicate IsBlank(c: char) {
    c == ' ' || c == '\t' || c == FORM_FEED
  }

  function SkipBlanks(s: string): (t: string)
    ensures |t| <= |s|
  {
    if s != "" && IsBlank(s[0]) then SkipBlanks(s[1..]) else s
  }

  predicate IsComment(natural: string) {
    var s := SkipBlanks(natural);
    s != "" && (s[0] == '#' || s[0] == '!')
  }

  function TrailingBackslashes(s: string): (n: nat)
    ensures n <= |s|
  {
    if s != "" && s[|s| - 1] == '\\' then 1 + TrailingBackslashes(s[..|s| - 1]) else 0
  }

  /** The line does not ask for a continuation. */
  predicate Complete(s: string) {
    TrailingBackslashes(s) % 2 == 0
  }

  datatype Logical = Logical(text: string, line: nat)

  /** A logical line still being continued, with the line it started on. */
  datatype Pending = Idle | Open(text: string, line: nat)

  function Current(pending: Pending, natural: string, number: nat): Logical {
    if pending.Idle? then Logical(natural, number) else Logical(pending.text + SkipBlanks(natural), pending.line)
  }

  /** Every logical line of some natural lines, the first of which has the given number. */
  function LogicalLines(pending: Pending, naturals: seq<string>, number: nat): seq<Logical>
    decreases |naturals|
  {
    if naturals == [] then
      if pending.Open? then [Logical(pending.text, pending.line)] else []
    else if pending.Idle? && IsComment(naturals[0]) then LogicalLines(Idle, naturals[1..], number + 1)
    else
      var current := Current(pending, naturals[0], number);
      if Complete(current.text) then [current] + LogicalLines(Idle, naturals[1..], number + 1)
      else LogicalLines(Open(current.text[..|current.text| - 1], current.line), naturals[1..], number + 1)
  }

  // ---------------------------------------------------------------------------- fragments

  predicate IsSeparator(c: char) {
    c == '=' || c == ':'
  }

  /** How long the key is: up to a separator or blank that no backslash escapes. */
  function KeyLength(s: string, escaped: bool): (n: nat)
    ensures n <= |s|
  {
    if s == "" || (!escaped && (IsSeparator(s[0]) || IsBlank(s[0]))) then 0
    else 1 + KeyLength(s[1..], s[0] == '\\' && !escaped)
  }

  /** What follows the key, without blanks and at most one separator. */
  function ValueOf(s: string): (t: string)
    ensures |t| <= |s|
  {
    var rest := SkipBlanks(s);
    if rest != "" && IsSeparator(rest[0]) then SkipBlanks(rest[1..]) else rest
  }

  datatype Fragments = Nothing | Fragments(key: string, value: string)

  function Split(line: string): Fragments {
    var s := SkipBlanks(line);
    if s == "" || s[0] == '#' || s[0] == '!' then Nothing
    else Fragments(s[..KeyLength(s, false)], ValueOf(s[KeyLength(s, false)..]))
  }

  // ------------------------------------------------------------------------------ escapes

  datatype Error = TrailingEscape | MalformedUnicode | InvalidSurrogate

  datatype Result<+T> = Ok(value: T) | Failed(error: Error)

  function HexValue(c: char): Option<nat> {
    if '0' <= c <= '9' then Some(c as int - '0' as int)
    else if 'A' <= c <= 'F' then Some(c as int - 'A' as int + 10)
    else if 'a' <= c <= 'f' then Some(c as int - 'a' as int + 10)
    else None
  }

  /** Four hexadecimal digits, most significant first. */
  function Hex4(s: string): Option<nat> {
    if |s| < 4 then None
    else
      var a, b, c, d := HexValue(s[0]), HexValue(s[1]), HexValue(s[2]), HexValue(s[3]);
      if a.None? || b.None? || c.None? || d.None? then None
      else Some(a.value * 4096 + b.value * 256 + c.value * 16 + d.value)
  }

  function Unescaped(c: char): nat {
    if c == 't' then 9 else if c == 'n' then 10 else if c == 'r' then 13 else if c == 'f' then 12 else c as int
  }

  function Before(unit: nat, rest: Result<seq<nat>>): Result<seq<nat>> {
    if rest.Ok? then Ok([unit] + rest.value) else rest
  }

  /** The code units of a fragment, escapes undone. */
  function Units(s: string): Result<seq<nat>> {
    if s == "" then Ok([])
    else if s[0] != '\\' then Before(s[0] as int, Units(s[1..]))
    else if |s| == 1 then Failed(TrailingEscape)
    else if s[1] != 'u' then Before(Unescaped(s[1]), Units(s[2..]))
    else if Hex4(s[2..]).None? then Failed(MalformedUnicode)
    else Before(Hex4(s[2..]).value, Units(s[6..]))
  }

  predicate IsHigh(u: nat) { 0xd800 <= u < 0xdc00 }
  predicate IsLow(u: nat) { 0xdc00 <= u < 0xe000 }

  /** UTF-16 decoding: surrogate pairs combine, and a lone surrogate is an error. */
  function CodePoints(units: seq<nat>): Result<seq<nat>> {
    if units == [] then Ok([])
    else if IsHigh(units[0]) then
      if |units| > 1 && IsLow(units[1]) then
        Before(0x1_0000 + (units[0] - 0xd800) * 0x400 + (units[1] - 0xdc00), CodePoints(units[2..]))
      else Failed(InvalidSurrogate)
    else if IsLow(units[0]) then Failed(InvalidSurrogate)
    else Before(units[0], CodePoints(units[1..]))
  }

  function Decode(fragment: string): Result<seq<nat>> {
    if Units(fragment).Ok? then CodePoints(Units(fragment).value) else Units(fragment)
  }

  // ------------------------------------------------------------------------------ the file

  datatype Entry = Entry(key: seq<nat>, value: seq<nat>, line: nat)

  function ParseLine(l: Logical): Result<seq<Entry>> {
    match Split(l.text)
    case Nothing => Ok([])
    case Fragments(key, value) =>
      if Decode(key).Failed? then Failed(Decode(key).error)
      else if Decode(value).Failed? then Failed(Decode(value).error)
      else Ok([Entry(Decode(key).value, Decode(value).value, l.line)])
  }

  function ParseLines(lines: seq<Logical>): Result<seq<Entry>> {
    if lines == [] then Ok([])
    else
      var first := ParseLine(lines[0]);
      if first.Failed? then first
      else
        var rest := ParseLines(lines[1..]);
        if rest.Ok? then Ok(first.value + rest.value) else rest
  }

  function ParseProperties(text: string): Result<seq<Entry>> {
    ParseLines(LogicalLines(Idle, NaturalLines(text), 1))
  }

  // ------------------------------------------------------ no fragment ends in an open escape

  lemma DroppingOneBackslash(s: string)
    requires !Complete(s)
    ensures Complete(s[..|s| - 1])
  {
  }

  /** Every logical line has an even run of trailing backslashes. */
  lemma {:induction false} LogicalLinesAreComplete(pending: Pending, naturals: seq<string>, number: nat)
    requires pending.Open? ==> Complete(pending.text)
    ensures forall l :: l in LogicalLines(pending, naturals, number) ==> Complete(l.text)
    decreases |naturals|
  {
    if naturals != [] {
      if pending.Idle? && IsComment(naturals[0]) {
        LogicalLinesAreComplete(Idle, naturals[1..], number + 1);
      } else {
        var current := Current(pending, naturals[0], number);
        if Complete(current.text) {
          LogicalLinesAreComplete(Idle, naturals[1..], number + 1);
        } else {
          DroppingOneBackslash(current.text);
          LogicalLinesAreComplete(Open(current.text[..|current.text| - 1], current.line), naturals[1..], number + 1);
        }
      }
    }
  }

  /** Whether an escape is open after some text. */
  function OpenAfter(s: string, escaped: bool): bool {
    if s == "" then escaped else OpenAfter(s[1..], s[0] == '\\' && !escaped)
  }

  lemma {:induction false} OpenAfterSnoc(s: string, c: char, escaped: bool)
    ensures OpenAfter(s + [c], escaped) == (c == '\\' && !OpenAfter(s, escaped))
    decreases |s|
  {
    if s != "" {
      assert (s + [c])[1..] == s[1..] + [c];
      OpenAfterSnoc(s[1..], c, s[0] == '\\' && !escaped);
    } else {
      assert (s + [c])[1..] == "";
    }
  }

  /** Counting trailing backslashes tells whether an escape is open. */
  lemma {:induction false} OpenMeansOdd(s: string)
    ensures OpenAfter(s, false) <==> !Complete(s)
    decreases |s|
  {
    if s != "" {
      var front, last := s[..|s| - 1], s[|s| - 1];
      assert s == front + [last];
      OpenAfterSnoc(front, last, false);
      OpenMeansOdd(front);
    }
  }

  lemma {:induction false} OpenAfterBoth(a: string, b: string, escaped: bool)
    ensures OpenAfter(a + b, escaped) == OpenAfter(b, OpenAfter(a, escaped))
    decreases |a|
  {
    if a == "" {
      assert a + b == b;
    } else {
      assert (a + b)[1..] == a[1..] + b;
      OpenAfterBoth(a[1..], b, a[0] == '\\' && !escaped);
    }
  }

  /** Decoding fails at the end of a fragment only when an escape is open there. */
  lemma {:induction false} TrailingEscapeIsOpen(s: string)
    ensures Units(s) == Failed(TrailingEscape) ==> OpenAfter(s, false)
    decreases |s|
  {
    if s != "" && s[0] != '\\' {
      TrailingEscapeIsOpen(s[1..]);
    } else if |s| > 1 {
      assert s[1..][1..] == s[2..];
      if s[1] != 'u' {
        TrailingEscapeIsOpen(s[2..]);
      } else if Hex4(s[2..]).Some? {
        FourMore(s[2..]);
        assert s[2..][4..] == s[6..];
        TrailingEscapeIsOpen(s[6..]);
      }
    }
  }

  lemma FourMore(s: string)
    requires Hex4(s).Some?
    ensures OpenAfter(s, false) == OpenAfter(s[4..], false)
  {
    assert OpenAfter(s, false) == OpenAfter(s[1..], false);
    assert s[1..][1..] == s[2..] && OpenAfter(s[1..], false) == OpenAfter(s[2..], false);
    assert s[2..][1..] == s[3..] && OpenAfter(s[2..], false) == OpenAfter(s[3..], false);
    assert s[3..][1..] == s[4..] && OpenAfter(s[3..], false) == OpenAfter(s[4..], false);
  }

  lemma {:induction false} BlanksCloseEscapes(s: string)
    ensures OpenAfter(SkipBlanks(s), false) == OpenAfter(s, false)
    decreases |s|
  {
    if s != "" && IsBlank(s[0]) {
      BlanksCloseEscapes(s[1..]);
    }
  }

  lemma {:induction false} KeyEndsClosed(s: string, escaped: bool)
    ensures KeyLength(s, escaped) < |s| ==> !OpenAfter(s[..KeyLength(s, escaped)], escaped)
    ensures KeyLength(s, escaped) < |s| ==> IsSeparator(s[KeyLength(s, escaped)]) || IsBlank(s[KeyLength(s, escaped)])
    decreases |s|
  {
    if !(s == "" || (!escaped && (IsSeparator(s[0]) || IsBlank(s[0])))) {
      var next := s[0] == '\\' && !escaped;
      KeyEndsClosed(s[1..], next);
      var n := KeyLength(s[1..], next);
      assert s[..n + 1][1..] == s[1..][..n];
    }
  }

  lemma ValueKeepsClosed(s: string)
    ensures OpenAfter(ValueOf(s), false) == OpenAfter(s, false)
  {
    var rest := SkipBlanks(s);
    BlanksCloseEscapes(s);
    if rest != "" && IsSeparator(rest[0]) {
      BlanksCloseEscapes(rest[1..]);
    }
  }

  /** Neither fragment of a complete line ends in an open escape. */
  lemma FragmentsAreClosed(line: string)
    requires Complete(line) && Split(line).Fragments?
    ensures !OpenAfter(Split(line).key, false) && !OpenAfter(Split(line).value, false)
  {
    OpenMeansOdd(line);
    BlanksCloseEscapes(line);
    var s := SkipBlanks(line);
    var n := KeyLength(s, false);
    KeyEndsClosed(s, false);
    if n < |s| {
      OpenAfterBoth(s[..n], s[n..], false);
      assert s[..n] + s[n..] == s;
      ValueKeepsClosed(s[n..]);
    } else {
      assert s[..n] == s;
    }
  }

  lemma LineHasNoTrailingEscape(l: Logical)
    requires Complete(l.text)
    ensures ParseLine(l) != Failed(TrailingEscape)
  {
    if Split(l.text).Fragments? {
      FragmentsAreClosed(l.text);
      TrailingEscapeIsOpen(Split(l.text).key);
      TrailingEscapeIsOpen(Split(l.text).value);
      SurrogatesAreNotTrailing(Split(l.text).key);
      SurrogatesAreNotTrailing(Split(l.text).value);
    }
  }

  lemma SurrogatesAreNotTrailing(s: string)
    ensures Decode(s) == Failed(TrailingEscape) ==> Units(s) == Failed(TrailingEscape)
  {
    if Units(s).Ok? {
      CodePointErrors(Units(s).value);
    }
  }

  lemma {:induction false} CodePointErrors(units: seq<nat>)
    ensures CodePoints(units).Failed? ==> CodePoints(units).error == InvalidSurrogate
  {
    if units != [] {
      if IsHigh(units[0]) && |units| > 1 && IsLow(units[1]) {
        CodePointErrors(units[2..]);
      } else if !IsHigh(units[0]) && !IsLow(units[0]) {
        CodePointErrors(units[1..]);
      }
    }
  }

  lemma {:induction false} LinesHaveNoTrailingEscape(lines: seq<Logical>)
    requires forall l :: l in lines ==> Complete(l.text)
    ensures ParseLines(lines) != Failed(TrailingEscape)
  {
    if lines != [] {
      LineHasNoTrailingEscape(lines[0]);
      LinesHaveNoTrailingEscape(lines[1..]);
    }
  }

  /** No file whatever reaches the trailing-escape failure. */
  lemma TrailingEscapeIsUnreachable(text: string)
    ensures ParseProperties(text) != Failed(TrailingEscape)
  {
    var naturals := NaturalLines(text);
    LogicalLinesAreComplete(Idle, naturals, 1);
    LinesHaveNoTrailingEscape(LogicalLines(Idle, naturals, 1));
  }
}
