/** A reference writer for properties files, and the round trip through the reader. */
module PropertiesRoundTrip {
  import opened Wrappers
  import opened PropertiesModel

  // ------------------------------------------------------------------------------ the writer

  type HexDigit = x: int | 0 <= x < 16

  function Digit(d: HexDigit): (c: char)
    ensures HexValue(c) == Some(d) && c != '\\' && c != '\r' && c != '\n'
  {
    if d < 10 then (d + '0' as int) as char else (d - 10 + 'A' as int) as char
  }

  /** A UTF-16 code unit. */
  type Unit = x: nat | x < 0x1_0000

  function UnicodeEscape(u: Unit): string {
    var a := u / 16;
    var b := a / 16;
    "\\u" + [Digit(b / 16), Digit(b % 16), Digit(a % 16), Digit(u % 16)]
  }

  /** One code unit as a properties file should hold it: printable ASCII as itself, the
      characters with a meaning behind a backslash, and everything else as a Unicode escape. */
  function EscapedUnit(u: Unit): string {
    if u == 9 then "\\t" else if u == 10 then "\\n" else if u == 13 then "\\r" else if u == 12 then "\\f"
    else if u == ' ' as int || u == '=' as int || u == ':' as int || u == '#' as int || u == '!' as int
      || u == '\\' as int
      then ['\\', u as char]
    else if 0x21 <= u <= 0x7e then [u as char]
    else UnicodeEscape(u)
  }

  function Escaped(units: seq<Unit>): string {
    if units == [] then "" else EscapedUnit(units[0]) + Escaped(units[1..])
  }

  /** A Unicode scalar value. */
  type Scalar = p: int | 0 <= p < 0xd800 || 0xe000 <= p < 0x11_0000

  function EncodedScalar(p: Scalar): seq<Unit> {
    if p < 0x1_0000 then [p]
    else
      var offset: nat := p - 0x1_0000;
      assert offset / 0x400 < 0x400;
      [0xd800 + offset / 0x400, 0xdc00 + offset % 0x400]
  }

  /** UTF-16 encoding. */
  function Encoded(text: seq<Scalar>): seq<Unit> {
    if text == [] then [] else EncodedScalar(text[0]) + Encoded(text[1..])
  }

  datatype Property = Property(key: seq<Scalar>, value: seq<Scalar>)

  function WrittenLine(p: Property): string {
    Escaped(Encoded(p.key)) + ("=" + Escaped(Encoded(p.value)))
  }

  function Written(properties: seq<Property>): string {
    if properties == [] then "" else WrittenLine(properties[0]) + "\n" + Written(properties[1..])
  }

  /** The properties as the reader reports them, each on its own line. */
  function Entries(properties: seq<Property>, number: nat): seq<Entry> {
    if properties == [] then []
    else [Entry(properties[0].key, properties[0].value, number)] + Entries(properties[1..], number + 1)
  }

  // ------------------------------------------------------------------------ escapes undone

  lemma EncodedScalarIsDecoded(p: Scalar, rest: seq<nat>)
    ensures CodePoints(EncodedScalar(p) + rest) == Before(p, CodePoints(rest))
  {
    var units: seq<nat> := EncodedScalar(p) + rest;
    assert p < 0xd800 || 0xe000 <= p;
    if p < 0x1_0000 {
      assert units[0] == p && units[1..] == rest;
    } else {
      var offset: nat := p - 0x1_0000;
      assert offset / 0x400 < 0x400 && offset == offset / 0x400 * 0x400 + offset % 0x400;
      assert units[0] == 0xd800 + offset / 0x400 && units[1] == 0xdc00 + offset % 0x400 && units[2..] == rest;
    }
  }

  lemma {:induction false} EncodedIsDecoded(text: seq<Scalar>)
    ensures CodePoints(Encoded(text)) == Ok(text)
  {
    if text != [] {
      EncodedIsDecoded(text[1..]);
      EncodedScalarIsDecoded(text[0], Encoded(text[1..]));
      assert [text[0]] + text[1..] == text;
    }
  }

  lemma FourDigits(u: Unit)
    ensures Hex4(UnicodeEscape(u)[2..]) == Some(u)
  {
    var a := u / 16;
    var b := a / 16;
    var digits := UnicodeEscape(u)[2..];
    assert digits == [Digit(b / 16), Digit(b % 16), Digit(a % 16), Digit(u % 16)];
  }

  lemma Hex4Reads(e: string, rest: string)
    requires |e| == 6
    ensures Hex4((e + rest)[2..]) == Hex4(e[2..])
  {
    var d, s := e[2..], (e + rest)[2..];
    assert s == d + rest;
  }

  lemma EscapedUnitIsRead(u: Unit, rest: string)
    ensures Units(EscapedUnit(u) + rest) == Before(u, Units(rest))
  {
    var e := EscapedUnit(u);
    var s := e + rest;
    if |e| == 1 {
      assert s[1..] == rest;
    } else if |e| == 2 {
      assert s[0] == '\\' && s[1] == e[1] && s[2..] == rest;
    } else {
      FourDigits(u);
      Hex4Reads(e, rest);
      assert s[0] == '\\' && s[1] == 'u' && s[6..] == rest;
    }
  }

  lemma {:induction false} EscapedIsRead(units: seq<Unit>)
    ensures Units(Escaped(units)) == Ok(units)
  {
    if units != [] {
      EscapedIsRead(units[1..]);
      EscapedUnitIsRead(units[0], Escaped(units[1..]));
      assert [units[0]] + units[1..] == units;
    }
  }

  lemma EscapedTextIsDecoded(text: seq<Scalar>)
    ensures Decode(Escaped(Encoded(text))) == Ok(text)
  {
    EscapedIsRead(Encoded(text));
    EncodedIsDecoded(text);
  }

  // ------------------------------------------------------------------- where fragments end

  lemma EscapedUnitIsPassed(u: Unit, rest: string)
    ensures KeyLength(EscapedUnit(u) + rest, false) == |EscapedUnit(u)| + KeyLength(rest, false)
    ensures OpenAfter(EscapedUnit(u) + rest, false) == OpenAfter(rest, false)
    ensures !IsBlank(EscapedUnit(u)[0]) && EscapedUnit(u)[0] != '#' && EscapedUnit(u)[0] != '!'
  {
    var e := EscapedUnit(u);
    var s := e + rest;
    if |e| == 1 {
      assert s[1..] == rest;
    } else if |e| == 2 {
      assert s[1..][1..] == rest;
    } else {
      var d := s[2..];
      assert s[1..][1..] == d && d[4..] == rest;
      FourDigits(u);
      Hex4Reads(e, rest);
      DigitsArePassed(d);
    }
  }

  lemma DigitsArePassed(d: string)
    requires Hex4(d).Some?
    ensures KeyLength(d, false) == 4 + KeyLength(d[4..], false)
    ensures OpenAfter(d, false) == OpenAfter(d[4..], false)
  {
    FourMore(d);
    assert KeyLength(d, false) == 1 + KeyLength(d[1..], false);
    assert d[1..][1..] == d[2..] && KeyLength(d[1..], false) == 1 + KeyLength(d[2..], false);
    assert d[2..][1..] == d[3..] && KeyLength(d[2..], false) == 1 + KeyLength(d[3..], false);
    assert d[3..][1..] == d[4..] && KeyLength(d[3..], false) == 1 + KeyLength(d[4..], false);
  }

  lemma {:induction false} EscapedIsPassed(units: seq<Unit>, rest: string)
    ensures KeyLength(Escaped(units) + rest, false) == |Escaped(units)| + KeyLength(rest, false)
    ensures OpenAfter(Escaped(units) + rest, false) == OpenAfter(rest, false)
  {
    if units == [] {
      assert "" + rest == rest;
    } else {
      var tail := Escaped(units[1..]) + rest;
      assert Escaped(units) + rest == EscapedUnit(units[0]) + tail;
      EscapedUnitIsPassed(units[0], tail);
      EscapedIsPassed(units[1..], rest);
    }
  }

  lemma EscapedBeginsVisibly(units: seq<Unit>)
    requires units != []
    ensures var c := Escaped(units)[0]; !IsBlank(c) && c != '#' && c != '!' && !IsSeparator(c)
  {
    EscapedUnitIsPassed(units[0], "");
    assert !IsSeparator(EscapedUnit(units[0])[0]);
  }

  lemma ValueAfterSeparator(units: seq<Unit>)
    ensures ValueOf("=" + Escaped(units)) == Escaped(units)
  {
    var value := Escaped(units);
    assert ("=" + value)[1..] == value;
    if units != [] {
      EscapedBeginsVisibly(units);
    }
  }

  lemma WrittenLineBegins(p: Property)
    ensures SkipBlanks(WrittenLine(p)) == WrittenLine(p) && WrittenLine(p)[0] != '#' && WrittenLine(p)[0] != '!'
  {
    var key, line := Escaped(Encoded(p.key)), WrittenLine(p);
    if Encoded(p.key) != [] {
      EscapedBeginsVisibly(Encoded(p.key));
      assert line[0] == key[0] && !IsBlank(line[0]);
    } else {
      assert line[0] == '=';
    }
  }

  lemma SeparatorEndsKey(rest: string)
    ensures KeyLength("=" + rest, false) == 0
  {
    assert ("=" + rest)[0] == '=';
  }

  lemma WrittenKeyEnds(p: Property)
    ensures KeyLength(WrittenLine(p), false) == |Escaped(Encoded(p.key))|
  {
    EscapedIsPassed(Encoded(p.key), "=" + Escaped(Encoded(p.value)));
    SeparatorEndsKey(Escaped(Encoded(p.value)));
  }

  lemma WrittenLineIsSplit(p: Property)
    ensures Split(WrittenLine(p)) == Fragments(Escaped(Encoded(p.key)), Escaped(Encoded(p.value)))
  {
    var key, line := Escaped(Encoded(p.key)), WrittenLine(p);
    WrittenLineBegins(p);
    WrittenKeyEnds(p);
    assert line[..|key|] == key && line[|key|..] == "=" + Escaped(Encoded(p.value));
    ValueAfterSeparator(Encoded(p.value));
  }

  lemma WrittenLineIsClosed(p: Property)
    ensures !OpenAfter(WrittenLine(p), false)
  {
    var value := Escaped(Encoded(p.value));
    var tail := "=" + value;
    assert WrittenLine(p) == Escaped(Encoded(p.key)) + tail && tail[1..] == value && value + "" == value;
    EscapedIsPassed(Encoded(p.key), tail);
    EscapedIsPassed(Encoded(p.value), "");
  }

  lemma WrittenLineIsComplete(p: Property)
    ensures Complete(WrittenLine(p)) && !IsComment(WrittenLine(p))
  {
    WrittenLineIsClosed(p);
    OpenMeansOdd(WrittenLine(p));
    WrittenLineBegins(p);
  }

  lemma WrittenLineIsParsed(p: Property, number: nat)
    ensures ParseLine(Logical(WrittenLine(p), number)) == Ok([Entry(p.key, p.value, number)])
  {
    WrittenLineIsSplit(p);
    EscapedTextIsDecoded(p.key);
    EscapedTextIsDecoded(p.value);
  }

  // ------------------------------------------------------------------------------ the file

  predicate OneLine(s: string) {
    forall i :: 0 <= i < |s| ==> s[i] != '\r' && s[i] != '\n'
  }

  lemma {:induction false} EscapedIsOneLine(units: seq<Unit>)
    ensures OneLine(Escaped(units))
  {
    if units != [] {
      EscapedIsOneLine(units[1..]);
      assert OneLine(EscapedUnit(units[0]));
    }
  }

  lemma {:induction false} OneLineLength(s: string, rest: string)
    requires OneLine(s) && (rest == "" || rest[0] == '\n')
    ensures LineLength(s + rest) == |s|
    decreases |s|
  {
    if s == "" {
      assert s + rest == rest;
    } else {
      assert (s + rest)[0] == s[0] && (s + rest)[1..] == s[1..] + rest;
      OneLineLength(s[1..], rest);
    }
  }

  lemma FirstNaturalLine(line: string, rest: string)
    requires OneLine(line)
    ensures NaturalLines(line + ("\n" + rest)) == [line] + NaturalLines(rest)
  {
    OneLineLength(line, "\n" + rest);
    var text := line + ("\n" + rest);
    assert text[..|line|] == line && text[|line|] == '\n' && text[|line| + 1..] == rest;
  }

  lemma {:induction false} WrittenNaturalLines(properties: seq<Property>)
    ensures NaturalLines(Written(properties)) == WrittenLines(properties) + [""]
  {
    if properties != [] {
      var line, rest := WrittenLine(properties[0]), Written(properties[1..]);
      EscapedIsOneLine(Encoded(properties[0].key));
      EscapedIsOneLine(Encoded(properties[0].value));
      assert Written(properties) == line + ("\n" + rest);
      FirstNaturalLine(line, rest);
      WrittenNaturalLines(properties[1..]);
    }
  }

  function WrittenLines(properties: seq<Property>): seq<string> {
    if properties == [] then [] else [WrittenLine(properties[0])] + WrittenLines(properties[1..])
  }

  lemma LastLineIsEmpty(number: nat)
    ensures ParseLines(LogicalLines(Idle, [""], number)) == Ok([])
  {
    var last, lines := Logical("", number), LogicalLines(Idle, [""], number);
    assert [""][1..] == [] && LogicalLines(Idle, [], number + 1) == [];
    assert lines == [last] && ParseLine(last) == Ok([]) && lines[1..] == [];
    assert ParseLines(lines[1..]) == Ok([]);
    assert ParseLine(lines[0]).value + [] == [];
  }

  lemma OneLogicalLine(line: string, rest: seq<string>, number: nat)
    requires Complete(line) && !IsComment(line)
    ensures LogicalLines(Idle, [line] + rest, number) == [Logical(line, number)] + LogicalLines(Idle, rest, number + 1)
  {
    assert ([line] + rest)[1..] == rest;
  }

  lemma {:induction false} WrittenLogicalLines(properties: seq<Property>, number: nat)
    ensures ParseLines(LogicalLines(Idle, WrittenLines(properties) + [""], number)) == Ok(Entries(properties, number))
    decreases |properties|
  {
    if properties == [] {
      LastLineIsEmpty(number);
      assert WrittenLines(properties) + [""] == [""];
    } else {
      var line, rest := WrittenLine(properties[0]), WrittenLines(properties[1..]) + [""];
      assert WrittenLines(properties) + [""] == [line] + rest;
      WrittenLineIsComplete(properties[0]);
      OneLogicalLine(line, rest, number);
      var later := LogicalLines(Idle, rest, number + 1);
      assert ([Logical(line, number)] + later)[1..] == later;
      WrittenLineIsParsed(properties[0], number);
      WrittenLogicalLines(properties[1..], number + 1);
    }
  }

  /** Reading a written file returns the properties, in order, with their line numbers. */
  lemma WrittenFilesAreRead(properties: seq<Property>)
    ensures ParseProperties(Written(properties)) == Ok(Entries(properties, 1))
  {
    WrittenNaturalLines(properties);
    WrittenLogicalLines(properties, 1);
  }
}
