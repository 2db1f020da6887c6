/** The Java properties reader, loop by loop. */
module Properties {
  import opened PropertiesModel

  /** `_properties_logical_lines`. */
  method ReadLogicalLines(text: string) returns (logical: seq<Logical>)
    ensures logical == LogicalLines(Idle, NaturalLines(text), 1)
  {
    logical := [];
    var naturals := NaturalLines(text);
    var pending, index := Idle, 0;
    while index < |naturals|
      invariant index <= |naturals|
      invariant LogicalLines(Idle, naturals, 1) == logical + LogicalLines(pending, naturals[index..], index + 1)
    {
      var natural, number := naturals[index], index + 1;
      NextNaturalLine(pending, naturals, index);
      index := index + 1;
      if pending.Idle? && IsComment(natural) {
        continue;
      }
      var current := Current(pending, natural, number);
      var trailing := CountTrailing(current.text);
      if trailing % 2 == 1 {
        pending := Open(current.text[..|current.text| - 1], current.line);
        continue;
      }
      assert logical + ([current] + LogicalLines(Idle, naturals[index..], index + 1))
        == logical + [current] + LogicalLines(Idle, naturals[index..], index + 1);
      logical := logical + [current];
      pending := Idle;
    }
    if pending.Open? {
      logical := logical + [Logical(pending.text, pending.line)];
    }
  }

  lemma NextNaturalLine(pending: Pending, naturals: seq<string>, index: nat)
    requires index < |naturals|
    ensures LogicalLines(pending, naturals[index..], index + 1) ==
      (var current, rest := Current(pending, naturals[index], index + 1), naturals[index + 1..];
       if pending.Idle? && IsComment(naturals[index]) then LogicalLines(Idle, rest, index + 2)
       else if Complete(current.text) then [current] + LogicalLines(Idle, rest, index + 2)
       else LogicalLines(Open(current.text[..|current.text| - 1], current.line), rest, index + 2))
  {
    assert naturals[index..][0] == naturals[index] && naturals[index..][1..] == naturals[index + 1..];
  }

  method CountTrailing(s: string) returns (n: nat)
    ensures n == TrailingBackslashes(s)
  {
    n := 0;
    assert s[..|s| - n] == s;
    while n < |s| && s[|s| - 1 - n] == '\\'
      invariant n <= |s| && TrailingBackslashes(s) == n + TrailingBackslashes(s[..|s| - n])
    {
      assert s[..|s| - n][..|s| - n - 1] == s[..|s| - n - 1];
      n := n + 1;
    }
  }

  /** The index scans of `_split_property`. */
  method SplitProperty(line: string) returns (fragments: Fragments)
    ensures fragments == Split(line)
  {
    var keyStart := PastBlanks(line, 0);
    if keyStart == |line| || line[keyStart] == '#' || line[keyStart] == '!' {
      return Nothing;
    }
    var keyEnd := ScanKey(line, keyStart);
    var valueStart := ScanValue(line, keyEnd);
    assert line[keyStart..][..keyEnd - keyStart] == line[keyStart..keyEnd];
    assert line[keyStart..][keyEnd - keyStart..] == line[keyEnd..];
    fragments := Fragments(line[keyStart..keyEnd], line[valueStart..]);
  }

  method ScanValue(line: string, keyEnd: nat) returns (start: nat)
    requires keyEnd <= |line|
    ensures keyEnd <= start <= |line| && line[start..] == ValueOf(line[keyEnd..])
  {
    start := PastBlanks(line, keyEnd);
    if start < |line| && IsSeparator(line[start]) {
      assert line[start..][1..] == line[start + 1..];
      start := PastBlanks(line, start + 1);
    }
  }

  method PastBlanks(line: string, start: nat) returns (index: nat)
    requires start <= |line|
    ensures start <= index <= |line| && line[index..] == SkipBlanks(line[start..])
    ensures index < |line| ==> !IsBlank(line[index])
  {
    index := start;
    while index < |line| && IsBlank(line[index])
      invariant start <= index <= |line| && SkipBlanks(line[start..]) == SkipBlanks(line[index..])
    {
      assert line[index..][1..] == line[index + 1..];
      index := index + 1;
    }
  }

  method ScanKey(line: string, start: nat) returns (end: nat)
    requires start <= |line|
    ensures end == start + KeyLength(line[start..], false)
  {
    end := start;
    var escaped := false;
    while end < |line| && (escaped || !(IsSeparator(line[end]) || IsBlank(line[end])))
      invariant start <= end <= |line|
      invariant start + KeyLength(line[start..], false) == end + KeyLength(line[end..], escaped)
    {
      assert line[end..][1..] == line[end + 1..];
      escaped := line[end] == '\\' && !escaped;
      end := end + 1;
    }
  }

  /** `_decode_property_fragment`. */
  method DecodeFragment(fragment: string) returns (decoded: Result<seq<nat>>)
    ensures decoded == Decode(fragment)
  {
    var units: seq<nat> := [];
    var index := 0;
    assert fragment[index..] == fragment;
    WholeAfter(Units(fragment));
    while index < |fragment|
      invariant index <= |fragment|
      invariant Units(fragment) == After(units, Units(fragment[index..]))
    {
      var rest := fragment[index..];
      if rest[0] != '\\' {
        AfterOne(units, rest[0] as int, Units(rest[1..]));
        assert rest[1..] == fragment[index + 1..];
        units, index := units + [rest[0] as int], index + 1;
        continue;
      }
      if index + 1 == |fragment| {
        return Failed(TrailingEscape);
      }
      if rest[1] != 'u' {
        AfterOne(units, Unescaped(rest[1]), Units(rest[2..]));
        assert rest[2..] == fragment[index + 2..];
        units, index := units + [Unescaped(rest[1])], index + 2;
        continue;
      }
      var digits := Hex4(rest[2..]);
      if digits.None? {
        return Failed(MalformedUnicode);
      }
      AfterOne(units, digits.value, Units(rest[6..]));
      assert rest[6..] == fragment[index + 6..];
      units, index := units + [digits.value], index + 6;
    }
    assert units + [] == units;
    decoded := CodePoints(units);
  }

  function After(units: seq<nat>, rest: Result<seq<nat>>): Result<seq<nat>> {
    if rest.Ok? then Ok(units + rest.value) else rest
  }

  lemma WholeAfter(rest: Result<seq<nat>>)
    ensures After([], rest) == rest
  {
    if rest.Ok? {
      assert [] + rest.value == rest.value;
    }
  }

  lemma AfterOne(units: seq<nat>, unit: nat, rest: Result<seq<nat>>)
    ensures After(units, Before(unit, rest)) == After(units + [unit], rest)
  {
    if rest.Ok? {
      assert units + ([unit] + rest.value) == units + [unit] + rest.value;
    }
  }

  /** `_parse_java_properties`: the first failing fragment ends the reading. */
  method ParseJavaProperties(text: string) returns (parsed: Result<seq<Entry>>)
    ensures parsed == ParseProperties(text)
    ensures parsed != Failed(TrailingEscape)
  {
    TrailingEscapeIsUnreachable(text);
    var lines := ReadLogicalLines(text);
    var entries: seq<Entry> := [];
    var index := 0;
    assert lines[index..] == lines;
    JoinedWhole(ParseLines(lines));
    while index < |lines|
      invariant index <= |lines|
      invariant ParseLines(lines) == Joined(entries, ParseLines(lines[index..]))
    {
      var line := lines[index];
      assert lines[index..][0] == line && lines[index..][1..] == lines[index + 1..];
      var item := ReadLine(line);
      if item.Failed? {
        return item;
      }
      JoinedInOrder(entries, item.value, ParseLines(lines[index + 1..]));
      entries, index := entries + item.value, index + 1;
    }
    assert entries + [] == entries;
    parsed := Ok(entries);
  }

  method ReadLine(line: Logical) returns (item: Result<seq<Entry>>)
    ensures item == ParseLine(line)
  {
    var fragments := SplitProperty(line.text);
    if fragments.Nothing? {
      return Ok([]);
    }
    var key := DecodeFragment(fragments.key);
    if key.Failed? {
      return Failed(key.error);
    }
    var value := DecodeFragment(fragments.value);
    if value.Failed? {
      return Failed(value.error);
    }
    item := Ok([Entry(key.value, value.value, line.line)]);
  }

  function Joined(entries: seq<Entry>, rest: Result<seq<Entry>>): Result<seq<Entry>> {
    if rest.Ok? then Ok(entries + rest.value) else rest
  }

  lemma JoinedWhole(rest: Result<seq<Entry>>)
    ensures Joined([], rest) == rest
  {
    if rest.Ok? {
      assert [] + rest.value == rest.value;
    }
  }

  lemma JoinedInOrder(entries: seq<Entry>, more: seq<Entry>, rest: Result<seq<Entry>>)
    ensures Joined(entries, Joined(more, rest)) == Joined(entries + more, rest)
  {
    if rest.Ok? {
      assert entries + (more + rest.value) == entries + more + rest.value;
    }
  }
}
