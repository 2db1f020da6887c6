/** Properties files however they are laid out: any line ends, folded lines, blanks, separators, comments
    and empty lines. */
module PropertiesLayout {
  import opened PropertiesModel
  import opened PropertiesRoundTrip

  // ------------------------------------------------------------------------------- line ends

  predicate LineEnd(e: string) {
    e == "\r" || e == "\n" || e == "\r\n"
  }

  /** Lines with an end after each but the last. */
  function Woven(lines: seq<string>, ends: seq<string>): string
    requires |lines| == |ends| + 1
  {
    if ends == [] then lines[0] else lines[0] + (ends[0] + Woven(lines[1..], ends[1..]))
  }

  /** Every line is one line, every end an end, and no CR stands before an LF of another end. */
  predicate Weavable(lines: seq<string>, ends: seq<string>) {
    && |lines| == |ends| + 1
    && (forall i :: 0 <= i < |lines| ==> OneLine(lines[i]))
    && (forall i :: 0 <= i < |ends| ==> LineEnd(ends[i]))
    && (forall i :: 0 <= i < |ends| - 1 && ends[i] == "\r" && lines[i + 1] == "" ==> ends[i + 1] != "\n")
  }

  lemma {:induction false} LengthOfLine(line: string, rest: string)
    requires OneLine(line) && (rest == "" || rest[0] == '\r' || rest[0] == '\n')
    ensures LineLength(line + rest) == |line|
    decreases |line|
  {
    if line == "" {
      assert line + rest == rest;
    } else {
      assert (line + rest)[0] == line[0] && (line + rest)[1..] == line[1..] + rest;
      LengthOfLine(line[1..], rest);
    }
  }

  lemma FirstOfWoven(lines: seq<string>, ends: seq<string>)
    requires Weavable(lines, ends) && ends != []
    ensures ends[0] == "\r" ==>
      Woven(lines[1..], ends[1..]) == "" || Woven(lines[1..], ends[1..])[0] != '\n'
  {
    var rest := Woven(lines[1..], ends[1..]);
    if lines[1] != "" {
      assert rest[0] == lines[1][0];
    } else if |ends| > 1 {
      assert rest[0] == ends[1][0];
    }
  }

  lemma RestIsWeavable(lines: seq<string>, ends: seq<string>)
    requires Weavable(lines, ends) && ends != []
    ensures Weavable(lines[1..], ends[1..])
  {
    var l, e := lines[1..], ends[1..];
    forall i | 0 <= i < |e| - 1 && e[i] == "\r" && l[i + 1] == ""
      ensures e[i + 1] != "\n"
    {
      assert e[i] == ends[i + 1] && l[i + 1] == lines[i + 2] && e[i + 1] == ends[i + 2];
    }
  }

  lemma AfterLine(line: string, end: string, rest: string)
    requires LineEnd(end)
    ensures var text := line + (end + rest);
      && |text| == |line| + |end| + |rest| && text[..|line|] == line && text[|line|] == end[0]
      && text[|line| + |end|..] == rest && (|end| == 2 ==> text[|line| + 1] == '\n')
      && (|end| == 1 && rest != "" ==> text[|line| + 1] == rest[0])
  {
  }

  /** The first natural line, and what follows its end. */
  lemma FirstNatural(text: string, line: string, end: nat, rest: string)
    requires |line| == LineLength(text) < |text| && text[..|line|] == line
    requires end == if text[|line|] == '\r' && |line| + 1 < |text| && text[|line| + 1] == '\n' then 2 else 1
    requires text[|line| + end..] == rest
    ensures NaturalLines(text) == [line] + NaturalLines(rest)
  {
  }

  lemma EndIs(end: string, next: string)
    requires LineEnd(end) && (end == "\r" ==> next == "" || next[0] != '\n')
    ensures |end| == if end[0] == '\r' && |end + next| > 1 && (end + next)[1] == '\n' then 2 else 1
  {
  }

  lemma NaturalLinesStep(line: string, end: string, rest: string)
    requires OneLine(line) && LineEnd(end) && (end == "\r" ==> rest == "" || rest[0] != '\n')
    ensures NaturalLines(line + (end + rest)) == [line] + NaturalLines(rest)
  {
    var text := line + (end + rest);
    LengthOfLine(line, end + rest);
    AfterLine(line, end, rest);
    EndIs(end, rest);
    assert |line| + 1 < |text| ==> text[|line| + 1] == (end + rest)[1];
    FirstNatural(text, line, |end|, rest);
  }

  /** Whatever the line ends are, the natural lines are the lines. */
  lemma {:induction false} WovenLinesAreRead(lines: seq<string>, ends: seq<string>)
    requires Weavable(lines, ends)
    ensures NaturalLines(Woven(lines, ends)) == lines
    decreases |ends|
  {
    if ends == [] {
      LengthOfLine(lines[0], "");
      assert lines[0] + "" == lines[0] && lines == [lines[0]];
    } else {
      RestIsWeavable(lines, ends);
      WovenLinesAreRead(lines[1..], ends[1..]);
      FirstOfWoven(lines, ends);
      NaturalLinesStep(lines[0], ends[0], Woven(lines[1..], ends[1..]));
      assert [lines[0]] + lines[1..] == lines;
    }
  }

  // ------------------------------------------------------------------------------------ blanks

  /** Spaces, tabs and form feeds. */
  predicate OnlyBlanks(s: string) {
    forall i :: 0 <= i < |s| ==> s[i] == ' ' || s[i] == '\t' || s[i] == 12 as char
  }

  lemma {:induction false} SkipThrough(blanks: string, s: string)
    requires OnlyBlanks(blanks)
    ensures SkipBlanks(blanks + s) == SkipBlanks(s)
    decreases |blanks|
  {
    if blanks == "" {
      assert blanks + s == s;
    } else {
      assert (blanks + s)[0] == blanks[0] && (blanks + s)[1..] == blanks[1..] + s;
      SkipThrough(blanks[1..], s);
    }
  }

  // ----------------------------------------------------------------------------------- folding

  /** One more natural line of a folded line: its indentation and what it contributes. */
  datatype Fold = Fold(indent: string, part: string)

  function Unfolded(folds: seq<Fold>): string {
    if folds == [] then "" else folds[0].part + Unfolded(folds[1..])
  }

  /** A fold as a natural line, asking for a continuation or not. */
  function FoldLine(f: Fold, more: bool): string {
    f.indent + (f.part + (if more then "\\" else ""))
  }

  /** The natural lines of some folds: all but the last ask for a continuation. */
  function Continued(folds: seq<Fold>): seq<string> {
    if folds == [] then [] else [FoldLine(folds[0], |folds| > 1)] + Continued(folds[1..])
  }

  /** Folding cuts no escape in two, and no part begins with a blank, which would be lost. */
  predicate Foldable(text: string, folds: seq<Fold>)
    decreases |folds|
  {
    Complete(text) &&
    (folds == [] ||
     (OnlyBlanks(folds[0].indent) && SkipBlanks(folds[0].part) == folds[0].part
      && Foldable(text + folds[0].part, folds[1..])))
  }

  lemma OneMoreBackslash(s: string)
    ensures TrailingBackslashes(s + "\\") == 1 + TrailingBackslashes(s)
  {
    assert (s + "\\")[..|s|] == s;
  }

  lemma FoldedPart(part: string, tail: string)
    requires SkipBlanks(part) == part && (tail == "" || tail == "\\")
    ensures SkipBlanks(part + tail) == part + tail
  {
    if part == "" {
      assert part + tail == tail;
    } else {
      assert |SkipBlanks(part[1..])| < |part|;
      assert (part + tail)[0] == part[0];
    }
  }

  /** One natural line of a line that is being continued, which then reads c. */
  lemma OneContinuation(text: string, line: nat, natural: string, c: string, tail: seq<string>, number: nat)
    requires c == text + SkipBlanks(natural)
    ensures LogicalLines(Open(text, line), [natural] + tail, number) ==
      if Complete(c) then [Logical(c, line)] + LogicalLines(Idle, tail, number + 1)
      else LogicalLines(Open(c[..|c| - 1], line), tail, number + 1)
  {
    assert ([natural] + tail)[1..] == tail;
  }

  lemma DroppedBackslash(grown: string)
    requires Complete(grown)
    ensures var c := grown + "\\"; !Complete(c) && c[..|c| - 1] == grown
  {
    OneMoreBackslash(grown);
  }

  lemma AsksForMore(text: string, line: nat, natural: string, grown: string, tail: seq<string>, number: nat)
    requires text + SkipBlanks(natural) == grown + "\\" && Complete(grown)
    ensures LogicalLines(Open(text, line), [natural] + tail, number)
      == LogicalLines(Open(grown, line), tail, number + 1)
  {
    DroppedBackslash(grown);
    OneContinuation(text, line, natural, grown + "\\", tail, number);
  }

  /** A natural line that asks for more adds its part ... */
  lemma MiddleFold(text: string, line: nat, f: Fold, tail: seq<string>, number: nat)
    requires OnlyBlanks(f.indent) && SkipBlanks(f.part) == f.part && Complete(text + f.part)
    ensures LogicalLines(Open(text, line), [FoldLine(f, true)] + tail, number)
      == LogicalLines(Open(text + f.part, line), tail, number + 1)
  {
    FoldedPart(f.part, "\\");
    SkipThrough(f.indent, f.part + "\\");
    RegroupText(text, f.part, "\\");
    AsksForMore(text, line, FoldLine(f, true), text + f.part, tail, number);
  }

  /** ... and the last one ends the line. */
  lemma LastFold(text: string, line: nat, f: Fold, tail: seq<string>, number: nat)
    requires OnlyBlanks(f.indent) && SkipBlanks(f.part) == f.part && Complete(text + f.part)
    ensures LogicalLines(Open(text, line), [FoldLine(f, false)] + tail, number)
      == [Logical(text + f.part, line)] + LogicalLines(Idle, tail, number + 1)
  {
    assert f.part + "" == f.part;
    SkipThrough(f.indent, f.part);
    OneContinuation(text, line, FoldLine(f, false), text + f.part, tail, number);
  }

  lemma Regroup<T>(x: T, a: seq<T>, b: seq<T>)
    ensures [x] + a + b == [x] + (a + b)
  {
  }

  lemma RegroupText(a: string, b: string, c: string)
    ensures a + (b + c) == a + b + c
  {
  }

  /** A line that is being continued ends up as what its parts spell. */
  lemma {:induction false} ContinuedLinesJoin(text: string, line: nat, folds: seq<Fold>, rest: seq<string>,
                                              number: nat)
    requires folds != [] && Foldable(text, folds)
    ensures LogicalLines(Open(text, line), Continued(folds) + rest, number)
      == [Logical(text + Unfolded(folds), line)] + LogicalLines(Idle, rest, number + |folds|)
    decreases |folds|
  {
    var f, more := folds[0], folds[1..];
    Regroup(FoldLine(f, |folds| > 1), Continued(more), rest);
    RegroupText(text, f.part, Unfolded(more));
    if |folds| > 1 {
      MiddleFold(text, line, f, Continued(more) + rest, number);
      ContinuedLinesJoin(text + f.part, line, more, rest, number + 1);
    } else {
      LastFold(text, line, f, rest, number);
      assert more == [] && Continued(more) + rest == rest && text + f.part + "" == text + f.part;
    }
  }

  /** The natural lines of a logical line that begins with `first` and goes on with some folds. */
  function Folded(first: string, folds: seq<Fold>): seq<string> {
    if folds == [] then [first] else [first + "\\"] + Continued(folds)
  }

  lemma FirstOfFolded(first: string, tail: seq<string>, number: nat)
    requires Complete(first) && !IsComment(first + "\\")
    ensures LogicalLines(Idle, [first + "\\"] + tail, number) == LogicalLines(Open(first, number), tail, number + 1)
  {
    DroppedBackslash(first);
    assert ([first + "\\"] + tail)[1..] == tail;
  }

  /** A folded line is read as the line it was, under the number of its first natural line. */
  lemma FoldedLinesAreRead(first: string, folds: seq<Fold>, rest: seq<string>, number: nat)
    requires Foldable(first, folds) && !IsComment(if folds == [] then first else first + "\\")
    ensures LogicalLines(Idle, Folded(first, folds) + rest, number)
      == [Logical(first + Unfolded(folds), number)] + LogicalLines(Idle, rest, number + 1 + |folds|)
  {
    if folds == [] {
      OneLogicalLine(first, rest, number);
      assert first + "" == first;
    } else {
      var tail := Continued(folds) + rest;
      Regroup(first + "\\", Continued(folds), rest);
      calc {
        LogicalLines(Idle, Folded(first, folds) + rest, number);
        LogicalLines(Idle, [first + "\\"] + tail, number);
      ==  { FirstOfFolded(first, tail, number); }
        LogicalLines(Open(first, number), tail, number + 1);
      ==  { ContinuedLinesJoin(first, number, folds, rest, number + 1); }
        [Logical(first + Unfolded(folds), number)] + LogicalLines(Idle, rest, number + 1 + |folds|);
      }
    }
  }

  // --------------------------------------------------------------------------------- separators

  /** How a property is set: blanks before it, around its separator, and the separator. */
  datatype Style = Style(indent: string, before: string, separator: string, after: string)

  /** Blanks alone may separate, and a key without a value needs nothing. */
  predicate ValidStyle(p: Property, s: Style) {
    && OnlyBlanks(s.indent) && OnlyBlanks(s.before) && OnlyBlanks(s.after)
    && (s.separator == "=" || s.separator == ":" || s.separator == "")
    && (s.separator == "" ==> p.key != [] && (s.before + s.after != "" || p.value == []))
  }

  function Key(p: Property): string {
    Escaped(Encoded(p.key))
  }

  function Value(p: Property): string {
    Escaped(Encoded(p.value))
  }

  /** What follows the key. */
  function Tail(p: Property, s: Style): string {
    s.before + (s.separator + (s.after + Value(p)))
  }

  function StyledLine(p: Property, s: Style): string {
    s.indent + (Key(p) + Tail(p, s))
  }

  lemma ValueBegins(units: seq<Unit>)
    ensures SkipBlanks(Escaped(units)) == Escaped(units)
    ensures Escaped(units) != "" ==> !IsSeparator(Escaped(units)[0])
  {
    if units != [] {
      EscapedBeginsVisibly(units);
    }
  }

  lemma TailIsValue(p: Property, s: Style)
    requires ValidStyle(p, s)
    ensures ValueOf(Tail(p, s)) == Value(p)
  {
    var value := Value(p);
    ValueBegins(Encoded(p.value));
    SkipThrough(s.before, s.separator + (s.after + value));
    SkipThrough(s.after, value);
    if s.separator == "" {
      assert s.separator + (s.after + value) == s.after + value;
    } else {
      assert (s.separator + (s.after + value))[1..] == s.after + value;
    }
  }

  lemma {:induction false} EncodedIsSomething(text: seq<Scalar>)
    requires text != []
    ensures Encoded(text) != []
  {
  }

  lemma TailEndsKey(p: Property, s: Style)
    requires ValidStyle(p, s)
    ensures KeyLength(Tail(p, s), false) == 0
  {
    var tail := Tail(p, s);
    if s.before != "" {
      assert tail[0] == s.before[0];
    } else if s.separator != "" {
      assert tail[0] == s.separator[0];
    } else if s.after != "" {
      assert tail[0] == s.after[0];
    } else {
      assert tail == Value(p) == "";
    }
  }

  /** However a property is set, its key and value are found. */
  lemma StyledLinesAreSplit(p: Property, s: Style)
    requires ValidStyle(p, s)
    ensures Split(StyledLine(p, s)) == Fragments(Key(p), Value(p))
  {
    var body := Key(p) + Tail(p, s);
    SkipThrough(s.indent, body);
    if p.key != [] {
      EncodedIsSomething(p.key);
      EscapedBeginsVisibly(Encoded(p.key));
      assert body[0] == Key(p)[0];
      EscapedIsPassed(Encoded(p.key), Tail(p, s));
      TailEndsKey(p, s);
      TailIsValue(p, s);
      assert SkipBlanks(StyledLine(p, s)) == body;
      assert body[..|Key(p)|] == Key(p) && body[|Key(p)|..] == Tail(p, s);
    } else {
      KeylessLinesAreSplit(p, s);
    }
  }

  lemma KeylessLinesAreSplit(p: Property, s: Style)
    requires ValidStyle(p, s) && p.key == []
    ensures Split(StyledLine(p, s)) == Fragments("", Value(p))
  {
    var rest := Tail(p, s.(before := ""));
    TailIsValue(p, s.(before := ""));
    TailEndsKey(p, s.(before := ""));
    KeylessBody(p, s);
    assert rest[..0] == "" && rest[0..] == rest;
  }

  /** Without a key the line begins with its separator. */
  lemma KeylessBody(p: Property, s: Style)
    requires ValidStyle(p, s) && p.key == []
    ensures var rest := Tail(p, s.(before := ""));
      SkipBlanks(StyledLine(p, s)) == rest && rest != "" && rest[0] != '#' && rest[0] != '!'
  {
    var rest := s.separator + (s.after + Value(p));
    assert Key(p) == "" && Key(p) + Tail(p, s) == s.before + rest && "" + rest == rest;
    SkipThrough(s.indent, s.before + rest);
    SkipThrough(s.before, rest);
    assert rest[0] == s.separator[0];
  }

  // ------------------------------------------------------------------------------------ files

  /** What a file holds: lines that set nothing, and properties, styled and folded. */
  datatype Item = Ignored(natural: string) | Set(p: Property, style: Style, first: string, folds: seq<Fold>)

  /** Blanks, a number sign or an exclamation mark, and anything. */
  ghost predicate IsRemark(natural: string) {
    exists k :: 0 <= k < |natural| && OnlyBlanks(natural[..k]) && (natural[k] == '#' || natural[k] == '!')
  }

  lemma RemarksAreComments(natural: string)
    requires IsRemark(natural)
    ensures IsComment(natural)
  {
    var k :| 0 <= k < |natural| && OnlyBlanks(natural[..k]) && (natural[k] == '#' || natural[k] == '!');
    assert natural == natural[..k] + natural[k..];
    SkipThrough(natural[..k], natural[k..]);
  }

  ghost predicate ValidItem(item: Item) {
    match item
    case Ignored(natural) => IsRemark(natural) || OnlyBlanks(natural)
    case Set(p, style, first, folds) =>
      ValidStyle(p, style) && first + Unfolded(folds) == StyledLine(p, style) && Foldable(first, folds)
  }

  ghost predicate AllValid(items: seq<Item>) {
    items == [] || (ValidItem(items[0]) && AllValid(items[1..]))
  }

  function NaturalsOf(item: Item): seq<string> {
    match item
    case Ignored(natural) => [natural]
    case Set(_, _, first, folds) => Folded(first, folds)
  }

  function AllNaturals(items: seq<Item>): seq<string> {
    if items == [] then [] else NaturalsOf(items[0]) + AllNaturals(items[1..])
  }

  /** The properties, each with the number of its first natural line. */
  function EntriesOf(items: seq<Item>, number: nat): seq<Entry> {
    if items == [] then []
    else EntryOf(items[0], number) + EntriesOf(items[1..], number + LinesOf(items[0]))
  }

  function EntryOf(item: Item, number: nat): seq<Entry> {
    if item.Set? then [Entry(item.p.key, item.p.value, number)] else []
  }

  function LinesOf(item: Item): nat {
    if item.Set? then 1 + |item.folds| else 1
  }

  lemma {:induction false} PrefixIsNoComment(first: string, rest: string)
    requires !IsComment(first + rest)
    ensures !IsComment(first) && !IsComment(first + "\\")
    decreases |first|
  {
    if first == "" {
      assert first + "\\" == "\\";
    } else {
      assert (first + rest)[0] == first[0] && (first + rest)[1..] == first[1..] + rest;
      assert (first + "\\")[0] == first[0] && (first + "\\")[1..] == first[1..] + "\\";
      if IsBlank(first[0]) {
        PrefixIsNoComment(first[1..], rest);
      }
    }
  }

  lemma StyledLineIsParsed(p: Property, s: Style, number: nat)
    requires ValidStyle(p, s)
    ensures ParseLine(Logical(StyledLine(p, s), number)) == Ok([Entry(p.key, p.value, number)])
    ensures !IsComment(StyledLine(p, s))
  {
    StyledLinesAreSplit(p, s);
    EscapedTextIsDecoded(p.key);
    EscapedTextIsDecoded(p.value);
  }

  lemma OneMoreLine(l: Logical, lines: seq<Logical>, first: seq<Entry>, rest: seq<Entry>)
    requires ParseLine(l) == Ok(first) && ParseLines(lines) == Ok(rest)
    ensures ParseLines([l] + lines) == Ok(first + rest)
  {
    assert ([l] + lines)[1..] == lines;
  }

  lemma {:induction false} BlanksAreSkipped(s: string)
    requires OnlyBlanks(s)
    ensures SkipBlanks(s) == "" && Complete(s)
  {
    assert s + "" == s;
    SkipThrough(s, "");
  }

  /** The logical lines of an item: a comment has none. */
  function LogicalsOf(item: Item, number: nat): seq<Logical> {
    match item
    case Ignored(natural) => if IsComment(natural) then [] else [Logical(natural, number)]
    case Set(p, style, _, _) => [Logical(StyledLine(p, style), number)]
  }

  function AllLogicals(items: seq<Item>, number: nat): seq<Logical> {
    if items == [] then [] else LogicalsOf(items[0], number) + AllLogicals(items[1..], number + LinesOf(items[0]))
  }

  lemma CommentLine(natural: string, rest: seq<string>, number: nat)
    requires IsComment(natural)
    ensures LogicalLines(Idle, [natural] + rest, number) == LogicalLines(Idle, rest, number + 1)
  {
    assert ([natural] + rest)[1..] == rest;
  }

  lemma BlankLine(natural: string, rest: seq<string>, number: nat)
    requires OnlyBlanks(natural)
    ensures LogicalLines(Idle, [natural] + rest, number)
      == [Logical(natural, number)] + LogicalLines(Idle, rest, number + 1)
  {
    BlanksAreSkipped(natural);
    OneLogicalLine(natural, rest, number);
  }

  lemma SetLine(p: Property, s: Style, first: string, folds: seq<Fold>, rest: seq<string>, number: nat)
    requires ValidStyle(p, s) && first + Unfolded(folds) == StyledLine(p, s) && Foldable(first, folds)
    ensures LogicalLines(Idle, Folded(first, folds) + rest, number)
      == [Logical(StyledLine(p, s), number)] + LogicalLines(Idle, rest, number + 1 + |folds|)
  {
    StyledLineIsParsed(p, s, number);
    PrefixIsNoComment(first, Unfolded(folds));
    FoldedLinesAreRead(first, folds, rest, number);
  }

  /** The naturals and the logical lines of a file of items, item by item. */
  lemma ItemLines(item: Item, rest: seq<string>, number: nat, later: seq<Logical>)
    requires ValidItem(item) && LogicalLines(Idle, rest, number + LinesOf(item)) == later
    ensures LogicalLines(Idle, NaturalsOf(item) + rest, number) == LogicalsOf(item, number) + later
  {
    if item.Set? {
      SetLine(item.p, item.style, item.first, item.folds, rest, number);
    } else if IsComment(item.natural) {
      CommentLine(item.natural, rest, number);
      assert [] + later == later;
    } else {
      assert !IsRemark(item.natural) by {
        if IsRemark(item.natural) { RemarksAreComments(item.natural); }
      }
      BlankLine(item.natural, rest, number);
    }
  }

  lemma NoLines(number: nat)
    ensures LogicalLines(Idle, [], number) == []
  {
  }

  lemma OneMoreItem(items: seq<Item>, number: nat)
    requires items != []
    ensures AllNaturals(items) == NaturalsOf(items[0]) + AllNaturals(items[1..])
    ensures AllLogicals(items, number)
      == LogicalsOf(items[0], number) + AllLogicals(items[1..], number + LinesOf(items[0]))
  {
  }

  /** The natural lines, from a number on, make the logical ones. */
  predicate Make(naturals: seq<string>, number: nat, logicals: seq<Logical>) {
    LogicalLines(Idle, naturals, number) == logicals
  }

  lemma OneMoreRead(item: Item, naturals: seq<string>, number: nat, logicals: seq<Logical>)
    requires ValidItem(item) && Make(naturals, number + LinesOf(item), logicals)
    ensures Make(NaturalsOf(item) + naturals, number, LogicalsOf(item, number) + logicals)
  {
    ItemLines(item, naturals, number, logicals);
  }

  lemma {:induction false} LinesAreRead(items: seq<Item>, number: nat)
    requires AllValid(items)
    ensures Make(AllNaturals(items), number, AllLogicals(items, number))
    decreases |items|
  {
    if items == [] {
      NoLines(number);
    } else {
      var item, rest := items[0], items[1..];
      var next := number + LinesOf(item);
      OneMoreItem(items, number);
      LinesAreRead(rest, next);
      OneMoreRead(item, AllNaturals(rest), number, AllLogicals(rest, next));
    }
  }

  lemma ItemIsParsed(item: Item, lines: seq<Logical>, number: nat, entries: seq<Entry>)
    requires ValidItem(item) && ParseLines(lines) == Ok(entries)
    ensures ParseLines(LogicalsOf(item, number) + lines) == Ok(EntryOf(item, number) + entries)
  {
    match item
    case Ignored(natural) =>
      assert [] + entries == entries && [] + lines == lines;
      if IsRemark(natural) { RemarksAreComments(natural); }
      if !IsComment(natural) {
        BlanksAreSkipped(natural);
        OneMoreLine(Logical(natural, number), lines, [], entries);
      }
    case Set(p, style, _, _) =>
      StyledLineIsParsed(p, style, number);
      OneMoreLine(Logical(StyledLine(p, style), number), lines, EntryOf(item, number), entries);
  }

  lemma {:induction false} LogicalsAreParsed(items: seq<Item>, number: nat)
    requires AllValid(items)
    ensures ParseLines(AllLogicals(items, number)) == Ok(EntriesOf(items, number))
    decreases |items|
  {
    if items != [] {
      var next := number + LinesOf(items[0]);
      LogicalsAreParsed(items[1..], next);
      ItemIsParsed(items[0], AllLogicals(items[1..], next), number, EntriesOf(items[1..], next));
    }
  }

  /** Reading a file returns its properties in order with their line numbers, however the file is laid out. */
  lemma LaidOutFilesAreRead(items: seq<Item>, ends: seq<string>)
    requires AllValid(items) && Weavable(AllNaturals(items), ends)
    ensures ParseProperties(Woven(AllNaturals(items), ends)) == Ok(EntriesOf(items, 1))
  {
    WovenLinesAreRead(AllNaturals(items), ends);
    LinesAreRead(items, 1);
    LogicalsAreParsed(items, 1);
  }
}
