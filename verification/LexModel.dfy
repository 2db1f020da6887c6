/** What the C++ lexer reports, described piece by piece over the source text. */
module LexModel {

  datatype Kind = Identifier | StringLiteral | Punctuation

  datatype Token = Token(value: string, start: nat, end: nat, line: int, kind: Kind,
                         conditionalDepth: nat, braceDepth: nat)

  datatype LineComment = LineComment(text: string, start: nat, end: nat, line: int, lineOnly: bool,
                                     conditionalDepth: nat, braceDepth: nat)

  datatype Directive = Directive(start: nat, end: nat, line: int, name: string)

  /** The host's character classification, a parameter beyond what is stated here. */
  datatype Classifier = Classifier(spaces: set<char>, letters: set<char>, alphanumerics: set<char>)
  {
    predicate IsSpace(c: char) { c in spaces }
    predicate IsAlpha(c: char) { c in letters }
    predicate IsAlnum(c: char) { c in alphanumerics }
  }

  predicate ValidClass(cc: Classifier) {
    && cc.letters <= cc.alphanumerics && cc.alphanumerics !! cc.spaces && '\n' in cc.spaces
    && cc.alphanumerics !! {'{', '}', ':', '<', '>', '&', '"', '\'', '#', '/', '.', '[', ']', '-'}
    && cc.spaces !! {'_', '"', '\'', '/', '#', '.', ':', '[', ']', '<', '>', '&'}
  }

  type CharClass = cc: Classifier | ValidClass(cc) witness Classifier({'\n'}, {}, {})

  predicate IdentifierStart(cc: CharClass, c: char) {
    cc.IsAlpha(c) || c == '_'
  }

  predicate IdentifierPart(cc: CharClass, c: char) {
    cc.IsAlnum(c) || c == '_'
  }

  /** The lexer's path through the text; block comments leave no record of their own. */
  datatype Piece =
    | TokenPiece(token: Token)
    | CommentPiece(comment: LineComment)
    | DirectivePiece(directive: Directive)
    | BlockPiece(from: nat, to: nat)
  {
    function Start(): nat {
      match this
      case TokenPiece(t) => t.start
      case CommentPiece(c) => c.start
      case DirectivePiece(d) => d.start
      case BlockPiece(from, _) => from
    }

    function End(): nat {
      match this
      case TokenPiece(t) => t.end
      case CommentPiece(c) => c.end
      case DirectivePiece(d) => d.end
      case BlockPiece(_, to) => to
    }
  }

  /** The pieces read so far, newest outermost. */
  datatype Trail = Nothing | Then(before: Trail, last: Piece)

  // ------------------------------------------------------------------------ text helpers

  predicate StartsAt(text: string, needle: string, at: nat) {
    at + |needle| <= |text| && Matches(text, needle, at, |needle|)
  }

  /** The first count characters of the needle stand in the text. */
  predicate Matches(text: string, needle: string, at: nat, count: nat)
    requires count <= |needle| && at + count <= |text|
  {
    count == 0 || (text[at + count - 1] == needle[count - 1] && Matches(text, needle, at, count - 1))
  }

  lemma {:induction false} MatchesAre(text: string, needle: string, at: nat, count: nat)
    requires count <= |needle| && at + count <= |text|
    ensures Matches(text, needle, at, count) <==> text[at..at + count] == needle[..count]
  {
    if count > 0 {
      MatchesAre(text, needle, at, count - 1);
      assert text[at..at + count] == text[at..at + count - 1] + [text[at + count - 1]];
      assert needle[..count] == needle[..count - 1] + [needle[count - 1]];
    }
  }

  lemma StartsAtIs(text: string, needle: string, at: nat)
    requires at + |needle| <= |text|
    ensures StartsAt(text, needle, at) <==> text[at..at + |needle|] == needle
  {
    MatchesAre(text, needle, at, |needle|);
    assert needle[..|needle|] == needle;
  }

  /** `text.find(needle, from)`; -1 when absent. */
  function Find(text: string, needle: string, from: nat): (r: int)
    ensures r == -1 || (from <= r && StartsAt(text, needle, r))
    decreases |text| - from
  {
    if from + |needle| > |text| then -1
    else if StartsAt(text, needle, from) then from
    else Find(text, needle, from + 1)
  }

  lemma {:induction false} FindIsFirst(text: string, needle: string, from: nat, k: nat)
    requires from <= k && (Find(text, needle, from) == -1 || k < Find(text, needle, from))
    ensures !StartsAt(text, needle, k)
    decreases |text| - from
  {
    if from + |needle| <= |text| && from < k {
      FindIsFirst(text, needle, from + 1, k);
    }
  }

  predicate Blank(cc: CharClass, text: string, from: nat, to: nat)
    requires to <= |text|
  {
    forall i :: from <= i < to ==> cc.IsSpace(text[i])
  }

  /** Only white space between the start of the line and an offset. */
  predicate BlankBefore(cc: CharClass, text: string, at: nat)
    requires at <= |text|
  {
    at == 0 || text[at - 1] == '\n' || (cc.IsSpace(text[at - 1]) && BlankBefore(cc, text, at - 1))
  }

  function Newlines(text: string, upto: nat): nat
    requires upto <= |text|
  {
    if upto == 0 then 0 else Newlines(text, upto - 1) + (if text[upto - 1] == '\n' then 1 else 0)
  }

  const LONG_PUNCTUATION := ["...", "::", "[[", "]]", "->"]
  const RAW_PREFIXES := ["u8R\"", "uR\"", "UR\"", "LR\"", "R\""]

  /** The first candidate from the i-th on that the text continues with; empty when none does. */
  function FirstMatch(text: string, at: nat, candidates: seq<string>, i: nat): (value: string)
    requires i <= |candidates|
    ensures value != "" ==> StartsAt(text, value, at)
    decreases |candidates| - i
  {
    if i == |candidates| then ""
    else if StartsAt(text, candidates[i], at) then candidates[i]
    else FirstMatch(text, at, candidates, i + 1)
  }

  lemma {:induction false} FirstMatchIsListed(text: string, at: nat, candidates: seq<string>, i: nat)
    requires i <= |candidates|
    ensures var value := FirstMatch(text, at, candidates, i); value != "" ==> value in candidates
    decreases |candidates| - i
  {
    if i < |candidates| && !StartsAt(text, candidates[i], at) {
      FirstMatchIsListed(text, at, candidates, i + 1);
    }
  }

  function LongPunctuation(text: string, at: nat): string {
    FirstMatch(text, at, LONG_PUNCTUATION, 0)
  }

  function PunctuationAt(text: string, at: nat): (value: string)
    requires at < |text|
    ensures value != "" && StartsAt(text, value, at)
  {
    if LongPunctuation(text, at) != "" then LongPunctuation(text, at) else [text[at]]
  }

  function RawPrefix(text: string, at: nat): string {
    FirstMatch(text, at, RAW_PREFIXES, 0)
  }

  /** Two spans of the text are the same. */
  predicate SameSpan(text: string, a: nat, b: nat, count: nat)
    requires a + count <= |text| && b + count <= |text|
  {
    count == 0 || (text[a + count - 1] == text[b + count - 1] && SameSpan(text, a, b, count - 1))
  }

  /** A closing parenthesis, the delimiter text[from..opening] and a quote stand at k. */
  predicate ClosesRaw(text: string, from: nat, opening: nat, k: nat)
    requires from <= opening <= |text|
  {
    var length := opening - from;
    k + length + 2 <= |text| && text[k] == ')' && SameSpan(text, from, k + 1, length) && text[k + length + 1] == '"'
  }

  /** Where the raw string ends when its closing is searched from k. */
  function RawClose(text: string, from: nat, opening: nat, k: nat): (r: int)
    requires from <= opening <= |text| && k <= |text|
    ensures k <= r <= |text|
    ensures r < |text| ==> r > 0 && text[r - 1] == '"'
    decreases |text| - k
  {
    if k == |text| then |text|
    else if ClosesRaw(text, from, opening, k) then k + (opening - from) + 2
    else RawClose(text, from, opening, k + 1)
  }

  /** A raw-string delimiter has no white space, backslash or parenthesis. */
  predicate IsDelimiter(cc: CharClass, text: string, from: nat, to: nat)
    requires to <= |text|
  {
    from >= to || (!cc.IsSpace(text[to - 1]) && text[to - 1] != '\\' && text[to - 1] != '(' && text[to - 1] != ')'
                   && IsDelimiter(cc, text, from, to - 1))
  }

  /** `_raw_string_end`: -1 when no raw string starts here; delimiters are at most 16 long. */
  function RawStringEnd(cc: CharClass, text: string, at: nat): (r: int)
    ensures r == -1 || at < r <= |text|
    ensures 0 <= r < |text| ==> text[r - 1] == '"'
  {
    var prefix := RawPrefix(text, at);
    if prefix == "" then -1
    else
      var from := at + |prefix|;
      var opening := Find(text, "(", from);
      if opening < 0 || opening >= from + 17 || !IsDelimiter(cc, text, from, opening) then -1
      else RawClose(text, from, opening, opening + 1)
  }

  /** Where a quoted literal ends when the scan stands at i inside it. */
  function QuotedEnd(text: string, quote: char, i: nat): (r: nat)
    requires i <= |text|
    ensures i <= r <= |text| && (r < |text| ==> r > 0 && text[r - 1] == quote)
    decreases |text| - i
  {
    if i == |text| then i
    else if text[i] == '\\' then if i + 2 <= |text| then QuotedEnd(text, quote, i + 2) else |text|
    else if text[i] == quote then i + 1
    else QuotedEnd(text, quote, i + 1)
  }

  /** Backslash-newline pairs in that literal: the line feeds its scan does not count. */
  function SkippedNewlines(text: string, quote: char, i: nat): nat
    requires i <= |text|
    decreases |text| - i
  {
    if i == |text| then 0
    else if text[i] == '\\' then
      if i + 2 <= |text| then (if text[i + 1] == '\n' then 1 else 0) + SkippedNewlines(text, quote, i + 2) else 0
    else if text[i] == quote then 0
    else SkippedNewlines(text, quote, i + 1)
  }

  /** The line feeds counted while a quoted literal is scanned from start to i. */
  ghost function Counted(text: string, quote: char, start: nat, i: nat): int
    requires start < i <= |text|
  {
    Newlines(text, i) - Newlines(text, start)
      + SkippedNewlines(text, quote, i) - SkippedNewlines(text, quote, start + 1)
  }

  ghost function QuotedLines(text: string, quote: char, start: nat, end: nat): int
    requires start < end <= |text|
  {
    Newlines(text, end) - Newlines(text, start) - SkippedNewlines(text, quote, start + 1)
  }

  lemma CountedStep(text: string, quote: char, start: nat, i: nat)
    requires start < i < |text| && quote != '\n' && quote != '\\'
    ensures text[i] == '\\' ==> var next := if i + 2 <= |text| then i + 2 else |text|;
      Counted(text, quote, start, next) == Counted(text, quote, start, i)
        && QuotedEnd(text, quote, next) == QuotedEnd(text, quote, i)
    ensures text[i] == quote ==>
      && Counted(text, quote, start, i) == QuotedLines(text, quote, start, i + 1)
      && QuotedEnd(text, quote, i) == i + 1
    ensures text[i] != '\\' && text[i] != quote ==>
      && QuotedEnd(text, quote, i + 1) == QuotedEnd(text, quote, i)
      && Counted(text, quote, start, i + 1) == Counted(text, quote, start, i) + (if text[i] == '\n' then 1 else 0)
  {
    assert Newlines(text, i + 1) == Newlines(text, i) + (if text[i] == '\n' then 1 else 0);
    if i + 2 <= |text| {
      assert Newlines(text, i + 2) == Newlines(text, i + 1) + (if text[i + 1] == '\n' then 1 else 0);
    }
  }

  lemma QuotedLinesAre(text: string, start: nat, end: nat)
    requires start < end <= |text|
    ensures QuotedLines(text, text[start], start, end)
      == Newlines(text, end) - Newlines(text, start) - SkippedNewlines(text, text[start], start + 1)
  {
  }

  /** The next line feed, or the end of the text. */
  function LineEnd(text: string, from: nat): (end: nat)
    requires from <= |text|
    ensures from <= end <= |text| && (end < |text| ==> text[end] == '\n')
    decreases |text| - from
  {
    if from == |text| || text[from] == '\n' then from else LineEnd(text, from + 1)
  }

  lemma {:induction false} LineEndIsFirst(text: string, from: nat)
    requires from <= |text|
    ensures forall k :: from <= k < LineEnd(text, from) ==> text[k] != '\n'
    decreases |text| - from
  {
    if from < |text| && text[from] != '\n' {
      LineEndIsFirst(text, from + 1);
    }
  }

  /** Backslashes immediately before offset at, not looking before start. */
  function Backslashes(text: string, start: nat, at: nat): nat
    requires at <= |text|
  {
    if at > start && text[at - 1] == '\\' then 1 + Backslashes(text, start, at - 1) else 0
  }

  /** A directive runs to the first line feed not escaped by an odd run of backslashes. */
  function DirectiveEnd(text: string, start: nat, from: nat): (end: nat)
    requires start <= from <= |text|
    ensures from <= end <= |text| && (from < |text| ==> from < end)
    ensures from < end < |text| ==> text[end - 1] == '\n'
    decreases |text| - from
  {
    var newline := LineEnd(text, from);
    if newline == |text| then |text|
    else if Backslashes(text, start, newline) % 2 == 0 then newline + 1
    else DirectiveEnd(text, start, newline + 1)
  }

  /** The name of a directive: `#`, blanks, then an ASCII identifier; empty when there is none. */
  function DirectiveName(line: string): string {
    if line == "" then "" else NameIn(SkipBlanks(line[1..]))
  }

  function SkipBlanks(s: string): string {
    if s != "" && (s[0] == ' ' || s[0] == '\t') then SkipBlanks(s[1..]) else s
  }

  predicate AsciiLetter(c: char) {
    'A' <= c <= 'Z' || 'a' <= c <= 'z' || c == '_'
  }

  function NameIn(s: string): string {
    if s == "" || !AsciiLetter(s[0]) then "" else [s[0]] + NameRest(s[1..])
  }

  function NameRest(s: string): string {
    if s != "" && (AsciiLetter(s[0]) || '0' <= s[0] <= '9') then [s[0]] + NameRest(s[1..]) else ""
  }

  // --------------------------------------------------------------------- faithful pieces

  predicate IsQuoted(text: string, t: Token) {
    t.kind.StringLiteral? && t.start < |text| && (text[t.start] == '"' || text[t.start] == '\'')
  }

  /** The piece is what the text holds between its bounds, and no shorter than it should be. */
  predicate Reads(cc: CharClass, text: string, p: Piece) {
    p.Start() < p.End() <= |text| &&
    match p
    case TokenPiece(t) => (
      match t.kind
      case Identifier =>
        && t.value == text[t.start..t.end]
        && IdentifierStart(cc, text[t.start])
        && (forall i :: t.start <= i < t.end ==> IdentifierPart(cc, text[i]))
        && (t.end < |text| ==> !IdentifierPart(cc, text[t.end]))
      case Punctuation => t.value == text[t.start..t.end] && t.value == PunctuationAt(text, t.start)
      case StringLiteral =>
        && t.value == "<string>"
        && t.end == (if IsQuoted(text, t) then QuotedEnd(text, text[t.start], t.start + 1)
                     else RawStringEnd(cc, text, t.start)))
    case CommentPiece(c) =>
      && StartsAt(text, "//", c.start) && c.end == LineEnd(text, c.start + 2)
      && c.text == text[c.start + 2..c.end] && c.lineOnly == BlankBefore(cc, text, c.start)
    case DirectivePiece(d) =>
      && text[d.start] == '#' && d.end == DirectiveEnd(text, d.start, d.start)
      && d.name == DirectiveName(text[d.start..LineEnd(text, d.start)])
    case BlockPiece(from, to) =>
      && StartsAt(text, "/*", from)
      && to == (if Find(text, "*/", from + 2) < 0 then |text| else Find(text, "*/", from + 2) + 2)
  }

  /** What has to be read at a place: `#` opens a directive only at the start of a line, then
      come comments, raw strings, quoted literals, identifiers and punctuation. */
  predicate Chosen(cc: CharClass, text: string, p: Piece)
    requires p.Start() < |text|
  {
    var at, c := p.Start(), text[p.Start()];
    if cc.IsSpace(c) then false
    else if c == '#' && BlankBefore(cc, text, at) then p.DirectivePiece?
    else if StartsAt(text, "//", at) then p.CommentPiece?
    else if StartsAt(text, "/*", at) then p.BlockPiece?
    else p.TokenPiece? && p.token.kind == TokenKind(cc, text, at)
  }

  /** The pieces are in order and disjoint, and between them there is only white space. */
  ghost predicate Covers(cc: CharClass, text: string, trail: Trail, upto: nat)
    requires upto <= |text|
    decreases trail
  {
    if trail.Nothing? then Blank(cc, text, 0, upto)
    else
      && trail.last.Start() < trail.last.End() <= upto
      && Blank(cc, text, trail.last.End(), upto)
      && Covers(cc, text, trail.before, trail.last.Start())
  }

  /** The trail holds a piece, read after some others. */
  predicate Holds(trail: Trail, before: Trail, p: Piece) {
    trail.Then? && ((trail.before == before && trail.last == p) || Holds(trail.before, before, p))
  }

  /** Every piece reads what the text holds, and is what has to be read there. */
  ghost predicate AllRead(cc: CharClass, text: string, trail: Trail) {
    forall b, p :: Holds(trail, b, p) ==> Reads(cc, text, p) && Chosen(cc, text, p)
  }

  lemma AllReadBefore(cc: CharClass, text: string, trail: Trail)
    requires trail.Then? && AllRead(cc, text, trail)
    ensures AllRead(cc, text, trail.before) && Reads(cc, text, trail.last) && Chosen(cc, text, trail.last)
  {
    assert Holds(trail, trail.before, trail.last);
    assert forall b, p :: Holds(trail.before, b, p) ==> Holds(trail, b, p);
  }

  function Tokens(trail: Trail): seq<Token> {
    if trail.Nothing? then []
    else if trail.last.TokenPiece? then Tokens(trail.before) + [trail.last.token]
    else Tokens(trail.before)
  }

  function Comments(trail: Trail): seq<LineComment> {
    if trail.Nothing? then []
    else if trail.last.CommentPiece? then Comments(trail.before) + [trail.last.comment]
    else Comments(trail.before)
  }

  function Directives(trail: Trail): seq<Directive> {
    if trail.Nothing? then []
    else if trail.last.DirectivePiece? then Directives(trail.before) + [trail.last.directive]
    else Directives(trail.before)
  }

  // --------------------------------------------------------------------- recorded depths

  function NextConditional(depth: nat, name: string): nat {
    if name == "if" || name == "ifdef" || name == "ifndef" then depth + 1
    else if name == "endif" && depth > 0 then depth - 1
    else depth
  }

  function ConditionalDepth(trail: Trail): nat {
    if trail.Nothing? then 0
    else
      var before := ConditionalDepth(trail.before);
      if trail.last.DirectivePiece? then NextConditional(before, trail.last.directive.name) else before
  }

  predicate IsActive(t: Token) {
    t.conditionalDepth == 0
  }

  /** Depth after one more token: only active braces count, and it never goes below zero. */
  function NextDepth(depth: nat, t: Token): nat {
    if !IsActive(t) then depth
    else if t.value == "{" then depth + 1
    else if t.value == "}" && depth > 0 then depth - 1
    else depth
  }

  function DepthAfter(tokens: seq<Token>): nat {
    if tokens == [] then 0 else NextDepth(DepthAfter(tokens[..|tokens| - 1]), tokens[|tokens| - 1])
  }

  /** Line feeds the lexer has lost track of so far. */
  function Missed(text: string, trail: Trail): nat {
    if trail.Nothing? then 0
    else
      var p := trail.last;
      Missed(text, trail.before) +
      (if p.TokenPiece? && IsQuoted(text, p.token)
        then SkippedNewlines(text, text[p.token.start], p.token.start + 1) else 0)
  }

  predicate LineIs(text: string, missed: nat, at: nat, line: int) {
    at <= |text| && line + missed == 1 + Newlines(text, at)
  }

  /** The record carries the depths in force before it and the line it starts on; a quoted
      literal carries the line it ends on. */
  predicate RecordedIn(text: string, depth: nat, conditional: nat, missed: nat, p: Piece) {
    match p
    case TokenPiece(t) =>
      && t.braceDepth == depth && t.conditionalDepth == conditional
      && (if IsQuoted(text, t)
          then LineIs(text, missed + SkippedNewlines(text, text[t.start], t.start + 1), t.end, t.line)
          else LineIs(text, missed, t.start, t.line))
    case CommentPiece(c) =>
      c.braceDepth == depth && c.conditionalDepth == conditional && LineIs(text, missed, c.start, c.line)
    case DirectivePiece(d) => LineIs(text, missed, d.start, d.line)
    case BlockPiece(_, _) => true
  }

  ghost predicate Records(text: string, trail: Trail) {
    forall b, p :: Holds(trail, b, p) ==>
      RecordedIn(text, DepthAfter(Tokens(b)), ConditionalDepth(b), Missed(text, b), p)
  }

  lemma RecordsBefore(text: string, trail: Trail)
    requires trail.Then? && Records(text, trail)
    ensures Records(text, trail.before)
    ensures RecordedIn(text, DepthAfter(Tokens(trail.before)), ConditionalDepth(trail.before),
      Missed(text, trail.before), trail.last)
  {
    assert Holds(trail, trail.before, trail.last);
    assert forall b, p :: Holds(trail.before, b, p) ==> Holds(trail, b, p);
  }

  lemma RecordsAfter(text: string, trail: Trail, p: Piece)
    requires Records(text, trail)
    requires RecordedIn(text, DepthAfter(Tokens(trail)), ConditionalDepth(trail), Missed(text, trail), p)
    ensures Records(text, Then(trail, p))
  {
    assert forall b, q :: Holds(Then(trail, p), b, q) ==> Holds(trail, b, q) || (b == trail && q == p);
  }

  /** A complete, faithful account of the whole text. */
  ghost predicate Account(cc: CharClass, text: string, trail: Trail, tokens: seq<Token>, comments: seq<LineComment>,
                          directives: seq<Directive>)
  {
    && Covers(cc, text, trail, |text|) && AllRead(cc, text, trail) && Records(text, trail)
    && tokens == Tokens(trail) && comments == Comments(trail) && directives == Directives(trail)
  }

  /** The lexer's bookkeeping after reading up to some offset. */
  ghost predicate Standing(cc: CharClass, text: string, trail: Trail, upto: nat, line: int, conditional: nat,
                           depth: nat) {
    && upto <= |text| && Covers(cc, text, trail, upto) && Records(text, trail)
    && conditional == ConditionalDepth(trail) && depth == DepthAfter(Tokens(trail))
    && LineIs(text, Missed(text, trail), upto, line)
  }

  lemma StandingOnBlank(cc: CharClass, text: string, trail: Trail, upto: nat, line: int, conditional: nat, depth: nat)
    requires Standing(cc, text, trail, upto, line, conditional, depth)
    requires upto < |text| && cc.IsSpace(text[upto])
    ensures Standing(cc, text, trail, upto + 1, if text[upto] == '\n' then line + 1 else line, conditional, depth)
  {
  }

  lemma DepthAfterOneMore(tokens: seq<Token>, t: Token)
    ensures DepthAfter(tokens + [t]) == NextDepth(DepthAfter(tokens), t)
  {
    assert (tokens + [t])[..|tokens|] == tokens;
  }

  /** How far one piece moves the bookkeeping. */
  function LineAfter(text: string, line: int, p: Piece): int
    requires p.Start() <= |text| && p.End() <= |text|
  {
    line + Newlines(text, p.End()) - Newlines(text, p.Start())
    - (if p.TokenPiece? && IsQuoted(text, p.token)
      then SkippedNewlines(text, text[p.token.start], p.token.start + 1) else 0)
  }

  function ConditionalAfter(conditional: nat, p: Piece): nat {
    if p.DirectivePiece? then NextConditional(conditional, p.directive.name) else conditional
  }

  function BracesAfter(depth: nat, p: Piece): nat {
    if p.TokenPiece? then NextDepth(depth, p.token) else depth
  }

  lemma CoversAfter(cc: CharClass, text: string, trail: Trail, p: Piece)
    requires p.Start() < p.End() <= |text| && Covers(cc, text, trail, p.Start())
    ensures Covers(cc, text, Then(trail, p), p.End())
  {
  }

  lemma DepthsAfter(trail: Trail, p: Piece)
    ensures ConditionalDepth(Then(trail, p)) == ConditionalAfter(ConditionalDepth(trail), p)
    ensures DepthAfter(Tokens(Then(trail, p))) == BracesAfter(DepthAfter(Tokens(trail)), p)
  {
    if p.TokenPiece? {
      DepthAfterOneMore(Tokens(trail), p.token);
    }
  }

  lemma LinesAfter(text: string, trail: Trail, p: Piece, line: int)
    requires p.Start() < p.End() <= |text| && LineIs(text, Missed(text, trail), p.Start(), line)
    ensures LineIs(text, Missed(text, Then(trail, p)), p.End(), LineAfter(text, line, p))
  {
  }

  lemma AllReadAfter(cc: CharClass, text: string, trail: Trail, p: Piece)
    requires AllRead(cc, text, trail) && Reads(cc, text, p) && Chosen(cc, text, p)
    ensures AllRead(cc, text, Then(trail, p))
  {
    assert forall b, q :: Holds(Then(trail, p), b, q) ==> Holds(trail, b, q) || (b == trail && q == p);
  }

  lemma {:induction false} SameNewlines(text: string, from: nat, upto: nat)
    requires from <= upto <= |text| && forall k :: from <= k < upto ==> text[k] != '\n'
    ensures Newlines(text, upto) == Newlines(text, from)
    decreases upto
  {
    if from < upto {
      SameNewlines(text, from, upto - 1);
    }
  }

  lemma IdentifierReads(cc: CharClass, text: string, t: Token)
    requires t.kind.Identifier? && t.start < t.end <= |text| && t.value == text[t.start..t.end]
    requires IdentifierStart(cc, text[t.start])
    requires forall i :: t.start <= i < t.end ==> IdentifierPart(cc, text[i])
    requires t.end < |text| ==> !IdentifierPart(cc, text[t.end])
    ensures Reads(cc, text, TokenPiece(t)) && Newlines(text, t.end) == Newlines(text, t.start)
    ensures t.value != "{" && t.value != "}"
  {
    assert t.value[0] == text[t.start];
    SameNewlines(text, t.start, t.end);
  }

  lemma RawStringReads(cc: CharClass, text: string, t: Token)
    requires t.kind.StringLiteral? && t.value == "<string>" && t.start < |text|
      && t.end == RawStringEnd(cc, text, t.start)
    ensures Reads(cc, text, TokenPiece(t)) && !IsQuoted(text, t)
  {
    var prefix := RawPrefix(text, t.start);
    FirstMatchIsListed(text, t.start, RAW_PREFIXES, 0);
    assert forall value :: value in RAW_PREFIXES ==> value != "" && value[0] != '"' && value[0] != '\'';
    StartsAtIs(text, prefix, t.start);
    assert text[t.start..t.start + |prefix|][0] == prefix[0];
  }

  /** A span equal to a string without line feeds contains none. */
  lemma NoNewlineIn(text: string, at: nat, value: string)
    requires StartsAt(text, value, at) && forall i :: 0 <= i < |value| ==> value[i] != '\n'
    ensures Newlines(text, at + |value|) == Newlines(text, at)
  {
    StartsAtIs(text, value, at);
    forall k | at <= k < at + |value|
      ensures text[k] != '\n'
    {
      assert text[k] == text[at..at + |value|][k - at];
    }
    SameNewlines(text, at, at + |value|);
  }

  lemma PunctuationReads(cc: CharClass, text: string, t: Token)
    requires t.kind.Punctuation? && t.start < |text| && !cc.IsSpace(text[t.start])
    requires t.value == PunctuationAt(text, t.start) && t.end == t.start + |t.value|
    ensures Reads(cc, text, TokenPiece(t)) && Newlines(text, t.end) == Newlines(text, t.start)
  {
    StartsAtIs(text, t.value, t.start);
    LongPunctuationIsOneLine(text, t.start);
    NoNewlineIn(text, t.start, t.value);
  }

  lemma LongPunctuationIsOneLine(text: string, at: nat)
    ensures forall i :: 0 <= i < |LongPunctuation(text, at)| ==> LongPunctuation(text, at)[i] != '\n'
  {
    FirstMatchIsListed(text, at, LONG_PUNCTUATION, 0);
    assert forall value, i :: value in LONG_PUNCTUATION && 0 <= i < |value| ==> value[i] != '\n';
  }

  /** A line comment holds no line feed, so it changes no line count. */
  lemma CommentReads(cc: CharClass, text: string, c: LineComment)
    requires StartsAt(text, "//", c.start) && c.end == LineEnd(text, c.start + 2) && c.text == text[c.start + 2..c.end]
    requires c.lineOnly == BlankBefore(cc, text, c.start)
    ensures Reads(cc, text, CommentPiece(c)) && Newlines(text, c.end) == Newlines(text, c.start)
  {
    NoNewlineIn(text, c.start, "//");
    LineEndIsFirst(text, c.start + 2);
    SameNewlines(text, c.start + 2, c.end);
  }

  /** Where the lexer stands after a trail, or Lost when the trail does not account for the text. */
  datatype Status =
    | Lost
    | At(tokens: seq<Token>, comments: seq<LineComment>, directives: seq<Directive>, line: int, conditional: nat,
      depth: nat)

  ghost function StatusOf(cc: CharClass, text: string, trail: Trail, upto: nat): Status {
    if upto <= |text| && Covers(cc, text, trail, upto) && AllRead(cc, text, trail) && Records(text, trail) then
      At(Tokens(trail), Comments(trail), Directives(trail), 1 + Newlines(text, upto) - Missed(text, trail),
         ConditionalDepth(trail), DepthAfter(Tokens(trail)))
    else Lost
  }

  /** Everything the lexer keeps true between two steps. */
  ghost predicate Sound(cc: CharClass, text: string, trail: Trail, tokens: seq<Token>, comments: seq<LineComment>,
                        directives: seq<Directive>, upto: nat, line: int, conditional: nat, depth: nat)
  {
    StatusOf(cc, text, trail, upto) == At(tokens, comments, directives, line, conditional, depth)
  }

  lemma SoundOnBlank(cc: CharClass, text: string, trail: Trail, tokens: seq<Token>, comments: seq<LineComment>,
                     directives: seq<Directive>, upto: nat, line: int, conditional: nat, depth: nat)
    requires Sound(cc, text, trail, tokens, comments, directives, upto, line, conditional, depth)
    requires upto < |text| && cc.IsSpace(text[upto])
    ensures Sound(cc, text, trail, tokens, comments, directives, upto + 1,
                  if text[upto] == '\n' then line + 1 else line, conditional, depth)
  {
    StandingOnBlank(cc, text, trail, upto, line, conditional, depth);
  }

  lemma SoundAccount(cc: CharClass, text: string, trail: Trail, tokens: seq<Token>, comments: seq<LineComment>,
                     directives: seq<Directive>, line: int, conditional: nat, depth: nat)
    requires Sound(cc, text, trail, tokens, comments, directives, |text|, line, conditional, depth)
    ensures Account(cc, text, trail, tokens, comments, directives)
  {
  }

  lemma SoundAfter(cc: CharClass, text: string, trail: Trail, tokens: seq<Token>, comments: seq<LineComment>,
                   directives: seq<Directive>, p: Piece, line: int, conditional: nat, depth: nat)
    requires Sound(cc, text, trail, tokens, comments, directives, p.Start(), line, conditional, depth)
    requires Reads(cc, text, p) && Chosen(cc, text, p)
    requires RecordedIn(text, depth, conditional, Missed(text, trail), p)
    ensures Sound(cc, text, Then(trail, p),
                  if p.TokenPiece? then tokens + [p.token] else tokens,
                  if p.CommentPiece? then comments + [p.comment] else comments,
                  if p.DirectivePiece? then directives + [p.directive] else directives,
                  p.End(), LineAfter(text, line, p), ConditionalAfter(conditional, p), BracesAfter(depth, p))
  {
    CoversAfter(cc, text, trail, p);
    AllReadAfter(cc, text, trail, p);
    RecordsAfter(text, trail, p);
    DepthsAfter(trail, p);
    LinesAfter(text, trail, p, line);
    ListsAfter(trail, p);
  }

  lemma ListsAfter(trail: Trail, p: Piece)
    ensures Tokens(Then(trail, p)) == if p.TokenPiece? then Tokens(trail) + [p.token] else Tokens(trail)
    ensures Comments(Then(trail, p)) == if p.CommentPiece? then Comments(trail) + [p.comment] else Comments(trail)
    ensures Directives(Then(trail, p))
      == if p.DirectivePiece? then Directives(trail) + [p.directive] else Directives(trail)
  {
  }

  /** One more token; `line` is the line it starts on. */
  lemma TokenIsSound(cc: CharClass, text: string, trail: Trail, tokens: seq<Token>, comments: seq<LineComment>,
                     directives: seq<Directive>, t: Token, line: int)
    returns (next: Trail)
    requires Sound(cc, text, trail, tokens, comments, directives, t.start, line, t.conditionalDepth, t.braceDepth)
    requires Reads(cc, text, TokenPiece(t)) && Chosen(cc, text, TokenPiece(t))
    requires t.line == if IsQuoted(text, t) then LineAfter(text, line, TokenPiece(t)) else line
    ensures Sound(cc, text, next, tokens + [t], comments, directives, t.end, LineAfter(text, line, TokenPiece(t)),
                  t.conditionalDepth, NextDepth(t.braceDepth, t))
  {
    next := Then(trail, TokenPiece(t));
    SoundAfter(cc, text, trail, tokens, comments, directives, TokenPiece(t), line, t.conditionalDepth, t.braceDepth);
  }

  lemma CommentIsSound(cc: CharClass, text: string, trail: Trail, tokens: seq<Token>, comments: seq<LineComment>,
                       directives: seq<Directive>, c: LineComment)
    returns (next: Trail)
    requires Sound(cc, text, trail, tokens, comments, directives, c.start, c.line, c.conditionalDepth, c.braceDepth)
    requires Reads(cc, text, CommentPiece(c)) && Chosen(cc, text, CommentPiece(c))
    requires Newlines(text, c.end) == Newlines(text, c.start)
    ensures Sound(cc, text, next, tokens, comments + [c], directives, c.end, c.line, c.conditionalDepth, c.braceDepth)
  {
    next := Then(trail, CommentPiece(c));
    SoundAfter(cc, text, trail, tokens, comments, directives, CommentPiece(c), c.line, c.conditionalDepth,
      c.braceDepth);
  }

  function DirectiveAt(text: string, at: nat, line: int): (d: Directive)
    requires at < |text|
    ensures d.start == at && d.line == line && at < d.end <= |text|
    ensures d.end < |text| ==> text[d.end - 1] == '\n'
  {
    Directive(at, DirectiveEnd(text, at, at), line, DirectiveName(text[at..LineEnd(text, at)]))
  }

  lemma DirectiveReads(cc: CharClass, text: string, at: nat, line: int)
    requires at < |text| && text[at] == '#' && BlankBefore(cc, text, at)
    ensures Reads(cc, text, DirectivePiece(DirectiveAt(text, at, line)))
      && Chosen(cc, text, DirectivePiece(DirectiveAt(text, at, line)))
  {
  }

  lemma DirectiveIsSound(cc: CharClass, text: string, trail: Trail, tokens: seq<Token>, comments: seq<LineComment>,
                         directives: seq<Directive>, d: Directive, conditional: nat, depth: nat)
    returns (next: Trail)
    requires Sound(cc, text, trail, tokens, comments, directives, d.start, d.line, conditional, depth)
    requires d.start < |text| && text[d.start] == '#' && BlankBefore(cc, text, d.start)
      && d == DirectiveAt(text, d.start, d.line)
    ensures next == Then(trail, DirectivePiece(d))
    ensures Sound(cc, text, next, tokens, comments, directives + [d], d.end,
                  d.line + Newlines(text, d.end) - Newlines(text, d.start), NextConditional(conditional, d.name), depth)
  {
    next := Then(trail, DirectivePiece(d));
    DirectiveReads(cc, text, d.start, d.line);
    SoundAfter(cc, text, trail, tokens, comments, directives, DirectivePiece(d), d.line, conditional, depth);
  }

  function PunctuationToken(text: string, at: nat, line: int, conditional: nat, depth: nat): (t: Token)
    requires at < |text|
    ensures t.start == at < t.end <= |text|
  {
    var value := PunctuationAt(text, at);
    Token(value, at, at + |value|, line, Punctuation, conditional, depth)
  }

  lemma RawStringFacts(cc: CharClass, text: string, t: Token)
    requires t.kind.StringLiteral? && t.value == "<string>" && t.start < |text|
      && NeitherTriviaNorDirective(cc, text, t.start)
    requires t.end == RawStringEnd(cc, text, t.start)
    ensures Reads(cc, text, TokenPiece(t)) && Chosen(cc, text, TokenPiece(t)) && !IsQuoted(text, t)
    ensures t.end < |text| ==> !cc.IsSpace(text[t.end - 1])
  {
    RawStringReads(cc, text, t);
    TokenIsChosen(cc, text, t);
  }

  lemma RawStringIsSound(cc: CharClass, text: string, trail: Trail, tokens: seq<Token>, comments: seq<LineComment>,
                         directives: seq<Directive>, t: Token)
    returns (next: Trail)
    requires Sound(cc, text, trail, tokens, comments, directives, t.start, t.line, t.conditionalDepth, t.braceDepth)
    requires t.kind.StringLiteral? && t.value == "<string>" && t.start < |text|
      && NeitherTriviaNorDirective(cc, text, t.start)
    requires t.end == RawStringEnd(cc, text, t.start)
    ensures t.end < |text| ==> !cc.IsSpace(text[t.end - 1])
    ensures Sound(cc, text, next, tokens + [t], comments, directives, t.end,
                  t.line + Newlines(text, t.end) - Newlines(text, t.start), t.conditionalDepth, t.braceDepth)
  {
    RawStringFacts(cc, text, t);
    next := TokenIsSound(cc, text, trail, tokens, comments, directives, t, t.line);
  }

  lemma PunctuationFacts(cc: CharClass, text: string, t: Token)
    requires t.start < |text| && NeitherTriviaNorDirective(cc, text, t.start)
      && TokenKind(cc, text, t.start) == Punctuation
    requires t == PunctuationToken(text, t.start, t.line, t.conditionalDepth, t.braceDepth)
    ensures Reads(cc, text, TokenPiece(t)) && Chosen(cc, text, TokenPiece(t))
    ensures !cc.IsSpace(text[t.end - 1]) && !IsQuoted(text, t) && LineAfter(text, t.line, TokenPiece(t)) == t.line
  {
    PunctuationReads(cc, text, t);
    PunctuationIsVisible(cc, text, t.start);
    TokenIsChosen(cc, text, t);
  }

  lemma PunctuationIsSound(cc: CharClass, text: string, trail: Trail, tokens: seq<Token>, comments: seq<LineComment>,
                           directives: seq<Directive>, at: nat, line: int, conditional: nat, depth: nat)
    returns (next: Trail)
    requires Sound(cc, text, trail, tokens, comments, directives, at, line, conditional, depth)
    requires at < |text| && NeitherTriviaNorDirective(cc, text, at) && TokenKind(cc, text, at) == Punctuation
    ensures !cc.IsSpace(text[PunctuationEnd(text, at) - 1])
    ensures StatusOf(cc, text, next, PunctuationEnd(text, at))
      == AfterPunctuation(text, tokens, comments, directives, at, line, conditional, depth)
  {
    var t := PunctuationToken(text, at, line, conditional, depth);
    PunctuationFacts(cc, text, t);
    next := TokenIsSound(cc, text, trail, tokens, comments, directives, t, line);
  }

  ghost function AfterPunctuation(text: string, tokens: seq<Token>, comments: seq<LineComment>,
                                  directives: seq<Directive>, at: nat, line: int, conditional: nat, depth: nat): Status
    requires at < |text|
  {
    var t := PunctuationToken(text, at, line, conditional, depth);
    At(tokens + [t], comments, directives, line, conditional, NextDepth(depth, t))
  }

  function PunctuationEnd(text: string, at: nat): nat
    requires at < |text|
  {
    at + |PunctuationAt(text, at)|
  }

  lemma BlockIsSound(cc: CharClass, text: string, trail: Trail, tokens: seq<Token>, comments: seq<LineComment>,
                     directives: seq<Directive>, from: nat, to: nat, line: int, conditional: nat, depth: nat)
    returns (next: Trail)
    requires Sound(cc, text, trail, tokens, comments, directives, from, line, conditional, depth)
    requires Reads(cc, text, BlockPiece(from, to))
    ensures next == Then(trail, BlockPiece(from, to))
    ensures Sound(cc, text, next, tokens, comments, directives, to, line + Newlines(text, to) - Newlines(text, from),
                  conditional, depth)
  {
    next := Then(trail, BlockPiece(from, to));
    BlockIsChosen(cc, text, from, to);
    SoundAfter(cc, text, trail, tokens, comments, directives, BlockPiece(from, to), line, conditional, depth);
  }

  // ----------------------------------------------------------------------- line starts

  predicate LineStart(text: string, lineStart: nat) {
    lineStart == 0 || (lineStart <= |text| && text[lineStart - 1] == '\n')
  }

  /** lineStart is the start of a line, and serves to tell whether only white space precedes at. */
  ghost predicate OnLine(cc: CharClass, text: string, lineStart: nat, at: nat) {
    && lineStart <= at <= |text| && LineStart(text, lineStart)
    && (at < |text| && BlankBefore(cc, text, at) ==> Blank(cc, text, lineStart, at))
  }

  lemma AfterVisible(cc: CharClass, text: string, lineStart: nat, at: nat)
    requires lineStart <= at <= |text| && LineStart(text, lineStart)
    requires 0 < at < |text| ==> !cc.IsSpace(text[at - 1])
    ensures OnLine(cc, text, lineStart, at)
  {
  }

  lemma AtLineStart(cc: CharClass, text: string, lineStart: nat, at: nat)
    requires lineStart <= at <= |text| && LineStart(text, lineStart)
    requires at < |text| ==> lineStart == at
    ensures OnLine(cc, text, lineStart, at)
  {
  }

  lemma OnLineAfterSpace(cc: CharClass, text: string, lineStart: nat, at: nat)
    requires OnLine(cc, text, lineStart, at) && at < |text| && cc.IsSpace(text[at])
    ensures OnLine(cc, text, if text[at] == '\n' then at + 1 else lineStart, at + 1)
  {
  }

  lemma AfterComment(cc: CharClass, text: string, lineStart: nat, c: LineComment)
    requires OnLine(cc, text, lineStart, c.start) && StartsAt(text, "//", c.start)
      && c.end == LineEnd(text, c.start + 2)
    ensures OnLine(cc, text, lineStart, c.end)
  {
    assert text[c.start + 1] == text[c.start..c.start + 2][1];
    LineEndIsFirst(text, c.start + 2);
    NotBlankAfter(cc, text, c.end, c.start + 1);
  }

  lemma {:induction false} BlankLineSoFar(cc: CharClass, text: string, lineStart: nat, at: nat)
    requires lineStart <= at <= |text| && LineStart(text, lineStart)
    requires Blank(cc, text, lineStart, at)
    ensures BlankBefore(cc, text, at)
    decreases at
  {
    if lineStart < at {
      BlankLineSoFar(cc, text, lineStart, at - 1);
    }
  }

  lemma {:induction false} NotBlankAfter(cc: CharClass, text: string, at: nat, k: nat)
    requires k < at <= |text| && !cc.IsSpace(text[k]) && forall i :: k < i < at ==> text[i] != '\n'
    ensures !BlankBefore(cc, text, at)
    decreases at
  {
    if k < at - 1 {
      NotBlankAfter(cc, text, at - 1, k);
    }
  }

  predicate NeitherTriviaNorDirective(cc: CharClass, text: string, at: nat)
    requires at < |text|
  {
    && !cc.IsSpace(text[at]) && !(text[at] == '#' && BlankBefore(cc, text, at))
    && !StartsAt(text, "//", at) && !StartsAt(text, "/*", at)
  }

  function TokenKind(cc: CharClass, text: string, at: nat): Kind
    requires at < |text|
  {
    if RawStringEnd(cc, text, at) != -1 || text[at] == '"' || text[at] == '\'' then StringLiteral
    else if IdentifierStart(cc, text[at]) then Identifier
    else Punctuation
  }

  lemma TokenIsChosen(cc: CharClass, text: string, t: Token)
    requires t.start < |text| && NeitherTriviaNorDirective(cc, text, t.start) && t.kind == TokenKind(cc, text, t.start)
    ensures Chosen(cc, text, TokenPiece(t))
  {
  }

  lemma CommentIsChosen(cc: CharClass, text: string, c: LineComment)
    requires StartsAt(text, "//", c.start)
    ensures !cc.IsSpace(text[c.start]) && Chosen(cc, text, CommentPiece(c))
  {
    PairAt(text, "//", c.start);
  }

  lemma PairAt(text: string, pair: string, at: nat)
    requires |pair| == 2
    ensures StartsAt(text, pair, at) <==> at + 1 < |text| && text[at] == pair[0] && text[at + 1] == pair[1]
  {
    if at + 1 < |text| {
      assert Matches(text, pair, at, 2) <==> text[at + 1] == pair[1] && Matches(text, pair, at, 1);
    }
  }

  lemma BlockIsChosen(cc: CharClass, text: string, from: nat, to: nat)
    requires StartsAt(text, "/*", from)
    ensures Chosen(cc, text, BlockPiece(from, to))
  {
    PairAt(text, "/*", from);
    PairAt(text, "//", from);
  }

  /** A block comment ends with the first closing after its opening. */
  lemma BlockEndsFirst(cc: CharClass, text: string, from: nat, to: nat, k: nat)
    requires Reads(cc, text, BlockPiece(from, to)) && from + 2 <= k && StartsAt(text, "*/", k)
    ensures to <= k + 2 && from + 2 <= to - 2 && StartsAt(text, "*/", to - 2)
  {
    var found := Find(text, "*/", from + 2);
    if found < 0 || k < found {
      FindIsFirst(text, "*/", from + 2, k);
    }
  }

  lemma BlockIsClosed(cc: CharClass, text: string, from: nat, to: nat)
    requires Reads(cc, text, BlockPiece(from, to))
    ensures to < |text| ==> !cc.IsSpace(text[to - 1])
  {
    var found := Find(text, "*/", from + 2);
    if found >= 0 {
      assert text[found + 1] == text[found..found + 2][1];
    }
  }

  lemma PunctuationIsVisible(cc: CharClass, text: string, at: nat)
    requires at < |text| && !cc.IsSpace(text[at])
    ensures !cc.IsSpace(text[at + |PunctuationAt(text, at)| - 1])
  {
    var value := PunctuationAt(text, at);
    var last := at + |value| - 1;
    assert text[last] == text[at..at + |value|][|value| - 1];
    if LongPunctuation(text, at) != "" {
      FirstMatchIsListed(text, at, LONG_PUNCTUATION, 0);
      assert value == "..." || value == "::" || value == "[[" || value == "]]" || value == "->";
    }
  }

  // ------------------------------------------------------- consequences for the records

  lemma {:induction false} TokensAreOrdered(cc: CharClass, text: string, trail: Trail, upto: nat)
    requires upto <= |text| && Covers(cc, text, trail, upto)
    ensures forall i :: 0 <= i < |Tokens(trail)| ==> Tokens(trail)[i].start < Tokens(trail)[i].end <= upto
    ensures forall i, j :: 0 <= i < j < |Tokens(trail)| ==> Tokens(trail)[i].end <= Tokens(trail)[j].start
    decreases trail
  {
    if trail.Then? {
      TokensAreOrdered(cc, text, trail.before, trail.last.Start());
    }
  }

  lemma {:induction false} TokensRecordDepth(text: string, trail: Trail)
    requires Records(text, trail)
    ensures forall i :: 0 <= i < |Tokens(trail)| ==> Tokens(trail)[i].braceDepth == DepthAfter(Tokens(trail)[..i])
    decreases trail
  {
    if trail.Then? {
      RecordsBefore(text, trail);
      TokensRecordDepth(text, trail.before);
      var before := Tokens(trail.before);
      forall i | 0 <= i < |Tokens(trail)|
        ensures Tokens(trail)[i].braceDepth == DepthAfter(Tokens(trail)[..i])
      {
        if i < |before| {
          assert Tokens(trail)[..i] == before[..i];
        } else {
          assert Tokens(trail)[..i] == before;
        }
      }
    }
  }

  /** The first i tokens are the ones before offset at. */
  ghost predicate CutsAt(tokens: seq<Token>, i: nat, at: nat) {
    && i <= |tokens|
    && (forall j :: 0 <= j < i ==> tokens[j].end <= at)
    && (forall j :: i <= j < |tokens| ==> at < tokens[j].end && at <= tokens[j].start)
  }

  lemma CutsExtend(tokens: seq<Token>, more: seq<Token>, i: nat, at: nat)
    requires CutsAt(tokens, i, at)
    requires forall t :: t in more ==> at < t.end && at <= t.start
    ensures CutsAt(tokens + more, i, at) && (tokens + more)[..i] == tokens[..i]
  {
  }

  /** A comment records the depth after exactly the tokens that end before it. */
  lemma {:induction false} CommentsRecordDepth(cc: CharClass, text: string, trail: Trail, upto: nat, k: nat)
    returns (cut: nat)
    requires upto <= |text| && Covers(cc, text, trail, upto) && Records(text, trail)
    requires k < |Comments(trail)|
    ensures CutsAt(Tokens(trail), cut, Comments(trail)[k].start)
    ensures Comments(trail)[k].braceDepth == DepthAfter(Tokens(trail)[..cut])
    decreases trail
  {
    var before, at := Tokens(trail.before), Comments(trail)[k].start;
    RecordsBefore(text, trail);
    if k < |Comments(trail.before)| {
      cut := CommentsRecordDepth(cc, text, trail.before, trail.last.Start(), k);
      CommentsEnd(cc, text, trail.before, trail.last.Start(), k);
      CutsExtend(before, if trail.last.TokenPiece? then [trail.last.token] else [], cut, at);
    } else {
      TokensAreOrdered(cc, text, trail.before, trail.last.Start());
      cut := |before|;
      CutsExtend(before, [], cut, at);
      assert before[..cut] == before;
    }
  }

  lemma {:induction false} CommentsEnd(cc: CharClass, text: string, trail: Trail, upto: nat, k: nat)
    requires upto <= |text| && Covers(cc, text, trail, upto) && k < |Comments(trail)|
    ensures Comments(trail)[k].start < Comments(trail)[k].end <= upto
    decreases trail
  {
    if k < |Comments(trail.before)| {
      CommentsEnd(cc, text, trail.before, trail.last.Start(), k);
    }
  }

  /** Lines are exact wherever no quoted literal hides a line feed. */
  lemma {:induction false} LinesAreExact(text: string, trail: Trail)
    requires Records(text, trail) && Missed(text, trail) == 0
    ensures forall t :: t in Tokens(trail) && !IsQuoted(text, t) ==> LineIs(text, 0, t.start, t.line)
    ensures forall c :: c in Comments(trail) ==> LineIs(text, 0, c.start, c.line)
    ensures forall d :: d in Directives(trail) ==> LineIs(text, 0, d.start, d.line)
    decreases trail
  {
    if trail.Then? {
      RecordsBefore(text, trail);
      LinesAreExact(text, trail.before);
    }
  }
}
