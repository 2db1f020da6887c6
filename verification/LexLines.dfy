/** Which recorded lines are exact: those before which no quoted literal hid a line feed. */
module LexLines {
  import opened LexModel
  import LexUnique

  /** The line a record should carry. */
  function TrueLine(text: string, at: nat): nat
    requires at <= |text|
  {
    1 + Newlines(text, at)
  }

  // ------------------------------------------------------------------ escaped line feeds

  /** A line feed of the text from i on, before the end of the literal, that an odd run of
      backslashes escapes. */
  ghost predicate EscapedFrom(text: string, start: nat, i: nat, end: nat) {
    exists j :: i < j < end <= |text| && text[j] == '\n' && Backslashes(text, start + 1, j) % 2 == 1
  }

  /** The scan skips line feeds exactly where the text escapes them. */
  lemma {:induction false} SkippedAreEscaped(text: string, quote: char, start: nat, i: nat)
    requires start < i <= |text| && quote != '\\' && quote != '\n'
    requires Backslashes(text, start + 1, i) % 2 == 0
    ensures SkippedNewlines(text, quote, i) > 0 <==> EscapedFrom(text, start, i, QuotedEnd(text, quote, i))
    decreases |text| - i
  {
    if i < |text| && text[i] == '\\' && i + 2 <= |text| {
      SkippedAreEscaped(text, quote, start, i + 2);
      var end := QuotedEnd(text, quote, i);
      assert Backslashes(text, start + 1, i + 1) == 1 + Backslashes(text, start + 1, i);
      assert text[i + 1] == '\n' ==> EscapedFrom(text, start, i, end);
      assert EscapedFrom(text, start, i + 2, end) ==> EscapedFrom(text, start, i, end);
    } else if i < |text| && text[i] != '\\' && text[i] != quote {
      SkippedAreEscaped(text, quote, start, i + 1);
    }
  }

  /** A literal that opens with a quote of either kind; raw strings open with a letter. */
  predicate Quoted(text: string, t: Token) {
    t.kind.StringLiteral? && t.start < |text| && (text[t.start] == '"' || text[t.start] == '\'')
  }

  /** A quoted literal with an escaped line feed inside. */
  ghost predicate HidesLineFeed(text: string, t: Token) {
    Quoted(text, t) && EscapedFrom(text, t.start, t.start + 1, t.end)
  }

  lemma {:induction false} MissedIff(cc: CharClass, text: string, trail: Trail)
    requires AllRead(cc, text, trail)
    ensures Missed(text, trail) == 0 <==> forall t :: t in Tokens(trail) ==> !HidesLineFeed(text, t)
    decreases trail
  {
    if trail.Then? {
      AllReadBefore(cc, text, trail);
      MissedIff(cc, text, trail.before);
      if trail.last.TokenPiece? {
        var t := trail.last.token;
        if IsQuoted(text, t) {
          SkippedAreEscaped(text, text[t.start], t.start, t.start + 1);
        }
        assert t in Tokens(trail) && forall u :: u in Tokens(trail.before) ==> u in Tokens(trail);
        assert forall u :: u in Tokens(trail) ==> u == t || u in Tokens(trail.before);
      }
    }
  }

  /** The tokens read before a piece are the ones that end before it. */
  lemma {:induction false} EarlierTokens(cc: CharClass, text: string, trail: Trail, upto: nat, before: Trail, p: Piece)
    requires upto <= |text| && Covers(cc, text, trail, upto) && Holds(trail, before, p)
    ensures forall t :: t in Tokens(trail) && t.end <= p.Start() <==> t in Tokens(before)
    decreases trail
  {
    TokensAreOrdered(cc, text, trail.before, trail.last.Start());
    if !(trail.before == before && trail.last == p) {
      EarlierTokens(cc, text, trail.before, trail.last.Start(), before, p);
      LexUnique.CoveredTo(cc, text, trail.before, trail.last.Start(), before, p);
    }
  }

  /** A record that carries the line it starts on. */
  predicate CarriesLine(text: string, p: Piece) {
    p.CommentPiece? || p.DirectivePiece? || (p.TokenPiece? && !Quoted(text, p.token))
  }

  function LineOf(p: Piece): int
    requires !p.BlockPiece?
  {
    match p
    case TokenPiece(t) => t.line
    case CommentPiece(c) => c.line
    case DirectivePiece(d) => d.line
  }

  lemma {:induction false} AllReadUpTo(cc: CharClass, text: string, trail: Trail, before: Trail, p: Piece)
    requires AllRead(cc, text, trail) && Holds(trail, before, p)
    ensures AllRead(cc, text, before)
    decreases trail
  {
    AllReadBefore(cc, text, trail);
    if !(trail.before == before && trail.last == p) {
      AllReadUpTo(cc, text, trail.before, before, p);
    }
  }

  /** A record is short by the line feeds the scan has skipped, so its line is exact if and only if no
      quoted literal that ends before it has an escaped line feed inside. */
  lemma LineIsExactIff(cc: CharClass, text: string, trail: Trail, tokens: seq<Token>, comments: seq<LineComment>,
                       directives: seq<Directive>, before: Trail, p: Piece)
    requires Account(cc, text, trail, tokens, comments, directives)
    requires Holds(trail, before, p) && CarriesLine(text, p)
    ensures p.Start() <= |text| && LineOf(p) == TrueLine(text, p.Start()) - Missed(text, before)
    ensures LineOf(p) == TrueLine(text, p.Start()) <==>
      forall t :: t in tokens && t.end <= p.Start() ==> !HidesLineFeed(text, t)
  {
    LexUnique.CoveredTo(cc, text, trail, |text|, before, p);
    AllReadUpTo(cc, text, trail, before, p);
    MissedIff(cc, text, before);
    EarlierTokens(cc, text, trail, |text|, before, p);
  }

  /** The tokens read up to a piece are the earlier ones and itself. */
  lemma {:induction false} LaterTokens(cc: CharClass, text: string, trail: Trail, upto: nat, before: Trail, p: Piece)
    requires upto <= |text| && Covers(cc, text, trail, upto) && Holds(trail, before, p) && p.TokenPiece?
    ensures forall t :: t in Tokens(trail) && t.end <= p.End() <==> t in Tokens(Then(before, p))
    decreases trail
  {
    TokensAreOrdered(cc, text, trail.before, trail.last.Start());
    if !(trail.before == before && trail.last == p) {
      LaterTokens(cc, text, trail.before, trail.last.Start(), before, p);
      LexUnique.CoveredTo(cc, text, trail.before, trail.last.Start(), before, p);
    }
  }

  lemma {:induction false} AllReadThrough(cc: CharClass, text: string, trail: Trail, before: Trail, p: Piece)
    requires AllRead(cc, text, trail) && Holds(trail, before, p)
    ensures AllRead(cc, text, Then(before, p))
    decreases trail
  {
    if trail.before == before && trail.last == p {
      assert trail == Then(before, p);
    } else {
      AllReadBefore(cc, text, trail);
      AllReadThrough(cc, text, trail.before, before, p);
    }
  }

  /** A quoted literal carries the line it ends on, under the same condition. */
  lemma QuotedLineIsExactIff(cc: CharClass, text: string, trail: Trail, tokens: seq<Token>, comments: seq<LineComment>,
                             directives: seq<Directive>, before: Trail, p: Piece)
    requires Account(cc, text, trail, tokens, comments, directives)
    requires Holds(trail, before, p) && p.TokenPiece? && Quoted(text, p.token)
    ensures p.End() <= |text|
    ensures p.token.line == TrueLine(text, p.End()) <==>
      forall t :: t in tokens && t.end <= p.End() ==> !HidesLineFeed(text, t)
  {
    LexUnique.CoveredTo(cc, text, trail, |text|, before, p);
    AllReadThrough(cc, text, trail, before, p);
    MissedIff(cc, text, Then(before, p));
    LaterTokens(cc, text, trail, |text|, before, p);
  }

  // ---------------------------------------------------------------------- a shifted line

  const SHIFTED := "\"\\\n\"\nx"

  /** A letter `x`, and nothing else but line feeds for white space. */
  const LETTER_X: Classifier := Classifier({'\n'}, {'x'}, {'x'})

  const LITERAL := Token("<string>", 0, 4, 1, StringLiteral, 0, 0)
  const NAME := Token("x", 5, 6, 2, Identifier, 0, 0)

  lemma LiteralReads()
    ensures Reads(LETTER_X, SHIFTED, TokenPiece(LITERAL)) && Chosen(LETTER_X, SHIFTED, TokenPiece(LITERAL))
    ensures SkippedNewlines(SHIFTED, '"', 1) == 1
  {
    var text := SHIFTED;
    assert text[0] == '"' && text[1] == '\\' && text[2] == '\n' && text[3] == '"';
    assert QuotedEnd(text, '"', 1) == QuotedEnd(text, '"', 3) == 4;
    assert SkippedNewlines(text, '"', 3) == 0;
    PairAt(text, "//", 0);
    PairAt(text, "/*", 0);
  }

  lemma NameReads()
    ensures Reads(LETTER_X, SHIFTED, TokenPiece(NAME)) && Chosen(LETTER_X, SHIFTED, TokenPiece(NAME))
  {
    var text := SHIFTED;
    assert text[5..6] == "x" && text[5] == 'x';
    PairAt(text, "//", 5);
    PairAt(text, "/*", 5);
    assert forall v :: v in RAW_PREFIXES ==> |v| >= 2;
    FirstMatchIsListed(text, 5, RAW_PREFIXES, 0);
  }

  lemma ShiftedNewlines()
    ensures Newlines(SHIFTED, 0) == 0 && Newlines(SHIFTED, 4) == 1 && Newlines(SHIFTED, 5) == 2
      && Newlines(SHIFTED, 6) == 2
  {
    var text := SHIFTED;
    assert Newlines(text, 1) == 0 && Newlines(text, 2) == 0 && Newlines(text, 3) == 1;
  }

  lemma ShiftedAccount() returns (trail: Trail)
    ensures Account(LETTER_X, SHIFTED, trail, [LITERAL, NAME], [], [])
  {
    ShiftedNewlines();
    LiteralReads();
    NameReads();
    assert [] + [LITERAL] == [LITERAL] && [LITERAL] + [NAME] == [LITERAL, NAME];
    var first := TokenIsSound(LETTER_X, SHIFTED, Nothing, [], [], [], LITERAL, 1);
    SoundOnBlank(LETTER_X, SHIFTED, first, [LITERAL], [], [], 4, 1, 0, 0);
    trail := TokenIsSound(LETTER_X, SHIFTED, first, [LITERAL], [], [], NAME, 2);
    SoundAccount(LETTER_X, SHIFTED, trail, [LITERAL, NAME], [], [], 2, 0, 0);
  }

  /** The name stands on the third line and is recorded on the second. */
  lemma EscapedLineFeedIsLost(trail: Trail, tokens: seq<Token>, comments: seq<LineComment>, directives: seq<Directive>)
    requires Account(LETTER_X, SHIFTED, trail, tokens, comments, directives)
    ensures tokens == [LITERAL, NAME] && TrueLine(SHIFTED, NAME.start) == 3 && NAME.line == 2
  {
    ShiftedNewlines();
    var own := ShiftedAccount();
    LexUnique.AccountsAreUnique(LETTER_X, SHIFTED, own, [LITERAL, NAME], [], [], trail, tokens, comments, directives);
  }
}
