/** What the pieces of a text are, said of its characters: where literals, directives and comments end,
    which name a directive has, and which punctuation is read. */
module LexShapes {
  import opened LexModel
  import LexRaw

  // ---------------------------------------------------------------------------- quoted literals

  /** A quote at j ends the literal opened at start: an even run of backslashes precedes it. */
  predicate EndsQuote(text: string, quote: char, start: nat, j: nat) {
    start < j < |text| && text[j] == quote && Backslashes(text, start + 1, j) % 2 == 0
  }

  lemma {:induction false} QuotedScan(text: string, quote: char, start: nat, i: nat)
    requires start < i <= |text| && quote != '\\' && Backslashes(text, start + 1, i) % 2 == 0
    ensures var end := QuotedEnd(text, quote, i);
      && (forall j :: i <= j < end - 1 ==> !EndsQuote(text, quote, start, j))
      && ((i < end && EndsQuote(text, quote, start, end - 1))
          || (end == |text| && forall j :: i <= j < |text| ==> !EndsQuote(text, quote, start, j)))
    decreases |text| - i
  {
    if i < |text| {
      if text[i] == '\\' {
        assert Backslashes(text, start + 1, i + 1) == 1 + Backslashes(text, start + 1, i);
        if i + 2 <= |text| {
          QuotedScan(text, quote, start, i + 2);
        }
      } else if text[i] != quote {
        QuotedScan(text, quote, start, i + 1);
      }
    }
  }

  /** A quoted literal ends with the first quote of its kind that no backslash escapes, or never. */
  lemma QuotedEndsFirst(text: string, start: nat)
    requires start < |text| && (text[start] == '"' || text[start] == '\'')
    ensures var quote, end := text[start], QuotedEnd(text, text[start], start + 1);
      && (forall j :: start < j < end - 1 ==> !EndsQuote(text, quote, start, j))
      && (EndsQuote(text, quote, start, end - 1)
          || (end == |text| && forall j :: start < j < |text| ==> !EndsQuote(text, quote, start, j)))
  {
    QuotedScan(text, text[start], start, start + 1);
  }

  // --------------------------------------------------------------------------------- directives

  /** A line feed that ends a directive: an even run of backslashes precedes it. */
  predicate EndsDirective(text: string, start: nat, j: nat) {
    start <= j < |text| && text[j] == '\n' && Backslashes(text, start, j) % 2 == 0
  }

  lemma {:induction false} DirectiveEndsFirst(text: string, start: nat, from: nat)
    requires start <= from <= |text|
    ensures var end := DirectiveEnd(text, start, from);
      && (forall j :: from <= j < end - 1 ==> !EndsDirective(text, start, j))
      && ((from < end && EndsDirective(text, start, end - 1))
          || (end == |text| && forall j :: from <= j < |text| ==> !EndsDirective(text, start, j)))
    decreases |text| - from
  {
    var newline := LineEnd(text, from);
    LineEndIsFirst(text, from);
    if newline < |text| && Backslashes(text, start, newline) % 2 != 0 {
      DirectiveEndsFirst(text, start, newline + 1);
    }
  }

  predicate Letter(c: char) {
    'A' <= c <= 'Z' || 'a' <= c <= 'z' || c == '_'
  }

  predicate LetterOrDigit(c: char) {
    Letter(c) || '0' <= c <= '9'
  }

  predicate Gap(c: char) {
    c == ' ' || c == '\t'
  }

  /** After its `#` the line has blanks up to k and there a word that ends before n. */
  predicate NameStands(line: string, k: nat, n: nat) {
    && 1 <= k < n <= |line| && line[0] == '#'
    && (forall i :: 1 <= i < k ==> Gap(line[i]))
    && Letter(line[k]) && (forall i :: k < i < n ==> LetterOrDigit(line[i]))
    && (n < |line| ==> !LetterOrDigit(line[n]))
  }

  lemma {:induction false} SkipTo(s: string, k: nat)
    requires k <= |s| && (forall i :: 0 <= i < k ==> Gap(s[i])) && (k < |s| ==> !Gap(s[k]))
    ensures SkipBlanks(s) == s[k..]
    decreases k
  {
    if k > 0 {
      assert forall i :: 0 <= i < k - 1 ==> s[1..][i] == s[i + 1];
      SkipTo(s[1..], k - 1);
    }
  }

  lemma {:induction false} RestTo(s: string, n: nat)
    requires n <= |s| && (forall i :: 0 <= i < n ==> LetterOrDigit(s[i])) && (n < |s| ==> !LetterOrDigit(s[n]))
    ensures NameRest(s) == s[..n]
    decreases n
  {
    if n > 0 {
      assert forall i :: 0 <= i < n - 1 ==> s[1..][i] == s[i + 1];
      RestTo(s[1..], n - 1);
      assert s[..n] == [s[0]] + s[1..][..n - 1];
    }
  }

  /** The name of a directive is the word after its `#`. */
  lemma DirectiveNameIs(line: string, k: nat, n: nat)
    requires NameStands(line, k, n)
    ensures DirectiveName(line) == line[k..n]
  {
    SkipTo(line[1..], k - 1);
    var s := line[1..][k - 1..];
    assert s == line[k..] && s[1..] == line[k + 1..];
    RestTo(s[1..], n - k - 1);
    assert line[k..n] == [line[k]] + s[1..][..n - k - 1];
  }

  lemma GapEnds(s: string) returns (k: nat)
    ensures k <= |s| && (forall i :: 0 <= i < k ==> Gap(s[i])) && (k < |s| ==> !Gap(s[k]))
  {
    k := 0;
    while k < |s| && Gap(s[k])
      invariant k <= |s| && forall i :: 0 <= i < k ==> Gap(s[i])
    {
      k := k + 1;
    }
  }

  lemma WordEnds(s: string) returns (n: nat)
    ensures n <= |s| && (forall i :: 0 <= i < n ==> LetterOrDigit(s[i])) && (n < |s| ==> !LetterOrDigit(s[n]))
  {
    n := 0;
    while n < |s| && LetterOrDigit(s[n])
      invariant n <= |s| && forall i :: 0 <= i < n ==> LetterOrDigit(s[i])
    {
      n := n + 1;
    }
  }

  /** And a directive that is given a name has such a word. */
  lemma NamedDirectivesAre(line: string) returns (k: nat, n: nat)
    requires line != "" && line[0] == '#' && DirectiveName(line) != ""
    ensures NameStands(line, k, n)
  {
    var gap := GapEnds(line[1..]);
    SkipTo(line[1..], gap);
    k := gap + 1;
    var more := WordEnds(line[k + 1..]);
    n := k + 1 + more;
  }

  // -------------------------------------------------------------------------------- punctuation

  /** The forms of more than one character. */
  predicate LongForm(s: string) {
    s == "..." || s == "::" || s == "[[" || s == "]]" || s == "->"
  }

  /** Punctuation is the long form that stands there, and one character when none does. */
  lemma PunctuationIs(text: string, at: nat, form: string)
    requires at < |text| && LongForm(form)
    ensures PunctuationAt(text, at) == form <==> at + |form| <= |text| && text[at..at + |form|] == form
    ensures LongForm(PunctuationAt(text, at)) || PunctuationAt(text, at) == [text[at]]
  {
    var found := LongPunctuation(text, at);
    FirstMatchIsListed(text, at, LONG_PUNCTUATION, 0);
    if at + |form| <= |text| {
      StartsAtIs(text, form, at);
    }
    if StartsAt(text, form, at) {
      var k :| 0 <= k < |LONG_PUNCTUATION| && LONG_PUNCTUATION[k] == form;
      LexRaw.FirstMatchFinds(text, at, LONG_PUNCTUATION, 0, k);
      StartsAtIs(text, found, at);
      assert text[at..at + |found|][0] == text[at..at + |form|][0];
    }
  }

  // ------------------------------------------------------------------------ what is read where

  predicate PairOf(text: string, at: nat, first: char, second: char) {
    at + 1 < |text| && text[at] == first && text[at + 1] == second
  }

  /** Only white space stands between the last line feed, or the start of the text, and the offset. */
  ghost predicate FirstOnLine(cc: CharClass, text: string, at: nat) {
    at <= |text| && forall i :: 0 <= i < at && !cc.IsSpace(text[i]) ==> exists j :: i < j < at && text[j] == '\n'
  }

  lemma {:induction false} BlankBeforeIs(cc: CharClass, text: string, at: nat)
    requires at <= |text|
    ensures BlankBefore(cc, text, at) <==> FirstOnLine(cc, text, at)
    decreases at
  {
    if at > 0 {
      BlankBeforeIs(cc, text, at - 1);
      if text[at - 1] == '\n' {
        assert FirstOnLine(cc, text, at);
      } else if cc.IsSpace(text[at - 1]) {
        LineGoesOn(cc, text, at);
      }
    }
  }

  lemma LineGoesOn(cc: CharClass, text: string, at: nat)
    requires 0 < at <= |text| && cc.IsSpace(text[at - 1]) && text[at - 1] != '\n'
    ensures FirstOnLine(cc, text, at) <==> FirstOnLine(cc, text, at - 1)
  {
    if FirstOnLine(cc, text, at) {
      forall i | 0 <= i < at - 1 && !cc.IsSpace(text[i])
        ensures exists j :: i < j < at - 1 && text[j] == '\n'
      {
        var j :| i < j < at && text[j] == '\n';
        assert j < at - 1;
      }
    }
  }

  /** What a piece is, by the characters it starts with; in this order. */
  lemma PiecesAreDecided(cc: CharClass, text: string, p: Piece)
    requires Reads(cc, text, p) && Chosen(cc, text, p)
    ensures var at := p.Start(); var c := text[at];
      && !cc.IsSpace(c)
      && (p.DirectivePiece? <==> c == '#' && FirstOnLine(cc, text, at))
      && (p.CommentPiece? <==> PairOf(text, at, '/', '/'))
      && (p.BlockPiece? <==> PairOf(text, at, '/', '*'))
      && (p.TokenPiece? && p.token.kind.StringLiteral? <==>
            c == '"' || c == '\'' || (!p.CommentPiece? && !p.BlockPiece? && RawStringEnd(cc, text, at) != -1))
      && (p.TokenPiece? && p.token.kind.Identifier? <==>
            (cc.IsAlpha(c) || c == '_') && RawStringEnd(cc, text, at) == -1)
  {
    var at := p.Start();
    BlankBeforeIs(cc, text, at);
    PairAt(text, "//", at);
    PairAt(text, "/*", at);
    if RawStringEnd(cc, text, at) != -1 {
      RawStartsWithLetter(cc, text, at);
    }
  }

  lemma RawStartsWithLetter(cc: CharClass, text: string, at: nat)
    requires at < |text| && RawStringEnd(cc, text, at) != -1
    ensures text[at] == 'u' || text[at] == 'U' || text[at] == 'L' || text[at] == 'R'
  {
    var prefix := RawPrefix(text, at);
    FirstMatchIsListed(text, at, RAW_PREFIXES, 0);
    StartsAtIs(text, prefix, at);
    assert text[at..at + |prefix|][0] == prefix[0];
  }

  predicate NamePart(cc: CharClass, c: char) {
    cc.IsAlnum(c) || c == '_'
  }

  /** A name is the longest run of alphanumerics and underscores; a quote opens a literal that ends as
      above. */
  lemma NamesAndLiteralsAre(cc: CharClass, text: string, t: Token)
    requires Reads(cc, text, TokenPiece(t)) && Chosen(cc, text, TokenPiece(t))
    ensures t.kind.Identifier? ==>
      && t.value == text[t.start..t.end]
      && (forall i :: t.start <= i < t.end ==> NamePart(cc, text[i]))
      && (t.end < |text| ==> !NamePart(cc, text[t.end]))
    ensures text[t.start] == '"' || text[t.start] == '\'' ==>
      t.kind.StringLiteral? && t.end == QuotedEnd(text, text[t.start], t.start + 1)
  {
    PiecesAreDecided(cc, text, TokenPiece(t));
  }
}
