/** Lexing the spelling of a type gives back the words it was made of. */
module CppRelex {
  import opened LexModel
  import opened CppSpelling
  import LexUnique

  function Text(values: seq<string>): string {
    Glued(values, MARKS)
  }

  function Gap(values: seq<string>, k: nat): string
    requires k < |values|
  {
    if k == 0 then "" else Separator(values[k - 1], values[k], MARKS)
  }

  function End(values: seq<string>, k: nat): nat
    requires k <= |values|
  {
    |Text(values[..k])|
  }

  lemma {:induction false} OneMoreWord(values: seq<string>, v: string)
    ensures Text(values + [v])
      == Text(values) + (if values == [] then "" else Separator(values[|values| - 1], v, MARKS)) + v
    decreases |values|
  {
    if |values| > 1 {
      var rest, all := values[1..], values + [v];
      OneMoreWord(rest, v);
      assert all[1..] == rest + [v] && all[0] == values[0] && all[1] == values[1];
      var gap, last := Separator(values[0], values[1], MARKS), Separator(values[|values| - 1], v, MARKS);
      assert Text(all) == values[0] + gap + Text(all[1..]);
      assert Text(values) == values[0] + gap + Text(rest);
      assert values[0] + gap + (Text(rest) + last + v) == (values[0] + gap + Text(rest)) + last + v;
    } else if |values| == 1 {
      var all := values + [v];
      assert all[1..] == [v] && all[0] == values[0] && all[1] == v;
      assert Text([v]) == v && Text(values) == values[0];
      assert Text(all) == all[0] + Separator(all[0], all[1], MARKS) + Text(all[1..]);
    } else {
      assert values + [v] == [v] && "" + "" + v == v;
    }
  }

  lemma {:induction false} TextGrows(values: seq<string>, k: nat)
    requires k <= |values|
    ensures Text(values[..k]) <= Text(values)
    decreases |values| - k
  {
    if k == |values| {
      assert values[..k] == values;
    } else {
      assert values[..k + 1] == values[..k] + [values[k]];
      OneMoreWord(values[..k], values[k]);
      TextGrows(values, k + 1);
    }
  }

  /** Where the k-th word stands in the text. */
  lemma Layout(values: seq<string>, k: nat)
    requires k < |values|
    ensures End(values, k + 1) == End(values, k) + |Gap(values, k)| + |values[k]| <= |Text(values)|
    ensures Text(values)[End(values, k)..End(values, k) + |Gap(values, k)|] == Gap(values, k)
    ensures Text(values)[End(values, k) + |Gap(values, k)|..End(values, k + 1)] == values[k]
  {
    var before, gap, v := Text(values[..k]), Gap(values, k), values[k];
    assert values[..k + 1] == values[..k] + [v];
    OneMoreWord(values[..k], v);
    TextGrows(values, k + 1);
    var upTo := before + gap + v;
    assert Text(values[..k + 1]) == upTo && Text(values)[..|upTo|] == upTo;
    assert upTo[|before|..|before| + |gap|] == gap && upTo[|before| + |gap|..] == v;
    assert Text(values)[|before|..|before| + |gap|] == upTo[|before|..|before| + |gap|];
    assert Text(values)[|before| + |gap|..|upTo|] == upTo[|before| + |gap|..];
  }

  lemma EndOfAll(values: seq<string>)
    ensures End(values, |values|) == |Text(values)|
  {
    assert values[..|values|] == values;
  }

  // ------------------------------------------------------------- the characters of the text

  predicate TypeCharacter(cc: CharClass, c: char) {
    c == ' ' || IdentifierPart(cc, c) || c == ':' || c == '<' || c == '>' || c == '&'
  }

  predicate OnlyTypeCharacters(cc: CharClass, text: string) {
    forall i :: 0 <= i < |text| ==> TypeCharacter(cc, text[i])
  }

  lemma WordCharacters(cc: CharClass, v: string)
    requires v in MARKS || Word(cc, v)
    ensures OnlyTypeCharacters(cc, v)
  {
  }

  lemma {:induction false} TextCharacters(cc: CharClass, values: seq<string>)
    requires TypeWords(cc, values)
    ensures OnlyTypeCharacters(cc, Text(values))
  {
    if |values| > 0 {
      WordCharacters(cc, values[0]);
      if |values| > 1 {
        TextCharacters(cc, values[1..]);
      }
    }
  }

  lemma FirstCharacter(text: string, needle: string, at: nat)
    requires needle != "" && StartsAt(text, needle, at)
    ensures text[at] == needle[0] && text[at + |needle| - 1] == needle[|needle| - 1]
  {
    StartsAtIs(text, needle, at);
    assert text[at..at + |needle|][0] == text[at];
    assert text[at..at + |needle|][|needle| - 1] == text[at + |needle| - 1];
  }

  /** Nothing in the text opens a directive, a comment or a literal. */
  lemma OnlyWords(cc: CharClass, text: string, at: nat)
    requires OnlyTypeCharacters(cc, text) && at < |text| && !cc.IsSpace(text[at])
    ensures NeitherTriviaNorDirective(cc, text, at)
    ensures TokenKind(cc, text, at) == if IdentifierStart(cc, text[at]) then Identifier else Punctuation
  {
    assert TypeCharacter(cc, text[at]);
    NoComment(cc, text, at);
    NoRawPrefix(cc, text, at);
  }

  lemma NoComment(cc: CharClass, text: string, at: nat)
    requires at < |text| && TypeCharacter(cc, text[at])
    ensures !StartsAt(text, "//", at) && !StartsAt(text, "/*", at)
  {
    PairAt(text, "//", at);
    PairAt(text, "/*", at);
  }

  lemma NoRawPrefix(cc: CharClass, text: string, at: nat)
    requires OnlyTypeCharacters(cc, text)
    ensures RawPrefix(text, at) == ""
  {
    var prefix := RawPrefix(text, at);
    assert forall v :: v in RAW_PREFIXES ==> v != "" && v[|v| - 1] == '"';
    assert !TypeCharacter(cc, '"');
    if prefix != "" {
      FirstMatchIsListed(text, at, RAW_PREFIXES, 0);
      FirstCharacter(text, prefix, at);
    }
  }

  lemma MarkIsRead(text: string, mark: string, at: nat)
    requires mark in MARKS && at + |mark| <= |text| && text[at..at + |mark|] == mark
    ensures PunctuationAt(text, at) == mark
  {
    assert text[at] == text[at..at + |mark|][0];
    if mark == "::" {
      assert text[at + 1] == text[at..at + 2][1];
      PairAt(text, "::", at);
      NotFirst(text, "...", at);
    } else {
      NoLongMark(text, at);
      assert text[at..at + |mark|] == [text[at]];
    }
  }

  lemma NoLongMark(text: string, at: nat)
    requires at < |text| && (text[at] == '<' || text[at] == '>' || text[at] == '&')
    ensures LongPunctuation(text, at) == ""
  {
    NotFirst(text, "...", at);
    NotFirst(text, "::", at);
    NotFirst(text, "[[", at);
    NotFirst(text, "]]", at);
    NotFirst(text, "->", at);
    FirstMatchIsListed(text, at, LONG_PUNCTUATION, 0);
  }

  lemma NotFirst(text: string, needle: string, at: nat)
    requires needle != "" && at < |text| && text[at] != needle[0]
    ensures !StartsAt(text, needle, at)
  {
    if StartsAt(text, needle, at) {
      FirstCharacter(text, needle, at);
    }
  }

  lemma NoLines(cc: CharClass, text: string, upto: nat)
    requires OnlyTypeCharacters(cc, text) && upto <= |text|
    ensures Newlines(text, upto) == 0
  {
    assert !TypeCharacter(cc, '\n');
    SameNewlines(text, 0, upto);
  }

  // --------------------------------------------------------------------------- relexing

  function WordKind(v: string): Kind {
    if v in MARKS then Punctuation else Identifier
  }

  function WordToken(values: seq<string>, k: nat): Token
    requires k < |values|
  {
    Token(values[k], End(values, k) + |Gap(values, k)|, End(values, k + 1), 1, WordKind(values[k]), 0, 0)
  }

  /** A word ends where the next one, or a space, begins. */
  /** After a word comes the next one, or the space before it. */
  lemma NextCharacter(values: seq<string>, k: nat)
    requires k + 1 < |values| && values[k + 1] != ""
    ensures End(values, k + 1) < |Text(values)|
    ensures Text(values)[End(values, k + 1)] == (Gap(values, k + 1) + values[k + 1])[0]
  {
    var gap, next, at := Gap(values, k + 1), values[k + 1], End(values, k + 1);
    Layout(values, k + 1);
    if gap == "" {
      assert Text(values)[at..at + |next|][0] == next[0];
    } else {
      assert Text(values)[at..at + |gap|][0] == gap[0];
    }
  }

  lemma WordEnds(cc: CharClass, values: seq<string>, k: nat)
    requires TypeWords(cc, values) && k < |values| && values[k] !in MARKS
    requires cc.IsSpace(' ')
    ensures End(values, k + 1) < |Text(values)| ==> !IdentifierPart(cc, Text(values)[End(values, k + 1)])
  {
    if k + 1 == |values| {
      EndOfAll(values);
    } else {
      NextCharacter(values, k);
      if Gap(values, k + 1) == "" {
        assert values[k + 1] in MARKS;
      }
    }
  }

  lemma WordIsChosen(cc: CharClass, values: seq<string>, k: nat)
    requires SameSpaces(cc) && TypeWords(cc, values) && k < |values|
    ensures WordToken(values, k).start < |Text(values)| && Chosen(cc, Text(values), TokenPiece(WordToken(values, k)))
  {
    var text, t := Text(values), WordToken(values, k);
    Layout(values, k);
    TextCharacters(cc, values);
    WordsAreVisible(cc, values[k], 0);
    assert text[t.start..t.end][0] == text[t.start];
    OnlyWords(cc, text, t.start);
    TokenIsChosen(cc, text, t);
  }

  lemma WordReads(cc: CharClass, values: seq<string>, k: nat)
    requires SameSpaces(cc) && TypeWords(cc, values) && k < |values|
    ensures Reads(cc, Text(values), TokenPiece(WordToken(values, k)))
  {
    var text, t := Text(values), WordToken(values, k);
    Layout(values, k);
    WordsAreVisible(cc, values[k], 0);
    if values[k] in MARKS {
      MarkIsRead(text, values[k], t.start);
    } else {
      assert cc.IsSpace(' ');
      WordEnds(cc, values, k);
      forall i | t.start <= i < t.end
        ensures IdentifierPart(cc, text[i])
      {
        assert text[i] == text[t.start..t.end][i - t.start];
      }
      assert text[t.start] == text[t.start..t.end][0];
    }
  }

  function Words(values: seq<string>, k: nat): seq<Token>
    requires k <= |values|
  {
    if k == 0 then [] else Words(values, k - 1) + [WordToken(values, k - 1)]
  }

  lemma {:induction false} WordValues(values: seq<string>, k: nat)
    requires k <= |values|
    ensures Values(Words(values, k)) == values[..k]
  {
    if k > 0 {
      WordValues(values, k - 1);
      OneMoreValue(Words(values, k - 1), WordToken(values, k - 1));
      LastOfPrefix(values, k);
    }
  }

  lemma LastOfPrefix(values: seq<string>, k: nat)
    requires 0 < k <= |values|
    ensures values[..k] == values[..k - 1] + [values[k - 1]]
  {
  }

  /** The text up to the k-th word has a faithful account whose tokens are the words. */
  lemma {:induction false} Relex(cc: CharClass, values: seq<string>, k: nat) returns (trail: Trail)
    requires SameSpaces(cc) && TypeWords(cc, values) && k <= |values|
    ensures Sound(cc, Text(values), trail, Words(values, k), [], [], End(values, k), 1, 0, 0)
    decreases k
  {
    if k == 0 {
      trail := Nothing;
      EmptyTrail(cc, Text(values));
    } else {
      var before := Relex(cc, values, k - 1);
      Layout(values, k - 1);
      trail := RelexWord(cc, values, k - 1, before, Words(values, k - 1));
    }
  }

  lemma EmptyTrail(cc: CharClass, text: string)
    ensures Sound(cc, text, Nothing, [], [], [], 0, 1, 0, 0)
  {
  }

  lemma OneMoreValue(tokens: seq<Token>, t: Token)
    ensures Values(tokens + [t]) == Values(tokens) + [t.value]
  {
    assert (tokens + [t])[..|tokens|] == tokens;
  }

  lemma RelexWord(cc: CharClass, values: seq<string>, k: nat, before: Trail, earlier: seq<Token>) returns (trail: Trail)
    requires SameSpaces(cc) && TypeWords(cc, values) && k < |values| && End(values, k) <= |Text(values)|
    requires Sound(cc, Text(values), before, earlier, [], [], End(values, k), 1, 0, 0)
    ensures Sound(cc, Text(values), trail, earlier + [WordToken(values, k)], [], [], End(values, k + 1), 1, 0, 0)
  {
    var t := WordToken(values, k);
    OverGap(cc, values, k, before, earlier);
    WordReads(cc, values, k);
    WordIsChosen(cc, values, k);
    WordLeavesLine(cc, values, k);
    trail := TokenIsSound(cc, Text(values), before, earlier, [], [], t, 1);
  }

  lemma WordLeavesLine(cc: CharClass, values: seq<string>, k: nat)
    requires SameSpaces(cc) && TypeWords(cc, values) && k < |values|
    ensures var p := TokenPiece(WordToken(values, k));
      && p.token.start < p.token.end <= |Text(values)| && LineAfter(Text(values), 1, p) == 1
      && NextDepth(0, p.token) == 0 && !IsQuoted(Text(values), p.token)
  {
    Layout(values, k);
    WordsAreVisible(cc, values[k], 0);
    TextCharacters(cc, values);
    NoLines(cc, Text(values), WordToken(values, k).start);
    NoLines(cc, Text(values), WordToken(values, k).end);
    WordIsNoBrace(cc, values[k]);
  }

  lemma WordIsNoBrace(cc: CharClass, v: string)
    requires v in MARKS || Word(cc, v)
    ensures v != "{" && v != "}"
  {
  }

  lemma OverGap(cc: CharClass, values: seq<string>, k: nat, trail: Trail, tokens: seq<Token>)
    requires SameSpaces(cc) && k < |values| && End(values, k) <= |Text(values)|
    requires Sound(cc, Text(values), trail, tokens, [], [], End(values, k), 1, 0, 0)
    ensures Sound(cc, Text(values), trail, tokens, [], [], End(values, k) + |Gap(values, k)|, 1, 0, 0)
  {
    Layout(values, k);
    var gap, at := Gap(values, k), End(values, k);
    if gap != "" {
      assert Text(values)[at..at + |gap|][0] == Text(values)[at] == ' ';
      SoundOnBlank(cc, Text(values), trail, tokens, [], [], at, 1, 0, 0);
    }
  }

  /** Whatever lexing a glued text reports, it is exactly its words. */
  lemma GluedTextRelexes(cc: CharClass, values: seq<string>, trail: Trail, tokens: seq<Token>,
                         comments: seq<LineComment>, directives: seq<Directive>)
    requires SameSpaces(cc) && TypeWords(cc, values)
    requires Account(cc, Text(values), trail, tokens, comments, directives)
    ensures Values(tokens) == values && comments == [] && directives == []
  {
    EndOfAll(values);
    var own := Relex(cc, values, |values|);
    var words := Words(values, |values|);
    WordValues(values, |values|);
    SoundAccount(cc, Text(values), own, words, [], [], 1, 0, 0);
    LexUnique.AccountsAreUnique(cc, Text(values), own, words, [], [], trail, tokens, comments, directives);
    assert values[..|values|] == values;
  }

  /** Tokens as a lexed file holds them. */
  ghost predicate LexedTokens(cc: CharClass, tokens: seq<Token>) {
    forall i :: 0 <= i < |tokens| ==> tokens[i].kind.Identifier? ==> Word(cc, tokens[i].value)
  }

  lemma {:induction false} ValueAt(tokens: seq<Token>, i: nat)
    requires i < |tokens|
    ensures |Values(tokens)| == |tokens| && Values(tokens)[i] == tokens[i].value
  {
    if i == |tokens| - 1 {
      if i > 0 {
        ValueAt(tokens[..|tokens| - 1], 0);
      }
    } else {
      ValueAt(tokens[..|tokens| - 1], i);
    }
  }

  lemma AcceptedAreTypeWords(cc: CharClass, tokens: seq<Token>)
    requires LexedTokens(cc, tokens) && Spelling(tokens).Some?
    ensures TypeWords(cc, Values(tokens))
  {
    ValueAt(tokens, 0);
    forall i | 0 <= i < |Values(tokens)|
      ensures Values(tokens)[i] in MARKS || Word(cc, Values(tokens)[i])
    {
      ValueAt(tokens, i);
      assert tokens[i] in tokens;
    }
  }

  /** The spelling of an accepted token list lexes to the same token values, and to nothing else. */
  lemma SpellingRelexes(cc: CharClass, scanned: seq<Token>, trail: Trail, tokens: seq<Token>,
                        comments: seq<LineComment>, directives: seq<Directive>)
    requires SameSpaces(cc) && LexedTokens(cc, scanned) && Spelling(scanned).Some?
    requires Account(cc, Spelling(scanned).value, trail, tokens, comments, directives)
    ensures Values(tokens) == Values(scanned) && comments == [] && directives == []
  {
    AcceptedAreTypeWords(cc, scanned);
    TightenedIsGlued(cc, Values(scanned));
    GluedTextRelexes(cc, Values(scanned), trail, tokens, comments, directives);
  }

  /** So token lists with different values never share a spelling. */
  lemma SpellingsDetermineTokens(cc: CharClass, one: seq<Token>, other: seq<Token>)
    requires SameSpaces(cc) && LexedTokens(cc, one) && LexedTokens(cc, other)
    requires Spelling(one).Some? && Spelling(other) == Spelling(one)
    ensures Values(one) == Values(other)
  {
    AcceptedAreTypeWords(cc, one);
    TightenedIsGlued(cc, Values(one));
    EndOfAll(Values(one));
    var trail := Relex(cc, Values(one), |Values(one)|);
    var tokens := Words(Values(one), |Values(one)|);
    SoundAccount(cc, Text(Values(one)), trail, tokens, [], [], 1, 0, 0);
    SpellingRelexes(cc, one, trail, tokens, [], []);
    SpellingRelexes(cc, other, trail, tokens, [], []);
  }
}
