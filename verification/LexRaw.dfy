/** Raw string literals against the language rules: sections 5.3 and 5.13.5 of ISO C++ 2017
    ([lex.charset] and [lex.string]). */
module LexRaw {
  import opened LexModel

  /** Horizontal tab, line feed, vertical tab and form feed. */
  predicate BasicControl(c: char) {
    9 <= c as int <= 12
  }

  /** The 96 characters of the basic source character set: four controls, the blank, and the ASCII
      letters, digits and symbols but for three. */
  predicate Basic(c: char) {
    BasicControl(c) || (32 <= c as int <= 126 && c != '$' && c != '@' && c != '`')
  }

  /** A d-char: a basic character other than the blank, parentheses, backslash and controls. */
  predicate DChar(c: char) {
    Basic(c) && c != ' ' && c != '(' && c != ')' && c != '\\' && !BasicControl(c)
  }

  /** What Python's `isspace` says of the ASCII characters. */
  ghost predicate AsciiExact(cc: CharClass) {
    forall c: char :: c as int < 128 ==> (cc.IsSpace(c) <==> 9 <= c as int <= 13 || 28 <= c as int <= 32)
  }

  /** The characters the scanner admits beyond the rule: visible ones outside the basic set. */
  predicate Beyond(cc: CharClass, c: char) {
    !Basic(c) && !cc.IsSpace(c)
  }

  /** Among the ASCII characters these are three symbols and the controls that are no white space. */
  lemma BeyondInAscii(cc: CharClass, c: char)
    requires AsciiExact(cc) && c as int < 128
    ensures Beyond(cc, c) <==>
      c == '$' || c == '@' || c == '`' || c as int < 9 || 14 <= c as int < 28 || c as int == 127
  {
  }

  ghost predicate DCharSequence(text: string, from: nat, end: nat)
    requires end <= |text|
  {
    end <= from + 16 && forall i :: from <= i < end ==> DChar(text[i])
  }

  /** The scanner's delimiters are the d-char sequences, but for the characters beyond the rule. */
  lemma {:induction false} DelimitersAre(cc: CharClass, text: string, from: nat, end: nat)
    requires AsciiExact(cc) && from <= end <= |text|
    ensures IsDelimiter(cc, text, from, end) <==>
      (forall i :: from <= i < end ==> DChar(text[i]) || Beyond(cc, text[i]))
    decreases end
  {
    if from < end {
      DelimitersAre(cc, text, from, end - 1);
    }
  }

  /** An encoding prefix, if any, `R` and a quote. */
  predicate OpensRaw(prefix: string) {
    prefix == "R\"" || prefix == "u8R\"" || prefix == "uR\"" || prefix == "UR\"" || prefix == "LR\""
  }

  /** A raw string opens here by the language rule: a prefix, a d-char sequence of at most 16, and
      the parenthesis at an offset. */
  ghost predicate RawOpens(text: string, at: nat, prefix: string, opening: nat) {
    && OpensRaw(prefix) && at + |prefix| <= |text| && text[at..at + |prefix|] == prefix
    && at + |prefix| <= opening < |text| && text[opening] == '(' && DCharSequence(text, at + |prefix|, opening)
  }

  /** At most one prefix stands at a place. */
  lemma OnePrefix(text: string, at: nat, p: string, q: string)
    requires p in RAW_PREFIXES && q in RAW_PREFIXES && StartsAt(text, p, at) && StartsAt(text, q, at)
    ensures p == q
  {
    StartsAtIs(text, p, at);
    StartsAtIs(text, q, at);
    assert text[at..at + |p|][0] == text[at..at + |q|][0] && text[at..at + |p|][1] == text[at..at + |q|][1];
  }

  lemma {:induction false} FirstMatchFinds(text: string, at: nat, candidates: seq<string>, i: nat, k: nat)
    requires i <= k < |candidates| && candidates[k] != "" && StartsAt(text, candidates[k], at)
    ensures FirstMatch(text, at, candidates, i) != "" || exists j :: i <= j < k && candidates[j] == ""
    decreases |candidates| - i
  {
    if i < k && !StartsAt(text, candidates[i], at) {
      FirstMatchFinds(text, at, candidates, i + 1, k);
    }
  }

  lemma PrefixIs(text: string, at: nat, prefix: string)
    requires prefix in RAW_PREFIXES && StartsAt(text, prefix, at)
    ensures RawPrefix(text, at) == prefix
  {
    var k :| 0 <= k < |RAW_PREFIXES| && RAW_PREFIXES[k] == prefix;
    FirstMatchFinds(text, at, RAW_PREFIXES, 0, k);
    FirstMatchIsListed(text, at, RAW_PREFIXES, 0);
    OnePrefix(text, at, RawPrefix(text, at), prefix);
  }

  lemma ParenthesisAt(text: string, k: nat)
    ensures StartsAt(text, "(", k) <==> k < |text| && text[k] == '('
  {
    if k < |text| {
      assert Matches(text, "(", k, 1) <==> text[k] == '(';
    }
  }

  /** No parenthesis stands in the sequence, so the first one found is the one that opens. */
  lemma OpeningIs(text: string, from: nat, opening: nat)
    requires from <= opening < |text| && text[opening] == '(' && forall i :: from <= i < opening ==> text[i] != '('
    ensures Find(text, "(", from) == opening
  {
    var found := Find(text, "(", from);
    ParenthesisAt(text, opening);
    if found < 0 || opening < found {
      FindIsFirst(text, "(", from, opening);
    } else {
      ParenthesisAt(text, found);
    }
  }

  lemma RawStringOpens(cc: CharClass, text: string, at: nat, prefix: string, opening: nat)
    requires AsciiExact(cc) && RawOpens(text, at, prefix, opening)
    ensures RawStringEnd(cc, text, at) == RawClose(text, at + |prefix|, opening, opening + 1)
  {
    StartsAtIs(text, prefix, at);
    PrefixIs(text, at, prefix);
    OpeningIs(text, at + |prefix|, opening);
    DelimitersAre(cc, text, at + |prefix|, opening);
  }

  lemma RawStringOpened(cc: CharClass, text: string, at: nat) returns (prefix: string, opening: nat)
    requires AsciiExact(cc) && RawStringEnd(cc, text, at) != -1
    requires forall i :: at <= i < |text| ==> Basic(text[i])
    ensures RawOpens(text, at, prefix, opening)
  {
    prefix := RawPrefix(text, at);
    opening := Find(text, "(", at + |prefix|);
    FirstMatchIsListed(text, at, RAW_PREFIXES, 0);
    ParenthesisAt(text, opening);
    DelimitersAre(cc, text, at + |prefix|, opening);
    StartsAtIs(text, prefix, at);
  }

  /** Over the basic set the scanner reads a raw string exactly where the language has one. */
  lemma RawStringsAreStandard(cc: CharClass, text: string, at: nat)
    requires AsciiExact(cc) && forall i :: at <= i < |text| ==> Basic(text[i])
    ensures RawStringEnd(cc, text, at) != -1 <==> exists prefix, opening :: RawOpens(text, at, prefix, opening)
  {
    if prefix, opening :| RawOpens(text, at, prefix, opening) {
      RawStringOpens(cc, text, at, prefix, opening);
    } else if RawStringEnd(cc, text, at) != -1 {
      var prefix, opening := RawStringOpened(cc, text, at);
    }
  }

  lemma {:induction false} SameSpanIs(text: string, a: nat, b: nat, count: nat)
    requires a + count <= |text| && b + count <= |text|
    ensures SameSpan(text, a, b, count) <==> text[a..a + count] == text[b..b + count]
  {
    if count > 0 {
      var s, t := text[a..a + count], text[b..b + count];
      SameSpanIs(text, a, b, count - 1);
      assert s[count - 1] == text[a + count - 1] && s[..count - 1] == text[a..a + count - 1];
      assert t[count - 1] == text[b + count - 1] && t[..count - 1] == text[b..b + count - 1];
      assert s == s[..count - 1] + [s[count - 1]] && t == t[..count - 1] + [t[count - 1]];
    }
  }

  /** A closing is a parenthesis, the delimiter again, and a quote. */
  lemma ClosingIs(text: string, from: nat, opening: nat, k: nat)
    requires from <= opening <= |text|
    ensures ClosesRaw(text, from, opening, k) <==>
      k + (opening - from) + 2 <= |text| && text[k] == ')'
      && text[k + 1..k + 1 + (opening - from)] == text[from..opening] && text[k + (opening - from) + 1] == '"'
  {
    if k + (opening - from) + 2 <= |text| {
      SameSpanIs(text, from, k + 1, opening - from);
    }
  }

  /** It ends with the first closing parenthesis that the delimiter and a quote follow. */
  lemma {:induction false} RawClosesFirst(text: string, from: nat, opening: nat, k: nat, closing: nat)
    requires from <= opening <= |text| && k <= closing && ClosesRaw(text, from, opening, closing)
    ensures var end := RawClose(text, from, opening, k);
      && end <= closing + (opening - from) + 2
      && k <= end - (opening - from) - 2 && ClosesRaw(text, from, opening, end - (opening - from) - 2)
    decreases |text| - k
  {
    if !ClosesRaw(text, from, opening, k) {
      RawClosesFirst(text, from, opening, k + 1, closing);
    }
  }

  /** A delimiter the language does not have and the scanner takes: `R"@(x)@"` is one token. */
  lemma ForeignDelimiterIsTaken(cc: CharClass)
    requires AsciiExact(cc)
    ensures var text := "R\"@(x)@\"";
      && RawStringEnd(cc, text, 0) == |text| && !exists prefix, opening :: RawOpens(text, 0, prefix, opening)
  {
    var text := "R\"@(x)@\"";
    assert text[0] == 'R' && text[1] == '"' && text[2] == '@' && text[3] == '(' && !DChar('@');
    StartsAtIs(text, "R\"", 0);
    assert text[0..2] == "R\"";
    PrefixIs(text, 0, "R\"");
    OpeningIs(text, 2, 3);
    DelimitersAre(cc, text, 2, 3);
    BeyondInAscii(cc, '@');
    forall prefix, opening
      ensures !RawOpens(text, 0, prefix, opening)
    {
      if RawOpens(text, 0, prefix, opening) {
        StartsAtIs(text, prefix, 0);
        OnePrefix(text, 0, prefix, "R\"");
      }
    }
  }
}
