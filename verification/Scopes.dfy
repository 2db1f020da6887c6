/** The scanner end to end: from a lexed file to marker scopes and class extents. */
module Scopes {
  import opened LexModel
  import opened Braces
  import opened Namespaces

  // ------------------------------------------------- active tokens of a faithful account

  lemma {:induction false} ActiveComesFrom(tokens: seq<Token>)
    ensures forall t :: t in Active(tokens) ==> t in tokens
  {
    if tokens != [] {
      ActiveComesFrom(tokens[..|tokens| - 1]);
    }
  }

  lemma {:induction false} ActiveStaysInOrder(tokens: seq<Token>)
    requires InOrder(tokens)
    ensures InOrder(Active(tokens))
  {
    if tokens != [] {
      var front, last := tokens[..|tokens| - 1], tokens[|tokens| - 1];
      assert InOrder(front);
      ActiveStaysInOrder(front);
      ActiveComesFrom(front);
      forall i | 0 <= i < |Active(front)|
        ensures Active(front)[i].end <= last.start
      {
        assert Active(front)[i] in front;
        var j :| 0 <= j < |front| && front[j] == Active(front)[i];
        assert tokens[j].end <= tokens[|tokens| - 1].start;
      }
    }
  }

  lemma {:induction false} WordsAreWords(cc: CharClass, text: string, trail: Trail)
    requires AllRead(cc, text, trail)
    ensures WordKinds(Tokens(trail))
    decreases trail
  {
    if trail.Then? {
      AllReadBefore(cc, text, trail);
      WordsAreWords(cc, text, trail.before);
      if trail.last.TokenPiece? {
        var t := trail.last.token;
        assert t.kind.Identifier? ==> t.value[0] == text[t.start];
      }
    }
  }

  /** The active tokens of a lexed file are what the scanner's consumers rely on. */
  lemma AccountsAreScannable(cc: CharClass, text: string, trail: Trail, tokens: seq<Token>, comments: seq<LineComment>,
                             directives: seq<Directive>)
    requires Account(cc, text, trail, tokens, comments, directives)
    ensures WholeFile(Active(tokens)) && InOrder(Active(tokens)) && WordKinds(Active(tokens))
    ensures forall k :: 0 <= k <= |Active(tokens)| ==> DepthAt(Active(tokens), k) == DepthAfter(Active(tokens)[..k])
  {
    TokensAreOrdered(cc, text, trail, |text|);
    TokensRecordDepth(text, trail);
    WordsAreWords(cc, text, trail);
    ActiveTokensAreRecorded(tokens);
    RecordedIsWholeFile(Active(tokens));
    ActiveStaysInOrder(tokens);
    ActiveComesFrom(tokens);
  }

  lemma {:induction false} ActiveCut(tokens: seq<Token>, cut: nat, at: nat)
    requires CutsAt(tokens, cut, at)
    ensures var k := |Active(tokens[..cut])|;
      CutsAt(Active(tokens), k, at) && Active(tokens)[..k] == Active(tokens[..cut])
  {
    ActiveComesFrom(tokens[..cut]);
    if cut == |tokens| {
      assert tokens[..cut] == tokens;
      assert forall j :: 0 <= j < |Active(tokens)| ==> Active(tokens)[j] in tokens;
    } else {
      var front := tokens[..|tokens| - 1];
      assert front[..cut] == tokens[..cut];
      ActiveCut(front, cut, at);
      var last := tokens[|tokens| - 1];
      CutsExtend(Active(front), if IsActive(last) then [last] else [], |Active(tokens[..cut])|, at);
      assert Active(front) + [] == Active(front);
    }
  }

  lemma {:induction false} DepthOfActive(tokens: seq<Token>)
    ensures DepthAfter(Active(tokens)) == DepthAfter(tokens)
  {
    if tokens != [] {
      var front, last := tokens[..|tokens| - 1], tokens[|tokens| - 1];
      DepthOfActive(front);
      DepthAfterOneMore(Active(front), last);
    }
  }

  /** The test that opens class discovery, `brace_depth != namespace_depth` on a marker
      comment, is exact on every source text: the depths agree if and only if every brace
      open at the comment belongs to a named namespace that is closed later. */
  lemma MarkerScopeIsExact(cc: CharClass, text: string, trail: Trail, tokens: seq<Token>, comments: seq<LineComment>,
                           directives: seq<Directive>, k: nat)
    returns (cut: nat)
    requires Account(cc, text, trail, tokens, comments, directives) && k < |comments|
    ensures CutsAt(Active(tokens), cut, comments[k].start)
    ensures |Ranges(Active(tokens), comments[k].start, |Active(tokens)|)| == comments[k].braceDepth
      <==> forall o: nat :: StillOpen(Active(tokens), o, cut) ==> NamedScope(Active(tokens), o)
  {
    AccountsAreScannable(cc, text, trail, tokens, comments, directives);
    var whole := CommentsRecordDepth(cc, text, trail, |text|, k);
    var at := comments[k].start;
    ActiveCut(tokens, whole, at);
    DepthOfActive(tokens[..whole]);
    cut := |Active(tokens[..whole])|;
    CommentIsNoToken(cc, text, trail, |text|, k);
    ActiveComesFrom(tokens);
    NamespaceScopeIsExact(Active(tokens), at, cut);
  }

  /** No token starts where a comment does. */
  lemma {:induction false} CommentIsNoToken(cc: CharClass, text: string, trail: Trail, upto: nat, k: nat)
    requires upto <= |text| && Covers(cc, text, trail, upto) && k < |Comments(trail)|
    ensures forall t :: t in Tokens(trail) ==> t.start != Comments(trail)[k].start
    decreases trail
  {
    TokensAreOrdered(cc, text, trail.before, trail.last.Start());
    if k < |Comments(trail.before)| {
      CommentIsNoToken(cc, text, trail.before, trail.last.Start(), k);
      CommentsEnd(cc, text, trail.before, trail.last.Start(), k);
    }
  }

  // ---------------------------------------------------------------------- class extents

  /** The next `{` or `;` from i on; the length of the tokens when there is none. */
  function BodyOrEnd(toks: seq<Token>, i: nat): (r: nat)
    requires i <= |toks|
    ensures i <= r <= |toks| && (r < |toks| ==> toks[r].value == "{" || toks[r].value == ";")
    decreases |toks| - i
  {
    if i == |toks| || toks[i].value == "{" || toks[i].value == ";" then i else BodyOrEnd(toks, i + 1)
  }

  datatype Extent = Extent(class_: Token, opening: Token, closing: Token)

  predicate IsExtent(toks: seq<Token>, i: nat)
    requires i < |toks|
  {
    && (toks[i].value == "class" || toks[i].value == "struct")
    && !(i > 0 && toks[i - 1].value == "enum")
    && toks[i].braceDepth == |Ranges(toks, toks[i].start, |toks|)|
    && var o := BodyOrEnd(toks, i + 1);
      o < |toks| && toks[o].value == "{" && Match(toks, o) != -1
  }

  function Extents(toks: seq<Token>, n: nat): seq<Extent>
    requires n <= |toks|
  {
    if n == 0 then []
    else if IsExtent(toks, n - 1) then
      var o := BodyOrEnd(toks, n);
      Extents(toks, n - 1) + [Extent(toks[n - 1], toks[o], toks[Match(toks, o)])]
    else Extents(toks, n - 1)
  }

  /** `_top_level_class_extents`. */
  method TopLevelClassExtents(tokens: seq<Token>) returns (result: seq<Extent>)
    ensures result == Extents(Active(tokens), |Active(tokens)|)
  {
    var toks := Active(tokens);
    result := [];
    for index := 0 to |toks|
      invariant result == Extents(toks, index)
    {
      var token := toks[index];
      if token.value != "class" && token.value != "struct" {
        continue;
      }
      if index > 0 && toks[index - 1].value == "enum" {
        continue;
      }
      var _, depth := NamespaceAt(tokens, token.start);
      if token.braceDepth != depth {
        continue;
      }
      var opening := BodyOrEnd(toks, index + 1);
      if opening == |toks| || toks[opening].value != "{" {
        continue;
      }
      var closing := FirstRecorded(toks, opening + 1, toks[opening].braceDepth + 1);
      if closing != -1 {
        result := result + [Extent(token, toks[opening], toks[closing])];
      }
    }
  }

  lemma ScopeOfToken(toks: seq<Token>, i: nat)
    requires WholeFile(toks) && WordKinds(toks) && InOrder(toks) && i < |toks| && toks[i].value != "}"
    ensures |Ranges(toks, toks[i].start, |toks|)| == toks[i].braceDepth
      <==> forall o: nat :: StillOpen(toks, o, i) ==> NamedScope(toks, o)
  {
    assert CutsAt(toks, i, toks[i].start);
    NamespaceScopeIsExact(toks, toks[i].start, i);
  }

  /** Every reported class stands in named namespaces only, and its extent ends at the brace
      that counting finds. */
  lemma ExtentsAreSound(toks: seq<Token>, i: nat)
    requires WholeFile(toks) && WordKinds(toks) && InOrder(toks) && i < |toks|
    requires IsExtent(toks, i)
    ensures forall o: nat :: StillOpen(toks, o, i) ==> NamedScope(toks, o)
    ensures var o := BodyOrEnd(toks, i + 1); Match(toks, o) == CountClose(toks, o + 1, 1)
  {
    ScopeOfToken(toks, i);
    MatchIsCounting(toks, BodyOrEnd(toks, i + 1));
  }

  /** And a class is passed over only for a reason a reader can see. */
  lemma OmissionsAreSound(toks: seq<Token>, i: nat)
    requires WholeFile(toks) && WordKinds(toks) && InOrder(toks) && i < |toks|
    requires (toks[i].value == "class" || toks[i].value == "struct") && !IsExtent(toks, i)
    ensures var o := BodyOrEnd(toks, i + 1);
      || (i > 0 && toks[i - 1].value == "enum")
      || (exists b: nat :: StillOpen(toks, b, i) && !NamedScope(toks, b))
      || o == |toks| || toks[o].value == ";" || CountClose(toks, o + 1, 1) == -1
  {
    ScopeOfToken(toks, i);
    var o := BodyOrEnd(toks, i + 1);
    if o < |toks| && toks[o].value == "{" {
      MatchIsCounting(toks, o);
    }
  }
}
