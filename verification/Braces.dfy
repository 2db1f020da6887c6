/** Two ways of finding a closing brace: by the recorded depth, and by counting. */
module Braces {
  import opened LexModel

  /** Each token's recorded depth follows from the one before it, as on any stretch of active tokens. */
  predicate Stepwise(toks: seq<Token>) {
    && (forall i :: 0 <= i < |toks| ==> IsActive(toks[i]))
    && (forall i :: 0 < i < |toks| ==> toks[i].braceDepth == NextDepth(toks[i - 1].braceDepth, toks[i - 1]))
  }

  /** The first `}` from i on that was recorded at the given depth; -1 when there is none. */
  function FirstRecorded(toks: seq<Token>, i: nat, depth: nat): (r: int)
    requires i <= |toks|
    ensures r == -1 || (i <= r < |toks| && toks[r].value == "}" && toks[r].braceDepth == depth)
    ensures forall j :: i <= j < (if r == -1 then |toks| else r) ==> toks[j].value != "}" || toks[j].braceDepth != depth
    decreases |toks| - i
  {
    if i == |toks| then -1
    else if toks[i].value == "}" && toks[i].braceDepth == depth then i
    else FirstRecorded(toks, i + 1, depth)
  }

  /** The closing brace that the extent searches take for the opening brace at o. */
  function Match(toks: seq<Token>, o: nat): int
    requires o < |toks|
  {
    FirstRecorded(toks, o + 1, toks[o].braceDepth + 1)
  }

  /** Where a running count of open braces first returns to zero; -1 when it never does. */
  function CountClose(toks: seq<Token>, i: nat, depth: nat): (r: int)
    requires i <= |toks| && depth > 0
    ensures r == -1 || i <= r < |toks|
    decreases |toks| - i
  {
    if i == |toks| then -1
    else if toks[i].value == "{" then CountClose(toks, i + 1, depth + 1)
    else if toks[i].value == "}" then if depth == 1 then i else CountClose(toks, i + 1, depth - 1)
    else CountClose(toks, i + 1, depth)
  }

  lemma {:induction false} CountingFollowsTheRecord(toks: seq<Token>, i: nat, base: nat, depth: nat)
    requires Stepwise(toks) && i <= |toks| && depth > 0
    requires i < |toks| ==> toks[i].braceDepth == base + depth
    ensures FirstRecorded(toks, i, base + 1) == CountClose(toks, i, depth)
    decreases |toks| - i
  {
    if i < |toks| {
      if toks[i].value == "{" {
        CountingFollowsTheRecord(toks, i + 1, base, depth + 1);
      } else if toks[i].value == "}" {
        if depth > 1 {
          CountingFollowsTheRecord(toks, i + 1, base, depth - 1);
        }
      } else {
        CountingFollowsTheRecord(toks, i + 1, base, depth);
      }
    }
  }

  /** Recorded-depth matching is counting, for every active `{`, clamped depths included. */
  lemma MatchIsCounting(toks: seq<Token>, o: nat)
    requires Stepwise(toks) && o < |toks| && toks[o].value == "{"
    ensures Match(toks, o) == CountClose(toks, o + 1, 1)
  {
    CountingFollowsTheRecord(toks, o + 1, toks[o].braceDepth, 1);
  }

  /** `_class_body_close`: the counting loop over the tokens from the class on. */
  method ClassBodyClose(following: seq<Token>, opening: nat) returns (closing: int)
    requires Stepwise(following) && opening < |following| && following[opening].value == "{"
    ensures closing == Match(following, opening)
  {
    MatchIsCounting(following, opening);
    var depth, cursor := 1, opening + 1;
    while cursor < |following|
      invariant opening < cursor <= |following| && depth > 0
      invariant CountClose(following, cursor, depth) == CountClose(following, opening + 1, 1)
    {
      if following[cursor].value == "{" {
        depth := depth + 1;
      } else if following[cursor].value == "}" {
        depth := depth - 1;
        if depth == 0 {
          return cursor;
        }
      }
      cursor := cursor + 1;
    }
    return -1;
  }

  /** `_skip_braced_body`: past the closing brace, or to the end of the tokens. */
  method SkipBracedBody(body: seq<Token>, opening: nat) returns (cursor: nat)
    requires Stepwise(body) && opening < |body| && body[opening].value == "{"
    ensures cursor == if Match(body, opening) == -1 then |body| else Match(body, opening) + 1
  {
    MatchIsCounting(body, opening);
    var depth := 1;
    cursor := opening + 1;
    while cursor < |body| && depth > 0
      invariant opening < cursor <= |body|
      invariant if depth > 0 then CountClose(body, cursor, depth) == CountClose(body, opening + 1, 1)
                else CountClose(body, opening + 1, 1) == cursor - 1
    {
      if body[cursor].value == "{" {
        depth := depth + 1;
      } else if body[cursor].value == "}" {
        depth := depth - 1;
      }
      cursor := cursor + 1;
    }
  }

  // ------------------------------------------------------------------ braces left open

  /** The tokens of a lexed file that no conditional hides. */
  function Active(tokens: seq<Token>): seq<Token> {
    if tokens == [] then []
    else
      var rest := Active(tokens[..|tokens| - 1]);
      if IsActive(tokens[|tokens| - 1]) then rest + [tokens[|tokens| - 1]] else rest
  }

  /** Active are exactly the tokens under no conditional. */
  lemma {:induction false} ActiveTokensAre(tokens: seq<Token>)
    ensures forall t :: t in Active(tokens) <==> t in tokens && t.conditionalDepth == 0
  {
    if tokens != [] {
      var front, last := tokens[..|tokens| - 1], tokens[|tokens| - 1];
      ActiveTokensAre(front);
      assert tokens == front + [last];
    }
  }

  /** Every token records the depth after the ones before it. */
  predicate Recorded(toks: seq<Token>) {
    forall i :: 0 <= i < |toks| ==> toks[i].braceDepth == DepthAfter(toks[..i])
  }

  lemma RecordedPlusOne(toks: seq<Token>, t: Token)
    requires Recorded(toks) && t.braceDepth == DepthAfter(toks)
    ensures Recorded(toks + [t])
  {
    assert (toks + [t])[..|toks|] == toks;
    assert forall i :: 0 <= i < |toks| ==> (toks + [t])[..i] == toks[..i];
  }

  lemma {:induction false} ActiveTokensAreRecorded(tokens: seq<Token>)
    requires Recorded(tokens)
    ensures Recorded(Active(tokens)) && DepthAfter(Active(tokens)) == DepthAfter(tokens)
    ensures forall i :: 0 <= i < |Active(tokens)| ==> IsActive(Active(tokens)[i])
  {
    if tokens != [] {
      var front, last := tokens[..|tokens| - 1], tokens[|tokens| - 1];
      assert forall i :: 0 <= i < |front| ==> front[i] == tokens[i] && tokens[..i] == front[..i];
      ActiveTokensAreRecorded(front);
      if IsActive(last) {
        DepthAfterOneMore(Active(front), last);
        RecordedPlusOne(Active(front), last);
      }
    }
  }

  /** The active tokens of a whole file: stepwise from depth zero. */
  predicate WholeFile(toks: seq<Token>) {
    Stepwise(toks) && (toks != [] ==> toks[0].braceDepth == 0)
  }

  /** The depth recorded at, or left after, the first k tokens. */
  function DepthAt(toks: seq<Token>, k: nat): nat
    requires k <= |toks|
  {
    if k == 0 then 0 else NextDepth(toks[k - 1].braceDepth, toks[k - 1])
  }

  lemma RecordedIsWholeFile(toks: seq<Token>)
    requires Recorded(toks) && forall i :: 0 <= i < |toks| ==> IsActive(toks[i])
    ensures WholeFile(toks)
    ensures forall k :: 0 <= k <= |toks| ==> DepthAt(toks, k) == DepthAfter(toks[..k])
  {
    forall k | 0 <= k <= |toks|
      ensures DepthAt(toks, k) == DepthAfter(toks[..k])
    {
      if k > 0 {
        assert toks[..k][..k - 1] == toks[..k - 1];
      }
    }
    assert forall i :: 0 < i < |toks| ==> toks[i].braceDepth == DepthAt(toks, i);
    assert toks != [] ==> toks[..0] == [];
  }

  /** The braces open after the first k tokens, outermost first. */
  function OpenBraces(toks: seq<Token>, k: nat): seq<nat>
    requires k <= |toks|
  {
    if k == 0 then []
    else
      var before := OpenBraces(toks, k - 1);
      if toks[k - 1].value == "{" then before + [k - 1]
      else if toks[k - 1].value == "}" && before != [] then before[..|before| - 1]
      else before
  }

  /** Still open at k: an earlier `{` whose match does not come before k. */
  predicate StillOpen(toks: seq<Token>, o: nat, k: nat)
    requires k <= |toks|
  {
    o < k && toks[o].value == "{" && (Match(toks, o) == -1 || k <= Match(toks, o))
  }

  /** s is the stack after k tokens: as deep as the recorded depth, each brace at its own
      depth, and made of exactly the braces whose match is still to come. */
  ghost predicate IsStack(toks: seq<Token>, k: nat, s: seq<nat>)
    requires k <= |toks|
  {
    && |s| == DepthAt(toks, k)
    && (forall p :: 0 <= p < |s| ==> StillOpen(toks, s[p], k) && toks[s[p]].braceDepth == p)
    && (forall o: nat {:trigger StillOpen(toks, o, k)} :: StillOpen(toks, o, k) ==>
          toks[o].braceDepth < |s| && s[toks[o].braceDepth] == o)
  }

  lemma OpeningBrace(toks: seq<Token>, k: nat, s: seq<nat>)
    requires WholeFile(toks) && k < |toks| && IsStack(toks, k, s) && toks[k].value == "{"
    ensures IsStack(toks, k + 1, s + [k])
  {
    forall o: nat | StillOpen(toks, o, k + 1)
      ensures toks[o].braceDepth <= |s| && (s + [k])[toks[o].braceDepth] == o
    {
      if o < k {
        assert StillOpen(toks, o, k);
      }
    }
  }

  lemma WhatABraceCloses(toks: seq<Token>, k: nat, o: nat)
    requires k < |toks| && toks[k].value == "}"
    ensures StillOpen(toks, o, k + 1) <==> StillOpen(toks, o, k) && toks[k].braceDepth != toks[o].braceDepth + 1
  {
  }

  lemma ClosingBrace(toks: seq<Token>, k: nat, s: seq<nat>)
    requires WholeFile(toks) && k < |toks| && IsStack(toks, k, s) && toks[k].value == "}"
    ensures IsStack(toks, k + 1, if s == [] then s else s[..|s| - 1])
  {
    var popped := if s == [] then s else s[..|s| - 1];
    assert toks[k].braceDepth == |s|;
    forall p | 0 <= p < |popped|
      ensures StillOpen(toks, popped[p], k + 1) && toks[popped[p]].braceDepth == p
    {
      assert popped[p] == s[p];
      WhatABraceCloses(toks, k, s[p]);
    }
    forall o: nat | StillOpen(toks, o, k + 1)
      ensures toks[o].braceDepth < |popped| && popped[toks[o].braceDepth] == o
    {
      WhatABraceCloses(toks, k, o);
    }
  }

  lemma OrdinaryToken(toks: seq<Token>, k: nat, s: seq<nat>)
    requires WholeFile(toks) && k < |toks| && IsStack(toks, k, s)
    requires toks[k].value != "{" && toks[k].value != "}"
    ensures IsStack(toks, k + 1, s)
  {
    forall p | 0 <= p < |s|
      ensures StillOpen(toks, s[p], k + 1)
    {
      assert StillOpen(toks, s[p], k);
    }
    forall o: nat | StillOpen(toks, o, k + 1)
      ensures toks[o].braceDepth < |s| && s[toks[o].braceDepth] == o
    {
      assert o < k && StillOpen(toks, o, k);
    }
  }

  lemma {:induction false} OpenBracesAreTheStack(toks: seq<Token>, k: nat)
    requires WholeFile(toks) && k <= |toks|
    ensures IsStack(toks, k, OpenBraces(toks, k))
    decreases k
  {
    if k > 0 {
      var before := OpenBraces(toks, k - 1);
      OpenBracesAreTheStack(toks, k - 1);
      if toks[k - 1].value == "{" {
        OpeningBrace(toks, k - 1, before);
      } else if toks[k - 1].value == "}" {
        ClosingBrace(toks, k - 1, before);
      } else {
        OrdinaryToken(toks, k - 1, before);
      }
    }
  }
}
