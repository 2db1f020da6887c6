/** Which declarations stand at global or named-namespace scope. */
module Namespaces {
  import opened LexModel
  import opened Braces

  /** Kinds as the lexer reports them: only words are identifiers. */
  predicate WordKinds(toks: seq<Token>) {
    forall t :: t in toks && (t.value == "{" || t.value == "::") ==> !t.kind.Identifier?
  }

  predicate InOrder(toks: seq<Token>) {
    && (forall i :: 0 <= i < |toks| ==> toks[i].start < toks[i].end)
    && (forall i, j :: 0 <= i < j < |toks| ==> toks[i].end <= toks[j].start)
  }

  datatype Heading = NoHeading | Heading(names: seq<string>, opening: nat)

  /** `_namespace_opening`: names separated by `::` up to a brace. */
  function Opening(toks: seq<Token>, cursor: nat, expectName: bool, names: seq<string>): Heading
    decreases |toks| - cursor
  {
    if cursor >= |toks| then NoHeading
    else if toks[cursor].value == "{" then if names == [] || expectName then NoHeading else Heading(names, cursor)
    else if expectName && toks[cursor].kind.Identifier?
      then Opening(toks, cursor + 1, false, names + [toks[cursor].value])
    else if !expectName && toks[cursor].value == "::" then Opening(toks, cursor + 1, true, names)
    else NoHeading
  }

  function HeadingAt(toks: seq<Token>, i: nat): Heading
    requires i < |toks|
  {
    if toks[i].value == "namespace" then Opening(toks, i + 1, true, []) else NoHeading
  }

  method NamespaceOpening(toks: seq<Token>, first: nat) returns (heading: Heading)
    ensures heading == Opening(toks, first, true, [])
  {
    var cursor, names, expectName := first, [], true;
    while cursor < |toks| && toks[cursor].value != "{"
      invariant Opening(toks, cursor, expectName, names) == Opening(toks, first, true, [])
      decreases |toks| - cursor
    {
      var current := toks[cursor];
      if expectName && current.kind.Identifier? {
        names, expectName := names + [current.value], false;
      } else if !expectName && current.value == "::" {
        expectName := true;
      } else {
        return NoHeading;
      }
      cursor := cursor + 1;
    }
    if cursor >= |toks| || names == [] || expectName {
      return NoHeading;
    }
    return Heading(names, cursor);
  }

  datatype Range = Range(opening: nat, closing: nat, names: seq<string>)

  /** The token at i heads a named namespace that is open at the offset and closed later. */
  predicate Contains(toks: seq<Token>, i: nat, offset: nat)
    requires i < |toks|
  {
    && toks[i].start < offset
    && HeadingAt(toks, i).Heading?
    && var o := HeadingAt(toks, i).opening;
      o < |toks| && Match(toks, o) != -1 && toks[o].end <= offset < toks[Match(toks, o)].start
  }

  /** The ranges found by the first n tokens, in the order they are found. */
  function Ranges(toks: seq<Token>, offset: nat, n: nat): seq<Range>
    requires n <= |toks|
  {
    if n == 0 then []
    else if Contains(toks, n - 1, offset) then
      var heading := HeadingAt(toks, n - 1);
      Ranges(toks, offset, n - 1) + [Range(heading.opening, Match(toks, heading.opening), heading.names)]
    else Ranges(toks, offset, n - 1)
  }

  function Path(ranges: seq<Range>): seq<string> {
    if ranges == [] then [] else Path(ranges[..|ranges| - 1]) + ranges[|ranges| - 1].names
  }

  /** `namespace_at`: the path and depth of the named namespaces around an offset. The
      ranges come out sorted (see RangesAreNested), so the source's sort changes nothing. */
  method NamespaceAt(tokens: seq<Token>, offset: nat) returns (path: seq<string>, depth: nat)
    ensures depth == |Ranges(Active(tokens), offset, |Active(tokens)|)|
    ensures path == Path(Ranges(Active(tokens), offset, |Active(tokens)|))
  {
    var toks := Active(tokens);
    var ranges, index := [], 0;
    while index < |toks|
      invariant index <= |toks|
      invariant ranges == Ranges(toks, offset, index)
    {
      if toks[index].value == "namespace" && toks[index].start < offset {
        var heading := NamespaceOpening(toks, index + 1);
        if heading.Heading? {
          HeadingShape(toks, index + 1, true, []);
          var closing := FirstRecorded(toks, heading.opening + 1, toks[heading.opening].braceDepth + 1);
          if closing != -1 && toks[heading.opening].end <= offset < toks[closing].start {
            ranges := ranges + [Range(heading.opening, closing, heading.names)];
          }
        }
      }
      index := index + 1;
    }
    path, depth := Path(ranges), |ranges|;
  }

  // ------------------------------------------------------------ headings own their brace

  /** Between a heading's first token and its brace, identifiers and `::` alternate. */
  lemma {:induction false} HeadingShape(toks: seq<Token>, cursor: nat, expectName: bool, names: seq<string>)
    requires Opening(toks, cursor, expectName, names).Heading?
    ensures var o := Opening(toks, cursor, expectName, names).opening;
      && cursor <= o < |toks| && toks[o].value == "{"
      && (expectName ==> cursor < o)
      && (forall k :: cursor <= k < o ==> toks[k].value != "{")
      && (forall k :: cursor <= k < o ==>
            if (k - cursor) % 2 == (if expectName then 0 else 1) then toks[k].kind.Identifier?
            else toks[k].value == "::")
      && (o - cursor) % 2 == (if expectName then 1 else 0)
    decreases |toks| - cursor
  {
    if toks[cursor].value != "{" {
      if expectName {
        HeadingShape(toks, cursor + 1, false, names + [toks[cursor].value]);
      } else {
        HeadingShape(toks, cursor + 1, true, names);
      }
    }
  }

  /** The word `namespace` among a heading's own names heads nothing itself. */
  lemma NamesHeadNothing(toks: seq<Token>, i: nat, k: nat)
    requires WordKinds(toks) && i < k < |toks| && toks[k].value == "namespace"
    requires HeadingAt(toks, i).Heading? && k < HeadingAt(toks, i).opening
    ensures HeadingAt(toks, k).NoHeading?
  {
    HeadingShape(toks, i + 1, true, []);
    assert (k - (i + 1)) % 2 == 0;
    assert toks[k + 1].value == "{" || toks[k + 1].value == "::";
    assert toks[k + 1] in toks;
  }

  /** No heading starts inside another, so each `{` is claimed by at most one of them. */
  lemma HeadingsAreDisjoint(toks: seq<Token>, i: nat, k: nat)
    requires WordKinds(toks) && i < k < |toks|
    requires HeadingAt(toks, i).Heading? && HeadingAt(toks, k).Heading?
    ensures HeadingAt(toks, i).opening < k < HeadingAt(toks, k).opening
  {
    HeadingShape(toks, i + 1, true, []);
    HeadingShape(toks, k + 1, true, []);
    if k < HeadingAt(toks, i).opening {
      NamesHeadNothing(toks, i, k);
    }
  }

  // ----------------------------------------------------------------- scope of an offset

  /** An opening brace that a named namespace claims and that is closed. */
  ghost predicate NamedScope(toks: seq<Token>, o: nat)
    requires o < |toks|
  {
    && Match(toks, o) != -1
    && (exists i: nat {:trigger HeadingAt(toks, i)} ::
          i < |toks| && HeadingAt(toks, i).Heading? && HeadingAt(toks, i).opening == o)
  }

  /** The offset cuts the tokens, and what starts exactly there is no closing brace. */
  ghost predicate Splits(toks: seq<Token>, cut: nat, offset: nat) {
    CutsAt(toks, cut, offset) && (cut < |toks| && toks[cut].start == offset ==> toks[cut].value != "}")
  }

  /** r comes from a named namespace that is open at the cut. */
  ghost predicate OpenRange(toks: seq<Token>, cut: nat, r: Range)
    requires cut <= |toks|
  {
    StillOpen(toks, r.opening, cut) && NamedScope(toks, r.opening) && r.closing == Match(toks, r.opening)
  }

  /** r opens before anything headed from n on. */
  ghost predicate OpensBefore(toks: seq<Token>, n: nat, r: Range) {
    forall i {:trigger HeadingAt(toks, i)} :: n <= i < |toks| && HeadingAt(toks, i).Heading? ==>
      r.opening < HeadingAt(toks, i).opening
  }

  lemma {:induction false} RangesAreOpen(toks: seq<Token>, offset: nat, n: nat, cut: nat)
    requires InOrder(toks) && Splits(toks, cut, offset) && n <= |toks|
    ensures forall r :: r in Ranges(toks, offset, n) ==> OpenRange(toks, cut, r)
    decreases n
  {
    if n > 0 {
      RangesAreOpen(toks, offset, n - 1, cut);
      if Contains(toks, n - 1, offset) {
        HeadingShape(toks, n, true, []);
      }
    }
  }

  lemma {:induction false} RangesAreSorted(toks: seq<Token>, offset: nat, n: nat)
    requires WordKinds(toks) && n <= |toks|
    ensures forall p, q :: 0 <= p < q < |Ranges(toks, offset, n)| ==>
      Ranges(toks, offset, n)[p].opening < Ranges(toks, offset, n)[q].opening
    ensures forall r :: r in Ranges(toks, offset, n) ==> OpensBefore(toks, n, r)
    decreases n
  {
    if n > 0 {
      RangesAreSorted(toks, offset, n - 1);
      if Contains(toks, n - 1, offset) {
        forall i | n <= i < |toks| && HeadingAt(toks, i).Heading?
          ensures HeadingAt(toks, n - 1).opening < HeadingAt(toks, i).opening
        {
          HeadingsAreDisjoint(toks, n - 1, i);
        }
        var before := Ranges(toks, offset, n - 1);
        forall p | 0 <= p < |before|
          ensures before[p].opening < HeadingAt(toks, n - 1).opening
        {
          assert OpensBefore(toks, n - 1, before[p]);
        }
      }
    }
  }

  lemma OpenHeadingsAreContained(toks: seq<Token>, offset: nat, cut: nat, i: nat)
    requires InOrder(toks) && Splits(toks, cut, offset) && i < |toks| && HeadingAt(toks, i).Heading?
    requires var o := HeadingAt(toks, i).opening; o < |toks| && StillOpen(toks, o, cut) && Match(toks, o) != -1
    ensures Contains(toks, i, offset)
  {
    HeadingShape(toks, i + 1, true, []);
    var o := HeadingAt(toks, i).opening;
    assert toks[i].end <= toks[o].start;
    assert offset < toks[Match(toks, o)].start;
  }

  lemma {:induction false} ContainedHaveRanges(toks: seq<Token>, offset: nat, n: nat, i: nat)
    requires i < n <= |toks| && Contains(toks, i, offset)
    ensures exists q ::
      0 <= q < |Ranges(toks, offset, n)| && Ranges(toks, offset, n)[q].opening == HeadingAt(toks, i).opening
    decreases n
  {
    if i == n - 1 {
      assert Ranges(toks, offset, n)[|Ranges(toks, offset, n - 1)|].opening == HeadingAt(toks, i).opening;
    } else {
      ContainedHaveRanges(toks, offset, n - 1, i);
      var q :| 0 <= q < |Ranges(toks, offset, n - 1)|
          && Ranges(toks, offset, n - 1)[q].opening == HeadingAt(toks, i).opening;
      assert Ranges(toks, offset, n)[q] == Ranges(toks, offset, n - 1)[q];
    }
  }

  function Elements(s: seq<nat>): set<nat> {
    set x | x in s
  }

  lemma {:induction false} DistinctCount(s: seq<nat>)
    requires forall i, j :: 0 <= i < j < |s| ==> s[i] != s[j]
    ensures |Elements(s)| == |s|
  {
    if s != [] {
      DistinctCount(s[1..]);
      assert Elements(s) == {s[0]} + Elements(s[1..]);
    }
  }

  function Openings(ranges: seq<Range>): seq<nat> {
    seq(|ranges|, q requires 0 <= q < |ranges| => ranges[q].opening)
  }

  lemma NamedOpenings(toks: seq<Token>, offset: nat, cut: nat)
    requires WholeFile(toks) && InOrder(toks) && Splits(toks, cut, offset)
    ensures var named := Elements(Openings(Ranges(toks, offset, |toks|)));
      forall o: nat {:trigger o in named} {:trigger StillOpen(toks, o, cut)} ::
        o in named <==> StillOpen(toks, o, cut) && NamedScope(toks, o)
  {
    var ranges := Ranges(toks, offset, |toks|);
    RangesAreOpen(toks, offset, |toks|, cut);
    forall o: nat | o in Elements(Openings(ranges))
      ensures StillOpen(toks, o, cut) && NamedScope(toks, o)
    {
      var q :| 0 <= q < |ranges| && Openings(ranges)[q] == o;
      assert OpenRange(toks, cut, ranges[q]);
    }
    forall o: nat | StillOpen(toks, o, cut) && NamedScope(toks, o)
      ensures o in Elements(Openings(ranges))
    {
      var i: nat :| i < |toks| && HeadingAt(toks, i).Heading? && HeadingAt(toks, i).opening == o;
      OpenHeadingsAreContained(toks, offset, cut, i);
      ContainedHaveRanges(toks, offset, |toks|, i);
      var q :| 0 <= q < |ranges| && ranges[q].opening == o;
      assert Openings(ranges)[q] == o;
    }
  }

  lemma OpenElements(toks: seq<Token>, cut: nat)
    requires WholeFile(toks) && cut <= |toks|
    ensures |Elements(OpenBraces(toks, cut))| == DepthAt(toks, cut)
    ensures forall o: nat {:trigger o in Elements(OpenBraces(toks, cut))} {:trigger StillOpen(toks, o, cut)} ::
      o in Elements(OpenBraces(toks, cut)) <==> StillOpen(toks, o, cut)
  {
    var stack := OpenBraces(toks, cut);
    OpenBracesAreTheStack(toks, cut);
    DistinctCount(stack);
  }

  /** Scope is decided correctly: the number of namespace ranges never exceeds the recorded
      depth, and equals it exactly when every brace open at the offset belongs to a named
      namespace that is closed later. */
  lemma NamespaceScopeIsExact(toks: seq<Token>, offset: nat, cut: nat)
    requires WholeFile(toks) && WordKinds(toks) && InOrder(toks) && Splits(toks, cut, offset)
    ensures |Ranges(toks, offset, |toks|)| <= DepthAt(toks, cut)
    ensures |Ranges(toks, offset, |toks|)| == DepthAt(toks, cut)
      <==> forall o: nat :: StillOpen(toks, o, cut) ==> NamedScope(toks, o)
  {
    var ranges := Ranges(toks, offset, |toks|);
    var named, open := Elements(Openings(ranges)), Elements(OpenBraces(toks, cut));
    RangesAreSorted(toks, offset, |toks|);
    DistinctCount(Openings(ranges));
    OpenElements(toks, cut);
    NamedOpenings(toks, offset, cut);
    SubsetsBySize(named, open);
  }

  lemma SubsetsBySize(a: set<nat>, b: set<nat>)
    requires a <= b
    ensures |a| <= |b| && (|a| == |b| <==> a == b)
  {
    assert b == a + (b - a);
  }

  /** The ranges around an offset are nested, outermost first. */
  lemma RangesAreNested(toks: seq<Token>, offset: nat, cut: nat, p: nat, q: nat)
    requires WholeFile(toks) && WordKinds(toks) && InOrder(toks) && Splits(toks, cut, offset)
    requires p < q < |Ranges(toks, offset, |toks|)|
    ensures var ranges := Ranges(toks, offset, |toks|);
      ranges[p].opening < ranges[q].opening < ranges[q].closing < ranges[p].closing
  {
    var ranges := Ranges(toks, offset, |toks|);
    RangesAreSorted(toks, offset, |toks|);
    RangesAreOpen(toks, offset, |toks|, cut);
    assert OpenRange(toks, cut, ranges[p]) && OpenRange(toks, cut, ranges[q]);
    InnerClosesFirst(toks, ranges[p].opening, ranges[q].opening, cut);
  }

  lemma InnerClosesFirst(toks: seq<Token>, outer: nat, inner: nat, cut: nat)
    requires Stepwise(toks) && cut <= |toks| && outer < inner
    requires StillOpen(toks, outer, cut) && StillOpen(toks, inner, cut)
    requires Match(toks, outer) != -1 && Match(toks, inner) != -1
    ensures inner < Match(toks, inner) < Match(toks, outer)
  {
    DeeperUntilClosed(toks, outer, inner);
    if Match(toks, outer) <= Match(toks, inner) {
      DeeperUntilClosed(toks, inner, Match(toks, outer));
    }
  }

  /** Until its match, everything after a brace is recorded deeper than the brace. */
  lemma {:induction false} DeeperUntilClosed(toks: seq<Token>, o: nat, k: nat)
    requires Stepwise(toks) && o < k < |toks| && toks[o].value == "{"
    requires Match(toks, o) == -1 || k <= Match(toks, o)
    ensures toks[k].braceDepth > toks[o].braceDepth
    decreases k
  {
    if k > o + 1 {
      DeeperUntilClosed(toks, o, k - 1);
    }
  }
}
