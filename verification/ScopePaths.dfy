/** The namespace path and the class extents the scanner reports, described without the functions that
    collect them. */
module ScopePaths {
  import opened LexModel
  import opened Braces
  import opened Namespaces
  import opened Scopes

  // ----------------------------------------------------------------------------------- headings

  /** `namespace`, n identifiers with `::` between them, and the brace at o. */
  predicate StandsAsHeading(toks: seq<Token>, i: nat, n: nat, o: nat) {
    && n >= 1 && o == i + 2 * n < |toks| && toks[i].value == "namespace" && toks[o].value == "{"
    && (forall k :: 0 <= k < n ==> toks[i + 1 + 2 * k].kind.Identifier?)
    && (forall k :: 0 <= k < n - 1 ==> toks[i + 2 + 2 * k].value == "::")
  }

  /** The names so far are the first ones after the keyword. */
  predicate NamesSoFar(toks: seq<Token>, i: nat, names: seq<string>, cursor: nat, expectName: bool) {
    && cursor <= |toks|
    && cursor == i + 1 + 2 * |names| - (if expectName || names == [] then 0 else 1)
    && (expectName <== names == [])
    && (forall k :: 0 <= k < |names| ==> toks[i + 1 + 2 * k].kind.Identifier? && names[k] == toks[i + 1 + 2 * k].value)
    && (forall k :: 0 <= k < |names| - 1 ==> toks[i + 2 + 2 * k].value == "::")
    && (expectName && names != [] ==> toks[cursor - 1].value == "::")
  }

  lemma {:induction false} OpeningIs(toks: seq<Token>, i: nat, cursor: nat, expectName: bool, names: seq<string>)
    requires NamesSoFar(toks, i, names, cursor, expectName) && i < |toks| && toks[i].value == "namespace"
    ensures var h := Opening(toks, cursor, expectName, names);
      h.Heading? ==>
        && StandsAsHeading(toks, i, |h.names|, h.opening)
        && forall k :: 0 <= k < |h.names| ==> h.names[k] == toks[i + 1 + 2 * k].value
    decreases |toks| - cursor
  {
    if cursor < |toks| && toks[cursor].value != "{" {
      if expectName && toks[cursor].kind.Identifier? {
        OpeningIs(toks, i, cursor + 1, false, names + [toks[cursor].value]);
      } else if !expectName && toks[cursor].value == "::" {
        OpeningIs(toks, i, cursor + 1, true, names);
      }
    }
  }

  lemma {:induction false} StandingIsOpened(toks: seq<Token>, i: nat, n: nat, o: nat, cursor: nat, expectName: bool,
                                            names: seq<string>)
    requires WordKinds(toks) && StandsAsHeading(toks, i, n, o)
    requires NamesSoFar(toks, i, names, cursor, expectName) && |names| <= n && (expectName ==> |names| < n)
    ensures var h := Opening(toks, cursor, expectName, names); h.Heading? && h.opening == o && |h.names| == n
    decreases o - cursor
  {
    assert toks[o] in toks;
    if expectName {
      assert toks[cursor].kind.Identifier? && toks[cursor] in toks;
      StandingIsOpened(toks, i, n, o, cursor + 1, false, names + [toks[cursor].value]);
    } else if |names| < n {
      assert toks[i + 2 + 2 * (|names| - 1)].value == "::";
      StandingIsOpened(toks, i, n, o, cursor + 1, true, names);
    }
  }

  /** A heading is found exactly where one stands, with its names in order. */
  lemma HeadingIff(toks: seq<Token>, i: nat)
    requires WordKinds(toks) && i < |toks|
    ensures HeadingAt(toks, i).Heading? <==> exists n: nat, o: nat :: StandsAsHeading(toks, i, n, o)
    ensures var h := HeadingAt(toks, i);
      h.Heading? ==>
        && StandsAsHeading(toks, i, |h.names|, h.opening)
        && forall k :: 0 <= k < |h.names| ==> h.names[k] == toks[i + 1 + 2 * k].value
  {
    if toks[i].value == "namespace" {
      OpeningIs(toks, i, i + 1, true, []);
    }
    if n: nat, o: nat :| StandsAsHeading(toks, i, n, o) {
      StandingIsOpened(toks, i, n, o, i + 1, true, []);
    }
  }

  // --------------------------------------------------------------------------------------- path

  lemma {:induction false} PathOfTwo(a: seq<Range>, b: seq<Range>)
    ensures Path(a + b) == Path(a) + Path(b)
    decreases |b|
  {
    if b == [] {
      assert a + b == a;
    } else {
      assert (a + b)[..|a + b| - 1] == a + b[..|b| - 1];
      PathOfTwo(a, b[..|b| - 1]);
      assert Path(a) + (Path(b[..|b| - 1]) + b[|b| - 1].names) == Path(a) + Path(b[..|b| - 1]) + b[|b| - 1].names;
    }
  }

  lemma PathOfOne(r: Range)
    ensures Path([r]) == r.names
  {
    assert [r][..0] == [];
  }

  lemma PathOfThree(a: seq<Range>, r: Range, b: seq<Range>)
    ensures Path(a + [r] + b) == Path(a) + r.names + Path(b)
  {
    PathOfTwo(a + [r], b);
    PathOfTwo(a, [r]);
    PathOfOne(r);
  }

  lemma AroundOne<T>(s: seq<T>, p: nat)
    requires p < |s|
    ensures s[..p] + [s[p]] + s[p + 1..] == s
  {
  }

  /** The path runs through the ranges in order, each with all its names. */
  lemma PathSplits(ranges: seq<Range>, p: nat)
    requires p < |ranges|
    ensures Path(ranges) == Path(ranges[..p]) + ranges[p].names + Path(ranges[p + 1..])
  {
    AroundOne(ranges, p);
    PathOfThree(ranges[..p], ranges[p], ranges[p + 1..]);
  }

  /** Of two namespaces around an offset the outer one's names come first. */
  lemma OuterNamesComeFirst(toks: seq<Token>, offset: nat, cut: nat, p: nat, q: nat)
    requires WholeFile(toks) && WordKinds(toks) && InOrder(toks) && Splits(toks, cut, offset)
    requires p < q < |Ranges(toks, offset, |toks|)|
    ensures var ranges := Ranges(toks, offset, |toks|);
      && ranges[p].opening < ranges[q].opening < ranges[q].closing < ranges[p].closing
      && Path(ranges) == Path(ranges[..p]) + ranges[p].names + Path(ranges[p + 1..q]) + ranges[q].names
                         + Path(ranges[q + 1..])
  {
    var ranges := Ranges(toks, offset, |toks|);
    RangesAreNested(toks, offset, cut, p, q);
    PathSplits(ranges, q);
    PathSplits(ranges[..q], p);
    assert ranges[..q][..p] == ranges[..p] && ranges[..q][p + 1..] == ranges[p + 1..q];
  }

  /** A range is reported exactly for each heading whose braces contain the offset, with its names. */
  lemma {:induction false} RangesAre(toks: seq<Token>, offset: nat, n: nat)
    requires n <= |toks|
    ensures forall r :: r in Ranges(toks, offset, n) <==>
      exists i :: 0 <= i < n && Contains(toks, i, offset) && HeadingAt(toks, i) == Heading(r.names, r.opening)
                  && r.closing == Match(toks, r.opening)
    decreases n
  {
    if n > 0 {
      RangesAre(toks, offset, n - 1);
    }
  }

  // ------------------------------------------------------------------------------------ extents

  lemma {:induction false} BodyIsFirst(toks: seq<Token>, i: nat)
    requires i <= |toks|
    ensures forall k :: i <= k < BodyOrEnd(toks, i) ==> toks[k].value != "{" && toks[k].value != ";"
    decreases |toks| - i
  {
    if i < |toks| && toks[i].value != "{" && toks[i].value != ";" {
      BodyIsFirst(toks, i + 1);
    }
  }

  /** A class definition: the keyword, not of an enum, in named namespaces only, whose first brace comes
      before any semicolon and is closed. */
  ghost predicate Defines(toks: seq<Token>, i: nat, o: nat, c: nat) {
    && i < o < c < |toks|
    && (toks[i].value == "class" || toks[i].value == "struct") && (i > 0 ==> toks[i - 1].value != "enum")
    && (forall b: nat :: StillOpen(toks, b, i) ==> NamedScope(toks, b))
    && toks[o].value == "{" && (forall k :: i < k < o ==> toks[k].value != "{" && toks[k].value != ";")
    && CountClose(toks, o + 1, 1) == c
  }

  lemma OneBody(toks: seq<Token>, i: nat, o: nat)
    requires i <= o < |toks| && toks[o].value == "{"
    requires forall k :: i <= k < o ==> toks[k].value != "{" && toks[k].value != ";"
    ensures BodyOrEnd(toks, i) == o
  {
    BodyIsFirst(toks, i);
  }

  /** Every extent is a class definition ... */
  lemma ExtentDefines(toks: seq<Token>, i: nat)
    requires WholeFile(toks) && WordKinds(toks) && InOrder(toks) && i < |toks| && IsExtent(toks, i)
    ensures var o := BodyOrEnd(toks, i + 1); Match(toks, o) > o && Defines(toks, i, o, Match(toks, o))
  {
    BodyIsFirst(toks, i + 1);
    ExtentsAreSound(toks, i);
  }

  /** ... and every class definition an extent. */
  lemma DefinitionIsExtent(toks: seq<Token>, i: nat, o: nat, c: nat)
    requires WholeFile(toks) && WordKinds(toks) && InOrder(toks) && Defines(toks, i, o, c)
    ensures IsExtent(toks, i) && BodyOrEnd(toks, i + 1) == o && Match(toks, o) == c
  {
    OneBody(toks, i + 1, o);
    MatchIsCounting(toks, o);
    ScopeOfToken(toks, i);
  }

  lemma {:induction false} ExtentsComeFrom(toks: seq<Token>, n: nat)
    requires n <= |toks|
    ensures forall e :: e in Extents(toks, n) <==>
      exists i :: 0 <= i < n && IsExtent(toks, i) && e == ExtentAt(toks, i)
    decreases n
  {
    if n > 0 {
      ExtentsComeFrom(toks, n - 1);
    }
  }

  function ExtentAt(toks: seq<Token>, i: nat): Extent
    requires i < |toks| && IsExtent(toks, i)
  {
    var o := BodyOrEnd(toks, i + 1);
    Extent(toks[i], toks[o], toks[Match(toks, o)])
  }

  ghost predicate IsDefinition(toks: seq<Token>, e: Extent) {
    exists i: nat, o: nat, c: nat :: Defines(toks, i, o, c) && e == Extent(toks[i], toks[o], toks[c])
  }

  lemma ReportedIsDefined(toks: seq<Token>, e: Extent)
    requires WholeFile(toks) && WordKinds(toks) && InOrder(toks) && e in Extents(toks, |toks|)
    ensures IsDefinition(toks, e)
  {
    ExtentsComeFrom(toks, |toks|);
    var i :| 0 <= i < |toks| && IsExtent(toks, i) && e == ExtentAt(toks, i);
    ExtentDefines(toks, i);
  }

  lemma DefinedIsReported(toks: seq<Token>, i: nat, o: nat, c: nat)
    requires WholeFile(toks) && WordKinds(toks) && InOrder(toks) && Defines(toks, i, o, c)
    ensures Extent(toks[i], toks[o], toks[c]) in Extents(toks, |toks|)
  {
    DefinitionIsExtent(toks, i, o, c);
    ExtentsComeFrom(toks, |toks|);
    assert ExtentAt(toks, i) == Extent(toks[i], toks[o], toks[c]);
  }

  /** Exactly the class definitions are reported, each with its own braces ... */
  lemma ExtentsAreTheDefinitions(toks: seq<Token>, e: Extent)
    requires WholeFile(toks) && WordKinds(toks) && InOrder(toks)
    ensures e in Extents(toks, |toks|) <==> IsDefinition(toks, e)
  {
    if e in Extents(toks, |toks|) {
      ReportedIsDefined(toks, e);
    } else if IsDefinition(toks, e) {
      var i: nat, o: nat, c: nat :| Defines(toks, i, o, c) && e == Extent(toks[i], toks[o], toks[c]);
      DefinedIsReported(toks, i, o, c);
    }
  }

  /** ... once, and in the order of the file. */
  lemma {:induction false} ExtentsAreInOrder(toks: seq<Token>, n: nat)
    requires InOrder(toks) && n <= |toks|
    ensures forall p, q :: 0 <= p < q < |Extents(toks, n)| ==>
      Extents(toks, n)[p].class_.start < Extents(toks, n)[q].class_.start
    ensures forall p, k :: 0 <= p < |Extents(toks, n)| && n <= k < |toks| ==>
      Extents(toks, n)[p].class_.start < toks[k].start
    decreases n
  {
    if n > 0 {
      ExtentsAreInOrder(toks, n - 1);
    }
  }
}
