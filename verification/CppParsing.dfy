/** What the parser of type spellings accepts, on every spelling: scalars, templates and names,
    described without its helper functions. */
module CppParsing {
  import opened Wrappers
  import opened Semantics
  import opened CppTypes
  import opened CppRoundTrip

  // -------------------------------------------------------------------------------- scalars

  /** The names of a scalar: its printed one, and the fixed-width integers also without `std::`. */
  predicate ScalarName(k: ScalarKind, s: string) {
    s == ScalarSpelling(k) || ((k.Int32Kind? || k.Int64Kind?) && s == ScalarSpelling(k)[5..])
  }

  lemma FixedWidths()
    ensures ScalarSpelling(Int32Kind)[5..] == "int32_t" && ScalarSpelling(Int64Kind)[5..] == "int64_t"
    ensures ScalarSpelling(Int32Kind)[..5] == "std::" && ScalarSpelling(Int64Kind)[..5] == "std::"
  {
  }

  lemma NamedScalarHasName(s: string)
    requires ScalarNamed(s).Some?
    ensures ScalarName(ScalarNamed(s).value, s)
  {
    FixedWidths();
  }

  lemma NameIsNamed(s: string, k: ScalarKind)
    requires ScalarName(k, s)
    ensures ScalarNamed(s) == Some(k) && s != "void"
  {
    FixedWidths();
    assert "void"[0] == 'v' && "int32_t"[0] == 'i' && "int64_t"[0] == 'i';
    assert "int32_t"[3] == '3' && "int64_t"[3] == '6' && "std::int32_t"[8] == '3' && "std::int64_t"[8] == '6';
    ScalarIsRead(k);
  }

  /** A text names the scalar if and only if it is one of its names. */
  lemma ScalarNamesAre(s: string, k: ScalarKind)
    ensures ScalarNamed(s) == Some(k) <==> ScalarName(k, s)
  {
    if ScalarNamed(s).Some? {
      NamedScalarHasName(s);
    }
    if ScalarName(k, s) {
      NameIsNamed(s, k);
    }
  }

  lemma NamedIsNoScalar(shape: Shape, result: bool, position: Position, r: Registry, namespaces: seq<string>,
                        feature: string)
    ensures var t := NamedType(shape, result, position, r, namespaces, feature);
      t.Some? ==> t.value.ObjectRef? || t.value.ValueRef? || t.value.EnumRef?
  {
  }

  lemma OthersAreNoScalar(s: string, result: bool, position: Position, r: Registry, namespaces: seq<string>,
                          feature: string)
    requires Normalized(s) != "void" && ScalarNamed(Normalized(s)).None?
    ensures var t := Parse(s, result, position, r, namespaces, feature); t.Some? ==> !t.value.ScalarType?
  {
    var c := Normalized(s);
    if Inner(c, "std::vector").None? && Inner(c, "std::optional").None? {
      NamedIsNoScalar(ShapeOf(c), result, position, r, namespaces, feature);
    }
  }

  /** A spelling is read as a scalar exactly when its normal form is one of the names. */
  lemma ScalarsAreRead(s: string, k: ScalarKind, result: bool, position: Position, r: Registry,
                       namespaces: seq<string>, feature: string)
    ensures Parse(s, result, position, r, namespaces, feature) == Some(ScalarType(k))
      <==> ScalarName(k, Normalized(s))
  {
    ScalarNamesAre(Normalized(s), k);
    if ScalarName(k, Normalized(s)) {
      NameIsNamed(Normalized(s), k);
    } else if Normalized(s) != "void" && ScalarNamed(Normalized(s)).None? {
      OthersAreNoScalar(s, result, position, r, namespaces, feature);
    }
  }

  // ------------------------------------------------------------------------------ templates

  function Count(s: string, c: char): nat {
    if s == "" then 0 else Count(s[..|s| - 1], c) + (if s[|s| - 1] == c then 1 else 0)
  }

  /** Opening less closing brackets. */
  function Depth(s: string): int {
    Count(s, '<') - Count(s, '>')
  }

  /** A comma outside every bracket. */
  ghost predicate HasOuterComma(s: string, depth: int) {
    exists i :: 0 <= i < |s| && s[i] == ',' && depth + Depth(s[..i]) == 0
  }

  lemma {:induction false} DepthOfFront(c: char, s: string)
    ensures Depth([c] + s) == Depth(s) + (if c == '<' then 1 else if c == '>' then -1 else 0)
    decreases |s|
  {
    if s == "" {
      assert [c] + s == [c] && [c][..0] == "";
    } else {
      var front := s[..|s| - 1];
      assert ([c] + s)[..|s|] == [c] + front;
      DepthOfFront(c, front);
    }
  }

  lemma OuterCommaAhead(s: string, depth: int, next: int)
    requires s != "" && !(s[0] == ',' && depth == 0)
    requires next == depth + (if s[0] == '<' then 1 else if s[0] == '>' then -1 else 0)
    ensures HasOuterComma(s, depth) <==> HasOuterComma(s[1..], next)
  {
    forall i | 0 < i < |s|
      ensures depth + Depth(s[..i]) == next + Depth(s[1..][..i - 1])
    {
      assert s[..i] == [s[0]] + s[1..][..i - 1];
      DepthOfFront(s[0], s[1..][..i - 1]);
    }
    if i :| 0 <= i < |s| && s[i] == ',' && depth + Depth(s[..i]) == 0 {
      assert s[..0] == "";
      assert s[1..][i - 1] == ',';
    }
    if j :| 0 <= j < |s[1..]| && s[1..][j] == ',' && next + Depth(s[1..][..j]) == 0 {
      assert s[j + 1] == ',' && s[1..][..j + 1 - 1] == s[1..][..j];
    }
  }

  /** The depth a text ends at is the difference of its brackets, unless a comma stands outside them. */
  lemma {:induction false} ClosingDepthIs(s: string, depth: int)
    ensures ClosingDepth(s, depth) == if HasOuterComma(s, depth) then None else Some(depth + Depth(s))
    decreases |s|
  {
    if s != "" {
      var next := depth + (if s[0] == '<' then 1 else if s[0] == '>' then -1 else 0);
      assert s == [s[0]] + s[1..];
      DepthOfFront(s[0], s[1..]);
      if s[0] == ',' && depth == 0 {
        assert s[..0] == "";
      } else {
        OuterCommaAhead(s, depth, next);
        ClosingDepthIs(s[1..], next);
      }
    }
  }

  /** A template argument is what stands between the brackets: not empty, balanced, and without a comma
      of its own. */
  lemma InnerIff(value: string, template: string, inner: string)
    ensures Inner(value, template) == Some(inner) <==>
      value == Wrapped(template, inner) && inner != "" && Depth(inner) == 0 && !HasOuterComma(inner, 0)
  {
    ClosingDepthIs(inner, 0);
    if value == Wrapped(template, inner) {
      var prefix := template + "<";
      assert value == prefix + inner + ">" && value[|prefix|..|value| - 1] == inner;
    }
  }

  /** An array spelling is read through its element, an optional one too, unless it is optional itself. */
  lemma ContainersAreRead(s: string, inner: string, result: bool, position: Position, r: Registry,
                          namespaces: seq<string>, feature: string)
    requires inner != "" && Depth(inner) == 0 && !HasOuterComma(inner, 0)
    ensures var e := Parse(inner, false, Contained, r, namespaces, feature);
      && (Normalized(s) == Wrapped("std::vector", inner) && inner != "std::byte" ==>
            Parse(s, result, position, r, namespaces, feature)
              == if e.Some? then Some(ArrayOf(e.value)) else None)
      && (Normalized(s) == Wrapped("std::optional", inner) ==>
            Parse(s, result, position, r, namespaces, feature)
              == if e.Some? && !e.value.NullableOf? then Some(NullableOf(e.value)) else None)
  {
    InnerIff(Wrapped("std::vector", inner), "std::vector", inner);
    InnerIff(Wrapped("std::optional", inner), "std::optional", inner);
    VectorIsScalarOnlyForBytes(inner);
    OtherTemplate(inner);
  }

  // ---------------------------------------------------------------------------------- names

  /** A joined name is its namespaces, each before `::`, and the name. */
  lemma {:induction false} JoinedInOrder(namespaces: seq<string>, last: string, name: string)
    ensures Join([], name) == name
    ensures Join(namespaces + [last], name) == Join(namespaces, last + "::" + name)
  {
    if namespaces == [] {
      assert [] + [last] == [last] && [last][1..] == [];
      assert last + "::" + name == last + "::" + Join([], name);
    } else {
      assert (namespaces + [last])[1..] == namespaces[1..] + [last];
      JoinedInOrder(namespaces[1..], last, name);
    }
  }

  /** The name as the k outermost namespaces would declare it. */
  function Declared(namespaces: seq<string>, k: nat, name: string): string
    requires k <= |namespaces|
  {
    Join(namespaces[..k], name)
  }

  /** The lookup takes the innermost enclosing namespace that declares the name. */
  lemma {:induction false} InnermostIsTaken(r: Registry, namespaces: seq<string>, count: nat, name: string, k: nat)
    requires k <= count <= |namespaces| && Declared(namespaces, k, name) in r
    requires forall j :: k < j <= count ==> Declared(namespaces, j, name) !in r
    ensures Enclosing(r, namespaces, count, name) == Some(Declared(namespaces, k, name))
    decreases count
  {
    if k < count {
      assert Declared(namespaces, count, name) !in r;
      InnermostIsTaken(r, namespaces, count - 1, name, k);
    }
  }

  /** A scoped name is looked up as it stands. */
  lemma ScopedNamesAreExact(r: Registry, name: string, namespaces: seq<string>)
    requires HasScope(name) && !("::" <= name)
    ensures Resolve(r, name, namespaces) == if name in r then Resolved(name) else Unknown
    ensures Resolve(r, "::" + name, namespaces) == Resolve(r, name, namespaces)
  {
    assert ("::" + name)[2..] == name;
  }

  lemma NotRooted(name: string)
    requires !HasScope(name)
    ensures WithoutRoot(name) == name && WithoutRoot("::" + name) == name
  {
    assert !(|name| >= 2 && name[0] == ':' && name[1] == ':');
    assert ("::" + name)[2..] == name;
  }

  /** An unscoped one is the innermost enclosing declaration ... */
  lemma InnermostIsResolved(r: Registry, name: string, namespaces: seq<string>, k: nat)
    requires !HasScope(name) && k <= |namespaces| && Declared(namespaces, k, name) in r
    requires forall j :: k < j <= |namespaces| ==> Declared(namespaces, j, name) !in r
    ensures Resolve(r, name, namespaces) == Resolved(Declared(namespaces, k, name))
    ensures Resolve(r, "::" + name, namespaces) == Resolve(r, name, namespaces)
  {
    InnermostIsTaken(r, namespaces, |namespaces|, name, k);
    NotRooted(name);
  }

  /** ... and else the only type of that public name, ambiguous when there are several. */
  lemma OthersAreResolvedByName(r: Registry, name: string, namespaces: seq<string>)
    requires !HasScope(name) && forall k :: 0 <= k <= |namespaces| ==> Declared(namespaces, k, name) !in r
    ensures forall q :: Finals(r, name) == {q} ==> Resolve(r, name, namespaces) == Resolved(q)
    ensures Resolve(r, name, namespaces).Ambiguous? <==> |Finals(r, name)| > 1
    ensures Resolve(r, name, namespaces).Unknown? <==> Finals(r, name) == {}
    ensures Resolve(r, "::" + name, namespaces) == Resolve(r, name, namespaces)
  {
    assert Declared(namespaces, 0, name) == name;
    assert forall k :: 1 <= k <= |namespaces| ==> Join(namespaces[..k], name) == Declared(namespaces, k, name);
    EnclosingFinds(r, namespaces, |namespaces|, name);
    NotRooted(name);
  }

  /** Types of one feature with different public names have different identities. */
  lemma IdentitiesDiffer(feature: string, a: string, b: string)
    requires TypeId(feature, a) == TypeId(feature, b)
    ensures a == b
  {
    var prefix := feature + ":type:";
    assert TypeId(feature, a)[|prefix|..] == a && TypeId(feature, b)[|prefix|..] == b;
  }

  // -------------------------------------------------------------------------- normalisation

  /** The white space of the Unicode standard, and four separators of ASCII. */
  const WHITE: set<int> := {
    9, 10, 11, 12, 13, 28, 29, 30, 31, 32, 0x85, 0xa0, 0x1680, 0x2000, 0x2001, 0x2002, 0x2003, 0x2004, 0x2005,
    0x2006, 0x2007, 0x2008, 0x2009, 0x200a, 0x2028, 0x2029, 0x202f, 0x205f, 0x3000}

  predicate White(c: char) {
    c as int in WHITE
  }

  lemma SpacesAreWhite(c: char)
    ensures IsSpace(c) <==> White(c)
  {
  }

  /** The characters that are no white space, in order. */
  function Visible(s: string): string {
    if s == "" then "" else if White(s[0]) then Visible(s[1..]) else [s[0]] + Visible(s[1..])
  }

  lemma {:induction false} VisibleOfTwo(a: string, b: string)
    ensures Visible(a + b) == Visible(a) + Visible(b)
    decreases |a|
  {
    if a == "" {
      assert a + b == b;
    } else {
      assert (a + b)[0] == a[0] && (a + b)[1..] == a[1..] + b;
      VisibleOfTwo(a[1..], b);
    }
  }

  lemma {:induction false} SkippingIsInvisible(s: string)
    ensures Visible(SkipSpace(s)) == Visible(s)
  {
    if s != "" && IsSpace(s[0]) {
      SkippingIsInvisible(s[1..]);
    }
  }

  lemma {:induction false} SkippingBackIsInvisible(s: string)
    ensures Visible(SkipSpaceBack(s)) == Visible(s)
    decreases |s|
  {
    if s != "" && IsSpace(s[|s| - 1]) {
      var front, last := s[..|s| - 1], s[|s| - 1];
      SkippingBackIsInvisible(front);
      assert s == front + [last];
      VisibleOfTwo(front, [last]);
      assert Visible([last]) == "";
    }
  }

  lemma {:induction false} TighteningIsInvisible(s: string, mark: string)
    requires mark != ""
    ensures Visible(Tighten(s, mark)) == Visible(s)
    decreases |s|
  {
    if s != "" {
      var rest := SkipSpace(s);
      if mark <= rest {
        var tail := rest[|mark|..];
        assert rest == mark + tail;
        SkippingIsInvisible(s);
        SkippingIsInvisible(tail);
        TighteningIsInvisible(SkipSpace(tail), mark);
        VisibleOfTwo(mark, tail);
        VisibleOfTwo(mark, Tighten(SkipSpace(tail), mark));
      } else {
        TighteningIsInvisible(s[1..], mark);
        VisibleOfTwo([s[0]], Tighten(s[1..], mark));
        VisibleOfTwo([s[0]], s[1..]);
        assert s == [s[0]] + s[1..];
      }
    }
  }

  lemma {:induction false} CollapsingIsInvisible(s: string)
    ensures Visible(Collapse(s)) == Visible(s)
    decreases |s|
  {
    if s != "" {
      if IsSpace(s[0]) {
        var tail := SkipSpace(s[1..]);
        SkippingIsInvisible(s[1..]);
        CollapsingIsInvisible(tail);
        assert (" " + Collapse(tail))[1..] == Collapse(tail);
      } else {
        CollapsingIsInvisible(s[1..]);
        assert ([s[0]] + Collapse(s[1..]))[1..] == Collapse(s[1..]);
      }
    }
  }

  /** Normalisation adds, drops and moves nothing but white space. */
  lemma NormalisingIsInvisible(s: string)
    ensures Visible(Normalized(s)) == Visible(s)
  {
    var a := SkipSpaceBack(SkipSpace(s));
    SkippingIsInvisible(s);
    SkippingBackIsInvisible(SkipSpace(s));
    TighteningIsInvisible(a, "::");
    TighteningIsInvisible(Tighten(a, "::"), "<");
    TighteningIsInvisible(Tighten(Tighten(a, "::"), "<"), ">");
    TighteningIsInvisible(Tighten(Tighten(Tighten(a, "::"), "<"), ">"), "&");
    CollapsingIsInvisible(Tighten(Tighten(Tighten(Tighten(a, "::"), "<"), ">"), "&"));
  }

  /** Single spaces between visible characters, and no other white space. */
  predicate SinglySpaced(s: string) {
    forall i :: 0 <= i < |s| && White(s[i]) ==>
      s[i] == ' ' && 0 < i < |s| - 1 && !White(s[i - 1]) && !White(s[i + 1])
  }

  predicate Trimmed(s: string) {
    s == "" || (!IsSpace(s[0]) && !IsSpace(s[|s| - 1]))
  }

  lemma {:induction false} SkippedBegins(s: string)
    ensures SkipSpace(s) == "" || !IsSpace(SkipSpace(s)[0])
    ensures SkipSpace(s) != "" ==> SkipSpace(s)[|SkipSpace(s)| - 1] == s[|s| - 1]
    ensures SkipSpace(s) == "" ==> s == "" || IsSpace(s[|s| - 1])
  {
    if s != "" && IsSpace(s[0]) {
      SkippedBegins(s[1..]);
    }
  }

  lemma {:induction false} SkippedBackEnds(s: string)
    ensures SkipSpaceBack(s) == "" || !IsSpace(SkipSpaceBack(s)[|SkipSpaceBack(s)| - 1])
    ensures SkipSpaceBack(s) != "" ==> SkipSpaceBack(s)[0] == s[0]
    decreases |s|
  {
    if s != "" && IsSpace(s[|s| - 1]) {
      SkippedBackEnds(s[..|s| - 1]);
    }
  }

  /** Tightening leaves the last character visible, and the first one. */
  lemma {:induction false} TightenedEnds(s: string, mark: string)
    requires mark != "" && !IsSpace(mark[|mark| - 1]) && (s == "" || !IsSpace(s[|s| - 1]))
    ensures var t := Tighten(s, mark); (t == "" <==> s == "") && (t != "" ==> !IsSpace(t[|t| - 1]))
    decreases |s|
  {
    if s != "" {
      var rest := SkipSpace(s);
      SkippedBegins(s);
      if mark <= rest {
        var tail := rest[|mark|..];
        SkippedBegins(tail);
        TightenedEnds(SkipSpace(tail), mark);
      } else {
        TightenedEnds(s[1..], mark);
      }
    }
  }

  lemma TightenedIsTrimmed(s: string, mark: string)
    requires mark != "" && !IsSpace(mark[0]) && !IsSpace(mark[|mark| - 1]) && Trimmed(s)
    ensures Trimmed(Tighten(s, mark))
  {
    TightenedEnds(s, mark);
  }

  predicate Single(t: string) {
    forall i :: 0 <= i < |t| && IsSpace(t[i]) ==> t[i] == ' ' && i < |t| - 1 && !IsSpace(t[i + 1])
  }

  lemma OneInFront(c: char, t: string)
    requires Single(t) && (IsSpace(c) ==> c == ' ' && t != "" && !IsSpace(t[0]))
    ensures Single([c] + t)
  {
    var u := [c] + t;
    forall i | 0 <= i < |u| && IsSpace(u[i])
      ensures u[i] == ' ' && i < |u| - 1 && !IsSpace(u[i + 1])
    {
      assert i > 0 ==> u[i] == t[i - 1];
    }
  }

  lemma {:induction false} CollapsedIsSingle(s: string)
    requires s == "" || !IsSpace(s[|s| - 1])
    ensures Single(Collapse(s))
    ensures s != "" && !IsSpace(s[0]) ==> Collapse(s) != "" && Collapse(s)[0] == s[0]
    decreases |s|
  {
    if s != "" {
      if IsSpace(s[0]) {
        var tail := SkipSpace(s[1..]);
        SkippedBegins(s[1..]);
        CollapsedIsSingle(tail);
        assert Collapse(s) == [' '] + Collapse(tail);
        OneInFront(' ', Collapse(tail));
      } else {
        CollapsedIsSingle(s[1..]);
        OneInFront(s[0], Collapse(s[1..]));
      }
    }
  }

  /** A normal form has single spaces, none of them at an end. */
  lemma NormalFormsAreSinglySpaced(s: string)
    ensures SinglySpaced(Normalized(s))
  {
    var a := SkipSpaceBack(SkipSpace(s));
    SkippedBegins(s);
    SkippedBackEnds(SkipSpace(s));
    TightenedIsTrimmed(a, "::");
    TightenedIsTrimmed(Tighten(a, "::"), "<");
    TightenedIsTrimmed(Tighten(Tighten(a, "::"), "<"), ">");
    TightenedIsTrimmed(Tighten(Tighten(Tighten(a, "::"), "<"), ">"), "&");
    CollapsedIsSingle(Tighten(Tighten(Tighten(Tighten(a, "::"), "<"), ">"), "&"));
    SingleIsSpaced(Normalized(s));
  }

  lemma SingleIsSpaced(t: string)
    requires t == "" || !IsSpace(t[0])
    requires Single(t)
    ensures SinglySpaced(t)
  {
    forall i | 0 <= i < |t| && White(t[i])
      ensures t[i] == ' ' && 0 < i < |t| - 1 && !White(t[i - 1]) && !White(t[i + 1])
    {
      SpacesAreWhite(t[i]);
      SpacesAreWhite(t[i - 1]);
      SpacesAreWhite(t[i + 1]);
    }
  }
}
