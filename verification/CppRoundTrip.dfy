/** Printing a semantic type as C++ and parsing it back. */
module CppRoundTrip {
  import opened Wrappers
  import opened Semantics
  import opened CppTypes

  // --------------------------------------------------------------------- registered names

  /** The last component of a qualified name. */
  predicate Ends(qualified: string, final: string) {
    || qualified == final
    || (|final| + 2 <= |qualified| && qualified[|qualified| - |final| - 2..] == "::" + final)
  }

  predicate NameCharacter(c: char) {
    !IsSpace(c) && c !in "<>&,"
  }

  /** What the scanner guarantees of a registered name: identifiers joined by `::`. */
  ghost predicate QualifiedName(q: string, final: string) {
    && (forall i :: 0 <= i < |q| ==> NameCharacter(q[i]))
    && q != "" && q[0] != ':' && final != "" && ':' !in final && Ends(q, final)
  }

  ghost predicate ValidRegistry(r: Registry) {
    forall q :: q in r ==> QualifiedName(q, r[q].publicName)
  }

  ghost predicate UniqueFinals(r: Registry) {
    forall p, q :: p in r && q in r && r[p].publicName == r[q].publicName ==> p == q
  }

  /** No namespace between the reader's scope and the root declares the same name. */
  ghost predicate Unhidden(r: Registry, q: string, namespaces: seq<string>) {
    HasScope(q) || forall count :: 1 <= count <= |namespaces| ==> Join(namespaces[..count], q) !in r
  }

  lemma {:induction false} JoinEnds(namespaces: seq<string>, name: string)
    ensures namespaces != [] ==> |name| + 2 <= |Join(namespaces, name)|
    ensures Ends(Join(namespaces, name), name)
  {
    if namespaces != [] {
      JoinEnds(namespaces[1..], name);
      var inner := Join(namespaces[1..], name);
      var whole := namespaces[0] + "::" + inner;
      assert whole[|namespaces[0]|..] == "::" + inner;
      assert whole[|whole| - |inner|..] == inner;
      if inner == name {
        assert whole[|whole| - |name| - 2..] == "::" + name;
      } else {
        assert whole[|whole| - |name| - 2..] == inner[|inner| - |name| - 2..];
      }
    }
  }

  lemma LongerEndHasColon(q: string, a: string, b: string)
    requires Ends(q, a) && Ends(q, b) && |a| < |b|
    ensures ':' in b
  {
    assert q[|q| - |a| - 2..][1] == ':';
    assert q[|q| - |b|..] == b;
    assert b[|b| - |a| - 1] == q[|q| - |a| - 1];
  }

  /** The last component of a name is determined by the name. */
  lemma OneFinal(q: string, a: string, b: string)
    requires Ends(q, a) && Ends(q, b) && ':' !in a && ':' !in b
    ensures a == b
  {
    if |a| < |b| {
      LongerEndHasColon(q, a, b);
    } else if |b| < |a| {
      LongerEndHasColon(q, b, a);
    } else {
      assert q[|q| - |a|..] == a && q[|q| - |b|..] == b;
    }
  }

  lemma Unscoped(q: string, final: string)
    requires Ends(q, final) && ':' !in final
    ensures !HasScope(q) <==> q == final
  {
    if q != final {
      assert q[|q| - |final| - 2..][0] == ':' && q[|q| - |final| - 2..][1] == ':';
      assert q[|q| - |final| - 2] == ':' && q[|q| - |final| - 1] == ':';
    }
  }

  /** The lookup finds something exactly when some scope declares the name, and finds the name
      itself exactly when the root does and no scope inside it. */
  lemma {:induction false} EnclosingFinds(r: Registry, namespaces: seq<string>, count: nat, name: string)
    requires count <= |namespaces|
    ensures Enclosing(r, namespaces, count, name).None? <==>
      name !in r && forall k :: 1 <= k <= count ==> Join(namespaces[..k], name) !in r
    ensures Enclosing(r, namespaces, count, name) == Some(name) <==>
      name in r && forall k :: 1 <= k <= count ==> Join(namespaces[..k], name) !in r
  {
    assert Join(namespaces[..0], name) == name;
    if count > 0 {
      JoinEnds(namespaces[..count], name);
      if Join(namespaces[..count], name) !in r {
        EnclosingFinds(r, namespaces, count - 1, name);
      }
    }
  }

  /** A printed name is read back as the type it was printed from exactly when nothing between
      the reader's namespace and the root hides it; the leading `::` does not help. */
  lemma PrintedNamesResolve(r: Registry, q: string, namespaces: seq<string>)
    requires ValidRegistry(r) && q in r
    ensures Resolve(r, "::" + q, namespaces) == Resolved(q) <==> Unhidden(r, q, namespaces)
    ensures Resolve(r, q, namespaces) == Resolved(q) <==> Unhidden(r, q, namespaces)
  {
    assert ("::" + q)[2..] == q;
    assert !("::" <= q);
    if !HasScope(q) {
      EnclosingFinds(r, namespaces, |namespaces|, q);
    }
  }

  lemma UniqueNamesAreUnhidden(r: Registry, q: string, namespaces: seq<string>)
    requires ValidRegistry(r) && UniqueFinals(r) && q in r
    ensures Unhidden(r, q, namespaces)
  {
    Unscoped(q, r[q].publicName);
    if !HasScope(q) {
      forall count | 1 <= count <= |namespaces|
        ensures Join(namespaces[..count], q) !in r
      {
        var other := Join(namespaces[..count], q);
        JoinEnds(namespaces[..count], q);
        if other in r {
          OneFinal(other, q, r[other].publicName);
        }
      }
    }
  }

  /** Which unscoped names `::x` are read as C++ reads them, as `x` of the root namespace or as
      nothing at all: no namespace around the reader declares the name, and when the root does
      not declare it either, no other namespace alone does. */
  lemma RootedNamesStayPut(r: Registry, x: string, namespaces: seq<string>)
    requires !HasScope(x)
    ensures (Resolve(r, "::" + x, namespaces).Resolved? ==> Resolve(r, "::" + x, namespaces).name == x) <==>
      (forall k :: 1 <= k <= |namespaces| ==> Join(namespaces[..k], x) !in r) && (x in r || |Finals(r, x)| != 1)
  {
    assert ("::" + x)[2..] == x;
    EnclosingFinds(r, namespaces, |namespaces|, x);
  }

  /** A registry with one marked type, in a namespace. */
  const ONLY_SCOPED: Registry := map["a::T" := Named(EnumKind, "T")]

  lemma OnlyScopedIsValid()
    ensures ValidRegistry(ONLY_SCOPED) && UniqueFinals(ONLY_SCOPED) && QualifiedName("T", "T")
  {
    assert "a::T"[1..] == "::" + "T";
  }

  lemma OnlyScopedResolves(namespaces: seq<string>)
    requires namespaces == [] || namespaces == ["a"]
    ensures Resolve(ONLY_SCOPED, "::T", namespaces) == Resolved("a::T")
  {
    assert "::T"[2..] == "T";
    if namespaces == [] {
      EnclosingFinds(ONLY_SCOPED, [], 0, "T");
      assert Finals(ONLY_SCOPED, "T") == {"a::T"};
    } else {
      assert Join(["a"][..1], "T") == "a::T";
      assert Enclosing(ONLY_SCOPED, ["a"], 1, "T") == Some("a::T");
    }
  }

  // ------------------------------------------------------------------------ normalisation

  predicate Spaceless(s: string) {
    forall i :: 0 <= i < |s| ==> !IsSpace(s[i])
  }

  lemma {:induction false} TightIsKept(s: string, mark: string)
    requires Spaceless(s) && mark != ""
    ensures Tighten(s, mark) == s
    decreases |s|
  {
    if s != "" {
      if mark <= s {
        assert s == mark + s[|mark|..];
        TightIsKept(s[|mark|..], mark);
      } else {
        assert s == [s[0]] + s[1..];
        TightIsKept(s[1..], mark);
      }
    }
  }

  lemma {:induction false} CollapsedIsKept(s: string)
    requires Spaceless(s)
    ensures Collapse(s) == s
  {
    if s != "" {
      CollapsedIsKept(s[1..]);
    }
  }

  lemma SpacelessIsNormal(s: string)
    requires Spaceless(s)
    ensures Normalized(s) == s
  {
    TightIsKept(s, "::");
    TightIsKept(s, "<");
    TightIsKept(s, ">");
    TightIsKept(s, "&");
    CollapsedIsKept(s);
  }

  // ------------------------------------------------------------------------------ brackets

  lemma {:induction false} DepthOfTwo(a: string, b: string, depth: int)
    requires ClosingDepth(a, depth).Some?
    ensures ClosingDepth(a + b, depth) == ClosingDepth(b, ClosingDepth(a, depth).value)
  {
    if a == "" {
      assert a + b == b;
    } else {
      assert (a + b)[0] == a[0] && (a + b)[1..] == a[1..] + b;
      var next := if a[0] == '<' then depth + 1 else if a[0] == '>' then depth - 1 else depth;
      DepthOfTwo(a[1..], b, next);
    }
  }

  lemma {:induction false} FlatDepth(s: string, depth: int)
    requires forall i :: 0 <= i < |s| ==> s[i] !in "<>,"
    ensures ClosingDepth(s, depth) == Some(depth)
  {
    if s != "" {
      assert s[0] !in "<>,";
      FlatDepth(s[1..], depth);
    }
  }

  /** A template argument list adds nothing to the depth around it. */
  lemma WrappedDepth(template: string, inner: string, depth: int)
    requires forall i :: 0 <= i < |template| ==> template[i] !in "<>,"
    requires ClosingDepth(inner, depth + 1) == Some(depth + 1)
    ensures ClosingDepth(Wrapped(template, inner), depth) == Some(depth)
  {
    FlatDepth(template, depth);
    DepthOfTwo(template, "<", depth);
    DepthOfTwo(template + "<", inner, depth);
    DepthOfTwo(template + "<" + inner, ">", depth);
  }

  lemma InnerOfWrapped(template: string, inner: string)
    requires inner != "" && ClosingDepth(inner, 0) == Some(0)
    ensures Inner(Wrapped(template, inner), template) == Some(inner)
  {
    var prefix := template + "<";
    var value := Wrapped(template, inner);
    assert value == prefix + inner + ">";
    assert value[|prefix|..|value| - 1] == inner;
  }

  // --------------------------------------------------------------- the shape of a spelling

  ghost predicate Plain(s: string) {
    && Spaceless(s) && s != "" && s != "std::byte" && s[|s| - 1] != '&'
    && Balanced(s)
  }

  ghost predicate Balanced(s: string) {
    forall depth :: ClosingDepth(s, depth) == Some(depth)
  }

  lemma WrappedIsPlain(template: string, inner: string)
    requires Plain(inner) && Spaceless(template)
    requires forall i :: 0 <= i < |template| ==> template[i] !in "<>,"
    ensures Plain(Wrapped(template, inner))
  {
    var value := Wrapped(template, inner);
    forall depth
      ensures ClosingDepth(value, depth) == Some(depth)
    {
      WrappedDepth(template, inner, depth);
    }
    assert value[|value| - 1] == '>';
    forall i | 0 <= i < |value|
      ensures !IsSpace(value[i])
    {
      if i < |template| {
        assert value[i] == template[i];
      } else if |template| < i < |value| - 1 {
        assert value[i] == inner[i - |template| - 1];
      }
    }
  }

  lemma NameIsPlain(q: string, final: string)
    requires QualifiedName(q, final)
    ensures Plain("::" + q)
  {
    var s := "::" + q;
    assert forall i :: 0 <= i < |s| ==> !IsSpace(s[i]) && s[i] !in "<>&,";
    forall depth
      ensures ClosingDepth(s, depth) == Some(depth)
    {
      FlatDepth(s, depth);
    }
    assert s[0] == ':' && "std::byte"[0] == 's';
  }

  lemma ScalarIsSpaceless(k: ScalarKind)
    ensures Spaceless(ScalarSpelling(k))
  {
  }

  lemma BytesDepth(depth: int)
    ensures ClosingDepth("std::vector<std::byte>", depth) == Some(depth)
  {
    var inner := "std::byte";
    assert "std::vector<std::byte>" == Wrapped("std::vector", inner);
    FlatDepth(inner, depth + 1);
    WrappedDepth("std::vector", inner, depth);
  }

  lemma ScalarDepth(k: ScalarKind, depth: int)
    ensures ClosingDepth(ScalarSpelling(k), depth) == Some(depth)
  {
    if k.BytesKind? {
      BytesDepth(depth);
    } else {
      FlatDepth(ScalarSpelling(k), depth);
    }
  }

  lemma ScalarIsBalanced(k: ScalarKind)
    ensures Balanced(ScalarSpelling(k))
  {
    forall depth
      ensures ClosingDepth(ScalarSpelling(k), depth) == Some(depth)
    {
      ScalarDepth(k, depth);
    }
  }

  lemma ScalarIsPlain(k: ScalarKind)
    ensures Plain(ScalarSpelling(k))
  {
    ScalarIsSpaceless(k);
    ScalarIsBalanced(k);
    assert |"std::byte"| == 9;
  }

  lemma NamedIsPlain(t: SemanticType, plan: Plan, r: Registry, feature: string)
    requires ValidRegistry(r) && WellFormed(t, plan, r, feature) && (t.EnumRef? || t.ValueRef? || t.ObjectRef?)
    ensures Plain(Printed(t, plan, r, feature))
  {
    NameIsPlain(plan[t.id], r[plan[t.id]].publicName);
    if t.ObjectRef? {
      WrappedIsPlain("std::shared_ptr", "::" + plan[t.id]);
    }
  }

  lemma {:induction false} PrintedIsPlain(t: SemanticType, plan: Plan, r: Registry, feature: string)
    requires ValidRegistry(r) && WellFormed(t, plan, r, feature) && !t.VoidType?
    ensures Plain(Printed(t, plan, r, feature))
  {
    if t.ScalarType? {
      ScalarIsPlain(t.scalar);
    } else if t.ArrayOf? {
      PrintedIsPlain(t.element, plan, r, feature);
      WrappedIsPlain("std::vector", Printed(t.element, plan, r, feature));
    } else if t.NullableOf? {
      PrintedIsPlain(t.element, plan, r, feature);
      WrappedIsPlain("std::optional", Printed(t.element, plan, r, feature));
    } else {
      NamedIsPlain(t, plan, r, feature);
    }
  }

  // --------------------------------------------------------------------------- round trips

  lemma OtherTemplate(inner: string)
    ensures var o := Wrapped("std::optional", inner);
      Inner(o, "std::vector").None? && ScalarNamed(o).None? && o != "void"
    ensures var s := Wrapped("std::shared_ptr", inner);
      && Inner(s, "std::vector").None? && Inner(s, "std::optional").None? && ScalarNamed(s).None? && s != "void"
  {
    var o := Wrapped("std::optional", inner);
    var s := Wrapped("std::shared_ptr", inner);
    assert o[5] == 'o' && s[5] == 's' && s[6] == 'h' && o[0] == 's' && s[0] == 's';
    assert ("std::vector" + "<")[5] == 'v' && ("std::optional" + "<")[5] == 'o';
    assert "std::int32_t"[5] == 'i' && "std::int64_t"[5] == 'i' && "std::string"[6] == 't'
        && "std::vector<std::byte>"[5] == 'v';
  }

  /** Only the scalar buffer is spelled as a vector of bytes. */
  lemma VectorIsScalarOnlyForBytes(inner: string)
    ensures var v := Wrapped("std::vector", inner);
      v != "void" && (ScalarNamed(v).Some? ==> inner == "std::byte")
  {
    var v := Wrapped("std::vector", inner);
    assert v[0] == 's' && v[5] == 'v' && v[12..|v| - 1] == inner;
    assert "std::int32_t"[5] == 'i' && "std::int64_t"[5] == 'i' && "std::string"[5] == 's';
    assert "std::vector<std::byte>"[12..21] == "std::byte";
  }

  lemma RootedIsNoTemplate(s: string)
    requires s != "" && s[0] == ':'
    ensures s != "void" && ScalarNamed(s).None? && Inner(s, "std::vector").None? && Inner(s, "std::optional").None?
  {
    assert ("std::vector" + "<")[0] == 's' && ("std::optional" + "<")[0] == 's';
  }

  lemma RootedIsNamed(s: string, result: bool, position: Position, r: Registry, namespaces: seq<string>,
                      feature: string)
    requires Spaceless(s) && s != "" && s[0] == ':'
    ensures Parse(s, result, position, r, namespaces, feature)
      == NamedType(ShapeOf(s), result, position, r, namespaces, feature)
  {
    SpacelessIsNormal(s);
    RootedIsNoTemplate(s);
  }

  lemma SharedIsNamed(inner: string, result: bool, position: Position, r: Registry, namespaces: seq<string>,
                      feature: string)
    requires Plain(inner)
    ensures Parse(Wrapped("std::shared_ptr", inner), result, position, r, namespaces, feature)
      == NamedType(ShapeOf(Wrapped("std::shared_ptr", inner)), result, position, r, namespaces, feature)
  {
    WrappedIsPlain("std::shared_ptr", inner);
    SpacelessIsNormal(Wrapped("std::shared_ptr", inner));
    OtherTemplate(inner);
  }

  lemma ShapeOfRooted(s: string)
    requires s != "" && s[0] == ':' && s[|s| - 1] != '&'
    ensures ShapeOf(s) == Shape(s, false, false, false)
  {
    assert ("std::shared_ptr" + "<")[0] == 's' && "const "[0] == 'c';
  }

  lemma ShapeOfShared(inner: string)
    requires Plain(inner)
    ensures ShapeOf(Wrapped("std::shared_ptr", inner)) == Shape(inner, true, false, false)
  {
    InnerOfWrapped("std::shared_ptr", inner);
    assert Wrapped("std::shared_ptr", inner)[0] == 's' && "const "[0] == 'c';
  }

  lemma SharedNameParses(q: string, result: bool, position: Position, r: Registry, namespaces: seq<string>,
                         feature: string)
    requires ValidRegistry(r) && q in r && r[q].kind.ObjectKind? && Unhidden(r, q, namespaces)
    ensures Parse(Wrapped("std::shared_ptr", "::" + q), result, position, r, namespaces, feature)
      == Some(ObjectRef(TypeId(feature, r[q].publicName)))
  {
    NameIsPlain(q, r[q].publicName);
    PrintedNamesResolve(r, q, namespaces);
    SharedIsNamed("::" + q, result, position, r, namespaces, feature);
    ShapeOfShared("::" + q);
  }

  lemma ResolvedNameParses(x: string, q: string, result: bool, position: Position, r: Registry,
                           namespaces: seq<string>, feature: string)
    requires Plain("::" + x)
    requires q in r && !r[q].kind.ObjectKind? && Resolve(r, "::" + x, namespaces) == Resolved(q)
    ensures Parse("::" + x, result, position, r, namespaces, feature)
      == Some(if r[q].kind.ValueKind? then ValueRef(TypeId(feature, r[q].publicName))
        else EnumRef(TypeId(feature, r[q].publicName)))
  {
    RootedIsNamed("::" + x, result, position, r, namespaces, feature);
    ShapeOfRooted("::" + x);
  }

  lemma BareNameParses(q: string, result: bool, position: Position, r: Registry, namespaces: seq<string>,
                       feature: string)
    requires ValidRegistry(r) && q in r && !r[q].kind.ObjectKind? && Unhidden(r, q, namespaces)
    ensures Parse("::" + q, result, position, r, namespaces, feature)
      == Some(if r[q].kind.ValueKind? then ValueRef(TypeId(feature, r[q].publicName))
        else EnumRef(TypeId(feature, r[q].publicName)))
  {
    NameIsPlain(q, r[q].publicName);
    PrintedNamesResolve(r, q, namespaces);
    ResolvedNameParses(q, q, result, position, r, namespaces, feature);
  }

  /** A projection in which the condition of `RootedNamesStayPut` fails: only `a::T` is marked, and
      the global `T`, which is not, is accepted as `a::T` from inside `a` and from the root. */
  lemma UnmarkedGlobalIsMisread(namespaces: seq<string>, feature: string)
    requires namespaces == [] || namespaces == ["a"]
    ensures ValidRegistry(ONLY_SCOPED) && UniqueFinals(ONLY_SCOPED)
    ensures Parse("::T", false, Parameter, ONLY_SCOPED, namespaces, feature) == Some(EnumRef(TypeId(feature, "T")))
  {
    OnlyScopedIsValid();
    OnlyScopedResolves(namespaces);
    NameIsPlain("T", "T");
    assert "::" + "T" == "::T";
    ResolvedNameParses("T", "a::T", false, Parameter, ONLY_SCOPED, namespaces, feature);
  }

  lemma ScalarIsRead(k: ScalarKind)
    ensures ScalarNamed(ScalarSpelling(k)) == Some(k) && ScalarSpelling(k) != "void"
  {
    assert "void"[0] == 'v';
  }

  lemma ScalarParses(k: ScalarKind, result: bool, position: Position, r: Registry, namespaces: seq<string>,
                     feature: string)
    ensures Parse(ScalarSpelling(k), result, position, r, namespaces, feature) == Some(ScalarType(k))
  {
    ScalarIsSpaceless(k);
    SpacelessIsNormal(ScalarSpelling(k));
    ScalarIsRead(k);
  }

  /** Every name a type refers to is unhidden where the spelling is read. */
  ghost predicate Visible(t: SemanticType, plan: Plan, r: Registry, namespaces: seq<string>) {
    if t.EnumRef? || t.ValueRef? || t.ObjectRef? then t.id in plan && Unhidden(r, plan[t.id], namespaces)
    else if t.ArrayOf? || t.NullableOf? then Visible(t.element, plan, r, namespaces)
    else true
  }

  /** Parsing undoes printing, in every position and from every namespace that hides no name. */
  lemma {:induction false} PrintedTypesParse(t: SemanticType, result: bool, position: Position, plan: Plan,
                                             r: Registry, namespaces: seq<string>, feature: string)
    requires ValidRegistry(r) && WellFormed(t, plan, r, feature) && Visible(t, plan, r, namespaces)
    ensures Parse(Printed(t, plan, r, feature), result, position, r, namespaces, feature)
      == if t.VoidType? && !result then None else Some(t)
    decreases t
  {
    if t.VoidType? {
      SpacelessIsNormal("void");
    } else if t.ScalarType? {
      ScalarParses(t.scalar, result, position, r, namespaces, feature);
    } else if t.ArrayOf? {
      ArrayParses(t, result, position, plan, r, namespaces, feature);
      PrintedTypesParse(t.element, false, Contained, plan, r, namespaces, feature);
    } else if t.NullableOf? {
      NullableParses(t, result, position, plan, r, namespaces, feature);
      PrintedTypesParse(t.element, false, Contained, plan, r, namespaces, feature);
    } else if t.ObjectRef? {
      SharedNameParses(plan[t.id], result, position, r, namespaces, feature);
    } else {
      BareNameParses(plan[t.id], result, position, r, namespaces, feature);
    }
  }

  lemma ArrayParses(t: SemanticType, result: bool, position: Position, plan: Plan, r: Registry,
                    namespaces: seq<string>, feature: string)
    requires ValidRegistry(r) && t.ArrayOf? && WellFormed(t, plan, r, feature)
    ensures Parse(Printed(t, plan, r, feature), result, position, r, namespaces, feature)
      == var e := Parse(Printed(t.element, plan, r, feature), false, Contained, r, namespaces, feature);
         if e.Some? then Some(ArrayOf(e.value)) else None
  {
    var inner := Printed(t.element, plan, r, feature);
    PrintedIsPlain(t.element, plan, r, feature);
    WrappedIsPlain("std::vector", inner);
    SpacelessIsNormal(Wrapped("std::vector", inner));
    VectorIsScalarOnlyForBytes(inner);
    InnerOfWrapped("std::vector", inner);
  }

  lemma NullableParses(t: SemanticType, result: bool, position: Position, plan: Plan, r: Registry,
                       namespaces: seq<string>, feature: string)
    requires ValidRegistry(r) && t.NullableOf? && WellFormed(t, plan, r, feature)
    ensures Parse(Printed(t, plan, r, feature), result, position, r, namespaces, feature)
      == var e := Parse(Printed(t.element, plan, r, feature), false, Contained, r, namespaces, feature);
         if e.Some? && !e.value.NullableOf? then Some(NullableOf(e.value)) else None
  {
    var inner := Printed(t.element, plan, r, feature);
    PrintedIsPlain(t.element, plan, r, feature);
    WrappedIsPlain("std::optional", inner);
    SpacelessIsNormal(Wrapped("std::optional", inner));
    OtherTemplate(inner);
    InnerOfWrapped("std::optional", inner);
  }

  lemma {:induction false} UniqueNamesAreVisible(t: SemanticType, plan: Plan, r: Registry, namespaces: seq<string>,
                                                 feature: string)
    requires ValidRegistry(r) && UniqueFinals(r) && WellFormed(t, plan, r, feature)
    ensures Visible(t, plan, r, namespaces)
  {
    if t.EnumRef? || t.ValueRef? || t.ObjectRef? {
      UniqueNamesAreUnhidden(r, plan[t.id], namespaces);
    } else if t.ArrayOf? || t.NullableOf? {
      UniqueNamesAreVisible(t.element, plan, r, namespaces, feature);
    }
  }

  /** The same from any namespace, when public names are unique. */
  lemma UniqueNamesRoundTrip(t: SemanticType, result: bool, position: Position, plan: Plan, r: Registry,
                             namespaces: seq<string>, feature: string)
    requires ValidRegistry(r) && UniqueFinals(r) && WellFormed(t, plan, r, feature)
    requires !t.VoidType? || result
    ensures Parse(Printed(t, plan, r, feature), result, position, r, namespaces, feature) == Some(t)
  {
    UniqueNamesAreVisible(t, plan, r, namespaces, feature);
    PrintedTypesParse(t, result, position, plan, r, namespaces, feature);
  }

  /** No two types share a spelling: the byte buffer and the arrays in particular. */
  lemma SpellingsAreDistinct(a: SemanticType, b: SemanticType, plan: Plan, r: Registry, feature: string)
    requires ValidRegistry(r) && WellFormed(a, plan, r, feature) && WellFormed(b, plan, r, feature)
    requires Printed(a, plan, r, feature) == Printed(b, plan, r, feature)
    ensures a == b
  {
    EveryNameIsVisibleAtTheRoot(a, plan, r, feature);
    EveryNameIsVisibleAtTheRoot(b, plan, r, feature);
    PrintedTypesParse(a, true, Returned, plan, r, [], feature);
    PrintedTypesParse(b, true, Returned, plan, r, [], feature);
  }

  lemma {:induction false} EveryNameIsVisibleAtTheRoot(t: SemanticType, plan: Plan, r: Registry, feature: string)
    requires WellFormed(t, plan, r, feature)
    ensures Visible(t, plan, r, [])
  {
    if t.ArrayOf? || t.NullableOf? {
      EveryNameIsVisibleAtTheRoot(t.element, plan, r, feature);
    }
  }

  // ---------------------------------------------------------------------- parsed types

  /** The plan keeps every registered type under its identity. */
  ghost predicate CoversRegistry(plan: Plan, r: Registry, feature: string) {
    forall q :: q in r ==> TypeId(feature, r[q].publicName) in plan && plan[TypeId(feature, r[q].publicName)] == q
  }

  lemma NamedIsWellFormed(c: string, result: bool, position: Position, plan: Plan, r: Registry,
                          namespaces: seq<string>, feature: string)
    requires CoversRegistry(plan, r, feature)
    ensures var t := NamedType(ShapeOf(c), result, position, r, namespaces, feature);
      t.Some? ==> WellFormed(t.value, plan, r, feature) && !t.value.VoidType?
  {
  }

  /** Whatever spelling was accepted, the type is well formed, so its printed spelling is
      accepted for the same type: printing gives each accepted spelling a canonical one. */
  lemma {:induction false} AcceptedSpellingsAreWellFormed(s: string, result: bool, position: Position, plan: Plan,
                                                          r: Registry, namespaces: seq<string>, feature: string)
    requires CoversRegistry(plan, r, feature)
    ensures var t := Parse(s, result, position, r, namespaces, feature);
      t.Some? ==> WellFormed(t.value, plan, r, feature) && (t.value.VoidType? ==> result)
    decreases |s|
  {
    var c := Normalized(s);
    if c == "void" || ScalarNamed(c).Some? {
    } else if Inner(c, "std::vector").Some? {
      AcceptedSpellingsAreWellFormed(Inner(c, "std::vector").value, false, Contained, plan, r, namespaces, feature);
    } else if Inner(c, "std::optional").Some? {
      AcceptedSpellingsAreWellFormed(Inner(c, "std::optional").value, false, Contained, plan, r, namespaces, feature);
    } else {
      NamedIsWellFormed(c, result, position, plan, r, namespaces, feature);
    }
  }

  lemma CanonicalSpelling(s: string, result: bool, position: Position, plan: Plan, r: Registry,
                          namespaces: seq<string>, feature: string)
    requires ValidRegistry(r) && UniqueFinals(r) && CoversRegistry(plan, r, feature)
    requires Parse(s, result, position, r, namespaces, feature).Some?
    ensures var t := Parse(s, result, position, r, namespaces, feature).value;
      WellFormed(t, plan, r, feature)
        && Parse(Printed(t, plan, r, feature), result, position, r, namespaces, feature) == Some(t)
  {
    AcceptedSpellingsAreWellFormed(s, result, position, plan, r, namespaces, feature);
    UniqueNamesRoundTrip(Parse(s, result, position, r, namespaces, feature).value, result, position, plan, r,
      namespaces, feature);
  }
}
