/** The spellings a declaration may give a marked type: by value, by reference, constant, or
    through a shared pointer. */
module CppForms {
  import opened Wrappers
  import opened Semantics
  import opened CppTypes
  import opened CppRoundTrip

  datatype Form = Form(rooted: bool, shared: bool, reference: bool, constant: bool)

  /** Just the name, from inside a namespace. */
  const PLAIN := Form(false, false, false, false)

  function Name(f: Form, q: string): string {
    if f.rooted then "::" + q else q
  }

  function Core(f: Form, q: string): string {
    if f.shared then Wrapped("std::shared_ptr", Name(f, q)) else Name(f, q)
  }

  function Unqualified(f: Form, name: string): string {
    Core(f, name) + (if f.reference then "&" else "")
  }

  function Spelled(f: Form, name: string): string {
    if f.constant then "const " + Unqualified(f, name) else Unqualified(f, name)
  }

  /** The forms a type of each kind may take: as a parameter a native object may be `T&`,
      `const T&`, `std::shared_ptr<T>` or `const std::shared_ptr<T>&`. */
  predicate Allowed(kind: Kind, f: Form, result: bool, position: Position) {
    var passing := (f.shared, f.reference, f.constant);
    if kind.ObjectKind? then
      if result || position in {Field, Contained} then passing == (true, false, false)
      else if position == Parameter then
        passing in [(false, true, false), (false, true, true), (true, false, false), (true, true, true)]
      else f.shared
    else passing == (false, false, false)
  }

  /** A bare rooted name cannot be constant: normalisation joins `const` to its `::`. */
  predicate Joined(f: Form) {
    f.rooted && f.constant && !f.shared
  }

  function Reference(named: Named, feature: string): SemanticType {
    var id := TypeId(feature, named.publicName);
    match named.kind
    case ObjectKind => ObjectRef(id)
    case ValueKind => ValueRef(id)
    case EnumKind => EnumRef(id)
  }

  // -------------------------------------------------------------------- const and whitespace

  lemma {:induction false} CollapseFront(a: string, s: string)
    requires Spaceless(a)
    ensures Collapse(a + s) == a + Collapse(s)
    decreases |a|
  {
    if a == "" {
      assert a + s == s;
    } else {
      assert (a + s)[0] == a[0] && (a + s)[1..] == a[1..] + s;
      CollapseFront(a[1..], s);
      assert a + Collapse(s) == [a[0]] + (a[1..] + Collapse(s));
    }
  }

  lemma TightenAfterSpace(x: string, mark: string)
    requires x != "" && Spaceless(x) && mark != "" && !IsSpace(mark[0])
    ensures Tighten(" " + x, mark) == if mark <= x then x else " " + x
  {
    var s := " " + x;
    assert s[1..] == x && SkipSpace(x) == x;
    TightIsKept(x, mark);
    if mark <= x {
      var rest := x[|mark|..];
      assert x == mark + rest && SkipSpace(rest) == rest;
      TightIsKept(rest, mark);
    } else {
      assert mark[0] != ' ' && !(mark <= s);
    }
  }

  lemma TightenConst(x: string, mark: string)
    requires x != "" && Spaceless(x) && mark in ["::", "<", ">", "&"]
    ensures Tighten("const " + x, mark) == if mark <= x then "const" + x else "const " + x
  {
    assert "const " + x == "const" + (" " + x);
    TightenFront("const", " " + x, mark);
    TightenAfterSpace(x, mark);
  }

  lemma CollapseConst(x: string)
    requires x != "" && Spaceless(x)
    ensures Collapse("const " + x) == "const " + x
  {
    var s := " " + x;
    assert "const " + x == "const" + s && s[1..] == x && SkipSpace(x) == x;
    CollapseFront("const", s);
    CollapsedIsKept(x);
  }

  lemma StripConst(x: string)
    requires x != "" && Spaceless(x)
    ensures SkipSpaceBack(SkipSpace("const " + x)) == "const " + x
  {
    var s := "const " + x;
    assert s[0] == 'c' && s[|s| - 1] == x[|x| - 1];
  }

  /** `const` keeps its space before a name. */
  lemma ConstIsNormal(x: string)
    requires x != "" && Spaceless(x) && x[0] !in "<>&:"
    ensures Normalized("const " + x) == "const " + x
  {
    StripConst(x);
    TightenConst(x, "::");
    TightenConst(x, "<");
    TightenConst(x, ">");
    TightenConst(x, "&");
    CollapseConst(x);
  }

  /** ... but not before a rooted one. */
  lemma RootedConstIsJoined(x: string)
    requires Spaceless(x) && "::" <= x
    ensures Normalized("const " + x) == "const" + x
  {
    StripConst(x);
    TightenConst(x, "::");
    var y := "const" + x;
    assert forall i :: 0 <= i < |x| ==> y[5 + i] == x[i];
    JoinedIsSpaceless(x);
    TightIsKept(y, "<");
    TightIsKept(y, ">");
    TightIsKept(y, "&");
    CollapsedIsKept(y);
  }

  lemma JoinedIsSpaceless(x: string)
    requires Spaceless(x)
    ensures Spaceless("const" + x)
  {
  }

  // --------------------------------------------------------------------------- the forms

  lemma CoreIsPlain(f: Form, q: string, final: string)
    requires QualifiedName(q, final)
    ensures Spaceless(Core(f, q)) && Core(f, q) != "" && Core(f, q)[|Core(f, q)| - 1] != '&'
    ensures Core(f, q)[0] !in "<>&" && (Core(f, q)[0] == ':' ==> f.rooted && !f.shared)
    ensures Inner(Core(f, q), "std::shared_ptr") == if f.shared then Some(Name(f, q)) else None
  {
    var core, name := Core(f, q), Name(f, q);
    NameIsVisible(f, q, final);
    if f.shared {
      FlatDepth(name, 0);
      InnerOfWrapped("std::shared_ptr", name);
      SharedIsSpaceless(name);
      assert core[0] == 's' && core[|core| - 1] == '>';
    } else {
      assert core[|core| - 1] != '>';
    }
  }

  lemma NameIsVisible(f: Form, q: string, final: string)
    requires QualifiedName(q, final)
    ensures Name(f, q) != "" && Spaceless(Name(f, q))
    ensures forall i :: 0 <= i < |Name(f, q)| ==> Name(f, q)[i] !in "<>&,"
    ensures Name(f, q)[0] == ':' <==> f.rooted
  {
    var name := Name(f, q);
    forall i | 0 <= i < |name|
      ensures NameCharacter(name[i])
    {
      if f.rooted && i >= 2 {
        assert name[i] == q[i - 2];
      }
    }
  }

  lemma SharedIsSpaceless(q: string)
    requires Spaceless(q)
    ensures Spaceless(Wrapped("std::shared_ptr", q))
  {
    var value := Wrapped("std::shared_ptr", q);
    forall i | 0 <= i < |value|
      ensures !IsSpace(value[i])
    {
      if 16 <= i < |value| - 1 {
        assert value[i] == q[i - 16];
      }
    }
  }

  lemma SpelledIsNormal(f: Form, q: string, final: string)
    requires QualifiedName(q, final) && !Joined(f)
    ensures Normalized(Spelled(f, q)) == Spelled(f, q)
  {
    CoreIsPlain(f, q, final);
    var x := Unqualified(f, q);
    assert x[0] == Core(f, q)[0];
    if f.constant {
      ConstIsNormal(x);
    } else {
      SpacelessIsNormal(x);
    }
  }

  lemma NoConstPrefix(s: string)
    requires Spaceless(s)
    ensures !("const " <= s)
  {
    assert "const "[5] == ' ';
  }

  lemma LastOfSpelled(f: Form, q: string, final: string)
    requires QualifiedName(q, final)
    ensures var c := Spelled(f, q); c != "" && (c[|c| - 1] == '&' <==> f.reference)
    ensures f.reference ==> Spelled(f, q)[..|Spelled(f, q)| - 1] == Spelled(f.(reference := false), q)
  {
    CoreIsPlain(f, q, final);
    var core, x, c := Core(f, q), Unqualified(f, q), Spelled(f, q);
    assert c[|c| - 1] == x[|x| - 1];
    if f.reference {
      assert x == core + "&" && x[..|x| - 1] == core;
    } else {
      assert x == core;
    }
  }

  /** A form is taken apart into what it was put together from. */
  lemma ShapeOfSpelled(f: Form, q: string, final: string)
    requires QualifiedName(q, final)
    ensures ShapeOf(Spelled(f, q)) == Shape(Name(f, q), f.shared, f.reference, f.constant)
  {
    var core, c := Core(f, q), Spelled(f, q);
    CoreIsPlain(f, q, final);
    LastOfSpelled(f, q, final);
    WithoutReference(f, q);
    NoConstPrefix(core);
    ShapeIs(c, if f.reference then c[..|c| - 1] else c, core, f.constant);
  }

  lemma WithoutReference(f: Form, q: string)
    ensures Spelled(f.(reference := false), q) == if f.constant then "const " + Core(f, q) else Core(f, q)
  {
    assert Core(f, q) + "" == Core(f, q) && Core(f.(reference := false), q) == Core(f, q);
  }

  /** What is left of a spelling when its reference and then its `const` are taken off. */
  lemma ShapeIs(c: string, body: string, core: string, constant: bool)
    requires c != "" && body == (if c[|c| - 1] == '&' then c[..|c| - 1] else c)
    requires body == (if constant then "const " + core else core) && !("const " <= core)
    ensures var shared := Inner(core, "std::shared_ptr");
      ShapeOf(c) == Shape(if shared.Some? then shared.value else core, shared.Some?, c[|c| - 1] == '&', constant)
  {
    assert ("const " + core)[6..] == core;
  }

  /** Neither a scalar nor a container. */
  predicate Nominal(c: string) {
    c != "void" && ScalarNamed(c).None? && Inner(c, "std::vector").None? && Inner(c, "std::optional").None?
  }

  lemma NominalIsNamed(s: string, result: bool, position: Position, r: Registry, namespaces: seq<string>,
                       feature: string)
    requires Nominal(Normalized(s))
    ensures Parse(s, result, position, r, namespaces, feature)
      == NamedType(ShapeOf(Normalized(s)), result, position, r, namespaces, feature)
  {
  }

  lemma ConstIsNominal(c: string)
    requires "const" <= c
    ensures Nominal(c)
  {
    assert c[0] == 'c' && ("std::vector" + "<")[0] == 's' && ("std::optional" + "<")[0] == 's';
  }

  lemma ReferenceIsNominal(c: string)
    requires c != "" && c[|c| - 1] == '&'
    ensures Nominal(c)
  {
  }

  lemma BareIsNominal(f: Form, q: string, final: string)
    requires QualifiedName(q, final) && (!f.rooted ==> q != "void" && ScalarNamed(q).None?)
    ensures Nominal(Name(f, q))
  {
    NameIsVisible(f, q, final);
    var name := Name(f, q);
    assert name[|name| - 1] != '>';
    if f.rooted {
      RootedIsNoTemplate(name);
    }
  }

  lemma FormIsNominal(f: Form, q: string, final: string)
    requires QualifiedName(q, final) && (f == PLAIN ==> q != "void" && ScalarNamed(q).None?)
    ensures Nominal(Spelled(f, q))
  {
    if f.constant {
      assert "const " <= Spelled(f, q) && "const" <= "const ";
      ConstIsNominal(Spelled(f, q));
    } else if f.reference {
      ReferenceIsNominal(Spelled(f, q));
    } else if f.shared {
      OtherTemplate(Name(f, q));
      assert Spelled(f, q) == Wrapped("std::shared_ptr", Name(f, q));
    } else {
      BareIsNominal(f, q, final);
      assert Spelled(f, q) == Name(f, q);
    }
  }

  lemma NamedTypeIsExact(f: Form, q: string, result: bool, position: Position, r: Registry, namespaces: seq<string>,
                         feature: string)
    requires q in r && Resolve(r, Name(f, q), namespaces) == Resolved(q)
    ensures NamedType(Shape(Name(f, q), f.shared, f.reference, f.constant), result, position, r, namespaces, feature)
      == if Allowed(r[q].kind, f, result, position) then Some(Reference(r[q], feature)) else None
  {
  }

  /** What a spelling of a registered name is read as. */
  function Reading(f: Form, q: string, named: Named, result: bool, position: Position,
                   feature: string): Option<SemanticType> {
    if f == PLAIN && q == "void" then if result then Some(VoidType) else None
    else if f == PLAIN && ScalarNamed(q).Some? then Some(ScalarType(ScalarNamed(q).value))
    else if Allowed(named.kind, f, result, position) && !Joined(f) then Some(Reference(named, feature))
    else None
  }

  lemma NamesResolve(f: Form, q: string, r: Registry, namespaces: seq<string>)
    requires ValidRegistry(r) && q in r && Unhidden(r, q, namespaces)
    ensures Resolve(r, Name(f, q), namespaces) == Resolved(q)
  {
    PrintedNamesResolve(r, q, namespaces);
  }

  lemma NominalFormsAreExact(f: Form, q: string, result: bool, position: Position, r: Registry, namespaces: seq<string>,
                             feature: string)
    requires ValidRegistry(r) && q in r && Unhidden(r, q, namespaces) && !Joined(f)
    requires f == PLAIN ==> q != "void" && ScalarNamed(q).None?
    ensures Parse(Spelled(f, q), result, position, r, namespaces, feature)
      == Reading(f, q, r[q], result, position, feature)
  {
    SpelledIsNormal(f, q, r[q].publicName);
    FormIsNominal(f, q, r[q].publicName);
    NominalIsNamed(Spelled(f, q), result, position, r, namespaces, feature);
    ShapeOfSpelled(f, q, r[q].publicName);
    NamesResolve(f, q, r, namespaces);
    NamedTypeIsExact(f, q, result, position, r, namespaces, feature);
  }

  /** Exactly what each of the sixteen spellings of a registered name is read as, in each
      position and from each namespace that does not hide it: rooted or not, by value, by
      reference, constant, shared. No namespace is called `const`. */
  lemma FormsAreExact(f: Form, q: string, result: bool, position: Position, r: Registry, namespaces: seq<string>,
                      feature: string)
    requires ValidRegistry(r) && q in r && Unhidden(r, q, namespaces) && ("const::" + q) !in r
    ensures Parse(Spelled(f, q), result, position, r, namespaces, feature)
      == Reading(f, q, r[q], result, position, feature)
  {
    if f == PLAIN && (q == "void" || ScalarNamed(q).Some?) {
      NameIsVisible(f, q, r[q].publicName);
      SpacelessIsNormal(q);
      assert Spelled(f, q) == q;
    } else if Joined(f) {
      JoinedIsRefused(f.reference, q, result, position, r, namespaces, feature);
    } else {
      NominalFormsAreExact(f, q, result, position, r, namespaces, feature);
    }
  }

  // ------------------------------------------------------------------- constant rooted names

  function Joint(reference: bool, q: string): string {
    "const::" + q + (if reference then "&" else "")
  }

  lemma ShapeOfJoint(reference: bool, q: string, final: string)
    requires QualifiedName(q, final)
    ensures ShapeOf(Joint(reference, q)).name == "const::" + q
  {
    var c, body := Joint(reference, q), "const::" + q;
    assert NameCharacter(q[|q| - 1]) && body[|body| - 1] == q[|q| - 1];
    assert (if reference then c[..|c| - 1] else c) == body && body[5] == ':' && "const "[5] == ' ';
    assert body[0] == 'c' && ("std::shared_ptr" + "<")[0] == 's';
  }

  lemma JointIsUnknown(q: string, r: Registry, namespaces: seq<string>)
    requires ("const::" + q) !in r
    ensures Resolve(r, "const::" + q, namespaces) == Unknown
  {
    var name := "const::" + q;
    assert name[0] == 'c' && name[5] == ':' && name[6] == ':';
    assert !("::" <= name);
  }

  lemma JointIsNormal(reference: bool, q: string, final: string)
    requires QualifiedName(q, final)
    ensures Normalized(Spelled(Form(true, false, reference, true), q)) == Joint(reference, q)
  {
    var f := Form(true, false, reference, true);
    var x := Unqualified(f, q);
    NameIsVisible(f, q, final);
    assert x == Name(f, q) + (if reference then "&" else "");
    assert Spaceless(x) && "::" <= x;
    RootedConstIsJoined(x);
    assert "const" + x == Joint(reference, q);
  }

  /** `const ::q` and `const ::q&` are refused everywhere, while `const q&` is a parameter. */
  lemma JoinedIsRefused(reference: bool, q: string, result: bool, position: Position, r: Registry,
                        namespaces: seq<string>,
                        feature: string)
    requires ValidRegistry(r) && q in r && ("const::" + q) !in r
    ensures Parse(Spelled(Form(true, false, reference, true), q), result, position, r, namespaces, feature) == None
  {
    JointIsNormal(reference, q, r[q].publicName);
    assert "const" <= Joint(reference, q) by { assert Joint(reference, q)[..5] == "const"; }
    ConstIsNominal(Joint(reference, q));
    NominalIsNamed(Spelled(Form(true, false, reference, true), q), result, position, r, namespaces, feature);
    ShapeOfJoint(reference, q, r[q].publicName);
    JointIsUnknown(q, r, namespaces);
  }
}
