/** The C++ spellings of semantic types: the printer used by the generated code and the parser
    used for declarations, with its namespace lookup. */
module CppTypes {
  import opened Wrappers
  import opened Semantics

  // --------------------------------------------------------------------- the registry

  datatype Kind = ObjectKind | ValueKind | EnumKind

  datatype Named = Named(kind: Kind, publicName: string)

  /** The marked types by qualified name. */
  type Registry = map<string, Named>

  /** The identity every backend gives a public type. */
  function TypeId(feature: string, publicName: string): string {
    feature + ":type:" + publicName
  }

  function Join(namespaces: seq<string>, name: string): string {
    if namespaces == [] then name else namespaces[0] + "::" + Join(namespaces[1..], name)
  }

  predicate HasScope(name: string) {
    exists i :: 0 <= i < |name| - 1 && name[i] == ':' && name[i + 1] == ':'
  }

  /** The name as seen from the innermost enclosing namespace that declares it. */
  function Enclosing(r: Registry, namespaces: seq<string>, count: nat, name: string): Option<string>
    requires count <= |namespaces|
  {
    var qualified := Join(namespaces[..count], name);
    if qualified in r then Some(qualified)
    else if count == 0 then None
    else Enclosing(r, namespaces, count - 1, name)
  }

  ghost function Finals(r: Registry, name: string): set<string> {
    set q | q in r && r[q].publicName == name
  }

  datatype Resolution = Resolved(name: string) | Ambiguous | Unknown

  function WithoutRoot(spelling: string): string {
    if "::" <= spelling then spelling[2..] else spelling
  }

  ghost function Resolve(r: Registry, spelling: string, namespaces: seq<string>): Resolution {
    var name := WithoutRoot(spelling);
    if HasScope(name) then
      if name in r then Resolved(name) else Unknown
    else if Enclosing(r, namespaces, |namespaces|, name).Some? then
      Resolved(Enclosing(r, namespaces, |namespaces|, name).value)
    else if |Finals(r, name)| == 1 then
      var q :| q in Finals(r, name); Resolved(q)
    else if |Finals(r, name)| > 1 then Ambiguous
    else Unknown
  }

  // ------------------------------------------------------------------- normalisation

  /** The characters Python's `\s` and `strip` treat as whitespace. */
  predicate IsSpace(c: char) {
    var n := c as int;
    || 0x09 <= n <= 0x0d || 0x1c <= n <= 0x20 || n == 0x85 || n == 0xa0 || n == 0x1680
    || 0x2000 <= n <= 0x200a || n == 0x2028 || n == 0x2029 || n == 0x202f || n == 0x205f || n == 0x3000
  }

  function SkipSpace(s: string): (t: string)
    ensures |t| <= |s|
  {
    if s != "" && IsSpace(s[0]) then SkipSpace(s[1..]) else s
  }

  function SkipSpaceBack(s: string): (t: string)
    ensures |t| <= |s|
  {
    if s != "" && IsSpace(s[|s| - 1]) then SkipSpaceBack(s[..|s| - 1]) else s
  }

  /** Removes the whitespace on both sides of every occurrence of a mark. */
  function Tighten(s: string, mark: string): (t: string)
    requires mark != ""
    ensures |t| <= |s|
    decreases |s|
  {
    if s == "" then ""
    else
      var rest := SkipSpace(s);
      if mark <= rest then mark + Tighten(SkipSpace(rest[|mark|..]), mark)
      else [s[0]] + Tighten(s[1..], mark)
  }

  /** A front without white space or the mark's first character is kept. */
  lemma {:induction false} TightenFront(a: string, s: string, mark: string)
    requires mark != "" && forall i :: 0 <= i < |a| ==> !IsSpace(a[i]) && a[i] != mark[0]
    ensures Tighten(a + s, mark) == a + Tighten(s, mark)
    decreases |a|
  {
    if a == "" {
      assert a + s == s;
    } else {
      assert (a + s)[0] == a[0] && (a + s)[1..] == a[1..] + s;
      TightenFront(a[1..], s, mark);
      assert a + Tighten(s, mark) == [a[0]] + (a[1..] + Tighten(s, mark));
    }
  }

  function Collapse(s: string): (t: string)
    ensures |t| <= |s|
    decreases |s|
  {
    if s == "" then ""
    else if IsSpace(s[0]) then " " + Collapse(SkipSpace(s[1..]))
    else [s[0]] + Collapse(s[1..])
  }

  function Normalized(s: string): (t: string)
    ensures |t| <= |s|
  {
    Collapse(Tighten(Tighten(Tighten(Tighten(SkipSpaceBack(SkipSpace(s)), "::"), "<"), ">"), "&"))
  }

  // -------------------------------------------------------------------------- the parser

  /** The nesting depth after some text, or None at a comma outside every bracket. */
  function ClosingDepth(s: string, depth: int): Option<int> {
    if s == "" then Some(depth)
    else if s[0] == '<' then ClosingDepth(s[1..], depth + 1)
    else if s[0] == '>' then ClosingDepth(s[1..], depth - 1)
    else if s[0] == ',' && depth == 0 then None
    else ClosingDepth(s[1..], depth)
  }

  function Wrapped(template: string, inner: string): string {
    template + "<" + inner + ">"
  }

  function Inner(value: string, template: string): (inner: Option<string>)
    ensures inner.Some? ==> value == Wrapped(template, inner.value)
  {
    var prefix := template + "<";
    if prefix <= value && |prefix| < |value| && value[|value| - 1] == '>' then
      var inner := value[|prefix|..|value| - 1];
      if inner != "" && ClosingDepth(inner, 0) == Some(0) then Some(inner) else None
    else None
  }

  function ScalarNamed(s: string): Option<ScalarKind> {
    if s == "bool" then Some(BoolKind)
    else if s == "int32_t" || s == "std::int32_t" then Some(Int32Kind)
    else if s == "int64_t" || s == "std::int64_t" then Some(Int64Kind)
    else if s == "float" then Some(Float32Kind)
    else if s == "double" then Some(Float64Kind)
    else if s == "std::string" then Some(StringKind)
    else if s == "std::vector<std::byte>" then Some(BytesKind)
    else None
  }

  datatype Position = Direct | Returned | Field | Contained | Parameter

  /** Whether a native object may be passed in this form at this position. */
  predicate ObjectForm(shared: bool, reference: bool, constant: bool, result: bool, position: Position) {
    if result || position in {Field, Contained} then shared && !reference && !constant
    else if position == Parameter && shared then reference == constant
    else shared || (reference && position == Parameter)
  }

  datatype Shape = Shape(name: string, shared: bool, reference: bool, constant: bool)

  /** A spelling without its reference, `const` and shared pointer. */
  function ShapeOf(c: string): Shape {
    var reference := c != "" && c[|c| - 1] == '&';
    var body := if reference then c[..|c| - 1] else c;
    var constant := "const " <= body;
    var core := if constant then body[6..] else body;
    var shared := Inner(core, "std::shared_ptr");
    Shape(if shared.Some? then shared.value else core, shared.Some?, reference, constant)
  }

  ghost function NamedType(s: Shape, result: bool, position: Position, r: Registry, namespaces: seq<string>,
                           feature: string): Option<SemanticType> {
    var found := Resolve(r, s.name, namespaces);
    if !found.Resolved? || found.name !in r then None
    else
      var named := r[found.name];
      var id := TypeId(feature, named.publicName);
      if named.kind.ObjectKind? then
        if ObjectForm(s.shared, s.reference, s.constant, result, position) then Some(ObjectRef(id)) else None
      else if s.shared || s.reference || s.constant then None
      else if named.kind.ValueKind? then Some(ValueRef(id))
      else Some(EnumRef(id))
  }

  ghost function Parse(s: string, result: bool, position: Position, r: Registry, namespaces: seq<string>,
                       feature: string): Option<SemanticType>
    decreases |s|
  {
    var c := Normalized(s);
    if c == "void" then if result then Some(VoidType) else None
    else if ScalarNamed(c).Some? then Some(ScalarType(ScalarNamed(c).value))
    else if Inner(c, "std::vector").Some? then
      var element := Parse(Inner(c, "std::vector").value, false, Contained, r, namespaces, feature);
      if element.Some? then Some(ArrayOf(element.value)) else None
    else if Inner(c, "std::optional").Some? then
      var element := Parse(Inner(c, "std::optional").value, false, Contained, r, namespaces, feature);
      if element.Some? && !element.value.NullableOf? then Some(NullableOf(element.value)) else None
    else NamedType(ShapeOf(c), result, position, r, namespaces, feature)
  }

  // ------------------------------------------------------------------------- the printer

  function ScalarSpelling(k: ScalarKind): string {
    match k
    case BoolKind => "bool"
    case Int32Kind => "std::int32_t"
    case Int64Kind => "std::int64_t"
    case Float32Kind => "float"
    case Float64Kind => "double"
    case StringKind => "std::string"
    case BytesKind => "std::vector<std::byte>"
  }

  /** Which qualified name the route plan keeps for a type identity. */
  type Plan = map<string, string>

  predicate Refers(id: string, kind: Kind, plan: Plan, r: Registry, feature: string) {
    id in plan && plan[id] in r && r[plan[id]].kind == kind && id == TypeId(feature, r[plan[id]].publicName)
  }

  /** What the semantic model guarantees of a type over a route plan. */
  predicate WellFormed(t: SemanticType, plan: Plan, r: Registry, feature: string) {
    if t.EnumRef? then Refers(t.id, EnumKind, plan, r, feature)
    else if t.ValueRef? then Refers(t.id, ValueKind, plan, r, feature)
    else if t.ObjectRef? then Refers(t.id, ObjectKind, plan, r, feature)
    else if t.ArrayOf? then !t.element.VoidType? && WellFormed(t.element, plan, r, feature)
    else if t.NullableOf? then !t.element.VoidType? && !t.element.NullableOf? && WellFormed(t.element, plan, r, feature)
    else true
  }

  function Printed(t: SemanticType, plan: Plan, r: Registry, feature: string): string
    requires WellFormed(t, plan, r, feature)
  {
    match t
    case VoidType => "void"
    case ScalarType(k) => ScalarSpelling(k)
    case EnumRef(id) => "::" + plan[id]
    case ValueRef(id) => "::" + plan[id]
    case ObjectRef(id) => Wrapped("std::shared_ptr", "::" + plan[id])
    case ArrayOf(e) => Wrapped("std::vector", Printed(e, plan, r, feature))
    case NullableOf(e) => Wrapped("std::optional", Printed(e, plan, r, feature))
  }
}
