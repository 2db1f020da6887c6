/** The reference conversion engine: what `_convert` computes, and a closed form for it. */
module Conversion {
  import opened Wrappers
  import opened Semantics
  import opened Planning

  datatype Direction = Input | Output

  datatype Limits = Limits(
    maxDepth: int, maxArrayLength: int, maxVisitedNodes: int,
    maxStringBytes: int, maxByteBufferBytes: int, maxTemporaryBytes: int)

  const MAX_COUNTER := 0x7fff_ffff_ffff_ffff
  const POINTER_SIZE := 8

  /** What a limits record checks of itself. */
  predicate ValidLimits(l: Limits) {
    && 0 < l.maxDepth <= MAX_COUNTER && 0 < l.maxArrayLength <= MAX_COUNTER
    && 0 < l.maxVisitedNodes <= MAX_COUNTER && 0 < l.maxStringBytes <= MAX_COUNTER
    && 0 < l.maxByteBufferBytes <= MAX_COUNTER && 0 < l.maxTemporaryBytes <= MAX_COUNTER
  }

  /** Limits together with the reservation at which an injected failure starts. */
  datatype Config = Config(limits: Limits, failAfter: Option<int>)

  /** The mutable state one conversion threads: budget, injector and retained objects. */
  datatype Meter = Meter(visited: int, bytes: int, reservations: int, retained: seq<Token>)

  const FRESH := Meter(0, 0, 0, [])

  datatype ErrorKind = TypeFailure | RangeFailure | AllocationFailure | HostOverflow | CallbackFailure

  datatype Outcome<+T> = Done(value: T, meter: Meter) | Raised(error: ErrorKind, meter: Meter) {
    predicate IsFailure() { Raised? }
    function PropagateFailure<U>(): Outcome<U> requires Raised? { Raised(error, meter) }
    function Extract(): (T, Meter) requires Done? { (value, meter) }
  }

  // ------------------------------------------------------------------ budget steps

  function CheckedAdd(left: int, right: int): Option<int> {
    if left < 0 || right < 0 || right > MAX_COUNTER - left then None else Some(left + right)
  }

  function Visit(cfg: Config, depth: int, m: Meter): Outcome<()> {
    if depth > cfg.limits.maxDepth then Raised(RangeFailure, m)
    else
      match CheckedAdd(m.visited, 1)
      case None => Raised(RangeFailure, m)
      case Some(total) =>
        var m1 := m.(visited := total);
        if total > cfg.limits.maxVisitedNodes then Raised(RangeFailure, m1) else Done((), m1)
  }

  function Inject(cfg: Config, m: Meter): Outcome<()> {
    if cfg.failAfter.Some? && m.reservations >= cfg.failAfter.value then Raised(AllocationFailure, m)
    else Done((), m.(reservations := m.reservations + 1))
  }

  function Reserve(cfg: Config, amount: int, m: Meter): Outcome<()> {
    if amount < 0 then Raised(RangeFailure, m)
    else
      var (_, m1) :- Inject(cfg, m);
      match CheckedAdd(m1.bytes, amount)
      case None => Raised(RangeFailure, m1)
      case Some(total) =>
        var m2 := m1.(bytes := total);
        if total > cfg.limits.maxTemporaryBytes then Raised(RangeFailure, m2) else Done((), m2)
  }

  // --------------------------------------------------------------------- conversion

  function Convert(cfg: Config, n: Node, v: Value, dir: Direction, depth: int, m: Meter): Outcome<Value>
    decreases n, 3
  {
    var (_, m1) :- Visit(cfg, depth, m);
    if v.Undefined? then Raised(TypeFailure, m1)
    else if n.VoidNode? then
      if dir.Output? && v.Null? then Done(Null, m1) else Raised(TypeFailure, m1)
    else if n.NullableNode? then
      if v.Null? then Done(Null, m1) else Convert(cfg, n.element, v, dir, depth + 1, m1)
    else if v.Null? then Raised(TypeFailure, m1)
    else ConvertPresent(cfg, n, v, dir, depth, m1)
  }

  function ConvertPresent(cfg: Config, n: Node, v: Value, dir: Direction, depth: int, m: Meter): Outcome<Value>
    requires !n.VoidNode? && !n.NullableNode?
    decreases n, 2
  {
    match n
    case ScalarNode(scalar) => ConvertScalar(cfg, scalar, v, dir, m)
    case EnumNode(_, _, constants) =>
      if !v.Str? || v.s !in constants then Raised(TypeFailure, m)
      else if Utf8Length(v.s) > cfg.limits.maxStringBytes then Raised(RangeFailure, m)
      else
        var (_, m1) :- Reserve(cfg, Utf8Length(v.s), m);
        Done(v, m1)
    case ObjectNode(id, _) =>
      if !v.Native? || v.token.typeId != id then Raised(TypeFailure, m)
      else
        var (_, m1) :- Reserve(cfg, POINTER_SIZE, m);
        Done(v, m1.(retained := m1.retained + [v.token]))
    case ArrayNode(element) =>
      if !IsArray(v, dir) then Raised(TypeFailure, m)
      else if |v.items| > cfg.limits.maxArrayLength then Raised(RangeFailure, m)
      else
        var (_, m1) :- Reserve(cfg, 24 + |v.items| * POINTER_SIZE, m);
        var (items, m2) :- ConvertItems(cfg, element, v.items, dir, depth + 1, 0, [], m1);
        Done(if dir.Input? then Tuple(items) else List(items), m2)
    case ValueNode(_, _, fields) =>
      if !v.Mapping? then Raised(TypeFailure, m)
      else
        var (_, m1) :- Reserve(cfg, 32 + |fields| * 16, m);
        var (entries, m2) :- ConvertFields(cfg, n, v.entries, dir, depth + 1, 0, map[], m1);
        Done(Mapping(entries), m2)
  }

  predicate IsArray(v: Value, dir: Direction) {
    v.List? || (dir.Output? && v.Tuple?)
  }

  function ConvertItems(cfg: Config, element: Node, items: seq<Value>, dir: Direction, depth: int,
                        i: nat, done: seq<Value>, m: Meter): Outcome<seq<Value>>
    requires i <= |items|
    decreases element, 4, |items| - i
  {
    if i == |items| then Done(done, m)
    else if items[i].ArrayHole? then Raised(TypeFailure, m)
    else
      var (item, m1) :- Convert(cfg, element, items[i], dir, depth, m);
      ConvertItems(cfg, element, items, dir, depth, i + 1, done + [item], m1)
  }

  function ConvertFields(cfg: Config, n: Node, entries: map<string, Value>, dir: Direction, depth: int,
                         i: nat, done: map<string, Value>, m: Meter): Outcome<map<string, Value>>
    requires n.ValueNode? && i <= |n.fields|
    decreases n, 1, |n.fields| - i
  {
    if i == |n.fields| then Done(done, m)
    else
      var f := n.fields[i];
      if f.name !in entries then Raised(TypeFailure, m)
      else
        var (item, m1) :- Convert(cfg, f.node, entries[f.name], dir, depth, m);
        ConvertFields(cfg, n, entries, dir, depth, i + 1, done[f.name := item], m1)
  }

  const INT32_MIN := -0x8000_0000
  const INT32_MAX := 0x7fff_ffff
  const INT64_MIN := -0x8000_0000_0000_0000
  const INT64_MAX := 0x7fff_ffff_ffff_ffff

  /** The largest finite float32, as an exact rational. */
  const FLOAT32_MAX := 340282346638528859811704183484516925440.0

  predicate InInt64(i: int) {
    INT64_MIN <= i <= INT64_MAX
  }

  function ConvertScalar(cfg: Config, scalar: ScalarKind, v: Value, dir: Direction, m: Meter): Outcome<Value> {
    match scalar
    case BoolKind =>
      if v.Boolean? then Done(v, m) else Raised(TypeFailure, m)
    case Int32Kind =>
      if !(v.Integer? || v.Float?) then Raised(TypeFailure, m)
      else if ToDouble(v).None? then Raised(HostOverflow, m)
      else
        var d := ToDouble(v).value;
        if !d.Finite? || d.r.Floor as real != d.r then Raised(RangeFailure, m)
        else if d.r < INT32_MIN as real || d.r > INT32_MAX as real then Raised(RangeFailure, m)
        else Done(Integer(d.r.Floor), m)
    case Int64Kind =>
      if (dir.Input? && !v.BigInt?) || (dir.Output? && !v.Integer?) then Raised(TypeFailure, m)
      else if !InInt64(v.i) then Raised(RangeFailure, m)
      else Done(if dir.Input? then Integer(v.i) else BigInt(v.i), m)
    case Float32Kind =>
      if !(v.Integer? || v.Float?) then Raised(TypeFailure, m)
      else if ToDouble(v).None? then Raised(HostOverflow, m)
      else
        var d := ToDouble(v).value;
        if d.Finite? && (d.r > FLOAT32_MAX || d.r < -FLOAT32_MAX) then Raised(RangeFailure, m)
        else Done(Float(d), m)
    case Float64Kind =>
      if !(v.Integer? || v.Float?) then Raised(TypeFailure, m)
      else if ToDouble(v).None? then Raised(HostOverflow, m)
      else Done(Float(ToDouble(v).value), m)
    case StringKind =>
      if !v.Str? then Raised(TypeFailure, m)
      else if Utf8Length(v.s) > cfg.limits.maxStringBytes then Raised(RangeFailure, m)
      else
        var (_, m1) :- Reserve(cfg, Utf8Length(v.s), m);
        Done(v, m1)
    case BytesKind =>
      if (dir.Input? && !v.Uint8Array?) || (dir.Output? && !v.Buffer?) then Raised(TypeFailure, m)
      else
        var raw := RawBytes(v);
        if |raw| > cfg.limits.maxByteBufferBytes then Raised(RangeFailure, m)
        else
          var (_, m1) :- Reserve(cfg, |raw|, m);
          Done(if dir.Input? then Buffer(raw) else Uint8Array(WholeView(raw)), m1)
  }

  function RawBytes(v: Value): seq<Byte>
    requires v.Uint8Array? || v.Buffer?
  {
    if v.Uint8Array? then VisibleBytes(v.view) else v.bytes
  }

  function WholeView(raw: seq<Byte>): (view: ArrayView)
    ensures VisibleBytes(view) == raw
  {
    View(raw, 0, |raw|)
  }

  // -------------------------------------------------------------------- closed forms
  // A description of conversion with no budget, no order of failure and no state.

  predicate ScalarTyped(scalar: ScalarKind, v: Value, dir: Direction) {
    match scalar
    case BoolKind => v.Boolean?
    case Int32Kind =>
      || (v.Integer? && INT32_MIN <= v.i <= INT32_MAX)
      || (v.Float? && v.d.Finite? && v.d.r.Floor as real == v.d.r && INT32_MIN <= v.d.r.Floor <= INT32_MAX)
    case Int64Kind => (if dir.Input? then v.BigInt? else v.Integer?) && InInt64(v.i)
    case Float32Kind =>
      (v.Integer? || v.Float?) && ToDouble(v).Some? &&
      (ToDouble(v).value.Finite? ==> -FLOAT32_MAX <= ToDouble(v).value.r <= FLOAT32_MAX)
    case Float64Kind => (v.Integer? || v.Float?) && ToDouble(v).Some?
    case StringKind => v.Str?
    case BytesKind => if dir.Input? then v.Uint8Array? else v.Buffer?
  }

  /** v has the shape the plan asks for, everywhere. */
  predicate Typed(n: Node, v: Value, dir: Direction)
    decreases n, 3
  {
    match n
    case VoidNode => dir.Output? && v.Null?
    case ScalarNode(scalar) => ScalarTyped(scalar, v, dir)
    case EnumNode(_, _, constants) => v.Str? && v.s in constants
    case ObjectNode(id, _) => v.Native? && v.token.typeId == id
    case NullableNode(element) => v.Null? || Typed(element, v, dir)
    case ArrayNode(element) => IsArray(v, dir) && ItemsTyped(element, v.items, dir, 0)
    case ValueNode(_, _, _) => v.Mapping? && FieldsTyped(n, v.entries, dir, 0)
  }

  predicate ItemsTyped(element: Node, items: seq<Value>, dir: Direction, i: nat)
    requires i <= |items|
    decreases element, 4, |items| - i
  {
    i == |items| || (Typed(element, items[i], dir) && ItemsTyped(element, items, dir, i + 1))
  }

  predicate FieldsTyped(n: Node, entries: map<string, Value>, dir: Direction, i: nat)
    requires n.ValueNode? && i <= |n.fields|
    decreases n, 1, |n.fields| - i
  {
    i == |n.fields| ||
    (n.fields[i].name in entries && Typed(n.fields[i].node, entries[n.fields[i].name], dir)
     && FieldsTyped(n, entries, dir, i + 1))
  }

  /** Every position is within the depth limit, and every array, string and buffer within its own. */
  predicate Fits(l: Limits, n: Node, v: Value, dir: Direction, depth: int)
    requires Typed(n, v, dir)
    decreases n, 3
  {
    depth <= l.maxDepth &&
    match n
    case VoidNode => true
    case ScalarNode(scalar) =>
      && (scalar.StringKind? ==> Utf8Length(v.s) <= l.maxStringBytes)
      && (scalar.BytesKind? ==> |RawBytes(v)| <= l.maxByteBufferBytes)
    case EnumNode(_, _, _) => Utf8Length(v.s) <= l.maxStringBytes
    case ObjectNode(_, _) => true
    case NullableNode(element) => v.Null? || Fits(l, element, v, dir, depth + 1)
    case ArrayNode(element) => |v.items| <= l.maxArrayLength && ItemsFit(l, element, v.items, dir, depth + 1, 0)
    case ValueNode(_, _, _) => FieldsFit(l, n, v.entries, dir, depth + 1, 0)
  }

  predicate ItemsFit(l: Limits, element: Node, items: seq<Value>, dir: Direction, depth: int, i: nat)
    requires i <= |items| && ItemsTyped(element, items, dir, i)
    decreases element, 4, |items| - i
  {
    i == |items| || (Fits(l, element, items[i], dir, depth) && ItemsFit(l, element, items, dir, depth, i + 1))
  }

  predicate FieldsFit(l: Limits, n: Node, entries: map<string, Value>, dir: Direction, depth: int, i: nat)
    requires n.ValueNode? && i <= |n.fields| && FieldsTyped(n, entries, dir, i)
    decreases n, 1, |n.fields| - i
  {
    i == |n.fields| ||
    (Fits(l, n.fields[i].node, entries[n.fields[i].name], dir, depth) && FieldsFit(l, n, entries, dir, depth, i + 1))
  }

  /** What a conversion consumes and retains. */
  datatype Cost = Cost(visits: nat, bytes: nat, reservations: nat, leaves: seq<Token>)

  const NO_COST := Cost(0, 0, 0, [])
  const ONE_VISIT := Cost(1, 0, 0, [])

  function Plus(a: Cost, b: Cost): Cost {
    Cost(a.visits + b.visits, a.bytes + b.bytes, a.reservations + b.reservations, a.leaves + b.leaves)
  }

  function Charge(m: Meter, c: Cost): Meter {
    Meter(m.visited + c.visits, m.bytes + c.bytes, m.reservations + c.reservations, m.retained + c.leaves)
  }

  lemma ChargingTwice(m: Meter, a: Cost, b: Cost)
    ensures Charge(Charge(m, a), b) == Charge(m, Plus(a, b))
  {
    assert m.retained + (a.leaves + b.leaves) == m.retained + a.leaves + b.leaves;
  }

  /** One visit at every position; the bytes of strings, buffers, tokens, arrays and records;
      the object leaves from left to right. */
  function CostOf(n: Node, v: Value, dir: Direction): Cost
    requires Typed(n, v, dir)
    decreases n, 3
  {
    match n
    case VoidNode => ONE_VISIT
    case ScalarNode(scalar) =>
      if scalar.StringKind? then Cost(1, Utf8Length(v.s), 1, [])
      else if scalar.BytesKind? then Cost(1, |RawBytes(v)|, 1, [])
      else ONE_VISIT
    case EnumNode(_, _, _) => Cost(1, Utf8Length(v.s), 1, [])
    case ObjectNode(_, _) => Cost(1, POINTER_SIZE, 1, [v.token])
    case NullableNode(element) => if v.Null? then ONE_VISIT else Plus(ONE_VISIT, CostOf(element, v, dir))
    case ArrayNode(element) =>
      Plus(Cost(1, 24 + |v.items| * POINTER_SIZE, 1, []), ItemsCost(element, v.items, dir, 0))
    case ValueNode(_, _, fields) =>
      Plus(Cost(1, 32 + |fields| * 16, 1, []), FieldsCost(n, v.entries, dir, 0))
  }

  function ItemsCost(element: Node, items: seq<Value>, dir: Direction, i: nat): Cost
    requires i <= |items| && ItemsTyped(element, items, dir, i)
    decreases element, 4, |items| - i
  {
    if i == |items| then NO_COST
    else Plus(CostOf(element, items[i], dir), ItemsCost(element, items, dir, i + 1))
  }

  function FieldsCost(n: Node, entries: map<string, Value>, dir: Direction, i: nat): Cost
    requires n.ValueNode? && i <= |n.fields| && FieldsTyped(n, entries, dir, i)
    decreases n, 1, |n.fields| - i
  {
    if i == |n.fields| then NO_COST
    else Plus(CostOf(n.fields[i].node, entries[n.fields[i].name], dir), FieldsCost(n, entries, dir, i + 1))
  }

  /** The converted value, independently of any budget. */
  function Image(n: Node, v: Value, dir: Direction): Value
    requires Typed(n, v, dir)
    decreases n, 3
  {
    match n
    case ScalarNode(scalar) => ScalarImage(scalar, v, dir)
    case NullableNode(element) => if v.Null? then Null else Image(element, v, dir)
    case ArrayNode(element) =>
      var items := ItemImages(element, v.items, dir, 0);
      if dir.Input? then Tuple(items) else List(items)
    case ValueNode(_, _, _) => Mapping(FieldImages(n, v.entries, dir, 0, map[]))
    case VoidNode => v
    case EnumNode(_, _, _) => v
    case ObjectNode(_, _) => v
  }

  function ItemImages(element: Node, items: seq<Value>, dir: Direction, i: nat): (images: seq<Value>)
    requires i <= |items| && ItemsTyped(element, items, dir, i)
    ensures |images| == |items| - i
    decreases element, 4, |items| - i
  {
    if i == |items| then [] else [Image(element, items[i], dir)] + ItemImages(element, items, dir, i + 1)
  }

  function FieldImages(n: Node, entries: map<string, Value>, dir: Direction, i: nat, done: map<string, Value>)
    : map<string, Value>
    requires n.ValueNode? && i <= |n.fields| && FieldsTyped(n, entries, dir, i)
    decreases n, 1, |n.fields| - i
  {
    if i == |n.fields| then done
    else
      var f := n.fields[i];
      FieldImages(n, entries, dir, i + 1, done[f.name := Image(f.node, entries[f.name], dir)])
  }

  function ScalarImage(scalar: ScalarKind, v: Value, dir: Direction): Value
    requires ScalarTyped(scalar, v, dir)
  {
    match scalar
    case Int32Kind => if v.Integer? then v else Integer(v.d.r.Floor)
    case Int64Kind => if dir.Input? then Integer(v.i) else BigInt(v.i)
    case Float32Kind => Float(ToDouble(v).value)
    case Float64Kind => Float(ToDouble(v).value)
    case BytesKind => if dir.Input? then Buffer(RawBytes(v)) else Uint8Array(WholeView(RawBytes(v)))
    case BoolKind => v
    case StringKind => v
  }

  // ----------------------------------------------------------------- exact acceptance

  predicate InBudget(l: Limits, m: Meter) {
    0 <= m.visited <= l.maxVisitedNodes && 0 <= m.bytes <= l.maxTemporaryBytes
  }

  predicate Affordable(l: Limits, m: Meter, c: Cost) {
    m.visited + c.visits <= l.maxVisitedNodes && m.bytes + c.bytes <= l.maxTemporaryBytes
  }

  /** The condition under which an uninjected conversion succeeds. */
  predicate Acceptable(l: Limits, n: Node, v: Value, dir: Direction, depth: int, m: Meter) {
    Typed(n, v, dir) && Fits(l, n, v, dir, depth) && Affordable(l, m, CostOf(n, v, dir))
  }

  /** A scalar without a buffer converts exactly when it is typed, at no cost. */
  lemma PlainScalars(cfg: Config, scalar: ScalarKind, v: Value, dir: Direction, m: Meter)
    requires !scalar.StringKind? && !scalar.BytesKind?
    ensures ScalarTyped(scalar, v, dir)
      ==> ConvertScalar(cfg, scalar, v, dir, m) == Done(ScalarImage(scalar, v, dir), m)
    ensures !ScalarTyped(scalar, v, dir) ==> ConvertScalar(cfg, scalar, v, dir, m).Raised?
  {
    if scalar.Int32Kind? && v.Integer? {
      IntegerToDouble(v.i);
    }
  }

  predicate ItemsAcceptable(l: Limits, element: Node, items: seq<Value>, dir: Direction, depth: int, i: nat, m: Meter)
    requires i <= |items|
  {
    && ItemsTyped(element, items, dir, i)
    && ItemsFit(l, element, items, dir, depth, i)
    && Affordable(l, m, ItemsCost(element, items, dir, i))
  }

  predicate FieldsAcceptable(l: Limits, n: Node, entries: map<string, Value>, dir: Direction, depth: int, i: nat,
                             m: Meter)
    requires n.ValueNode? && i <= |n.fields|
  {
    && FieldsTyped(n, entries, dir, i)
    && FieldsFit(l, n, entries, dir, depth, i)
    && Affordable(l, m, FieldsCost(n, entries, dir, i))
  }

  lemma ChargingNothing(m: Meter)
    ensures Charge(m, NO_COST) == m
    ensures Charge(m, ONE_VISIT) == m.(visited := m.visited + 1)
  {
    assert m.retained + [] == m.retained;
  }

  /** Against a budget in range, the overflow check never decides: only the limits do. */
  lemma VisitStep(cfg: Config, depth: int, m: Meter)
    requires ValidLimits(cfg.limits) && InBudget(cfg.limits, m)
    ensures Visit(cfg, depth, m).Done?
      <==> depth <= cfg.limits.maxDepth && m.visited + 1 <= cfg.limits.maxVisitedNodes
    ensures Visit(cfg, depth, m).Done? ==> Visit(cfg, depth, m).meter == m.(visited := m.visited + 1)
  {
  }

  lemma ReserveStep(cfg: Config, amount: nat, m: Meter)
    requires cfg.failAfter.None? && ValidLimits(cfg.limits) && InBudget(cfg.limits, m)
    ensures Reserve(cfg, amount, m).Done? <==> m.bytes + amount <= cfg.limits.maxTemporaryBytes
    ensures Reserve(cfg, amount, m).Done? ==>
      Reserve(cfg, amount, m).meter == m.(bytes := m.bytes + amount, reservations := m.reservations + 1)
  {
  }

  lemma {:induction false} NothingIsTypedByAHole(n: Node, dir: Direction)
    ensures !Typed(n, ArrayHole, dir) && !Typed(n, Undefined, dir)
  {
    if n.NullableNode? {
      NothingIsTypedByAHole(n.element, dir);
    }
  }

  /** The outcome r is the one the closed forms predict for an uninjected conversion. */
  ghost predicate Predicted(l: Limits, n: Node, v: Value, dir: Direction, depth: int, m: Meter, r: Outcome<Value>) {
    if Acceptable(l, n, v, dir, depth, m) then r == Done(Image(n, v, dir), Charge(m, CostOf(n, v, dir)))
    else r.Raised?
  }

  /** Exact acceptance: an uninjected conversion succeeds if and only if the value is typed,
      fits every limit at its position and is affordable in total; it then returns the image
      and moves every counter by exactly the closed-form cost. */
  lemma {:induction false} ConversionIsExact(cfg: Config, n: Node, v: Value, dir: Direction, depth: int, m: Meter)
    requires cfg.failAfter.None? && ValidLimits(cfg.limits) && InBudget(cfg.limits, m)
    ensures Predicted(cfg.limits, n, v, dir, depth, m, Convert(cfg, n, v, dir, depth, m))
    decreases n, 3
  {
    NothingIsTypedByAHole(n, dir);
    VisitStep(cfg, depth, m);
    ChargingNothing(m);
    if Visit(cfg, depth, m).Done? && !v.Undefined? && !n.VoidNode? && !v.Null? {
      match n
      case NullableNode(_) => NullableConversionIsExact(cfg, n, v, dir, depth, m);
      case ArrayNode(_) => ArrayConversionIsExact(cfg, n, v, dir, depth, m);
      case ValueNode(_, _, _) => ValueConversionIsExact(cfg, n, v, dir, depth, m);
      case ScalarNode(scalar) =>
        if scalar.StringKind? || scalar.BytesKind? {
          BufferConversionIsExact(cfg, n, v, dir, depth, m);
        } else {
          PlainScalarConversionIsExact(cfg, n, v, dir, depth, m);
        }
      case EnumNode(_, _, _) => EnumConversionIsExact(cfg, n, v, dir, depth, m);
      case ObjectNode(_, _) => ObjectConversionIsExact(cfg, n, v, dir, depth, m);
    }
  }

  lemma {:induction false} NullableConversionIsExact(cfg: Config, n: Node, v: Value, dir: Direction, depth: int,
                                                     m: Meter)
    requires cfg.failAfter.None? && ValidLimits(cfg.limits) && InBudget(cfg.limits, m)
    requires n.NullableNode? && !v.Null?
    requires depth <= cfg.limits.maxDepth && m.visited + 1 <= cfg.limits.maxVisitedNodes
    ensures Predicted(cfg.limits, n, v, dir, depth, m,
                      Convert(cfg, n.element, v, dir, depth + 1, m.(visited := m.visited + 1)))
    decreases n, 2
  {
    ChargingNothing(m);
    ConversionIsExact(cfg, n.element, v, dir, depth + 1, Charge(m, ONE_VISIT));
    if Typed(n.element, v, dir) {
      ChargingTwice(m, ONE_VISIT, CostOf(n.element, v, dir));
    }
  }

  lemma PlainScalarConversionIsExact(cfg: Config, n: Node, v: Value, dir: Direction, depth: int, m: Meter)
    requires cfg.failAfter.None? && ValidLimits(cfg.limits) && InBudget(cfg.limits, m)
    requires n.ScalarNode? && !n.scalar.StringKind? && !n.scalar.BytesKind?
    requires depth <= cfg.limits.maxDepth && m.visited + 1 <= cfg.limits.maxVisitedNodes
    ensures Predicted(cfg.limits, n, v, dir, depth, m,
                      ConvertPresent(cfg, n, v, dir, depth, m.(visited := m.visited + 1)))
  {
    var m1 := m.(visited := m.visited + 1);
    ChargingNothing(m);
    ChargingNothing(m1);
    PlainScalars(cfg, n.scalar, v, dir, m1);
  }

  lemma BufferConversionIsExact(cfg: Config, n: Node, v: Value, dir: Direction, depth: int, m: Meter)
    requires cfg.failAfter.None? && ValidLimits(cfg.limits) && InBudget(cfg.limits, m)
    requires n.ScalarNode? && (n.scalar.StringKind? || n.scalar.BytesKind?)
    requires depth <= cfg.limits.maxDepth && m.visited + 1 <= cfg.limits.maxVisitedNodes
    ensures Predicted(cfg.limits, n, v, dir, depth, m,
                      ConvertPresent(cfg, n, v, dir, depth, m.(visited := m.visited + 1)))
  {
    var m1 := m.(visited := m.visited + 1);
    ChargingNothing(m);
    ChargingNothing(m1);
    if n.scalar.StringKind? {
      if v.Str? { ReserveStep(cfg, Utf8Length(v.s), m1); }
    } else if v.Uint8Array? || v.Buffer? {
      ReserveStep(cfg, |RawBytes(v)|, m1);
    }
  }

  lemma EnumConversionIsExact(cfg: Config, n: Node, v: Value, dir: Direction, depth: int, m: Meter)
    requires cfg.failAfter.None? && ValidLimits(cfg.limits) && InBudget(cfg.limits, m)
    requires n.EnumNode?
    requires depth <= cfg.limits.maxDepth && m.visited + 1 <= cfg.limits.maxVisitedNodes
    ensures Predicted(cfg.limits, n, v, dir, depth, m,
                      ConvertPresent(cfg, n, v, dir, depth, m.(visited := m.visited + 1)))
  {
    var m1 := m.(visited := m.visited + 1);
    ChargingNothing(m);
    ChargingNothing(m1);
    if v.Str? {
      ReserveStep(cfg, Utf8Length(v.s), m1);
    }
  }

  lemma ObjectConversionIsExact(cfg: Config, n: Node, v: Value, dir: Direction, depth: int, m: Meter)
    requires cfg.failAfter.None? && ValidLimits(cfg.limits) && InBudget(cfg.limits, m)
    requires n.ObjectNode?
    requires depth <= cfg.limits.maxDepth && m.visited + 1 <= cfg.limits.maxVisitedNodes
    ensures Predicted(cfg.limits, n, v, dir, depth, m,
                      ConvertPresent(cfg, n, v, dir, depth, m.(visited := m.visited + 1)))
  {
    var m1 := m.(visited := m.visited + 1);
    ChargingNothing(m);
    ChargingNothing(m1);
    ReserveStep(cfg, POINTER_SIZE, m1);
  }

  lemma {:induction false} ArrayConversionIsExact(cfg: Config, n: Node, v: Value, dir: Direction, depth: int, m: Meter)
    requires cfg.failAfter.None? && ValidLimits(cfg.limits) && InBudget(cfg.limits, m)
    requires n.ArrayNode?
    requires depth <= cfg.limits.maxDepth && m.visited + 1 <= cfg.limits.maxVisitedNodes
    ensures Predicted(cfg.limits, n, v, dir, depth, m,
                      ConvertPresent(cfg, n, v, dir, depth, m.(visited := m.visited + 1)))
    decreases n, 2
  {
    if IsArray(v, dir) {
      var own := Cost(1, 24 + |v.items| * POINTER_SIZE, 1, []);
      ReserveStep(cfg, own.bytes, m.(visited := m.visited + 1));
      ChargingNothing(m);
      var m2 := Charge(m, own);
      if m2.bytes <= cfg.limits.maxTemporaryBytes {
        ItemConversionsAreExact(cfg, n.element, v.items, dir, depth + 1, 0, [], m2);
      }
      if ItemsTyped(n.element, v.items, dir, 0) {
        ChargingTwice(m, own, ItemsCost(n.element, v.items, dir, 0));
        assert [] + ItemImages(n.element, v.items, dir, 0) == ItemImages(n.element, v.items, dir, 0);
      }
    }
  }

  function RecordCost(n: Node): Cost
    requires n.ValueNode?
  {
    Cost(1, 32 + |n.fields| * 16, 1, [])
  }

  /** A record is acceptable when its own cost and then its fields are. */
  lemma RecordAcceptance(l: Limits, n: Node, v: Value, dir: Direction, depth: int, m: Meter)
    requires n.ValueNode? && v.Mapping? && depth <= l.maxDepth && m.visited + 1 <= l.maxVisitedNodes
    ensures Acceptable(l, n, v, dir, depth, m) <==>
      && Charge(m, RecordCost(n)).bytes <= l.maxTemporaryBytes
      && FieldsAcceptable(l, n, v.entries, dir, depth + 1, 0, Charge(m, RecordCost(n)))
    ensures Typed(n, v, dir) ==>
      Charge(m, CostOf(n, v, dir)) == Charge(Charge(m, RecordCost(n)), FieldsCost(n, v.entries, dir, 0))
  {
    if FieldsTyped(n, v.entries, dir, 0) {
      ChargingTwice(m, RecordCost(n), FieldsCost(n, v.entries, dir, 0));
    }
  }

  lemma {:induction false} ValueConversionIsExact(cfg: Config, n: Node, v: Value, dir: Direction, depth: int, m: Meter)
    requires cfg.failAfter.None? && ValidLimits(cfg.limits) && InBudget(cfg.limits, m)
    requires n.ValueNode?
    requires depth <= cfg.limits.maxDepth && m.visited + 1 <= cfg.limits.maxVisitedNodes
    ensures Predicted(cfg.limits, n, v, dir, depth, m,
                      ConvertPresent(cfg, n, v, dir, depth, m.(visited := m.visited + 1)))
    decreases n, 2
  {
    if v.Mapping? {
      var m2 := Charge(m, RecordCost(n));
      ReserveStep(cfg, RecordCost(n).bytes, m.(visited := m.visited + 1));
      ChargingNothing(m);
      RecordAcceptance(cfg.limits, n, v, dir, depth, m);
      if m2.bytes <= cfg.limits.maxTemporaryBytes {
        FieldConversionsAreExact(cfg, n, v.entries, dir, depth + 1, 0, map[], m2);
      }
    }
  }

  ghost predicate ItemsPredicted(l: Limits, element: Node, items: seq<Value>, dir: Direction, depth: int,
                                 i: nat, done: seq<Value>, m: Meter, r: Outcome<seq<Value>>)
    requires i <= |items|
  {
    if ItemsAcceptable(l, element, items, dir, depth, i, m)
    then r == Done(done + ItemImages(element, items, dir, i), Charge(m, ItemsCost(element, items, dir, i)))
    else r.Raised?
  }

  lemma {:induction false} ItemConversionsAreExact(cfg: Config, element: Node, items: seq<Value>, dir: Direction,
                                                   depth: int, i: nat, done: seq<Value>, m: Meter)
    requires cfg.failAfter.None? && ValidLimits(cfg.limits) && InBudget(cfg.limits, m)
    requires i <= |items|
    ensures ItemsPredicted(cfg.limits, element, items, dir, depth, i, done, m,
                           ConvertItems(cfg, element, items, dir, depth, i, done, m))
    decreases element, 4, |items| - i
  {
    if i == |items| {
      ChargingNothing(m);
      assert done + [] == done;
    } else if items[i].ArrayHole? {
      NothingIsTypedByAHole(element, dir);
    } else {
      ConversionIsExact(cfg, element, items[i], dir, depth, m);
      if Acceptable(cfg.limits, element, items[i], dir, depth, m) {
        var image, c := Image(element, items[i], dir), CostOf(element, items[i], dir);
        var r := ConvertItems(cfg, element, items, dir, depth, i + 1, done + [image], Charge(m, c));
        ItemConversionsAreExact(cfg, element, items, dir, depth, i + 1, done + [image], Charge(m, c));
        PrependItem(cfg.limits, element, items, dir, depth, i, done, m, r);
      }
    }
  }

  /** A prediction for the items after i is one for the items from i on. */
  lemma PrependItem(l: Limits, element: Node, items: seq<Value>, dir: Direction, depth: int,
                    i: nat, done: seq<Value>, m: Meter, r: Outcome<seq<Value>>)
    requires i < |items| && Acceptable(l, element, items[i], dir, depth, m)
    requires ItemsPredicted(l, element, items, dir, depth, i + 1, done + [Image(element, items[i], dir)],
                            Charge(m, CostOf(element, items[i], dir)), r)
    ensures ItemsPredicted(l, element, items, dir, depth, i, done, m, r)
  {
    if ItemsTyped(element, items, dir, i + 1) {
      var image, rest := Image(element, items[i], dir), ItemImages(element, items, dir, i + 1);
      ChargingTwice(m, CostOf(element, items[i], dir), ItemsCost(element, items, dir, i + 1));
      assert done + [image] + rest == done + ([image] + rest);
    }
  }

  lemma {:induction false} FieldConversionsAreExact(cfg: Config, n: Node, entries: map<string, Value>, dir: Direction,
                                                    depth: int, i: nat, done: map<string, Value>, m: Meter)
    requires cfg.failAfter.None? && ValidLimits(cfg.limits) && InBudget(cfg.limits, m)
    requires n.ValueNode? && i <= |n.fields|
    ensures FieldsAcceptable(cfg.limits, n, entries, dir, depth, i, m) ==>
      ConvertFields(cfg, n, entries, dir, depth, i, done, m)
      == Done(FieldImages(n, entries, dir, i, done), Charge(m, FieldsCost(n, entries, dir, i)))
    ensures !FieldsAcceptable(cfg.limits, n, entries, dir, depth, i, m) ==>
      ConvertFields(cfg, n, entries, dir, depth, i, done, m).Raised?
    decreases n, 1, |n.fields| - i
  {
    if i == |n.fields| {
      ChargingNothing(m);
    } else if n.fields[i].name in entries {
      var f := n.fields[i];
      var item := entries[f.name];
      ConversionIsExact(cfg, f.node, item, dir, depth, m);
      if Acceptable(cfg.limits, f.node, item, dir, depth, m) {
        var image, c := Image(f.node, item, dir), CostOf(f.node, item, dir);
        FieldConversionsAreExact(cfg, n, entries, dir, depth, i + 1, done[f.name := image], Charge(m, c));
        if FieldsTyped(n, entries, dir, i + 1) {
          ChargingTwice(m, c, FieldsCost(n, entries, dir, i + 1));
        }
      }
    }
  }
}
