/** When the preflight alone decides a call: under the limits the generated code ships with, whenever
    no argument type can hold text. */
module PreflightLimits {
  import opened Wrappers
  import opened Semantics
  import opened Planning
  import opened Conversion
  import opened Emitted
  import opened Preflight

  /** The limits every generated kernel is rendered with. */
  const SHIPPED_LIMITS := Limits(32, 65536, 262144, 8388608, 33554432, 67108864)

  /** A plan without strings, byte buffers and enums. */
  predicate Textless(n: Node)
    decreases n, 1
  {
    match n
    case ScalarNode(scalar) => !scalar.StringKind? && !scalar.BytesKind?
    case EnumNode(_, _, _) => false
    case NullableNode(element) => Textless(element)
    case ArrayNode(element) => Textless(element)
    case ValueNode(_, _, _) => FieldsTextless(n, 0)
    case ObjectNode(_, _) => true
    case VoidNode => true
  }

  predicate FieldsTextless(n: Node, i: nat)
    requires n.ValueNode? && i <= |n.fields|
    decreases n, 0, |n.fields| - i
  {
    i == |n.fields| || (Textless(n.fields[i].node) && FieldsTextless(n, i + 1))
  }

  /** The most bytes one visit of a textless plan can account for. */
  const VISIT_BYTES := 48

  /** Values of textless plans cost at most 48 bytes a visit: an array element pays for its slot, and
      every node leaves 16 bytes to spare for the field that holds it. */
  lemma {:induction false} BytesAreVisited(n: Node, v: Value, dir: Direction)
    requires Textless(n) && Typed(n, v, dir)
    ensures CostOf(n, v, dir).bytes + 16 <= VISIT_BYTES * CostOf(n, v, dir).visits
    decreases n, 3
  {
    if n.NullableNode? {
      if !v.Null? { BytesAreVisited(n.element, v, dir); }
    } else if n.ArrayNode? {
      ItemBytesAreVisited(n.element, v.items, dir, 0);
    } else if n.ValueNode? {
      FieldBytesAreVisited(n, v.entries, dir, 0);
    }
  }

  lemma {:induction false} ItemBytesAreVisited(element: Node, items: seq<Value>, dir: Direction, i: nat)
    requires Textless(element) && i <= |items| && ItemsTyped(element, items, dir, i)
    ensures var c := ItemsCost(element, items, dir, i); c.bytes + 16 * (|items| - i) <= VISIT_BYTES * c.visits
    decreases element, 4, |items| - i
  {
    if i < |items| {
      BytesAreVisited(element, items[i], dir);
      ItemBytesAreVisited(element, items, dir, i + 1);
    }
  }

  lemma {:induction false} FieldBytesAreVisited(n: Node, entries: map<string, Value>, dir: Direction, i: nat)
    requires n.ValueNode? && i <= |n.fields| && FieldsTextless(n, i) && FieldsTyped(n, entries, dir, i)
    ensures var c := FieldsCost(n, entries, dir, i); c.bytes + 16 * (|n.fields| - i) <= VISIT_BYTES * c.visits
    decreases n, 1, |n.fields| - i
  {
    if i < |n.fields| {
      BytesAreVisited(n.fields[i].node, entries[n.fields[i].name], dir);
      FieldBytesAreVisited(n, entries, dir, i + 1);
    }
  }

  predicate AllTextless(table: Table, params: seq<SemanticType>) {
    forall k :: 0 <= k < |params| ==>
      PlanType(params[k], table, []).Planned? && Textless(PlanType(params[k], table, []).node)
  }

  /** An accepted argument list of textless types needs at most 48 bytes for each visit checked. */
  lemma {:induction false} FullBytesAreVisited(cfg: Config, table: Table, params: seq<SemanticType>,
                                               arguments: seq<Value>, i: nat, m: Meter)
    requires cfg.failAfter.None? && ValidLimits(cfg.limits) && InBudget(cfg.limits, m)
    requires i <= |params| == |arguments| && AllTextless(table, params)
    ensures var check := ValidateArguments(cfg, table, params, arguments, i, m);
      check.Done? ==>
        && FullBytes(table, params, arguments, i) <= VISIT_BYTES * (check.meter.visited - m.visited)
        && check.meter.visited <= cfg.limits.maxVisitedNodes
    decreases |params| - i
  {
    if i < |params| {
      var n := PlanType(params[i], table, []).node;
      ValidationIsExact(cfg, table, params[i], [], n, arguments[i], 1, m);
      if Passes(cfg.limits, n, arguments[i], 1, m) {
        var c := CostOf(n, arguments[i], Input);
        BytesAreVisited(n, arguments[i], Input);
        FullBytesAreVisited(cfg, table, params, arguments, i + 1, Charge(m, HandleCost(c)));
      }
    }
  }

  /** For textless parameters the preflight is exact: under any limits that allow 48 bytes a visit it
      accepts precisely the argument lists the call accepts. */
  lemma TextlessPreflightDecides(cfg: Config, table: Table, params: seq<SemanticType>, arguments: seq<Value>)
    requires cfg.failAfter.None? && ValidLimits(cfg.limits)
    requires VISIT_BYTES * cfg.limits.maxVisitedNodes <= cfg.limits.maxTemporaryBytes
    requires |params| == |arguments| && AllTextless(table, params)
    requires forall k :: 0 <= k < |arguments| ==> Sized(cfg.limits, arguments[k])
    ensures ArgumentsFromJs(cfg, table, params, arguments, 0, [], FRESH).Done? <==>
      ValidateArguments(cfg, table, params, arguments, 0, FRESH).Done?
  {
    PreflightAgrees(cfg, table, params, arguments, 0, [], FRESH, FRESH);
    FullBytesAreVisited(cfg, table, params, arguments, 0, FRESH);
  }

  /** The shipped limits allow that. */
  lemma ShippedPreflightDecides(table: Table, params: seq<SemanticType>, arguments: seq<Value>)
    requires |params| == |arguments| && AllTextless(table, params)
    requires forall k :: 0 <= k < |arguments| ==> Sized(SHIPPED_LIMITS, arguments[k])
    ensures var cfg := Config(SHIPPED_LIMITS, None);
      ArgumentsFromJs(cfg, table, params, arguments, 0, [], FRESH).Done? <==>
        ValidateArguments(cfg, table, params, arguments, 0, FRESH).Done?
  {
    TextlessPreflightDecides(Config(SHIPPED_LIMITS, None), table, params, arguments);
  }

  // ------------------------------------------------------------- where text makes it fall short

  /** A buffer as large as one may be. */
  const FULL_BUFFER := Uint8Array(View(seq(33554432, _ => 0), 0, 33554432))

  lemma FullBufferCounts(m: Meter)
    requires InBudget(SHIPPED_LIMITS, m) && m.visited < 3
    ensures ValidateJs(Config(SHIPPED_LIMITS, None), map[], ScalarType(BytesKind), FULL_BUFFER, 1, m)
      == Done((), m.(visited := m.visited + 1))
    ensures Typed(ScalarNode(BytesKind), FULL_BUFFER, Input)
    ensures CostOf(ScalarNode(BytesKind), FULL_BUFFER, Input).bytes == 33554432
  {
    AfterVisit(Config(SHIPPED_LIMITS, None), map[], ScalarType(BytesKind), FULL_BUFFER, 1, m);
  }

  /** Text makes the difference under the shipped limits too: three buffers, each within its own
      limit, are accepted by the preflight and refused by the call. */
  lemma PreflightAloneIsNotEnough()
    ensures var cfg, t := Config(SHIPPED_LIMITS, None), ScalarType(BytesKind);
      && ValidateArguments(cfg, map[], [t, t, t], [FULL_BUFFER, FULL_BUFFER, FULL_BUFFER], 0, FRESH).Done?
      && ArgumentsFromJs(cfg, map[], [t, t, t], [FULL_BUFFER, FULL_BUFFER, FULL_BUFFER], 0, [], FRESH).Raised?
  {
    var cfg, t, v := Config(SHIPPED_LIMITS, None), ScalarType(BytesKind), FULL_BUFFER;
    var params, arguments := [t, t, t], [v, v, v];
    FullBufferCounts(FRESH);
    FullBufferCounts(FRESH.(visited := 1));
    FullBufferCounts(FRESH.(visited := 2));
    assert ValidateArguments(cfg, map[], params, arguments, 2, FRESH.(visited := 2)).Done?;
    assert ValidateArguments(cfg, map[], params, arguments, 1, FRESH.(visited := 1)).Done?;
    assert FullBytes(map[], params, arguments, 2) == 33554432;
    assert FullBytes(map[], params, arguments, 1) == 67108864;
    PreflightAgrees(cfg, map[], params, arguments, 0, [], FRESH, FRESH);
  }
}
