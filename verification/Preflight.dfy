/** `accepts` and `checkArguments`: the preflight walk against the real conversion. */
module Preflight {
  import opened Semantics
  import opened Planning
  import opened Conversion
  import opened Emitted

  /** What the preflight pays of a full cost: every visit, but bytes for handles only. */
  function HandleCost(c: Cost): Cost {
    Cost(c.visits, |c.leaves| * POINTER_SIZE, |c.leaves|, [])
  }

  predicate Passes(l: Limits, n: Node, v: Value, depth: int, m: Meter) {
    Typed(n, v, Input) && Fits(l, n, v, Input, depth) && Affordable(l, m, HandleCost(CostOf(n, v, Input)))
  }

  ghost predicate Foretold(l: Limits, n: Node, v: Value, depth: int, m: Meter, r: Outcome<()>) {
    if Passes(l, n, v, depth, m) then r == Done((), Charge(m, HandleCost(CostOf(n, v, Input)))) else r.Raised?
  }

  lemma HandleCosts(m: Meter, a: Cost, b: Cost)
    ensures HandleCost(Plus(a, b)) == Plus(HandleCost(a), HandleCost(b))
    ensures Charge(Charge(m, HandleCost(a)), HandleCost(b)) == Charge(m, HandleCost(Plus(a, b)))
  {
    ChargingTwice(m, HandleCost(a), HandleCost(b));
  }

  /** Exact preflight: it accepts if and only if the value is typed, fits every limit, and
      its visits and handles are affordable. */
  lemma {:induction false} ValidationIsExact(cfg: Config, table: Table, t: SemanticType, active: seq<string>, n: Node,
                                             v: Value, depth: int, m: Meter)
    requires cfg.failAfter.None? && ValidLimits(cfg.limits) && InBudget(cfg.limits, m)
    requires Unfolds(table, t, active, n)
    ensures Foretold(cfg.limits, n, v, depth, m, ValidateJs(cfg, table, t, v, depth, m))
    decreases n, 3
  {
    NothingIsTypedByAHole(n, Input);
    VisitStep(cfg, depth, m);
    ChargingNothing(m);
    if Visit(cfg, depth, m).Done? {
      AfterVisit(cfg, table, t, v, depth, m);
    }
    if Visit(cfg, depth, m).Done? && !v.Undefined? && !v.Null? {
      if t.NullableOf? {
        NullableValidationIsExact(cfg, table, t, active, n, v, depth, m);
      } else if t.ArrayOf? {
        ArrayValidationIsExact(cfg, table, t, active, n, v, depth, m);
      } else if t.ValueRef? {
        RecordValidationIsExact(cfg, table, t, active, n, v, depth, m);
      } else if t.ObjectRef? {
        ObjectValidationIsExact(cfg, table, t, active, n, v, depth, m);
      } else if t.EnumRef? {
        EnumValidationIsExact(cfg, table, t, active, n, v, depth, m);
      } else if t.ScalarType? {
        ScalarValidationIsExact(cfg, table, t, active, n, v, depth, m);
      }
    }
  }

  lemma ObjectValidationIsExact(cfg: Config, table: Table, t: SemanticType, active: seq<string>, n: Node, v: Value,
                                depth: int, m: Meter)
    requires cfg.failAfter.None? && ValidLimits(cfg.limits) && InBudget(cfg.limits, m)
    requires Unfolds(table, t, active, n) && !v.Undefined? && !v.Null?
    requires depth <= cfg.limits.maxDepth && m.visited + 1 <= cfg.limits.maxVisitedNodes
    requires t.ObjectRef?
    ensures Foretold(cfg.limits, n, v, depth, m, ValidateJs(cfg, table, t, v, depth, m))
  {
    VisitStep(cfg, depth, m);
    AfterVisit(cfg, table, t, v, depth, m);
    ReserveStep(cfg, POINTER_SIZE, m.(visited := m.visited + 1));
    assert m.retained + [] == m.retained;
  }

  lemma EnumValidationIsExact(cfg: Config, table: Table, t: SemanticType, active: seq<string>, n: Node, v: Value,
                              depth: int, m: Meter)
    requires cfg.failAfter.None? && ValidLimits(cfg.limits) && InBudget(cfg.limits, m)
    requires Unfolds(table, t, active, n) && !v.Undefined? && !v.Null?
    requires depth <= cfg.limits.maxDepth && m.visited + 1 <= cfg.limits.maxVisitedNodes
    requires t.EnumRef?
    ensures Foretold(cfg.limits, n, v, depth, m, ValidateJs(cfg, table, t, v, depth, m))
  {
    VisitStep(cfg, depth, m);
    AfterVisit(cfg, table, t, v, depth, m);
    ChargingNothing(m);
  }

  /** The scalar checks accept what is typed and, for text and buffers, within its limit. */
  predicate ScalarPasses(l: Limits, scalar: ScalarKind, v: Value) {
    && ScalarTyped(scalar, v, Input)
    && (scalar.StringKind? ==> Utf8Length(v.s) <= l.maxStringBytes)
    && (scalar.BytesKind? ==> |RawBytes(v)| <= l.maxByteBufferBytes)
  }

  lemma NumbersValidate(cfg: Config, scalar: ScalarKind, v: Value, m: Meter)
    requires !scalar.StringKind? && !scalar.BytesKind?
    ensures if ScalarPasses(cfg.limits, scalar, v) then ValidateScalar(cfg, scalar, v, m) == Done((), m)
      else ValidateScalar(cfg, scalar, v, m).Raised?
  {
    if scalar.Int32Kind? && v.Integer? {
      IntegerToDouble(v.i);
    }
  }

  lemma TextValidates(cfg: Config, scalar: ScalarKind, v: Value, m: Meter)
    requires scalar.StringKind? || scalar.BytesKind?
    ensures if ScalarPasses(cfg.limits, scalar, v) then ValidateScalar(cfg, scalar, v, m) == Done((), m)
      else ValidateScalar(cfg, scalar, v, m).Raised?
  {
  }

  lemma ScalarValidationIsExact(cfg: Config, table: Table, t: SemanticType, active: seq<string>, n: Node, v: Value,
                                depth: int, m: Meter)
    requires cfg.failAfter.None? && ValidLimits(cfg.limits) && InBudget(cfg.limits, m)
    requires Unfolds(table, t, active, n) && !v.Undefined? && !v.Null?
    requires depth <= cfg.limits.maxDepth && m.visited + 1 <= cfg.limits.maxVisitedNodes
    requires t.ScalarType?
    ensures Foretold(cfg.limits, n, v, depth, m, ValidateJs(cfg, table, t, v, depth, m))
  {
    VisitStep(cfg, depth, m);
    AfterVisit(cfg, table, t, v, depth, m);
    ChargingNothing(m);
    if t.scalar.StringKind? || t.scalar.BytesKind? {
      TextValidates(cfg, t.scalar, v, m.(visited := m.visited + 1));
    } else {
      NumbersValidate(cfg, t.scalar, v, m.(visited := m.visited + 1));
    }
  }

  lemma {:induction false} NullableValidationIsExact(cfg: Config, table: Table, t: SemanticType, active: seq<string>,
                                                     n: Node,
                                  v: Value, depth: int, m: Meter)
    requires cfg.failAfter.None? && ValidLimits(cfg.limits) && InBudget(cfg.limits, m)
    requires Unfolds(table, t, active, n) && !v.Undefined? && !v.Null?
    requires depth <= cfg.limits.maxDepth && m.visited + 1 <= cfg.limits.maxVisitedNodes
    requires t.NullableOf?
    ensures Foretold(cfg.limits, n, v, depth, m, ValidateJs(cfg, table, t, v, depth, m))
    decreases n, 2
  {
    VisitStep(cfg, depth, m);
    AfterVisit(cfg, table, t, v, depth, m);
    ChargingNothing(m);
    ValidationIsExact(cfg, table, t.element, active, n.element, v, depth + 1, Charge(m, ONE_VISIT));
    if Typed(n.element, v, Input) {
      HandleCosts(m, ONE_VISIT, CostOf(n.element, v, Input));
    }
  }

  lemma {:induction false} ArrayValidationIsExact(cfg: Config, table: Table, t: SemanticType, active: seq<string>,
                                                  n: Node,
                                  v: Value, depth: int, m: Meter)
    requires cfg.failAfter.None? && ValidLimits(cfg.limits) && InBudget(cfg.limits, m)
    requires Unfolds(table, t, active, n) && !v.Undefined? && !v.Null?
    requires depth <= cfg.limits.maxDepth && m.visited + 1 <= cfg.limits.maxVisitedNodes
    requires t.ArrayOf?
    ensures Foretold(cfg.limits, n, v, depth, m, ValidateJs(cfg, table, t, v, depth, m))
    decreases n, 2
  {
    VisitStep(cfg, depth, m);
    AfterVisit(cfg, table, t, v, depth, m);
    ChargingNothing(m);
    if v.List? {
      var own := Cost(1, 24 + |v.items| * POINTER_SIZE, 1, []);
      ItemValidationsAreExact(cfg, table, t.element, active, n.element, v.items, depth + 1, 0, Charge(m, ONE_VISIT));
      if ItemsTyped(n.element, v.items, Input, 0) {
        HandleCosts(m, own, ItemsCost(n.element, v.items, Input, 0));
      }
    }
  }

  lemma {:induction false} RecordValidationIsExact(cfg: Config, table: Table, t: SemanticType, active: seq<string>,
                                                   n: Node,
                                  v: Value, depth: int, m: Meter)
    requires cfg.failAfter.None? && ValidLimits(cfg.limits) && InBudget(cfg.limits, m)
    requires Unfolds(table, t, active, n) && !v.Undefined? && !v.Null?
    requires depth <= cfg.limits.maxDepth && m.visited + 1 <= cfg.limits.maxVisitedNodes
    requires t.ValueRef?
    ensures Foretold(cfg.limits, n, v, depth, m, ValidateJs(cfg, table, t, v, depth, m))
    decreases n, 2
  {
    VisitStep(cfg, depth, m);
    AfterVisit(cfg, table, t, v, depth, m);
    ChargingNothing(m);
    if v.Mapping? {
      var own := Cost(1, 32 + |n.fields| * 16, 1, []);
      FieldValidationsAreExact(cfg, table, t, active, n, v.entries, depth + 1, 0, Charge(m, ONE_VISIT));
      if FieldsTyped(n, v.entries, Input, 0) {
        HandleCosts(m, own, FieldsCost(n, v.entries, Input, 0));
      }
    }
  }

  predicate ItemsPass(l: Limits, element: Node, items: seq<Value>, depth: int, i: nat, m: Meter)
    requires i <= |items|
  {
    && ItemsTyped(element, items, Input, i)
    && ItemsFit(l, element, items, Input, depth, i)
    && Affordable(l, m, HandleCost(ItemsCost(element, items, Input, i)))
  }

  ghost predicate ItemsForetold(l: Limits, element: Node, items: seq<Value>, depth: int, i: nat, m: Meter,
                                r: Outcome<()>)
    requires i <= |items|
  {
    if ItemsPass(l, element, items, depth, i, m)
    then r == Done((), Charge(m, HandleCost(ItemsCost(element, items, Input, i))))
    else r.Raised?
  }

  lemma {:induction false} ItemValidationsAreExact(cfg: Config, table: Table, element: SemanticType,
                                                   active: seq<string>, n: Node,
                                                   items: seq<Value>, depth: int, i: nat, m: Meter)
    requires cfg.failAfter.None? && ValidLimits(cfg.limits) && InBudget(cfg.limits, m)
    requires Unfolds(table, element, active, n) && i <= |items|
    ensures ItemsForetold(cfg.limits, n, items, depth, i, m, ValidateItems(cfg, table, element, items, depth, i, m))
    decreases n, 4, |items| - i
  {
    if i == |items| {
      ChargingNothing(m);
    } else if items[i].ArrayHole? {
      NothingIsTypedByAHole(n, Input);
    } else {
      ValidationIsExact(cfg, table, element, active, n, items[i], depth, m);
      if Passes(cfg.limits, n, items[i], depth, m) {
        var c := CostOf(n, items[i], Input);
        ItemValidationsAreExact(cfg, table, element, active, n, items, depth, i + 1, Charge(m, HandleCost(c)));
        if ItemsTyped(n, items, Input, i + 1) {
          HandleCosts(m, c, ItemsCost(n, items, Input, i + 1));
        }
      }
    }
  }

  predicate FieldsPass(l: Limits, n: Node, entries: map<string, Value>, depth: int, i: nat, m: Meter)
    requires n.ValueNode? && i <= |n.fields|
  {
    && FieldsTyped(n, entries, Input, i)
    && FieldsFit(l, n, entries, Input, depth, i)
    && Affordable(l, m, HandleCost(FieldsCost(n, entries, Input, i)))
  }

  ghost predicate FieldsForetold(l: Limits, n: Node, entries: map<string, Value>, depth: int, i: nat, m: Meter,
                                 r: Outcome<()>)
    requires n.ValueNode? && i <= |n.fields|
  {
    if FieldsPass(l, n, entries, depth, i, m)
    then r == Done((), Charge(m, HandleCost(FieldsCost(n, entries, Input, i))))
    else r.Raised?
  }

  lemma {:induction false} FieldValidationsAreExact(cfg: Config, table: Table, t: SemanticType, active: seq<string>,
                                                    n: Node,
                                                    entries: map<string, Value>, depth: int, i: nat, m: Meter)
    requires cfg.failAfter.None? && ValidLimits(cfg.limits) && InBudget(cfg.limits, m)
    requires Unfolds(table, t, active, n) && t.ValueRef? && i <= |n.fields|
    ensures FieldsForetold(cfg.limits, n, entries, depth, i, m,
                           ValidateFields(cfg, table, table[t.id].fields, entries, depth, i, m))
    decreases n, 1, |n.fields| - i
  {
    if i == |n.fields| {
      ChargingNothing(m);
    } else {
      var f := n.fields[i];
      PlannedFieldAt(table[t.id].fields, 0, table, active + [t.id], i);
      if f.name in entries {
        ValidationIsExact(cfg, table, table[t.id].fields[i].typ, active + [t.id], f.node, entries[f.name], depth, m);
        if Passes(cfg.limits, f.node, entries[f.name], depth, m) {
          var c := CostOf(f.node, entries[f.name], Input);
          FieldValidationsAreExact(cfg, table, t, active, n, entries, depth, i + 1, Charge(m, HandleCost(c)));
          if FieldsTyped(n, entries, Input, i + 1) {
            HandleCosts(m, c, FieldsCost(n, entries, Input, i + 1));
          }
        }
      }
    }
  }

  // ------------------------------------------------------------------ the preflight law

  lemma {:induction false} HandlesAreCharged(n: Node, v: Value, dir: Direction)
    requires Typed(n, v, dir)
    ensures CostOf(n, v, dir).bytes >= |CostOf(n, v, dir).leaves| * POINTER_SIZE
    decreases n, 3
  {
    if n.NullableNode? {
      if !v.Null? { HandlesAreCharged(n.element, v, dir); }
    } else if n.ArrayNode? {
      ItemHandlesAreCharged(n.element, v.items, dir, 0);
    } else if n.ValueNode? {
      FieldHandlesAreCharged(n, v.entries, dir, 0);
    }
  }

  lemma {:induction false} ItemHandlesAreCharged(element: Node, items: seq<Value>, dir: Direction, i: nat)
    requires i <= |items| && ItemsTyped(element, items, dir, i)
    ensures ItemsCost(element, items, dir, i).bytes >= |ItemsCost(element, items, dir, i).leaves| * POINTER_SIZE
    decreases element, 4, |items| - i
  {
    if i < |items| {
      HandlesAreCharged(element, items[i], dir);
      ItemHandlesAreCharged(element, items, dir, i + 1);
    }
  }

  lemma {:induction false} FieldHandlesAreCharged(n: Node, entries: map<string, Value>, dir: Direction, i: nat)
    requires n.ValueNode? && i <= |n.fields| && FieldsTyped(n, entries, dir, i)
    ensures FieldsCost(n, entries, dir, i).bytes >= |FieldsCost(n, entries, dir, i).leaves| * POINTER_SIZE
    decreases n, 1, |n.fields| - i
  {
    if i < |n.fields| {
      HandlesAreCharged(n.fields[i].node, entries[n.fields[i].name], dir);
      FieldHandlesAreCharged(n, entries, dir, i + 1);
    }
  }

  /** `accepts`: one preflight budget over the whole argument list. */
  function ValidateArguments(cfg: Config, table: Table, params: seq<SemanticType>, arguments: seq<Value>, i: nat,
                             m: Meter)
    : Outcome<()>
    requires i <= |params| == |arguments|
    decreases |params| - i
  {
    if i == |params| then Done((), m)
    else
      var (_, m1) :- ValidateJs(cfg, table, params[i], arguments[i], 1, m);
      ValidateArguments(cfg, table, params, arguments, i + 1, m1)
  }

  /** The real call: one conversion budget over the whole argument list. */
  function ArgumentsFromJs(cfg: Config, table: Table, params: seq<SemanticType>, arguments: seq<Value>, i: nat,
                           done: seq<Value>, m: Meter): Outcome<seq<Value>>
    requires i <= |params| == |arguments|
    decreases |params| - i
  {
    if i == |params| then Done(done, m)
    else
      var (value, m1) :- FromJs(cfg, table, params[i], arguments[i], 1, m);
      ArgumentsFromJs(cfg, table, params, arguments, i + 1, done + [value], m1)
  }

  /** The bytes the real call needs for arguments the preflight accepts. */
  function FullBytes(table: Table, params: seq<SemanticType>, arguments: seq<Value>, i: nat): nat
    requires i <= |params| == |arguments|
    decreases |params| - i
  {
    if i == |params| then 0
    else
      var plan := PlanType(params[i], table, []);
      FullBytes(table, params, arguments, i + 1)
      + (if plan.Planned? && Typed(plan.node, arguments[i], Input)
        then CostOf(plan.node, arguments[i], Input).bytes else 0)
  }

  /** Two meters of the same call, one behind the preflight's savings. */
  predicate Ahead(spent: Meter, checked: Meter) {
    spent.visited == checked.visited && checked.bytes <= spent.bytes
  }

  /** The preflight agrees with the call, for any argument list: the call succeeds if and
      only if the preflight does and the full byte cost is within the limit; the preflight
      then counted the same visits and no more bytes. */
  lemma {:induction false} PreflightAgrees(cfg: Config, table: Table, params: seq<SemanticType>, arguments: seq<Value>,
                                           i: nat,
                                           done: seq<Value>, spent: Meter, checked: Meter)
    requires cfg.failAfter.None? && ValidLimits(cfg.limits)
    requires forall k :: 0 <= k < |arguments| ==> Sized(cfg.limits, arguments[k])
    requires InBudget(cfg.limits, spent) && InBudget(cfg.limits, checked) && Ahead(spent, checked)
    requires i <= |params| == |arguments|
    requires forall k :: 0 <= k < |params| ==> PlanType(params[k], table, []).Planned?
    ensures var call := ArgumentsFromJs(cfg, table, params, arguments, i, done, spent);
      var check := ValidateArguments(cfg, table, params, arguments, i, checked);
      && (call.Done? <==>
            check.Done? && spent.bytes + FullBytes(table, params, arguments, i) <= cfg.limits.maxTemporaryBytes)
      && (call.Done? ==> Ahead(call.meter, check.meter)
                         && call.meter.bytes == spent.bytes + FullBytes(table, params, arguments, i))
    decreases |params| - i
  {
    if i < |params| {
      var n, v := PlanType(params[i], table, []).node, arguments[i];
      OneArgument(cfg, table, params[i], n, v, spent, checked);
      var check := ValidateJs(cfg, table, params[i], v, 1, checked);
      var call := FromJs(cfg, table, params[i], v, 1, spent);
      if call.Done? {
        PreflightAgrees(cfg, table, params, arguments, i + 1, done + [call.value], call.meter, check.meter);
      }
    }
  }

  lemma OneArgument(cfg: Config, table: Table, t: SemanticType, n: Node, v: Value, spent: Meter, checked: Meter)
    requires cfg.failAfter.None? && ValidLimits(cfg.limits) && Sized(cfg.limits, v)
    requires InBudget(cfg.limits, spent) && InBudget(cfg.limits, checked) && Ahead(spent, checked)
    requires PlanType(t, table, []) == Planned(n)
    ensures var call := FromJs(cfg, table, t, v, 1, spent);
      var check := ValidateJs(cfg, table, t, v, 1, checked);
      && (check.Done? ==> Typed(n, v, Input))
      && (call.Done? <==> check.Done? && spent.bytes + CostOf(n, v, Input).bytes <= cfg.limits.maxTemporaryBytes)
      && (call.Done? ==> Ahead(call.meter, check.meter) && call.meter.bytes == spent.bytes + CostOf(n, v, Input).bytes
                         && InBudget(cfg.limits, call.meter) && InBudget(cfg.limits, check.meter))
  {
    UnfoldingPreservesMeaning(cfg, table, t, [], n, v, 1, spent);
    ConversionIsExact(cfg, n, v, Input, 1, spent);
    ValidationIsExact(cfg, table, t, [], n, v, 1, checked);
    if Typed(n, v, Input) {
      HandlesAreCharged(n, v, Input);
    }
  }
}
