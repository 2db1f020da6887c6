/** The emitted output path: `to_js` makes the JavaScript value, `retain_native` keeps the
    object leaves alive in a separate pass over the native value. */
module EmittedOutput {
  import opened Semantics
  import opened Planning
  import opened Conversion
  import opened Emitted

  /** `to_js`. Natives are statically typed in C++, so a value of another shape stands for
      one no generated program can pass; it is refused here. */
  function ToJs(cfg: Config, table: Table, t: SemanticType, v: Value, depth: int, m: Meter): Outcome<Value>
    decreases Levels(cfg, depth), 0
  {
    var (_, m1) :- Visit(cfg, depth, m);
    VisitedToJs(cfg, table, t, v, depth, m1)
  }

  function VisitedToJs(cfg: Config, table: Table, t: SemanticType, v: Value, depth: int, m: Meter): Outcome<Value>
    requires depth <= cfg.limits.maxDepth
    decreases Levels(cfg, depth), 0, 3
  {
    if t.NullableOf? then
      if v.Null? then Done(Null, m) else ToJs(cfg, table, t.element, v, depth + 1, m)
    else if t.ScalarType? then ScalarToJs(cfg, t.scalar, v, m)
    else if t.ArrayOf? then ArrayToJs(cfg, table, t.element, v, depth, m)
    else if t.VoidType? || t.id !in table then Raised(TypeFailure, m)
    else if t.EnumRef? && table[t.id].EnumDeclaration? then EnumToJs(cfg, table[t.id].constants, v, m)
    else if t.ObjectRef? && table[t.id].ObjectDeclaration? then ObjectToJs(cfg, t.id, v, m)
    else if t.ValueRef? && table[t.id].ValueDeclaration? then
      RecordToJs(cfg, table, table[t.id].fields, v, depth, m)
    else Raised(TypeFailure, m)
  }

  function EnumToJs(cfg: Config, constants: seq<string>, v: Value, m: Meter): Outcome<Value> {
    if !v.Str? || v.s !in constants then Raised(TypeFailure, m)
    else if Utf8Length(v.s) > cfg.limits.maxStringBytes then Raised(RangeFailure, m)
    else
      var (_, m1) :- Reserve(cfg, Utf8Length(v.s), m);
      Done(v, m1)
  }

  function ObjectToJs(cfg: Config, id: string, v: Value, m: Meter): Outcome<Value> {
    if !v.Native? || v.token.typeId != id then Raised(TypeFailure, m)
    else
      var (_, m1) :- Reserve(cfg, POINTER_SIZE, m);
      Done(v, m1)
  }

  function ArrayToJs(cfg: Config, table: Table, element: SemanticType, v: Value, depth: int, m: Meter): Outcome<Value>
    requires depth <= cfg.limits.maxDepth
    decreases Levels(cfg, depth), 0, 1
  {
    if !v.List? && !v.Tuple? then Raised(TypeFailure, m)
    else if |v.items| > cfg.limits.maxArrayLength then Raised(RangeFailure, m)
    else
      var (_, m1) :- Reserve(cfg, ArrayBytes(|v.items|), m);
      var (items, m2) :- ItemsToJs(cfg, table, element, v.items, depth + 1, 0, [], m1);
      Done(List(items), m2)
  }

  function RecordToJs(cfg: Config, table: Table, fields: seq<FieldDeclaration>, v: Value, depth: int,
                      m: Meter): Outcome<Value>
    requires depth <= cfg.limits.maxDepth
    decreases Levels(cfg, depth), 0, 1
  {
    if !v.Mapping? then Raised(TypeFailure, m)
    else
      var (_, m1) :- Reserve(cfg, 32 + |fields| * 16, m);
      var (entries, m2) :- FieldsToJs(cfg, table, fields, v.entries, depth + 1, 0, map[], m1);
      Done(Mapping(entries), m2)
  }

  /** What is left of an output call once its visit is paid for. */
  lemma AfterOutputVisit(cfg: Config, table: Table, t: SemanticType, v: Value, depth: int, m: Meter)
    ensures var visited := Visit(cfg, depth, m);
      ToJs(cfg, table, t, v, depth, m) ==
      if visited.Done? then VisitedToJs(cfg, table, t, v, depth, visited.meter)
        else Raised(visited.error, visited.meter)
  {
  }

  function ItemsToJs(cfg: Config, table: Table, element: SemanticType, items: seq<Value>, depth: int,
                     i: nat, done: seq<Value>, m: Meter): Outcome<seq<Value>>
    requires i <= |items|
    decreases Levels(cfg, depth), 1, |items| - i
  {
    if i == |items| then Done(done, m)
    else
      var (item, m1) :- ToJs(cfg, table, element, items[i], depth, m);
      ItemsToJs(cfg, table, element, items, depth, i + 1, done + [item], m1)
  }

  function FieldsToJs(cfg: Config, table: Table, fields: seq<FieldDeclaration>, entries: map<string, Value>, depth: int,
                      i: nat, done: map<string, Value>, m: Meter): Outcome<map<string, Value>>
    requires i <= |fields|
    decreases Levels(cfg, depth), 1, |fields| - i
  {
    if i == |fields| then Done(done, m)
    else if fields[i].name !in entries then Raised(TypeFailure, m)
    else
      var (item, m1) :- ToJs(cfg, table, fields[i].typ, entries[fields[i].name], depth, m);
      FieldsToJs(cfg, table, fields, entries, depth, i + 1, done[fields[i].name := item], m1)
  }

  function ScalarToJs(cfg: Config, scalar: ScalarKind, v: Value, m: Meter): Outcome<Value> {
    if !ScalarTyped(scalar, v, Output) then Raised(TypeFailure, m)
    else if scalar.StringKind? then
      if Utf8Length(v.s) > cfg.limits.maxStringBytes then Raised(RangeFailure, m)
      else
        var (_, m1) :- Reserve(cfg, Utf8Length(v.s), m);
        Done(v, m1)
    else if scalar.BytesKind? then
      if |v.bytes| > cfg.limits.maxByteBufferBytes then Raised(RangeFailure, m)
      else
        var (_, m1) :- Reserve(cfg, |v.bytes|, m);
        Done(Uint8Array(WholeView(v.bytes)), m1)
    else Done(ScalarImage(scalar, v, Output), m)
  }

  /** `retain_native`: no budget and no depth check, so it recurses on the native value. */
  function RetainNative(table: Table, t: SemanticType, v: Value, retained: seq<Token>): seq<Token>
    decreases v, t
  {
    if t.ObjectRef? then if v.Native? then retained + [v.token] else retained
    else if t.ArrayOf? then if v.List? || v.Tuple? then RetainItems(table, t, v, 0, retained) else retained
    else if t.NullableOf? then if v.Null? then retained else RetainNative(table, t.element, v, retained)
    else if t.ValueRef? && t.id in table && table[t.id].ValueDeclaration? && v.Mapping? then
      RetainFields(table, t, v, 0, retained)
    else retained
  }

  function RetainItems(table: Table, t: SemanticType, v: Value, i: nat, retained: seq<Token>): seq<Token>
    requires t.ArrayOf? && (v.List? || v.Tuple?) && i <= |v.items|
    decreases v, t, |v.items| - i
  {
    if i == |v.items| then retained
    else RetainItems(table, t, v, i + 1, RetainNative(table, t.element, v.items[i], retained))
  }

  function RetainFields(table: Table, t: SemanticType, v: Value, i: nat, retained: seq<Token>): seq<Token>
    requires t.ValueRef? && t.id in table && table[t.id].ValueDeclaration? && v.Mapping?
    requires i <= |table[t.id].fields|
    decreases v, t, |table[t.id].fields| - i
  {
    var fields := table[t.id].fields;
    if i == |fields| then retained
    else if fields[i].name in v.entries then
      RetainFields(table, t, v, i + 1, RetainNative(table, fields[i].typ, v.entries[fields[i].name], retained))
    else RetainFields(table, t, v, i + 1, retained)
  }

  // ---------------------------------------------------------- against the unfolded plan

  /** b is a, except that it retained nothing on the way from m. */
  ghost predicate SameButRetained<T>(m: Meter, a: Outcome<T>, b: Outcome<T>) {
    && (a.Done? <==> b.Done?)
    && (a.Done? ==> b == Done(a.value, a.meter.(retained := m.retained)))
  }

  /** A meter that differs only in what it retained steps the same way. */
  ghost predicate Twins(a: Meter, b: Meter) {
    a.(retained := b.retained) == b
  }

  /** The output converter makes the value the plan makes, for the same budget. */
  lemma {:induction false} OutputAgrees(cfg: Config, table: Table, t: SemanticType, active: seq<string>, n: Node,
                                        v: Value, depth: int, m: Meter, m': Meter)
    requires Unfolds(table, t, active, n) && Sized(cfg.limits, v)
    requires Typed(n, v, Output) && !n.VoidNode? && WellFormed(n) && Twins(m, m')
    ensures SameButRetained(m', Convert(cfg, n, v, Output, depth, m), ToJs(cfg, table, t, v, depth, m'))
    decreases n, 3
  {
    NothingIsTypedByAHole(n, Output);
    AfterOutputVisit(cfg, table, t, v, depth, m');
    if Visit(cfg, depth, m).Done? {
      var m1, m1' := Visit(cfg, depth, m).meter, Visit(cfg, depth, m').meter;
      if t.NullableOf? {
        if !v.Null? {
          OutputAgrees(cfg, table, t.element, active, n.element, v, depth + 1, m1, m1');
        }
      } else if t.ScalarType? {
        ScalarOutputAgrees(cfg, t.scalar, v, m1, m1');
      } else if t.ArrayOf? {
        ArrayOutputAgrees(cfg, table, t, active, n, v, depth, m, m');
      } else if t.ValueRef? {
        RecordOutputAgrees(cfg, table, t, active, n, v, depth, m, m');
      }
    }
  }

  lemma ScalarOutputAgrees(cfg: Config, scalar: ScalarKind, v: Value, m: Meter, m': Meter)
    requires ScalarTyped(scalar, v, Output) && Twins(m, m')
    ensures SameButRetained(m', ConvertScalar(cfg, scalar, v, Output, m), ScalarToJs(cfg, scalar, v, m'))
  {
    if !scalar.StringKind? && !scalar.BytesKind? {
      PlainScalars(cfg, scalar, v, Output, m);
    }
  }

  lemma {:induction false} ArrayOutputAgrees(cfg: Config, table: Table, t: SemanticType, active: seq<string>, n: Node,
                                             v: Value, depth: int, m: Meter, m': Meter)
    requires Unfolds(table, t, active, n) && Sized(cfg.limits, v)
    requires Typed(n, v, Output) && t.ArrayOf? && WellFormed(n) && Twins(m, m') && Visit(cfg, depth, m).Done?
    ensures SameButRetained(m', Convert(cfg, n, v, Output, depth, m), ToJs(cfg, table, t, v, depth, m'))
    decreases n, 2
  {
    AfterOutputVisit(cfg, table, t, v, depth, m');
    assert VisitedToJs(cfg, table, t, v, depth, Visit(cfg, depth, m').meter)
        == ArrayToJs(cfg, table, t.element, v, depth, Visit(cfg, depth, m').meter);
    if |v.items| <= cfg.limits.maxArrayLength {
      assert ArrayBytes(|v.items|) == 24 + |v.items| * POINTER_SIZE;
      var r := Reserve(cfg, ArrayBytes(|v.items|), Visit(cfg, depth, m).meter);
      var r' := Reserve(cfg, ArrayBytes(|v.items|), Visit(cfg, depth, m').meter);
      if r.Done? {
        ItemOutputsAgree(cfg, table, t.element, active, n.element, v.items, depth + 1, 0, [], r.meter, r'.meter);
      }
    }
  }

  lemma {:induction false} ItemOutputsAgree(cfg: Config, table: Table, element: SemanticType, active: seq<string>,
                                            n: Node,
                                            items: seq<Value>, depth: int, i: nat, done: seq<Value>, m: Meter,
                                            m': Meter)
    requires Unfolds(table, element, active, n) && i <= |items|
    requires forall k :: 0 <= k < |items| ==> Sized(cfg.limits, items[k])
    requires ItemsTyped(n, items, Output, i) && !n.VoidNode? && WellFormed(n) && Twins(m, m')
    ensures SameButRetained(m', ConvertItems(cfg, n, items, Output, depth, i, done, m),
                            ItemsToJs(cfg, table, element, items, depth, i, done, m'))
    decreases n, 4, |items| - i
  {
    if i < |items| {
      NothingIsTypedByAHole(n, Output);
      OutputAgrees(cfg, table, element, active, n, items[i], depth, m, m');
      var r, r' := Convert(cfg, n, items[i], Output, depth, m), ToJs(cfg, table, element, items[i], depth, m');
      if r.Done? {
        ItemOutputsAgree(cfg, table, element, active, n, items, depth, i + 1, done + [r.value], r.meter, r'.meter);
      }
    }
  }

  lemma {:induction false} RecordOutputAgrees(cfg: Config, table: Table, t: SemanticType, active: seq<string>, n: Node,
                                              v: Value, depth: int, m: Meter, m': Meter)
    requires Unfolds(table, t, active, n) && Sized(cfg.limits, v)
    requires Typed(n, v, Output) && t.ValueRef? && WellFormed(n) && Twins(m, m') && Visit(cfg, depth, m).Done?
    ensures SameButRetained(m', Convert(cfg, n, v, Output, depth, m), ToJs(cfg, table, t, v, depth, m'))
    decreases n, 2
  {
    AfterOutputVisit(cfg, table, t, v, depth, m');
    assert VisitedToJs(cfg, table, t, v, depth, Visit(cfg, depth, m').meter)
        == RecordToJs(cfg, table, table[t.id].fields, v, depth, Visit(cfg, depth, m').meter);
    var r := Reserve(cfg, 32 + |n.fields| * 16, Visit(cfg, depth, m).meter);
    var r' := Reserve(cfg, 32 + |n.fields| * 16, Visit(cfg, depth, m').meter);
    if r.Done? {
      FieldOutputsAgree(cfg, table, t, active, n, v.entries, depth + 1, 0, map[], r.meter, r'.meter);
    }
  }

  lemma {:induction false} FieldOutputsAgree(cfg: Config, table: Table, t: SemanticType, active: seq<string>, n: Node,
                                             entries: map<string, Value>, depth: int, i: nat, done: map<string, Value>,
                                             m: Meter, m': Meter)
    requires Unfolds(table, t, active, n) && forall name :: name in entries ==> Sized(cfg.limits, entries[name])
    requires t.ValueRef? && i <= |n.fields| && FieldsTyped(n, entries, Output, i) && WellFormed(n) && Twins(m, m')
    ensures SameButRetained(m', ConvertFields(cfg, n, entries, Output, depth, i, done, m),
                            FieldsToJs(cfg, table, table[t.id].fields, entries, depth, i, done, m'))
    decreases n, 1, |n.fields| - i
  {
    if i < |n.fields| {
      var f, typ := n.fields[i], table[t.id].fields[i].typ;
      PlannedFieldAt(table[t.id].fields, 0, table, active + [t.id], i);
      OutputAgrees(cfg, table, typ, active + [t.id], f.node, entries[f.name], depth, m, m');
      var r := Convert(cfg, f.node, entries[f.name], Output, depth, m);
      var r' := ToJs(cfg, table, typ, entries[f.name], depth, m');
      if r.Done? {
        FieldOutputsAgree(cfg, table, t, active, n, entries, depth, i + 1, done[f.name := r.value], r.meter, r'.meter);
      }
    }
  }

  /** The separate retention pass keeps exactly the leaves the plan charges for, in order. */
  lemma {:induction false} RetentionAgrees(table: Table, t: SemanticType, active: seq<string>, n: Node,
                                           v: Value, retained: seq<Token>)
    requires Unfolds(table, t, active, n) && Typed(n, v, Output)
    ensures RetainNative(table, t, v, retained) == retained + CostOf(n, v, Output).leaves
    decreases n, 3
  {
    assert retained + [] == retained;
    if t.NullableOf? {
      if !v.Null? {
        RetentionAgrees(table, t.element, active, n.element, v, retained);
        assert [] + CostOf(n.element, v, Output).leaves == CostOf(n.element, v, Output).leaves;
      }
    } else if t.ArrayOf? {
      ItemRetentionAgrees(table, t, active, n, v, 0, retained);
      assert [] + ItemsCost(n.element, v.items, Output, 0).leaves == ItemsCost(n.element, v.items, Output, 0).leaves;
    } else if t.ValueRef? {
      FieldRetentionAgrees(table, t, active, n, v, 0, retained);
      assert [] + FieldsCost(n, v.entries, Output, 0).leaves == FieldsCost(n, v.entries, Output, 0).leaves;
    }
  }

  lemma {:induction false} ItemRetentionAgrees(table: Table, t: SemanticType, active: seq<string>, n: Node,
                                               v: Value, i: nat, retained: seq<Token>)
    requires Unfolds(table, t, active, n) && t.ArrayOf? && (v.List? || v.Tuple?)
    requires i <= |v.items| && ItemsTyped(n.element, v.items, Output, i)
    ensures RetainItems(table, t, v, i, retained) == retained + ItemsCost(n.element, v.items, Output, i).leaves
    decreases n, 2, |v.items| - i
  {
    if i < |v.items| {
      RetentionAgrees(table, t.element, active, n.element, v.items[i], retained);
      ItemRetentionAgrees(table, t, active, n, v, i + 1, RetainNative(table, t.element, v.items[i], retained));
    }
  }

  lemma {:induction false} FieldRetentionAgrees(table: Table, t: SemanticType, active: seq<string>, n: Node,
                                                v: Value, i: nat, retained: seq<Token>)
    requires Unfolds(table, t, active, n) && t.ValueRef? && v.Mapping?
    requires i <= |n.fields| && FieldsTyped(n, v.entries, Output, i)
    ensures RetainFields(table, t, v, i, retained) == retained + FieldsCost(n, v.entries, Output, i).leaves
    decreases n, 2, |n.fields| - i
  {
    if i < |n.fields| {
      var f := n.fields[i];
      PlannedFieldAt(table[t.id].fields, 0, table, active + [t.id], i);
      RetentionAgrees(table, table[t.id].fields[i].typ, active + [t.id], f.node, v.entries[f.name], retained);
      FieldRetentionAgrees(table, t, active, n, v, i + 1,
                           RetainNative(table, table[t.id].fields[i].typ, v.entries[f.name], retained));
    }
  }

  /** The two emitted output passes together do what one reference conversion does: the same
      acceptance, JavaScript value and counters from `to_js`, and from `retain_native` the
      same retained objects. */
  lemma OutputPassesRefineTheEngine(cfg: Config, table: Table, t: SemanticType, v: Value)
    requires cfg.failAfter.None? && ValidLimits(cfg.limits) && Sized(cfg.limits, v)
    requires ValidTable(table) && NoNestedVoid(t) && !t.VoidType?
    requires PlanType(t, table, []).Planned? && Typed(PlanType(t, table, []).node, v, Output)
    ensures var reference := Convert(cfg, PlanType(t, table, []).node, v, Output, 1, FRESH);
      var emitted := ToJs(cfg, table, t, v, 1, FRESH);
      && (reference.Done? <==> emitted.Done?)
      && (reference.Done? ==>
            reference == Done(emitted.value, emitted.meter.(retained := RetainNative(table, t, v, []))))
  {
    var n := PlanType(t, table, []).node;
    PlansAreWellFormed(t, table, []);
    OutputAgrees(cfg, table, t, [], n, v, 1, FRESH, FRESH);
    RetentionAgrees(table, t, [], n, v, []);
    ConversionIsExact(cfg, n, v, Output, 1, FRESH);
  }
}
