/** Why a conversion is refused: a value of the right shape only ever for a limit, another kind of value
    for its type, a list or record as its first failing part. */
module Refusals {
  import opened Semantics
  import opened Planning
  import opened Conversion
  import opened Preparation

  /** Done, or over some limit. */
  ghost predicate OnlyForRange<T>(r: Outcome<T>) {
    r.Raised? ==> r.error == RangeFailure
  }

  lemma ScalarRefusals(cfg: Config, scalar: ScalarKind, v: Value, dir: Direction, m: Meter)
    requires cfg.failAfter.None? && ScalarTyped(scalar, v, dir)
    ensures OnlyForRange(ConvertScalar(cfg, scalar, v, dir, m))
  {
    if !scalar.StringKind? && !scalar.BytesKind? {
      PlainScalars(cfg, scalar, v, dir, m);
    }
  }

  /** Without faults a typed value is refused only for a limit, never for its type. */
  lemma {:induction false} TypedValuesAreRefusedForRange(cfg: Config, n: Node, v: Value, dir: Direction, depth: int,
                                                         m: Meter)
    requires cfg.failAfter.None? && Typed(n, v, dir)
    ensures OnlyForRange(Convert(cfg, n, v, dir, depth, m))
    decreases n, 3
  {
    NothingIsTypedByAHole(n, dir);
    if Visit(cfg, depth, m).Done? && !v.Null? {
      var m1 := Visit(cfg, depth, m).meter;
      if n.ScalarNode? {
        ScalarRefusals(cfg, n.scalar, v, dir, m1);
      } else if n.NullableNode? {
        TypedValuesAreRefusedForRange(cfg, n.element, v, dir, depth + 1, m1);
      } else if n.ArrayNode? {
        ArrayRefusals(cfg, n, v, dir, depth, m1);
      } else if n.ValueNode? {
        RecordRefusals(cfg, n, v, dir, depth, m1);
      }
    } else if v.Null? {
      NullIsNoScalar(n, v, dir);
    }
  }

  lemma NullIsNoScalar(n: Node, v: Value, dir: Direction)
    requires Typed(n, v, dir) && v.Null?
    ensures n.VoidNode? || n.NullableNode?
  {
  }

  lemma {:induction false} ArrayRefusals(cfg: Config, n: Node, v: Value, dir: Direction, depth: int, m: Meter)
    requires cfg.failAfter.None? && n.ArrayNode? && Typed(n, v, dir)
    ensures OnlyForRange(ConvertPresent(cfg, n, v, dir, depth, m))
    decreases n, 2
  {
    var reserved := Reserve(cfg, 24 + |v.items| * POINTER_SIZE, m);
    if |v.items| <= cfg.limits.maxArrayLength && reserved.Done? {
      ItemRefusals(cfg, n.element, v.items, dir, depth + 1, 0, [], reserved.meter);
    }
  }

  lemma {:induction false} RecordRefusals(cfg: Config, n: Node, v: Value, dir: Direction, depth: int, m: Meter)
    requires cfg.failAfter.None? && n.ValueNode? && Typed(n, v, dir)
    ensures OnlyForRange(ConvertPresent(cfg, n, v, dir, depth, m))
    decreases n, 2
  {
    var reserved := Reserve(cfg, 32 + |n.fields| * 16, m);
    if reserved.Done? {
      FieldRefusals(cfg, n, v.entries, dir, depth + 1, 0, map[], reserved.meter);
    }
  }

  lemma {:induction false} ItemRefusals(cfg: Config, element: Node, items: seq<Value>, dir: Direction, depth: int,
                                        i: nat, done: seq<Value>, m: Meter)
    requires cfg.failAfter.None? && i <= |items| && ItemsTyped(element, items, dir, i)
    ensures OnlyForRange(ConvertItems(cfg, element, items, dir, depth, i, done, m))
    decreases element, 4, |items| - i
  {
    if i < |items| {
      NothingIsTypedByAHole(element, dir);
      TypedValuesAreRefusedForRange(cfg, element, items[i], dir, depth, m);
      var r := Convert(cfg, element, items[i], dir, depth, m);
      if r.Done? {
        ItemRefusals(cfg, element, items, dir, depth, i + 1, done + [r.value], r.meter);
      }
    }
  }

  lemma {:induction false} FieldRefusals(cfg: Config, n: Node, entries: map<string, Value>, dir: Direction, depth: int,
                                         i: nat, done: map<string, Value>, m: Meter)
    requires cfg.failAfter.None? && n.ValueNode? && i <= |n.fields| && FieldsTyped(n, entries, dir, i)
    ensures OnlyForRange(ConvertFields(cfg, n, entries, dir, depth, i, done, m))
    decreases n, 1, |n.fields| - i
  {
    if i < |n.fields| {
      var f := n.fields[i];
      TypedValuesAreRefusedForRange(cfg, f.node, entries[f.name], dir, depth, m);
      var r := Convert(cfg, f.node, entries[f.name], dir, depth, m);
      if r.Done? {
        FieldRefusals(cfg, n, entries, dir, depth, i + 1, done[f.name := r.value], r.meter);
      }
    }
  }

  // ------------------------------------------------------------------------ of another shape

  /** A value of another kind altogether than the plan's root is refused for its type, once its visit is
      paid: `undefined` and null anywhere but in a nullable included. */
  lemma StrangersAreRefusedForType(cfg: Config, n: Node, v: Value, depth: int, m: Meter)
    requires Visit(cfg, depth, m).Done?
    requires || v.Undefined? || (v.Null? && !n.NullableNode?)
             || (n.EnumNode? && !v.Str?) || (n.ArrayNode? && !v.List?) || (n.ValueNode? && !v.Mapping?)
             || (n.ObjectNode? && !v.Native?) || n.VoidNode?
             || (n.ScalarNode? && !ScalarKindOf(n.scalar, v))
    ensures var r := Convert(cfg, n, v, Input, depth, m);
      r.Raised? && r.error == TypeFailure && r.meter == Visit(cfg, depth, m).meter
  {
  }

  /** The JavaScript kind of value a scalar is read from. */
  predicate ScalarKindOf(scalar: ScalarKind, v: Value) {
    match scalar
    case BoolKind => v.Boolean?
    case Int32Kind => v.Integer? || v.Float?
    case Int64Kind => v.BigInt?
    case Float32Kind => v.Integer? || v.Float?
    case Float64Kind => v.Integer? || v.Float?
    case StringKind => v.Str?
    case BytesKind => v.Uint8Array?
  }

  // ------------------------------------------------------------------ where a failure comes from

  /** An item where it is read: a hole is refused for its type. */
  function ItemAt(cfg: Config, element: Node, item: Value, dir: Direction, depth: int, m: Meter): Outcome<Value> {
    if item.ArrayHole? then Raised(TypeFailure, m) else Convert(cfg, element, item, dir, depth, m)
  }

  /** A field where it is read: a missing one is refused for its type. */
  function FieldAt(cfg: Config, f: NodeField, entries: map<string, Value>, dir: Direction, depth: int, m: Meter)
    : Outcome<Value>
  {
    if f.name !in entries then Raised(TypeFailure, m) else Convert(cfg, f.node, entries[f.name], dir, depth, m)
  }

  /** The items up to k convert, leaving the meter at m1. */
  ghost predicate ItemsReach(cfg: Config, element: Node, items: seq<Value>, dir: Direction, depth: int, i: nat, k: nat,
                             m: Meter, m1: Meter)
    requires i <= k <= |items|
    decreases k - i
  {
    if i == k then m1 == m
    else
      var r := ItemAt(cfg, element, items[i], dir, depth, m);
      r.Done? && ItemsReach(cfg, element, items, dir, depth, i + 1, k, r.meter, m1)
  }

  /** A list fails as its first failing item does, at the meter the items before it leave. */
  lemma {:induction false} FirstFailingItem(cfg: Config, element: Node, items: seq<Value>, dir: Direction, depth: int,
                                            i: nat, k: nat, done: seq<Value>, m: Meter, m1: Meter)
    requires i <= k < |items| && ItemsReach(cfg, element, items, dir, depth, i, k, m, m1)
    requires ItemAt(cfg, element, items[k], dir, depth, m1).Raised?
    ensures var r, failed := ConvertItems(cfg, element, items, dir, depth, i, done, m),
                             ItemAt(cfg, element, items[k], dir, depth, m1);
      r == Raised(failed.error, failed.meter)
    decreases k - i
  {
    if i < k {
      var r := ItemAt(cfg, element, items[i], dir, depth, m);
      FirstFailingItem(cfg, element, items, dir, depth, i + 1, k, done + [r.value], r.meter, m1);
    }
  }

  /** The fields up to k convert, leaving the meter at m1. */
  ghost predicate FieldsReach(cfg: Config, fields: seq<NodeField>, entries: map<string, Value>, dir: Direction,
                              depth: int, i: nat, k: nat, m: Meter, m1: Meter)
    requires i <= k <= |fields|
    decreases k - i
  {
    if i == k then m1 == m
    else
      var r := FieldAt(cfg, fields[i], entries, dir, depth, m);
      r.Done? && FieldsReach(cfg, fields, entries, dir, depth, i + 1, k, r.meter, m1)
  }

  /** A record fails as its first failing field does, in the order of the declaration. */
  lemma {:induction false} FirstFailingField(cfg: Config, n: Node, entries: map<string, Value>, dir: Direction,
                                             depth: int, i: nat, k: nat, done: map<string, Value>, m: Meter, m1: Meter)
    requires n.ValueNode? && i <= k < |n.fields|
    requires FieldsReach(cfg, n.fields, entries, dir, depth, i, k, m, m1)
    requires FieldAt(cfg, n.fields[k], entries, dir, depth, m1).Raised?
    ensures var r, failed := ConvertFields(cfg, n, entries, dir, depth, i, done, m),
                             FieldAt(cfg, n.fields[k], entries, dir, depth, m1);
      r == Raised(failed.error, failed.meter)
    decreases k - i
  {
    if i < k {
      var f := n.fields[i];
      var r := FieldAt(cfg, f, entries, dir, depth, m);
      FirstFailingField(cfg, n, entries, dir, depth, i + 1, k, done[f.name := r.value], r.meter, m1);
    }
  }

  /** An argument list that is no sequence, or of the wrong length, is refused for its type and costs
      nothing. */
  lemma MisfitArgumentsAreRefused(cfg: Config, params: seq<Node>, arguments: Value, reservations: int)
    requires !(arguments.List? || arguments.Tuple?) || |arguments.items| != |params|
    ensures Prepare(cfg, params, arguments, reservations) == Raised(TypeFailure, Meter(0, 0, reservations, []))
  {
  }
}
