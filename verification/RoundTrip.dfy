/** Output conversion and input conversion undo each other, at the same price. */
module RoundTrip {
  import opened Semantics
  import opened Planning
  import opened Conversion

  function Flip(dir: Direction): Direction {
    if dir.Input? then Output else Input
  }

  predicate SameNumber(v: Value, w: Value) {
    (v.Integer? || v.Float?) && (w.Integer? || w.Float?) && ToDouble(v) == ToDouble(w)
  }

  predicate SameScalar(scalar: ScalarKind, v: Value, w: Value) {
    match scalar
    case BoolKind => v == w
    case Int64Kind => v == w
    case StringKind => v == w
    case BytesKind =>
      (v.Uint8Array? || v.Buffer?) && (w.Uint8Array? || w.Buffer?) && v.Buffer? == w.Buffer?
        && RawBytes(v) == RawBytes(w)
    case Int32Kind => SameNumber(v, w)
    case Float32Kind => SameNumber(v, w)
    case Float64Kind => SameNumber(v, w)
  }

  /** Equal for the purposes of plan n: numbers by their double, buffers by their visible
      bytes, lists and tuples by their items, mappings by the planned fields. */
  predicate Same(n: Node, v: Value, w: Value)
    decreases n, 3
  {
    match n
    case VoidNode => v == w
    case ScalarNode(scalar) => SameScalar(scalar, v, w)
    case EnumNode(_, _, _) => v == w
    case ObjectNode(_, _) => v == w
    case NullableNode(element) => if v.Null? || w.Null? then v == w else Same(element, v, w)
    case ArrayNode(element) =>
      (v.List? || v.Tuple?) && (w.List? || w.Tuple?) && |v.items| == |w.items|
        && SameItems(element, v.items, w.items, 0)
    case ValueNode(_, _, _) => v.Mapping? && w.Mapping? && SameFields(n, v.entries, w.entries, 0)
  }

  predicate SameItems(element: Node, v: seq<Value>, w: seq<Value>, i: nat)
    requires i <= |v| == |w|
    decreases element, 4, |v| - i
  {
    i == |v| || (Same(element, v[i], w[i]) && SameItems(element, v, w, i + 1))
  }

  predicate SameFields(n: Node, v: map<string, Value>, w: map<string, Value>, i: nat)
    requires n.ValueNode? && i <= |n.fields|
    decreases n, 1, |n.fields| - i
  {
    i == |n.fields| ||
    (n.fields[i].name in v && n.fields[i].name in w && Same(n.fields[i].node, v[n.fields[i].name], w[n.fields[i].name])
     && SameFields(n, v, w, i + 1))
  }

  /** w, the image of v, can be converted back to v for the same cost under any limits. */
  ghost predicate Returns(l: Limits, depth: int, n: Node, v: Value, dir: Direction, w: Value)
    requires Typed(n, v, dir)
  {
    && Typed(n, w, Flip(dir))
    && CostOf(n, w, Flip(dir)) == CostOf(n, v, dir)
    && (Fits(l, n, w, Flip(dir), depth) <==> Fits(l, n, v, dir, depth))
    && Same(n, v, Image(n, w, Flip(dir)))
  }

  lemma {:induction false} ItemImageAt(element: Node, items: seq<Value>, dir: Direction, i: nat, k: nat)
    requires i <= k < |items| && ItemsTyped(element, items, dir, i)
    ensures Typed(element, items[k], dir)
    ensures ItemImages(element, items, dir, i)[k - i] == Image(element, items[k], dir)
    decreases k - i
  {
    if i < k {
      ItemImageAt(element, items, dir, i + 1, k);
    }
  }

  /** With unique names no field image overwrites another. */
  lemma {:induction false} FieldImageAt(n: Node, entries: map<string, Value>, dir: Direction, i: nat,
                                        done: map<string, Value>, name: string)
    requires n.ValueNode? && WellFormed(n) && i <= |n.fields| && FieldsTyped(n, entries, dir, i)
    ensures var images := FieldImages(n, entries, dir, i, done);
      && (forall k :: i <= k < |n.fields| && n.fields[k].name == name ==>
            name in entries && Typed(n.fields[k].node, entries[name], dir)
            && name in images && images[name] == Image(n.fields[k].node, entries[name], dir))
      && ((forall k :: i <= k < |n.fields| ==> n.fields[k].name != name) && name in done ==>
            name in images && images[name] == done[name])
    decreases |n.fields| - i
  {
    if i < |n.fields| {
      var f := n.fields[i];
      FieldImageAt(n, entries, dir, i + 1, done[f.name := Image(f.node, entries[f.name], dir)], name);
    }
  }

  lemma ScalarReturns(l: Limits, depth: int, n: Node, v: Value, dir: Direction)
    requires n.ScalarNode? && Typed(n, v, dir)
    ensures Returns(l, depth, n, v, dir, Image(n, v, dir))
  {
    if n.scalar.Int32Kind? {
      IntegerToDouble(if v.Integer? then v.i else v.d.r.Floor);
    }
  }

  lemma {:induction false} ImageReturns(l: Limits, depth: int, n: Node, v: Value, dir: Direction)
    requires !n.VoidNode? && WellFormed(n) && Typed(n, v, dir)
    ensures Returns(l, depth, n, v, dir, Image(n, v, dir))
    decreases n, 3
  {
    match n
    case ScalarNode(_) => ScalarReturns(l, depth, n, v, dir);
    case EnumNode(_, _, _) =>
    case ObjectNode(_, _) =>
    case NullableNode(element) =>
      if !v.Null? {
        ImageReturns(l, depth + 1, element, v, dir);
        ImageIsNotNull(element, v, dir);
      }
    case ArrayNode(_) => ArrayReturns(l, depth, n, v, dir);
    case ValueNode(_, _, _) => RecordReturns(l, depth, n, v, dir);
  }

  lemma {:induction false} ArrayReturns(l: Limits, depth: int, n: Node, v: Value, dir: Direction)
    requires n.ArrayNode? && WellFormed(n) && Typed(n, v, dir)
    ensures Returns(l, depth, n, v, dir, Image(n, v, dir))
    decreases n, 2
  {
    var images := ItemImages(n.element, v.items, dir, 0);
    ItemsReturn(l, depth + 1, n.element, v.items, dir, images, 0);
    var back := ItemImages(n.element, images, Flip(dir), 0);
    ItemsComeBackSame(l, depth + 1, n.element, v.items, dir, images, back, 0);
  }

  lemma {:induction false} RecordReturns(l: Limits, depth: int, n: Node, v: Value, dir: Direction)
    requires n.ValueNode? && WellFormed(n) && Typed(n, v, dir)
    ensures Returns(l, depth, n, v, dir, Image(n, v, dir))
    decreases n, 2
  {
    var images := FieldImages(n, v.entries, dir, 0, map[]);
    FieldsReturn(l, depth + 1, n, v.entries, dir, images, 0);
    var back := FieldImages(n, images, Flip(dir), 0, map[]);
    FieldsComeBackSame(l, depth + 1, n, v.entries, dir, images, back, 0);
  }

  /** Only a null (or void) converts to null. */
  lemma {:induction false} ImageIsNotNull(n: Node, v: Value, dir: Direction)
    requires Typed(n, v, dir) && !v.Null?
    ensures !Image(n, v, dir).Null?
  {
    if n.NullableNode? {
      ImageIsNotNull(n.element, v, dir);
    }
  }

  lemma {:induction false} ItemsReturn(l: Limits, depth: int, element: Node, items: seq<Value>, dir: Direction,
                                       images: seq<Value>, i: nat)
    requires !element.VoidNode? && WellFormed(element)
    requires i <= |items| && ItemsTyped(element, items, dir, 0) && images == ItemImages(element, items, dir, 0)
    requires ItemsTyped(element, items, dir, i)
    ensures ItemsTyped(element, images, Flip(dir), i)
    ensures ItemsCost(element, images, Flip(dir), i) == ItemsCost(element, items, dir, i)
    ensures ItemsFit(l, element, images, Flip(dir), depth, i) <==> ItemsFit(l, element, items, dir, depth, i)
    decreases element, 4, |items| - i
  {
    if i < |items| {
      ItemImageAt(element, items, dir, 0, i);
      ImageReturns(l, depth, element, items[i], dir);
      assert Returns(l, depth, element, items[i], dir, images[i]);
      ItemsReturn(l, depth, element, items, dir, images, i + 1);
    }
  }

  lemma {:induction false} ItemsComeBackSame(l: Limits, depth: int, element: Node, items: seq<Value>, dir: Direction,
                                             images: seq<Value>, back: seq<Value>, i: nat)
    requires !element.VoidNode? && WellFormed(element)
    requires i <= |items| && ItemsTyped(element, items, dir, 0) && images == ItemImages(element, items, dir, 0)
    requires ItemsTyped(element, images, Flip(dir), 0) && back == ItemImages(element, images, Flip(dir), 0)
    ensures SameItems(element, items, back, i)
    decreases element, 4, |items| - i
  {
    if i < |items| {
      ItemImageAt(element, items, dir, 0, i);
      ItemImageAt(element, images, Flip(dir), 0, i);
      ImageReturns(l, depth, element, items[i], dir);
      assert Same(element, items[i], back[i]);
      ItemsComeBackSame(l, depth, element, items, dir, images, back, i + 1);
    }
  }

  lemma {:induction false} FieldsReturn(l: Limits, depth: int, n: Node, entries: map<string, Value>, dir: Direction,
                                        images: map<string, Value>, i: nat)
    requires n.ValueNode? && WellFormed(n) && i <= |n.fields|
    requires FieldsTyped(n, entries, dir, 0) && images == FieldImages(n, entries, dir, 0, map[])
    requires FieldsTyped(n, entries, dir, i)
    ensures FieldsTyped(n, images, Flip(dir), i)
    ensures FieldsCost(n, images, Flip(dir), i) == FieldsCost(n, entries, dir, i)
    ensures FieldsFit(l, n, images, Flip(dir), depth, i) <==> FieldsFit(l, n, entries, dir, depth, i)
    decreases n, 1, |n.fields| - i
  {
    if i < |n.fields| {
      var f := n.fields[i];
      FieldImageAt(n, entries, dir, 0, map[], f.name);
      ImageReturns(l, depth, f.node, entries[f.name], dir);
      FieldsReturn(l, depth, n, entries, dir, images, i + 1);
    }
  }

  lemma {:induction false} FieldsComeBackSame(l: Limits, depth: int, n: Node, entries: map<string, Value>,
                                              dir: Direction,
                                              images: map<string, Value>, back: map<string, Value>, i: nat)
    requires n.ValueNode? && WellFormed(n) && i <= |n.fields|
    requires FieldsTyped(n, entries, dir, 0) && images == FieldImages(n, entries, dir, 0, map[])
    requires FieldsTyped(n, images, Flip(dir), 0) && back == FieldImages(n, images, Flip(dir), 0, map[])
    ensures SameFields(n, entries, back, i)
    decreases n, 1, |n.fields| - i
  {
    if i < |n.fields| {
      var f := n.fields[i];
      FieldImageAt(n, entries, dir, 0, map[], f.name);
      FieldImageAt(n, images, Flip(dir), 0, map[], f.name);
      ImageReturns(l, depth, f.node, entries[f.name], dir);
      assert Same(f.node, entries[f.name], back[f.name]);
      FieldsComeBackSame(l, depth, n, entries, dir, images, back, i + 1);
    }
  }

  /** Round trip, both ways: whatever a fresh conversion accepts in one direction, a fresh
      conversion of its result accepts in the other, with the same counters and the same
      retained objects, and gives back the same value. */
  lemma RoundTripHolds(cfg: Config, n: Node, v: Value, dir: Direction, depth: int)
    requires cfg.failAfter.None? && ValidLimits(cfg.limits)
    requires !n.VoidNode? && WellFormed(n)
    requires Convert(cfg, n, v, dir, depth, FRESH).Done?
    ensures var there := Convert(cfg, n, v, dir, depth, FRESH);
      var back := Convert(cfg, n, there.value, Flip(dir), depth, FRESH);
      back.Done? && back.meter == there.meter && Same(n, v, back.value)
  {
    ConversionIsExact(cfg, n, v, dir, depth, FRESH);
    ImageReturns(cfg.limits, depth, n, v, dir);
    ConversionIsExact(cfg, n, Image(n, v, dir), Flip(dir), depth, FRESH);
  }

  /** A plan made from a valid table round-trips every value. */
  lemma PlannedTypesRoundTrip(cfg: Config, t: SemanticType, table: Table, v: Value, dir: Direction)
    requires cfg.failAfter.None? && ValidLimits(cfg.limits)
    requires ValidTable(table) && NoNestedVoid(t) && !t.VoidType?
    requires PlanType(t, table, []).Planned?
    requires Convert(cfg, PlanType(t, table, []).node, v, dir, 1, FRESH).Done?
    ensures var n := PlanType(t, table, []).node;
      var there := Convert(cfg, n, v, dir, 1, FRESH);
      var back := Convert(cfg, n, there.value, Flip(dir), 1, FRESH);
      back.Done? && back.meter == there.meter && Same(n, v, back.value)
  {
    PlansAreWellFormed(t, table, []);
    RoundTripHolds(cfg, PlanType(t, table, []).node, v, dir, 1);
  }
}
