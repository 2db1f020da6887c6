/** What a converted value means, said of the two values alone: no converter, closed form or plan
    walk is mentioned. */
module Meaning {
  import opened Semantics
  import opened Planning
  import opened Conversion
  import opened Emitted
  import opened EmittedOutput
  import RoundTrip

  /** The same bytes, from the offset of the view on. */
  ghost predicate SameBytes(view: ArrayView, bytes: seq<Byte>) {
    |bytes| == view.length && forall i :: 0 <= i < |bytes| ==> bytes[i] == view.buffer[view.offset + i]
  }

  /** w is the number v. An integer beyond 53 bits is rounded; see module Doubles. */
  ghost predicate SameDouble(v: Value, w: Value) {
    && w.Float?
    && (v.Float? ==> w.d == v.d)
    && (v.Integer? ==> w.d == Finite(RoundToDouble(v.i) as real) && -DOUBLE_LIMIT < RoundToDouble(v.i) < DOUBLE_LIMIT)
    && (v.Float? || v.Integer?)
  }

  ghost predicate ScalarMeans(scalar: ScalarKind, v: Value, w: Value, dir: Direction) {
    match scalar
    case BoolKind => v.Boolean? && w == v
    case Int32Kind =>
      w.Integer? && -0x8000_0000 <= w.i <= 0x7fff_ffff && (v == w || v == Float(Finite(w.i as real)))
    case Int64Kind =>
      && (if dir.Input? then v.BigInt? && w == Integer(v.i) else v.Integer? && w == BigInt(v.i))
      && -0x8000_0000_0000_0000 <= v.i <= 0x7fff_ffff_ffff_ffff
    case Float32Kind => SameDouble(v, w) && (w.d.Finite? ==> -FLOAT32_MAX <= w.d.r <= FLOAT32_MAX)
    case Float64Kind => SameDouble(v, w)
    case StringKind => v.Str? && w == v
    case BytesKind =>
      if dir.Input? then v.Uint8Array? && w.Buffer? && SameBytes(v.view, w.bytes)
      else v.Buffer? && w.Uint8Array? && SameBytes(w.view, v.bytes)
  }

  /** A JavaScript array becomes a native tuple; a native list or tuple becomes an array. */
  predicate SameContainer(v: Value, w: Value, dir: Direction) {
    if dir.Input? then v.List? && w.Tuple? else (v.List? || v.Tuple?) && w.List?
  }

  ghost predicate Means(n: Node, v: Value, w: Value, dir: Direction)
    decreases n
  {
    match n
    case VoidNode => dir.Output? && v.Null? && w.Null?
    case ScalarNode(scalar) => ScalarMeans(scalar, v, w, dir)
    case EnumNode(_, _, constants) => v.Str? && v.s in constants && w == v
    case ObjectNode(id, _) => v.Native? && v.token.typeId == id && w == v
    case NullableNode(element) => (v.Null? && w.Null?) || (!v.Null? && Means(element, v, w, dir))
    case ArrayNode(element) =>
      && SameContainer(v, w, dir) && |v.items| == |w.items|
      && (forall i :: 0 <= i < |v.items| ==> Means(element, v.items[i], w.items[i], dir))
    case ValueNode(_, _, fields) =>
      && v.Mapping? && w.Mapping?
      && (forall name :: name in w.entries <==> exists i :: 0 <= i < |fields| && fields[i].name == name)
      && (forall i :: 0 <= i < |fields| ==>
            && fields[i].name in v.entries && fields[i].name in w.entries
            && Means(fields[i].node, v.entries[fields[i].name], w.entries[fields[i].name], dir))
  }

  // ------------------------------------------------------------------ the image is the meaning

  lemma ScalarImageMeans(scalar: ScalarKind, v: Value, dir: Direction)
    requires ScalarTyped(scalar, v, dir)
    ensures ScalarMeans(scalar, v, ScalarImage(scalar, v, dir), dir)
  {
    if scalar.BytesKind? {
      BufferImageMeans(v, dir);
    }
  }

  lemma BufferImageMeans(v: Value, dir: Direction)
    requires ScalarTyped(BytesKind, v, dir)
    ensures ScalarMeans(BytesKind, v, ScalarImage(BytesKind, v, dir), dir)
  {
    var w := ScalarImage(BytesKind, v, dir);
    if dir.Output? {
      var raw := VisibleBytes(w.view);
      assert forall i :: 0 <= i < |raw| ==> raw[i] == w.view.buffer[w.view.offset + i];
    }
  }

  lemma {:induction false} ImageMeans(n: Node, v: Value, dir: Direction)
    requires WellFormed(n) && Typed(n, v, dir)
    ensures Means(n, v, Image(n, v, dir), dir)
    decreases n
  {
    if n.ScalarNode? {
      ScalarImageMeans(n.scalar, v, dir);
    } else if n.NullableNode? {
      if !v.Null? { ImageMeans(n.element, v, dir); }
    } else if n.ArrayNode? {
      forall i | 0 <= i < |v.items|
        ensures Means(n.element, v.items[i], Image(n, v, dir).items[i], dir)
      {
        RoundTrip.ItemImageAt(n.element, v.items, dir, 0, i);
        ImageMeans(n.element, v.items[i], dir);
      }
    } else if n.ValueNode? {
      RecordImageMeans(n, v, dir);
    }
  }

  lemma {:induction false} RecordImageMeans(n: Node, v: Value, dir: Direction)
    requires n.ValueNode? && WellFormed(n) && Typed(n, v, dir)
    ensures Means(n, v, Image(n, v, dir), dir)
    decreases n, 0
  {
    var images := FieldImages(n, v.entries, dir, 0, map[]);
    FieldNames(n, v.entries, dir, 0, map[]);
    forall i | 0 <= i < |n.fields|
      ensures var name := n.fields[i].name;
        name in v.entries && name in images && Means(n.fields[i].node, v.entries[name], images[name], dir)
    {
      RoundTrip.FieldImageAt(n, v.entries, dir, 0, map[], n.fields[i].name);
      ImageMeans(n.fields[i].node, v.entries[n.fields[i].name], dir);
    }
  }

  lemma {:induction false} FieldNames(n: Node, entries: map<string, Value>, dir: Direction, i: nat,
                                      done: map<string, Value>)
    requires n.ValueNode? && i <= |n.fields| && FieldsTyped(n, entries, dir, i)
    ensures forall name :: name in FieldImages(n, entries, dir, i, done) <==>
      name in done || exists k :: i <= k < |n.fields| && n.fields[k].name == name
    decreases |n.fields| - i
  {
    if i < |n.fields| {
      var f := n.fields[i];
      FieldNames(n, entries, dir, i + 1, done[f.name := Image(f.node, entries[f.name], dir)]);
    }
  }

  // ------------------------------------------------------------------ what has a meaning is typed

  lemma {:induction false} MeaningIsTyped(n: Node, v: Value, w: Value, dir: Direction)
    requires Means(n, v, w, dir)
    ensures Typed(n, v, dir)
    decreases n
  {
    if n.ScalarNode? {
      ScalarMeaningIsTyped(n.scalar, v, w, dir);
    } else if n.NullableNode? {
      if !v.Null? { MeaningIsTyped(n.element, v, w, dir); }
    } else if n.ArrayNode? {
      forall i | 0 <= i < |v.items|
        ensures Typed(n.element, v.items[i], dir)
      {
        MeaningIsTyped(n.element, v.items[i], w.items[i], dir);
      }
      EachItemTyped(n.element, v.items, dir, 0);
    } else if n.ValueNode? {
      forall i | 0 <= i < |n.fields|
        ensures Typed(n.fields[i].node, v.entries[n.fields[i].name], dir)
      {
        MeaningIsTyped(n.fields[i].node, v.entries[n.fields[i].name], w.entries[n.fields[i].name], dir);
      }
      EachFieldTyped(n, v.entries, dir, 0);
    }
  }

  lemma ScalarMeaningIsTyped(scalar: ScalarKind, v: Value, w: Value, dir: Direction)
    requires ScalarMeans(scalar, v, w, dir)
    ensures ScalarTyped(scalar, v, dir)
  {
    if scalar.Int32Kind? {
      assert (w.i as real).Floor == w.i;
    }
  }

  lemma {:induction false} EachItemTyped(element: Node, items: seq<Value>, dir: Direction, i: nat)
    requires i <= |items| && forall k :: i <= k < |items| ==> Typed(element, items[k], dir)
    ensures ItemsTyped(element, items, dir, i)
    decreases |items| - i
  {
    if i < |items| {
      EachItemTyped(element, items, dir, i + 1);
    }
  }

  lemma {:induction false} EachFieldTyped(n: Node, entries: map<string, Value>, dir: Direction, i: nat)
    requires n.ValueNode? && i <= |n.fields|
    requires forall k :: i <= k < |n.fields| ==>
      n.fields[k].name in entries && Typed(n.fields[k].node, entries[n.fields[k].name], dir)
    ensures FieldsTyped(n, entries, dir, i)
    decreases |n.fields| - i
  {
    if i < |n.fields| {
      EachFieldTyped(n, entries, dir, i + 1);
    }
  }

  // ------------------------------------------------------------------------------- theorems

  ghost predicate Meaningful(n: Node, v: Value, dir: Direction) {
    exists w :: Means(n, v, w, dir)
  }

  /** A value is typed for a plan if and only if it means something under it. */
  lemma TypedIffMeaningful(n: Node, v: Value, dir: Direction)
    requires WellFormed(n)
    ensures Typed(n, v, dir) <==> Meaningful(n, v, dir)
  {
    if Typed(n, v, dir) {
      ImageMeans(n, v, dir);
    } else if Meaningful(n, v, dir) {
      MeaningfulIsTyped(n, v, dir);
    }
  }

  lemma MeaningfulIsTyped(n: Node, v: Value, dir: Direction)
    requires Meaningful(n, v, dir)
    ensures Typed(n, v, dir)
  {
    var w :| Means(n, v, w, dir);
    MeaningIsTyped(n, v, w, dir);
  }

  /** A conversion that succeeds makes what the value means. */
  lemma ConversionKeepsMeaning(cfg: Config, n: Node, v: Value, dir: Direction, depth: int, m: Meter)
    requires cfg.failAfter.None? && ValidLimits(cfg.limits) && InBudget(cfg.limits, m) && WellFormed(n)
    ensures var r := Convert(cfg, n, v, dir, depth, m);
      r.Done? ==> Means(n, v, r.value, dir)
  {
    ConversionIsExact(cfg, n, v, dir, depth, m);
    if Typed(n, v, dir) {
      ImageMeans(n, v, dir);
    }
  }

  /** The same of the emitted input converter ... */
  lemma FromJsKeepsMeaning(cfg: Config, table: Table, t: SemanticType, v: Value, m: Meter)
    requires cfg.failAfter.None? && ValidLimits(cfg.limits) && InBudget(cfg.limits, m)
    requires ValidTable(table) && NoNestedVoid(t) && PlanType(t, table, []).Planned? && Sized(cfg.limits, v)
    ensures var r := FromJs(cfg, table, t, v, 1, m);
      r.Done? ==> Means(PlanType(t, table, []).node, v, r.value, Input)
  {
    var n := PlanType(t, table, []).node;
    PlansAreWellFormed(t, table, []);
    UnfoldingPreservesMeaning(cfg, table, t, [], n, v, 1, m);
    ConversionKeepsMeaning(cfg, n, v, Input, 1, m);
  }

  /** ... and of the emitted output converter. */
  lemma ToJsKeepsMeaning(cfg: Config, table: Table, t: SemanticType, v: Value)
    requires cfg.failAfter.None? && ValidLimits(cfg.limits) && Sized(cfg.limits, v)
    requires ValidTable(table) && NoNestedVoid(t) && !t.VoidType?
    requires PlanType(t, table, []).Planned? && Typed(PlanType(t, table, []).node, v, Output)
    ensures var r := ToJs(cfg, table, t, v, 1, FRESH);
      r.Done? ==> Means(PlanType(t, table, []).node, v, r.value, Output)
  {
    PlansAreWellFormed(t, table, []);
    OutputPassesRefineTheEngine(cfg, table, t, v);
    ConversionKeepsMeaning(cfg, PlanType(t, table, []).node, v, Output, 1, FRESH);
  }

  /** A view converts to the bytes it shows, under any budget and fault: the offset counts. */
  lemma ViewsConvertToTheirBytes(cfg: Config, table: Table, view: ArrayView, depth: int, m: Meter)
    ensures var r := Convert(cfg, ScalarNode(BytesKind), Uint8Array(view), Input, depth, m);
      r.Done? ==> r.value.Buffer? && SameBytes(view, r.value.bytes)
    ensures var r := FromJs(cfg, table, ScalarType(BytesKind), Uint8Array(view), depth, m);
      r.Done? ==> r.value.Buffer? && SameBytes(view, r.value.bytes)
  {
    if Visit(cfg, depth, m).Done? {
      AfterVisit(cfg, table, ScalarType(BytesKind), Uint8Array(view), depth, m);
      BytesAreVisible(cfg, view, Visit(cfg, depth, m).meter);
    }
  }

  lemma BytesAreVisible(cfg: Config, view: ArrayView, m: Meter)
    ensures var r := ConvertScalar(cfg, BytesKind, Uint8Array(view), Input, m);
      r.Done? ==> r.value.Buffer? && SameBytes(view, r.value.bytes)
    ensures var r := ScalarFromJs(cfg, BytesKind, Uint8Array(view), m);
      r.Done? ==> r.value.Buffer? && SameBytes(view, r.value.bytes)
  {
  }
}
