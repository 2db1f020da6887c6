/** The converters emitted for C++: one function per type and purpose, each looking named
    types up in the table at every step instead of walking an unfolded plan. */
module Emitted {
  import opened Wrappers
  import opened Semantics
  import opened Planning
  import opened Conversion

  /** How many more levels the depth check allows: what the emitted recursion runs out of. */
  function Levels(cfg: Config, depth: int): nat {
    if depth <= cfg.limits.maxDepth then cfg.limits.maxDepth - depth + 1 else 0
  }

  const UINT64 := 0x1_0000_0000_0000_0000

  /** `24ULL + length * sizeof(void *)`, in 64-bit arithmetic. */
  function ArrayBytes(length: nat): nat {
    (24 + length * POINTER_SIZE) % UINT64
  }

  predicate IsNumber(v: Value) {
    (v.Integer? || v.Float?) && ToDouble(v).Some?
  }

  predicate DoubleInInt32(d: Double) {
    d.Finite? && d.r.Floor as real == d.r && INT32_MIN as real <= d.r <= INT32_MAX as real
  }

  predicate DoubleInFloat32(d: Double) {
    d.Finite? ==> -FLOAT32_MAX <= d.r <= FLOAT32_MAX
  }

  // ------------------------------------------------------------------------ from_js

  function FromJs(cfg: Config, table: Table, t: SemanticType, v: Value, depth: int, m: Meter): Outcome<Value>
    decreases Levels(cfg, depth), 0
  {
    var (_, m1) :- Visit(cfg, depth, m);
    VisitedFromJs(cfg, table, t, v, depth, m1)
  }

  function VisitedFromJs(cfg: Config, table: Table, t: SemanticType, v: Value, depth: int, m: Meter): Outcome<Value>
    requires depth <= cfg.limits.maxDepth
    decreases Levels(cfg, depth), 0, 3
  {
    if v.Undefined? || t.VoidType? then Raised(TypeFailure, m)
    else if t.NullableOf? then
      if v.Null? then Done(Null, m) else FromJs(cfg, table, t.element, v, depth + 1, m)
    else if v.Null? then Raised(TypeFailure, m)
    else PresentFromJs(cfg, table, t, v, depth, m)
  }

  function PresentFromJs(cfg: Config, table: Table, t: SemanticType, v: Value, depth: int, m: Meter): Outcome<Value>
    requires depth <= cfg.limits.maxDepth && !t.VoidType? && !t.NullableOf?
    decreases Levels(cfg, depth), 0, 2
  {
    if t.ScalarType? then ScalarFromJs(cfg, t.scalar, v, m)
    else if t.ArrayOf? then ArrayFromJs(cfg, table, t.element, v, depth, m)
    else if t.id !in table then Raised(TypeFailure, m)
    else if t.EnumRef? && table[t.id].EnumDeclaration? then EnumFromJs(cfg, table[t.id].constants, v, m)
    else if t.ObjectRef? && table[t.id].ObjectDeclaration? then ObjectFromJs(cfg, t.id, v, m)
    else if t.ValueRef? && table[t.id].ValueDeclaration? then
      RecordFromJs(cfg, table, table[t.id].fields, v, depth, m)
    else Raised(TypeFailure, m)
  }

  function ArrayFromJs(cfg: Config, table: Table, element: SemanticType, v: Value, depth: int, m: Meter): Outcome<Value>
    requires depth <= cfg.limits.maxDepth
    decreases Levels(cfg, depth), 0, 1
  {
    if !v.List? then Raised(TypeFailure, m)
    else if |v.items| > cfg.limits.maxArrayLength then Raised(RangeFailure, m)
    else
      var (_, m1) :- Reserve(cfg, ArrayBytes(|v.items|), m);
      var (items, m2) :- ItemsFromJs(cfg, table, element, v.items, depth + 1, 0, [], m1);
      Done(Tuple(items), m2)
  }

  function RecordFromJs(cfg: Config, table: Table, fields: seq<FieldDeclaration>, v: Value, depth: int,
                        m: Meter): Outcome<Value>
    requires depth <= cfg.limits.maxDepth
    decreases Levels(cfg, depth), 0, 1
  {
    if !v.Mapping? then Raised(TypeFailure, m)
    else
      var (_, m1) :- Reserve(cfg, 32 + |fields| * 16, m);
      var (entries, m2) :- FieldsFromJs(cfg, table, fields, v.entries, depth + 1, 0, map[], m1);
      Done(Mapping(entries), m2)
  }

  function ItemsFromJs(cfg: Config, table: Table, element: SemanticType, items: seq<Value>, depth: int,
                       i: nat, done: seq<Value>, m: Meter): Outcome<seq<Value>>
    requires i <= |items|
    decreases Levels(cfg, depth), 1, |items| - i
  {
    if i == |items| then Done(done, m)
    else if items[i].ArrayHole? then Raised(TypeFailure, m)
    else
      var (item, m1) :- FromJs(cfg, table, element, items[i], depth, m);
      ItemsFromJs(cfg, table, element, items, depth, i + 1, done + [item], m1)
  }

  function FieldsFromJs(cfg: Config, table: Table, fields: seq<FieldDeclaration>, entries: map<string, Value>,
                        depth: int,
                        i: nat, done: map<string, Value>, m: Meter): Outcome<map<string, Value>>
    requires i <= |fields|
    decreases Levels(cfg, depth), 1, |fields| - i
  {
    if i == |fields| then Done(done, m)
    else if fields[i].name !in entries then Raised(TypeFailure, m)
    else
      var (item, m1) :- FromJs(cfg, table, fields[i].typ, entries[fields[i].name], depth, m);
      FieldsFromJs(cfg, table, fields, entries, depth, i + 1, done[fields[i].name := item], m1)
  }

  /** The emitted enum converter reserves before it compares with the constants. */
  function EnumFromJs(cfg: Config, constants: seq<string>, v: Value, m: Meter): Outcome<Value> {
    if !v.Str? then Raised(TypeFailure, m)
    else if Utf8Length(v.s) > cfg.limits.maxStringBytes then Raised(RangeFailure, m)
    else
      var (_, m1) :- Reserve(cfg, Utf8Length(v.s), m);
      if v.s in constants then Done(v, m1) else Raised(TypeFailure, m1)
  }

  function ObjectFromJs(cfg: Config, id: string, v: Value, m: Meter): Outcome<Value> {
    if !v.Native? || v.token.typeId != id then Raised(TypeFailure, m)
    else
      var (_, m1) :- Reserve(cfg, POINTER_SIZE, m);
      Done(v, m1.(retained := m1.retained + [v.token]))
  }

  function ScalarFromJs(cfg: Config, scalar: ScalarKind, v: Value, m: Meter): Outcome<Value> {
    match scalar
    case BoolKind => if v.Boolean? then Done(v, m) else Raised(TypeFailure, m)
    case Int32Kind =>
      if !IsNumber(v) then Raised(TypeFailure, m)
      else if !DoubleInInt32(ToDouble(v).value) then Raised(RangeFailure, m)
      else Done(Integer(ToDouble(v).value.r.Floor), m)
    case Int64Kind =>
      if !v.BigInt? then Raised(TypeFailure, m)
      else if !InInt64(v.i) then Raised(RangeFailure, m)
      else Done(Integer(v.i), m)
    case Float32Kind =>
      if !IsNumber(v) then Raised(TypeFailure, m)
      else if !DoubleInFloat32(ToDouble(v).value) then Raised(RangeFailure, m)
      else Done(Float(ToDouble(v).value), m)
    case Float64Kind =>
      if !IsNumber(v) then Raised(TypeFailure, m) else Done(Float(ToDouble(v).value), m)
    case StringKind =>
      if !v.Str? then Raised(TypeFailure, m)
      else if Utf8Length(v.s) > cfg.limits.maxStringBytes then Raised(RangeFailure, m)
      else
        var (_, m1) :- Reserve(cfg, Utf8Length(v.s), m);
        Done(v, m1)
    case BytesKind =>
      if !v.Uint8Array? then Raised(TypeFailure, m)
      else if v.view.length > cfg.limits.maxByteBufferBytes then Raised(RangeFailure, m)
      else
        var (_, m1) :- Reserve(cfg, v.view.length, m);
        Done(Buffer(VisibleBytes(v.view)), m1)
  }

  // -------------------------------------------------------------------- validate_js

  /** The preflight walk: no values, no strings, buffers, arrays or records reserved; only
      object handles are. */
  function ValidateJs(cfg: Config, table: Table, t: SemanticType, v: Value, depth: int, m: Meter): Outcome<()>
    decreases Levels(cfg, depth), 0
  {
    var (_, m1) :- Visit(cfg, depth, m);
    ValidateVisited(cfg, table, t, v, depth, m1)
  }

  function ValidateVisited(cfg: Config, table: Table, t: SemanticType, v: Value, depth: int, m: Meter): Outcome<()>
    requires depth <= cfg.limits.maxDepth
    decreases Levels(cfg, depth), 0, 3
  {
    if v.Undefined? || t.VoidType? then Raised(TypeFailure, m)
    else if t.NullableOf? then
      if v.Null? then Done((), m) else ValidateJs(cfg, table, t.element, v, depth + 1, m)
    else if v.Null? then Raised(TypeFailure, m)
    else ValidatePresent(cfg, table, t, v, depth, m)
  }

  function ValidatePresent(cfg: Config, table: Table, t: SemanticType, v: Value, depth: int, m: Meter): Outcome<()>
    requires depth <= cfg.limits.maxDepth && !t.VoidType? && !t.NullableOf?
    decreases Levels(cfg, depth), 0, 2
  {
    if t.ScalarType? then ValidateScalar(cfg, t.scalar, v, m)
    else if t.ArrayOf? then
      if !v.List? then Raised(TypeFailure, m)
      else if |v.items| > cfg.limits.maxArrayLength then Raised(RangeFailure, m)
      else ValidateItems(cfg, table, t.element, v.items, depth + 1, 0, m)
    else if t.id !in table then Raised(TypeFailure, m)
    else if t.EnumRef? && table[t.id].EnumDeclaration? then
      if !v.Str? then Raised(TypeFailure, m)
      else if Utf8Length(v.s) > cfg.limits.maxStringBytes then Raised(RangeFailure, m)
      else if v.s in table[t.id].constants then Done((), m)
      else Raised(TypeFailure, m)
    else if t.ObjectRef? && table[t.id].ObjectDeclaration? then
      if !v.Native? || v.token.typeId != t.id then Raised(TypeFailure, m) else Reserve(cfg, POINTER_SIZE, m)
    else if t.ValueRef? && table[t.id].ValueDeclaration? then
      if !v.Mapping? then Raised(TypeFailure, m)
      else ValidateFields(cfg, table, table[t.id].fields, v.entries, depth + 1, 0, m)
    else Raised(TypeFailure, m)
  }

  function ValidateItems(cfg: Config, table: Table, element: SemanticType, items: seq<Value>, depth: int,
                         i: nat, m: Meter): Outcome<()>
    requires i <= |items|
    decreases Levels(cfg, depth), 1, |items| - i
  {
    if i == |items| then Done((), m)
    else if items[i].ArrayHole? then Raised(TypeFailure, m)
    else
      var (_, m1) :- ValidateJs(cfg, table, element, items[i], depth, m);
      ValidateItems(cfg, table, element, items, depth, i + 1, m1)
  }

  function ValidateFields(cfg: Config, table: Table, fields: seq<FieldDeclaration>, entries: map<string, Value>,
                          depth: int,
                          i: nat, m: Meter): Outcome<()>
    requires i <= |fields|
    decreases Levels(cfg, depth), 1, |fields| - i
  {
    if i == |fields| then Done((), m)
    else if fields[i].name !in entries then Raised(TypeFailure, m)
    else
      var (_, m1) :- ValidateJs(cfg, table, fields[i].typ, entries[fields[i].name], depth, m);
      ValidateFields(cfg, table, fields, entries, depth, i + 1, m1)
  }

  function ValidateScalar(cfg: Config, scalar: ScalarKind, v: Value, m: Meter): Outcome<()> {
    match scalar
    case BoolKind => if v.Boolean? then Done((), m) else Raised(TypeFailure, m)
    case Int32Kind =>
      if !IsNumber(v) then Raised(TypeFailure, m)
      else if DoubleInInt32(ToDouble(v).value) then Done((), m)
      else Raised(RangeFailure, m)
    case Int64Kind =>
      if !v.BigInt? then Raised(TypeFailure, m) else if InInt64(v.i) then Done((), m) else Raised(RangeFailure, m)
    case Float32Kind =>
      if !IsNumber(v) then Raised(TypeFailure, m)
      else if DoubleInFloat32(ToDouble(v).value) then Done((), m)
      else Raised(RangeFailure, m)
    case Float64Kind => if IsNumber(v) then Done((), m) else Raised(TypeFailure, m)
    case StringKind =>
      if !v.Str? then Raised(TypeFailure, m)
      else if Utf8Length(v.s) > cfg.limits.maxStringBytes then Raised(RangeFailure, m)
      else Done((), m)
    case BytesKind =>
      if !v.Uint8Array? then Raised(TypeFailure, m)
      else if v.view.length > cfg.limits.maxByteBufferBytes then Raised(RangeFailure, m)
      else Done((), m)
  }

  /** What is left of a call once its visit is paid for. */
  lemma AfterVisit(cfg: Config, table: Table, t: SemanticType, v: Value, depth: int, m: Meter)
    requires Visit(cfg, depth, m).Done?
    ensures var m1 := Visit(cfg, depth, m).meter;
      && FromJs(cfg, table, t, v, depth, m) == VisitedFromJs(cfg, table, t, v, depth, m1)
      && ValidateJs(cfg, table, t, v, depth, m) == ValidateVisited(cfg, table, t, v, depth, m1)
      && (!v.Undefined? && !v.Null? && !t.VoidType? && !t.NullableOf? ==>
            && FromJs(cfg, table, t, v, depth, m) == PresentFromJs(cfg, table, t, v, depth, m1)
            && ValidateJs(cfg, table, t, v, depth, m) == ValidatePresent(cfg, table, t, v, depth, m1))
  {
  }

  lemma NoVisit(cfg: Config, table: Table, t: SemanticType, v: Value, depth: int, m: Meter)
    requires Visit(cfg, depth, m).Raised?
    ensures var visited := Visit(cfg, depth, m);
      && FromJs(cfg, table, t, v, depth, m) == Raised(visited.error, visited.meter)
      && ValidateJs(cfg, table, t, v, depth, m) == Raised(visited.error, visited.meter)
  {
  }

  // ------------------------------------------------- from_js against the unfolded plan

  /** Neither succeeds without the other, and then they agree on everything. */
  ghost predicate SameSuccess<T>(a: Outcome<T>, b: Outcome<T>) {
    a.Done? || b.Done? ==> a == b
  }

  /** Array lengths within the limit never wrap the 64-bit byte count. */
  predicate NoWrap(l: Limits) {
    24 + l.maxArrayLength * POINTER_SIZE < UINT64
  }

  /** The limit below which no wrap can happen is exact. */
  lemma NoWrapIff(l: Limits)
    requires ValidLimits(l)
    ensures NoWrap(l) <==>
      (forall length: nat :: length <= l.maxArrayLength ==> ArrayBytes(length) == 24 + length * POINTER_SIZE)
  {
    if !NoWrap(l) {
      assert ArrayBytes(l.maxArrayLength) < UINT64;
    }
  }

  /** No array of the value within the limit wraps its byte count. */
  ghost predicate Sized(l: Limits, v: Value)
    decreases v
  {
    if v.List? || v.Tuple? then
      && (|v.items| <= l.maxArrayLength ==> 24 + |v.items| * POINTER_SIZE < UINT64)
      && (forall i :: 0 <= i < |v.items| ==> Sized(l, v.items[i]))
    else v.Mapping? ==> forall name :: name in v.entries ==> Sized(l, v.entries[name])
  }

  /** No array has 2 to the 32nd elements: true of every JavaScript value, and of every vector
      that fits in memory. */
  ghost predicate Addressable(v: Value)
    decreases v
  {
    if v.List? || v.Tuple? then
      |v.items| < 0x1_0000_0000 && forall i :: 0 <= i < |v.items| ==> Addressable(v.items[i])
    else v.Mapping? ==> forall name :: name in v.entries ==> Addressable(v.entries[name])
  }

  /** Values a program can hold never wrap, whatever the limits are ... */
  lemma {:induction false} AddressableValuesAreSized(l: Limits, v: Value)
    requires Addressable(v)
    ensures Sized(l, v)
    decreases v
  {
    if v.List? || v.Tuple? {
      forall i | 0 <= i < |v.items|
        ensures Sized(l, v.items[i])
      {
        AddressableValuesAreSized(l, v.items[i]);
      }
    } else if v.Mapping? {
      forall name | name in v.entries
        ensures Sized(l, v.entries[name])
      {
        AddressableValuesAreSized(l, v.entries[name]);
      }
    }
  }

  /** ... and under limits that exclude the wrap, no value does. */
  lemma {:induction false} LimitsSizeEveryValue(l: Limits, v: Value)
    requires NoWrap(l)
    ensures Sized(l, v)
    decreases v
  {
    if v.List? || v.Tuple? {
      forall i | 0 <= i < |v.items|
        ensures Sized(l, v.items[i])
      {
        LimitsSizeEveryValue(l, v.items[i]);
      }
    } else if v.Mapping? {
      forall name | name in v.entries
        ensures Sized(l, v.entries[name])
      {
        LimitsSizeEveryValue(l, v.entries[name]);
      }
    }
  }

  /** The plan of t under some active values is n. */
  ghost predicate Unfolds(table: Table, t: SemanticType, active: seq<string>, n: Node) {
    PlanType(t, table, active) == Planned(n)
  }

  lemma ScalarsAgree(cfg: Config, scalar: ScalarKind, v: Value, m: Meter)
    ensures SameSuccess(ConvertScalar(cfg, scalar, v, Input, m), ScalarFromJs(cfg, scalar, v, m))
  {
  }

  /** Unfolding preserves meaning: converting along the finite plan and converting with
      table lookups at every step accept the same values under the same budget, with the same
      result, counters and retained objects. */
  lemma {:induction false} UnfoldingPreservesMeaning(cfg: Config, table: Table, t: SemanticType, active: seq<string>,
                                                     n: Node,
                                                     v: Value, depth: int, m: Meter)
    requires Unfolds(table, t, active, n) && Sized(cfg.limits, v)
    ensures SameSuccess(Convert(cfg, n, v, Input, depth, m), FromJs(cfg, table, t, v, depth, m))
    decreases n, 3
  {
    var visited := Visit(cfg, depth, m);
    if visited.Done? {
      AfterVisit(cfg, table, t, v, depth, m);
    }
    if visited.Done? && !v.Undefined? && !v.Null? {
      if t.NullableOf? {
        UnfoldingPreservesMeaning(cfg, table, t.element, active, n.element, v, depth + 1, visited.meter);
      } else if t.ScalarType? {
        ScalarsAgree(cfg, t.scalar, v, visited.meter);
      } else if t.ArrayOf? {
        ArraysAgree(cfg, table, t, active, n, v, depth, m);
      } else if t.ValueRef? {
        RecordsAgree(cfg, table, t, active, n, v, depth, m);
      }
    }
  }

  lemma {:induction false} ArraysAgree(cfg: Config, table: Table, t: SemanticType, active: seq<string>, n: Node,
                                       v: Value, depth: int, m: Meter)
    requires Unfolds(table, t, active, n) && Sized(cfg.limits, v)
    requires t.ArrayOf? && Visit(cfg, depth, m).Done? && !v.Undefined? && !v.Null?
    ensures SameSuccess(Convert(cfg, n, v, Input, depth, m), FromJs(cfg, table, t, v, depth, m))
    decreases n, 2
  {
    var m1 := Visit(cfg, depth, m).meter;
    AfterVisit(cfg, table, t, v, depth, m);
    assert PresentFromJs(cfg, table, t, v, depth, m1) == ArrayFromJs(cfg, table, t.element, v, depth, m1);
    if v.List? && |v.items| <= cfg.limits.maxArrayLength {
      assert ArrayBytes(|v.items|) == 24 + |v.items| * POINTER_SIZE;
      var reserved := Reserve(cfg, ArrayBytes(|v.items|), m1);
      if reserved.Done? {
        ItemsAgree(cfg, table, t.element, active, n.element, v.items, depth + 1, 0, [], reserved.meter);
      }
    }
  }

  lemma {:induction false} ItemsAgree(cfg: Config, table: Table, element: SemanticType, active: seq<string>, n: Node,
                                      items: seq<Value>, depth: int, i: nat, done: seq<Value>, m: Meter)
    requires Unfolds(table, element, active, n) && i <= |items|
    requires forall k :: 0 <= k < |items| ==> Sized(cfg.limits, items[k])
    ensures SameSuccess(ConvertItems(cfg, n, items, Input, depth, i, done, m),
                        ItemsFromJs(cfg, table, element, items, depth, i, done, m))
    decreases n, 4, |items| - i
  {
    if i < |items| && !items[i].ArrayHole? {
      UnfoldingPreservesMeaning(cfg, table, element, active, n, items[i], depth, m);
      var r := Convert(cfg, n, items[i], Input, depth, m);
      if r.Done? {
        ItemsAgree(cfg, table, element, active, n, items, depth, i + 1, done + [r.value], r.meter);
      }
    }
  }

  lemma {:induction false} RecordsAgree(cfg: Config, table: Table, t: SemanticType, active: seq<string>, n: Node,
                                        v: Value, depth: int, m: Meter)
    requires Unfolds(table, t, active, n) && Sized(cfg.limits, v)
    requires t.ValueRef? && Visit(cfg, depth, m).Done? && !v.Undefined? && !v.Null?
    ensures SameSuccess(Convert(cfg, n, v, Input, depth, m), FromJs(cfg, table, t, v, depth, m))
    decreases n, 2
  {
    var m1 := Visit(cfg, depth, m).meter;
    AfterVisit(cfg, table, t, v, depth, m);
    assert PresentFromJs(cfg, table, t, v, depth, m1) == RecordFromJs(cfg, table, table[t.id].fields, v, depth, m1);
    if v.Mapping? {
      var reserved := Reserve(cfg, 32 + |n.fields| * 16, m1);
      if reserved.Done? {
        FieldsAgree(cfg, table, t, active, n, v.entries, depth + 1, 0, map[], reserved.meter);
      }
    }
  }

  lemma {:induction false} FieldsAgree(cfg: Config, table: Table, t: SemanticType, active: seq<string>, n: Node,
                                       entries: map<string, Value>, depth: int, i: nat, done: map<string, Value>,
                                       m: Meter)
    requires Unfolds(table, t, active, n) && forall name :: name in entries ==> Sized(cfg.limits, entries[name])
    requires t.ValueRef? && i <= |n.fields|
    ensures SameSuccess(ConvertFields(cfg, n, entries, Input, depth, i, done, m),
                        FieldsFromJs(cfg, table, table[t.id].fields, entries, depth, i, done, m))
    decreases n, 1, |n.fields| - i
  {
    if i < |n.fields| {
      var f := n.fields[i];
      PlannedFieldAt(table[t.id].fields, 0, table, active + [t.id], i);
      if f.name in entries {
        UnfoldingPreservesMeaning(cfg, table, table[t.id].fields[i].typ, active + [t.id], f.node, entries[f.name],
          depth, m);
        var r := Convert(cfg, f.node, entries[f.name], Input, depth, m);
        if r.Done? {
          FieldsAgree(cfg, table, t, active, n, entries, depth, i + 1, done[f.name := r.value], r.meter);
        }
      }
    }
  }

  // ------------------------------------------------------------ when the byte count wraps

  lemma {:induction false} BooleansPass(cfg: Config, items: seq<Value>, i: nat, done: seq<Value>, m: Meter)
    requires ValidLimits(cfg.limits) && cfg.limits.maxDepth >= 2
    requires i <= |items| && forall k :: 0 <= k < |items| ==> items[k].Boolean?
    requires 0 <= m.visited && m.visited + |items| - i <= cfg.limits.maxVisitedNodes
    ensures ItemsFromJs(cfg, map[], ScalarType(BoolKind), items, 2, i, done, m).Done?
    decreases |items| - i
  {
    if i < |items| {
      var t, m1 := ScalarType(BoolKind), m.(visited := m.visited + 1);
      AfterVisit(cfg, map[], t, items[i], 2, m);
      assert PresentFromJs(cfg, map[], t, items[i], 2, m1) == Done(items[i], m1);
      BooleansPass(cfg, items, i + 1, done + [items[i]], m.(visited := m.visited + 1));
    }
  }

  /** Why `UnfoldingPreservesMeaning` asks for `Sized`: in this model, which has no memory to run out
      of, an array of 2 to the 61st less 3 booleans costs 2 to the 64th bytes, and the wrapped count
      takes them for none. The emitted code could not reserve that vector, and no JavaScript array
      is that long. */
  lemma SizedIsNeeded()
    ensures var top := MAX_COUNTER;
      var cfg, t := Config(Limits(2, top, top, top, top, 1), None), ArrayOf(ScalarType(BoolKind));
      var v := List(seq(0x2000_0000_0000_0000 - 3, _ => Boolean(true)));
      && ValidLimits(cfg.limits) && !Sized(cfg.limits, v)
      && Convert(cfg, ArrayNode(ScalarNode(BoolKind)), v, Input, 1, FRESH).Raised?
      && FromJs(cfg, map[], t, v, 1, FRESH).Done?
  {
    var cfg := Config(Limits(2, MAX_COUNTER, MAX_COUNTER, MAX_COUNTER, MAX_COUNTER, 1), None);
    var t, v := ArrayOf(ScalarType(BoolKind)), List(seq(0x2000_0000_0000_0000 - 3, _ => Boolean(true)));
    var m1 := Visit(cfg, 1, FRESH).meter;
    assert ArrayBytes(|v.items|) == 0;
    var m2 := Reserve(cfg, 0, m1).meter;
    BooleansPass(cfg, v.items, 0, [], m2);
    AfterVisit(cfg, map[], t, v, 1, FRESH);
    assert PresentFromJs(cfg, map[], t, v, 1, m1) == ArrayFromJs(cfg, map[], t.element, v, 1, m1);
  }
}
