/** The emitted converters as they run: a gate and a budget updated in place, and loops that
    push to the retained list. Every method is proved against modules Emitted and EmittedOutput. */
module EmittedEngine {
  import opened Wrappers
  import opened Semantics
  import opened Conversion
  import opened Engine
  import opened Emitted
  import opened EmittedOutput

  class AllocationGate {
    const failAfter: Option<int>
    var reservations: int

    constructor (failAfter: Option<int>)
      ensures this.failAfter == failAfter && reservations == 0
    {
      this.failAfter := failAfter;
      reservations := 0;
    }

    method Reserve() returns (r: Engine.Result<()>)
      modifies this
      ensures failAfter.Some? && old(reservations) >= failAfter.value ==>
        r == Error(AllocationFailure) && reservations == old(reservations)
      ensures !(failAfter.Some? && old(reservations) >= failAfter.value) && 0 <= old(reservations) < MAX_COUNTER ==>
        r == Ok(()) && reservations == old(reservations) + 1
      ensures (failAfter.Some? ==> old(reservations) < failAfter.value) && !(0 <= old(reservations) < MAX_COUNTER) ==>
        r == Error(RangeFailure) && reservations == old(reservations)
    {
      if failAfter.Some? && reservations >= failAfter.value {
        return Error(AllocationFailure);
      }
      var total := CheckedAdd(reservations, 1);
      if total.None? {
        return Error(RangeFailure);
      }
      reservations := total.value;
      return Ok(());
    }
  }

  class Budget {
    const limits: Limits
    const gate: AllocationGate?
    var visitedNodes: int
    var temporaryBytes: int
    /** Reservations made while there is no gate to count them. */
    ghost var ungated: int

    ghost function Repr(): set<object> {
      if gate == null then {this} else {this, gate}
    }

    /** Every reservation follows a visit of its own, so the gate cannot overflow first. */
    ghost predicate Valid()
      reads Repr()
    {
      && 0 <= visitedNodes <= MAX_COUNTER && 0 <= temporaryBytes <= MAX_COUNTER
      && (gate != null ==> 0 <= gate.reservations <= visitedNodes)
    }

    /** A visit has been made that no reservation has used. */
    ghost predicate Ready()
      reads Repr()
    {
      Valid() && (gate != null ==> gate.reservations < visitedNodes)
    }

    constructor (limits: Limits, gate: AllocationGate?)
      requires gate != null ==> gate.reservations == 0
      ensures this.limits == limits && this.gate == gate && Valid()
      ensures visitedNodes == 0 && temporaryBytes == 0 && ungated == 0
    {
      this.limits, this.gate := limits, gate;
      visitedNodes, temporaryBytes, ungated := 0, 0, 0;
    }

    ghost function Cfg(): Config {
      Config(limits, if gate == null then None else gate.failAfter)
    }

    ghost function State(kept: seq<Token>): Meter
      reads Repr()
    {
      Meter(visitedNodes, temporaryBytes, if gate == null then ungated else gate.reservations, kept)
    }

    method Visit(depth: int, ghost kept: seq<Token>) returns (r: Engine.Result<()>)
      requires Valid()
      modifies this
      ensures AsOutcome(r, State(kept)) == Conversion.Visit(Cfg(), depth, old(State(kept)))
      ensures Valid() && (r.Ok? ==> Ready() && depth <= limits.maxDepth)
    {
      if depth > limits.maxDepth {
        return Error(RangeFailure);
      }
      var total := CheckedAdd(visitedNodes, 1);
      if total.None? {
        return Error(RangeFailure);
      }
      visitedNodes := total.value;
      if visitedNodes > limits.maxVisitedNodes {
        return Error(RangeFailure);
      }
      return Ok(());
    }

    method Reserve(amount: nat, ghost kept: seq<Token>) returns (r: Engine.Result<()>)
      requires Ready()
      modifies Repr()
      ensures AsOutcome(r, State(kept)) == Conversion.Reserve(Cfg(), amount, old(State(kept))) && Valid()
    {
      if gate != null {
        var gated := gate.Reserve();
        if gated.Error? {
          return Error(gated.error);
        }
      } else {
        ungated := ungated + 1;
      }
      var total := CheckedAdd(temporaryBytes, amount);
      if total.None? {
        return Error(RangeFailure);
      }
      temporaryBytes := total.value;
      if temporaryBytes > limits.maxTemporaryBytes {
        return Error(RangeFailure);
      }
      return Ok(());
    }
  }

  // ------------------------------------------------------------------------------ from_js

  method FromJsValue(table: Table, t: SemanticType, v: Value, depth: int, budget: Budget, retained: RetainedList)
    returns (r: Engine.Result<Value>)
    requires budget.Valid()
    modifies budget.Repr(), retained
    ensures AsOutcome(r, budget.State(retained.objects))
         == FromJs(budget.Cfg(), table, t, v, depth, old(budget.State(retained.objects)))
    ensures budget.Valid()
    decreases Levels(budget.Cfg(), depth), 0
  {
    ghost var cfg, before := budget.Cfg(), budget.State(retained.objects);
    var visited := budget.Visit(depth, retained.objects);
    if visited.Error? {
      NoVisit(cfg, table, t, v, depth, before);
      return Error(visited.error);
    }
    AfterVisit(cfg, table, t, v, depth, before);
    r := VisitedFromJsValue(table, t, v, depth, budget, retained);
  }

  method VisitedFromJsValue(table: Table, t: SemanticType, v: Value, depth: int, budget: Budget, retained: RetainedList)
    returns (r: Engine.Result<Value>)
    requires budget.Ready() && depth <= budget.limits.maxDepth
    modifies budget.Repr(), retained
    ensures AsOutcome(r, budget.State(retained.objects))
         == VisitedFromJs(budget.Cfg(), table, t, v, depth, old(budget.State(retained.objects)))
    ensures budget.Valid()
    decreases Levels(budget.Cfg(), depth), 0, 3
  {
    if v.Undefined? || t.VoidType? {
      return Error(TypeFailure);
    }
    if t.NullableOf? {
      if v.Null? {
        return Ok(Null);
      }
      r := FromJsValue(table, t.element, v, depth + 1, budget, retained);
      return;
    }
    if v.Null? {
      return Error(TypeFailure);
    }
    r := PresentFromJsValue(table, t, v, depth, budget, retained);
  }

  method PresentFromJsValue(table: Table, t: SemanticType, v: Value, depth: int, budget: Budget, retained: RetainedList)
    returns (r: Engine.Result<Value>)
    requires budget.Ready() && depth <= budget.limits.maxDepth && !t.VoidType? && !t.NullableOf?
    modifies budget.Repr(), retained
    ensures AsOutcome(r, budget.State(retained.objects))
         == PresentFromJs(budget.Cfg(), table, t, v, depth, old(budget.State(retained.objects)))
    ensures budget.Valid()
    decreases Levels(budget.Cfg(), depth), 0, 2
  {
    if t.ScalarType? {
      r := ScalarFromJsValue(t.scalar, v, budget, retained.objects);
    } else if t.ArrayOf? {
      r := ArrayFromJsValue(table, t, v, depth, budget, retained);
    } else if t.id !in table {
      r := Error(TypeFailure);
    } else if t.EnumRef? && table[t.id].EnumDeclaration? {
      r := EnumFromJsValue(table[t.id].constants, v, budget, retained.objects);
    } else if t.ObjectRef? && table[t.id].ObjectDeclaration? {
      r := ObjectFromJsValue(t.id, v, budget, retained);
    } else if t.ValueRef? && table[t.id].ValueDeclaration? {
      r := RecordFromJsValue(table, t, v, depth, budget, retained);
    } else {
      r := Error(TypeFailure);
    }
  }

  method ScalarFromJsValue(scalar: ScalarKind, v: Value, budget: Budget, ghost kept: seq<Token>)
    returns (r: Engine.Result<Value>)
    requires budget.Ready()
    modifies budget.Repr()
    ensures AsOutcome(r, budget.State(kept)) == ScalarFromJs(budget.Cfg(), scalar, v, old(budget.State(kept)))
    ensures budget.Valid()
  {
    match scalar
    case BoolKind =>
      return if v.Boolean? then Ok(v) else Error(TypeFailure);
    case Int32Kind =>
      if !IsNumber(v) {
        return Error(TypeFailure);
      }
      var number := ToDouble(v).value;
      return if DoubleInInt32(number) then Ok(Integer(number.r.Floor)) else Error(RangeFailure);
    case Int64Kind =>
      if !v.BigInt? {
        return Error(TypeFailure);
      }
      return if InInt64(v.i) then Ok(Integer(v.i)) else Error(RangeFailure);
    case Float32Kind =>
      if !IsNumber(v) {
        return Error(TypeFailure);
      }
      return if DoubleInFloat32(ToDouble(v).value) then Ok(Float(ToDouble(v).value)) else Error(RangeFailure);
    case Float64Kind =>
      return if IsNumber(v) then Ok(Float(ToDouble(v).value)) else Error(TypeFailure);
    case StringKind =>
      if !v.Str? {
        return Error(TypeFailure);
      }
      if Utf8Length(v.s) > budget.limits.maxStringBytes {
        return Error(RangeFailure);
      }
      var reserved := budget.Reserve(Utf8Length(v.s), kept);
      return if reserved.Error? then Error(reserved.error) else Ok(v);
    case BytesKind =>
      if !v.Uint8Array? {
        return Error(TypeFailure);
      }
      if v.view.length > budget.limits.maxByteBufferBytes {
        return Error(RangeFailure);
      }
      var reserved := budget.Reserve(v.view.length, kept);
      return if reserved.Error? then Error(reserved.error) else Ok(Buffer(VisibleBytes(v.view)));
  }

  method EnumFromJsValue(constants: seq<string>, v: Value, budget: Budget, ghost kept: seq<Token>)
    returns (r: Engine.Result<Value>)
    requires budget.Ready()
    modifies budget.Repr()
    ensures AsOutcome(r, budget.State(kept)) == EnumFromJs(budget.Cfg(), constants, v, old(budget.State(kept)))
    ensures budget.Valid()
  {
    if !v.Str? {
      return Error(TypeFailure);
    }
    if Utf8Length(v.s) > budget.limits.maxStringBytes {
      return Error(RangeFailure);
    }
    var reserved := budget.Reserve(Utf8Length(v.s), kept);
    if reserved.Error? {
      return Error(reserved.error);
    }
    var index := 0;
    while index < |constants|
      invariant index <= |constants| && v.s !in constants[..index]
    {
      if v.s == constants[index] {
        return Ok(v);
      }
      index := index + 1;
    }
    assert constants[..index] == constants;
    return Error(TypeFailure);
  }

  method ObjectFromJsValue(id: string, v: Value, budget: Budget, retained: RetainedList)
    returns (r: Engine.Result<Value>)
    requires budget.Ready()
    modifies budget.Repr(), retained
    ensures AsOutcome(r, budget.State(retained.objects))
         == ObjectFromJs(budget.Cfg(), id, v, old(budget.State(retained.objects)))
    ensures budget.Valid()
  {
    if !v.Native? || v.token.typeId != id {
      return Error(TypeFailure);
    }
    var reserved := budget.Reserve(POINTER_SIZE, retained.objects);
    if reserved.Error? {
      return Error(reserved.error);
    }
    retained.objects := retained.objects + [v.token];
    return Ok(v);
  }

  method ArrayFromJsValue(table: Table, t: SemanticType, v: Value, depth: int, budget: Budget, retained: RetainedList)
    returns (r: Engine.Result<Value>)
    requires budget.Ready() && t.ArrayOf? && depth <= budget.limits.maxDepth
    modifies budget.Repr(), retained
    ensures AsOutcome(r, budget.State(retained.objects))
         == ArrayFromJs(budget.Cfg(), table, t.element, v, depth, old(budget.State(retained.objects)))
    ensures budget.Valid()
    decreases Levels(budget.Cfg(), depth), 0, 1
  {
    if !v.List? {
      return Error(TypeFailure);
    }
    var length := |v.items|;
    if length > budget.limits.maxArrayLength {
      return Error(RangeFailure);
    }
    var reserved := budget.Reserve(ArrayBytes(length), retained.objects);
    if reserved.Error? {
      return Error(reserved.error);
    }
    ghost var start := budget.State(retained.objects);
    var result, index := [], 0;
    while index < length
      invariant index <= length && budget.Valid()
      invariant ItemsFromJs(budget.Cfg(), table, t.element, v.items, depth + 1, index, result,
        budget.State(retained.objects))
             == ItemsFromJs(budget.Cfg(), table, t.element, v.items, depth + 1, 0, [], start)
    {
      if v.items[index].ArrayHole? {
        return Error(TypeFailure);
      }
      var item := FromJsValue(table, t.element, v.items[index], depth + 1, budget, retained);
      if item.Error? {
        return Error(item.error);
      }
      result, index := result + [item.value], index + 1;
    }
    return Ok(Tuple(result));
  }

  method RecordFromJsValue(table: Table, t: SemanticType, v: Value, depth: int, budget: Budget, retained: RetainedList)
    returns (r: Engine.Result<Value>)
    requires budget.Ready() && depth <= budget.limits.maxDepth
    requires t.ValueRef? && t.id in table && table[t.id].ValueDeclaration?
    modifies budget.Repr(), retained
    ensures AsOutcome(r, budget.State(retained.objects))
         == RecordFromJs(budget.Cfg(), table, table[t.id].fields, v, depth, old(budget.State(retained.objects)))
    ensures budget.Valid()
    decreases Levels(budget.Cfg(), depth), 0, 1
  {
    if !v.Mapping? {
      return Error(TypeFailure);
    }
    var fields := table[t.id].fields;
    var reserved := budget.Reserve(32 + |fields| * 16, retained.objects);
    if reserved.Error? {
      return Error(reserved.error);
    }
    ghost var start := budget.State(retained.objects);
    var result, index := map[], 0;
    while index < |fields|
      invariant index <= |fields| && budget.Valid()
      invariant FieldsFromJs(budget.Cfg(), table, fields, v.entries, depth + 1, index, result,
        budget.State(retained.objects))
             == FieldsFromJs(budget.Cfg(), table, fields, v.entries, depth + 1, 0, map[], start)
    {
      var field := fields[index];
      if field.name !in v.entries {
        return Error(TypeFailure);
      }
      var item := FromJsValue(table, field.typ, v.entries[field.name], depth + 1, budget, retained);
      if item.Error? {
        return Error(item.error);
      }
      result, index := result[field.name := item.value], index + 1;
    }
    return Ok(Mapping(result));
  }

  // -------------------------------------------------------------------------- validate_js

  method ValidateJsValue(table: Table, t: SemanticType, v: Value, depth: int, budget: Budget, ghost kept: seq<Token>)
    returns (r: Engine.Result<()>)
    requires budget.Valid()
    modifies budget.Repr()
    ensures AsOutcome(r, budget.State(kept)) == ValidateJs(budget.Cfg(), table, t, v, depth, old(budget.State(kept)))
    ensures budget.Valid()
    decreases Levels(budget.Cfg(), depth), 0
  {
    ghost var cfg, before := budget.Cfg(), budget.State(kept);
    var visited := budget.Visit(depth, kept);
    if visited.Error? {
      NoVisit(cfg, table, t, v, depth, before);
      return Error(visited.error);
    }
    AfterVisit(cfg, table, t, v, depth, before);
    r := ValidateVisitedValue(table, t, v, depth, budget, kept);
  }

  method ValidateVisitedValue(table: Table, t: SemanticType, v: Value, depth: int, budget: Budget,
                              ghost kept: seq<Token>)
    returns (r: Engine.Result<()>)
    requires budget.Ready() && depth <= budget.limits.maxDepth
    modifies budget.Repr()
    ensures AsOutcome(r, budget.State(kept))
      == ValidateVisited(budget.Cfg(), table, t, v, depth, old(budget.State(kept)))
    ensures budget.Valid()
    decreases Levels(budget.Cfg(), depth), 0, 3
  {
    if v.Undefined? || t.VoidType? {
      return Error(TypeFailure);
    }
    if t.NullableOf? {
      if v.Null? {
        return Ok(());
      }
      r := ValidateJsValue(table, t.element, v, depth + 1, budget, kept);
      return;
    }
    if v.Null? {
      return Error(TypeFailure);
    }
    r := ValidatePresentValue(table, t, v, depth, budget, kept);
  }

  method ValidatePresentValue(table: Table, t: SemanticType, v: Value, depth: int, budget: Budget,
                              ghost kept: seq<Token>)
    returns (r: Engine.Result<()>)
    requires budget.Ready() && depth <= budget.limits.maxDepth && !t.VoidType? && !t.NullableOf?
    modifies budget.Repr()
    ensures AsOutcome(r, budget.State(kept))
      == ValidatePresent(budget.Cfg(), table, t, v, depth, old(budget.State(kept)))
    ensures budget.Valid()
    decreases Levels(budget.Cfg(), depth), 0, 2
  {
    if t.ScalarType? {
      r := ValidateScalarValue(t.scalar, v, budget.limits);
      assert AsOutcome(r, budget.State(kept)) == ValidateScalar(budget.Cfg(), t.scalar, v, budget.State(kept));
    } else if t.ArrayOf? {
      if !v.List? {
        return Error(TypeFailure);
      }
      if |v.items| > budget.limits.maxArrayLength {
        return Error(RangeFailure);
      }
      r := ValidateItemValues(table, t.element, v.items, depth, budget, kept);
    } else if t.id !in table {
      r := Error(TypeFailure);
    } else if t.EnumRef? && table[t.id].EnumDeclaration? {
      if !v.Str? {
        return Error(TypeFailure);
      }
      if Utf8Length(v.s) > budget.limits.maxStringBytes {
        return Error(RangeFailure);
      }
      r := if v.s in table[t.id].constants then Ok(()) else Error(TypeFailure);
    } else if t.ObjectRef? && table[t.id].ObjectDeclaration? {
      if !v.Native? || v.token.typeId != t.id {
        return Error(TypeFailure);
      }
      r := budget.Reserve(POINTER_SIZE, kept);
    } else if t.ValueRef? && table[t.id].ValueDeclaration? {
      if !v.Mapping? {
        return Error(TypeFailure);
      }
      r := ValidateFieldValues(table, table[t.id].fields, v.entries, depth, budget, kept);
    } else {
      r := Error(TypeFailure);
    }
  }

  method ValidateScalarValue(scalar: ScalarKind, v: Value, limits: Limits) returns (r: Engine.Result<()>)
    ensures forall cfg: Config, m: Meter :: cfg.limits == limits ==>
      AsOutcome(r, m) == ValidateScalar(cfg, scalar, v, m)
  {
    match scalar
    case BoolKind =>
      r := if v.Boolean? then Ok(()) else Error(TypeFailure);
    case Int32Kind =>
      r := if !IsNumber(v) then Error(TypeFailure) else if DoubleInInt32(ToDouble(v).value) then Ok(())
          else Error(RangeFailure);
    case Int64Kind =>
      r := if !v.BigInt? then Error(TypeFailure) else if InInt64(v.i) then Ok(()) else Error(RangeFailure);
    case Float32Kind =>
      r := if !IsNumber(v) then Error(TypeFailure) else if DoubleInFloat32(ToDouble(v).value) then Ok(())
          else Error(RangeFailure);
    case Float64Kind =>
      r := if IsNumber(v) then Ok(()) else Error(TypeFailure);
    case StringKind =>
      r := if !v.Str? then Error(TypeFailure)
          else if Utf8Length(v.s) > limits.maxStringBytes then Error(RangeFailure)
          else Ok(());
    case BytesKind =>
      r := if !v.Uint8Array? then Error(TypeFailure)
          else if v.view.length > limits.maxByteBufferBytes then Error(RangeFailure)
          else Ok(());
  }

  method ValidateItemValues(table: Table, element: SemanticType, items: seq<Value>, depth: int, budget: Budget,
                            ghost kept: seq<Token>)
    returns (r: Engine.Result<()>)
    requires budget.Valid() && depth <= budget.limits.maxDepth
    modifies budget.Repr()
    ensures AsOutcome(r, budget.State(kept))
         == ValidateItems(budget.Cfg(), table, element, items, depth + 1, 0, old(budget.State(kept)))
    ensures budget.Valid()
    decreases Levels(budget.Cfg(), depth), 0, 1
  {
    ghost var start := budget.State(kept);
    var index := 0;
    while index < |items|
      invariant index <= |items| && budget.Valid()
      invariant ValidateItems(budget.Cfg(), table, element, items, depth + 1, index, budget.State(kept))
             == ValidateItems(budget.Cfg(), table, element, items, depth + 1, 0, start)
    {
      if items[index].ArrayHole? {
        return Error(TypeFailure);
      }
      r := ValidateJsValue(table, element, items[index], depth + 1, budget, kept);
      if r.Error? {
        return;
      }
      index := index + 1;
    }
    return Ok(());
  }

  method ValidateFieldValues(table: Table, fields: seq<FieldDeclaration>, entries: map<string, Value>, depth: int,
                             budget: Budget, ghost kept: seq<Token>)
    returns (r: Engine.Result<()>)
    requires budget.Valid() && depth <= budget.limits.maxDepth
    modifies budget.Repr()
    ensures AsOutcome(r, budget.State(kept))
         == ValidateFields(budget.Cfg(), table, fields, entries, depth + 1, 0, old(budget.State(kept)))
    ensures budget.Valid()
    decreases Levels(budget.Cfg(), depth), 0, 1
  {
    ghost var start := budget.State(kept);
    var index := 0;
    while index < |fields|
      invariant index <= |fields| && budget.Valid()
      invariant ValidateFields(budget.Cfg(), table, fields, entries, depth + 1, index, budget.State(kept))
             == ValidateFields(budget.Cfg(), table, fields, entries, depth + 1, 0, start)
    {
      if fields[index].name !in entries {
        return Error(TypeFailure);
      }
      r := ValidateJsValue(table, fields[index].typ, entries[fields[index].name], depth + 1, budget, kept);
      if r.Error? {
        return;
      }
      index := index + 1;
    }
    return Ok(());
  }

  // -------------------------------------------------------------------------------- to_js

  method ToJsValue(table: Table, t: SemanticType, v: Value, depth: int, budget: Budget, ghost kept: seq<Token>)
    returns (r: Engine.Result<Value>)
    requires budget.Valid()
    modifies budget.Repr()
    ensures AsOutcome(r, budget.State(kept)) == ToJs(budget.Cfg(), table, t, v, depth, old(budget.State(kept)))
    ensures budget.Valid()
    decreases Levels(budget.Cfg(), depth), 0
  {
    AfterOutputVisit(budget.Cfg(), table, t, v, depth, budget.State(kept));
    var visited := budget.Visit(depth, kept);
    if visited.Error? {
      return Error(visited.error);
    }
    r := VisitedToJsValue(table, t, v, depth, budget, kept);
  }

  method VisitedToJsValue(table: Table, t: SemanticType, v: Value, depth: int, budget: Budget, ghost kept: seq<Token>)
    returns (r: Engine.Result<Value>)
    requires budget.Ready() && depth <= budget.limits.maxDepth
    modifies budget.Repr()
    ensures AsOutcome(r, budget.State(kept)) == VisitedToJs(budget.Cfg(), table, t, v, depth, old(budget.State(kept)))
    ensures budget.Valid()
    decreases Levels(budget.Cfg(), depth), 0, 3
  {
    if t.NullableOf? {
      if v.Null? {
        return Ok(Null);
      }
      r := ToJsValue(table, t.element, v, depth + 1, budget, kept);
    } else if t.ScalarType? {
      r := ScalarToJsValue(t.scalar, v, budget, kept);
    } else if t.ArrayOf? {
      r := ArrayToJsValue(table, t.element, v, depth, budget, kept);
    } else if t.VoidType? || t.id !in table {
      r := Error(TypeFailure);
    } else if t.EnumRef? && table[t.id].EnumDeclaration? {
      r := EnumToJsValue(table[t.id].constants, v, budget, kept);
    } else if t.ObjectRef? && table[t.id].ObjectDeclaration? {
      r := ObjectToJsValue(t.id, v, budget, kept);
    } else if t.ValueRef? && table[t.id].ValueDeclaration? {
      r := RecordToJsValue(table, table[t.id].fields, v, depth, budget, kept);
    } else {
      r := Error(TypeFailure);
    }
  }

  method ScalarToJsValue(scalar: ScalarKind, v: Value, budget: Budget, ghost kept: seq<Token>)
    returns (r: Engine.Result<Value>)
    requires budget.Ready()
    modifies budget.Repr()
    ensures AsOutcome(r, budget.State(kept)) == ScalarToJs(budget.Cfg(), scalar, v, old(budget.State(kept)))
    ensures budget.Valid()
  {
    if !ScalarTyped(scalar, v, Output) {
      return Error(TypeFailure);
    }
    if scalar.StringKind? {
      if Utf8Length(v.s) > budget.limits.maxStringBytes {
        return Error(RangeFailure);
      }
      var reserved := budget.Reserve(Utf8Length(v.s), kept);
      return if reserved.Error? then Error(reserved.error) else Ok(v);
    }
    if scalar.BytesKind? {
      if |v.bytes| > budget.limits.maxByteBufferBytes {
        return Error(RangeFailure);
      }
      var reserved := budget.Reserve(|v.bytes|, kept);
      return if reserved.Error? then Error(reserved.error) else Ok(Uint8Array(WholeView(v.bytes)));
    }
    return Ok(ScalarImage(scalar, v, Output));
  }

  method EnumToJsValue(constants: seq<string>, v: Value, budget: Budget, ghost kept: seq<Token>)
    returns (r: Engine.Result<Value>)
    requires budget.Ready()
    modifies budget.Repr()
    ensures AsOutcome(r, budget.State(kept)) == EnumToJs(budget.Cfg(), constants, v, old(budget.State(kept)))
    ensures budget.Valid()
  {
    if !v.Str? || v.s !in constants {
      return Error(TypeFailure);
    }
    if Utf8Length(v.s) > budget.limits.maxStringBytes {
      return Error(RangeFailure);
    }
    var reserved := budget.Reserve(Utf8Length(v.s), kept);
    return if reserved.Error? then Error(reserved.error) else Ok(v);
  }

  method ObjectToJsValue(id: string, v: Value, budget: Budget, ghost kept: seq<Token>) returns (r: Engine.Result<Value>)
    requires budget.Ready()
    modifies budget.Repr()
    ensures AsOutcome(r, budget.State(kept)) == ObjectToJs(budget.Cfg(), id, v, old(budget.State(kept)))
    ensures budget.Valid()
  {
    if !v.Native? || v.token.typeId != id {
      return Error(TypeFailure);
    }
    var reserved := budget.Reserve(POINTER_SIZE, kept);
    return if reserved.Error? then Error(reserved.error) else Ok(v);
  }

  method ArrayToJsValue(table: Table, element: SemanticType, v: Value, depth: int, budget: Budget,
                        ghost kept: seq<Token>)
    returns (r: Engine.Result<Value>)
    requires budget.Ready() && depth <= budget.limits.maxDepth
    modifies budget.Repr()
    ensures AsOutcome(r, budget.State(kept))
      == ArrayToJs(budget.Cfg(), table, element, v, depth, old(budget.State(kept)))
    ensures budget.Valid()
    decreases Levels(budget.Cfg(), depth), 0, 1
  {
    if !v.List? && !v.Tuple? {
      return Error(TypeFailure);
    }
    var length := |v.items|;
    if length > budget.limits.maxArrayLength {
      return Error(RangeFailure);
    }
    var reserved := budget.Reserve(ArrayBytes(length), kept);
    if reserved.Error? {
      return Error(reserved.error);
    }
    ghost var start := budget.State(kept);
    var result, index := [], 0;
    while index < length
      invariant index <= length && budget.Valid()
      invariant ItemsToJs(budget.Cfg(), table, element, v.items, depth + 1, index, result, budget.State(kept))
             == ItemsToJs(budget.Cfg(), table, element, v.items, depth + 1, 0, [], start)
    {
      var item := ToJsValue(table, element, v.items[index], depth + 1, budget, kept);
      if item.Error? {
        return Error(item.error);
      }
      result, index := result + [item.value], index + 1;
    }
    return Ok(List(result));
  }

  method RecordToJsValue(table: Table, fields: seq<FieldDeclaration>, v: Value, depth: int, budget: Budget,
                         ghost kept: seq<Token>)
    returns (r: Engine.Result<Value>)
    requires budget.Ready() && depth <= budget.limits.maxDepth
    modifies budget.Repr()
    ensures AsOutcome(r, budget.State(kept))
      == RecordToJs(budget.Cfg(), table, fields, v, depth, old(budget.State(kept)))
    ensures budget.Valid()
    decreases Levels(budget.Cfg(), depth), 0, 1
  {
    if !v.Mapping? {
      return Error(TypeFailure);
    }
    var reserved := budget.Reserve(32 + |fields| * 16, kept);
    if reserved.Error? {
      return Error(reserved.error);
    }
    ghost var start := budget.State(kept);
    var result, index := map[], 0;
    while index < |fields|
      invariant index <= |fields| && budget.Valid()
      invariant FieldsToJs(budget.Cfg(), table, fields, v.entries, depth + 1, index, result, budget.State(kept))
             == FieldsToJs(budget.Cfg(), table, fields, v.entries, depth + 1, 0, map[], start)
    {
      var field := fields[index];
      if field.name !in v.entries {
        return Error(TypeFailure);
      }
      var item := ToJsValue(table, field.typ, v.entries[field.name], depth + 1, budget, kept);
      if item.Error? {
        return Error(item.error);
      }
      result, index := result[field.name := item.value], index + 1;
    }
    return Ok(Mapping(result));
  }

  // ------------------------------------------------------------------------ retain_native

  method RetainNativeValue(table: Table, t: SemanticType, v: Value, retained: RetainedList)
    modifies retained
    ensures retained.objects == RetainNative(table, t, v, old(retained.objects))
    decreases v, t
  {
    if t.ObjectRef? {
      if v.Native? {
        retained.objects := retained.objects + [v.token];
      }
    } else if t.ArrayOf? {
      if v.List? || v.Tuple? {
        RetainItemValues(table, t, v, retained);
      }
    } else if t.NullableOf? {
      if !v.Null? {
        RetainNativeValue(table, t.element, v, retained);
      }
    } else if t.ValueRef? && t.id in table && table[t.id].ValueDeclaration? && v.Mapping? {
      RetainFieldValues(table, t, v, retained);
    }
  }

  method RetainItemValues(table: Table, t: SemanticType, v: Value, retained: RetainedList)
    requires t.ArrayOf? && (v.List? || v.Tuple?)
    modifies retained
    ensures retained.objects == RetainItems(table, t, v, 0, old(retained.objects))
    decreases v, t, 0
  {
    var index := 0;
    while index < |v.items|
      invariant index <= |v.items|
      invariant RetainItems(table, t, v, index, retained.objects) == RetainItems(table, t, v, 0, old(retained.objects))
    {
      RetainNativeValue(table, t.element, v.items[index], retained);
      index := index + 1;
    }
  }

  method RetainFieldValues(table: Table, t: SemanticType, v: Value, retained: RetainedList)
    requires t.ValueRef? && t.id in table && table[t.id].ValueDeclaration? && v.Mapping?
    modifies retained
    ensures retained.objects == RetainFields(table, t, v, 0, old(retained.objects))
    decreases v, t, 0
  {
    var fields, index := table[t.id].fields, 0;
    while index < |fields|
      invariant index <= |fields|
      invariant RetainFields(table, t, v, index, retained.objects)
        == RetainFields(table, t, v, 0, old(retained.objects))
    {
      if fields[index].name in v.entries {
        RetainNativeValue(table, fields[index].typ, v.entries[fields[index].name], retained);
      }
      index := index + 1;
    }
  }
}
