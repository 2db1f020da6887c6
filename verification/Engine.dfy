/** The executable engine: budget, injector and retained list as mutable objects, and the
    conversion loops over them. Every method is proved against module Conversion. */
module Engine {
  import opened Wrappers
  import opened Semantics
  import opened Planning
  import opened Conversion
  import opened Preparation

  datatype Result<+T> = Ok(value: T) | Error(error: ErrorKind)

  /** A returned or raised result together with the state it leaves. */
  function AsOutcome<T>(r: Result<T>, m: Meter): Outcome<T> {
    match r
    case Ok(value) => Done(value, m)
    case Error(error) => Raised(error, m)
  }

  class AllocationFaultInjector {
    const failAfter: Option<int>
    var reservations: int

    constructor (failAfter: Option<int>)
      ensures this.failAfter == failAfter && reservations == 0
    {
      this.failAfter := failAfter;
      reservations := 0;
    }

    method Reserve() returns (r: Result<()>)
      modifies this
      ensures forall cfg: Config, m: Meter :: cfg.failAfter == failAfter && m.reservations == old(reservations) ==>
        AsOutcome(r, m.(reservations := reservations)) == Inject(cfg, m)
    {
      if failAfter.Some? && reservations >= failAfter.value {
        return Error(AllocationFailure);
      }
      reservations := reservations + 1;
      return Ok(());
    }
  }

  class RetainedList {
    var objects: seq<Token>

    constructor ()
      ensures objects == []
    {
      objects := [];
    }
  }

  class ConversionBudget {
    const limits: Limits
    const injector: AllocationFaultInjector
    var visitedNodes: int
    var temporaryBytes: int

    constructor (limits: Limits, injector: AllocationFaultInjector)
      ensures this.limits == limits && this.injector == injector
      ensures visitedNodes == 0 && temporaryBytes == 0
    {
      this.limits := limits;
      this.injector := injector;
      visitedNodes, temporaryBytes := 0, 0;
    }

    function Cfg(): Config {
      Config(limits, injector.failAfter)
    }

    function State(kept: seq<Token>): Meter
      reads this, injector
    {
      Meter(visitedNodes, temporaryBytes, injector.reservations, kept)
    }

    method Visit(depth: int, ghost kept: seq<Token>) returns (r: Result<()>)
      modifies this
      ensures AsOutcome(r, State(kept)) == Conversion.Visit(Cfg(), depth, old(State(kept)))
    {
      if depth > limits.maxDepth {
        return Error(RangeFailure);
      }
      var total := CheckedAdd(visitedNodes, 1);
      if total.None? {
        return Error(RangeFailure);
      }
      visitedNodes := total.value;
      if visitedNodes > limits.maxVisitedNodes {
        return Error(RangeFailure);
      }
      return Ok(());
    }

    method Reserve(amount: int, ghost kept: seq<Token>) returns (r: Result<()>)
      modifies this, injector
      ensures AsOutcome(r, State(kept)) == Conversion.Reserve(Cfg(), amount, old(State(kept)))
    {
      if amount < 0 {
        return Error(RangeFailure);
      }
      ghost var before := State(kept);
      r := injector.Reserve();
      assert AsOutcome(r, before.(reservations := injector.reservations)) == Inject(Cfg(), before);
      if r.Error? {
        return;
      }
      var total := CheckedAdd(temporaryBytes, amount);
      if total.None? {
        return Error(RangeFailure);
      }
      temporaryBytes := total.value;
      if temporaryBytes > limits.maxTemporaryBytes {
        return Error(RangeFailure);
      }
    }
  }

  method ConvertScalarValue(scalar: ScalarKind, v: Value, dir: Direction, budget: ConversionBudget,
                            ghost kept: seq<Token>)
    returns (r: Result<Value>)
    modifies budget, budget.injector
    ensures AsOutcome(r, budget.State(kept)) == ConvertScalar(budget.Cfg(), scalar, v, dir, old(budget.State(kept)))
  {
    match scalar
    case BoolKind =>
      return if v.Boolean? then Ok(v) else Error(TypeFailure);
    case Int32Kind =>
      if !v.Integer? && !v.Float? {
        return Error(TypeFailure);
      }
      var numeric := ToDouble(v);
      if numeric.None? {
        return Error(HostOverflow);
      }
      if !numeric.value.Finite? || numeric.value.r.Floor as real != numeric.value.r {
        return Error(RangeFailure);
      }
      if numeric.value.r < INT32_MIN as real || numeric.value.r > INT32_MAX as real {
        return Error(RangeFailure);
      }
      return Ok(Integer(numeric.value.r.Floor));
    case Int64Kind =>
      if dir.Input? {
        if !v.BigInt? { return Error(TypeFailure); }
      } else {
        if !v.Integer? { return Error(TypeFailure); }
      }
      if !InInt64(v.i) {
        return Error(RangeFailure);
      }
      return Ok(if dir.Input? then Integer(v.i) else BigInt(v.i));
    case Float32Kind =>
      if !v.Integer? && !v.Float? {
        return Error(TypeFailure);
      }
      var numeric := ToDouble(v);
      if numeric.None? {
        return Error(HostOverflow);
      }
      if numeric.value.Finite? && (numeric.value.r > FLOAT32_MAX || numeric.value.r < -FLOAT32_MAX) {
        return Error(RangeFailure);
      }
      return Ok(Float(numeric.value));
    case Float64Kind =>
      if !v.Integer? && !v.Float? {
        return Error(TypeFailure);
      }
      var numeric := ToDouble(v);
      return if numeric.None? then Error(HostOverflow) else Ok(Float(numeric.value));
    case StringKind =>
      if !v.Str? {
        return Error(TypeFailure);
      }
      if Utf8Length(v.s) > budget.limits.maxStringBytes {
        return Error(RangeFailure);
      }
      var reserved := budget.Reserve(Utf8Length(v.s), kept);
      return if reserved.Error? then Error(reserved.error) else Ok(v);
    case BytesKind =>
      if (dir.Input? && !v.Uint8Array?) || (dir.Output? && !v.Buffer?) {
        return Error(TypeFailure);
      }
      var raw := RawBytes(v);
      if |raw| > budget.limits.maxByteBufferBytes {
        return Error(RangeFailure);
      }
      var reserved := budget.Reserve(|raw|, kept);
      if reserved.Error? {
        return Error(reserved.error);
      }
      return Ok(if dir.Input? then Buffer(raw) else Uint8Array(WholeView(raw)));
  }

  /** `_convert`: visit, then dispatch on the plan. */
  method ConvertValue(n: Node, v: Value, dir: Direction, depth: int, budget: ConversionBudget, retained: RetainedList)
    returns (r: Result<Value>)
    modifies budget, budget.injector, retained
    ensures AsOutcome(r, budget.State(retained.objects))
         == Convert(budget.Cfg(), n, v, dir, depth, old(budget.State(retained.objects)))
    decreases n, 3
  {
    var visited := budget.Visit(depth, retained.objects);
    if visited.Error? {
      return Error(visited.error);
    }
    if v.Undefined? {
      return Error(TypeFailure);
    }
    if n.VoidNode? {
      return if dir.Output? && v.Null? then Ok(Null) else Error(TypeFailure);
    }
    if n.NullableNode? {
      if v.Null? {
        return Ok(Null);
      }
      r := ConvertValue(n.element, v, dir, depth + 1, budget, retained);
      return;
    }
    if v.Null? {
      return Error(TypeFailure);
    }
    match n
    case ScalarNode(scalar) =>
      r := ConvertScalarValue(scalar, v, dir, budget, retained.objects);
    case EnumNode(_, _, constants) =>
      if !v.Str? || v.s !in constants {
        return Error(TypeFailure);
      }
      if Utf8Length(v.s) > budget.limits.maxStringBytes {
        return Error(RangeFailure);
      }
      var reserved := budget.Reserve(Utf8Length(v.s), retained.objects);
      return if reserved.Error? then Error(reserved.error) else Ok(v);
    case ObjectNode(id, _) =>
      if !v.Native? || v.token.typeId != id {
        return Error(TypeFailure);
      }
      var reserved := budget.Reserve(POINTER_SIZE, retained.objects);
      if reserved.Error? {
        return Error(reserved.error);
      }
      retained.objects := retained.objects + [v.token];
      return Ok(v);
    case ArrayNode(_) =>
      r := ConvertArray(n, v, dir, depth, budget, retained);
    case ValueNode(_, _, _) =>
      r := ConvertRecord(n, v, dir, depth, budget, retained);
  }

  method ConvertArray(n: Node, v: Value, dir: Direction, depth: int, budget: ConversionBudget, retained: RetainedList)
    returns (r: Result<Value>)
    requires n.ArrayNode?
    modifies budget, budget.injector, retained
    ensures AsOutcome(r, budget.State(retained.objects))
         == ConvertPresent(budget.Cfg(), n, v, dir, depth, old(budget.State(retained.objects)))
    decreases n, 2
  {
    var isArray := if dir.Input? then v.List? else v.List? || v.Tuple?;
    if !isArray {
      return Error(TypeFailure);
    }
    if |v.items| > budget.limits.maxArrayLength {
      return Error(RangeFailure);
    }
    var reserved := budget.Reserve(24 + |v.items| * POINTER_SIZE, retained.objects);
    if reserved.Error? {
      return Error(reserved.error);
    }
    ghost var start := budget.State(retained.objects);
    var result, index := [], 0;
    while index < |v.items|
      invariant index <= |v.items|
      invariant ConvertItems(budget.Cfg(), n.element, v.items, dir, depth + 1, index, result,
        budget.State(retained.objects))
             == ConvertItems(budget.Cfg(), n.element, v.items, dir, depth + 1, 0, [], start)
    {
      if v.items[index].ArrayHole? {
        return Error(TypeFailure);
      }
      var item := ConvertValue(n.element, v.items[index], dir, depth + 1, budget, retained);
      if item.Error? {
        return Error(item.error);
      }
      result, index := result + [item.value], index + 1;
    }
    return Ok(if dir.Input? then Tuple(result) else List(result));
  }

  method ConvertRecord(n: Node, v: Value, dir: Direction, depth: int, budget: ConversionBudget, retained: RetainedList)
    returns (r: Result<Value>)
    requires n.ValueNode?
    modifies budget, budget.injector, retained
    ensures AsOutcome(r, budget.State(retained.objects))
         == ConvertPresent(budget.Cfg(), n, v, dir, depth, old(budget.State(retained.objects)))
    decreases n, 2
  {
    if !v.Mapping? {
      return Error(TypeFailure);
    }
    var reserved := budget.Reserve(32 + |n.fields| * 16, retained.objects);
    if reserved.Error? {
      return Error(reserved.error);
    }
    ghost var start := budget.State(retained.objects);
    var result, index := map[], 0;
    while index < |n.fields|
      invariant index <= |n.fields|
      invariant ConvertFields(budget.Cfg(), n, v.entries, dir, depth + 1, index, result, budget.State(retained.objects))
             == ConvertFields(budget.Cfg(), n, v.entries, dir, depth + 1, 0, map[], start)
    {
      var field := n.fields[index];
      if field.name !in v.entries {
        return Error(TypeFailure);
      }
      var item := ConvertValue(field.node, v.entries[field.name], dir, depth + 1, budget, retained);
      if item.Error? {
        return Error(item.error);
      }
      result, index := result[field.name := item.value], index + 1;
    }
    return Ok(Mapping(result));
  }

  datatype Prepared<+T> = Prepared(value: T, retained: seq<Token>)

  ghost predicate AsPrepared<T>(r: Result<Prepared<T>>, o: Outcome<T>) {
    match o
    case Done(value, m) => r == Ok(Prepared(value, m.retained))
    case Raised(error, _) => r == Error(error)
  }

  method PrepareParameters(params: seq<Node>, arguments: Value, limits: Limits, injector: AllocationFaultInjector)
    returns (r: Result<Prepared<seq<Value>>>)
    modifies injector
    ensures var o := Prepare(Config(limits, injector.failAfter), params, arguments, old(injector.reservations));
      AsPrepared(r, o) && injector.reservations == o.meter.reservations
  {
    if !arguments.List? && !arguments.Tuple? {
      return Error(TypeFailure);
    }
    if |arguments.items| != |params| {
      return Error(TypeFailure);
    }
    var budget := new ConversionBudget(limits, injector);
    var retained := new RetainedList();
    ghost var start := budget.State(retained.objects);
    var converted, index := [], 0;
    while index < |params|
      invariant index <= |params|
      invariant PrepareFrom(budget.Cfg(), params, arguments.items, index, converted, budget.State(retained.objects))
             == PrepareFrom(budget.Cfg(), params, arguments.items, 0, [], start)
    {
      var item := ConvertValue(params[index], arguments.items[index], Input, 1, budget, retained);
      if item.Error? {
        return Error(item.error);
      }
      converted, index := converted + [item.value], index + 1;
    }
    return Ok(Prepared(converted, retained.objects));
  }

  /** Host code that records the arguments of every call it receives. */
  class Callback {
    const host: Host
    var calls: seq<seq<Value>>

    constructor (host: Host)
      ensures this.host == host && calls == []
    {
      this.host, calls := host, [];
    }

    method Invoke(arguments: seq<Value>) returns (answer: Option<Value>)
      modifies this
      ensures calls == old(calls) + [arguments] && answer == host(arguments)
    {
      calls := calls + [arguments];
      answer := host(arguments);
    }
  }

  /** `construct_transactionally` and `accept_transactionally`: the callback sees nothing
      unless every input has been converted and retained. */
  method CallTransactionally(params: seq<Node>, arguments: Value, callback: Callback, limits: Limits,
                             injector: AllocationFaultInjector)
    returns (r: Result<Prepared<seq<Value>>>)
    modifies injector, callback
    ensures var attempt := Guarded(Prepare(Config(limits, injector.failAfter), params, arguments,
                                           old(injector.reservations)), callback.host);
      && AsPrepared(r, attempt.outcome) && injector.reservations == attempt.outcome.meter.reservations
      && callback.calls == old(callback.calls) + attempt.invocations
  {
    r := PrepareParameters(params, arguments, limits, injector);
    if r.Ok? {
      var answer := callback.Invoke(r.value.value);
      if answer.None? {
        return Error(CallbackFailure);
      }
    }
  }

  /** `invoke_transactionally`. */
  method InvokeTransactionally(params: seq<Node>, resultNode: Node, arguments: Value, implementation: Callback,
                               limits: Limits, injector: AllocationFaultInjector)
    returns (r: Result<Prepared<Value>>)
    modifies injector, implementation
    ensures var attempt := Invocation(Config(limits, injector.failAfter), params, resultNode, arguments,
                                      implementation.host, old(injector.reservations));
      && AsPrepared(r, attempt.outcome) && injector.reservations == attempt.outcome.meter.reservations
      && implementation.calls == old(implementation.calls) + attempt.invocations
  {
    var prepared := PrepareParameters(params, arguments, limits, injector);
    if prepared.Error? {
      return Error(prepared.error);
    }
    var result := implementation.Invoke(prepared.value.value);
    if result.None? {
      return Error(CallbackFailure);
    }
    var budget := new ConversionBudget(limits, injector);
    var retained := new RetainedList();
    var converted := ConvertValue(resultNode, result.value, Output, 1, budget, retained);
    if converted.Error? {
      return Error(converted.error);
    }
    return Ok(Prepared(converted.value, retained.objects));
  }

  /** `assign_transactionally`. */
  method AssignTransactionally(n: Node, v: Value, setter: Callback, limits: Limits, injector: AllocationFaultInjector)
    returns (r: Result<Prepared<Value>>)
    modifies injector, setter
    ensures var attempt := Assignment(Config(limits, injector.failAfter), n, v, setter.host,
                                      old(injector.reservations));
      && AsPrepared(r, attempt.outcome) && injector.reservations == attempt.outcome.meter.reservations
      && setter.calls == old(setter.calls) + attempt.invocations
  {
    var budget := new ConversionBudget(limits, injector);
    var retained := new RetainedList();
    var converted := ConvertValue(n, v, Input, 1, budget, retained);
    if converted.Error? {
      return Error(converted.error);
    }
    var answer := setter.Invoke([converted.value]);
    if answer.None? {
      return Error(CallbackFailure);
    }
    return Ok(Prepared(converted.value, retained.objects));
  }
}
