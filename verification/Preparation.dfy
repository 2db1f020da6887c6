/** Whole calls: argument lists on one shared budget, transactional invocation, and
    injected allocation failures. */
module Preparation {
  import opened Wrappers
  import opened Semantics
  import opened Planning
  import opened Conversion

  /** `_prepare_parameters`: one fresh budget and one retained list for all arguments; only
      the injector may have a past. */
  function Prepare(cfg: Config, params: seq<Node>, arguments: Value, reservations: int): Outcome<seq<Value>> {
    var m := FRESH.(reservations := reservations);
    if !arguments.List? && !arguments.Tuple? then Raised(TypeFailure, m)
    else if |arguments.items| != |params| then Raised(TypeFailure, m)
    else PrepareFrom(cfg, params, arguments.items, 0, [], m)
  }

  function PrepareFrom(cfg: Config, params: seq<Node>, arguments: seq<Value>, i: nat, done: seq<Value>, m: Meter)
    : Outcome<seq<Value>>
    requires i <= |params| == |arguments|
    decreases |params| - i
  {
    if i == |params| then Done(done, m)
    else
      var (value, m1) :- Convert(cfg, params[i], arguments[i], Input, 1, m);
      PrepareFrom(cfg, params, arguments, i + 1, done + [value], m1)
  }

  /** What happened to a callback guarded by preparation: its argument lists, in call order. */
  datatype Attempt<+T> = Attempt(outcome: Outcome<T>, invocations: seq<seq<Value>>)

  /** The host code a call ends in: a constructor, an accept callback, a setter or an
      implementation. None stands for an exception it raises. */
  type Host = seq<Value> -> Option<Value>

  /** Constructor and accept callback are reached only by a complete preparation; their own
      exceptions pass through. */
  function Guarded(prepared: Outcome<seq<Value>>, host: Host): Attempt<seq<Value>> {
    match prepared
    case Done(values, m) => Attempt(if host(values).Some? then prepared else Raised(CallbackFailure, m), [values])
    case Raised(_, _) => Attempt(prepared, [])
  }

  /** `invoke_transactionally`: the implementation runs once, between input preparation and
      the conversion of its result on a second fresh budget behind the same injector. */
  function Invocation(cfg: Config, params: seq<Node>, result: Node, arguments: Value, implementation: Host,
                      reservations: int): Attempt<Value> {
    match Prepare(cfg, params, arguments, reservations)
    case Raised(error, m) => Attempt(Raised(error, m), [])
    case Done(values, m) =>
      Attempt(Answer(cfg, result, implementation(values), m.reservations), [values])
  }

  /** What becomes of the implementation's result or exception. */
  function Answer(cfg: Config, result: Node, answer: Option<Value>, reservations: int): Outcome<Value> {
    var m := FRESH.(reservations := reservations);
    if answer.None? then Raised(CallbackFailure, m) else Convert(cfg, result, answer.value, Output, 1, m)
  }

  // ----------------------------------------------------- acceptance of argument lists

  predicate ArgumentsTyped(params: seq<Node>, arguments: seq<Value>, i: nat)
    requires i <= |params| == |arguments|
    decreases |params| - i
  {
    i == |params| || (Typed(params[i], arguments[i], Input) && ArgumentsTyped(params, arguments, i + 1))
  }

  predicate ArgumentsFit(l: Limits, params: seq<Node>, arguments: seq<Value>, i: nat)
    requires i <= |params| == |arguments| && ArgumentsTyped(params, arguments, i)
    decreases |params| - i
  {
    i == |params| || (Fits(l, params[i], arguments[i], Input, 1) && ArgumentsFit(l, params, arguments, i + 1))
  }

  function ArgumentsCost(params: seq<Node>, arguments: seq<Value>, i: nat): Cost
    requires i <= |params| == |arguments| && ArgumentsTyped(params, arguments, i)
    decreases |params| - i
  {
    if i == |params| then NO_COST
    else Plus(CostOf(params[i], arguments[i], Input), ArgumentsCost(params, arguments, i + 1))
  }

  predicate ArgumentsAcceptable(l: Limits, params: seq<Node>, arguments: seq<Value>, i: nat, m: Meter)
    requires i <= |params| == |arguments|
  {
    ArgumentsTyped(params, arguments, i) && ArgumentsFit(l, params, arguments, i)
    && Affordable(l, m, ArgumentsCost(params, arguments, i))
  }

  /** Arguments share one budget: a call is prepared exactly when all of them are typed and
      fit, and their summed cost is within the limits. */
  lemma {:induction false} PreparationIsExact(cfg: Config, params: seq<Node>, arguments: seq<Value>, i: nat,
                                              done: seq<Value>, m: Meter)
    requires cfg.failAfter.None? && ValidLimits(cfg.limits) && InBudget(cfg.limits, m)
    requires i <= |params| == |arguments|
    ensures var r := PrepareFrom(cfg, params, arguments, i, done, m);
      && (r.Done? <==> ArgumentsAcceptable(cfg.limits, params, arguments, i, m))
      && (r.Done? ==> r.meter == Charge(m, ArgumentsCost(params, arguments, i)))
    decreases |params| - i
  {
    if i == |params| {
      ChargingNothing(m);
    } else {
      ConversionIsExact(cfg, params[i], arguments[i], Input, 1, m);
      if Acceptable(cfg.limits, params[i], arguments[i], Input, 1, m) {
        var image, c := Image(params[i], arguments[i], Input), CostOf(params[i], arguments[i], Input);
        PreparationIsExact(cfg, params, arguments, i + 1, done + [image], Charge(m, c));
        if ArgumentsTyped(params, arguments, i + 1) {
          ChargingTwice(m, c, ArgumentsCost(params, arguments, i + 1));
        }
      }
    }
  }

  // ------------------------------------------------------------------ fault injection

  /** A negative threshold fails the first reservation, like zero. */
  function Threshold(k: int): nat {
    if k < 0 then 0 else k
  }

  /** `faulty` is `clean` when clean stays within the threshold, and otherwise stops at the
      reservation after it. */
  ghost predicate Gated<T>(k: int, clean: Outcome<T>, faulty: Outcome<T>) {
    if clean.meter.reservations <= Threshold(k) then faulty == clean
    else faulty.Raised? && faulty.error == AllocationFailure && faulty.meter.reservations == Threshold(k)
  }

  lemma ReserveIsGated(cfg: Config, k: int, amount: int, m: Meter)
    requires cfg.failAfter.None? && 0 <= m.reservations <= Threshold(k)
    ensures Gated(k, Reserve(cfg, amount, m), Reserve(cfg.(failAfter := Some(k)), amount, m))
  {
  }

  lemma {:induction false} ReservationsOnlyGrow(cfg: Config, n: Node, v: Value, dir: Direction, depth: int, m: Meter)
    ensures Convert(cfg, n, v, dir, depth, m).meter.reservations >= m.reservations
    decreases n, 3
  {
    if Visit(cfg, depth, m).Done? && !v.Undefined? && !n.VoidNode? && !v.Null? {
      var m1 := Visit(cfg, depth, m).meter;
      if n.NullableNode? {
        ReservationsOnlyGrow(cfg, n.element, v, dir, depth + 1, m1);
      } else if n.ArrayNode? {
        ArrayReservationsOnlyGrow(cfg, n, v, dir, depth, m1);
      } else if n.ValueNode? {
        if v.Mapping? && Reserve(cfg, 32 + |n.fields| * 16, m1).Done? {
          FieldReservationsOnlyGrow(cfg, n, v.entries, dir, depth + 1, 0, map[],
                                    Reserve(cfg, 32 + |n.fields| * 16, m1).meter);
        }
      }
    }
  }

  lemma {:induction false} ArrayReservationsOnlyGrow(cfg: Config, n: Node, v: Value, dir: Direction, depth: int,
                                                     m: Meter)
    requires n.ArrayNode?
    ensures ConvertPresent(cfg, n, v, dir, depth, m).meter.reservations >= m.reservations
    decreases n, 2
  {
    if IsArray(v, dir) && Reserve(cfg, 24 + |v.items| * POINTER_SIZE, m).Done? {
      ItemReservationsOnlyGrow(cfg, n.element, v.items, dir, depth + 1, 0, [],
                               Reserve(cfg, 24 + |v.items| * POINTER_SIZE, m).meter);
    }
  }

  lemma {:induction false} ItemReservationsOnlyGrow(cfg: Config, element: Node, items: seq<Value>, dir: Direction,
                                                    depth: int, i: nat, done: seq<Value>, m: Meter)
    requires i <= |items|
    ensures ConvertItems(cfg, element, items, dir, depth, i, done, m).meter.reservations >= m.reservations
    decreases element, 4, |items| - i
  {
    if i < |items| && !items[i].ArrayHole? {
      ReservationsOnlyGrow(cfg, element, items[i], dir, depth, m);
      var r := Convert(cfg, element, items[i], dir, depth, m);
      if r.Done? {
        ItemReservationsOnlyGrow(cfg, element, items, dir, depth, i + 1, done + [r.value], r.meter);
      }
    }
  }

  lemma {:induction false} FieldReservationsOnlyGrow(cfg: Config, n: Node, entries: map<string, Value>, dir: Direction,
                                                     depth: int, i: nat, done: map<string, Value>, m: Meter)
    requires n.ValueNode? && i <= |n.fields|
    ensures ConvertFields(cfg, n, entries, dir, depth, i, done, m).meter.reservations >= m.reservations
    decreases n, 1, |n.fields| - i
  {
    if i < |n.fields| && n.fields[i].name in entries {
      var f := n.fields[i];
      ReservationsOnlyGrow(cfg, f.node, entries[f.name], dir, depth, m);
      var r := Convert(cfg, f.node, entries[f.name], dir, depth, m);
      if r.Done? {
        FieldReservationsOnlyGrow(cfg, n, entries, dir, depth, i + 1, done[f.name := r.value], r.meter);
      }
    }
  }

  /** The injector changes a conversion only by cutting it at one reservation. */
  lemma {:induction false} ConversionIsGated(cfg: Config, k: int, n: Node, v: Value, dir: Direction, depth: int,
                                             m: Meter)
    requires cfg.failAfter.None? && 0 <= m.reservations <= Threshold(k)
    ensures Gated(k, Convert(cfg, n, v, dir, depth, m), Convert(cfg.(failAfter := Some(k)), n, v, dir, depth, m))
    decreases n, 3
  {
    if Visit(cfg, depth, m).Done? && !v.Undefined? && !n.VoidNode? && !v.Null? {
      var m1 := Visit(cfg, depth, m).meter;
      if n.NullableNode? {
        ConversionIsGated(cfg, k, n.element, v, dir, depth + 1, m1);
      } else if n.ArrayNode? {
        ArrayConversionIsGated(cfg, k, n, v, dir, depth, m1);
      } else if n.ValueNode? {
        RecordConversionIsGated(cfg, k, n, v, dir, depth, m1);
      } else if n.EnumNode? {
        EnumConversionIsGated(cfg, k, n, v, dir, depth, m1);
      } else if n.ObjectNode? {
        ObjectConversionIsGated(cfg, k, n, v, dir, depth, m1);
      } else {
        ScalarConversionIsGated(cfg, k, n, v, dir, depth, m1);
      }
    }
  }

  lemma BufferIsGated(cfg: Config, k: int, scalar: ScalarKind, v: Value, dir: Direction, m: Meter)
    requires cfg.failAfter.None? && 0 <= m.reservations <= Threshold(k)
    requires scalar.StringKind? || scalar.BytesKind?
    ensures Gated(k, ConvertScalar(cfg, scalar, v, dir, m),
      ConvertScalar(cfg.(failAfter := Some(k)), scalar, v, dir, m))
  {
    if v.Str? {
      ReserveIsGated(cfg, k, Utf8Length(v.s), m);
    } else if v.Uint8Array? || v.Buffer? {
      ReserveIsGated(cfg, k, |RawBytes(v)|, m);
    }
  }

  lemma EnumConversionIsGated(cfg: Config, k: int, n: Node, v: Value, dir: Direction, depth: int, m: Meter)
    requires cfg.failAfter.None? && 0 <= m.reservations <= Threshold(k)
    requires n.EnumNode?
    ensures Gated(k, ConvertPresent(cfg, n, v, dir, depth, m),
      ConvertPresent(cfg.(failAfter := Some(k)), n, v, dir, depth, m))
  {
    if v.Str? {
      ReserveIsGated(cfg, k, Utf8Length(v.s), m);
    }
  }

  lemma ObjectConversionIsGated(cfg: Config, k: int, n: Node, v: Value, dir: Direction, depth: int, m: Meter)
    requires cfg.failAfter.None? && 0 <= m.reservations <= Threshold(k)
    requires n.ObjectNode?
    ensures Gated(k, ConvertPresent(cfg, n, v, dir, depth, m),
      ConvertPresent(cfg.(failAfter := Some(k)), n, v, dir, depth, m))
  {
    ReserveIsGated(cfg, k, POINTER_SIZE, m);
  }

  lemma ScalarConversionIsGated(cfg: Config, k: int, n: Node, v: Value, dir: Direction, depth: int, m: Meter)
    requires cfg.failAfter.None? && 0 <= m.reservations <= Threshold(k)
    requires n.ScalarNode?
    ensures Gated(k, ConvertPresent(cfg, n, v, dir, depth, m),
      ConvertPresent(cfg.(failAfter := Some(k)), n, v, dir, depth, m))
  {
    if n.scalar.StringKind? || n.scalar.BytesKind? {
      BufferIsGated(cfg, k, n.scalar, v, dir, m);
    } else {
      PlainScalarIsUngated(cfg, k, n.scalar, v, dir, m);
    }
  }

  lemma PlainScalarIsUngated(cfg: Config, k: int, scalar: ScalarKind, v: Value, dir: Direction, m: Meter)
    requires !scalar.StringKind? && !scalar.BytesKind?
    ensures ConvertScalar(cfg.(failAfter := Some(k)), scalar, v, dir, m) == ConvertScalar(cfg, scalar, v, dir, m)
    ensures ConvertScalar(cfg, scalar, v, dir, m).meter == m
  {
  }

  lemma {:induction false} ArrayConversionIsGated(cfg: Config, k: int, n: Node, v: Value, dir: Direction, depth: int,
                                                  m: Meter)
    requires cfg.failAfter.None? && 0 <= m.reservations <= Threshold(k)
    requires n.ArrayNode?
    ensures Gated(k, ConvertPresent(cfg, n, v, dir, depth, m),
      ConvertPresent(cfg.(failAfter := Some(k)), n, v, dir, depth, m))
    decreases n, 2
  {
    if IsArray(v, dir) {
      var amount := 24 + |v.items| * POINTER_SIZE;
      ReserveIsGated(cfg, k, amount, m);
      var r := Reserve(cfg, amount, m);
      if r.Done? {
        ItemReservationsOnlyGrow(cfg, n.element, v.items, dir, depth + 1, 0, [], r.meter);
        if r.meter.reservations <= Threshold(k) {
          ItemConversionsAreGated(cfg, k, n.element, v.items, dir, depth + 1, 0, [], r.meter);
        }
      }
    }
  }

  lemma {:induction false} RecordConversionIsGated(cfg: Config, k: int, n: Node, v: Value, dir: Direction, depth: int,
                                                   m: Meter)
    requires cfg.failAfter.None? && 0 <= m.reservations <= Threshold(k)
    requires n.ValueNode?
    ensures Gated(k, ConvertPresent(cfg, n, v, dir, depth, m),
      ConvertPresent(cfg.(failAfter := Some(k)), n, v, dir, depth, m))
    decreases n, 2
  {
    if v.Mapping? {
      var amount := 32 + |n.fields| * 16;
      ReserveIsGated(cfg, k, amount, m);
      var r := Reserve(cfg, amount, m);
      if r.Done? {
        FieldReservationsOnlyGrow(cfg, n, v.entries, dir, depth + 1, 0, map[], r.meter);
        if r.meter.reservations <= Threshold(k) {
          FieldConversionsAreGated(cfg, k, n, v.entries, dir, depth + 1, 0, map[], r.meter);
        }
      }
    }
  }

  lemma {:induction false} ItemConversionsAreGated(cfg: Config, k: int, element: Node, items: seq<Value>,
                                                   dir: Direction,
                                                   depth: int, i: nat, done: seq<Value>, m: Meter)
    requires cfg.failAfter.None? && 0 <= m.reservations <= Threshold(k)
    requires i <= |items|
    ensures Gated(k, ConvertItems(cfg, element, items, dir, depth, i, done, m),
                  ConvertItems(cfg.(failAfter := Some(k)), element, items, dir, depth, i, done, m))
    decreases element, 4, |items| - i
  {
    if i < |items| && !items[i].ArrayHole? {
      ConversionIsGated(cfg, k, element, items[i], dir, depth, m);
      var r := Convert(cfg, element, items[i], dir, depth, m);
      if r.Done? {
        ReservationsOnlyGrow(cfg, element, items[i], dir, depth, m);
        ItemReservationsOnlyGrow(cfg, element, items, dir, depth, i + 1, done + [r.value], r.meter);
        if r.meter.reservations <= Threshold(k) {
          ItemConversionsAreGated(cfg, k, element, items, dir, depth, i + 1, done + [r.value], r.meter);
        }
      }
    }
  }

  lemma {:induction false} FieldConversionsAreGated(cfg: Config, k: int, n: Node, entries: map<string, Value>,
                                                    dir: Direction,
                                                    depth: int, i: nat, done: map<string, Value>, m: Meter)
    requires cfg.failAfter.None? && 0 <= m.reservations <= Threshold(k)
    requires n.ValueNode? && i <= |n.fields|
    ensures Gated(k, ConvertFields(cfg, n, entries, dir, depth, i, done, m),
                  ConvertFields(cfg.(failAfter := Some(k)), n, entries, dir, depth, i, done, m))
    decreases n, 1, |n.fields| - i
  {
    if i < |n.fields| && n.fields[i].name in entries {
      var f := n.fields[i];
      ConversionIsGated(cfg, k, f.node, entries[f.name], dir, depth, m);
      var r := Convert(cfg, f.node, entries[f.name], dir, depth, m);
      if r.Done? {
        ReservationsOnlyGrow(cfg, f.node, entries[f.name], dir, depth, m);
        FieldReservationsOnlyGrow(cfg, n, entries, dir, depth, i + 1, done[f.name := r.value], r.meter);
        if r.meter.reservations <= Threshold(k) {
          FieldConversionsAreGated(cfg, k, n, entries, dir, depth, i + 1, done[f.name := r.value], r.meter);
        }
      }
    }
  }

  lemma {:induction false} PreparationOnlyGrows(cfg: Config, params: seq<Node>, arguments: seq<Value>, i: nat,
                                                done: seq<Value>, m: Meter)
    requires i <= |params| == |arguments|
    ensures PrepareFrom(cfg, params, arguments, i, done, m).meter.reservations >= m.reservations
    decreases |params| - i
  {
    if i < |params| {
      ReservationsOnlyGrow(cfg, params[i], arguments[i], Input, 1, m);
      var r := Convert(cfg, params[i], arguments[i], Input, 1, m);
      if r.Done? {
        PreparationOnlyGrows(cfg, params, arguments, i + 1, done + [r.value], r.meter);
      }
    }
  }

  lemma {:induction false} PreparationIsGated(cfg: Config, k: int, params: seq<Node>, arguments: seq<Value>, i: nat,
                                              done: seq<Value>, m: Meter)
    requires cfg.failAfter.None? && 0 <= m.reservations <= Threshold(k)
    requires i <= |params| == |arguments|
    ensures Gated(k, PrepareFrom(cfg, params, arguments, i, done, m),
                  PrepareFrom(cfg.(failAfter := Some(k)), params, arguments, i, done, m))
    decreases |params| - i
  {
    if i < |params| {
      ConversionIsGated(cfg, k, params[i], arguments[i], Input, 1, m);
      var r := Convert(cfg, params[i], arguments[i], Input, 1, m);
      if r.Done? {
        ReservationsOnlyGrow(cfg, params[i], arguments[i], Input, 1, m);
        PreparationOnlyGrows(cfg, params, arguments, i + 1, done + [r.value], r.meter);
        if r.meter.reservations <= Threshold(k) {
          PreparationIsGated(cfg, k, params, arguments, i + 1, done + [r.value], r.meter);
        }
      }
    }
  }

  /** Fault injection is complete and transactional. Take a preparation that brings the
      injector to N reservations when left alone, whether it then succeeds or fails: a failure
      injected after k of them gives the identical attempt if k >= N, and otherwise fails for
      want of memory at reservation k + 1 with the callback never invoked. */
  lemma FaultsAreTransactional(cfg: Config, k: int, params: seq<Node>, arguments: Value, reservations: int,
                               host: Host)
    requires cfg.failAfter.None? && 0 <= reservations <= Threshold(k)
    ensures var clean := Guarded(Prepare(cfg, params, arguments, reservations), host);
      var faulty := Guarded(Prepare(cfg.(failAfter := Some(k)), params, arguments, reservations), host);
      if clean.outcome.meter.reservations <= Threshold(k) then faulty == clean
      else
        && faulty.outcome.Raised? && faulty.outcome.error == AllocationFailure
        && faulty.outcome.meter.reservations == Threshold(k)
        && faulty.invocations == []
  {
    if (arguments.List? || arguments.Tuple?) && |arguments.items| == |params| {
      PreparationIsGated(cfg, k, params, arguments.items, 0, [], FRESH.(reservations := reservations));
    }
  }

  /** The same across a whole invocation: the implementation runs if and only if the fault
      comes after all the input reservations, and a fault among the result's reservations
      discards the result. */
  lemma FaultsInInvocations(cfg: Config, k: int, params: seq<Node>, result: Node, arguments: Value,
                            implementation: Host, reservations: int)
    requires cfg.failAfter.None? && 0 <= reservations <= Threshold(k)
    ensures var clean := Invocation(cfg, params, result, arguments, implementation, reservations);
      var faulty := Invocation(cfg.(failAfter := Some(k)), params, result, arguments, implementation, reservations);
      var inputs := Prepare(cfg, params, arguments, reservations).meter.reservations;
      && Gated(k, clean.outcome, faulty.outcome)
      && faulty.invocations == (if inputs <= Threshold(k) then clean.invocations else [])
  {
    FaultsAreTransactional(cfg, k, params, arguments, reservations, implementation);
    var prepared := Prepare(cfg, params, arguments, reservations);
    if prepared.Done? {
      var m := FRESH.(reservations := prepared.meter.reservations);
      PreparationOnlyGrows(cfg, params, arguments.items, 0, [], FRESH.(reservations := reservations));
      var answer := implementation(prepared.value);
      if answer.Some? {
        ReservationsOnlyGrow(cfg, result, answer.value, Output, 1, m);
        if m.reservations <= Threshold(k) {
          ConversionIsGated(cfg, k, result, answer.value, Output, 1, m);
        }
      }
    }
  }

  /** `assign_transactionally`: the setter receives the converted value, after the conversion. */
  function Assignment(cfg: Config, n: Node, v: Value, setter: Host, reservations: int): Attempt<Value> {
    var converted := Convert(cfg, n, v, Input, 1, FRESH.(reservations := reservations));
    match converted
    case Done(value, m) =>
      Attempt(if setter([value]).Some? then converted else Raised(CallbackFailure, m), [[value]])
    case Raised(_, _) => Attempt(converted, [])
  }

  /** And for assignments: a fault among the reservations leaves the setter uncalled, any other
      changes nothing. */
  lemma FaultsInAssignments(cfg: Config, k: int, n: Node, v: Value, setter: Host, reservations: int)
    requires cfg.failAfter.None? && 0 <= reservations <= Threshold(k)
    ensures var clean := Assignment(cfg, n, v, setter, reservations);
      var faulty := Assignment(cfg.(failAfter := Some(k)), n, v, setter, reservations);
      if clean.outcome.meter.reservations <= Threshold(k) then faulty == clean
      else
        && faulty.outcome.Raised? && faulty.outcome.error == AllocationFailure
        && faulty.outcome.meter.reservations == Threshold(k)
        && faulty.invocations == []
  {
    ConversionIsGated(cfg, k, n, v, Input, 1, FRESH.(reservations := reservations));
  }
}
