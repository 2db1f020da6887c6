/** What host code sees of a call: which arguments, how often, and what becomes of its answer. */
module Calls {
  import opened Semantics
  import opened Planning
  import opened Conversion
  import opened Preparation
  import opened Emitted
  import Preflight

  /** The values are the images of the arguments, each at its own place. */
  ghost predicate AreImages(params: seq<Node>, arguments: seq<Value>, values: seq<Value>) {
    && |values| == |params| == |arguments|
    && forall k :: 0 <= k < |values| ==> Typed(params[k], arguments[k], Input)
                                         && values[k] == Image(params[k], arguments[k], Input)
  }

  lemma {:induction false} PreparedFrom(cfg: Config, params: seq<Node>, arguments: seq<Value>, i: nat,
                                        done: seq<Value>, m: Meter)
    requires cfg.failAfter.None? && ValidLimits(cfg.limits) && InBudget(cfg.limits, m)
    requires i <= |params| == |arguments| && |done| == i && AreImages(params[..i], arguments[..i], done)
    ensures var r := PrepareFrom(cfg, params, arguments, i, done, m);
      r.Done? ==> AreImages(params, arguments, r.value)
    decreases |params| - i
  {
    if i == |params| {
      assert params[..i] == params && arguments[..i] == arguments;
    } else {
      ConversionIsExact(cfg, params[i], arguments[i], Input, 1, m);
      if Acceptable(cfg.limits, params[i], arguments[i], Input, 1, m) {
        var image := Image(params[i], arguments[i], Input);
        forall k | 0 <= k <= i
          ensures Typed(params[..i + 1][k], arguments[..i + 1][k], Input)
            && (done + [image])[k] == Image(params[..i + 1][k], arguments[..i + 1][k], Input)
        {
          if k < i {
            assert params[..i][k] == params[k] && arguments[..i][k] == arguments[k];
          }
        }
        PreparedFrom(cfg, params, arguments, i + 1, done + [image], Charge(m, CostOf(params[i], arguments[i], Input)));
      }
    }
  }

  predicate IsSequence(arguments: Value) {
    arguments.List? || arguments.Tuple?
  }

  /** When an argument list is accepted: one argument for each parameter, and acceptable together. */
  ghost predicate Admitted(cfg: Config, params: seq<Node>, arguments: Value, reservations: int) {
    && IsSequence(arguments) && |arguments.items| == |params|
    && ArgumentsAcceptable(cfg.limits, params, arguments.items, 0, FRESH.(reservations := reservations))
  }

  /** Preparation without faults: exactly the admitted lists, each argument converted in its place. */
  lemma PreparedArgumentsAreImages(cfg: Config, params: seq<Node>, arguments: Value, reservations: int)
    requires cfg.failAfter.None? && ValidLimits(cfg.limits)
    ensures var r := Prepare(cfg, params, arguments, reservations);
      && (r.Done? <==> Admitted(cfg, params, arguments, reservations))
      && (r.Done? ==> AreImages(params, arguments.items, r.value))
  {
    if IsSequence(arguments) && |arguments.items| == |params| {
      var m := FRESH.(reservations := reservations);
      PreparationIsExact(cfg, params, arguments.items, 0, [], m);
      PreparedFrom(cfg, params, arguments.items, 0, [], m);
    }
  }

  /** The host is called once with the images of the arguments, or never. */
  ghost predicate SeesImages(cfg: Config, params: seq<Node>, arguments: Value, reservations: int,
                             invocations: seq<seq<Value>>) {
    if Admitted(cfg, params, arguments, reservations)
    then |invocations| == 1 && AreImages(params, arguments.items, invocations[0])
    else invocations == []
  }

  /** Construction and acceptance: one call, and success if and only if it returns. */
  lemma GuardedCallsAreExact(cfg: Config, params: seq<Node>, arguments: Value, reservations: int, host: Host)
    requires cfg.failAfter.None? && ValidLimits(cfg.limits)
    ensures var a := Guarded(Prepare(cfg, params, arguments, reservations), host);
      && SeesImages(cfg, params, arguments, reservations, a.invocations)
      && (a.outcome.Done? <==> a.invocations != [] && host(a.invocations[0]).Some?)
      && (a.outcome.Done? ==> a.outcome.value == a.invocations[0])
      && (a.invocations != [] && host(a.invocations[0]).None? ==>
            a.outcome.Raised? && a.outcome.error == CallbackFailure)
  {
    PreparedArgumentsAreImages(cfg, params, arguments, reservations);
  }

  /** A fresh budget behind an injector that has counted some reservations. */
  function Fresh(reservations: int): Meter {
    FRESH.(reservations := reservations)
  }

  /** Invocation: the implementation is called once with the images of the arguments, or never; the call
      succeeds if and only if it returns a value acceptable on a budget of its own, and then gives
      the image of that value. */
  lemma InvocationsAreExact(cfg: Config, params: seq<Node>, result: Node, arguments: Value, implementation: Host,
                            reservations: int)
    requires cfg.failAfter.None? && ValidLimits(cfg.limits)
    ensures var a := Invocation(cfg, params, result, arguments, implementation, reservations);
      var spent := Prepare(cfg, params, arguments, reservations).meter.reservations;
      && SeesImages(cfg, params, arguments, reservations, a.invocations)
      && (a.outcome.Done? <==>
            && a.invocations != [] && implementation(a.invocations[0]).Some?
            && Acceptable(cfg.limits, result, implementation(a.invocations[0]).value, Output, 1, Fresh(spent)))
      && (a.outcome.Done? ==> a.outcome.value == Image(result, implementation(a.invocations[0]).value, Output))
      && (a.invocations != [] && implementation(a.invocations[0]).None? ==>
            a.outcome.Raised? && a.outcome.error == CallbackFailure)
  {
    PreparedArgumentsAreImages(cfg, params, arguments, reservations);
    var prepared := Prepare(cfg, params, arguments, reservations);
    if prepared.Done? && implementation(prepared.value).Some? {
      ConversionIsExact(cfg, result, implementation(prepared.value).value, Output, 1,
        Fresh(prepared.meter.reservations));
    }
  }

  /** Assignment: the setter is called once with the image of the value, or never. */
  lemma AssignmentsAreExact(cfg: Config, n: Node, v: Value, setter: Host, reservations: int)
    requires cfg.failAfter.None? && ValidLimits(cfg.limits)
    ensures var a := Assignment(cfg, n, v, setter, reservations);
      && a.invocations == (if Acceptable(cfg.limits, n, v, Input, 1, Fresh(reservations))
                           then [[Image(n, v, Input)]] else [])
      && (a.outcome.Done? <==> a.invocations != [] && setter(a.invocations[0]).Some?)
      && (a.outcome.Done? ==> a.outcome.value == Image(n, v, Input))
  {
    ConversionIsExact(cfg, n, v, Input, 1, Fresh(reservations));
  }

  // ------------------------------------------------------------------------ the emitted call

  /** The plans of some parameter types. */
  ghost predicate ArePlans(table: Table, types: seq<SemanticType>, params: seq<Node>) {
    |types| == |params| && forall k :: 0 <= k < |types| ==> PlanType(types[k], table, []) == Planned(params[k])
  }

  /** The argument loop of the emitted call and the reference one succeed together, with the same values
      in the same order. */
  lemma {:induction false} EmittedCallsAgree(cfg: Config, table: Table, types: seq<SemanticType>, params: seq<Node>,
                                             arguments: seq<Value>, i: nat, done: seq<Value>, m: Meter)
    requires ArePlans(table, types, params) && i <= |params| == |arguments|
    requires forall k :: 0 <= k < |arguments| ==> Sized(cfg.limits, arguments[k])
    ensures SameSuccess(PrepareFrom(cfg, params, arguments, i, done, m),
                        Preflight.ArgumentsFromJs(cfg, table, types, arguments, i, done, m))
    decreases |params| - i
  {
    if i < |params| {
      UnfoldingPreservesMeaning(cfg, table, types[i], [], params[i], arguments[i], 1, m);
      var r := Convert(cfg, params[i], arguments[i], Input, 1, m);
      if r.Done? {
        EmittedCallsAgree(cfg, table, types, params, arguments, i + 1, done + [r.value], r.meter);
      }
    }
  }

  lemma EmittedArgumentsAreImages(cfg: Config, table: Table, types: seq<SemanticType>, params: seq<Node>,
                                  arguments: seq<Value>)
    requires cfg.failAfter.None? && ValidLimits(cfg.limits)
    requires ArePlans(table, types, params) && |params| == |arguments|
    requires forall k :: 0 <= k < |arguments| ==> Sized(cfg.limits, arguments[k])
    ensures var r := Preflight.ArgumentsFromJs(cfg, table, types, arguments, 0, [], FRESH);
      r.Done? ==> AreImages(params, arguments, r.value)
  {
    EmittedCallsAgree(cfg, table, types, params, arguments, 0, [], FRESH);
    PreparedFrom(cfg, params, arguments, 0, [], FRESH);
  }
}
