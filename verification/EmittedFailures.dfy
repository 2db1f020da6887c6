/** Failures of the emitted input converters: the reference's own, and the preflight's before them. */
module EmittedFailures {
  import opened Semantics
  import opened Planning
  import opened Conversion
  import opened Emitted

  /** No enum position holds an unlisted text, and every number is one a double can hold. The emitted
      code reserves a text before it compares it, and has no number beyond a double. */
  ghost predicate Settled(n: Node, v: Value)
    decreases n
  {
    match n
    case ScalarNode(_) => v.Integer? ==> ToDouble(v).Some?
    case EnumNode(_, _, constants) => v.Str? ==> v.s in constants
    case NullableNode(element) => Settled(element, v)
    case ArrayNode(element) => v.List? ==> forall i :: 0 <= i < |v.items| ==> Settled(element, v.items[i])
    case ValueNode(_, _, fields) =>
      v.Mapping? ==> forall i :: 0 <= i < |fields| && fields[i].name in v.entries ==>
        Settled(fields[i].node, v.entries[fields[i].name])
    case _ => true
  }

  lemma ScalarFailuresAgree(cfg: Config, scalar: ScalarKind, v: Value, m: Meter)
    requires Settled(ScalarNode(scalar), v)
    ensures ConvertScalar(cfg, scalar, v, Input, m) == ScalarFromJs(cfg, scalar, v, m)
  {
  }

  /** The emitted converter and the reference agree on failures too, with and without injected faults:
      the same kind of failure, at the same point of the budget. */
  lemma {:induction false} FailuresAgree(cfg: Config, table: Table, t: SemanticType, active: seq<string>, n: Node,
                                         v: Value, depth: int, m: Meter)
    requires Unfolds(table, t, active, n) && Sized(cfg.limits, v) && Settled(n, v)
    ensures Convert(cfg, n, v, Input, depth, m) == FromJs(cfg, table, t, v, depth, m)
    decreases n, 3
  {
    var visited := Visit(cfg, depth, m);
    if visited.Raised? {
      NoVisit(cfg, table, t, v, depth, m);
    } else {
      AfterVisit(cfg, table, t, v, depth, m);
    }
    if visited.Done? && !v.Undefined? && !v.Null? {
      if t.NullableOf? {
        FailuresAgree(cfg, table, t.element, active, n.element, v, depth + 1, visited.meter);
      } else if t.ScalarType? {
        ScalarFailuresAgree(cfg, t.scalar, v, visited.meter);
      } else if t.ArrayOf? {
        ArrayFailuresAgree(cfg, table, t, active, n, v, depth, m);
      } else if t.ValueRef? {
        RecordFailuresAgree(cfg, table, t, active, n, v, depth, m);
      }
    }
  }

  lemma {:induction false} ArrayFailuresAgree(cfg: Config, table: Table, t: SemanticType, active: seq<string>, n: Node,
                                              v: Value, depth: int, m: Meter)
    requires Unfolds(table, t, active, n) && Sized(cfg.limits, v) && Settled(n, v)
    requires t.ArrayOf? && Visit(cfg, depth, m).Done? && !v.Undefined? && !v.Null?
    ensures Convert(cfg, n, v, Input, depth, m) == FromJs(cfg, table, t, v, depth, m)
    decreases n, 2
  {
    var m1 := Visit(cfg, depth, m).meter;
    AfterVisit(cfg, table, t, v, depth, m);
    assert PresentFromJs(cfg, table, t, v, depth, m1) == ArrayFromJs(cfg, table, t.element, v, depth, m1);
    if v.List? && |v.items| <= cfg.limits.maxArrayLength {
      assert ArrayBytes(|v.items|) == 24 + |v.items| * POINTER_SIZE;
      var reserved := Reserve(cfg, ArrayBytes(|v.items|), m1);
      if reserved.Done? {
        ItemFailuresAgree(cfg, table, t.element, active, n.element, v.items, depth + 1, 0, [], reserved.meter);
      }
    }
  }

  lemma {:induction false} ItemFailuresAgree(cfg: Config, table: Table, element: SemanticType, active: seq<string>,
                                             n: Node, items: seq<Value>, depth: int, i: nat, done: seq<Value>,
                                             m: Meter)
    requires Unfolds(table, element, active, n) && i <= |items|
    requires forall k :: 0 <= k < |items| ==> Sized(cfg.limits, items[k]) && Settled(n, items[k])
    ensures ConvertItems(cfg, n, items, Input, depth, i, done, m)
      == ItemsFromJs(cfg, table, element, items, depth, i, done, m)
    decreases n, 4, |items| - i
  {
    if i < |items| && !items[i].ArrayHole? {
      FailuresAgree(cfg, table, element, active, n, items[i], depth, m);
      var r := Convert(cfg, n, items[i], Input, depth, m);
      if r.Done? {
        ItemFailuresAgree(cfg, table, element, active, n, items, depth, i + 1, done + [r.value], r.meter);
      }
    }
  }

  lemma {:induction false} RecordFailuresAgree(cfg: Config, table: Table, t: SemanticType, active: seq<string>, n: Node,
                                               v: Value, depth: int, m: Meter)
    requires Unfolds(table, t, active, n) && Sized(cfg.limits, v) && Settled(n, v)
    requires t.ValueRef? && Visit(cfg, depth, m).Done? && !v.Undefined? && !v.Null?
    ensures Convert(cfg, n, v, Input, depth, m) == FromJs(cfg, table, t, v, depth, m)
    decreases n, 2
  {
    var m1 := Visit(cfg, depth, m).meter;
    AfterVisit(cfg, table, t, v, depth, m);
    assert PresentFromJs(cfg, table, t, v, depth, m1) == RecordFromJs(cfg, table, table[t.id].fields, v, depth, m1);
    if v.Mapping? {
      var reserved := Reserve(cfg, 32 + |n.fields| * 16, m1);
      if reserved.Done? {
        FieldFailuresAgree(cfg, table, t, active, n, v.entries, depth + 1, 0, map[], reserved.meter);
      }
    }
  }

  lemma {:induction false} FieldFailuresAgree(cfg: Config, table: Table, t: SemanticType, active: seq<string>, n: Node,
                                              entries: map<string, Value>, depth: int, i: nat,
                                              done: map<string, Value>, m: Meter)
    requires Unfolds(table, t, active, n) && forall name :: name in entries ==> Sized(cfg.limits, entries[name])
    requires t.ValueRef? && i <= |n.fields| && Settled(n, Mapping(entries))
    ensures ConvertFields(cfg, n, entries, Input, depth, i, done, m)
      == FieldsFromJs(cfg, table, table[t.id].fields, entries, depth, i, done, m)
    decreases n, 1, |n.fields| - i
  {
    if i < |n.fields| {
      var f := n.fields[i];
      PlannedFieldAt(table[t.id].fields, 0, table, active + [t.id], i);
      if f.name in entries {
        FailuresAgree(cfg, table, table[t.id].fields[i].typ, active + [t.id], f.node, entries[f.name], depth, m);
        var r := Convert(cfg, f.node, entries[f.name], Input, depth, m);
        if r.Done? {
          FieldFailuresAgree(cfg, table, t, active, n, entries, depth, i + 1, done[f.name := r.value], r.meter);
        }
      }
    }
  }

  // ------------------------------------------------------------------------- the preflight

  /** The same visits, and no more bytes. */
  predicate Behind(checked: Meter, spent: Meter) {
    checked.visited == spent.visited && 0 <= checked.bytes <= spent.bytes
  }

  /** A check goes on while the call does; it blames the type where the call does, and a limit only
      where the call does. */
  ghost predicate Foretells<T, U>(check: Outcome<T>, call: Outcome<U>) {
    && (call.Done? ==> check.Done? && Behind(check.meter, call.meter))
    && (call.Raised? && call.error == TypeFailure ==> check.Raised? && check.error == TypeFailure)
    && (check.Raised? && check.error == RangeFailure ==> call.Raised? && call.error == RangeFailure)
    && (call.Raised? ==> call.error == TypeFailure || call.error == RangeFailure)
  }

  lemma VisitForetells(cfg: Config, depth: int, checked: Meter, spent: Meter)
    requires Behind(checked, spent)
    ensures Foretells(Visit(cfg, depth, checked), Visit(cfg, depth, spent))
    ensures Visit(cfg, depth, spent).Raised? ==> Visit(cfg, depth, checked).Raised?
  {
  }

  lemma ScalarForetells(cfg: Config, scalar: ScalarKind, v: Value, checked: Meter, spent: Meter)
    requires cfg.failAfter.None? && Behind(checked, spent)
    ensures Foretells(ValidateScalar(cfg, scalar, v, checked), ScalarFromJs(cfg, scalar, v, spent))
  {
  }

  /** What the preflight refuses for its type is what the call would have refused for its type, unless
      the call runs out of bytes before. */
  lemma {:induction false} PreflightForetells(cfg: Config, table: Table, t: SemanticType, v: Value, depth: int,
                                              checked: Meter, spent: Meter)
    requires cfg.failAfter.None? && Behind(checked, spent)
    ensures Foretells(ValidateJs(cfg, table, t, v, depth, checked), FromJs(cfg, table, t, v, depth, spent))
    decreases Levels(cfg, depth), 0
  {
    var c, s := Visit(cfg, depth, checked), Visit(cfg, depth, spent);
    VisitForetells(cfg, depth, checked, spent);
    if s.Raised? {
      NoVisit(cfg, table, t, v, depth, spent);
      NoVisit(cfg, table, t, v, depth, checked);
    } else {
      StepForetells(cfg, table, t, v, depth, checked, spent);
      VisitedForetells(cfg, table, t, v, depth, c.meter, s.meter);
    }
  }

  lemma StepForetells(cfg: Config, table: Table, t: SemanticType, v: Value, depth: int, checked: Meter, spent: Meter)
    requires Visit(cfg, depth, checked).Done? && Visit(cfg, depth, spent).Done?
    ensures ValidateJs(cfg, table, t, v, depth, checked)
      == ValidateVisited(cfg, table, t, v, depth, Visit(cfg, depth, checked).meter)
    ensures FromJs(cfg, table, t, v, depth, spent)
      == VisitedFromJs(cfg, table, t, v, depth, Visit(cfg, depth, spent).meter)
  {
    AfterVisit(cfg, table, t, v, depth, spent);
    AfterVisit(cfg, table, t, v, depth, checked);
  }

  lemma {:induction false} VisitedForetells(cfg: Config, table: Table, t: SemanticType, v: Value, depth: int,
                                            checked: Meter, spent: Meter)
    requires cfg.failAfter.None? && Behind(checked, spent) && depth <= cfg.limits.maxDepth
    ensures Foretells(ValidateVisited(cfg, table, t, v, depth, checked), VisitedFromJs(cfg, table, t, v, depth, spent))
    decreases Levels(cfg, depth), 0, 3
  {
    if !t.VoidType? && !v.Undefined? && !v.Null? {
      if t.NullableOf? {
        PreflightForetells(cfg, table, t.element, v, depth + 1, checked, spent);
      } else {
        PresentForetells(cfg, table, t, v, depth, checked, spent);
      }
    }
  }

  lemma {:induction false} PresentForetells(cfg: Config, table: Table, t: SemanticType, v: Value, depth: int,
                                            checked: Meter, spent: Meter)
    requires cfg.failAfter.None? && Behind(checked, spent)
    requires depth <= cfg.limits.maxDepth && !t.VoidType? && !t.NullableOf?
    ensures Foretells(ValidatePresent(cfg, table, t, v, depth, checked), PresentFromJs(cfg, table, t, v, depth, spent))
    decreases Levels(cfg, depth), 0, 2
  {
    if t.ScalarType? {
      ScalarForetells(cfg, t.scalar, v, checked, spent);
    } else if t.ArrayOf? {
      ArrayForetells(cfg, table, t, v, depth, checked, spent);
    } else if t.ValueRef? && t.id in table && table[t.id].ValueDeclaration? {
      RecordForetells(cfg, table, t, v, depth, checked, spent);
    } else {
      LeavesForetell(cfg, table, t, v, depth, checked, spent);
    }
  }

  lemma LeavesForetell(cfg: Config, table: Table, t: SemanticType, v: Value, depth: int, checked: Meter, spent: Meter)
    requires cfg.failAfter.None? && Behind(checked, spent) && depth <= cfg.limits.maxDepth
    requires !t.VoidType? && !t.NullableOf? && !t.ScalarType? && !t.ArrayOf?
    requires !(t.ValueRef? && t.id in table && table[t.id].ValueDeclaration?)
    ensures Foretells(ValidatePresent(cfg, table, t, v, depth, checked), PresentFromJs(cfg, table, t, v, depth, spent))
  {
  }

  lemma {:induction false} ArrayForetells(cfg: Config, table: Table, t: SemanticType, v: Value, depth: int,
                                          checked: Meter, spent: Meter)
    requires cfg.failAfter.None? && Behind(checked, spent) && depth <= cfg.limits.maxDepth && t.ArrayOf?
    ensures Foretells(ValidatePresent(cfg, table, t, v, depth, checked), PresentFromJs(cfg, table, t, v, depth, spent))
    decreases Levels(cfg, depth), 0, 1
  {
    assert PresentFromJs(cfg, table, t, v, depth, spent) == ArrayFromJs(cfg, table, t.element, v, depth, spent);
    if v.List? && |v.items| <= cfg.limits.maxArrayLength {
      var reserved := Reserve(cfg, ArrayBytes(|v.items|), spent);
      if reserved.Done? {
        ItemsForetell(cfg, table, t.element, v.items, depth + 1, 0, [], checked, reserved.meter);
      }
    }
  }

  lemma {:induction false} RecordForetells(cfg: Config, table: Table, t: SemanticType, v: Value, depth: int,
                                           checked: Meter, spent: Meter)
    requires cfg.failAfter.None? && Behind(checked, spent) && depth <= cfg.limits.maxDepth
    requires t.ValueRef? && t.id in table && table[t.id].ValueDeclaration?
    ensures Foretells(ValidatePresent(cfg, table, t, v, depth, checked), PresentFromJs(cfg, table, t, v, depth, spent))
    decreases Levels(cfg, depth), 0, 1
  {
    var fields := table[t.id].fields;
    assert PresentFromJs(cfg, table, t, v, depth, spent) == RecordFromJs(cfg, table, fields, v, depth, spent);
    if v.Mapping? {
      var reserved := Reserve(cfg, 32 + |fields| * 16, spent);
      if reserved.Done? {
        FieldsForetell(cfg, table, fields, v.entries, depth + 1, 0, map[], checked, reserved.meter);
      }
    }
  }

  lemma {:induction false} ItemsForetell(cfg: Config, table: Table, element: SemanticType, items: seq<Value>,
                                         depth: int, i: nat, done: seq<Value>, checked: Meter, spent: Meter)
    requires cfg.failAfter.None? && Behind(checked, spent) && i <= |items|
    ensures Foretells(ValidateItems(cfg, table, element, items, depth, i, checked),
                      ItemsFromJs(cfg, table, element, items, depth, i, done, spent))
    decreases Levels(cfg, depth), 1, |items| - i
  {
    if i < |items| && !items[i].ArrayHole? {
      PreflightForetells(cfg, table, element, items[i], depth, checked, spent);
      var r := FromJs(cfg, table, element, items[i], depth, spent);
      if r.Done? {
        var c := ValidateJs(cfg, table, element, items[i], depth, checked).meter;
        ItemsForetell(cfg, table, element, items, depth, i + 1, done + [r.value], c, r.meter);
      }
    }
  }

  lemma {:induction false} FieldsForetell(cfg: Config, table: Table, fields: seq<FieldDeclaration>,
                                          entries: map<string, Value>, depth: int, i: nat, done: map<string, Value>,
                                          checked: Meter, spent: Meter)
    requires cfg.failAfter.None? && Behind(checked, spent) && i <= |fields|
    ensures Foretells(ValidateFields(cfg, table, fields, entries, depth, i, checked),
                      FieldsFromJs(cfg, table, fields, entries, depth, i, done, spent))
    decreases Levels(cfg, depth), 1, |fields| - i
  {
    if i < |fields| && fields[i].name in entries {
      var f := fields[i];
      PreflightForetells(cfg, table, f.typ, entries[f.name], depth, checked, spent);
      var r := FromJs(cfg, table, f.typ, entries[f.name], depth, spent);
      if r.Done? {
        var c := ValidateJs(cfg, table, f.typ, entries[f.name], depth, checked).meter;
        FieldsForetell(cfg, table, fields, entries, depth, i + 1, done[f.name := r.value], c, r.meter);
      }
    }
  }
}
