/** `_plan_type`: unfold a type over a possibly cyclic declaration table into a finite tree. */
module Planning {
  import opened Semantics

  datatype NodeField = NodeField(name: string, node: Node)

  datatype Node =
    | VoidNode
    | ScalarNode(scalar: ScalarKind)
    | EnumNode(id: string, name: string, constants: seq<string>)
    | ValueNode(id: string, name: string, fields: seq<NodeField>)
    | ObjectNode(id: string, name: string)
    | ArrayNode(element: Node)
    | NullableNode(element: Node)

  /** The ways a plan is refused; the source raises one error class for all of them. */
  datatype PlanFailure = UnknownType | WrongKind | RecursiveValue | MalformedNode

  datatype PlanResult<+T> = Planned(node: T) | Refused(failure: PlanFailure) {
    predicate IsFailure() { Refused? }
    function PropagateFailure<U>(): PlanResult<U> requires Refused? { Refused(failure) }
    function Extract(): T requires Planned? { node }
  }

  function ActiveSet(active: seq<string>): set<string> {
    set id | id in active
  }

  /** Declarations still free to be entered: what planning runs out of on a cyclic table. */
  function Free(table: Table, active: seq<string>): nat {
    |table.Keys - ActiveSet(active)|
  }

  lemma EnteringUsesUpADeclaration(table: Table, active: seq<string>, id: string)
    requires id in table && id !in active
    ensures Free(table, active + [id]) < Free(table, active)
  {
    var before, after := table.Keys - ActiveSet(active), table.Keys - ActiveSet(active + [id]);
    assert after == before - {id};
  }

  function PlanType(t: SemanticType, table: Table, active: seq<string>): PlanResult<Node>
    decreases Free(table, active), 0, t
  {
    if t.VoidType? then Planned(VoidNode)
    else if t.ScalarType? then Planned(ScalarNode(t.scalar))
    else if t.ArrayOf? then
      var child :- PlanType(t.element, table, active);
      Planned(ArrayNode(child))
    else if t.NullableOf? then
      var child :- PlanType(t.element, table, active);
      Planned(NullableNode(child))
    else if t.id !in table then Refused(UnknownType)
    else
      match table[t.id]
      case EnumDeclaration(name, constants) =>
        if !t.EnumRef? then Refused(WrongKind)
        else if t.id == "" || name == "" || constants == [] then Refused(MalformedNode)
        else Planned(EnumNode(t.id, name, constants))
      case ObjectDeclaration(name) =>
        if !t.ObjectRef? then Refused(WrongKind)
        else if t.id == "" || name == "" then Refused(MalformedNode)
        else Planned(ObjectNode(t.id, name))
      case ValueDeclaration(name, fields) =>
        if !t.ValueRef? then Refused(WrongKind)
        else if t.id in active then Refused(RecursiveValue)
        else
          EnteringUsesUpADeclaration(table, active, t.id);
          var nodes :- PlanFields(fields, 0, table, active + [t.id]);
          if t.id == "" || name == "" || nodes == [] then Refused(MalformedNode)
          else Planned(ValueNode(t.id, name, nodes))
  }

  function PlanFields(fields: seq<FieldDeclaration>, i: nat, table: Table, active: seq<string>)
    : (r: PlanResult<seq<NodeField>>)
    requires i <= |fields|
    ensures r.Planned? ==> |r.node| == |fields| - i
    decreases Free(table, active), 1, |fields| - i
  {
    if i == |fields| then Planned([])
    else
      var node :- PlanType(fields[i].typ, table, active);
      var rest :- PlanFields(fields, i + 1, table, active);
      Planned([NodeField(fields[i].name, node)] + rest)
  }

  lemma {:induction false} PlannedFieldAt(fields: seq<FieldDeclaration>, i: nat, table: Table, active: seq<string>,
                                          k: nat)
    requires i <= k < |fields|
    requires PlanFields(fields, i, table, active).Planned?
    ensures PlanType(fields[k].typ, table, active).Planned?
    ensures PlanFields(fields, i, table, active).node[k - i]
         == NodeField(fields[k].name, PlanType(fields[k].typ, table, active).node)
    decreases k - i
  {
    if i < k {
      PlannedFieldAt(fields, i + 1, table, active, k);
    }
  }

  lemma {:induction false} FieldsPlan(fields: seq<FieldDeclaration>, i: nat, table: Table, active: seq<string>)
    requires i <= |fields|
    requires forall k :: i <= k < |fields| ==> PlanType(fields[k].typ, table, active).Planned?
    ensures PlanFields(fields, i, table, active).Planned?
    decreases |fields| - i
  {
    if i < |fields| {
      FieldsPlan(fields, i + 1, table, active);
    }
  }

  // ------------------------------------------------ when a plan exists: reachability

  /** The named or leaf type under the array and nullable wrappers. */
  function Core(t: SemanticType): SemanticType {
    match t
    case ArrayOf(e) => Core(e)
    case NullableOf(e) => Core(e)
    case _ => t
  }

  predicate IsReference(t: SemanticType) {
    t.EnumRef? || t.ValueRef? || t.ObjectRef?
  }

  /** A reference that resolves to a declaration of its own kind, with something in it. */
  predicate Sound(table: Table, r: SemanticType)
    requires IsReference(r)
  {
    r.id in table && r.id != "" && table[r.id].name != "" &&
    match table[r.id]
    case EnumDeclaration(_, constants) => r.EnumRef? && constants != []
    case ObjectDeclaration(_) => r.ObjectRef?
    case ValueDeclaration(_, fields) => r.ValueRef? && fields != []
  }

  /** The value r has a field whose core is s. */
  ghost predicate Mentions(table: Table, r: SemanticType, s: SemanticType) {
    r.ValueRef? && r.id in table && table[r.id].ValueDeclaration? &&
    exists f :: f in table[r.id].fields && Core(f.typ) == s
  }

  ghost predicate Chain(table: Table, p: seq<SemanticType>) {
    && p != []
    && (forall i :: 0 <= i < |p| ==> IsReference(p[i]))
    && (forall i :: 0 < i < |p| ==> Mentions(table, p[i - 1], p[i]))
  }

  ghost predicate Links(table: Table, p: seq<SemanticType>, r: SemanticType, s: SemanticType) {
    Chain(table, p) && p[0] == r && p[|p| - 1] == s
  }

  ghost predicate Reachable(table: Table, t: SemanticType, r: SemanticType) {
    exists p :: Links(table, p, Core(t), r)
  }

  ghost predicate ReachesItself(table: Table, r: SemanticType) {
    exists p :: Links(table, p, r, r) && |p| > 1
  }

  lemma ChainsCompose(table: Table, p: seq<SemanticType>, q: seq<SemanticType>)
    requires Chain(table, p) && Chain(table, q) && p[|p| - 1] == q[0]
    ensures Links(table, p + q[1..], p[0], q[|q| - 1])
  {
    var c := p + q[1..];
    forall i | 0 < i < |c|
      ensures Mentions(table, c[i - 1], c[i])
    {
      if i >= |p| {
        assert c[i] == q[i - |p| + 1] && c[i - 1] == q[i - |p|];
      }
    }
  }

  /** A planned type has no repeated reference on any chain below it. */
  lemma {:induction false} PlannedChains(t: SemanticType, table: Table, active: seq<string>, p: seq<SemanticType>)
    requires PlanType(t, table, active).Planned?
    requires Chain(table, p) && p[0] == Core(t)
    ensures forall i :: 0 <= i < |p| ==> Sound(table, p[i]) && (p[i].ValueRef? ==> p[i].id !in active)
    ensures forall i, j :: 0 <= i < j < |p| ==> p[i] != p[j]
    decreases |p|, t
  {
    if t.ArrayOf? || t.NullableOf? {
      PlannedChains(t.element, table, active, p);
    } else {
      assert Sound(table, t);
      if |p| > 1 {
        assert Mentions(table, p[0], p[1]);
        var fields := table[t.id].fields;
        var k :| 0 <= k < |fields| && Core(fields[k].typ) == p[1];
        PlannedFieldAt(fields, 0, table, active + [t.id], k);
        assert forall i :: 0 <= i < |p| - 1 ==> p[1..][i] == p[i + 1];
        PlannedChains(fields[k].typ, table, active + [t.id], p[1..]);
        forall j | 0 < j < |p|
          ensures p[j] != p[0]
        {
          assert p[j] == p[1..][j - 1];
        }
      }
    }
  }

  lemma RepeatedChainsDoNotPlan(t: SemanticType, table: Table, p: seq<SemanticType>, i: nat, j: nat)
    requires Chain(table, p) && p[0] == Core(t)
    requires i < j < |p| && p[i] == p[j]
    ensures PlanType(t, table, []).Refused?
  {
    if PlanType(t, table, []).Planned? {
      PlannedChains(t, table, [], p);
    }
  }

  /** A type whose reachable references are sound, acyclic and not already being planned plans. */
  lemma {:induction false} SoundTypesPlan(t: SemanticType, table: Table, active: seq<string>)
    requires forall r :: Reachable(table, t, r) ==>
      Sound(table, r) && !ReachesItself(table, r) && (r.ValueRef? ==> r.id !in active)
    ensures PlanType(t, table, active).Planned?
    decreases Free(table, active), t
  {
    if t.ArrayOf? || t.NullableOf? {
      assert Core(t) == Core(t.element);
      assert forall r, p :: Links(table, p, Core(t.element), r) ==> Links(table, p, Core(t), r);
      SoundTypesPlan(t.element, table, active);
    } else if IsReference(t) {
      assert Links(table, [t], Core(t), t);
      assert Reachable(table, t, t);
      if t.ValueRef? {
        SoundFieldsPlan(t, table, active);
      }
    }
  }

  lemma {:induction false} SoundFieldsPlan(t: SemanticType, table: Table, active: seq<string>)
    requires t.ValueRef? && t.id in table && table[t.id].ValueDeclaration? && t.id !in active
    requires !ReachesItself(table, t)
    requires forall r :: Reachable(table, t, r) ==>
      Sound(table, r) && !ReachesItself(table, r) && (r.ValueRef? ==> r.id !in active)
    ensures PlanFields(table[t.id].fields, 0, table, active + [t.id]).Planned?
    decreases Free(table, active), t, 0
  {
    EnteringUsesUpADeclaration(table, active, t.id);
    var fields := table[t.id].fields;
    forall k | 0 <= k < |fields|
      ensures PlanType(fields[k].typ, table, active + [t.id]).Planned?
    {
      forall r | Reachable(table, fields[k].typ, r)
        ensures Sound(table, r) && !ReachesItself(table, r) && (r.ValueRef? ==> r.id !in active + [t.id])
      {
        StepsAreReachable(t, table, fields[k], r);
      }
      SoundTypesPlan(fields[k].typ, table, active + [t.id]);
    }
    FieldsPlan(fields, 0, table, active + [t.id]);
  }

  lemma StepsAreReachable(t: SemanticType, table: Table, f: FieldDeclaration, r: SemanticType)
    requires t.ValueRef? && t.id in table && table[t.id].ValueDeclaration? && f in table[t.id].fields
    requires Reachable(table, f.typ, r)
    ensures Reachable(table, t, r)
    ensures r == t ==> ReachesItself(table, t)
  {
    var p :| Links(table, p, Core(f.typ), r);
    assert Mentions(table, t, p[0]);
    var q := [t, p[0]];
    assert Chain(table, q);
    ChainsCompose(table, q, p);
    assert Links(table, q + p[1..], Core(t), r);
  }

  /** Planning succeeds on any finite table, cyclic ones included, exactly when every
      reachable reference is sound and no reachable type reaches itself. */
  lemma PlanningSucceedsIff(t: SemanticType, table: Table)
    ensures PlanType(t, table, []).Planned?
      <==> forall r :: Reachable(table, t, r) ==> Sound(table, r) && !ReachesItself(table, r)
  {
    if PlanType(t, table, []).Planned? {
      forall r | Reachable(table, t, r)
        ensures Sound(table, r) && !ReachesItself(table, r)
      {
        var p :| Links(table, p, Core(t), r);
        PlannedChains(t, table, [], p);
        if ReachesItself(table, r) {
          var q :| Links(table, q, r, r) && |q| > 1;
          ChainsCompose(table, p, q);
          RepeatedChainsDoNotPlan(t, table, p + q[1..], |p| - 1, |p| + |q| - 2);
        }
      }
    } else if forall r :: Reachable(table, t, r) ==> Sound(table, r) && !ReachesItself(table, r) {
      SoundTypesPlan(t, table, []);
    }
  }

  // ------------------------------------------------------------ well-formed plans

  /** Void only at the root of a plan, and field names unique in every value. */
  ghost predicate WellFormed(n: Node) {
    match n
    case ArrayNode(e) => !e.VoidNode? && WellFormed(e)
    case NullableNode(e) => !e.VoidNode? && WellFormed(e)
    case ValueNode(_, _, fields) =>
      && (forall i, j :: 0 <= i < j < |fields| ==> fields[i].name != fields[j].name)
      && (forall i :: 0 <= i < |fields| ==> !fields[i].node.VoidNode? && WellFormed(fields[i].node))
    case _ => true
  }

  lemma {:induction false} PlansAreWellFormed(t: SemanticType, table: Table, active: seq<string>)
    requires ValidTable(table) && NoNestedVoid(t)
    requires PlanType(t, table, active).Planned?
    ensures WellFormed(PlanType(t, table, active).node)
    ensures PlanType(t, table, active).node.VoidNode? <==> t.VoidType?
    decreases Free(table, active), t
  {
    if t.ArrayOf? || t.NullableOf? {
      PlansAreWellFormed(t.element, table, active);
    } else if t.ValueRef? {
      var fields, inner := table[t.id].fields, active + [t.id];
      EnteringUsesUpADeclaration(table, active, t.id);
      assert ValidDeclaration(table[t.id]);
      forall k | 0 <= k < |fields|
        ensures PlanFields(fields, 0, table, inner).node[k].name == fields[k].name
        ensures var n := PlanFields(fields, 0, table, inner).node[k].node; !n.VoidNode? && WellFormed(n)
      {
        PlannedFieldAt(fields, 0, table, inner, k);
        PlansAreWellFormed(fields[k].typ, table, inner);
      }
    }
  }

  // ------------------------------------------------------------- a plan holds its types

  /** The type a plan was made of. */
  function Folded(n: Node): SemanticType {
    match n
    case VoidNode => VoidType
    case ScalarNode(scalar) => ScalarType(scalar)
    case EnumNode(id, _, _) => EnumRef(id)
    case ValueNode(id, _, _) => ValueRef(id)
    case ObjectNode(id, _) => ObjectRef(id)
    case ArrayNode(element) => ArrayOf(Folded(element))
    case NullableNode(element) => NullableOf(Folded(element))
  }

  /** Every named node of a plan carries the declaration the table has under its identity. */
  ghost predicate Holds(table: Table, n: Node)
    decreases n
  {
    match n
    case EnumNode(id, name, constants) => id in table && table[id] == EnumDeclaration(name, constants)
    case ObjectNode(id, name) => id in table && table[id] == ObjectDeclaration(name)
    case ValueNode(id, name, fields) =>
      && id in table && table[id].ValueDeclaration? && table[id].name == name && |table[id].fields| == |fields|
      && (forall k :: 0 <= k < |fields| ==>
            && table[id].fields[k] == FieldDeclaration(fields[k].name, Folded(fields[k].node))
            && Holds(table, fields[k].node))
    case ArrayNode(element) => Holds(table, element)
    case NullableNode(element) => Holds(table, element)
    case _ => true
  }

  /** Planning loses nothing: the plan folds back to its type and repeats the declarations. */
  lemma {:induction false} PlansFoldBack(t: SemanticType, table: Table, active: seq<string>)
    requires PlanType(t, table, active).Planned?
    ensures Folded(PlanType(t, table, active).node) == t && Holds(table, PlanType(t, table, active).node)
    decreases Free(table, active), t
  {
    if t.ArrayOf? || t.NullableOf? {
      PlansFoldBack(t.element, table, active);
    } else if t.ValueRef? {
      var fields, inner := table[t.id].fields, active + [t.id];
      EnteringUsesUpADeclaration(table, active, t.id);
      forall k | 0 <= k < |fields|
        ensures var f := PlanFields(fields, 0, table, inner).node[k];
          fields[k] == FieldDeclaration(f.name, Folded(f.node)) && Holds(table, f.node)
      {
        PlannedFieldAt(fields, 0, table, inner, k);
        PlansFoldBack(fields[k].typ, table, inner);
      }
    }
  }
}
