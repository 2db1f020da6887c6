/** The identity registry as a transition system: its list of weak entries, and an environment
    that expires owners and collects JavaScript objects between calls and beside them. */
module RegistryModel {
  import opened Wrappers

  /** A shared pointer: its control block and the address it points at. */
  datatype Instance = Instance(owner: nat, address: nat)

  /** A weak owner, its type and address, and a weak JavaScript object. */
  datatype Entry = Entry(typeId: string, owner: nat, address: nat, js: nat)

  datatype World = World(entries: seq<Entry>, runtime: Option<nat>, expired: set<nat>, collected: set<nat>, nextJs: nat)

  datatype Reply = Wrapped(js: nat) | WrongRuntime | NullInstance | ConflictingOwner | FactoryFailed | Purged

  predicate Expired(w: World, e: Entry) { e.owner in w.expired }

  predicate Live(w: World, e: Entry) { !Expired(w, e) && e.js !in w.collected }

  predicate SameAddressAndType(e: Entry, typeId: string, address: nat) {
    e.typeId == typeId && e.address == address
  }

  predicate Matches(e: Entry, typeId: string, i: Instance) {
    SameAddressAndType(e, typeId, i.address) && e.owner == i.owner
  }

  function Without(s: seq<Entry>, i: nat): seq<Entry>
    requires i < |s|
  {
    s[..i] + s[i + 1..]
  }

  // ---------------------------------------------------------------- the world beside a call

  /** Owners that expire and objects that are collected while a call is under way. */
  datatype Event = Event(expired: set<nat>, collected: set<nat>)

  /** What the next step of a call finds; nothing more happens once the events run out. */
  function Passed(w: World, during: seq<Event>): World {
    if during == [] then w
    else w.(expired := w.expired + during[0].expired, collected := w.collected + during[0].collected)
  }

  function Later(during: seq<Event>): seq<Event> {
    if during == [] then [] else during[1..]
  }

  /** The second world is the first after some more deaths. */
  predicate Ages(w: World, w': World) {
    w' == w.(expired := w'.expired, collected := w'.collected) && w.expired <= w'.expired && w.collected <= w'.collected
  }

  /** The events expire no owner the caller holds, and collect only objects that exist. */
  predicate Spares(during: seq<Event>, held: set<nat>, nextJs: nat) {
    forall e :: e in during ==> e.expired !! held && forall js :: js in e.collected ==> js < nextJs
  }

  // ----------------------------------------------------------------------- operations

  datatype Lookup = Conflict | Found(js: nat) | Missing

  datatype Scanned = Scanned(world: World, entries: seq<Entry>, lookup: Lookup, during: seq<Event>)

  /** The scan of `wrap` from position i: expired entries are erased on the way. */
  function Scan(w: World, entries: seq<Entry>, i: nat, typeId: string, instance: Instance, during: seq<Event>)
    : (s: Scanned)
    requires i <= |entries|
    ensures Ages(w, s.world) && forall e :: e in s.during ==> e in during
    decreases |entries| - i
  {
    if i == |entries| then Scanned(w, entries, Missing, during)
    else
      var w1, later, e := Passed(w, during), Later(during), entries[i];
      if Expired(w1, e) then Scan(w1, Without(entries, i), i, typeId, instance, later)
      else if !Matches(e, typeId, instance) then
        if SameAddressAndType(e, typeId, instance.address) then Scanned(w1, entries, Conflict, later)
        else Scan(w1, entries, i + 1, typeId, instance, later)
      else if e.js !in w1.collected then Scanned(w1, entries, Found(e.js), later)
      else Scanned(w1, Without(entries, i), Missing, later)
  }

  predicate RuntimeAccepted(w: World, runtime: nat) {
    w.runtime.None? || w.runtime.value == runtime
  }

  /** `wrap`; factoryOk says whether making the host object succeeds. */
  function Wrap(w: World, runtime: nat, typeId: string, instance: Option<Instance>, factoryOk: bool,
                during: seq<Event>): (World, Reply)
  {
    if !RuntimeAccepted(w, runtime) then (w, WrongRuntime)
    else if instance.None? then (w.(runtime := Some(runtime)), NullInstance)
    else
      var s := Scan(w.(runtime := Some(runtime)), w.entries, 0, typeId, instance.value, during);
      var w2 := s.world.(entries := s.entries);
      match s.lookup
      case Conflict => (w2, ConflictingOwner)
      case Found(js) => (w2, Wrapped(js))
      case Missing => Insert(Passed(w2, s.during), typeId, instance.value, factoryOk)
  }

  function Insert(w: World, typeId: string, i: Instance, factoryOk: bool): (World, Reply) {
    if !factoryOk then (w, FactoryFailed)
    else
      (w.(entries := w.entries + [Entry(typeId, i.owner, i.address, w.nextJs)], nextJs := w.nextJs + 1),
       Wrapped(w.nextJs))
  }

  /** `purge` from position i. */
  function PurgeFrom(w: World, entries: seq<Entry>, i: nat, during: seq<Event>): (r: (World, seq<Entry>))
    requires i <= |entries|
    ensures Ages(w, r.0)
    decreases |entries| - i
  {
    if i == |entries| then (w, entries)
    else
      var w1, later := Passed(w, during), Later(during);
      if Live(w1, entries[i]) then PurgeFrom(w1, entries, i + 1, later)
      else PurgeFrom(w1, Without(entries, i), i, later)
  }

  function Purge(w: World, runtime: nat, during: seq<Event>): (World, Reply) {
    if !RuntimeAccepted(w, runtime) then (w, WrongRuntime)
    else
      var (w1, entries) := PurgeFrom(w.(runtime := Some(runtime)), w.entries, 0, during);
      (w1.(entries := entries), Purged)
  }

  datatype Step =
    | WrapStep(runtime: nat, typeId: string, instance: Option<Instance>, factoryOk: bool, during: seq<Event>)
    | PurgeStep(runtime: nat, during: seq<Event>)
    | ExpireOwner(owner: nat)
    | CollectJs(js: nat)

  function Apply(w: World, step: Step): World {
    match step
    case WrapStep(runtime, typeId, instance, factoryOk, during) =>
      Wrap(w, runtime, typeId, instance, factoryOk, during).0
    case PurgeStep(runtime, during) => Purge(w, runtime, during).0
    case ExpireOwner(owner) => w.(expired := w.expired + {owner})
    case CollectJs(js) => w.(collected := w.collected + {js})
  }

  function Holding(instance: Option<Instance>): set<nat> {
    if instance.Some? then {instance.value.owner} else {}
  }

  /** A caller holds the shared pointer it wraps, and only objects that exist are collected. */
  predicate LegalCall(w: World, instance: Option<Instance>, during: seq<Event>) {
    Holding(instance) !! w.expired && Spares(during, Holding(instance), w.nextJs)
  }

  predicate Legal(w: World, step: Step) {
    match step
    case WrapStep(_, _, instance, _, during) => LegalCall(w, instance, during)
    case PurgeStep(_, during) => LegalCall(w, None, during)
    case ExpireOwner(_) => true
    case CollectJs(js) => js < w.nextJs
  }

  predicate LegalRun(w: World, run: seq<Step>)
    decreases |run|
  {
    run == [] || (Legal(w, run[0]) && LegalRun(Apply(w, run[0]), run[1..]))
  }

  function Run(w: World, run: seq<Step>): World
    decreases |run|
  {
    if run == [] then w else Run(Apply(w, run[0]), run[1..])
  }

  // ------------------------------------------------------------------------ invariant

  /** Unexpired entries have distinct types and addresses, and no two entries share an object. */
  ghost predicate Consistent(w: World, entries: seq<Entry>) {
    && (forall i, j :: 0 <= i < j < |entries| && entries[i].owner !in w.expired && entries[j].owner !in w.expired ==>
          !(entries[i].typeId == entries[j].typeId && entries[i].address == entries[j].address))
    && (forall i, j :: 0 <= i < j < |entries| ==> entries[i].js != entries[j].js)
    && (forall i :: 0 <= i < |entries| ==> entries[i].js < w.nextJs)
  }

  /** Objects handed out are below nextJs, so a new one has not been collected. */
  ghost predicate Inv(w: World) {
    Consistent(w, w.entries) && CollectedExist(w)
  }

  ghost function LiveEntries(w: World, entries: seq<Entry>): set<Entry> {
    set e | e in entries && e.owner !in w.expired && e.js !in w.collected
  }

  ghost function Unexpired(w: World, entries: seq<Entry>): set<Entry> {
    set e | e in entries && e.owner !in w.expired
  }

  /** What is live depends on the deaths alone. */
  lemma SameDeaths(w: World, w': World, entries: seq<Entry>)
    requires w.expired == w'.expired && w.collected == w'.collected
    ensures LiveEntries(w, entries) == LiveEntries(w', entries)
  {
  }

  lemma Erasing(w: World, entries: seq<Entry>, i: nat)
    requires Consistent(w, entries) && i < |entries|
    ensures Consistent(w, Without(entries, i))
    ensures forall e :: e in Without(entries, i) <==> e in entries && e != entries[i]
  {
    var rest := Without(entries, i);
    assert forall k :: 0 <= k < |rest| ==> rest[k] == entries[if k < i then k else k + 1];
    forall e | e in entries && e != entries[i]
      ensures e in rest
    {
      var k :| 0 <= k < |entries| && entries[k] == e;
      assert rest[if k < i then k else k - 1] == e;
    }
  }

  lemma ErasingTheDead(w: World, entries: seq<Entry>, i: nat)
    requires Consistent(w, entries) && i < |entries| && !Live(w, entries[i])
    ensures LiveEntries(w, Without(entries, i)) == LiveEntries(w, entries)
    ensures Unexpired(w, Without(entries, i)) <= Unexpired(w, entries)
    ensures Expired(w, entries[i]) ==> Unexpired(w, Without(entries, i)) == Unexpired(w, entries)
  {
    Erasing(w, entries, i);
  }

  /** A live native address held by another owner. */
  ghost predicate Contested(w: World, entries: seq<Entry>, typeId: string, instance: Instance) {
    exists e :: e in Unexpired(w, entries) && e.typeId == typeId && e.address == instance.address
      && e.owner != instance.owner
  }

  /** What the scan promises: it erases dead entries only, and classifies the instance. */
  ghost predicate Classified(w: World, entries: seq<Entry>, typeId: string, instance: Instance,
                             after: seq<Entry>, lookup: Lookup)
  {
    && Consistent(w, after) && LiveEntries(w, after) == LiveEntries(w, entries)
    && Unexpired(w, after) <= Unexpired(w, entries)
    && (lookup.Conflict? <==> Contested(w, entries, typeId, instance))
    && (lookup.Found? ==> Entry(typeId, instance.owner, instance.address, lookup.js) in LiveEntries(w, entries))
    && (lookup.Missing? ==>
          forall e :: e in Unexpired(w, after) ==> !(e.typeId == typeId && e.address == instance.address))
  }

  /** Whatever dies beside the scan, it classifies the instance in the world it ends in. */
  lemma {:induction false} ScanClassifies(w: World, entries: seq<Entry>, i: nat, typeId: string, instance: Instance,
                                          during: seq<Event>)
    requires Consistent(w, entries) && i <= |entries|
    requires instance.owner !in w.expired && Spares(during, {instance.owner}, w.nextJs)
    requires forall k :: 0 <= k < i ==> !SameAddressAndType(entries[k], typeId, instance.address)
    ensures var s := Scan(w, entries, i, typeId, instance, during);
      instance.owner !in s.world.expired && Classified(s.world, entries, typeId, instance, s.entries, s.lookup)
    decreases |entries| - i
  {
    if i < |entries| {
      var w1, later, e := Passed(w, during), Later(during), entries[i];
      if Expired(w1, e) {
        Erasing(w1, entries, i);
        ScanClassifies(w1, Without(entries, i), i, typeId, instance, later);
        ErasingTheDead(Scan(w, entries, i, typeId, instance, during).world, entries, i);
      } else if !SameAddressAndType(e, typeId, instance.address) {
        ScanClassifies(w1, entries, i + 1, typeId, instance, later);
      } else {
        ScanStops(w, entries, i, typeId, instance, during);
      }
    }
  }

  lemma ScanStops(w: World, entries: seq<Entry>, i: nat, typeId: string, instance: Instance, during: seq<Event>)
    requires Consistent(w, entries) && i < |entries| && !Expired(Passed(w, during), entries[i])
    requires SameAddressAndType(entries[i], typeId, instance.address)
    ensures var s := Scan(w, entries, i, typeId, instance, during);
      s.world == Passed(w, during) && Classified(s.world, entries, typeId, instance, s.entries, s.lookup)
  {
    var w1, e := Passed(w, during), entries[i];
    assert e in Unexpired(w1, entries);
    assert forall other :: other in Unexpired(w1, entries) && other != e ==>
        !SameAddressAndType(other, typeId, instance.address);
    if e.owner == instance.owner && e.js in w1.collected {
      Erasing(w1, entries, i);
      ErasingTheDead(w1, entries, i);
    }
  }

  /** A purge keeps what is live when it ends, and nothing that was dead when it began. */
  lemma {:induction false} PurgeKeepsTheLive(w: World, entries: seq<Entry>, i: nat, during: seq<Event>)
    requires Consistent(w, entries) && i <= |entries|
    ensures var (w', after) := PurgeFrom(w, entries, i, during);
      && Consistent(w', after) && LiveEntries(w', after) == LiveEntries(w', entries)
      && (forall e :: e in after ==> e in entries[..i] || Live(w, e))
    decreases |entries| - i
  {
    if i < |entries| {
      var w1, later := Passed(w, during), Later(during);
      if Live(w1, entries[i]) {
        PurgeKeepsTheLive(w1, entries, i + 1, later);
      } else {
        Erasing(w1, entries, i);
        PurgeKeepsTheLive(w1, Without(entries, i), i, later);
        ErasingTheDead(PurgeFrom(w, entries, i, during).0, entries, i);
        assert Without(entries, i)[..i] == entries[..i];
      }
    }
  }

  // ----------------------------------------------------------- wrap as a map operation

  /** Only objects that exist are ever collected. */
  ghost predicate CollectedExist(w: World) {
    forall js :: js in w.collected ==> js < w.nextJs
  }

  lemma {:induction false} DeathsExist(w: World, entries: seq<Entry>, i: nat, typeId: string, instance: Instance,
                                       during: seq<Event>)
    requires i <= |entries| && CollectedExist(w) && Spares(during, {instance.owner}, w.nextJs)
    ensures CollectedExist(Scan(w, entries, i, typeId, instance, during).world)
    decreases |entries| - i
  {
    if i < |entries| {
      var w1 := Passed(w, during);
      if Expired(w1, entries[i]) {
        DeathsExist(w1, Without(entries, i), i, typeId, instance, Later(during));
      } else {
        DeathsExist(w1, entries, i + 1, typeId, instance, Later(during));
      }
    }
  }

  lemma {:induction false} PurgeDeathsExist(w: World, entries: seq<Entry>, i: nat, during: seq<Event>)
    requires i <= |entries| && CollectedExist(w) && Spares(during, {}, w.nextJs)
    ensures CollectedExist(PurgeFrom(w, entries, i, during).0)
    decreases |entries| - i
  {
    if i < |entries| {
      var w1 := Passed(w, during);
      if Live(w1, entries[i]) {
        PurgeDeathsExist(w1, entries, i + 1, Later(during));
      } else {
        PurgeDeathsExist(w1, Without(entries, i), i, Later(during));
      }
    }
  }

  lemma AppendingAnEntry(w: World, entries: seq<Entry>, e: Entry)
    requires Consistent(w, entries) && e.js == w.nextJs
    requires forall u :: u in Unexpired(w, entries) ==> !SameAddressAndType(u, e.typeId, e.address)
    ensures Consistent(w.(nextJs := w.nextJs + 1), entries + [e])
  {
    forall i | 0 <= i < |entries| && !Expired(w, entries[i])
      ensures !SameAddressAndType(entries[i], e.typeId, e.address)
    {
      assert entries[i] in Unexpired(w, entries);
    }
  }

  /** A live object exists for the instance. */
  ghost predicate HasObject(w: World, entries: seq<Entry>, typeId: string, instance: Instance) {
    exists js :: Entry(typeId, instance.owner, instance.address, js) in LiveEntries(w, entries)
  }

  /** Which answer `wrap` gives, in the world it ends in. */
  ghost predicate Answers(w: World, runtime: nat, typeId: string, instance: Option<Instance>, factoryOk: bool,
                          w': World, reply: Reply)
  {
    if w.runtime.Some? && w.runtime.value != runtime then reply == WrongRuntime
    else if instance.None? then reply == NullInstance
    else if Contested(w', w.entries, typeId, instance.value) then reply == ConflictingOwner
    else if HasObject(w', w.entries, typeId, instance.value) || factoryOk then reply.Wrapped?
    else reply == FactoryFailed
  }

  /** A lookup-or-insert on the live map: a contested address is refused, a live object is returned
      again, anything else gets a new object, and every other outcome, thrown errors included,
      changes the live map by the deaths beside the call only. */
  ghost predicate Refines(w: World, runtime: nat, typeId: string, instance: Option<Instance>, factoryOk: bool,
                          w': World, reply: Reply)
  {
    && Inv(w') && w.expired <= w'.expired && w.collected <= w'.collected && w.nextJs <= w'.nextJs
    && Answers(w, runtime, typeId, instance, factoryOk, w', reply)
    && (if reply.WrongRuntime? then w' == w else w'.runtime == Some(runtime))
    && (!reply.Wrapped? ==> LiveEntries(w', w'.entries) == LiveEntries(w', w.entries))
    && (reply.Wrapped? ==>
          && instance.Some? && reply.js !in w'.collected
          && var e := Entry(typeId, instance.value.owner, instance.value.address, reply.js);
          && LiveEntries(w', w'.entries) == LiveEntries(w', w.entries) + {e}
          && (e in LiveEntries(w', w.entries) || (reply.js == w.nextJs && factoryOk)))
  }

  /** Deaths between a scan that found nothing and the insertion change nothing the scan said. */
  lemma StillMissing(w: World, entries: seq<Entry>, typeId: string, instance: Instance, during: seq<Event>)
    requires Classified(w, entries, typeId, instance, w.entries, Missing)
    ensures var w' := Passed(w, during);
      Classified(w', entries, typeId, instance, w'.entries, Missing)
  {
    var w' := Passed(w, during);
    assert forall e :: Live(w', e) ==> Live(w, e);
    assert forall e :: e in LiveEntries(w', w'.entries) <==> Live(w', e) && e in LiveEntries(w, w.entries);
    assert forall e :: e in LiveEntries(w', entries) <==> Live(w', e) && e in LiveEntries(w, entries);
    assert forall e :: e in Unexpired(w', entries) ==> e in Unexpired(w, entries);
  }

  lemma InsertingAnEntry(w: World, typeId: string, i: Instance, factoryOk: bool)
    requires Inv(w) && i.owner !in w.expired
    requires forall e :: e in Unexpired(w, w.entries) ==> !SameAddressAndType(e, typeId, i.address)
    ensures var (w', reply) := Insert(w, typeId, i, factoryOk);
      && Inv(w') && reply == (if factoryOk then Wrapped(w.nextJs) else FactoryFailed)
      && LiveEntries(w', w'.entries) == LiveEntries(w', w.entries)
           + (if factoryOk then {Entry(typeId, i.owner, i.address, w.nextJs)} else {})
  {
    if factoryOk {
      var e := Entry(typeId, i.owner, i.address, w.nextJs);
      AppendingAnEntry(w, w.entries, e);
      assert Live(w, e) && (w.entries + [e])[|w.entries|] == e;
    }
  }

  /** The world and the list the scan of `wrap` leaves. */
  ghost function AfterScan(w: World, runtime: nat, typeId: string, i: Instance, during: seq<Event>): World {
    var s := Scan(w.(runtime := Some(runtime)), w.entries, 0, typeId, i, during);
    s.world.(entries := s.entries)
  }

  lemma ScanRefines(w: World, runtime: nat, typeId: string, i: Instance, during: seq<Event>)
    requires Inv(w) && LegalCall(w, Some(i), during)
    ensures var s := Scan(w.(runtime := Some(runtime)), w.entries, 0, typeId, i, during);
      var w' := AfterScan(w, runtime, typeId, i, during);
      && Inv(w') && i.owner !in w'.expired && Spares(s.during, {i.owner}, w.nextJs)
      && Classified(w', w.entries, typeId, i, w'.entries, s.lookup)
  {
    var w1 := w.(runtime := Some(runtime));
    var s := Scan(w1, w.entries, 0, typeId, i, during);
    var w' := AfterScan(w, runtime, typeId, i, during);
    ScanClassifies(w1, w.entries, 0, typeId, i, during);
    DeathsExist(w1, w.entries, 0, typeId, i, during);
    SameDeaths(s.world, w', w.entries);
    SameDeaths(s.world, w', s.entries);
  }

  /** What the scan found decides the answer. */
  lemma ScanAnswers(w: World, entries: seq<Entry>, typeId: string, i: Instance, after: seq<Entry>, lookup: Lookup)
    requires Classified(w, entries, typeId, i, after, lookup) && i.owner !in w.expired
    ensures lookup.Found? ==> HasObject(w, entries, typeId, i) && !Contested(w, entries, typeId, i)
    ensures lookup.Missing? ==> !HasObject(w, entries, typeId, i) && !Contested(w, entries, typeId, i)
  {
    if lookup.Missing? {
      forall js
        ensures Entry(typeId, i.owner, i.address, js) !in LiveEntries(w, entries)
      {
        var e := Entry(typeId, i.owner, i.address, js);
        assert e in LiveEntries(w, after) ==> e in Unexpired(w, after);
      }
    }
  }

  /** `wrap` is that operation, whatever expires or is collected before any of its steps. */
  lemma WrapRefinesTheMap(w: World, runtime: nat, typeId: string, instance: Option<Instance>, factoryOk: bool,
                          during: seq<Event>)
    requires Inv(w) && LegalCall(w, instance, during)
    ensures var (w', reply) := Wrap(w, runtime, typeId, instance, factoryOk, during);
      Refines(w, runtime, typeId, instance, factoryOk, w', reply)
  {
    if RuntimeAccepted(w, runtime) && instance.Some? {
      var i := instance.value;
      ScanRefines(w, runtime, typeId, i, during);
      var s := Scan(w.(runtime := Some(runtime)), w.entries, 0, typeId, i, during);
      var w2 := AfterScan(w, runtime, typeId, i, during);
      if s.lookup.Missing? {
        MissingRefines(w, runtime, typeId, i, factoryOk, during);
      } else {
        ScanAnswers(w2, w.entries, typeId, i, w2.entries, s.lookup);
      }
    }
  }

  lemma MissingRefines(w: World, runtime: nat, typeId: string, i: Instance, factoryOk: bool, during: seq<Event>)
    requires Inv(w) && LegalCall(w, Some(i), during) && RuntimeAccepted(w, runtime)
    requires Scan(w.(runtime := Some(runtime)), w.entries, 0, typeId, i, during).lookup.Missing?
    ensures var (w', reply) := Wrap(w, runtime, typeId, Some(i), factoryOk, during);
      Refines(w, runtime, typeId, Some(i), factoryOk, w', reply)
  {
    ScanRefines(w, runtime, typeId, i, during);
    var s := Scan(w.(runtime := Some(runtime)), w.entries, 0, typeId, i, during);
    var w2 := AfterScan(w, runtime, typeId, i, during);
    var w3 := Passed(w2, s.during);
    StillMissing(w2, w.entries, typeId, i, s.during);
    InsertingAnEntry(w3, typeId, i, factoryOk);
    ScanAnswers(w3, w.entries, typeId, i, w3.entries, Missing);
    SameDeaths(w3, Wrap(w, runtime, typeId, Some(i), factoryOk, during).0, w.entries);
  }

  /** Whenever a live object exists for the instance and outlives the call, `wrap` returns exactly
      that object, whatever the factory would do. */
  lemma WrapReturnsTheExistingObject(w: World, runtime: nat, e: Entry, factoryOk: bool, during: seq<Event>)
    requires Inv(w) && RuntimeAccepted(w, runtime) && e in LiveEntries(w, w.entries)
    requires LegalCall(w, Some(Instance(e.owner, e.address)), during)
    ensures var (w', reply) := Wrap(w, runtime, e.typeId, Some(Instance(e.owner, e.address)), factoryOk, during);
      e.js !in w'.collected ==> reply == Wrapped(e.js)
  {
    var i, w1 := Instance(e.owner, e.address), w.(runtime := Some(runtime));
    ScanClassifies(w1, w.entries, 0, e.typeId, i, during);
    var s := Scan(w1, w.entries, 0, e.typeId, i, during);
    if e.js !in s.world.collected {
      assert e in LiveEntries(s.world, w.entries) && e in LiveEntries(s.world, s.entries);
      assert e in Unexpired(s.world, s.entries) && e in Unexpired(s.world, w.entries);
      assert !Contested(s.world, w.entries, e.typeId, i);
      if s.lookup.Found? {
        var found := Entry(e.typeId, e.owner, e.address, s.lookup.js);
        assert found in Unexpired(s.world, w.entries);
      }
    }
  }

  // ------------------------------------------------------------------------- whole runs

  lemma StepKeepsInv(w: World, step: Step)
    requires Inv(w) && Legal(w, step)
    ensures Inv(Apply(w, step))
  {
    match step
    case WrapStep(runtime, typeId, instance, factoryOk, during) =>
      WrapRefinesTheMap(w, runtime, typeId, instance, factoryOk, during);
    case PurgeStep(runtime, during) => PurgeIsSafe(w, runtime, during);
    case ExpireOwner(_) =>
    case CollectJs(_) =>
  }

  lemma PurgeIsSafe(w: World, runtime: nat, during: seq<Event>)
    requires Inv(w) && LegalCall(w, None, during)
    ensures var (w', reply) := Purge(w, runtime, during);
      && Inv(w') && LiveEntries(w', w'.entries) == LiveEntries(w', w.entries)
      && (if w.runtime.Some? && w.runtime.value != runtime then reply == WrongRuntime && w' == w
          else reply == Purged && w'.runtime == Some(runtime))
  {
    var w1 := w.(runtime := Some(runtime));
    PurgeKeepsTheLive(w1, w.entries, 0, during);
    PurgeDeathsExist(w1, w.entries, 0, during);
    var (w2, after) := PurgeFrom(w1, w.entries, 0, during);
    SameDeaths(w2, w2.(entries := after), w.entries);
    SameDeaths(w2, w2.(entries := after), after);
  }

  /** Under any interleaving of wraps, purges, expiries, collections and address reuse. */
  lemma {:induction false} RunsKeepInv(w: World, run: seq<Step>)
    requires Inv(w) && LegalRun(w, run)
    ensures Inv(Run(w, run))
    decreases |run|
  {
    if run != [] {
      StepKeepsInv(w, run[0]);
      RunsKeepInv(Apply(w, run[0]), run[1..]);
    }
  }

  lemma StepKeepsSurvivors(w: World, step: Step, e: Entry)
    requires Inv(w) && Legal(w, step) && e in LiveEntries(w, w.entries) && Live(Apply(w, step), e)
    ensures e in LiveEntries(Apply(w, step), Apply(w, step).entries)
  {
    match step
    case WrapStep(runtime, typeId, instance, factoryOk, during) =>
      WrapRefinesTheMap(w, runtime, typeId, instance, factoryOk, during);
    case PurgeStep(runtime, during) => PurgeIsSafe(w, runtime, during);
    case ExpireOwner(_) =>
    case CollectJs(_) =>
  }

  lemma {:induction false} DeathIsForever(w: World, run: seq<Step>)
    ensures w.expired <= Run(w, run).expired && w.collected <= Run(w, run).collected && w.nextJs <= Run(w, run).nextJs
    decreases |run|
  {
    if run != [] {
      DeathIsForever(Apply(w, run[0]), run[1..]);
    }
  }

  lemma {:induction false} SurvivorsStay(w: World, run: seq<Step>, e: Entry)
    requires Inv(w) && LegalRun(w, run) && e in LiveEntries(w, w.entries) && Live(Run(w, run), e)
    ensures e in LiveEntries(Run(w, run), Run(w, run).entries)
    decreases |run|
  {
    if run != [] {
      var next := Apply(w, run[0]);
      DeathIsForever(next, run[1..]);
      StepKeepsInv(w, run[0]);
      StepKeepsSurvivors(w, run[0], e);
      SurvivorsStay(next, run[1..], e);
    }
  }

  /** Identity is stable: an instance once wrapped gives the same JavaScript object after any run, as
      long as its owner and that object are both alive, whatever dies beside the two calls. */
  lemma IdentityIsStable(w: World, runtime: nat, typeId: string, instance: Instance, during: seq<Event>,
                         run: seq<Step>, runtime': nat, factoryOk: bool, during': seq<Event>)
    requires Inv(w) && LegalCall(w, Some(instance), during)
    requires Wrap(w, runtime, typeId, Some(instance), true, during).1.Wrapped?
    requires var w1 := Wrap(w, runtime, typeId, Some(instance), true, during).0;
      LegalRun(w1, run) && RuntimeAccepted(Run(w1, run), runtime') && LegalCall(Run(w1, run), Some(instance), during')
    ensures var (w1, reply) := Wrap(w, runtime, typeId, Some(instance), true, during);
      var (w2, reply') := Wrap(Run(w1, run), runtime', typeId, Some(instance), factoryOk, during');
      reply.js !in w2.collected ==> reply' == reply
  {
    var (w1, reply) := Wrap(w, runtime, typeId, Some(instance), true, during);
    WrapRefinesTheMap(w, runtime, typeId, Some(instance), true, during);
    var e := Entry(typeId, instance.owner, instance.address, reply.js);
    RunsKeepInv(w1, run);
    if Live(Run(w1, run), e) {
      SurvivorsStay(w1, run, e);
      WrapReturnsTheExistingObject(Run(w1, run), runtime', e, factoryOk, during');
    } else {
      WrapRefinesTheMap(Run(w1, run), runtime', typeId, Some(instance), factoryOk, during');
    }
  }

  /** Old objects are never bound again: entries for them were already there. */
  lemma StepRebindsNothing(w: World, step: Step, e: Entry)
    requires e in Apply(w, step).entries && e.js < w.nextJs
    ensures e in w.entries
  {
    match step
    case WrapStep(runtime, typeId, instance, _, during) =>
      if instance.Some? {
        ScanOnlyErases(w.(runtime := Some(runtime)), w.entries, 0, typeId, instance.value, during);
      }
    case PurgeStep(runtime, during) => PurgeOnlyErases(w.(runtime := Some(runtime)), w.entries, 0, during);
    case ExpireOwner(_) =>
    case CollectJs(_) =>
  }

  lemma {:induction false} ScanOnlyErases(w: World, entries: seq<Entry>, i: nat, typeId: string, instance: Instance,
                                          during: seq<Event>)
    requires i <= |entries|
    ensures forall e :: e in Scan(w, entries, i, typeId, instance, during).entries ==> e in entries
    decreases |entries| - i
  {
    if i < |entries| {
      if Expired(Passed(w, during), entries[i]) {
        ScanOnlyErases(Passed(w, during), Without(entries, i), i, typeId, instance, Later(during));
      } else {
        ScanOnlyErases(Passed(w, during), entries, i + 1, typeId, instance, Later(during));
      }
    }
  }

  lemma {:induction false} PurgeOnlyErases(w: World, entries: seq<Entry>, i: nat, during: seq<Event>)
    requires i <= |entries|
    ensures forall e :: e in PurgeFrom(w, entries, i, during).1 ==> e in entries
    decreases |entries| - i
  {
    if i < |entries| {
      if Live(Passed(w, during), entries[i]) {
        PurgeOnlyErases(Passed(w, during), entries, i + 1, Later(during));
      } else {
        PurgeOnlyErases(Passed(w, during), Without(entries, i), i, Later(during));
      }
    }
  }

  lemma {:induction false} RunsRebindNothing(w: World, run: seq<Step>, e: Entry)
    requires Inv(w) && LegalRun(w, run) && e in Run(w, run).entries && e.js < w.nextJs
    ensures e in w.entries
    decreases |run|
  {
    if run != [] {
      var next := Apply(w, run[0]);
      StepKeepsInv(w, run[0]);
      DeathIsForever(w, [run[0]]);
      assert Run(w, [run[0]]) == next by { assert [run[0]][1..] == []; }
      RunsRebindNothing(next, run[1..], e);
      StepRebindsNothing(w, run[0], e);
    }
  }

  /** Distinct instances never share an object, not even at different times: an object
      wrapped for one instance is, after any run, only ever returned for that instance. */
  lemma ObjectsAreNotShared(w: World, runtime: nat, t: string, i: Instance, during: seq<Event>, run: seq<Step>,
                            runtime': nat, t': string, i': Instance, during': seq<Event>)
    requires Inv(w) && LegalCall(w, Some(i), during) && Wrap(w, runtime, t, Some(i), true, during).1.Wrapped?
    requires var w1 := Wrap(w, runtime, t, Some(i), true, during).0;
      LegalRun(w1, run) && LegalCall(Run(w1, run), Some(i'), during')
    ensures var (w1, reply) := Wrap(w, runtime, t, Some(i), true, during);
      Wrap(Run(w1, run), runtime', t', Some(i'), true, during').1 == reply ==> t' == t && i' == i
  {
    var (w1, reply) := Wrap(w, runtime, t, Some(i), true, during);
    var w2 := Run(w1, run);
    WrapRefinesTheMap(w, runtime, t, Some(i), true, during);
    RunsKeepInv(w1, run);
    WrapRefinesTheMap(w2, runtime', t', Some(i'), true, during');
    DeathIsForever(w1, run);
    var e := Entry(t, i.owner, i.address, reply.js);
    assert e in w1.entries;
    if Wrap(w2, runtime', t', Some(i'), true, during').1 == reply {
      var e' := Entry(t', i'.owner, i'.address, reply.js);
      assert e' in w2.entries;
      RunsRebindNothing(w1, run, e');
    }
  }
}
