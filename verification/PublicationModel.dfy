/** Publication as a sequence of atomic filesystem steps that may stop anywhere. */
module PublicationModel {
  import opened Wrappers

  type Tree = map<string, string>

  const MANIFEST := ".supernote-module/manifest.json"
  const MARKER := ".supernote-module/incomplete.json"

  datatype Artifact = Artifact(path: string, content: string)

  datatype Plan = Plan(generation: string, artifacts: seq<Artifact>, deletes: seq<string>)

  /** Python's order on strings. */
  predicate Before(a: string, b: string) {
    b != "" && (a == "" || a[0] < b[0] || (a[0] == b[0] && Before(a[1..], b[1..])))
  }

  /** What planning guarantees. `GenerationPlan.compare` sorts the artifacts by path without
      repetition and refuses a path both rendered and deleted. That the marker is neither it does
      not check: the generation service does, by confining rendered and prior paths to the runtime
      root, the features' generated files and the manifest. */
  ghost predicate ValidPlan(plan: Plan) {
    && SortedByPath(plan.artifacts)
    && (forall a :: a in plan.artifacts ==> a.path !in plan.deletes && a.path != MARKER)
    && MARKER !in plan.deletes
  }

  datatype Op = Put(path: string, content: string) | Remove(path: string)

  function Perform(op: Op, tree: Tree): Tree {
    match op
    case Put(path, content) => tree[path := content]
    case Remove(path) => tree - {path}
  }

  function PerformAll(ops: seq<Op>, tree: Tree): Tree {
    if ops == [] then tree else Perform(ops[|ops| - 1], PerformAll(ops[..|ops| - 1], tree))
  }

  function MarkerText(plan: Plan): string {
    "incomplete " + plan.generation
  }

  /** Stale output that is really there; the manifest is never among it. */
  function Deletions(deletes: seq<string>, tree: Tree): seq<Op> {
    if deletes == [] then []
    else if deletes[0] == MANIFEST || deletes[0] !in tree then Deletions(deletes[1..], tree)
    else [Remove(deletes[0])] + Deletions(deletes[1..], tree)
  }

  function WithoutManifest(artifacts: seq<Artifact>): seq<Artifact> {
    if artifacts == [] then []
    else if artifacts[0].path == MANIFEST then WithoutManifest(artifacts[1..])
    else [artifacts[0]] + WithoutManifest(artifacts[1..])
  }

  function OnlyManifest(artifacts: seq<Artifact>): seq<Artifact> {
    if artifacts == [] then []
    else if artifacts[0].path == MANIFEST then [artifacts[0]] + OnlyManifest(artifacts[1..])
    else OnlyManifest(artifacts[1..])
  }

  /** Sorting by (is the manifest, path) puts the manifest last; see PublishOrderIsSorted. */
  function PublishOrder(plan: Plan): seq<Artifact> {
    WithoutManifest(plan.artifacts) + OnlyManifest(plan.artifacts)
  }

  function Puts(artifacts: seq<Artifact>): seq<Op> {
    if artifacts == [] then [] else [Put(artifacts[0].path, artifacts[0].content)] + Puts(artifacts[1..])
  }

  function Uploads(plan: Plan, finalize: bool): seq<Op> {
    Puts(WithoutManifest(plan.artifacts)) + (if finalize then Puts(OnlyManifest(plan.artifacts)) else [])
  }

  /** The uploads of a list of artifacts, holding the manifest back unless finalizing. */
  function Allowed(artifacts: seq<Artifact>, finalize: bool): seq<Op> {
    if artifacts == [] then []
    else if artifacts[0].path == MANIFEST && !finalize then Allowed(artifacts[1..], finalize)
    else [Put(artifacts[0].path, artifacts[0].content)] + Allowed(artifacts[1..], finalize)
  }

  /** Everything between setting the marker and clearing it. */
  function Body(plan: Plan, finalize: bool, tree: Tree): seq<Op> {
    Deletions(plan.deletes, tree) + Uploads(plan, finalize)
  }

  /** The whole run: marker, deletions, artifacts, manifest last, marker cleared. */
  function Steps(plan: Plan, finalize: bool, tree: Tree): seq<Op> {
    [Put(MARKER, MarkerText(plan))] + Body(plan, finalize, tree) + (if finalize then [Remove(MARKER)] else [])
  }

  /** The tree when the run stops after k steps: a crash, or a precondition that failed. */
  function Stopped(plan: Plan, finalize: bool, tree: Tree, k: nat): Tree
    requires k <= |Steps(plan, finalize, tree)|
  {
    PerformAll(Steps(plan, finalize, tree)[..k], tree)
  }

  // --------------------------------------------------------------------- closed form

  function At(tree: Tree, path: string): Option<string> {
    if path in tree then Some(tree[path]) else None
  }

  function Rendered(artifacts: seq<Artifact>, path: string): Option<string> {
    if artifacts == [] then None
    else if artifacts[0].path == path then Some(artifacts[0].content)
    else Rendered(artifacts[1..], path)
  }

  /** What a finished publication leaves at a path. */
  function Target(plan: Plan, tree: Tree, path: string): Option<string> {
    if path == MARKER then None
    else if Rendered(plan.artifacts, path).Some? then Rendered(plan.artifacts, path)
    else if path in plan.deletes && path != MANIFEST then None
    else At(tree, path)
  }

  ghost predicate IsPublished(plan: Plan, tree: Tree, result: Tree) {
    forall path :: At(result, path) == Target(plan, tree, path)
  }

  predicate Touches(ops: seq<Op>, path: string) {
    exists i :: 0 <= i < |ops| && ops[i].path == path
  }

  function EffectOf(op: Op): Option<string> {
    if op.Put? then Some(op.content) else None
  }

  /** Every step of ops moves its path to its target. */
  ghost predicate OnTarget(plan: Plan, tree: Tree, ops: seq<Op>) {
    forall op :: op in ops ==> op.path != MARKER && EffectOf(op) == Target(plan, tree, op.path)
  }

  lemma {:induction false} TargetedSteps(plan: Plan, tree: Tree, ops: seq<Op>, from: Tree)
    requires OnTarget(plan, tree, ops)
    ensures forall path :: At(PerformAll(ops, from), path)
                        == if Touches(ops, path) then Target(plan, tree, path) else At(from, path)
  {
    if ops != [] {
      var front, last := ops[..|ops| - 1], ops[|ops| - 1];
      TargetedSteps(plan, tree, front, from);
      forall path
        ensures At(PerformAll(ops, from), path)
          == if Touches(ops, path) then Target(plan, tree, path) else At(from, path)
      {
        assert last.path == path ==> Touches(ops, path);
        assert Touches(front, path) ==> Touches(ops, path) by {
          if Touches(front, path) {
            var i :| 0 <= i < |front| && front[i].path == path;
            assert ops[i].path == path;
          }
        }
        assert Touches(ops, path) && last.path != path ==> Touches(front, path);
      }
    }
  }

  lemma {:induction false} RenderedIs(artifacts: seq<Artifact>, a: Artifact)
    requires a in artifacts && forall i, j :: 0 <= i < j < |artifacts| ==> artifacts[i].path != artifacts[j].path
    ensures Rendered(artifacts, a.path) == Some(a.content)
  {
    if artifacts[0] != a {
      assert a in artifacts[1..];
      RenderedIs(artifacts[1..], a);
    }
  }

  lemma {:induction false} RenderedComesFrom(artifacts: seq<Artifact>, path: string)
    ensures Rendered(artifacts, path).Some? ==> Artifact(path, Rendered(artifacts, path).value) in artifacts
  {
    if artifacts != [] {
      RenderedComesFrom(artifacts[1..], path);
    }
  }

  lemma {:induction false} DeletionsAre(deletes: seq<string>, tree: Tree)
    ensures forall op :: op in Deletions(deletes, tree) <==>
      op.Remove? && op.path in deletes && op.path != MANIFEST && op.path in tree
  {
    if deletes != [] {
      DeletionsAre(deletes[1..], tree);
    }
  }

  lemma {:induction false} PutsAre(artifacts: seq<Artifact>)
    ensures forall op :: op in Puts(artifacts) <==> op.Put? && Artifact(op.path, op.content) in artifacts
  {
    if artifacts != [] {
      PutsAre(artifacts[1..]);
    }
  }

  lemma {:induction false} ManifestSplit(artifacts: seq<Artifact>)
    ensures forall a :: a in WithoutManifest(artifacts) <==> a in artifacts && a.path != MANIFEST
    ensures forall a :: a in OnlyManifest(artifacts) <==> a in artifacts && a.path == MANIFEST
  {
    if artifacts != [] {
      ManifestSplit(artifacts[1..]);
    }
  }

  /** The body touches exactly the stale files that exist and the artifacts it may publish. */
  lemma BodyIsOnTarget(plan: Plan, finalize: bool, tree: Tree)
    requires ValidPlan(plan)
    ensures OnTarget(plan, tree, Body(plan, finalize, tree))
    ensures forall path :: Touches(Body(plan, finalize, tree), path) <==>
      || (path in plan.deletes && path != MANIFEST && path in tree)
      || (Rendered(plan.artifacts, path).Some? && (path != MANIFEST || finalize))
  {
    var body := Body(plan, finalize, tree);
    DeletionsAre(plan.deletes, tree);
    PutsAre(WithoutManifest(plan.artifacts));
    PutsAre(OnlyManifest(plan.artifacts));
    ManifestSplit(plan.artifacts);
    forall op | op in body
      ensures op.path != MARKER && EffectOf(op) == Target(plan, tree, op.path)
    {
      if op.Put? {
        RenderedIs(plan.artifacts, Artifact(op.path, op.content));
      } else {
        RenderedComesFrom(plan.artifacts, op.path);
      }
    }
    forall path
      ensures Touches(body, path) <==>
        || (path in plan.deletes && path != MANIFEST && path in tree)
        || (Rendered(plan.artifacts, path).Some? && (path != MANIFEST || finalize))
    {
      RenderedComesFrom(plan.artifacts, path);
      if Touches(body, path) {
        var i :| 0 <= i < |body| && body[i].path == path;
        assert body[i] in body;
        if body[i].Put? {
          RenderedIs(plan.artifacts, Artifact(path, body[i].content));
        }
      }
      if path in plan.deletes && path != MANIFEST && path in tree {
        InBody(body, Remove(path));
      }
      if Rendered(plan.artifacts, path).Some? && (path != MANIFEST || finalize) {
        InBody(body, Put(path, Rendered(plan.artifacts, path).value));
      }
    }
  }

  lemma InBody(body: seq<Op>, op: Op)
    requires op in body
    ensures Touches(body, op.path)
  {
  }

  lemma {:induction false} PerformInTwo(a: seq<Op>, b: seq<Op>, tree: Tree)
    ensures PerformAll(a + b, tree) == PerformAll(b, PerformAll(a, tree))
  {
    if b == [] {
      assert a + b == a;
    } else {
      assert (a + b)[..|a + b| - 1] == a + b[..|b| - 1];
      PerformInTwo(a, b[..|b| - 1], tree);
    }
  }

  /** How much of the body a stopped run has done. */
  function Done(plan: Plan, finalize: bool, tree: Tree, k: nat): seq<Op>
    requires 0 < k <= |Steps(plan, finalize, tree)|
  {
    var body := Body(plan, finalize, tree);
    if k - 1 <= |body| then body[..k - 1] else body
  }

  /** Every tree a run can stop in, path by path. */
  lemma StoppedTrees(plan: Plan, finalize: bool, tree: Tree, k: nat)
    requires ValidPlan(plan) && 0 < k <= |Steps(plan, finalize, tree)|
    ensures var result, cleared := Stopped(plan, finalize, tree, k), finalize && k == |Steps(plan, finalize, tree)|;
      && At(result, MARKER) == (if cleared then None else Some(MarkerText(plan)))
      && (forall path :: path != MARKER ==>
            At(result, path) ==
            (if Touches(Done(plan, finalize, tree, k), path) then Target(plan, tree, path) else At(tree, path)))
  {
    var done := Done(plan, finalize, tree, k);
    BodyIsOnTarget(plan, finalize, tree);
    StoppedRuns(plan, finalize, tree, k);
    TargetedSteps(plan, tree, done, tree[MARKER := MarkerText(plan)]);
    assert !Touches(done, MARKER);
  }

  /** A stopped run set the marker, did part of the body, and cleared the marker only at the end. */
  lemma StoppedRuns(plan: Plan, finalize: bool, tree: Tree, k: nat)
    requires 0 < k <= |Steps(plan, finalize, tree)|
    ensures var worked := PerformAll(Done(plan, finalize, tree, k), tree[MARKER := MarkerText(plan)]);
      Stopped(plan, finalize, tree, k) ==
      if finalize && k == |Steps(plan, finalize, tree)| then worked - {MARKER} else worked
  {
    var body, done, steps := Body(plan, finalize, tree), Done(plan, finalize, tree, k), Steps(plan, finalize, tree);
    var start := [Put(MARKER, MarkerText(plan))];
    assert start[..0] == [];
    PerformInTwo(start, done, tree);
    if k - 1 <= |body| {
      assert steps[..k] == start + done;
    } else {
      assert steps[..k] == start + done + [Remove(MARKER)];
      PerformInTwo(start + done, [Remove(MARKER)], tree);
      assert [Remove(MARKER)][..0] == [];
    }
  }

  // -------------------------------------------------------------------------- theorems

  /** A finalized run that completes publishes its plan; nothing else is in the tree. */
  lemma CompletionPublishes(plan: Plan, tree: Tree)
    requires ValidPlan(plan)
    ensures IsPublished(plan, tree, Stopped(plan, true, tree, |Steps(plan, true, tree)|))
  {
    var all := |Steps(plan, true, tree)|;
    StoppedTrees(plan, true, tree, all);
    BodyIsOnTarget(plan, true, tree);
    assert Done(plan, true, tree, all) == Body(plan, true, tree);
  }

  /** Crash-detectable publication: from a tree without a marker, wherever the run stops, an
      absent marker means nothing has changed or everything is published. */
  lemma CrashesAreDetectable(plan: Plan, finalize: bool, tree: Tree, k: nat)
    requires ValidPlan(plan) && MARKER !in tree && k <= |Steps(plan, finalize, tree)|
    ensures var result := Stopped(plan, finalize, tree, k);
      MARKER !in result ==> result == tree || (finalize && IsPublished(plan, tree, result))
    ensures MARKER !in Stopped(plan, finalize, tree, k) <==> k == 0 || (finalize && k == |Steps(plan, finalize, tree)|)
  {
    if k > 0 {
      StoppedTrees(plan, finalize, tree, k);
      if finalize && k == |Steps(plan, finalize, tree)| {
        CompletionPublishes(plan, tree);
      }
    }
  }

  /** The manifest goes last: if it is not what it was, the run is finalizing and every
      other path already has its final content. */
  lemma ManifestIsLast(plan: Plan, finalize: bool, tree: Tree, k: nat)
    requires ValidPlan(plan) && k <= |Steps(plan, finalize, tree)|
    requires At(Stopped(plan, finalize, tree, k), MANIFEST) != At(tree, MANIFEST)
    ensures finalize
    ensures forall path :: path != MARKER ==> At(Stopped(plan, finalize, tree, k), path) == Target(plan, tree, path)
  {
    StoppedTrees(plan, finalize, tree, k);
    BodyIsOnTarget(plan, finalize, tree);
    var body, done := Body(plan, finalize, tree), Done(plan, finalize, tree, k);
    var i :| 0 <= i < |done| && done[i].path == MANIFEST;
    assert body[i] == done[i] && Touches(body, MANIFEST);
    forall path | path != MARKER && Touches(body, path)
      ensures Touches(done, path)
    {
      var j :| 0 <= j < |body| && body[j].path == path;
      if path != MANIFEST {
        OthersComeFirst(plan, tree, i, j);
        assert done[j] == body[j];
      }
    }
  }

  lemma OthersComeFirst(plan: Plan, tree: Tree, i: nat, j: nat)
    requires var body := Body(plan, true, tree);
      i < |body| && j < |body| && body[i].path == MANIFEST && body[j].path != MANIFEST
    ensures j < i
  {
    var early := Deletions(plan.deletes, tree) + Puts(WithoutManifest(plan.artifacts));
    NothingEarlyIsTheManifest(plan, tree);
    LateIsTheManifest(plan, tree, Body(plan, true, tree)[j].path, j);
    assert forall x :: 0 <= x < |early| ==> Body(plan, true, tree)[x] == early[x] && early[x] in early;
  }

  lemma NothingEarlyIsTheManifest(plan: Plan, tree: Tree)
    ensures forall op :: op in Deletions(plan.deletes, tree) + Puts(WithoutManifest(plan.artifacts)) ==>
      op.path != MANIFEST
  {
    DeletionsAre(plan.deletes, tree);
    PutsAre(WithoutManifest(plan.artifacts));
    ManifestSplit(plan.artifacts);
  }

  lemma LateIsTheManifest(plan: Plan, tree: Tree, path: string, j: nat)
    requires j < |Body(plan, true, tree)| && Body(plan, true, tree)[j].path == path != MANIFEST
    ensures j < |Deletions(plan.deletes, tree) + Puts(WithoutManifest(plan.artifacts))|
  {
    PutsAre(OnlyManifest(plan.artifacts));
    ManifestSplit(plan.artifacts);
    var early, late := Deletions(plan.deletes, tree) + Puts(WithoutManifest(plan.artifacts)),
        Puts(OnlyManifest(plan.artifacts));
    assert Body(plan, true, tree) == early + late;
    assert forall i :: 0 <= i < |late| ==> late[i] in late && late[i].path == MANIFEST;
  }

  /** A non-finalizing run, stopped or not, keeps the manifest, and leaves the marker set once started. */
  lemma BootstrapNeverFinalizes(plan: Plan, tree: Tree, k: nat)
    requires ValidPlan(plan) && k <= |Steps(plan, false, tree)|
    ensures At(Stopped(plan, false, tree, k), MANIFEST) == At(tree, MANIFEST)
    ensures k > 0 ==> At(Stopped(plan, false, tree, k), MARKER) == Some(MarkerText(plan))
  {
    if At(Stopped(plan, false, tree, k), MANIFEST) != At(tree, MANIFEST) {
      ManifestIsLast(plan, false, tree, k);
    }
    if k > 0 {
      StoppedTrees(plan, false, tree, k);
    }
  }

  /** Frame: a run never changes a path that is neither an artifact, a delete nor the marker,
      nor a manifest it was only asked to delete. */
  lemma OtherPathsAreKept(plan: Plan, finalize: bool, tree: Tree, k: nat, path: string)
    requires ValidPlan(plan) && k <= |Steps(plan, finalize, tree)|
    requires path != MARKER && Rendered(plan.artifacts, path).None? && (path !in plan.deletes || path == MANIFEST)
    ensures At(Stopped(plan, finalize, tree, k), path) == At(tree, path)
  {
    if k > 0 {
      StoppedTrees(plan, finalize, tree, k);
    }
  }

  /** One attempt to publish the plan: finalizing or not, and how far it got. */
  datatype Attempt = Attempt(finalize: bool, steps: nat)

  function Attempted(plan: Plan, tree: Tree, attempt: Attempt): Tree {
    var steps := Steps(plan, attempt.finalize, tree);
    Stopped(plan, attempt.finalize, tree, if attempt.steps <= |steps| then attempt.steps else |steps|)
  }

  function AfterAttempts(plan: Plan, tree: Tree, attempts: seq<Attempt>): Tree {
    if attempts == [] then tree
    else Attempted(plan, AfterAttempts(plan, tree, attempts[..|attempts| - 1]), attempts[|attempts| - 1])
  }

  lemma {:induction false} AttemptsKeepTargets(plan: Plan, tree: Tree, attempts: seq<Attempt>)
    requires ValidPlan(plan)
    ensures forall path :: Target(plan, AfterAttempts(plan, tree, attempts), path) == Target(plan, tree, path)
  {
    if attempts != [] {
      var front, last := attempts[..|attempts| - 1], attempts[|attempts| - 1];
      var before := AfterAttempts(plan, tree, front);
      AttemptsKeepTargets(plan, tree, front);
      var steps := Steps(plan, last.finalize, before);
      var k := if last.steps <= |steps| then last.steps else |steps|;
      forall path
        ensures Target(plan, AfterAttempts(plan, tree, attempts), path) == Target(plan, tree, path)
      {
        if path != MARKER && Rendered(plan.artifacts, path).None? && (path !in plan.deletes || path == MANIFEST) {
          OtherPathsAreKept(plan, last.finalize, before, k, path);
        }
        assert Target(plan, before, path) == Target(plan, tree, path);
      }
    }
  }

  /** Rerun convergence: after any interrupted or non-finalizing attempts at a plan, a run
      that completes gives exactly the tree one undisturbed run would have given. */
  lemma RerunsConverge(plan: Plan, tree: Tree, attempts: seq<Attempt>)
    requires ValidPlan(plan)
    ensures var disturbed := AfterAttempts(plan, tree, attempts);
      Stopped(plan, true, disturbed, |Steps(plan, true, disturbed)|)
        == Stopped(plan, true, tree, |Steps(plan, true, tree)|)
  {
    var disturbed := AfterAttempts(plan, tree, attempts);
    AttemptsKeepTargets(plan, tree, attempts);
    CompletionPublishes(plan, disturbed);
    CompletionPublishes(plan, tree);
    SameLookups(Stopped(plan, true, disturbed, |Steps(plan, true, disturbed)|),
                Stopped(plan, true, tree, |Steps(plan, true, tree)|), plan, tree, disturbed);
  }

  lemma SameLookups(a: Tree, b: Tree, plan: Plan, tree: Tree, disturbed: Tree)
    requires IsPublished(plan, disturbed, a) && IsPublished(plan, tree, b)
    requires forall path :: Target(plan, disturbed, path) == Target(plan, tree, path)
    ensures a == b
  {
    assert forall path :: At(a, path) == At(b, path);
    assert forall path :: path in a <==> At(a, path).Some?;
    assert forall path :: path in b <==> At(b, path).Some?;
    assert a.Keys == b.Keys;
    assert forall path :: path in a ==> At(a, path) == Some(a[path]) && At(b, path) == Some(b[path]);
  }

  // -------------------------------------------------------------- a bootstrap, then the plan

  /** The plan decides what is left at this path. */
  predicate Decides(plan: Plan, path: string) {
    path == MARKER || Rendered(plan.artifacts, path).Some? || (path in plan.deletes && path != MANIFEST)
  }

  /** What a complete non-finalizing run leaves at a path other than the marker. */
  function Bootstrapped(plan: Plan, tree: Tree, path: string): Option<string> {
    if path == MANIFEST then At(tree, path) else Target(plan, tree, path)
  }

  lemma BootstrapLeaves(plan: Plan, tree: Tree, path: string)
    requires ValidPlan(plan) && path != MARKER
    ensures At(Stopped(plan, false, tree, |Steps(plan, false, tree)|), path) == Bootstrapped(plan, tree, path)
  {
    var all := |Steps(plan, false, tree)|;
    StoppedTrees(plan, false, tree, all);
    BodyIsOnTarget(plan, false, tree);
    assert Done(plan, false, tree, all) == Body(plan, false, tree);
    BootstrapNeverFinalizes(plan, tree, all);
  }

  /** The bootstrap changed nothing the final plan does not decide. */
  ghost predicate Absorbed(first: Plan, last: Plan, tree: Tree) {
    forall path :: !Decides(last, path) ==> Bootstrapped(first, tree, path) == At(tree, path)
  }

  function Completed(plan: Plan, tree: Tree): Tree {
    Stopped(plan, true, tree, |Steps(plan, true, tree)|)
  }

  lemma DecidedPathsIgnoreTheTree(plan: Plan, before: Tree, after: Tree, path: string)
    requires Decides(plan, path) || At(before, path) == At(after, path)
    ensures Target(plan, before, path) == Target(plan, after, path)
  {
  }

  /** The final plan, published after a complete bootstrap of another plan, leaves the tree it
      would have left undisturbed if and only if the bootstrap's every effect is on a path that
      the final plan decides itself. */
  lemma BootstrapIsAbsorbedIff(first: Plan, last: Plan, tree: Tree)
    requires ValidPlan(first) && ValidPlan(last)
    ensures var middle := Stopped(first, false, tree, |Steps(first, false, tree)|);
      Completed(last, middle) == Completed(last, tree) <==> Absorbed(first, last, tree)
  {
    var middle := Stopped(first, false, tree, |Steps(first, false, tree)|);
    CompletionPublishes(last, middle);
    CompletionPublishes(last, tree);
    forall path | path != MARKER
      ensures At(middle, path) == Bootstrapped(first, tree, path)
    {
      BootstrapLeaves(first, tree, path);
    }
    if Absorbed(first, last, tree) {
      forall path
        ensures Target(last, middle, path) == Target(last, tree, path)
      {
        DecidedPathsIgnoreTheTree(last, tree, middle, path);
      }
      SameLookups(Completed(last, middle), Completed(last, tree), last, tree, middle);
    } else {
      var path :| !Decides(last, path) && Bootstrapped(first, tree, path) != At(tree, path);
      assert At(Completed(last, middle), path) == At(middle, path) && At(Completed(last, tree), path) == At(tree, path);
    }
  }

  /** Two plans alone settle it for every tree: each path the first renders or deletes, the
      manifest aside, must be rendered or deleted by the second. */
  lemma BootstrapIsAlwaysAbsorbedIff(first: Plan, last: Plan)
    requires ValidPlan(first) && ValidPlan(last)
    ensures (forall tree :: Absorbed(first, last, tree)) <==>
      (forall path :: Decides(first, path) && path != MANIFEST ==> Decides(last, path))
  {
    if forall path :: Decides(first, path) && path != MANIFEST ==> Decides(last, path) {
      assert forall tree, path :: !Decides(last, path) ==> Bootstrapped(first, tree, path) == At(tree, path);
    } else {
      var path :| Decides(first, path) && path != MANIFEST && !Decides(last, path);
      var tree := DisagreeingTree(first, path);
      assert !Absorbed(first, last, tree);
    }
  }

  /** A bootstrap that stops anywhere is absorbed under the same condition. */
  lemma StoppedBootstrapIsAbsorbed(first: Plan, last: Plan, tree: Tree, k: nat)
    requires ValidPlan(first) && ValidPlan(last) && k <= |Steps(first, false, tree)|
    requires forall path :: Decides(first, path) && path != MANIFEST ==> Decides(last, path)
    ensures Completed(last, Stopped(first, false, tree, k)) == Completed(last, tree)
  {
    var middle := Stopped(first, false, tree, k);
    CompletionPublishes(last, middle);
    CompletionPublishes(last, tree);
    forall path
      ensures Target(last, middle, path) == Target(last, tree, path)
    {
      if path == MANIFEST {
        BootstrapNeverFinalizes(first, tree, k);
      } else if !Decides(last, path) {
        OtherPathsAreKept(first, false, tree, k, path);
      }
      DecidedPathsIgnoreTheTree(last, tree, middle, path);
    }
    SameLookups(Completed(last, middle), Completed(last, tree), last, tree, middle);
  }

  /** A tree the bootstrap changes at a path it decides. */
  lemma DisagreeingTree(plan: Plan, path: string) returns (tree: Tree)
    requires Decides(plan, path) && path != MANIFEST && path != MARKER
    ensures Bootstrapped(plan, tree, path) != At(tree, path)
  {
    tree := if Rendered(plan.artifacts, path).Some? then map[] else map[path := ""];
  }

  // ------------------------------------------------------------------- publishing order

  /** The source's sort key, compared: everything else by path, then the manifest. */
  predicate KeyBefore(a: Artifact, b: Artifact) {
    if a.path == MANIFEST then b.path == MANIFEST && Before(a.path, b.path)
    else b.path == MANIFEST || Before(a.path, b.path)
  }

  ghost predicate SortedByPath(artifacts: seq<Artifact>) {
    forall i, j :: 0 <= i < j < |artifacts| ==>
      artifacts[i].path != artifacts[j].path && Before(artifacts[i].path, artifacts[j].path)
  }

  lemma {:induction false} OthersStaySorted(artifacts: seq<Artifact>)
    requires SortedByPath(artifacts)
    ensures SortedByPath(WithoutManifest(artifacts))
  {
    if artifacts != [] {
      var rest := artifacts[1..];
      OthersStaySorted(rest);
      ManifestSplit(rest);
      forall j | 0 <= j < |WithoutManifest(rest)|
        ensures Before(artifacts[0].path, WithoutManifest(rest)[j].path)
          && artifacts[0].path != WithoutManifest(rest)[j].path
      {
        assert WithoutManifest(rest)[j] in rest;
      }
    }
  }

  lemma {:induction false} OneManifest(artifacts: seq<Artifact>)
    requires SortedByPath(artifacts)
    ensures |OnlyManifest(artifacts)| <= 1
  {
    if artifacts != [] {
      var rest := artifacts[1..];
      OneManifest(rest);
      ManifestSplit(rest);
      assert forall a :: a in rest ==> a.path != artifacts[0].path;
      assert |OnlyManifest(rest)| > 0 ==> OnlyManifest(rest)[0] in OnlyManifest(rest);
    }
  }

  lemma {:induction false} NothingIsLost(artifacts: seq<Artifact>)
    ensures multiset(WithoutManifest(artifacts)) + multiset(OnlyManifest(artifacts)) == multiset(artifacts)
  {
    if artifacts != [] {
      NothingIsLost(artifacts[1..]);
      assert artifacts == [artifacts[0]] + artifacts[1..];
    }
  }

  /** The publishing order is the plan's artifacts, sorted by the source's key. */
  lemma PublishOrderIsSorted(plan: Plan)
    requires ValidPlan(plan)
    ensures multiset(PublishOrder(plan)) == multiset(plan.artifacts)
    ensures forall i, j :: 0 <= i < j < |PublishOrder(plan)| ==> KeyBefore(PublishOrder(plan)[i], PublishOrder(plan)[j])
  {
    OthersStaySorted(plan.artifacts);
    OneManifest(plan.artifacts);
    NothingIsLost(plan.artifacts);
    ManifestSplit(plan.artifacts);
    var others, manifest := WithoutManifest(plan.artifacts), OnlyManifest(plan.artifacts);
    forall i, j | 0 <= i < j < |PublishOrder(plan)|
      ensures KeyBefore(PublishOrder(plan)[i], PublishOrder(plan)[j])
    {
      assert others[i] in others;
      if j >= |others| {
        assert manifest[j - |others|] in manifest;
      } else {
        assert others[j] in others;
      }
    }
  }

  lemma {:induction false} AllowedManifest(manifest: seq<Artifact>, finalize: bool)
    requires forall a :: a in manifest ==> a.path == MANIFEST
    ensures Allowed(manifest, finalize) == if finalize then Puts(manifest) else []
  {
    if manifest != [] {
      AllowedManifest(manifest[1..], finalize);
    }
  }

  lemma {:induction false} AllowedOthers(others: seq<Artifact>, manifest: seq<Artifact>, finalize: bool)
    requires forall a :: a in others ==> a.path != MANIFEST
    ensures Allowed(others + manifest, finalize) == Puts(others) + Allowed(manifest, finalize)
    decreases |others|
  {
    if others == [] {
      assert others + manifest == manifest;
    } else {
      var put, rest := Put(others[0].path, others[0].content), others[1..];
      assert (others + manifest)[1..] == rest + manifest && (others + manifest)[0] == others[0] && others[0] in others;
      AllowedOthers(rest, manifest, finalize);
      assert [put] + (Puts(rest) + Allowed(manifest, finalize)) == [put] + Puts(rest) + Allowed(manifest, finalize);
    }
  }

  /** Walking the publishing order and skipping the manifest gives the uploads of the run. */
  lemma UploadsAreAllowed(plan: Plan, finalize: bool)
    ensures Allowed(PublishOrder(plan), finalize) == Uploads(plan, finalize)
  {
    ManifestSplit(plan.artifacts);
    AllowedOthers(WithoutManifest(plan.artifacts), OnlyManifest(plan.artifacts), finalize);
    AllowedManifest(OnlyManifest(plan.artifacts), finalize);
  }

  /** Setting the marker hides no stale file. */
  lemma {:induction false} MarkerHidesNothing(deletes: seq<string>, tree: Tree, text: string)
    requires MARKER !in deletes
    ensures Deletions(deletes, tree[MARKER := text]) == Deletions(deletes, tree)
  {
    if deletes != [] {
      MarkerHidesNothing(deletes[1..], tree, text);
    }
  }
}
