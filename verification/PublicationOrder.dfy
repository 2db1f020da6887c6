/** The order of a publication run, read off its steps. */
module PublicationOrder {
  import opened PublicationModel

  /** The first place where two strings differ. */
  predicate DifferAt(a: string, b: string, k: nat) {
    k < |a| && k < |b| && a[..k] == b[..k] && a[k] != b[k]
  }

  /** Python's order on strings: by the first difference, a prefix before what it begins. */
  lemma {:induction false} BeforeIsLexicographic(a: string, b: string)
    ensures Before(a, b) <==> a < b || exists k: nat :: DifferAt(a, b, k) && a[k] < b[k]
    decreases |b|
  {
    if a != "" && b != "" {
      if a[0] == b[0] {
        BeforeIsLexicographic(a[1..], b[1..]);
        SameFront(a, b);
      } else {
        assert DifferAt(a, b, 0);
        assert forall k: nat :: DifferAt(a, b, k) ==> k == 0 || a[..k][0] == b[..k][0];
      }
    }
  }

  lemma SameFront(a: string, b: string)
    requires a != "" && b != "" && a[0] == b[0]
    ensures a < b <==> a[1..] < b[1..]
    ensures (exists k: nat :: DifferAt(a, b, k) && a[k] < b[k])
      <==> exists k: nat :: DifferAt(a[1..], b[1..], k) && a[1..][k] < b[1..][k]
  {
    if k: nat :| DifferAt(a, b, k) && a[k] < b[k] {
      assert a[..k][1..] == a[1..][..k - 1] && b[..k][1..] == b[1..][..k - 1];
      assert DifferAt(a[1..], b[1..], k - 1) && a[1..][k - 1] < b[1..][k - 1];
    }
    if k: nat :| DifferAt(a[1..], b[1..], k) && a[1..][k] < b[1..][k] {
      assert a[..k + 1] == [a[0]] + a[1..][..k] && b[..k + 1] == [b[0]] + b[1..][..k];
      assert DifferAt(a, b, k + 1) && a[k + 1] < b[k + 1];
    }
    assert a == [a[0]] + a[1..] && b == [b[0]] + b[1..];
  }

  /** Stale files go in the order the plan lists them. */
  lemma {:induction false} DeletionsKeepTheirOrder(deletes: seq<string>, tree: Tree)
    ensures forall i, j :: 0 <= i < j < |Deletions(deletes, tree)| ==>
      Listed(deletes, Deletions(deletes, tree)[i].path, Deletions(deletes, tree)[j].path)
  {
    if deletes != [] {
      var rest, ops := deletes[1..], Deletions(deletes, tree);
      DeletionsKeepTheirOrder(rest, tree);
      DeletionsAre(rest, tree);
      forall i, j | 0 <= i < j < |ops|
        ensures Listed(deletes, ops[i].path, ops[j].path)
      {
        if Deletions(rest, tree) == ops {
          LaterListed(deletes, ops[i].path, ops[j].path);
        } else if i == 0 {
          assert Deletions(rest, tree)[j - 1] in Deletions(rest, tree) && ops[j].path in rest;
          FirstListed(deletes, ops[j].path);
        } else {
          LaterListed(deletes, ops[i].path, ops[j].path);
        }
      }
    }
  }

  /** One path is listed somewhere before the other. */
  ghost predicate Listed(deletes: seq<string>, first: string, second: string) {
    exists a: nat, b: nat :: a < b < |deletes| && deletes[a] == first && deletes[b] == second
  }

  lemma LaterListed(deletes: seq<string>, first: string, second: string)
    requires deletes != [] && Listed(deletes[1..], first, second)
    ensures Listed(deletes, first, second)
  {
    var a: nat, b: nat :| a < b < |deletes[1..]| && deletes[1..][a] == first && deletes[1..][b] == second;
    assert deletes[a + 1] == first && deletes[b + 1] == second;
  }

  lemma FirstListed(deletes: seq<string>, second: string)
    requires deletes != [] && second in deletes[1..]
    ensures Listed(deletes, deletes[0], second)
  {
    var b :| 0 <= b < |deletes[1..]| && deletes[1..][b] == second;
    assert deletes[b + 1] == second;
  }

  lemma {:induction false} PutsFollow(artifacts: seq<Artifact>)
    ensures |Puts(artifacts)| == |artifacts|
    ensures forall i :: 0 <= i < |artifacts| ==> Puts(artifacts)[i] == Put(artifacts[i].path, artifacts[i].content)
  {
    if artifacts != [] {
      PutsFollow(artifacts[1..]);
    }
  }

  /** May stand before: deletions before uploads, uploads by path, and the manifest last. */
  ghost predicate InTurn(first: Op, second: Op) {
    || first.Remove?
    || (second.Put? && first.path != MANIFEST && (second.path == MANIFEST || Before(first.path, second.path)))
  }

  lemma BodyIsInTurn(plan: Plan, finalize: bool, tree: Tree, i: nat, j: nat)
    requires ValidPlan(plan) && i < j < |Body(plan, finalize, tree)|
    ensures InTurn(Body(plan, finalize, tree)[i], Body(plan, finalize, tree)[j])
  {
    var body, gone := Body(plan, finalize, tree), Deletions(plan.deletes, tree);
    var published := if finalize then PublishOrder(plan) else WithoutManifest(plan.artifacts);
    DeletionsAre(plan.deletes, tree);
    UploadsFollow(plan, finalize);
    if i < |gone| {
      assert body[i] == gone[i] && gone[i] in gone;
    } else {
      PutsFollow(published);
      assert |body| == |gone| + |published| && |published| <= |PublishOrder(plan)|;
      PublishedInTurn(plan, i - |gone|, j - |gone|);
      assert PublishOrder(plan)[i - |gone|] == published[i - |gone|];
      assert PublishOrder(plan)[j - |gone|] == published[j - |gone|];
    }
  }

  lemma {:induction false} PutsOfTwo(a: seq<Artifact>, b: seq<Artifact>)
    ensures Puts(a + b) == Puts(a) + Puts(b)
    decreases |a|
  {
    if a == [] {
      assert a + b == b;
    } else {
      assert (a + b)[1..] == a[1..] + b;
      PutsOfTwo(a[1..], b);
    }
  }

  lemma UploadsFollow(plan: Plan, finalize: bool)
    ensures Uploads(plan, finalize) == Puts(if finalize then PublishOrder(plan) else WithoutManifest(plan.artifacts))
  {
    PutsOfTwo(WithoutManifest(plan.artifacts), OnlyManifest(plan.artifacts));
  }

  lemma PublishedInTurn(plan: Plan, i: nat, j: nat)
    requires ValidPlan(plan) && i < j < |PublishOrder(plan)|
    ensures var a, b := PublishOrder(plan)[i].path, PublishOrder(plan)[j].path;
      a != MANIFEST && (b == MANIFEST || Before(a, b))
  {
    PublishOrderIsSorted(plan);
    OneManifest(plan.artifacts);
    ManifestSplit(plan.artifacts);
    var others := WithoutManifest(plan.artifacts);
    assert i < |others| && PublishOrder(plan)[i] == others[i] && others[i] in others;
  }

  lemma StepsAround(plan: Plan, finalize: bool, tree: Tree)
    requires ValidPlan(plan)
    ensures var steps, body := Steps(plan, finalize, tree), Body(plan, finalize, tree);
      && |steps| == |body| + (if finalize then 2 else 1) && steps[0] == Put(MARKER, MarkerText(plan))
      && (finalize ==> steps[|steps| - 1] == Remove(MARKER))
      && (forall i :: 0 < i <= |body| ==> steps[i] == body[i - 1] && steps[i].path != MARKER)
  {
    var steps, body := Steps(plan, finalize, tree), Body(plan, finalize, tree);
    BodyIsOnTarget(plan, finalize, tree);
    assert forall i :: 0 < i <= |body| ==> steps[i] == body[i - 1] && body[i - 1] in body;
  }

  /** A run sets the marker, deletes, uploads in the order of the paths with the manifest last, and clears
      the marker if it finalizes. */
  lemma StepsAreInTurn(plan: Plan, finalize: bool, tree: Tree)
    requires ValidPlan(plan)
    ensures var steps := Steps(plan, finalize, tree);
      var last := if finalize then |steps| - 1 else |steps|;
      && 0 < last && steps[0] == Put(MARKER, MarkerText(plan)) && (finalize ==> steps[last] == Remove(MARKER))
      && (forall i :: 0 < i < last ==> steps[i].path != MARKER)
      && (forall i, j :: 0 < i < j < last ==> InTurn(steps[i], steps[j]))
  {
    var steps := Steps(plan, finalize, tree);
    StepsAround(plan, finalize, tree);
    forall i, j | 0 < i < j <= |Body(plan, finalize, tree)|
      ensures InTurn(steps[i], steps[j])
    {
      BodyIsInTurn(plan, finalize, tree, i - 1, j - 1);
    }
  }
}
