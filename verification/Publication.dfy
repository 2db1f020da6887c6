/** The plan executor over a mutable tree. It performs one atomic step at a time and may be
    stopped before any of them, by a crash or by a precondition that no longer holds. */
module Publication {
  import opened PublicationModel

  class GenerationPlanExecutor {
    var tree: Tree
    /** How many more steps this run is granted. */
    var granted: nat

    constructor (tree: Tree)
      ensures this.tree == tree && granted == 0
    {
      this.tree, granted := tree, 0;
    }

    method Step(op: Op) returns (performed: bool)
      modifies this
      ensures performed <==> old(granted) > 0
      ensures performed ==> tree == Perform(op, old(tree)) && granted == old(granted) - 1
      ensures !performed ==> tree == old(tree) && granted == 0
    {
      if granted == 0 {
        return false;
      }
      tree, granted := Perform(op, tree), granted - 1;
      return true;
    }

    /** Either all of ops was performed, or the run stopped having performed a prefix. */
    ghost predicate Ran(ops: seq<Op>, before: Tree, grant: nat, completed: bool)
      reads this
    {
      && (completed <==> |ops| <= grant)
      && tree == PerformAll(if completed then ops else ops[..grant], before)
      && granted == (if completed then grant - |ops| else 0)
    }

    lemma OneMore(ops: seq<Op>, op: Op, before: Tree, grant: nat)
      requires |ops| <= grant
      ensures PerformAll(ops + [op], before) == Perform(op, PerformAll(ops, before))
      ensures (ops + [op])[..|ops|] == ops
    {
      assert (ops + [op])[..|ops + [op]| - 1] == ops;
    }

    method DeleteStaleOutput(plan: Plan) returns (completed: bool)
      requires ValidPlan(plan) && forall i, j :: 0 <= i < j < |plan.deletes| ==> plan.deletes[i] != plan.deletes[j]
      modifies this
      ensures Ran(Deletions(plan.deletes, old(tree)), old(tree), old(granted), completed)
    {
      ghost var before, grant := tree, granted;
      ghost var all, ops := Deletions(plan.deletes, tree), [];
      var index := 0;
      while index < |plan.deletes|
        invariant index <= |plan.deletes|
        invariant all == ops + Deletions(plan.deletes[index..], before)
        invariant |ops| <= grant && granted == grant - |ops| && tree == PerformAll(ops, before)
        invariant forall k :: index <= k < |plan.deletes| ==> At(tree, plan.deletes[k]) == At(before, plan.deletes[k])
      {
        var path := plan.deletes[index];
        assert plan.deletes[index..][1..] == plan.deletes[index + 1..];
        assert At(tree, path) == At(before, path);
        if path != MANIFEST && path in tree {
          OneMore(ops, Remove(path), before, grant);
          var performed := Step(Remove(path));
          if !performed {
            assert all[..grant] == ops;
            return false;
          }
          ops := ops + [Remove(path)];
        }
        index := index + 1;
      }
      assert plan.deletes[index..] == [] && ops + [] == ops;
      return true;
    }

    /** `_publish_output`: the manifest last, or not at all when not finalizing. */
    method PublishOutput(plan: Plan, finalize: bool) returns (completed: bool)
      modifies this
      ensures Ran(Uploads(plan, finalize), old(tree), old(granted), completed)
    {
      var artifacts := PublishOrder(plan);
      ghost var before, grant := tree, granted;
      ghost var all, ops := Allowed(artifacts, finalize), [];
      UploadsAreAllowed(plan, finalize);
      var index := 0;
      while index < |artifacts|
        invariant index <= |artifacts|
        invariant all == ops + Allowed(artifacts[index..], finalize)
        invariant |ops| <= grant && granted == grant - |ops| && tree == PerformAll(ops, before)
      {
        var a := artifacts[index];
        assert artifacts[index..][1..] == artifacts[index + 1..];
        index := index + 1;
        if a.path == MANIFEST && !finalize {
          continue;
        }
        OneMore(ops, Put(a.path, a.content), before, grant);
        var performed := Step(Put(a.path, a.content));
        if !performed {
          assert all[..grant] == ops;
          return false;
        }
        ops := ops + [Put(a.path, a.content)];
      }
      assert artifacts[index..] == [] && ops + [] == ops;
      return true;
    }

    lemma RanBoth(first: seq<Op>, second: seq<Op>, before: Tree, middle: Tree, grant: nat, completed: bool)
      requires |first| <= grant && middle == PerformAll(first, before)
      requires Ran(second, middle, grant - |first|, completed)
      ensures Ran(first + second, before, grant, completed)
    {
      if completed {
        PerformInTwo(first, second, before);
      } else {
        PerformInTwo(first, second[..grant - |first|], before);
        assert (first + second)[..grant] == first + second[..grant - |first|];
      }
    }

    lemma RanFirst(first: seq<Op>, second: seq<Op>, before: Tree, grant: nat)
      requires Ran(first, before, grant, false)
      ensures Ran(first + second, before, grant, false)
    {
      assert (first + second)[..grant] == first[..grant];
    }

    /** `execute`: the run reaches the end exactly when it is granted all its steps, and
        otherwise leaves the tree after the steps it was granted. */
    method Execute(plan: Plan, finalize: bool, grant: nat) returns (completed: bool)
      requires ValidPlan(plan) && forall i, j :: 0 <= i < j < |plan.deletes| ==> plan.deletes[i] != plan.deletes[j]
      modifies this
      ensures completed <==> |Steps(plan, finalize, old(tree))| <= grant
      ensures tree ==
        Stopped(plan, finalize, old(tree), if completed then |Steps(plan, finalize, old(tree))| else grant)
    {
      ghost var before, steps := tree, Steps(plan, finalize, tree);
      granted := grant;
      completed := Run(plan, finalize);
      assert Ran(steps, before, grant, completed);
      assert steps[..|steps|] == steps;
    }

    method Run(plan: Plan, finalize: bool) returns (completed: bool)
      requires ValidPlan(plan) && forall i, j :: 0 <= i < j < |plan.deletes| ==> plan.deletes[i] != plan.deletes[j]
      modifies this
      ensures Ran(Steps(plan, finalize, old(tree)), old(tree), old(granted), completed)
    {
      ghost var before, grant := tree, granted;
      ghost var mark, stale := [Put(MARKER, MarkerText(plan))], Deletions(plan.deletes, tree);
      ghost var uploads, clear := Uploads(plan, finalize), if finalize then [Remove(MARKER)] else [];
      assert Steps(plan, finalize, before) == mark + stale + uploads + clear;
      assert mark == [] + mark;
      OneMore([], mark[0], before, grant);
      var performed := Step(Put(MARKER, MarkerText(plan)));
      if !performed {
        assert Ran(mark, before, grant, false) by { assert mark[..0] == []; }
        RanFirst(mark, stale + uploads + clear, before, grant);
        assert Steps(plan, finalize, before) == mark + (stale + uploads + clear);
        return false;
      }
      ghost var marked := tree;
      MarkerHidesNothing(plan.deletes, before, MarkerText(plan));
      completed := DeleteStaleOutput(plan);
      RanBoth(mark, stale, before, marked, grant, completed);
      if !completed {
        RanFirst(mark + stale, uploads + clear, before, grant);
        assert Steps(plan, finalize, before) == mark + stale + (uploads + clear);
        return;
      }
      ghost var pruned := tree;
      completed := PublishOutput(plan, finalize);
      RanBoth(mark + stale, uploads, before, pruned, grant, completed);
      if !completed {
        RanFirst(mark + stale + uploads, clear, before, grant);
        return;
      }
      ghost var steps := mark + stale + uploads;
      assert steps + [] == steps;
      if finalize {
        OneMore(steps, Remove(MARKER), before, grant);
        completed := Step(Remove(MARKER));
        assert !completed ==> grant == |steps|;
      }
    }
  }
}
