/** Which records a conditional hides: the recorded depth counts the directives left open before. */
module LexConditions {
  import opened LexModel
  import LexUnique
  import Braces
  import Namespaces

  predicate Opens(d: Directive) {
    d.name == "if" || d.name == "ifdef" || d.name == "ifndef"
  }

  predicate Closes(d: Directive) {
    d.name == "endif"
  }

  /** The conditionals from i up to k that are opened, less those closed. */
  function Balance(ds: seq<Directive>, i: nat, k: nat): int
    requires i <= k <= |ds|
  {
    if i == k then 0
    else Balance(ds, i, k - 1) + (if Opens(ds[k - 1]) then 1 else if Closes(ds[k - 1]) then -1 else 0)
  }

  /** Opened at i, and counting from there never back to zero by k. */
  ghost predicate Unclosed(ds: seq<Directive>, i: nat, k: nat) {
    && i < k <= |ds| && Opens(ds[i])
    && forall j :: i < j <= k ==> Balance(ds, i, j) != 0
  }

  /** Every directive on the stack is unclosed, with those above it left open since. */
  ghost predicate Sits(ds: seq<Directive>, k: nat, s: seq<nat>) {
    k <= |ds| && forall p :: 0 <= p < |s| ==> Unclosed(ds, s[p], k) && Balance(ds, s[p], k) == |s| - p
  }

  predicate Rises(s: seq<nat>) {
    forall p, q :: 0 <= p < q < |s| ==> s[p] < s[q]
  }

  /** Every unclosed directive is on the stack. */
  ghost predicate Keeps(ds: seq<Directive>, k: nat, s: seq<nat>) {
    forall i: nat :: Unclosed(ds, i, k) ==> i in s
  }

  /** The stack after k directives: made of exactly the unclosed ones. */
  ghost predicate IsStack(ds: seq<Directive>, k: nat, s: seq<nat>) {
    Sits(ds, k, s) && Rises(s) && Keeps(ds, k, s)
  }

  /** The depth after k directives. */
  function DepthOf(ds: seq<Directive>, k: nat): nat
    requires k <= |ds|
  {
    if k == 0 then 0 else NextConditional(DepthOf(ds, k - 1), ds[k - 1].name)
  }

  lemma StillUnclosed(ds: seq<Directive>, i: nat, k: nat)
    requires i < k < |ds|
    ensures Unclosed(ds, i, k + 1) <==> Unclosed(ds, i, k) && Balance(ds, i, k + 1) != 0
  {
    if Unclosed(ds, i, k) && Balance(ds, i, k + 1) != 0 {
      forall j | i < j <= k + 1
        ensures Balance(ds, i, j) != 0
      {
        if j <= k {
          assert Balance(ds, i, j) != 0;
        }
      }
    }
  }

  /** The stack after one more directive. */
  function Next(s: seq<nat>, d: Directive, k: nat): seq<nat> {
    if Opens(d) then s + [k] else if Closes(d) && s != [] then s[..|s| - 1] else s
  }

  lemma OpeningSits(ds: seq<Directive>, k: nat, s: seq<nat>)
    requires k < |ds| && Sits(ds, k, s) && Opens(ds[k])
    ensures Sits(ds, k + 1, s + [k])
  {
    forall p | 0 <= p <= |s|
      ensures Unclosed(ds, (s + [k])[p], k + 1) && Balance(ds, (s + [k])[p], k + 1) == |s| + 1 - p
    {
      assert Balance(ds, k, k) == 0 && Balance(ds, k, k + 1) == 1;
      if p < |s| {
        StillUnclosed(ds, s[p], k);
      }
    }
  }

  lemma ClosingSits(ds: seq<Directive>, k: nat, s: seq<nat>)
    requires k < |ds| && Sits(ds, k, s) && Closes(ds[k]) && s != []
    ensures Sits(ds, k + 1, s[..|s| - 1])
  {
    forall p | 0 <= p < |s| - 1
      ensures Unclosed(ds, s[p], k + 1) && Balance(ds, s[p], k + 1) == |s| - 1 - p
    {
      StillUnclosed(ds, s[p], k);
    }
  }

  lemma PassingSits(ds: seq<Directive>, k: nat, s: seq<nat>)
    requires k < |ds| && Sits(ds, k, s) && !Opens(ds[k]) && (Closes(ds[k]) ==> s == [])
    ensures Sits(ds, k + 1, s)
  {
    forall p | 0 <= p < |s|
      ensures Unclosed(ds, s[p], k + 1) && Balance(ds, s[p], k + 1) == |s| - p
    {
      StillUnclosed(ds, s[p], k);
    }
  }

  /** One directive keeps everything unclosed on the stack. */
  lemma NextKeeps(ds: seq<Directive>, k: nat, s: seq<nat>, i: nat)
    requires k < |ds| && IsStack(ds, k, s) && Unclosed(ds, i, k + 1)
    ensures i in Next(s, ds[k], k)
  {
    if i == k {
      assert Next(s, ds[k], k)[|s|] == k;
    } else {
      StillUnclosed(ds, i, k);
      assert i in s;
      var p :| 0 <= p < |s| && s[p] == i;
      assert Balance(ds, s[p], k) == |s| - p;
      assert Closes(ds[k]) ==> p < |s| - 1;
      assert Next(s, ds[k], k)[p] == i;
    }
  }

  lemma StackStep(ds: seq<Directive>, k: nat, s: seq<nat>)
    requires k < |ds| && IsStack(ds, k, s)
    ensures IsStack(ds, k + 1, Next(s, ds[k], k))
  {
    if Opens(ds[k]) {
      OpeningSits(ds, k, s);
    } else if Closes(ds[k]) && s != [] {
      ClosingSits(ds, k, s);
    } else {
      PassingSits(ds, k, s);
    }
    forall i: nat | Unclosed(ds, i, k + 1)
      ensures i in Next(s, ds[k], k)
    {
      NextKeeps(ds, k, s, i);
    }
    NextRises(ds, k, s);
  }

  lemma NextRises(ds: seq<Directive>, k: nat, s: seq<nat>)
    requires k < |ds| && Sits(ds, k, s) && Rises(s)
    ensures Rises(Next(s, ds[k], k))
  {
    assert forall p :: 0 <= p < |s| ==> Unclosed(ds, s[p], k);
  }

  function Stack(ds: seq<Directive>, k: nat): seq<nat>
    requires k <= |ds|
  {
    if k == 0 then [] else Next(Stack(ds, k - 1), ds[k - 1], k - 1)
  }

  lemma {:induction false} StackIs(ds: seq<Directive>, k: nat)
    requires k <= |ds|
    ensures IsStack(ds, k, Stack(ds, k))
    decreases k
  {
    if k > 0 {
      StackIs(ds, k - 1);
      StackStep(ds, k - 1, Stack(ds, k - 1));
    }
  }

  /** The depth is the height of the stack. */
  lemma {:induction false} DepthIsTheHeight(ds: seq<Directive>, k: nat)
    requires k <= |ds|
    ensures |Stack(ds, k)| == DepthOf(ds, k)
    decreases k
  {
    if k > 0 {
      DepthIsTheHeight(ds, k - 1);
    }
  }

  ghost function UnclosedAt(ds: seq<Directive>, k: nat): set<nat> {
    set i: nat | i < k && Unclosed(ds, i, k)
  }

  /** The depth after some directives is the number of them that are still unclosed. */
  lemma DepthCountsTheUnclosed(ds: seq<Directive>, k: nat)
    requires k <= |ds|
    ensures DepthOf(ds, k) == |UnclosedAt(ds, k)|
    ensures DepthOf(ds, k) == 0 <==> forall i: nat :: !Unclosed(ds, i, k)
  {
    var s := Stack(ds, k);
    StackIs(ds, k);
    DepthIsTheHeight(ds, k);
    Namespaces.DistinctCount(s);
    assert UnclosedAt(ds, k) == Namespaces.Elements(s);
    if s != [] {
      assert Unclosed(ds, s[0], k);
    }
  }

  // ------------------------------------------------------------------------------ of a text

  /** The first c directives are the ones before an offset. */
  ghost predicate Precede(ds: seq<Directive>, c: nat, at: nat) {
    && c <= |ds|
    && (forall j :: 0 <= j < c ==> ds[j].end <= at)
    && (forall j :: c <= j < |ds| ==> at < ds[j].end && at <= ds[j].start)
  }

  lemma {:induction false} DepthOfPrefix(ds: seq<Directive>, more: seq<Directive>, k: nat)
    requires k <= |ds|
    ensures DepthOf(ds + more, k) == DepthOf(ds, k)
    decreases k
  {
    if k > 0 {
      DepthOfPrefix(ds, more, k - 1);
    }
  }

  lemma {:induction false} DepthOfTrail(trail: Trail)
    ensures ConditionalDepth(trail) == DepthOf(Directives(trail), |Directives(trail)|)
    decreases trail
  {
    if trail.Then? {
      DepthOfTrail(trail.before);
      var ds := Directives(trail.before);
      if trail.last.DirectivePiece? {
        DepthOfPrefix(ds, [trail.last.directive], |ds|);
      }
    }
  }

  lemma {:induction false} DirectivesAreOrdered(cc: CharClass, text: string, trail: Trail, upto: nat)
    requires upto <= |text| && Covers(cc, text, trail, upto)
    ensures forall d :: d in Directives(trail) ==> d.start < d.end <= upto
    decreases trail
  {
    if trail.Then? {
      DirectivesAreOrdered(cc, text, trail.before, trail.last.Start());
    }
  }

  /** What was read before a piece is a prefix of the directives, and ends before it; the rest follows. */
  lemma {:induction false} DirectivesBefore(cc: CharClass, text: string, trail: Trail, upto: nat, before: Trail,
                                            p: Piece)
    requires upto <= |text| && Covers(cc, text, trail, upto) && Holds(trail, before, p)
    ensures Directives(before) <= Directives(trail)
    ensures Precede(Directives(trail), |Directives(before)|, p.Start())
    decreases trail
  {
    DirectivesAreOrdered(cc, text, trail.before, trail.last.Start());
    if trail.before == before && trail.last == p {
      var ds := Directives(before);
      assert forall j :: 0 <= j < |ds| ==> ds[j] in ds;
    } else {
      DirectivesBefore(cc, text, trail.before, trail.last.Start(), before, p);
      LexUnique.CoveredTo(cc, text, trail.before, trail.last.Start(), before, p);
    }
  }

  function ConditionalOf(p: Piece): nat
    requires p.TokenPiece? || p.CommentPiece?
  {
    if p.TokenPiece? then p.token.conditionalDepth else p.comment.conditionalDepth
  }

  /** Of every text: a token or comment records how many of the conditionals that stand before it are
      still unclosed there, and so zero exactly when no conditional hides it. */
  lemma ConditionalDepthIsExact(cc: CharClass, text: string, trail: Trail, tokens: seq<Token>,
                                comments: seq<LineComment>, directives: seq<Directive>, before: Trail, p: Piece)
    returns (cut: nat)
    requires Account(cc, text, trail, tokens, comments, directives) && Holds(trail, before, p)
    requires p.TokenPiece? || p.CommentPiece?
    ensures Precede(directives, cut, p.Start())
    ensures ConditionalOf(p) == |UnclosedAt(directives, cut)|
    ensures ConditionalOf(p) == 0 <==> forall i: nat :: !Unclosed(directives, i, cut)
  {
    DirectivesBefore(cc, text, trail, |text|, before, p);
    DepthOfTrail(before);
    cut := |Directives(before)|;
    assert directives == Directives(before) + directives[cut..];
    DepthOfPrefix(Directives(before), directives[cut..], cut);
    DepthCountsTheUnclosed(directives, cut);
  }

  lemma {:induction false} HeldIsListed(trail: Trail, before: Trail, p: Piece)
    requires Holds(trail, before, p) && p.TokenPiece?
    ensures p.token in Tokens(trail)
    decreases trail
  {
    if trail.before != before || trail.last != p {
      HeldIsListed(trail.before, before, p);
    }
  }

  /** What the declaration scanner looks at: the tokens no unclosed conditional stands before. */
  lemma ActiveIffUnhidden(cc: CharClass, text: string, trail: Trail, tokens: seq<Token>, comments: seq<LineComment>,
                          directives: seq<Directive>, before: Trail, p: Piece)
    returns (cut: nat)
    requires Account(cc, text, trail, tokens, comments, directives) && Holds(trail, before, p) && p.TokenPiece?
    ensures Precede(directives, cut, p.Start())
    ensures p.token in Braces.Active(tokens) <==> forall i: nat :: !Unclosed(directives, i, cut)
  {
    cut := ConditionalDepthIsExact(cc, text, trail, tokens, comments, directives, before, p);
    Braces.ActiveTokensAre(tokens);
    HeldIsListed(trail, before, p);
  }
}
