/** A text has one faithful account: what the lexer reports is determined, token by token. */
module LexUnique {
  import opened LexModel

  /** The longer trail starts with the shorter one. */
  predicate Extends(longer: Trail, shorter: Trail) {
    longer == shorter || (longer.Then? && Extends(longer.before, shorter))
  }

  lemma {:induction false} NextPiece(longer: Trail, shorter: Trail) returns (p: Piece)
    requires Extends(longer, shorter) && longer != shorter
    ensures Extends(longer, Then(shorter, p)) && Holds(longer, shorter, p)
    decreases longer
  {
    if longer.before == shorter {
      p := longer.last;
    } else {
      p := NextPiece(longer.before, shorter);
    }
  }

  /** Where the blanks before a piece that a trail holds begin. */
  function Reached(trail: Trail): nat {
    if trail.Nothing? then 0 else trail.last.End()
  }

  lemma {:induction false} CoveredTo(cc: CharClass, text: string, trail: Trail, upto: nat, b: Trail, p: Piece)
    requires upto <= |text| && Covers(cc, text, trail, upto) && Holds(trail, b, p)
    ensures p.Start() < p.End() <= upto && Reached(b) <= p.Start() && Blank(cc, text, Reached(b), p.Start())
    decreases trail
  {
    if !(trail.before == b && trail.last == p) {
      CoveredTo(cc, text, trail.before, trail.last.Start(), b, p);
    }
  }

  lemma {:induction false} BlankAfter(cc: CharClass, text: string, trail: Trail)
    requires Covers(cc, text, trail, |text|)
    ensures Reached(trail) <= |text| && Blank(cc, text, Reached(trail), |text|)
  {
  }

  /** Two pieces read at the same place from the same past are the same. */
  lemma SamePiece(cc: CharClass, text: string, b: Trail, p: Piece, q: Piece)
    requires p.Start() == q.Start()
    requires Reads(cc, text, p) && Chosen(cc, text, p) && Reads(cc, text, q) && Chosen(cc, text, q)
    requires RecordedIn(text, DepthAfter(Tokens(b)), ConditionalDepth(b), Missed(text, b), p)
    requires RecordedIn(text, DepthAfter(Tokens(b)), ConditionalDepth(b), Missed(text, b), q)
    ensures p == q
  {
    if p.TokenPiece? {
      SameToken(cc, text, DepthAfter(Tokens(b)), ConditionalDepth(b), Missed(text, b), p.token, q.token);
    }
  }

  lemma SameToken(cc: CharClass, text: string, depth: nat, conditional: nat, missed: nat, s: Token, t: Token)
    requires s.start == t.start
    requires Reads(cc, text, TokenPiece(s)) && Chosen(cc, text, TokenPiece(s)) && Reads(cc, text, TokenPiece(t))
      && Chosen(cc, text, TokenPiece(t))
    requires RecordedIn(text, depth, conditional, missed, TokenPiece(s))
      && RecordedIn(text, depth, conditional, missed, TokenPiece(t))
    ensures s == t
  {
    assert s.kind == t.kind;
    if s.kind.Identifier? {
      SameEnd(cc, text, s.start, s.end, t.end);
    }
  }

  lemma SameEnd(cc: CharClass, text: string, start: nat, a: nat, b: nat)
    requires start < a <= |text| && start < b <= |text|
    requires forall i :: start <= i < a ==> IdentifierPart(cc, text[i])
    requires forall i :: start <= i < b ==> IdentifierPart(cc, text[i])
    requires a < |text| ==> !IdentifierPart(cc, text[a])
    requires b < |text| ==> !IdentifierPart(cc, text[b])
    ensures a == b
  {
  }

  /** The next piece after a common past starts at the same place: the first visible character. */
  lemma SameStart(cc: CharClass, text: string, from: nat, p: nat, q: nat)
    requires from <= p < |text| && from <= q < |text|
    requires Blank(cc, text, from, p) && Blank(cc, text, from, q) && !cc.IsSpace(text[p]) && !cc.IsSpace(text[q])
    ensures p == q
  {
  }

  ghost predicate Tells(cc: CharClass, text: string, trail: Trail) {
    Covers(cc, text, trail, |text|) && AllRead(cc, text, trail) && Records(text, trail)
  }

  /** What one account holds after a shared past, the other holds too. */
  lemma SharedPiece(cc: CharClass, text: string, one: Trail, other: Trail, b: Trail, p: Piece)
    requires Tells(cc, text, one) && Tells(cc, text, other)
    requires Holds(one, b, p) && Extends(other, b)
    ensures Extends(other, Then(b, p))
  {
    CoveredTo(cc, text, one, |text|, b, p);
    if other == b {
      BlankAfter(cc, text, other);
    } else {
      var q := NextPiece(other, b);
      CoveredTo(cc, text, other, |text|, b, q);
      SameStart(cc, text, Reached(b), p.Start(), q.Start());
      SamePiece(cc, text, b, p, q);
    }
  }

  lemma {:induction false} SharedPast(cc: CharClass, text: string, one: Trail, other: Trail, past: Trail)
    requires Tells(cc, text, one) && Tells(cc, text, other) && Extends(one, past)
    ensures Extends(other, past)
    decreases past
  {
    if past.Nothing? {
      NothingIsFirst(other);
    } else {
      ShorterPast(one, past);
      SharedPast(cc, text, one, other, past.before);
      SharedPiece(cc, text, one, other, past.before, past.last);
    }
  }

  lemma {:induction false} NothingIsFirst(trail: Trail)
    ensures Extends(trail, Nothing)
    decreases trail
  {
    if trail.Then? {
      NothingIsFirst(trail.before);
    }
  }

  lemma {:induction false} ShorterPast(trail: Trail, past: Trail)
    requires past.Then? && Extends(trail, past)
    ensures Extends(trail, past.before) && Holds(trail, past.before, past.last)
    decreases trail
  {
    if trail != past {
      ShorterPast(trail.before, past);
    }
  }

  lemma {:induction false} ExtendsBothWays(one: Trail, other: Trail)
    requires Extends(one, other) && Extends(other, one)
    ensures one == other
  {
    if one != other {
      Longer(one, other);
      Longer(other, one);
    }
  }

  function Length(trail: Trail): nat {
    if trail.Nothing? then 0 else 1 + Length(trail.before)
  }

  lemma {:induction false} Longer(longer: Trail, shorter: Trail)
    requires Extends(longer, shorter)
    ensures Length(shorter) <= Length(longer) && (longer != shorter ==> Length(shorter) < Length(longer))
    decreases longer
  {
    if longer != shorter {
      Longer(longer.before, shorter);
    }
  }

  /** Every faithful account of a text reports the same tokens, comments and directives, with
      the same bounds, values, lines and depths. */
  lemma AccountsAreUnique(cc: CharClass, text: string,
                          one: Trail, tokens: seq<Token>, comments: seq<LineComment>, directives: seq<Directive>,
                          other: Trail, tokens': seq<Token>, comments': seq<LineComment>, directives': seq<Directive>)
    requires Account(cc, text, one, tokens, comments, directives)
    requires Account(cc, text, other, tokens', comments', directives')
    ensures tokens == tokens' && comments == comments' && directives == directives'
  {
    SharedPast(cc, text, one, other, one);
    SharedPast(cc, text, other, one, other);
    ExtendsBothWays(one, other);
  }
}
