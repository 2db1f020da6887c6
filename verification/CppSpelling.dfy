/** The spelling of a scanned type: tokens joined, then tightened around punctuation. Lexing the
    spelling gives the same token values back. */
module CppSpelling {
  import opened Wrappers
  import opened LexModel
  import CppTypes

  const MARKS: set<string> := {"::", "<", ">", "&"}

  function Values(tokens: seq<Token>): seq<string> {
    if tokens == [] then [] else Values(tokens[..|tokens| - 1]) + [tokens[|tokens| - 1].value]
  }

  function Count(values: seq<string>, v: string): nat {
    if values == [] then 0 else Count(values[1..], v) + (if values[0] == v then 1 else 0)
  }

  /** The words with one space between each two. */
  function Joined(values: seq<string>): string {
    if values == [] then "" else if |values| == 1 then values[0] else values[0] + " " + Joined(values[1..])
  }

  /** `cpp_type_spelling`: None is a refusal. */
  function Spelling(tokens: seq<Token>): Option<string> {
    var values := Values(tokens);
    if tokens == [] then None
    else if exists t :: t in tokens && !t.kind.Identifier? && t.value !in MARKS then None
    else if Count(values, "<") != Count(values, ">") then None
    else if exists i :: 0 <= i < |tokens| - 1 && tokens[i].value == "&" then None
    else Some(Tightened(Joined(values)))
  }

  lemma {:induction false} CountIs(values: seq<string>, v: string)
    ensures Count(values, v) == multiset(values)[v]
  {
    if values != [] {
      CountIs(values[1..], v);
      assert values == [values[0]] + values[1..];
    }
  }

  predicate IsMark(v: string) {
    v == "::" || v == "<" || v == ">" || v == "&"
  }

  lemma MarksAre(v: string)
    ensures v in MARKS <==> IsMark(v)
  {
  }

  /** Which token lists have a spelling: identifiers and the four marks, as many opening brackets as
      closing ones, and no reference but at the end. */
  lemma SpelledIff(tokens: seq<Token>)
    ensures Spelling(tokens).Some? <==>
      && tokens != []
      && (forall t :: t in tokens ==> t.kind.Identifier? || IsMark(t.value))
      && multiset(Values(tokens))["<"] == multiset(Values(tokens))[">"]
      && (forall i :: 0 <= i < |tokens| - 1 ==> tokens[i].value != "&")
  {
    CountIs(Values(tokens), "<");
    CountIs(Values(tokens), ">");
    assert forall t :: t in tokens ==> (t.value in MARKS <==> IsMark(t.value)) by {
      forall t | t in tokens { MarksAre(t.value); }
    }
  }

  function Tightened(s: string): string {
    CppTypes.Tighten(CppTypes.Tighten(CppTypes.Tighten(CppTypes.Tighten(s, "::"), "<"), ">"), "&")
  }

  // ------------------------------------------------------------------ what tightening does

  function Separator(a: string, b: string, marks: set<string>): string {
    if a in marks || b in marks then "" else " "
  }

  /** The words with a space only between two that are not tight. */
  function Glued(values: seq<string>, marks: set<string>): string {
    if values == [] then "" else if |values| == 1 then values[0]
    else values[0] + Separator(values[0], values[1], marks) + Glued(values[1..], marks)
  }

  /** An identifier, as the lexer reads it. */
  ghost predicate Word(cc: CharClass, v: string) {
    && v != "" && IdentifierStart(cc, v[0])
    && forall i :: 0 <= i < |v| ==> IdentifierPart(cc, v[i])
  }

  ghost predicate TypeWords(cc: CharClass, values: seq<string>) {
    forall i :: 0 <= i < |values| ==> values[i] in MARKS || Word(cc, values[i])
  }

  /** The lexer's white space is the one the spelling rules use. */
  ghost predicate SameSpaces(cc: CharClass) {
    forall c :: cc.IsSpace(c) <==> CppTypes.IsSpace(c)
  }

  lemma WordsAreVisible(cc: CharClass, v: string, i: nat)
    requires SameSpaces(cc) && (v in MARKS || Word(cc, v)) && i < |v|
    ensures !CppTypes.IsSpace(v[i]) && v != ""
  {
    if Word(cc, v) {
      assert IdentifierPart(cc, v[i]) && !cc.IsSpace(v[i]);
    }
  }

  /** Distinct marks and words do not begin alike. */
  lemma MarksBeginApart(cc: CharClass, v: string, mark: string, i: nat)
    requires (v in MARKS || Word(cc, v)) && mark in MARKS && v != mark && i < |v|
    ensures v[i] != mark[0]
  {
    if Word(cc, v) {
      assert IdentifierPart(cc, v[i]);
    }
  }

  lemma GluedStarts(values: seq<string>, marks: set<string>)
    requires values != [] && values[0] != ""
    ensures values[0] <= Glued(values, marks)
  {
    if |values| > 1 {
      var tail := Separator(values[0], values[1], marks) + Glued(values[1..], marks);
      assert Glued(values, marks) == values[0] + tail;
    }
  }

  lemma SpaceBefore(rest: string, mark: string)
    requires mark != "" && rest != "" && !CppTypes.IsSpace(rest[0]) && !CppTypes.IsSpace(mark[0])
    ensures CppTypes.Tighten(" " + rest, mark)
      == if mark <= rest then CppTypes.Tighten(rest, mark) else " " + CppTypes.Tighten(rest, mark)
  {
    assert (" " + rest)[1..] == rest && CppTypes.SkipSpace(rest) == rest;
  }

  /** Tightening around one more mark. */
  lemma {:induction false} OneMoreMark(cc: CharClass, values: seq<string>, marks: set<string>, mark: string)
    requires SameSpaces(cc) && TypeWords(cc, values) && mark in MARKS
    ensures CppTypes.Tighten(Glued(values, marks), mark) == Glued(values, marks + {mark})
    decreases |values|
  {
    if values != [] {
      var v, rest := values[0], Glued(values[1..], marks);
      WordsFacts(cc, v, mark);
      if |values| == 1 {
        LoneWord(v, mark);
      } else {
        OneMoreMark(cc, values[1..], marks, mark);
        WordsFacts(cc, values[1], mark);
        GluedStarts(values[1..], marks);
        StepWord(v, values[1], rest, mark, marks);
      }
    }
  }

  lemma WordsFacts(cc: CharClass, v: string, mark: string)
    requires SameSpaces(cc) && (v in MARKS || Word(cc, v)) && mark in MARKS
    ensures v != "" && forall i :: 0 <= i < |v| ==> !CppTypes.IsSpace(v[i])
    ensures v != mark ==> forall i :: 0 <= i < |v| ==> v[i] != mark[0]
    ensures mark != "" && !CppTypes.IsSpace(mark[0])
  {
    forall i | 0 <= i < |v|
      ensures !CppTypes.IsSpace(v[i]) && (v != mark ==> v[i] != mark[0])
    {
      WordsAreVisible(cc, v, i);
      if v != mark {
        MarksBeginApart(cc, v, mark, i);
      }
    }
  }

  lemma LoneWord(v: string, mark: string)
    requires mark != "" && v != "" && forall i :: 0 <= i < |v| ==> !CppTypes.IsSpace(v[i])
    requires v != mark ==> forall i :: 0 <= i < |v| ==> v[i] != mark[0]
    ensures CppTypes.Tighten(v, mark) == v
  {
    if v == mark {
      assert CppTypes.SkipSpace(v) == v && v[|mark|..] == "";
    } else {
      CppTypes.TightenFront(v, "", mark);
      assert v + "" == v;
    }
  }

  /** After a mark, white space is dropped. */
  lemma AfterMark(mark: string, gap: string, rest: string)
    requires mark != "" && !CppTypes.IsSpace(mark[0]) && rest != "" && !CppTypes.IsSpace(rest[0])
    requires gap == "" || gap == " "
    ensures CppTypes.Tighten(mark + (gap + rest), mark) == mark + CppTypes.Tighten(rest, mark)
  {
    var s, tail := mark + (gap + rest), gap + rest;
    assert s[0] == mark[0] && CppTypes.SkipSpace(s) == s && s[|mark|..] == tail;
    assert CppTypes.SkipSpace(rest) == rest;
    if gap == "" {
      assert tail == rest;
    } else {
      assert tail[0] == ' ' && tail[1..] == rest;
    }
  }

  /** After any other word, white space is dropped only before the mark. */
  lemma AfterWord(v: string, gap: string, rest: string, mark: string)
    requires mark != "" && !CppTypes.IsSpace(mark[0]) && rest != "" && !CppTypes.IsSpace(rest[0])
    requires forall i :: 0 <= i < |v| ==> !CppTypes.IsSpace(v[i]) && v[i] != mark[0]
    requires gap == "" || gap == " "
    ensures CppTypes.Tighten(v + (gap + rest), mark)
      == v + (if mark <= rest then "" else gap) + CppTypes.Tighten(rest, mark)
  {
    CppTypes.TightenFront(v, gap + rest, mark);
    AfterGap(gap, rest, mark);
    Regroup(v, if mark <= rest then "" else gap, CppTypes.Tighten(rest, mark));
  }

  lemma AfterGap(gap: string, rest: string, mark: string)
    requires mark != "" && !CppTypes.IsSpace(mark[0]) && rest != "" && !CppTypes.IsSpace(rest[0])
    requires gap == "" || gap == " "
    ensures CppTypes.Tighten(gap + rest, mark) == (if mark <= rest then "" else gap) + CppTypes.Tighten(rest, mark)
  {
    var t := CppTypes.Tighten(rest, mark);
    assert "" + t == t && "" + rest == rest;
    if gap == " " {
      SpaceBefore(rest, mark);
    }
  }

  lemma MarkAhead(w: string, rest: string, mark: string)
    requires mark != "" && w != "" && w <= rest && (w != mark ==> w[0] != mark[0])
    ensures rest[0] == w[0] && (mark <= rest <==> w == mark)
  {
  }

  lemma Regroup(a: string, b: string, c: string)
    ensures a + b + c == a + (b + c)
  {
  }

  lemma StepWord(v: string, w: string, rest: string, mark: string, marks: set<string>)
    requires mark != "" && !CppTypes.IsSpace(mark[0])
    requires v != "" && forall i :: 0 <= i < |v| ==> !CppTypes.IsSpace(v[i])
    requires v != mark ==> forall i :: 0 <= i < |v| ==> v[i] != mark[0]
    requires w != "" && w <= rest && !CppTypes.IsSpace(w[0]) && (w != mark ==> w[0] != mark[0])
    ensures CppTypes.Tighten(v + Separator(v, w, marks) + rest, mark)
      == v + Separator(v, w, marks + {mark}) + CppTypes.Tighten(rest, mark)
  {
    var gap := Separator(v, w, marks);
    MarkAhead(w, rest, mark);
    Regroup(v, gap, rest);
    if v == mark {
      AfterMark(mark, gap, rest);
      assert v + "" == v;
    } else {
      AfterWord(v, gap, rest, mark);
      assert Separator(v, w, marks + {mark}) == if w == mark then "" else gap;
    }
  }

  lemma {:induction false} JoinedIsGlued(values: seq<string>)
    ensures Joined(values) == Glued(values, {})
  {
    if |values| > 1 {
      JoinedIsGlued(values[1..]);
    }
  }

  /** A spelling has a space exactly between two identifiers. */
  lemma TightenedIsGlued(cc: CharClass, values: seq<string>)
    requires SameSpaces(cc) && TypeWords(cc, values)
    ensures Tightened(Joined(values)) == Glued(values, MARKS)
  {
    JoinedIsGlued(values);
    OneMoreMark(cc, values, {}, "::");
    OneMoreMark(cc, values, {} + {"::"}, "<");
    OneMoreMark(cc, values, {} + {"::"} + {"<"}, ">");
    OneMoreMark(cc, values, {} + {"::"} + {"<"} + {">"}, "&");
    assert {} + {"::"} + {"<"} + {">"} + {"&"} == MARKS;
  }
}
