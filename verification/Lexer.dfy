/** The lexer as a state machine over the text, proved to give a faithful account of it. */
module Lexer {
  import opened LexModel

  /** Counts the line feeds of a span and finds where the line it ends on starts. */
  method ConsumeNewlines(text: string, ghost cc: CharClass, start: nat, end: nat, line: int, lineStart: nat)
    returns (after: int, newStart: nat)
    requires lineStart <= start < end <= |text| && LineStart(text, lineStart)
    ensures after == line + Newlines(text, end) - Newlines(text, start)
    ensures newStart <= end && LineStart(text, newStart)
    ensures (end < |text| ==> text[end - 1] == '\n' || !cc.IsSpace(text[end - 1])) ==> OnLine(cc, text, newStart, end)
  {
    after, newStart := line, lineStart;
    var i := start;
    while i < end
      invariant start <= i <= end && newStart <= i && LineStart(text, newStart)
      invariant start < i && text[i - 1] == '\n' ==> newStart == i
      invariant after == line + Newlines(text, i) - Newlines(text, start)
    {
      if text[i] == '\n' {
        after, newStart := after + 1, i + 1;
      }
      i := i + 1;
    }
    if text[end - 1] == '\n' || end == |text| {
      AtLineStart(cc, text, newStart, end);
    } else if !cc.IsSpace(text[end - 1]) {
      AfterVisible(cc, text, newStart, end);
    }
  }

  class Lexer {
    const text: string
    const cc: CharClass
    var tokens: seq<Token>
    var comments: seq<LineComment>
    var directives: seq<Directive>
    var index: nat
    var line: int
    var lineStart: nat
    var conditionalDepth: nat
    var braceDepth: nat
    ghost var trail: Trail

    ghost predicate Valid()
      reads this
    {
      && OnLine(cc, text, lineStart, index)
      && Sound(cc, text, trail, tokens, comments, directives, index, line, conditionalDepth, braceDepth)
    }

    constructor (text: string, cc: CharClass)
      ensures Valid() && this.text == text && this.cc == cc && index == 0
    {
      this.text, this.cc := text, cc;
      tokens, comments, directives, trail := [], [], [], Nothing;
      index, line, lineStart, conditionalDepth, braceDepth := 0, 1, 0, 0, 0;
    }

    /** `lex`: run to the end of the text. */
    method Lex()
      requires Valid()
      modifies this
      ensures Valid() && index == |text|
      ensures Account(cc, text, trail, tokens, comments, directives)
    {
      while index < |text|
        invariant Valid()
        decreases |text| - index
      {
        ConsumeTokenOrTrivia();
      }
      SoundAccount(cc, text, trail, tokens, comments, directives, line, conditionalDepth, braceDepth);
    }

    method ConsumeTokenOrTrivia()
      requires Valid() && index < |text|
      modifies this
      ensures Valid() && index > old(index)
    {
      var c := text[index];
      if cc.IsSpace(c) {
        ConsumeSpace();
        return;
      }
      var lineOnly := LineSoFarIsBlank();
      if c == '#' && lineOnly {
        ConsumeDirective();
        return;
      }
      if StartsAt(text, "//", index) {
        ConsumeLineComment();
        return;
      }
      if StartsAt(text, "/*", index) {
        ConsumeBlockComment();
        return;
      }
      var rawEnd := RawStringEnd(cc, text, index);
      if rawEnd != -1 {
        ConsumeRawString(rawEnd);
      } else if c == '"' || c == '\'' {
        ConsumeQuotedString();
      } else if IdentifierStart(cc, c) {
        ConsumeIdentifier();
      } else {
        ConsumePunctuation();
      }
    }

    /** One character of white space; a line feed starts a line. */
    method ConsumeSpace()
      requires Valid() && index < |text| && cc.IsSpace(text[index])
      modifies this
      ensures Valid() && index > old(index)
    {
      SoundOnBlank(cc, text, trail, tokens, comments, directives, index, line, conditionalDepth, braceDepth);
      OnLineAfterSpace(cc, text, lineStart, index);
      if text[index] == '\n' {
        line, lineStart, index := line + 1, index + 1, index + 1;
      } else {
        index := index + 1;
      }
    }

    method LineSoFarIsBlank() returns (blank: bool)
      requires OnLine(cc, text, lineStart, index) && index < |text|
      ensures blank <==> BlankBefore(cc, text, index)
    {
      var i := lineStart;
      while i < index
        invariant lineStart <= i <= index
        invariant Blank(cc, text, lineStart, i)
      {
        if !cc.IsSpace(text[i]) {
          return false;
        }
        i := i + 1;
      }
      BlankLineSoFar(cc, text, lineStart, index);
      return true;
    }

    /** Append a token; `first` is the line it starts on. */
    method Push(token: Token, ghost first: int)
      requires Sound(cc, text, trail, tokens, comments, directives, token.start, first, conditionalDepth, braceDepth)
      requires Reads(cc, text, TokenPiece(token)) && Chosen(cc, text, TokenPiece(token))
      requires token.conditionalDepth == conditionalDepth && token.braceDepth == braceDepth
      requires token.line == if IsQuoted(text, token) then LineAfter(text, first, TokenPiece(token)) else first
      modifies this`tokens, this`trail
      ensures tokens == old(tokens) + [token]
      ensures Sound(cc, text, trail, tokens, comments, directives, token.end, LineAfter(text, first, TokenPiece(token)),
                    conditionalDepth, NextDepth(braceDepth, token))
    {
      ghost var next := TokenIsSound(cc, text, trail, tokens, comments, directives, token, first);
      tokens, trail := tokens + [token], next;
    }

    /** Read the directive that starts here, without consuming it. */
    method ReadDirective() returns (directive: Directive)
      requires index < |text| && text[index] == '#'
      ensures directive == DirectiveAt(text, index, line)
    {
      var end := index;
      while end < |text|
        invariant index <= end <= |text|
        invariant DirectiveEnd(text, index, index) == DirectiveEnd(text, index, end)
        decreases |text| - end
      {
        var newline := LineEnd(text, end);
        if newline == |text| {
          end := |text|;
          break;
        }
        var slashes, probe := 0, newline;
        while probe > index && text[probe - 1] == '\\'
          invariant index <= probe <= newline
          invariant slashes + Backslashes(text, index, probe) == Backslashes(text, index, newline)
        {
          slashes, probe := slashes + 1, probe - 1;
        }
        end := newline + 1;
        if slashes % 2 == 0 {
          break;
        }
      }
      directive := Directive(index, end, line, DirectiveName(text[index..LineEnd(text, index)]));
    }

    method ConsumeDirective()
      requires Valid() && index < |text| && text[index] == '#' && BlankBefore(cc, text, index)
      modifies this
      ensures Valid() && index > old(index)
      ensures trail == Then(old(trail), DirectivePiece(DirectiveAt(text, old(index), old(line))))
      ensures directives == old(directives) + [DirectiveAt(text, old(index), old(line))]
      ensures tokens == old(tokens) && comments == old(comments) && braceDepth == old(braceDepth)
      ensures index == DirectiveEnd(text, old(index), old(index))
      ensures conditionalDepth == NextConditional(old(conditionalDepth), DirectiveAt(text, old(index), old(line)).name)
    {
      var directive := ReadDirective();
      ghost var next := DirectiveIsSound(cc, text, trail, tokens, comments, directives, directive, conditionalDepth,
          braceDepth);
      RecordDirective(directive, next);
    }

    method RecordDirective(directive: Directive, ghost next: Trail)
      requires index < directive.end <= |text| && lineStart <= index && LineStart(text, lineStart)
      requires directive.end < |text| ==> text[directive.end - 1] == '\n'
      requires Sound(cc, text, next, tokens, comments, directives + [directive], directive.end,
                     line + Newlines(text, directive.end) - Newlines(text, index),
                     NextConditional(conditionalDepth, directive.name), braceDepth)
      modifies this
      ensures Valid() && index > old(index)
      ensures trail == next && directives == old(directives) + [directive] && index == directive.end
      ensures tokens == old(tokens) && comments == old(comments) && braceDepth == old(braceDepth)
      ensures conditionalDepth == NextConditional(old(conditionalDepth), directive.name)
    {
      var after, start := ConsumeNewlines(text, cc, index, directive.end, line, lineStart);
      directives, trail := directives + [directive], next;
      conditionalDepth := NextConditional(conditionalDepth, directive.name);
      line, lineStart, index := after, start, directive.end;
    }

    method ConsumeLineComment()
      requires Valid() && StartsAt(text, "//", index)
      modifies this
      ensures Valid() && index > old(index)
      ensures index == LineEnd(text, old(index) + 2)
      ensures comments == old(comments) + [LineComment(text[old(index) + 2..index], old(index), index, old(line),
        BlankBefore(cc, text, old(index)), old(conditionalDepth), old(braceDepth))]
      ensures tokens == old(tokens) && directives == old(directives) && line == old(line)
      ensures conditionalDepth == old(conditionalDepth) && braceDepth == old(braceDepth)
    {
      var end := LineEnd(text, index + 2);
      var lineOnly := LineSoFarIsBlank();
      var comment := LineComment(text[index + 2..end], index, end, line, lineOnly, conditionalDepth, braceDepth);
      CommentReads(cc, text, comment);
      CommentIsChosen(cc, text, comment);
      PushComment(comment);
      AfterComment(cc, text, lineStart, comment);
      index := end;
    }

    method PushComment(comment: LineComment)
      requires Sound(cc, text, trail, tokens, comments, directives, comment.start, line, conditionalDepth, braceDepth)
      requires Reads(cc, text, CommentPiece(comment)) && Chosen(cc, text, CommentPiece(comment))
      requires Newlines(text, comment.end) == Newlines(text, comment.start)
      requires comment.line == line && comment.conditionalDepth == conditionalDepth && comment.braceDepth == braceDepth
      modifies this`comments, this`trail
      ensures comments == old(comments) + [comment]
      ensures Sound(cc, text, trail, tokens, comments, directives, comment.end, line, conditionalDepth, braceDepth)
    {
      ghost var next := CommentIsSound(cc, text, trail, tokens, comments, directives, comment);
      comments, trail := comments + [comment], next;
    }

    method ConsumeBlockComment()
      requires Valid() && StartsAt(text, "/*", index)
      modifies this
      ensures Valid() && index > old(index)
      ensures trail == Then(old(trail), BlockPiece(old(index), index))
      ensures line == old(line) + Newlines(text, index) - Newlines(text, old(index))
      ensures tokens == old(tokens) && comments == old(comments) && directives == old(directives)
      ensures conditionalDepth == old(conditionalDepth) && braceDepth == old(braceDepth)
    {
      var found := Find(text, "*/", index + 2);
      var end := if found < 0 then |text| else found + 2;
      BlockIsClosed(cc, text, index, end);
      ghost var next := BlockIsSound(cc, text, trail, tokens, comments, directives, index, end, line,
          conditionalDepth, braceDepth);
      var after, start := ConsumeNewlines(text, cc, index, end, line, lineStart);
      line, lineStart, index, trail := after, start, end, next;
    }

    method ConsumeRawString(end: nat)
      requires Valid() && index < |text| && end == RawStringEnd(cc, text, index)
        && NeitherTriviaNorDirective(cc, text, index)
      modifies this
      ensures Valid() && index > old(index)
      ensures index == end && line == old(line) + Newlines(text, end) - Newlines(text, old(index))
      ensures tokens == old(tokens) + [Token("<string>", old(index), end, old(line), StringLiteral,
        old(conditionalDepth), old(braceDepth))]
      ensures comments == old(comments) && directives == old(directives)
      ensures conditionalDepth == old(conditionalDepth) && braceDepth == old(braceDepth)
    {
      var token := Token("<string>", index, end, line, StringLiteral, conditionalDepth, braceDepth);
      ghost var next := RawStringIsSound(cc, text, trail, tokens, comments, directives, token);
      var after, start := ConsumeNewlines(text, cc, index, end, line, lineStart);
      tokens, trail := tokens + [token], next;
      line, lineStart, index := after, start, end;
    }

    method ConsumeQuotedString()
      requires Valid() && index < |text| && (text[index] == '"' || text[index] == '\'')
      requires NeitherTriviaNorDirective(cc, text, index)
      modifies this
      ensures Valid() && index > old(index)
      ensures index == QuotedEnd(text, text[old(index)], old(index) + 1)
      ensures line == old(line) + QuotedLines(text, text[old(index)], old(index), index)
      ensures tokens == old(tokens) + [Token("<string>", old(index), index, line, StringLiteral,
        old(conditionalDepth), old(braceDepth))]
      ensures comments == old(comments) && directives == old(directives)
      ensures conditionalDepth == old(conditionalDepth) && braceDepth == old(braceDepth)
    {
      ghost var first := line;
      var token := ReadQuoted();
      Push(token, first);
    }

    method ReadQuoted() returns (token: Token)
      requires index < |text| && lineStart <= index && LineStart(text, lineStart)
      requires (text[index] == '"' || text[index] == '\'') && NeitherTriviaNorDirective(cc, text, index)
      modifies this`index, this`line, this`lineStart
      ensures Reads(cc, text, TokenPiece(token)) && Chosen(cc, text, TokenPiece(token))
      ensures IsQuoted(text, token) && line == LineAfter(text, old(line), TokenPiece(token))
      ensures token == Token("<string>", old(index), index, line, StringLiteral, conditionalDepth, braceDepth)
      ensures index == QuotedEnd(text, text[old(index)], old(index) + 1)
      ensures line == old(line) + QuotedLines(text, text[old(index)], old(index), index)
      ensures OnLine(cc, text, lineStart, index) && NextDepth(braceDepth, token) == braceDepth
    {
      var start := index;
      ScanQuoted();
      token := Token("<string>", start, index, line, StringLiteral, conditionalDepth, braceDepth);
      QuotedLinesAre(text, start, index);
      TokenIsChosen(cc, text, token);
      AfterVisible(cc, text, lineStart, index);
    }

    /** The scan through a quoted literal; an escaped line feed is stepped over uncounted. */
    method ScanQuoted()
      requires index < |text| && lineStart <= index && LineStart(text, lineStart) && text[index] != '\n'
        && text[index] != '\\'
      modifies this`index, this`line, this`lineStart
      ensures index == QuotedEnd(text, old(text[index]), old(index) + 1)
      ensures lineStart <= index && LineStart(text, lineStart)
      ensures line == old(line) + QuotedLines(text, old(text[index]), old(index), index)
      ensures index > old(index)
    {
      var quote := text[index];
      ghost var start := index;
      index := index + 1;
      while index < |text|
        invariant start < index <= |text| && lineStart <= index && LineStart(text, lineStart)
        invariant QuotedEnd(text, quote, start + 1) == QuotedEnd(text, quote, index)
        invariant line == old(line) + Counted(text, quote, start, index)
        modifies this`index, this`line, this`lineStart
        decreases |text| - index
      {
        CountedStep(text, quote, start, index);
        if text[index] == '\\' {
          index := if index + 2 <= |text| then index + 2 else |text|;
          continue;
        }
        if text[index] == quote {
          index := index + 1;
          return;
        }
        if text[index] == '\n' {
          line, lineStart := line + 1, index + 1;
        }
        index := index + 1;
      }
    }

    method ConsumeIdentifier()
      requires Valid() && index < |text| && IdentifierStart(cc, text[index])
        && NeitherTriviaNorDirective(cc, text, index)
      requires RawStringEnd(cc, text, index) == -1 && text[index] != '"' && text[index] != '\''
      modifies this
      ensures Valid() && index > old(index)
      ensures index <= |text| && forall i :: old(index) <= i < index ==> IdentifierPart(cc, text[i])
      ensures index < |text| ==> !IdentifierPart(cc, text[index])
      ensures tokens == old(tokens) + [Token(text[old(index)..index], old(index), index, old(line), Identifier,
        old(conditionalDepth), old(braceDepth))]
      ensures comments == old(comments) && directives == old(directives) && line == old(line)
      ensures conditionalDepth == old(conditionalDepth) && braceDepth == old(braceDepth)
    {
      var token := ScanIdentifier();
      TokenIsChosen(cc, text, token);
      AfterVisible(cc, text, lineStart, index);
      Push(token, line);
    }

    method ScanIdentifier() returns (token: Token)
      requires index < |text| && IdentifierStart(cc, text[index])
      modifies this`index
      ensures old(index) < index <= |text| && !cc.IsSpace(text[index - 1])
      ensures Reads(cc, text, TokenPiece(token)) && LineAfter(text, line, TokenPiece(token)) == line
      ensures NextDepth(braceDepth, token) == braceDepth
      ensures token == Token(text[old(index)..index], old(index), index, line, Identifier, conditionalDepth, braceDepth)
    {
      var start := index;
      index := index + 1;
      while index < |text| && IdentifierPart(cc, text[index])
        invariant start < index <= |text|
        invariant forall i :: start <= i < index ==> IdentifierPart(cc, text[i])
        modifies this`index
      {
        index := index + 1;
      }
      token := Token(text[start..index], start, index, line, Identifier, conditionalDepth, braceDepth);
      IdentifierReads(cc, text, token);
    }

    /** The longest listed punctuation that starts here, or the single character. */
    method ConsumePunctuation()
      requires Valid() && index < |text| && NeitherTriviaNorDirective(cc, text, index)
      requires TokenKind(cc, text, index) == Punctuation
      modifies this
      ensures Valid() && index > old(index)
      ensures tokens == old(tokens)
        + [PunctuationToken(text, old(index), old(line), old(conditionalDepth), old(braceDepth))]
      ensures index == PunctuationEnd(text, old(index)) && line == old(line)
      ensures comments == old(comments) && directives == old(directives) && conditionalDepth == old(conditionalDepth)
      ensures braceDepth
        == NextDepth(old(braceDepth), PunctuationToken(text, old(index), old(line), conditionalDepth, old(braceDepth)))
    {
      ghost var next := PunctuationIsSound(cc, text, trail, tokens, comments, directives, index, line,
          conditionalDepth, braceDepth);
      RecordPunctuation(next);
    }

    method RecordPunctuation(ghost next: Trail)
      requires index < |text| && OnLine(cc, text, lineStart, index)
      requires !cc.IsSpace(text[PunctuationEnd(text, index) - 1])
      requires StatusOf(cc, text, next, PunctuationEnd(text, index))
        == AfterPunctuation(text, tokens, comments, directives, index, line, conditionalDepth, braceDepth)
      modifies this
      ensures Valid() && index > old(index)
      ensures tokens == old(tokens)
        + [PunctuationToken(text, old(index), old(line), old(conditionalDepth), old(braceDepth))]
      ensures index == PunctuationEnd(text, old(index)) && line == old(line)
      ensures comments == old(comments) && directives == old(directives) && conditionalDepth == old(conditionalDepth)
      ensures braceDepth
        == NextDepth(old(braceDepth), PunctuationToken(text, old(index), old(line), conditionalDepth, old(braceDepth)))
    {
      var token := PunctuationToken(text, index, line, conditionalDepth, braceDepth);
      AfterVisible(cc, text, lineStart, token.end);
      tokens, trail, index := tokens + [token], next, token.end;
      Nest(token);
    }

    /** An active brace changes the depth, which never goes below zero. */
    method Nest(token: Token)
      requires token.conditionalDepth == conditionalDepth
      modifies this`braceDepth
      ensures braceDepth == NextDepth(old(braceDepth), token)
    {
      if conditionalDepth == 0 {
        if token.value == "{" {
          braceDepth := braceDepth + 1;
        } else if token.value == "}" {
          braceDepth := if braceDepth == 0 then 0 else braceDepth - 1;
        }
      }
    }
  }
}
