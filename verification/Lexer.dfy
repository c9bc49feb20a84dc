/** The lexer of tools/s-lang/sc.c: a cursor with line and column over the source. */
module Lexer {
  import opened LexerModel

  class Cursor {
    const src: string
    var pos: nat
    var line: nat
    var col: nat

    /** Line and column are those of the text before the cursor. */
    ghost predicate Valid()
      reads this
    {
      pos <= |src| && line == LineAt(src, pos) && col == ColAt(src, pos)
    }

    constructor (src: string)
      ensures Valid() && this.src == src && pos == 0
    {
      this.src := src;
      pos, line, col := 0, 1, 1;
    }

    /** lexer_advance. */
    method Advance() returns (c: char)
      requires Valid() && pos < |src|
      modifies this
      ensures Valid() && pos == old(pos) + 1 && c == src[old(pos)]
    {
      LineStep(src, pos);
      c := src[pos];
      pos := pos + 1;
      if c == '\n' { line := line + 1; col := 1; } else { col := col + 1; }
    }

    method AdvanceBy(n: nat)
      requires Valid() && pos + n <= |src|
      modifies this
      ensures Valid() && pos == old(pos) + n
    {
      var i := 0;
      while i < n
        invariant 0 <= i <= n && Valid() && pos == old(pos) + i
      {
        var _ := Advance();
        i := i + 1;
      }
    }

    /** The loops that run over one class of characters. */
    method AdvanceWhile(k: Class)
      requires Valid()
      modifies this
      ensures Valid() && pos == Run(src, k, old(pos))
    {
      while pos < |src| && In(src[pos], k)
        invariant Valid() && Run(src, k, old(pos)) == Run(src, k, pos)
        decreases |src| - pos
      {
        var _ := Advance();
      }
    }

    method BlockComment()
      requires Valid() && pos + 2 <= |src|
      modifies this
      ensures Valid() && pos == CommentEnd(src, old(pos) + 2)
    {
      AdvanceBy(2);
      while pos + 1 < |src|
        invariant Valid() && CommentEnd(src, old(pos) + 2) == CommentEnd(src, pos)
        decreases |src| - pos
      {
        if src[pos] == '*' && src[pos + 1] == '/' {
          AdvanceBy(2);
          return;
        }
        var _ := Advance();
      }
    }

    /** String and character literals. */
    method Quoted(q: char)
      requires Valid() && pos < |src| && q != '\\'
      modifies this
      ensures Valid() && pos == QuoteEnd(src, old(pos) + 1, q)
    {
      hide LineAt, ColAt;
      var _ := Advance();
      while pos < |src|
        invariant Valid() && QuoteEnd(src, old(pos) + 1, q) == QuoteEnd(src, pos, q)
        decreases |src| - pos
      {
        var ch := Advance();
        if ch == '\\' {
          if pos < |src| { var _ := Advance(); }
        } else if ch == q {
          return;
        }
      }
    }

    method Digits()
      requires Valid()
      modifies this
      ensures Valid() && pos == DigitsEnd(src, old(pos), false)
    {
      var seenDot := false;
      while pos < |src|
        invariant Valid() && DigitsEnd(src, old(pos), false) == DigitsEnd(src, pos, seenDot)
        decreases |src| - pos
      {
        var ch := src[pos];
        if IsDigit(ch) {
          var _ := Advance();
        } else if ch == '.' && !seenDot && Peek(src, pos + 1) != '.' {
          if pos + 1 < |src| && IsDigit(src[pos + 1]) {
            seenDot := true;
            var _ := Advance();
          } else {
            return;
          }
        } else {
          return;
        }
      }
    }

    method NumberLiteral()
      requires Valid() && pos < |src| && IsDigit(src[pos])
      modifies this
      ensures Valid() && pos == NumberEnd(src, old(pos))
    {
      hide Run, DigitsEnd, LineAt, ColAt;
      if src[pos] == '0' && (Peek(src, pos + 1) == 'x' || Peek(src, pos + 1) == 'X') {
        AdvanceBy(2);
        AdvanceWhile(HexDigits);
      } else {
        Digits();
        AdvanceWhile(Suffix);
      }
    }

    /** The range operators, at their first dot. */
    method Dots() returns (kind: Kind, text: string)
      requires Valid() && pos + 1 < |src| && src[pos] == '.' && src[pos + 1] == '.'
      modifies this
      ensures Valid() && (kind, pos) == Operator(src, old(pos)) && text == src[old(pos)..pos]
    {
      hide Pair;
      AdvanceBy(2);
      if Peek(src, pos) == '=' {
        var _ := Advance();
        return DotDotEq, "..=";
      }
      return DotDot, "..";
    }

    /** Operators and punctuation, with the text the token gets. */
    method OperatorToken() returns (kind: Kind, text: string)
      requires Valid() && pos < |src|
      modifies this
      ensures Valid() && (kind, pos) == Operator(src, old(pos)) && text == src[old(pos)..pos]
    {
      hide Pair;
      var c, d := src[pos], Peek(src, pos + 1);
      if c == '.' && d == '.' {
        kind, text := Dots();
        return;
      }
      var _ := Advance();
      kind := Pair(c, d);
      text := [c];
      if kind != Punct && pos < |src| {
        var _ := Advance();
        text := [c, d];
      } else {
        kind := Punct;
      }
    }

    /** lexer_next: the token at the cursor, or the end. */
    method Next() returns (more: bool, tok: Token)
      requires Valid()
      modifies this
      ensures Valid() && (more <==> old(pos) < |src|)
      ensures more ==> tok == TokenAt(src, old(pos)) && pos == Scan(src, old(pos)).1 && old(pos) < pos
      ensures !more ==> tok == Token(Eof, "", LineAt(src, |src|), ColAt(src, |src|)) && pos == old(pos)
    {
      hide Run, CommentEnd, QuoteEnd, NumberEnd, Operator, LineAt, ColAt;
      if pos >= |src| { return false, Token(Eof, "", line, col); }
      var line0, col0, start, c := line, col, pos, src[pos];
      var kind: Kind;
      if IsBlank(c) {
        kind := Space;
        AdvanceWhile(Blanks);
      } else if c == '\n' {
        kind := Newline;
        var _ := Advance();
      } else if c == '/' && Peek(src, pos + 1) == '/' {
        kind := LineComment;
        AdvanceWhile(ToNewline);
      } else if c == '/' && Peek(src, pos + 1) == '*' {
        kind := Kind.BlockComment;
        BlockComment();
      } else if c == '"' || c == '\'' {
        kind := if c == '"' then Str else CharLit;
        Quoted(c);
      } else if IsDigit(c) {
        kind := Number;
        NumberLiteral();
      } else if IsWordStart(c) {
        kind := Word;
        AdvanceWhile(WordChars);
      } else {
        var text;
        kind, text := OperatorToken();
        return true, Token(kind, CString(text), line0, col0);
      }
      more, tok := true, Token(kind, CString(src[start..pos]), line0, col0);
    }
  }

  /** The lexing loop of transpile, end mark included. */
  method LexAll(src: string) returns (ts: seq<Token>)
    ensures ts == Tokens(src)
    ensures Concat(ts) == src <==> '\0' !in src
  {
    hide Scan;
    var cursor := new Cursor(src);
    ts := [];
    ghost var at: nat := 0;
    var more, tok := cursor.Next();
    while more
      invariant cursor.Valid() && cursor.src == src && at <= |src| && (more <==> at < |src|)
      invariant more ==> tok == TokenAt(src, at) && cursor.pos == Scan(src, at).1
      invariant !more ==> tok == Token(Eof, "", LineAt(src, |src|), ColAt(src, |src|))
      invariant ts + Lex(src, at) == Lex(src, 0)
      decreases |src| - at
    {
      assert ts + Lex(src, at) == ts + [tok] + Lex(src, cursor.pos);
      ts := ts + [tok];
      at := cursor.pos;
      more, tok := cursor.Next();
    }
    ts := ts + [tok];
    Lossless(src);
  }
}
