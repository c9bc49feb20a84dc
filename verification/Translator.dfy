/** The translator of tools/s-lang/sc.c: a position in the token array, moved by loops, and the output
    built up behind it. */
module Translator {
  import opened LexerModel
  import opened TranslatorModel
  import opened TranslatorProofs
  import Lexer

  class Pass {
    const tokens: seq<Token>
    var pos: nat
    var out: string

    /** The position never leaves the token array. */
    ghost predicate Valid()
      reads this
    {
      Ended(tokens) && pos <= |tokens|
    }

    constructor (tokens: seq<Token>)
      requires Ended(tokens)
      ensures Valid() && this.tokens == tokens && pos == 0 && out == ""
    {
      this.tokens := tokens;
      pos, out := 0, "";
    }

    method Spaces()
      requires Valid()
      modifies `pos
      ensures Valid() && pos == SkipSpaces(tokens, old(pos))
    {
      while pos < |tokens| && tokens[pos].kind == Space
        invariant Valid() && SkipSpaces(tokens, old(pos)) == SkipSpaces(tokens, pos)
        decreases |tokens| - pos
      {
        pos := pos + 1;
      }
    }

    method Trim(text: string) returns (r: string)
      ensures r == TrimBlanks(text)
    {
      r := text;
      while r != "" && (r[|r| - 1] == ' ' || r[|r| - 1] == '\t')
        invariant TrimBlanks(r) == TrimBlanks(text)
        decreases |r|
      {
        r := r[..|r| - 1];
      }
    }

    /** The parameters after the opening parenthesis. */
    method CollectParams() returns (text: string)
      requires Valid() && pos < |tokens|
      modifies `pos
      ensures Valid() && Step(pos, text) == Params(tokens, old(pos) + 1, 1)
    {
      text := "";
      pos := pos + 1;
      var depth: nat := 1;
      ghost var all := Params(tokens, pos, 1);
      while pos < |tokens| && depth > 0
        invariant Valid()
        invariant depth > 0 ==> all.pos == Params(tokens, pos, depth).pos && all.text == text + Params(tokens, pos, depth).text
        invariant depth == 0 ==> Step(pos, text) == all
        decreases |tokens| - pos
      {
        var t := tokens[pos];
        if t.kind == Eof { break; }
        if IsPunct(t, ')') && depth == 1 {
          text, pos, depth := text + ")", pos + 1, 0;
          break;
        }
        if IsPunct(t, '(') { depth := depth + 1; }
        else if IsPunct(t, ')') { depth := depth - 1; }
        pos := pos + 1;
        Reassociate(text, Mapped(t), Params(tokens, pos, depth).text);
        text := text + Mapped(t);
      }
    }

    method CollectReturnType() returns (text: string)
      requires Valid()
      modifies `pos
      ensures Valid() && Step(pos, text) == ReturnType(tokens, old(pos))
    {
      text := "";
      ghost var all := ReturnType(tokens, pos);
      while pos < |tokens|
        invariant Valid() && all.pos == ReturnType(tokens, pos).pos && all.text == text + ReturnType(tokens, pos).text
        decreases |tokens| - pos
      {
        var t := tokens[pos];
        if t.kind == Eof || IsPunct(t, '{') || IsPunct(t, ';') { break; }
        if t.kind == Newline { break; }
        pos := pos + 1;
        Reassociate(text, Mapped(t), ReturnType(tokens, pos).text);
        text := text + Mapped(t);
      }
    }

    /** translate_fn. */
    method TranslateFn() returns (text: string)
      requires Valid() && pos < |tokens|
      modifies `pos
      ensures Valid() && Step(pos, text) == Function(tokens, old(pos))
    {
      pos := pos + 1;
      Spaces();
      var name := Look(tokens, pos);
      if pos < |tokens| { pos := pos + 1; }
      if name.kind != Word {
        return "fn " + name.text;
      }
      Spaces();
      if !IsPunct(Look(tokens, pos), '(') {
        return "void " + name.text;
      }
      text := TranslateSignature(name.text);
    }

    method TranslateSignature(name: string) returns (text: string)
      requires Valid() && pos < |tokens|
      modifies `pos
      ensures Valid() && Step(pos, text) == Signature(tokens, old(pos), name)
    {
      hide SkipSpaces, Params, ReturnType, TrimBlanks;
      var params := CollectParams();
      params := "(" + params;
      Spaces();
      var ret := "void";
      if Look(tokens, pos).kind == Arrow {
        pos := pos + 1;
        Spaces();
        var raw := CollectReturnType();
        ret := Trim(raw);
      }
      text := ret + " " + name + params;
    }

    /** translate_use. */
    method TranslateUse() returns (text: string)
      requires Valid() && pos < |tokens| && tokens[pos].kind != Eof
      modifies `pos
      ensures Valid() && Step(pos, text) == Use(tokens, old(pos))
    {
      pos := pos + 1;
      Spaces();
      var t := Look(tokens, pos);
      if t.kind == Str {
        text, pos := "#include " + t.text, pos + 1;
      } else if IsPunct(t, '<') {
        pos := pos + 1;
        var header := CollectAngle();
        text := "#include " + t.text + header;
      } else {
        text, pos := "/* use " + t.text + " */", pos + 1;
      }
    }

    method CollectAngle() returns (text: string)
      requires Valid()
      modifies `pos
      ensures Valid() && Step(pos, text) == Angle(tokens, old(pos))
    {
      text := "";
      ghost var all := Angle(tokens, pos);
      while pos < |tokens|
        invariant Valid() && all.pos == Angle(tokens, pos).pos && all.text == text + Angle(tokens, pos).text
        decreases |tokens| - pos
      {
        var t := tokens[pos];
        text, pos := text + t.text, pos + 1;
        if IsPunct(t, '>') { break; }
        if t.kind == Newline || t.kind == Eof { break; }
      }
    }

    /** translate_let with prefix "const ", translate_var with none. */
    method TranslateDeclaration(prefix: string) returns (text: string)
      requires Valid() && pos < |tokens|
      modifies `pos
      ensures Valid() && Step(pos, text) == Declaration(tokens, old(pos), prefix)
    {
      hide SkipSpaces, IsAlias, Alias, Mapped;
      pos := pos + 1;
      Spaces();
      var t := Look(tokens, pos);
      if t.kind != Word {
        return prefix;
      }
      if IsAlias(t) {
        pos := pos + 1;
        return prefix + Alias(t.text);
      }
      var saved := pos;
      pos := pos + 1;
      Spaces();
      if IsPunct(Look(tokens, pos), ':') {
        pos := pos + 1;
        Spaces();
        var ty := Look(tokens, pos);
        if ty.kind != Eof { pos := pos + 1; }
        return prefix + Mapped(ty) + " " + t.text;
      }
      pos := saved;
      text, pos := prefix + t.text, pos + 1;
    }

    method CollectRangeStart() returns (found: bool, inclusive: bool, text: string)
      requires Valid()
      modifies `pos
      ensures Valid() && Bound(found, inclusive, pos, text) == RangeStart(tokens, old(pos))
    {
      found, inclusive, text := false, false, "";
      ghost var all := RangeStart(tokens, pos);
      while pos < |tokens|
        invariant Valid() && !found && !inclusive
        invariant all == RangeStart(tokens, pos).(text := text + RangeStart(tokens, pos).text)
        decreases |tokens| - pos
      {
        var t := tokens[pos];
        if t.kind == DotDotEq || t.kind == DotDot {
          found, inclusive, pos := true, t.kind == DotDotEq, pos + 1;
          return;
        }
        if t.kind == Newline || t.kind == Eof { break; }
        pos := pos + 1;
        Reassociate(text, t.text, RangeStart(tokens, pos).text);
        text := text + t.text;
      }
    }

    method CollectRangeEnd() returns (text: string)
      requires Valid()
      modifies `pos
      ensures Valid() && Step(pos, text) == RangeEnd(tokens, old(pos))
    {
      text := "";
      ghost var all := RangeEnd(tokens, pos);
      while pos < |tokens|
        invariant Valid() && all.pos == RangeEnd(tokens, pos).pos && all.text == text + RangeEnd(tokens, pos).text
        decreases |tokens| - pos
      {
        var t := tokens[pos];
        if IsPunct(t, '{') || t.kind == Newline || t.kind == Eof { break; }
        pos := pos + 1;
        Reassociate(text, t.text, RangeEnd(tokens, pos).text);
        text := text + t.text;
      }
    }

    /** The loop variable and the word in: where the start expression begins. */
    method MatchHead() returns (h: Head)
      requires Valid() && pos < |tokens|
      modifies `pos
      ensures Valid() && h == ForHead(tokens, old(pos)) && (h.Head? ==> pos == h.start)
    {
      pos := pos + 1;
      Spaces();
      var v := pos;
      if Look(tokens, pos).kind != Word { return NoHead; }
      pos := pos + 1;
      Spaces();
      if !IsWord(Look(tokens, pos), "in") { return NoHead; }
      pos := pos + 1;
      Spaces();
      h := Head(v, pos);
    }

    /** The bounds of a range, for the variable v. */
    method MatchBounds(v: string) returns (r: Range)
      requires Valid()
      modifies `pos
      ensures Valid() && r == Bounds(tokens, v, old(pos)) && (r.Range? ==> pos == r.pos)
    {
      var found, inclusive, start := CollectRangeStart();
      if !found { return NoRange; }
      Spaces();
      var raw := CollectRangeEnd();
      var end := Trim(raw);
      r := Range(pos, v, start, inclusive, end);
    }

    /** try_translate_for_range: on failure the position is back at the word for. */
    method TryForRange() returns (r: Range)
      requires Valid() && pos < |tokens|
      modifies `pos
      ensures Valid() && r == ForRange(tokens, old(pos))
      ensures pos == if r.Range? then r.pos else old(pos)
    {
      var saved := pos;
      var h := MatchHead();
      if h.NoHead? { pos := saved; return NoRange; }
      r := MatchBounds(tokens[h.v].text);
      if r.NoRange? { pos := saved; }
    }

    /** translate_tokens. Every round ends further on in the token array. */
    method Run()
      requires Valid() && pos == 0 && out == ""
      modifies this
      ensures Valid() && out == Translate(tokens, 0)
    {
      while pos < |tokens|
        invariant Valid() && out + Translate(tokens, pos) == Translate(tokens, 0)
        decreases |tokens| - pos
      {
        var t := tokens[pos];
        if t.kind == Eof { break; }
        ghost var p := pos;
        var text := Round();
        TranslateOnce(tokens, p);
        Reassociate(out, text, Translate(tokens, pos));
        out := out + text;
      }
    }

    /** One round of the loop: the text it emits. */
    method Round() returns (text: string)
      requires Valid() && pos < |tokens| && tokens[pos].kind != Eof
      modifies `pos
      ensures Valid() && old(pos) < pos && Step(pos, text) == Chunk(tokens, old(pos))
    {
      var t := tokens[pos];
      if t.kind != Word {
        text, pos := t.text, pos + 1;
      } else if t.text == "use" {
        text := TranslateUse();
      } else if t.text == "fn" {
        text := TranslateFn();
      } else if t.text == "let" {
        text := TranslateDeclaration("const ");
      } else if t.text == "var" {
        text := TranslateDeclaration("");
      } else if t.text == "null" {
        text, pos := "NULL", pos + 1;
      } else if t.text == "loop" {
        text, pos := "while (1)", pos + 1;
      } else if t.text == "for" {
        var r := TryForRange();
        if r.Range? { text := ForText(r.v, r.start, r.inclusive, r.end); } else { text, pos := t.text, pos + 1; }
      } else {
        text, pos := Mapped(t), pos + 1;
      }
    }
  }

  /** The scan for a use of s.h. */
  method FindInclude(ts: seq<Token>) returns (found: bool)
    ensures found <==> HasInclude(ts)
  {
    var i := 0;
    while i < |ts|
      invariant 0 <= i <= |ts| && forall k :: 0 <= k < i ==> !UsesHeader(ts, k)
    {
      if IsWord(ts[i], "use") {
        var j := i + 1;
        while j < |ts| && ts[j].kind == Space
          invariant i + 1 <= j <= |ts| && SkipSpaces(ts, i + 1) == SkipSpaces(ts, j)
        {
          j := j + 1;
        }
        assert j == SkipSpaces(ts, i + 1);
        if j < |ts| && Contains(ts[j].text, "s.h") {
          assert UsesHeader(ts, i);
          return true;
        }
        assert !Contains("", "s.h");
      }
      i := i + 1;
    }
    found := false;
  }

  /** transpile. */
  method Transpile(src: string, filename: string) returns (out: string)
    ensures out == Output(src, filename)
  {
    var ts := Lexer.LexAll(src);
    TokensEnd(src);
    var has := FindInclude(ts);
    var pass := new Pass(ts);
    pass.Run();
    out := Banner(filename) + if has then "" else "#include <s.h>\n";
    out := out + pass.out;
  }
}
