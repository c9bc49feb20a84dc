/** What fn, let and var become, said of the source tokens instead of the passes over them. */
module Declarations {
  import opened LexerModel
  import opened TranslatorModel
  import opened TranslatorProofs

  /** The text of tokens with every type alias replaced. */
  function MappedText(ts: seq<Token>): string {
    if ts == [] then "" else Mapped(ts[0]) + MappedText(ts[1..])
  }

  lemma MappedCons(ts: seq<Token>, p: nat, q: nat)
    requires p < q <= |ts|
    ensures MappedText(ts[p..q]) == Mapped(ts[p]) + MappedText(ts[p + 1..q])
  {
    assert ts[p..q][1..] == ts[p + 1..q];
  }

  lemma MappedNothing(ts: seq<Token>, p: nat)
    requires p <= |ts|
    ensures MappedText(ts[p..p]) == ""
  {
  }

  // -------------------------------------------------------------- parentheses

  /** Opened less closed parentheses among the tokens from a up to k. */
  function Nesting(ts: seq<Token>, a: nat, k: nat): int
    requires a <= k <= |ts|
  {
    if k == a then 0
    else Nesting(ts, a, k - 1) + (if IsPunct(ts[k - 1], '(') then 1 else if IsPunct(ts[k - 1], ')') then -1 else 0)
  }

  /** Token c closes the parenthesis that was opened just before a: in between all are balanced. */
  predicate Closes(ts: seq<Token>, a: nat, c: nat) {
    && a <= c < |ts| && IsPunct(ts[c], ')') && Nesting(ts, a, c) == 0
    && forall k :: a <= k < c && IsPunct(ts[k], ')') ==> Nesting(ts, a, k) > 0
  }

  lemma {:induction false} NestingPositive(ts: seq<Token>, a: nat, c: nat, k: nat)
    requires Closes(ts, a, c) && a <= k <= c
    ensures Nesting(ts, a, k) >= 0
    decreases k
  {
    if k > a { NestingPositive(ts, a, c, k - 1); }
  }

  lemma {:induction false} ParamsText(ts: seq<Token>, a: nat, p: nat, c: nat)
    requires Ended(ts) && Closes(ts, a, c) && a <= p <= c
    ensures Nesting(ts, a, p) >= 0
    ensures Params(ts, p, 1 + Nesting(ts, a, p)) == Step(c + 1, MappedText(ts[p..c]) + ")")
    decreases c - p
  {
    hide Mapped, MappedText;
    NestingPositive(ts, a, c, p);
    if p == c {
      MappedNothing(ts, c);
    } else {
      ParamsText(ts, a, p + 1, c);
      MappedCons(ts, p, c);
      Reassociate(Mapped(ts[p]), MappedText(ts[p + 1..c]), ")");
    }
  }

  /** No token from p on closes the parenthesis opened before a. */
  predicate NeverCloses(ts: seq<Token>, a: nat, p: nat)
    requires a <= p
  {
    forall k :: p <= k < |ts| && IsPunct(ts[k], ')') ==> Nesting(ts, a, k) > 0
  }

  /** Parameters that are never closed reach to the end of the source. */
  lemma {:induction false} OpenParams(ts: seq<Token>, a: nat, p: nat)
    requires Ended(ts) && a <= p < |ts| && NeverCloses(ts, a, p) && Nesting(ts, a, p) >= 0
    ensures Params(ts, p, 1 + Nesting(ts, a, p)) == Step(|ts| - 1, MappedText(ts[p..|ts| - 1]))
    decreases |ts| - p
  {
    hide Mapped, MappedText;
    if p == |ts| - 1 {
      MappedNothing(ts, p);
    } else {
      OpenParams(ts, a, p + 1);
      MappedCons(ts, p, |ts| - 1);
    }
  }

  /** Trimming takes off exactly the blanks and tabs at the end. */
  lemma {:induction false} TrimLaw(core: string, blanks: string)
    requires core != "" ==> core[|core| - 1] != ' ' && core[|core| - 1] != '\t'
    requires forall k :: 0 <= k < |blanks| ==> blanks[k] == ' ' || blanks[k] == '\t'
    ensures TrimBlanks(core + blanks) == core
    decreases |blanks|
  {
    if blanks == "" {
      assert core + blanks == core;
    } else {
      var s, init := core + blanks, blanks[..|blanks| - 1];
      assert s[..|s| - 1] == core + init && s[|s| - 1] == blanks[|blanks| - 1];
      TrimLaw(core, init);
    }
  }

  // ----------------------------------------------------------------------- fn

  /** Where a return type ends. */
  predicate EndsReturn(t: Token) { t.kind == Eof || IsPunct(t, '{') || IsPunct(t, ';') || t.kind == Newline }

  lemma {:induction false} ReturnText(ts: seq<Token>, p: nat, e: nat)
    requires p <= e < |ts| && EndsReturn(ts[e]) && forall k :: p <= k < e ==> !EndsReturn(ts[k])
    ensures ReturnType(ts, p) == Step(e, MappedText(ts[p..e]))
    decreases e - p
  {
    hide Mapped, MappedText;
    if p == e {
      MappedNothing(ts, e);
    } else {
      ReturnText(ts, p + 1, e);
      MappedCons(ts, p, e);
    }
  }

  /** fn NAME ( up to its closing parenthesis, with any spaces between. */
  predicate FnHead(ts: seq<Token>, p: nat, n: nat, o: nat, c: nat) {
    && p < |ts| && IsWord(ts[p], "fn") && SpacesTo(ts, p + 1, n) && ts[n].kind == Word
    && SpacesTo(ts, n + 1, o) && IsPunct(ts[o], '(') && Closes(ts, o + 1, c)
  }

  lemma FnHeadIs(ts: seq<Token>, p: nat, n: nat, o: nat, c: nat)
    requires Ended(ts) && FnHead(ts, p, n, o, c)
    ensures Chunk(ts, p) == Signature(ts, o, ts[n].text)
    ensures Params(ts, o + 1, 1) == Step(c + 1, MappedText(ts[o + 1..c]) + ")")
  {
    hide Signature, Params, Closes, SkipSpaces, SpacesTo, MappedText;
    FnOrder(ts, p, n, o, c);
    SkipTo(ts, p + 1, n);
    SkipTo(ts, n + 1, o);
    assert Function(ts, p) == Signature(ts, o, ts[n].text);
    FnChunk(ts, p);
    ParamsText(ts, o + 1, o + 1, c);
  }

  lemma FnOrder(ts: seq<Token>, p: nat, n: nat, o: nat, c: nat)
    requires FnHead(ts, p, n, o, c)
    ensures p < n < o < c < |ts|
  {
  }

  /** fn NAME(PARAMS) -> TYPE up to a brace, semicolon or line end: the C declaration TYPE NAME(PARAMS), with
      the aliases of both replaced and the blanks behind the type cut off. */
  lemma FunctionText(ts: seq<Token>, p: nat, n: nat, o: nat, c: nat, a: nat, t: nat, e: nat)
    requires Ended(ts) && FnHead(ts, p, n, o, c) && SpacesTo(ts, c + 1, a) && ts[a].kind == Arrow && SpacesTo(ts, a + 1, t)
    requires t <= e < |ts| && EndsReturn(ts[e]) && forall k :: t <= k < e ==> !EndsReturn(ts[k])
    ensures Chunk(ts, p) ==
              Step(e, TrimBlanks(MappedText(ts[t..e])) + " " + ts[n].text + ("(" + (MappedText(ts[o + 1..c]) + ")")))
  {
    hide *;
    FnOrder(ts, p, n, o, c);
    FnHeadIs(ts, p, n, o, c);
    SpacesOrder(ts, c + 1, a);
    SpacesOrder(ts, a + 1, t);
    SkipTo(ts, c + 1, a);
    SkipTo(ts, a + 1, t);
    ReturnText(ts, t, e);
    SignatureIs(ts, o, ts[n].text, Step(c + 1, MappedText(ts[o + 1..c]) + ")"), a);
  }

  lemma SpacesOrder(ts: seq<Token>, p: nat, q: nat)
    requires SpacesTo(ts, p, q)
    ensures p <= q < |ts|
  {
  }

  lemma SignatureIs(ts: seq<Token>, o: nat, name: string, params: Step, a: nat)
    requires o < |ts| && Params(ts, o + 1, 1) == params && SkipSpaces(ts, params.pos) == a < |ts|
    ensures Signature(ts, o, name) ==
              if ts[a].kind == Arrow then
                var ret := ReturnType(ts, SkipSpaces(ts, a + 1)); Step(ret.pos, TrimBlanks(ret.text) + " " + name + ("(" + params.text))
              else Step(a, "void" + " " + name + ("(" + params.text))
  {
    hide Params, SkipSpaces, ReturnType, TrimBlanks;
  }

  /** fn NAME(PARAMS) with no arrow behind it: void NAME(PARAMS). */
  lemma ProcedureText(ts: seq<Token>, p: nat, n: nat, o: nat, c: nat, a: nat)
    requires Ended(ts) && FnHead(ts, p, n, o, c) && SpacesTo(ts, c + 1, a) && ts[a].kind != Arrow
    ensures Chunk(ts, p) == Step(a, "void" + " " + ts[n].text + ("(" + (MappedText(ts[o + 1..c]) + ")")))
  {
    hide *;
    FnOrder(ts, p, n, o, c);
    FnHeadIs(ts, p, n, o, c);
    SpacesOrder(ts, c + 1, a);
    SkipTo(ts, c + 1, a);
    SignatureIs(ts, o, ts[n].text, Step(c + 1, MappedText(ts[o + 1..c]) + ")"), a);
  }

  // -------------------------------------------------------------- let and var

  predicate IsLetVar(t: Token) { IsWord(t, "let") || IsWord(t, "var") }

  function Prefix(t: Token): string { if IsWord(t, "let") then "const " else "" }

  /** let NAME: TYPE and var NAME: TYPE, the name no alias, become const TYPE NAME and TYPE NAME. */
  lemma ColonText(ts: seq<Token>, p: nat, n: nat, c: nat, t: nat)
    requires Ended(ts) && p < |ts| && IsLetVar(ts[p]) && SpacesTo(ts, p + 1, n) && ts[n].kind == Word && !IsAlias(ts[n])
    requires SpacesTo(ts, n + 1, c) && IsPunct(ts[c], ':') && SpacesTo(ts, c + 1, t) && ts[t].kind != Eof
    ensures Chunk(ts, p) == Step(t + 1, Prefix(ts[p]) + Mapped(ts[t]) + " " + ts[n].text)
  {
    hide SkipSpaces, Alias;
    SkipTo(ts, p + 1, n);
    SkipTo(ts, n + 1, c);
    SkipTo(ts, c + 1, t);
  }

  /** let TYPE NAME and var TYPE NAME become const TYPE and TYPE, and go on behind the type. */
  lemma TypedText(ts: seq<Token>, p: nat, t: nat, n: nat)
    requires Ended(ts) && p < |ts| && IsLetVar(ts[p]) && SpacesTo(ts, p + 1, t) && ts[t].kind == Word
    requires SpacesTo(ts, t + 1, n) && !IsPunct(ts[n], ':')
    ensures Chunk(ts, p) == Step(t + 1, Prefix(ts[p]) + Mapped(ts[t]))
  {
    hide SkipSpaces;
    SkipTo(ts, p + 1, t);
    SkipTo(ts, t + 1, n);
  }

  // ------------------------------------------------------------ words and use

  lemma TextAliases()
    ensures Alias("str") == "char*" && Alias("byte") == "uint8_t"
  {
  }

  lemma SignedAliases()
    ensures Alias("i8") == "int8_t" && Alias("i16") == "int16_t" && Alias("i32") == "int32_t" && Alias("i64") == "int64_t"
  {
    assert "i16"[1] != "i32"[1] && "i16"[1] != "i64"[1] && "i32"[1] != "i64"[1] && "i16"[0] != "str"[0];
  }

  lemma UnsignedAliases()
    ensures Alias("u8") == "uint8_t" && Alias("u16") == "uint16_t" && Alias("u32") == "uint32_t" && Alias("u64") == "uint64_t"
  {
    assert "u16"[1] != "u32"[1] && "u16"[1] != "u64"[1] && "u32"[1] != "u64"[1] && "u16"[0] != "str"[0] && "u8"[0] != "i8"[0];
  }

  lemma FloatAliases()
    ensures Alias("f32") == "float" && Alias("f64") == "double"
  {
    assert "f32"[0] != "u16"[0] && "f32"[0] != "i16"[0] && "f32"[0] != "str"[0] && "f64"[1] != "f32"[1];
  }

  lemma SizeAliases()
    ensures Alias("usize") == "size_t" && Alias("isize") == "ssize_t"
  {
    assert "usize"[0] != "isize"[0];
  }

  /** The fourteen type aliases, and no other. */
  lemma AliasTable(word: string)
    ensures Alias("str") == "char*" && Alias("byte") == "uint8_t" && Alias("f32") == "float" && Alias("f64") == "double"
    ensures Alias("i8") == "int8_t" && Alias("i16") == "int16_t" && Alias("i32") == "int32_t" && Alias("i64") == "int64_t"
    ensures Alias("u8") == "uint8_t" && Alias("u16") == "uint16_t" && Alias("u32") == "uint32_t" && Alias("u64") == "uint64_t"
    ensures Alias("usize") == "size_t" && Alias("isize") == "ssize_t"
    ensures word !in ["str", "byte", "f32", "f64", "i8", "i16", "i32", "i64", "u8", "u16", "u32", "u64", "usize", "isize"] ==> Alias(word) == ""
  {
    if word !in ["str", "byte", "f32", "f64", "i8", "i16", "i32", "i64", "u8", "u16", "u32", "u64", "usize", "isize"] { NoAlias(word); }
    hide Alias;
    TextAliases();
    SignedAliases();
    UnsignedAliases();
    FloatAliases();
    SizeAliases();
  }

  lemma NoAlias(word: string)
    requires word !in ["str", "byte", "f32", "f64", "i8", "i16", "i32", "i64", "u8", "u16", "u32", "u64", "usize", "isize"]
    ensures Alias(word) == ""
  {
  }

  /** A type alias, null and loop become their C words. */
  lemma WordText(ts: seq<Token>, p: nat)
    requires Ended(ts) && p < |ts| && ts[p].kind == Word
    ensures ts[p].text == "null" ==> Chunk(ts, p) == Step(p + 1, "NULL")
    ensures ts[p].text == "loop" ==> Chunk(ts, p) == Step(p + 1, "while (1)")
    ensures Alias(ts[p].text) != "" && !IsKeyword(ts[p].text) && ts[p].text != "for" ==> Chunk(ts, p) == Step(p + 1, Alias(ts[p].text))
  {
    hide Alias, ForRange, Use, Function, Declaration;
  }

  lemma UseChunk(ts: seq<Token>, p: nat, q: nat)
    requires Ended(ts) && p < |ts| && IsWord(ts[p], "use") && SpacesTo(ts, p + 1, q)
    ensures ts[p].kind != Eof && Chunk(ts, p) == Use(ts, p) && SkipSpaces(ts, p + 1) == q
  {
    SkipTo(ts, p + 1, q);
    hide Alias, ForRange, Use, Function, Declaration;
  }

  /** use "HEADER" becomes an include of that text, and what is no header a comment. */
  lemma UseText(ts: seq<Token>, p: nat, q: nat)
    requires Ended(ts) && p < |ts| && IsWord(ts[p], "use") && SpacesTo(ts, p + 1, q)
    ensures ts[q].kind == Str ==> Chunk(ts, p) == Step(q + 1, "#include " + ts[q].text)
    ensures ts[q].kind != Str && !IsPunct(ts[q], '<') ==> Chunk(ts, p) == Step(q + 1, "/* use " + ts[q].text + " */")
  {
    UseChunk(ts, p, q);
    hide SkipSpaces, Angle, Chunk;
  }

  /** use <HEADER> becomes an include of the text up to the closing bracket or the line end. */
  lemma AngleUseText(ts: seq<Token>, p: nat, q: nat, e: nat)
    requires Ended(ts) && p < |ts| && IsWord(ts[p], "use") && SpacesTo(ts, p + 1, q) && ts[q].kind == Punct && IsPunct(ts[q], '<')
    requires q < e < |ts| && EndsHeader(ts[e]) && forall k :: q < k < e ==> !EndsHeader(ts[k])
    ensures Chunk(ts, p) == Step(e + 1, "#include " + ts[q].text + Concat(ts[q + 1..e + 1]))
  {
    hide *;
    assert ts[q].kind == Punct && IsPunct(ts[q], '<');
    UseChunk(ts, p, q);
    UseAngle(ts, p, q);
    AngleText(ts, q + 1, e);
  }

  lemma UseAngle(ts: seq<Token>, p: nat, q: nat)
    requires Ended(ts) && p < |ts| && ts[p].kind != Eof && SkipSpaces(ts, p + 1) == q < |ts|
    requires ts[q].kind != Str && IsPunct(ts[q], '<')
    ensures var a := Angle(ts, q + 1); Use(ts, p) == Step(a.pos, "#include " + ts[q].text + a.text)
  {
    hide Angle, SkipSpaces;
  }

  predicate EndsHeader(t: Token) { IsPunct(t, '>') || t.kind == Newline || t.kind == Eof }

  lemma {:induction false} AngleText(ts: seq<Token>, p: nat, e: nat)
    requires p <= e < |ts| && EndsHeader(ts[e]) && forall k :: p <= k < e ==> !EndsHeader(ts[k])
    ensures Angle(ts, p) == Step(e + 1, Concat(ts[p..e + 1]))
    decreases e - p
  {
    hide Concat;
    if p == e {
      ConcatOne(ts, p);
    } else {
      AngleText(ts, p + 1, e);
      ConcatCons(ts[p], ts[p + 1..e + 1]);
      assert ts[p..e + 1] == [ts[p]] + ts[p + 1..e + 1];
    }
  }

  /** What transpile puts before the translated body: two lines of banner, an empty one, and the include
      of s.h unless the test finds one. */
  lemma OutputText(src: string, filename: string)
    ensures Banner(filename) == "/* Generated by sc (S language compiler) v0.1.0 \U{2014} DO NOT EDIT */\n/* Source: " + filename + " */\n\n"
    ensures HasInclude(Tokens(src)) ==> Output(src, filename) == Banner(filename) + Body(src)
    ensures !HasInclude(Tokens(src)) ==> Output(src, filename) == Banner(filename) + "#include <s.h>\n" + Body(src)
  {
    hide HasInclude, Body;
    var a, b := "/* Generated by sc (S language compiler) v0.1.0 \U{2014} DO NOT EDIT */\n", "/* Source: ";
    assert a + (b + filename + " */\n\n") == (a + b) + filename + " */\n\n";
    assert a + b == "/* Generated by sc (S language compiler) v0.1.0 \U{2014} DO NOT EDIT */\n/* Source: ";
    assert Banner(filename) + "" == Banner(filename);
  }

  /** strstr: the text holds the part with something, or nothing, on either side. */
  lemma ContainsLaw(text: string, part: string)
    ensures Contains(text, part) <==> exists pre, post :: text == pre + part + post
  {
    if i :| 0 <= i <= |text| && OccursAt(text, part, i) {
      assert text == text[..i] + part + text[i + |part|..];
    }
    if pre, post :| text == pre + part + post {
      assert OccursAt(text, part, |pre|);
    }
  }
}
