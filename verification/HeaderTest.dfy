/** transpile adds #include <s.h> unless it believes the source already includes s.h. When the belief
    is right. */
module HeaderTest {
  import opened LexerModel
  import opened TranslatorModel
  import opened TranslatorProofs

  const ANGLE: string := "<s.h>"
  const QUOTED: string := "\"s.h\""

  // ------------------------------------------------- what really gets included

  /** The main loop, at p, comes to a round at i. */
  ghost predicate ReachedFrom(ts: seq<Token>, p: nat, i: nat)
    requires Ended(ts) && p <= |ts|
    decreases |ts| - p
  {
    p == i || (p < |ts| && ts[p].kind != Eof && ReachedFrom(ts, Chunk(ts, p).pos, i))
  }

  /** The use at i is emitted as an include of s.h. */
  ghost predicate Names(ts: seq<Token>, i: nat)
    requires Ended(ts) && i < |ts|
  {
    IsWord(ts[i], "use") && (Use(ts, i).text == "#include " + ANGLE || Use(ts, i).text == "#include " + QUOTED)
  }

  ghost predicate Includes(ts: seq<Token>)
    requires Ended(ts)
  {
    exists i :: 0 <= i < |ts| && ReachedFrom(ts, 0, i) && Names(ts, i)
  }

  /** A round reached puts its text into the body. */
  lemma {:induction false} RoundEmits(ts: seq<Token>, p: nat, i: nat) returns (pre: string, post: string)
    requires Ended(ts) && p <= |ts| && i < |ts| && ts[i].kind != Eof && ReachedFrom(ts, p, i)
    ensures Translate(ts, p) == pre + Chunk(ts, i).text + post
    decreases |ts| - p
  {
    hide Chunk;
    TranslateOnce(ts, p);
    var text, rest := Chunk(ts, p).text, Translate(ts, Chunk(ts, p).pos);
    if p == i {
      pre, post := "", rest;
      assert "" + text + rest == text + rest;
    } else {
      var q;
      q, post := RoundEmits(ts, Chunk(ts, p).pos, i);
      pre := text + q;
      Reassociate(text, q, Chunk(ts, i).text);
      Reassociate(text, q + Chunk(ts, i).text, post);
    }
  }

  // -------------------------------------------------------------- the two forms

  function Next(ts: seq<Token>, i: nat): nat
    requires i < |ts|
  {
    SkipSpaces(ts, i + 1)
  }

  /** use "s.h". */
  predicate StringForm(ts: seq<Token>, i: nat)
    requires i < |ts|
  {
    IsWord(ts[i], "use") && Look(ts, Next(ts, i)).kind == Str && Look(ts, Next(ts, i)).text == QUOTED
  }

  /** use <s.h>, in whatever tokens up to the bracket spell it. */
  predicate AngleForm(ts: seq<Token>, i: nat)
    requires i < |ts|
  {
    && IsWord(ts[i], "use") && Next(ts, i) < |ts| && IsPunct(ts[Next(ts, i)], '<')
    && ts[Next(ts, i)].text + Angle(ts, Next(ts, i) + 1).text == ANGLE
  }

  /** String tokens start with a quote. */
  predicate Quoted(t: Token) { t.kind == Str ==> t.text != "" && t.text[0] == '"' }

  /** A use is emitted as an include of s.h in exactly these two forms. */
  lemma NamesIs(ts: seq<Token>, i: nat)
    requires Ended(ts) && i < |ts| && forall k :: 0 <= k < |ts| ==> Quoted(ts[k])
    ensures Names(ts, i) <==> StringForm(ts, i) || AngleForm(ts, i)
  {
    if IsWord(ts[i], "use") {
      var q := Next(ts, i);
      var t := Look(ts, q);
      assert Quoted(t);
      if t.kind == Str {
        PrefixCancels("#include ", t.text, ANGLE);
        PrefixCancels("#include ", t.text, QUOTED);
      } else if IsPunct(t, '<') {
        var x := t.text + Angle(ts, q + 1).text;
        assert Use(ts, i).text == "#include " + x && x[0] == '<';
        PrefixCancels("#include ", x, ANGLE);
        PrefixCancels("#include ", x, QUOTED);
      } else {
        assert Use(ts, i).text[0] == '/';
        assert ("#include " + ANGLE)[0] == '#' && ("#include " + QUOTED)[0] == '#';
      }
    }
  }

  // --------------------------------------------------------------- the verdict

  ghost predicate StringIncluded(ts: seq<Token>)
    requires Ended(ts)
  {
    exists i :: 0 <= i < |ts| && ReachedFrom(ts, 0, i) && StringForm(ts, i)
  }

  ghost predicate AngleIncluded(ts: seq<Token>)
    requires Ended(ts)
  {
    exists i :: 0 <= i < |ts| && ReachedFrom(ts, 0, i) && AngleForm(ts, i)
  }

  /** A use whose next token mentions s.h without being a translated use "s.h". */
  ghost predicate Lookalike(ts: seq<Token>)
    requires Ended(ts)
  {
    exists i :: 0 <= i < |ts| && UsesHeader(ts, i) && !(ReachedFrom(ts, 0, i) && StringForm(ts, i))
  }

  lemma StringIsNoticed(ts: seq<Token>, i: nat)
    requires i < |ts| && StringForm(ts, i)
    ensures UsesHeader(ts, i)
  {
    assert OccursAt(QUOTED, "s.h", 1);
  }

  lemma {:induction false} LexQuoted(s: string, i: nat)
    requires i <= |s| && '\0' !in s
    ensures forall k :: 0 <= k < |Lex(s, i)| ==> Quoted(Lex(s, i)[k]) && (Lex(s, i)[k].kind == Punct ==> |Lex(s, i)[k].text| == 1)
    decreases |s| - i
  {
    hide Scan;
    if i < |s| {
      LexQuoted(s, Scan(s, i).1);
      TokenQuoted(s, i);
    }
  }

  lemma TokenQuoted(s: string, i: nat)
    requires i < |s| && '\0' !in s
    ensures Quoted(TokenAt(s, i)) && (TokenAt(s, i).kind == Punct ==> |TokenAt(s, i).text| == 1)
  {
    KindAt(s, i);
    assert TokenAt(s, i).text == s[i..Scan(s, i).1];
    StrStarts(s, i);
  }

  lemma StrStarts(s: string, i: nat)
    requires i < |s|
    ensures Scan(s, i).0 == Str ==> s[i] == '"'
  {
  }

  /** The test is right exactly when a use "s.h" is translated, or else when lookalikes and uses of
      <s.h> come together or not at all. It never notices a use of <s.h>. */
  lemma TestIsRight(s: string)
    requires '\0' !in s
    ensures Ended(Tokens(s))
    ensures (HasInclude(Tokens(s)) <==> Includes(Tokens(s))) <==>
              StringIncluded(Tokens(s)) || (Lookalike(Tokens(s)) <==> AngleIncluded(Tokens(s)))
    ensures forall i :: 0 <= i < |Tokens(s)| && AngleForm(Tokens(s), i) ==> !UsesHeader(Tokens(s), i)
  {
    var ts := Tokens(s);
    TokensEnd(s);
    LexQuoted(s, 0);
    assert Includes(ts) <==> StringIncluded(ts) || AngleIncluded(ts) by { IncludedIs(ts); }
    assert HasInclude(ts) <==> StringIncluded(ts) || Lookalike(ts) by { NoticedIs(ts); }
    forall i | 0 <= i < |ts| && AngleForm(ts, i) ensures !UsesHeader(ts, i) {
      assert |ts[Next(ts, i)].text| == 1;
    }
  }

  lemma IncludedIs(ts: seq<Token>)
    requires Ended(ts) && forall k :: 0 <= k < |ts| ==> Quoted(ts[k])
    ensures Includes(ts) <==> StringIncluded(ts) || AngleIncluded(ts)
  {
    forall i | 0 <= i < |ts| ensures Names(ts, i) <==> StringForm(ts, i) || AngleForm(ts, i) { NamesIs(ts, i); }
  }

  lemma NoticedIs(ts: seq<Token>)
    requires Ended(ts)
    ensures HasInclude(ts) <==> StringIncluded(ts) || Lookalike(ts)
  {
    forall i | 0 <= i < |ts| && StringForm(ts, i) ensures UsesHeader(ts, i) { StringIsNoticed(ts, i); }
  }

  // ------------------------------------------------- said of the source alone

  /** No use comes later on the line of token j. */
  predicate LoneUse(ts: seq<Token>, j: nat) {
    forall k :: j < k < |ts| && IsWord(ts[k], "use") ==> exists e :: j < e < k && EndsLine(ts[e])
  }

  /** Token j starts nothing that could swallow a later use: no fn, let, var or range-for, and no use
      but one that names a string or is the last on its line. */
  predicate Harmless(ts: seq<Token>, j: nat)
    requires j < |ts|
  {
    ts[j].kind == Word ==>
      && ts[j].text != "fn" && ts[j].text != "let" && ts[j].text != "var"
      && (ts[j].text == "for" ==> !IsRangeFor(ts, j))
      && (ts[j].text == "use" ==> Look(ts, Next(ts, j)).kind == Str || LoneUse(ts, j))
  }

  /** A header in angle brackets ends with its line. */
  lemma {:induction false} AngleStays(ts: seq<Token>, p: nat, e: nat)
    requires p <= e < |ts| && EndsLine(ts[e])
    ensures Angle(ts, p).pos <= e + 1
    decreases e - p
  {
    if p < e { AngleStays(ts, p + 1, e); }
  }

  lemma UseStays(ts: seq<Token>, j: nat, i: nat)
    requires Ended(ts) && j < i < |ts| && IsWord(ts[j], "use") && IsWord(ts[i], "use") && Harmless(ts, j)
    ensures Use(ts, j).pos <= i
  {
    hide Angle, SkipSpaces, Use, Ended, IsRangeFor;
    var q := Next(ts, j);
    SpacesSkipped(ts, j + 1);
    assert q <= i;
    UseEnds(ts, j);
    if ts[q].kind != Str {
      assert LoneUse(ts, j);
      var e :| j < e < i && EndsLine(ts[e]);
      assert q <= e;
      if IsPunct(ts[q], '<') { AngleStays(ts, q + 1, e); }
    }
  }

  lemma UseEnds(ts: seq<Token>, j: nat)
    requires Ended(ts) && j < |ts| && ts[j].kind != Eof
    ensures var q := Next(ts, j);
            q < |ts| && Use(ts, j).pos == if ts[q].kind != Str && IsPunct(ts[q], '<') then Angle(ts, q + 1).pos else q + 1
  {
    NextExists(ts, j);
    hide Angle, SkipSpaces;
  }

  /** Behind harmless tokens every use is reached. */
  lemma {:induction false} UseReached(ts: seq<Token>, p: nat, i: nat)
    requires Ended(ts) && p <= i < |ts| && IsWord(ts[i], "use") && forall j :: p <= j < i ==> Harmless(ts, j)
    ensures ReachedFrom(ts, p, i)
    decreases i - p
  {
    if p < i {
      HarmlessStays(ts, p, i);
      UseReached(ts, Chunk(ts, p).pos, i);
    }
  }

  lemma HarmlessStays(ts: seq<Token>, j: nat, i: nat)
    requires Ended(ts) && j < i < |ts| && IsWord(ts[i], "use") && Harmless(ts, j)
    ensures ts[j].kind != Eof && Chunk(ts, j).pos <= i
  {
    if IsWord(ts[j], "use") {
      UseStays(ts, j, i);
    } else {
      ForRangeIs(ts, j);
    }
  }

  /** On a source of harmless tokens the test is right exactly when "s.h" is used as a string, or else
      when other strings or words that mention s.h and uses of <s.h> come together or not at all. */
  lemma HarmlessTest(s: string)
    requires '\0' !in s && forall j :: 0 <= j < |Tokens(s)| ==> Harmless(Tokens(s), j)
    ensures var ts := Tokens(s);
            && Ended(ts)
            && ((HasInclude(ts) <==> Includes(ts)) <==>
                || (exists i :: 0 <= i < |ts| && StringForm(ts, i))
                || ((exists i :: 0 <= i < |ts| && UsesHeader(ts, i) && !StringForm(ts, i)) <==>
                    (exists i :: 0 <= i < |ts| && AngleForm(ts, i))))
  {
    hide HasInclude, Includes, UsesHeader, StringForm, AngleForm, Harmless;
    var ts := Tokens(s);
    TestIsRight(s);
    forall i | 0 <= i < |ts| && IsWord(ts[i], "use") ensures ReachedFrom(ts, 0, i) { UseReached(ts, 0, i); }
    forall i | 0 <= i < |ts| ensures (StringForm(ts, i) || AngleForm(ts, i) || UsesHeader(ts, i)) ==> ReachedFrom(ts, 0, i) {
      if StringForm(ts, i) || AngleForm(ts, i) || UsesHeader(ts, i) { FormsAreUses(ts, i); }
    }
  }

  lemma FormsAreUses(ts: seq<Token>, i: nat)
    requires i < |ts| && (StringForm(ts, i) || AngleForm(ts, i) || UsesHeader(ts, i))
    ensures IsWord(ts[i], "use")
  {
  }

  // ---------------------------------------------------- two sources it gets wrong

  /** A token by kind and text; positions do not matter to the translator. */
  datatype Piece = Piece(kind: Kind, text: string)

  ghost predicate Reads(ts: seq<Token>, us: seq<Piece>) {
    |ts| == |us| && forall k :: 0 <= k < |ts| ==> ts[k].kind == us[k].kind && ts[k].text == us[k].text
  }

  /** Piece u lies at i in s and is what the scan finds there. */
  ghost predicate Lies(s: string, i: nat, u: Piece, e: nat) {
    i < e <= |s| && Scan(s, i) == (u.kind, e) && s[i..e] == u.text
  }

  lemma NothingLeft(s: string)
    ensures Reads(Lex(s, |s|), [])
  {
  }

  lemma OnePiece(s: string, i: nat, u: Piece, e: nat, rest: seq<Piece>)
    requires '\0' !in s && Lies(s, i, u, e) && Reads(Lex(s, e), rest)
    ensures Reads(Lex(s, i), [u] + rest)
  {
    hide Scan, LineAt, ColAt, CString;
    assert CString(s[i..e]) == u.text;
    assert Lex(s, i) == [TokenAt(s, i)] + Lex(s, e);
  }

  lemma {:induction false} LexesAs(s: string, us: seq<Piece>, at: seq<nat>, k: nat)
    requires '\0' !in s && |at| == |us| + 1 && k <= |us| && at[|us|] == |s|
    requires forall j :: 0 <= j < |us| ==> Lies(s, at[j], us[j], at[j + 1])
    ensures at[k] <= |s| && Reads(Lex(s, at[k]), us[k..])
    decreases |us| - k
  {
    hide Reads, Scan, TokenAt, LineAt, ColAt, CString;
    if k < |us| {
      assert Lies(s, at[k], us[k], at[k + 1]);
      LexesAs(s, us, at, k + 1);
      OnePiece(s, at[k], us[k], at[k + 1], us[k + 1..]);
      assert us[k..] == [us[k]] + us[k + 1..];
    } else {
      assert us[k..] == [];
      assert Reads(Lex(s, |s|), []) by { NothingLeft(s); }
    }
  }

  lemma RunIs(s: string, k: Class, i: nat, e: nat)
    requires i <= e <= |s| && (forall j :: i <= j < e ==> In(s[j], k)) && (e < |s| ==> !In(s[e], k))
    ensures Run(s, k, i) == e
  {
  }

  const MISSED: string := "use <s.h>"

  lemma MissedFirst()
    ensures Lies(MISSED, 0, Piece(Word, "use"), 3) && Lies(MISSED, 3, Piece(Space, " "), 4) && Lies(MISSED, 4, Piece(Punct, "<"), 5)
  {
    RunIs(MISSED, WordChars, 0, 3);
    RunIs(MISSED, Blanks, 3, 4);
  }

  lemma MissedRest()
    ensures Lies(MISSED, 5, Piece(Word, "s"), 6) && Lies(MISSED, 6, Piece(Punct, "."), 7)
    ensures Lies(MISSED, 7, Piece(Word, "h"), 8) && Lies(MISSED, 8, Piece(Punct, ">"), 9)
  {
    RunIs(MISSED, WordChars, 5, 6);
    RunIs(MISSED, WordChars, 7, 8);
  }

  lemma MissedLex()
    ensures Reads(Lex(MISSED, 0), [Piece(Word, "use"), Piece(Space, " "), Piece(Punct, "<"), Piece(Word, "s"), Piece(Punct, "."), Piece(Word, "h"), Piece(Punct, ">")])
  {
    hide Lies;
    var us := [Piece(Word, "use"), Piece(Space, " "), Piece(Punct, "<"), Piece(Word, "s"), Piece(Punct, "."), Piece(Word, "h"), Piece(Punct, ">")];
    MissedFirst();
    MissedRest();
    LexesAs(MISSED, us, [0, 3, 4, 5, 6, 7, 8, 9], 0);
    assert us[0..] == us;
  }

  lemma TooShort(text: string)
    requires |text| < 3
    ensures !Contains(text, "s.h")
  {
  }

  lemma AngleSpells(ts: seq<Token>)
    requires |ts| == 8 && ts[3].kind == Word && ts[3].text == "s" && ts[4].kind == Punct && ts[4].text == "."
    requires ts[5].kind == Word && ts[5].text == "h" && ts[6].kind == Punct && ts[6].text == ">"
    ensures Angle(ts, 3).text == "s.h>"
  {
    assert Angle(ts, 6).text == ">";
    assert Angle(ts, 5).text == "h" + ">";
    assert Angle(ts, 4).text == "." + ("h" + ">");
    assert Angle(ts, 3).text == "s" + ("." + ("h" + ">"));
  }

  lemma MissedTokens(ts: seq<Token>)
    requires Ended(ts) && |ts| == 8 && IsWord(ts[0], "use") && ts[1].kind == Space && ts[2].kind == Punct && ts[2].text == "<"
    requires Angle(ts, 3).text == "s.h>" && forall i :: 1 <= i < 8 ==> !IsWord(ts[i], "use")
    ensures AngleForm(ts, 0) && !HasInclude(ts)
  {
    hide Angle, Contains;
    assert SkipSpaces(ts, 2) == 2;
    assert SkipSpaces(ts, 1) == 2;
    assert "<" + "s.h>" == ANGLE;
    TooShort(ts[2].text);
    assert !UsesHeader(ts, 0);
  }

  lemma MissedRead()
    ensures var ts := Tokens(MISSED);
            && |ts| == 8 && IsWord(ts[0], "use") && ts[1].kind == Space && ts[2].kind == Punct && ts[2].text == "<"
            && ts[3].kind == Word && ts[3].text == "s" && ts[4].kind == Punct && ts[4].text == "."
            && ts[5].kind == Word && ts[5].text == "h" && ts[6].kind == Punct && ts[6].text == ">" && ts[7].kind == Eof
  {
    hide Lex;
    MissedLex();
    assert forall k :: 0 <= k < 7 ==> Tokens(MISSED)[k] == Lex(MISSED, 0)[k];
  }

  /** use <s.h> is emitted as the include, and the include is added all the same. */
  lemma AngleFormMissed()
    ensures Ended(Tokens(MISSED)) && Includes(Tokens(MISSED)) && !HasInclude(Tokens(MISSED))
  {
    hide Lex, Angle, Contains, HasInclude, Use, Chunk, AngleForm, Names;
    var ts := Tokens(MISSED);
    TokensEnd(MISSED);
    MissedRead();
    AngleSpells(ts);
    MissedTokens(ts);
    LexQuoted(MISSED, 0);
    NamesIs(ts, 0);
    assert ReachedFrom(ts, 0, 0);
  }

  const MISTAKEN: string := "use \"utils.h\""

  lemma MistakenPieces()
    ensures Lies(MISTAKEN, 0, Piece(Word, "use"), 3) && Lies(MISTAKEN, 3, Piece(Space, " "), 4)
  {
    RunIs(MISTAKEN, WordChars, 0, 3);
    RunIs(MISTAKEN, Blanks, 3, 4);
  }

  lemma MistakenQuote()
    ensures Lies(MISTAKEN, 4, Piece(Str, "\"utils.h\""), 13)
  {
    QuoteIs(MISTAKEN, 5, 12);
  }

  lemma MistakenLex()
    ensures Reads(Lex(MISTAKEN, 0), [Piece(Word, "use"), Piece(Space, " "), Piece(Str, "\"utils.h\"")])
  {
    hide Lies;
    var us := [Piece(Word, "use"), Piece(Space, " "), Piece(Str, "\"utils.h\"")];
    MistakenPieces();
    MistakenQuote();
    LexesAs(MISTAKEN, us, [0, 3, 4, 13], 0);
    assert us[0..] == us;
  }

  lemma {:induction false} QuoteIs(s: string, i: nat, e: nat)
    requires i <= e < |s| && s[e] == '"' && forall j :: i <= j < e ==> s[j] != '"' && s[j] != '\\'
    ensures QuoteEnd(s, i, '"') == e + 1
    decreases e - i
  {
    if i < e { QuoteIs(s, i + 1, e); }
  }

  lemma MistakenTokens(ts: seq<Token>)
    requires Ended(ts) && |ts| == 4 && IsWord(ts[0], "use") && ts[1].kind == Space && ts[2].kind == Str && ts[2].text == "\"utils.h\""
    ensures UsesHeader(ts, 0) && forall i :: 0 <= i < 4 ==> !StringForm(ts, i) && !AngleForm(ts, i)
  {
    hide Angle;
    assert SkipSpaces(ts, 2) == 2;
    assert SkipSpaces(ts, 1) == 2;
    assert OccursAt(ts[2].text, "s.h", 5);
    assert "\"utils.h\""[1] != QUOTED[1];
  }

  /** use "utils.h" mentions s.h, so the include is left out although nothing includes s.h. */
  lemma UtilsMistaken()
    ensures Ended(Tokens(MISTAKEN)) && !Includes(Tokens(MISTAKEN)) && HasInclude(Tokens(MISTAKEN))
  {
    hide Lex, Angle, Contains, Use, Chunk;
    var ts := Tokens(MISTAKEN);
    TokensEnd(MISTAKEN);
    MistakenLex();
    assert |ts| == 4;
    assert forall k :: 0 <= k < 3 ==> ts[k] == Lex(MISTAKEN, 0)[k];
    MistakenTokens(ts);
    LexQuoted(MISTAKEN, 0);
    IncludedIs(ts);
  }
}
