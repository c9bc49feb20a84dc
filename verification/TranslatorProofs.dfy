/** What the translation pass keeps and what it changes. */
module TranslatorProofs {
  import opened LexerModel
  import opened TranslatorModel

  // --------------------------------------------------------- the range-for test

  /** A range operator comes before the line ends. */
  predicate OperatorAhead(ts: seq<Token>, p: nat) {
    exists j :: p <= j < |ts| && (ts[j].kind == DotDot || ts[j].kind == DotDotEq)
                && forall k :: p <= k < j ==> ts[k].kind != Newline && ts[k].kind != Eof
  }

  lemma {:induction false} RangeStartIs(ts: seq<Token>, p: nat)
    requires p <= |ts|
    ensures RangeStart(ts, p).found <==> OperatorAhead(ts, p)
    decreases |ts| - p
  {
    if p < |ts| {
      RangeStartIs(ts, p + 1);
      if ts[p].kind == DotDotEq || ts[p].kind == DotDot {
        assert OperatorAhead(ts, p);
      } else if ts[p].kind != Newline && ts[p].kind != Eof && OperatorAhead(ts, p + 1) {
        var j :| p + 1 <= j < |ts| && (ts[j].kind == DotDot || ts[j].kind == DotDotEq)
                 && forall k :: p + 1 <= k < j ==> ts[k].kind != Newline && ts[k].kind != Eof;
        assert OperatorAhead(ts, p);
      }
    }
  }

  /** for, a word, in, and a range operator on the same line. */
  predicate IsRangeFor(ts: seq<Token>, p: nat)
    requires p < |ts|
  {
    var h := ForHead(ts, p);
    h.Head? && OperatorAhead(ts, h.start)
  }

  lemma ForRangeIs(ts: seq<Token>, p: nat)
    requires p < |ts|
    ensures ForRange(ts, p).Range? <==> IsRangeFor(ts, p)
  {
    var h := ForHead(ts, p);
    if h.Head? { RangeStartIs(ts, h.start); }
  }

  // ---------------------------------------------------------------- identity

  predicate IsKeyword(word: string) {
    word == "use" || word == "fn" || word == "let" || word == "var" || word == "null" || word == "loop"
  }

  /** Token p is plain C: no S keyword, no type alias, not the head of a range-for. */
  predicate Plain(ts: seq<Token>, p: nat)
    requires p < |ts|
  {
    ts[p].kind == Word ==>
      !IsKeyword(ts[p].text) && Alias(ts[p].text) == "" && (ts[p].text == "for" ==> !IsRangeFor(ts, p))
  }

  predicate PlainFrom(ts: seq<Token>, p: nat) {
    forall i :: p <= i < |ts| ==> Plain(ts, i)
  }

  lemma PlainPasses(ts: seq<Token>, p: nat)
    requires p < |ts| && Ended(ts) && ts[p].kind != Eof && Plain(ts, p)
    ensures Chunk(ts, p) == Step(p + 1, ts[p].text)
  {
    ForRangeIs(ts, p);
  }

  lemma TranslateOnce(ts: seq<Token>, p: nat)
    requires p < |ts| && Ended(ts) && ts[p].kind != Eof
    ensures Translate(ts, p) == Chunk(ts, p).text + Translate(ts, Chunk(ts, p).pos)
  {
  }

  lemma PlainStep(ts: seq<Token>, p: nat)
    requires p < |ts| && Ended(ts) && ts[p].kind != Eof && Plain(ts, p)
    ensures Translate(ts, p) == ts[p].text + Translate(ts, p + 1)
  {
    PlainPasses(ts, p);
  }

  lemma ConcatAt(ts: seq<Token>, p: nat)
    requires p < |ts|
    ensures Concat(ts[p..]) == ts[p].text + Concat(ts[p + 1..])
  {
    assert ts[p..][1..] == ts[p + 1..];
  }

  lemma Reassociate(a: string, b: string, c: string)
    ensures a + (b + c) == a + b + c
  {
  }

  /** Plain tokens up to q come out as they went in. */
  lemma {:induction false} PlainPrefix(ts: seq<Token>, p: nat, q: nat)
    requires p <= q < |ts| && Ended(ts) && forall i :: p <= i < q ==> Plain(ts, i)
    ensures Translate(ts, p) == Concat(ts[p..q]) + Translate(ts, q)
    decreases q - p
  {
    hide Chunk, Plain, Concat;
    if p == q {
      assert ts[p..q] == [];
      ConcatNothing();
    } else {
      PlainStep(ts, p);
      PlainPrefix(ts, p + 1, q);
      ConcatCons(ts[p], ts[p + 1..q]);
      assert ts[p..q] == [ts[p]] + ts[p + 1..q];
      Reassociate(ts[p].text, Concat(ts[p + 1..q]), Translate(ts, q));
    }
  }

  lemma KindAt(s: string, i: nat)
    requires i < |s|
    ensures TokenAt(s, i).kind != Eof && (TokenAt(s, i).kind == Punct ==> Scan(s, i).1 == i + 1)
  {
  }

  lemma {:induction false} LexNotEof(s: string, i: nat)
    requires i <= |s|
    ensures forall k :: 0 <= k < |Lex(s, i)| ==> Lex(s, i)[k].kind != Eof
    decreases |s| - i
  {
    hide Scan;
    if i < |s| {
      KindAt(s, i);
      LexNotEof(s, Scan(s, i).1);
    }
  }

  lemma TokensEnd(s: string)
    ensures Ended(Tokens(s)) && Tokens(s)[|Tokens(s)| - 1].text == ""
  {
    LexNotEof(s, 0);
  }

  /** The body transpile emits for a source. */
  ghost function Body(s: string): string {
    TokensEnd(s);
    Translate(Tokens(s), 0)
  }

  /** Translating plain tokens gives back the source. */
  lemma PlainIsIdentity(s: string)
    requires '\0' !in s && PlainFrom(Tokens(s), 0)
    ensures Body(s) == s
  {
    var ts := Tokens(s);
    TokensEnd(s);
    var n := |ts| - 1;
    PlainPrefix(ts, 0, n);
    Lossless(s);
    ConcatAppend(ts[..n], ts[n..]);
    assert ts == ts[..n] + ts[n..] && ts[0..n] == ts[..n];
    ConcatAt(ts, n);
    assert ts[n + 1..] == [];
  }

  // ------------------------------------------------- nothing else is identity

  /** The texts part ways within both. */
  predicate Differ(a: string, b: string) {
    exists k :: 0 <= k < |a| && k < |b| && a[k] != b[k]
  }

  lemma DifferStays(pre: string, a: string, x: string, b: string)
    requires Differ(a, b)
    ensures pre + (a + x) != pre + b
  {
    var k :| 0 <= k < |a| && k < |b| && a[k] != b[k];
    assert (pre + (a + x))[|pre| + k] == a[k] && (pre + b)[|pre| + k] == b[k];
  }

  lemma DifferAt(a: string, b: string, k: nat)
    requires k < |a| && k < |b| && a[k] != b[k]
    ensures Differ(a, b)
  {
  }

  /** Words start like words, spaces are blanks, and nothing else starts with one. */
  predicate Shaped(t: Token) {
    && (t.kind == Word ==> t.text != "" && IsWordStart(t.text[0]))
    && (t.kind != Space && t.kind != Eof ==> t.text != "" && !IsBlank(t.text[0]))
    && (t.kind == Space ==> t.text != "" && forall i :: 0 <= i < |t.text| ==> IsBlank(t.text[i]))
  }

  lemma ScanShaped(s: string, i: nat)
    requires i < |s| && '\0' !in s
    ensures Shaped(TokenAt(s, i))
  {
    var e := Scan(s, i).1;
    assert CString(s[i..e]) == s[i..e];
  }

  lemma {:induction false} LexShaped(s: string, i: nat)
    requires i <= |s| && '\0' !in s
    ensures forall k :: 0 <= k < |Lex(s, i)| ==> Shaped(Lex(s, i)[k])
    decreases |s| - i
  {
    hide Scan;
    if i < |s| {
      ScanShaped(s, i);
      LexShaped(s, Scan(s, i).1);
    }
  }

  lemma AliasDiffers(word: string)
    requires Alias(word) != ""
    ensures |word| >= 2 && |Alias(word)| >= 2 && (Alias(word)[0] != word[0] || Alias(word)[1] != word[1])
  {
  }

  /** The first character of what follows p is that of token p. */
  lemma FirstOf(ts: seq<Token>, p: nat)
    requires p < |ts| && ts[p].text != ""
    ensures Concat(ts[p..]) != "" && Concat(ts[p..])[0] == ts[p].text[0]
    ensures |ts[p].text| > 1 ==> |Concat(ts[p..])| > 1 && Concat(ts[p..])[1] == ts[p].text[1]
    ensures |ts[p].text| == 1 ==> Concat(ts[p..]) == [ts[p].text[0]] + Concat(ts[p + 1..])
  {
    ConcatAt(ts, p);
  }

  lemma {:induction false} SpacesSkipped(ts: seq<Token>, p: nat)
    requires p <= |ts|
    ensures forall i :: p <= i < SkipSpaces(ts, p) ==> ts[i].kind == Space
    ensures SkipSpaces(ts, p) < |ts| ==> ts[SkipSpaces(ts, p)].kind != Space
    decreases |ts| - p
  {
    if p < |ts| && ts[p].kind == Space { SpacesSkipped(ts, p + 1); }
  }

  /** After the word for, a range-for has no " (". */
  lemma ForTail(ts: seq<Token>, p: nat)
    requires p < |ts| && IsRangeFor(ts, p) && forall i :: 0 <= i < |ts| ==> Shaped(ts[i])
    ensures p + 1 < |ts| && Differ(" (", Concat(ts[p + 1..]))
  {
    hide Concat, OperatorAhead;
    var q := SkipSpaces(ts, p + 1);
    var tail := Concat(ts[p + 1..]);
    SpacesSkipped(ts, p + 1);
    assert q < |ts| && Shaped(ts[p + 1]);
    FirstOf(ts, p + 1);
    if tail[0] != ' ' {
      DifferAt(" (", tail, 0);
    } else {
      assert q > p + 1;
      assert Shaped(ts[p + 2]);
      FirstOf(ts, p + 2);
      assert tail[1] != '(';
      DifferAt(" (", tail, 1);
    }
  }

  /** What a range-for becomes starts with "for (". */
  lemma ForTextStarts(v: string, start: string, inclusive: bool, end: string)
    ensures var text := ForText(v, start, inclusive, end); |text| >= 5 && text[3] == ' ' && text[4] == '('
  {
    var tail := v + " = " + start + "; " + v + (if inclusive then " <= " else " < ") + end + "; " + v + "++)";
    assert ForText(v, start, inclusive, end) == "for (int " + tail;
  }

  lemma ForDiffers(ts: seq<Token>, p: nat)
    requires p < |ts| && Ended(ts) && IsRangeFor(ts, p) && IsWord(ts[p], "for") && forall i :: 0 <= i < |ts| ==> Shaped(ts[i])
    ensures Differ(Chunk(ts, p).text, Concat(ts[p..]))
  {
    hide Chunk, ForRange, ForHead, ForText, Concat;
    ForRangeIs(ts, p);
    ForIsRange(ts, p);
    var r := ForRange(ts, p);
    ForTextStarts(r.v, r.start, r.inclusive, r.end);
    var text, tail := Chunk(ts, p).text, Concat(ts[p + 1..]);
    ForTail(ts, p);
    ConcatAt(ts, p);
    var k :| 0 <= k < 2 && k < |tail| && " ("[k] != tail[k];
    DifferAt(text, "for" + tail, 3 + k);
  }

  // ------------------------------------------------------- a fn that survives

  /** A fn without a name behind one blank, at the end of the source for instance. */
  ghost predicate OddFn(ts: seq<Token>, p: nat)
    requires p < |ts|
  {
    var q := SkipSpaces(ts, p + 1);
    IsWord(ts[p], "fn") && q < |ts| && ts[q].kind != Word && Concat(ts[p + 1..q]) == " "
  }

  /** A fn with a parameter list and an arrow. */
  predicate Arrowed(ts: seq<Token>, p: nat)
    requires p < |ts|
  {
    var q := SkipSpaces(ts, p + 1);
    && IsWord(ts[p], "fn") && Look(ts, q).kind == Word
    && var open := SkipSpaces(ts, q + 1);
       && IsPunct(Look(ts, open), '(')
       && Look(ts, SkipSpaces(ts, Params(ts, open + 1, 1).pos)).kind == Arrow
  }

  ghost predicate Kept(ts: seq<Token>, p: nat)
    requires p < |ts|
  {
    Plain(ts, p) || OddFn(ts, p)
  }

  lemma NextExists(ts: seq<Token>, p: nat)
    requires p < |ts| && Ended(ts) && ts[p].kind != Eof
    ensures SkipSpaces(ts, p + 1) < |ts|
  {
  }

  lemma FnCovers(ts: seq<Token>, p: nat, q: nat)
    requires p < q < |ts| && Concat(ts[p + 1..q]) == " " && ts[p].text == "fn"
    ensures Concat(ts[p..q + 1]) == "fn " + ts[q].text
  {
    assert ts[p..q + 1] == [ts[p]] + (ts[p + 1..q] + [ts[q]]);
    ConcatCons(ts[p], ts[p + 1..q] + [ts[q]]);
    ConcatAppend(ts[p + 1..q], [ts[q]]);
    ConcatCons(ts[q], []);
    assert [ts[q]] + [] == [ts[q]];
  }

  lemma OddFnPasses(ts: seq<Token>, p: nat)
    requires p < |ts| && Ended(ts) && ts[p].kind != Eof && OddFn(ts, p)
    ensures var q := SkipSpaces(ts, p + 1); Chunk(ts, p) == Step(q + 1, Concat(ts[p..q + 1]))
  {
    hide Chunk, Concat, SkipSpaces;
    FnCovers(ts, p, SkipSpaces(ts, p + 1));
    NamelessChunk(ts, p);
  }

  lemma NamelessChunk(ts: seq<Token>, p: nat)
    requires p < |ts| && Ended(ts) && ts[p].kind != Eof && IsWord(ts[p], "fn") && Look(ts, SkipSpaces(ts, p + 1)).kind != Word
    ensures var q := SkipSpaces(ts, p + 1); q < |ts| && Chunk(ts, p) == Step(q + 1, "fn " + ts[q].text)
  {
    NextExists(ts, p);
    hide SkipSpaces;
    FnChunk(ts, p);
  }

  /** Tokens that are kept come out as they went in, up to the end or to the next word. */
  lemma {:induction false} KeptPrefix(ts: seq<Token>, p: nat, q: nat)
    requires p <= q < |ts| && Ended(ts) && ts[|ts| - 1].text == "" && forall i :: p <= i < q ==> Kept(ts, i)
    requires q == |ts| - 1 || ts[q].kind == Word
    ensures Translate(ts, p) == Concat(ts[p..q]) + Translate(ts, q)
    decreases q - p
  {
    hide Chunk, Concat, OddFn, Plain;
    if p == q {
      assert ts[p..q] == [] && Concat([]) == "" by { ConcatNothing(); }
    } else {
      assert Kept(ts, p);
      var e := if Plain(ts, p) then p + 1 else SkipSpaces(ts, p + 1) + 1;
      if Plain(ts, p) { PlainPasses(ts, p); ConcatOne(ts, p); } else { OddFnPasses(ts, p); }
      TranslateOnce(ts, p);
      if e <= q {
        KeptPrefix(ts, e, q);
        ConcatAppend(ts[p..e], ts[e..q]);
        assert ts[p..q] == ts[p..e] + ts[e..q];
        Reassociate(Concat(ts[p..e]), Concat(ts[e..q]), Translate(ts, q));
      } else {
        FnAtEnd(ts, p, q);
      }
    }
  }

  lemma ConcatNothing()
    ensures Concat([]) == ""
  {
  }

  lemma ConcatOne(ts: seq<Token>, p: nat)
    requires p < |ts|
    ensures Concat(ts[p..p + 1]) == ts[p].text
  {
    assert ts[p..p + 1] == [ts[p]] + [];
    ConcatCons(ts[p], []);
  }

  /** A kept fn reaches past q only when both end at the end mark. */
  lemma FnAtEnd(ts: seq<Token>, p: nat, q: nat)
    requires p < q < |ts| && Ended(ts) && ts[|ts| - 1].text == "" && OddFn(ts, p) && q <= SkipSpaces(ts, p + 1)
    requires q == |ts| - 1 || ts[q].kind == Word
    ensures q == SkipSpaces(ts, p + 1) == |ts| - 1
    ensures Concat(ts[p..q + 1]) + Translate(ts, q + 1) == Concat(ts[p..q]) + Translate(ts, q)
  {
    SpacesSkipped(ts, p + 1);
    assert q == SkipSpaces(ts, p + 1) == |ts| - 1;
    NothingBehind(ts);
    assert Translate(ts, q) == "";
    hide Concat, Translate;
    SplitLast(ts, p, q);
    ConcatAppend(ts[p..q], [ts[q]]);
    SplitLast(ts, q, q);
    ConcatOne(ts, q);
  }

  lemma SplitLast(ts: seq<Token>, p: nat, q: nat)
    requires p <= q < |ts|
    ensures ts[p..q + 1] == ts[p..q] + [ts[q]]
  {
  }

  /** A token that is not kept, and neither var nor an arrowed fn, comes out changed for good: what it
      and the tokens behind it become is not what they were. */
  lemma ChunkDiffers(ts: seq<Token>, p: nat)
    requires p < |ts| && Ended(ts) && ts[p].kind != Eof && ts[|ts| - 1].text == "" && forall i :: 0 <= i < |ts| ==> Shaped(ts[i])
    requires !Kept(ts, p) && !IsWord(ts[p], "var") && !Arrowed(ts, p)
    ensures Translate(ts, p) != Concat(ts[p..])
  {
    hide Chunk, OddFn;
    TranslateOnce(ts, p);
    if IsWord(ts[p], "fn") {
      FnDiffers(ts, p);
    } else {
      WordDiffers(ts, p);
      DifferStays("", Chunk(ts, p).text, Translate(ts, Chunk(ts, p).pos), Concat(ts[p..]));
      Alone(Chunk(ts, p).text + Translate(ts, Chunk(ts, p).pos));
      Alone(Concat(ts[p..]));
    }
  }

  lemma Alone(x: string)
    ensures "" + x == x
  {
  }

  lemma WordDiffers(ts: seq<Token>, p: nat)
    requires p < |ts| && Ended(ts) && ts[p].kind != Eof && forall i :: 0 <= i < |ts| ==> Shaped(ts[i])
    requires !Plain(ts, p) && !IsWord(ts[p], "fn") && !IsWord(ts[p], "var")
    ensures Differ(Chunk(ts, p).text, Concat(ts[p..]))
  {
    hide Concat, ForRange, IsRangeFor;
    var t := ts[p];
    var text, all := Chunk(ts, p).text, Concat(ts[p..]);
    FirstOf(ts, p);
    if t.text == "for" {
      ForDiffers(ts, p);
    } else if IsKeyword(t.text) {
      DifferAt(text, all, 0);
    } else {
      AliasDiffers(t.text);
      DifferAt(text, all, if text[0] != all[0] then 0 else 1);
    }
  }

  lemma FnDiffers(ts: seq<Token>, p: nat)
    requires p < |ts| && Ended(ts) && ts[|ts| - 1].text == "" && IsWord(ts[p], "fn") && forall i :: 0 <= i < |ts| ==> Shaped(ts[i])
    requires !OddFn(ts, p) && !Arrowed(ts, p)
    ensures Chunk(ts, p).text + Translate(ts, Chunk(ts, p).pos) != Concat(ts[p..])
  {
    NextExists(ts, p);
    var q := SkipSpaces(ts, p + 1);
    if ts[q].kind == Word {
      FnNamed(ts, p);
    } else {
      FnNameless(ts, p);
    }
  }

  /** A name turns fn into a type. */
  lemma FnNamed(ts: seq<Token>, p: nat)
    requires p < |ts| && Ended(ts) && IsWord(ts[p], "fn") && Look(ts, SkipSpaces(ts, p + 1)).kind == Word && !Arrowed(ts, p)
    ensures Chunk(ts, p).text + Translate(ts, Chunk(ts, p).pos) != Concat(ts[p..])
  {
    hide Chunk, Translate, Concat, Function, Arrowed;
    FirstOf(ts, p);
    VoidFirst(ts, p);
    assert Chunk(ts, p) == Function(ts, p) by { FnChunk(ts, p); }
    assert (Chunk(ts, p).text + Translate(ts, Chunk(ts, p).pos))[0] == 'v';
  }

  lemma FnChunk(ts: seq<Token>, p: nat)
    requires p < |ts| && Ended(ts) && IsWord(ts[p], "fn")
    ensures Chunk(ts, p) == Function(ts, p)
  {
  }

  lemma VoidFirst(ts: seq<Token>, p: nat)
    requires p < |ts| && Look(ts, SkipSpaces(ts, p + 1)).kind == Word && IsWord(ts[p], "fn") && !Arrowed(ts, p)
    ensures Function(ts, p).text != "" && Function(ts, p).text[0] == 'v'
  {
    hide Params, SkipSpaces, ReturnType, TrimBlanks;
    var q := SkipSpaces(ts, p + 1);
    var name, open := ts[q].text, SkipSpaces(ts, q + 1);
    if !IsPunct(Look(ts, open), '(') {
      assert Function(ts, p).text == "void " + name;
    } else {
      assert Function(ts, p) == Signature(ts, open, name);
      assert Signature(ts, open, name).text == "void" + " " + name + ("(" + Params(ts, open + 1, 1).text);
    }
  }

  lemma FnNameless(ts: seq<Token>, p: nat)
    requires p < |ts| && Ended(ts) && ts[|ts| - 1].text == "" && IsWord(ts[p], "fn") && forall i :: 0 <= i < |ts| ==> Shaped(ts[i])
    requires Look(ts, SkipSpaces(ts, p + 1)).kind != Word && !OddFn(ts, p)
    ensures Chunk(ts, p).text + Translate(ts, Chunk(ts, p).pos) != Concat(ts[p..])
  {
    hide Chunk, Concat, Translate, SkipSpaces;
    NextExists(ts, p);
    var q := SkipSpaces(ts, p + 1);
    SpacesSkipped(ts, p + 1);
    AllBlank(ts, p + 1, q);
    NamelessChunk(ts, p);
    FnSource(ts, p, q);
    if q == |ts| - 1 { NothingBehind(ts); }
    assert Shaped(ts[q]);
    BlanksDiffer(Concat(ts[p + 1..q]), ts[q], Translate(ts, q + 1), Concat(ts[q + 1..]), q == |ts| - 1);
  }

  lemma FnSource(ts: seq<Token>, p: nat, q: nat)
    requires p < q < |ts| && ts[p].text == "fn"
    ensures Concat(ts[p..]) == "fn" + (Concat(ts[p + 1..q]) + (ts[q].text + Concat(ts[q + 1..])))
  {
    hide Concat;
    ConcatAt(ts, p);
    ConcatAppend(ts[p + 1..q], ts[q..]);
    assert ts[p + 1..] == ts[p + 1..q] + ts[q..];
    ConcatAt(ts, q);
  }

  lemma NothingBehind(ts: seq<Token>)
    requires Ended(ts)
    ensures Translate(ts, |ts|) == "" && Concat(ts[|ts|..]) == ""
  {
  }

  /** "fn " against fn with other blanks behind it. */
  lemma BlanksDiffer(blanks: string, t: Token, x: string, y: string, last: bool)
    requires blanks != " " && (forall i :: 0 <= i < |blanks| ==> IsBlank(blanks[i]))
    requires if last then t.text == "" && x == y == "" else t.text != "" && !IsBlank(t.text[0])
    ensures "fn " + t.text + x != "fn" + (blanks + (t.text + y))
  {
    var a, b := "fn " + t.text + x, "fn" + (blanks + (t.text + y));
    if last {
      assert |a| == 3 && |b| == 2 + |blanks|;
      assert |blanks| == 1 ==> b[2] == blanks[0] && a[2] == ' ' && blanks == [blanks[0]];
    } else if |blanks| == 0 {
      assert b[2] == t.text[0] && a[2] == ' ';
    } else if blanks[0] != ' ' {
      assert b[2] == blanks[0] && a[2] == ' ';
    } else {
      assert |blanks| == 1 ==> blanks == " ";
      assert b[3] == blanks[1] && a[3] == t.text[0];
    }
  }

  lemma {:induction false} AllBlank(ts: seq<Token>, p: nat, q: nat)
    requires p <= q <= |ts| && forall i :: p <= i < q ==> ts[i].kind == Space && Shaped(ts[i])
    ensures forall i :: 0 <= i < |Concat(ts[p..q])| ==> IsBlank(Concat(ts[p..q])[i])
    decreases q - p
  {
    if p < q {
      AllBlank(ts, p + 1, q);
      ConcatCons(ts[p], ts[p + 1..q]);
      assert ts[p..q] == [ts[p]] + ts[p + 1..q];
    }
  }

  lemma {:induction false} FirstNotKept(ts: seq<Token>, p: nat) returns (q: nat)
    requires p <= |ts| && exists i :: p <= i < |ts| && !Kept(ts, i)
    ensures p <= q < |ts| && !Kept(ts, q) && forall i :: p <= i < q ==> Kept(ts, i)
    decreases |ts| - p
  {
    if Kept(ts, p) { q := FirstNotKept(ts, p + 1); } else { q := p; }
  }

  /** Without var and without a fn that has parameters and an arrow, the body is the source exactly when
      every token is plain or a fn without a name behind exactly one blank. */
  lemma IdentityIffKept(s: string)
    requires '\0' !in s
    requires forall i :: 0 <= i < |Tokens(s)| ==> !IsWord(Tokens(s)[i], "var") && !Arrowed(Tokens(s), i)
    ensures Body(s) == s <==> forall i :: 0 <= i < |Tokens(s)| ==> Kept(Tokens(s), i)
  {
    hide Kept, Arrowed, Chunk, Concat;
    var ts := Tokens(s);
    TokensEnd(s);
    LexShaped(s, 0);
    Lossless(s);
    if forall i :: 0 <= i < |ts| ==> Kept(ts, i) {
      KeptPrefix(ts, 0, |ts| - 1);
      WholeSource(ts);
    } else {
      var p := FirstNotKept(ts, 0);
      assert ts[p].kind == Word by { OnlyWords(ts, p); }
      KeptPrefix(ts, 0, p);
      ChunkDiffers(ts, p);
      ConcatAppend(ts[..p], ts[p..]);
      assert ts == ts[..p] + ts[p..] && ts[0..p] == ts[..p];
      PrefixCancels(Concat(ts[..p]), Translate(ts, p), Concat(ts[p..]));
    }
  }

  lemma OnlyWords(ts: seq<Token>, p: nat)
    requires p < |ts| && !Kept(ts, p)
    ensures ts[p].kind == Word
  {
  }

  lemma PrefixCancels(pre: string, x: string, y: string)
    ensures pre + x == pre + y <==> x == y
  {
    if pre + x == pre + y { assert x == (pre + x)[|pre|..] == (pre + y)[|pre|..] == y; }
  }

  lemma WholeSource(ts: seq<Token>)
    requires Ended(ts) && ts[|ts| - 1].text == ""
    ensures Concat(ts[0..|ts| - 1]) + Translate(ts, |ts| - 1) == Concat(ts)
  {
    var n := |ts| - 1;
    assert Translate(ts, n) == "";
    hide Concat;
    ConcatAppend(ts[..n], ts[n..]);
    assert ts == ts[..n] + ts[n..] && ts[0..n] == ts[..n];
    ConcatOne(ts, n);
    assert ts[n..n + 1] == ts[n..];
  }

  /** Without fn and var, the body is the source exactly when every token is plain. */
  lemma IdentityIffPlain(s: string)
    requires '\0' !in s
    requires forall i :: 0 <= i < |Tokens(s)| ==> !IsWord(Tokens(s)[i], "fn") && !IsWord(Tokens(s)[i], "var")
    ensures Body(s) == s <==> PlainFrom(Tokens(s), 0)
  {
    var ts := Tokens(s);
    assert forall i :: 0 <= i < |ts| ==> (Kept(ts, i) <==> Plain(ts, i)) && !Arrowed(ts, i) by { hide Plain; }
    hide Kept, Plain, Arrowed, Body, Tokens;
    IdentityIffKept(s);
  }

  // ------------------------------------------------------- what a range-for says

  predicate EndsRange(t: Token) { t.kind == DotDot || t.kind == DotDotEq }

  predicate EndsLine(t: Token) { t.kind == Newline || t.kind == Eof }

  lemma {:induction false} RangeStartText(ts: seq<Token>, p: nat, j: nat)
    requires p <= j < |ts| && EndsRange(ts[j]) && forall k :: p <= k < j ==> !EndsRange(ts[k]) && !EndsLine(ts[k])
    ensures RangeStart(ts, p) == Bound(true, ts[j].kind == DotDotEq, j + 1, Concat(ts[p..j]))
    decreases j - p
  {
    if p == j {
      assert ts[p..j] == [];
    } else {
      RangeStartText(ts, p + 1, j);
      ConcatCons(ts[p], ts[p + 1..j]);
      assert ts[p..j] == [ts[p]] + ts[p + 1..j];
    }
  }

  lemma {:induction false} RangeEndText(ts: seq<Token>, p: nat, e: nat)
    requires p <= e < |ts| && (IsPunct(ts[e], '{') || EndsLine(ts[e]))
    requires forall k :: p <= k < e ==> !IsPunct(ts[k], '{') && !EndsLine(ts[k])
    ensures RangeEnd(ts, p) == Step(e, Concat(ts[p..e]))
    decreases e - p
  {
    if p == e {
      assert ts[p..e] == [];
    } else {
      RangeEndText(ts, p + 1, e);
      ConcatCons(ts[p], ts[p + 1..e]);
      assert ts[p..e] == [ts[p]] + ts[p + 1..e];
    }
  }

  /** q is the first token from p on that is no space. */
  predicate SpacesTo(ts: seq<Token>, p: nat, q: nat) {
    p <= q < |ts| && (forall i :: p <= i < q ==> ts[i].kind == Space) && ts[q].kind != Space
  }

  lemma {:induction false} SkipTo(ts: seq<Token>, p: nat, q: nat)
    requires SpacesTo(ts, p, q)
    ensures SkipSpaces(ts, p) == q
    decreases q - p
  {
    if p < q { SkipTo(ts, p + 1, q); }
  }

  lemma HeadIs(ts: seq<Token>, p: nat, v: nat, i: nat, a: nat)
    requires p < |ts| && SpacesTo(ts, p + 1, v) && ts[v].kind == Word
    requires SpacesTo(ts, v + 1, i) && IsWord(ts[i], "in") && SpacesTo(ts, i + 1, a)
    ensures ForHead(ts, p) == Head(v, a)
  {
    SkipTo(ts, p + 1, v);
    SkipTo(ts, v + 1, i);
    SkipTo(ts, i + 1, a);
  }

  lemma BoundsAre(ts: seq<Token>, v: string, a: nat, j: nat, b: nat, e: nat)
    requires a <= j < |ts| && EndsRange(ts[j]) && forall k :: a <= k < j ==> !EndsRange(ts[k]) && !EndsLine(ts[k])
    requires SpacesTo(ts, j + 1, b) && b <= e < |ts| && IsPunct(ts[e], '{')
    requires forall k :: b <= k < e ==> !IsPunct(ts[k], '{') && !EndsLine(ts[k])
    ensures Bounds(ts, v, a) == Range(e, v, Concat(ts[a..j]), ts[j].kind == DotDotEq, TrimBlanks(Concat(ts[b..e])))
  {
    hide TrimBlanks, Concat, RangeStart, RangeEnd, SkipSpaces;
    RangeStartText(ts, a, j);
    SkipTo(ts, j + 1, b);
    RangeEndText(ts, b, e);
  }

  lemma ForIsRange(ts: seq<Token>, p: nat)
    requires Ended(ts) && p < |ts| && IsWord(ts[p], "for") && ForRange(ts, p).Range?
    ensures var r := ForRange(ts, p); Chunk(ts, p) == Step(r.pos, ForText(r.v, r.start, r.inclusive, r.end))
  {
  }

  lemma ForTextIs(v: string, start: string, inclusive: bool, end: string)
    ensures ForText(v, start, inclusive, end) ==
              "for (int " + v + " = " + start + "; " + v + (if inclusive then " <= " else " < ") + end + "; " + v + "++)"
  {
  }

  /** for v in START .. END {, with any spaces between: the loop takes everything up to the brace and
      becomes the C loop over the source text of START and END, below END for .. and up to it for ..=. */
  lemma RangeForText(ts: seq<Token>, p: nat, v: nat, i: nat, a: nat, j: nat, b: nat, e: nat)
    requires Ended(ts) && p < |ts| && IsWord(ts[p], "for")
    requires SpacesTo(ts, p + 1, v) && ts[v].kind == Word && SpacesTo(ts, v + 1, i) && IsWord(ts[i], "in")
    requires SpacesTo(ts, i + 1, a) && a <= j < |ts| && EndsRange(ts[j])
    requires forall k :: a <= k < j ==> !EndsRange(ts[k]) && !EndsLine(ts[k])
    requires SpacesTo(ts, j + 1, b) && b <= e < |ts| && IsPunct(ts[e], '{')
    requires forall k :: b <= k < e ==> !IsPunct(ts[k], '{') && !EndsLine(ts[k])
    ensures var x, start, end := ts[v].text, Concat(ts[a..j]), TrimBlanks(Concat(ts[b..e]));
            && (ts[j].kind == DotDotEq ==>
                  Chunk(ts, p) == Step(e, "for (int " + x + " = " + start + "; " + x + " <= " + end + "; " + x + "++)"))
            && (ts[j].kind == DotDot ==>
                  Chunk(ts, p) == Step(e, "for (int " + x + " = " + start + "; " + x + " < " + end + "; " + x + "++)"))
  {
    hide ForText, Chunk, TrimBlanks, Concat;
    ForTextIs(ts[v].text, Concat(ts[a..j]), ts[j].kind == DotDotEq, TrimBlanks(Concat(ts[b..e])));
    HeadIs(ts, p, v, i, a);
    BoundsAre(ts, ts[v].text, a, j, b, e);
    ForIsRange(ts, p);
  }

  // ----------------------------------------------------------- the s.h include

  predicate OccursAt(text: string, part: string, i: nat) {
    i + |part| <= |text| && text[i..i + |part|] == part
  }

  predicate Contains(text: string, part: string) {
    exists i :: 0 <= i <= |text| && OccursAt(text, part, i)
  }

  /** A use directive whose next token mentions s.h. */
  predicate UsesHeader(ts: seq<Token>, i: nat)
    requires i < |ts|
  {
    IsWord(ts[i], "use") && Contains(Look(ts, SkipSpaces(ts, i + 1)).text, "s.h")
  }

  predicate HasInclude(ts: seq<Token>) {
    exists i :: 0 <= i < |ts| && UsesHeader(ts, i)
  }

  lemma PlainHasNoInclude(ts: seq<Token>)
    requires PlainFrom(ts, 0)
    ensures !HasInclude(ts)
  {
    forall i | 0 <= i < |ts| ensures !UsesHeader(ts, i) { assert Plain(ts, i); }
  }

  // ------------------------------------------------------------- the whole file

  function Banner(filename: string): string {
    "/* Generated by sc (S language compiler) v0.1.0 \U{2014} DO NOT EDIT */\n" + "/* Source: " + filename + " */\n\n"
  }

  /** What transpile returns. */
  ghost function Output(src: string, filename: string): string {
    Banner(filename) + (if HasInclude(Tokens(src)) then "" else "#include <s.h>\n") + Body(src)
  }

  /** Plain C goes through unchanged below the banner and the include. */
  lemma PlainOutput(src: string, filename: string)
    requires '\0' !in src && PlainFrom(Tokens(src), 0)
    ensures Output(src, filename) == Banner(filename) + "#include <s.h>\n" + src
  {
    PlainIsIdentity(src);
    PlainHasNoInclude(Tokens(src));
  }
}
