/** Sources of one loop of each form, from characters to the text they become. */
module LoopTexts {
  import opened LexerModel
  import opened TranslatorModel
  import opened TranslatorProofs
  import opened HeaderTest

  const UP_TO: string := "for i in 1..=5 {"
  const BELOW: string := "for n in 1..8 {"

  /** The first six tokens of both sources. */
  lemma HeadPieces(s: string, v: string)
    requires |s| > 9 && '\0' !in s && s[..9] == "for " + v + " in " && |v| == 1 && IsWordStart(v[0]) && IsDigit(s[9])
    ensures Lies(s, 0, Piece(Word, "for"), 3) && Lies(s, 3, Piece(Space, " "), 4) && Lies(s, 4, Piece(Word, v), 5)
    ensures Lies(s, 5, Piece(Space, " "), 6) && Lies(s, 6, Piece(Word, "in"), 8) && Lies(s, 8, Piece(Space, " "), 9)
  {
    hide QuoteEnd, CommentEnd, DigitsEnd;
    var h := s[..9];
    assert s[0] == h[0] == 'f' && s[1] == h[1] == 'o' && s[2] == h[2] == 'r' && s[3] == h[3] == ' ';
    assert s[4] == h[4] == v[0] && s[5] == h[5] == ' ' && s[6] == h[6] == 'i' && s[7] == h[7] == 'n' && s[8] == h[8] == ' ';
    assert s[0..3] == "for" && s[3..4] == " " && s[4..5] == v && s[5..6] == " " && s[6..8] == "in" && s[8..9] == " ";
    RunIs(s, WordChars, 0, 3);
    RunIs(s, Blanks, 3, 4);
    RunIs(s, WordChars, 4, 5);
    RunIs(s, Blanks, 5, 6);
    RunIs(s, WordChars, 6, 8);
    RunIs(s, Blanks, 8, 9);
  }

  lemma DigitPiece(s: string, i: nat)
    requires i + 1 < |s| && IsDigit(s[i]) && !IsDigit(s[i + 1]) && !IsSuffix(s[i + 1])
    requires s[i] != '0' && (s[i + 1] == '.' ==> i + 2 < |s| && s[i + 2] == '.')
    ensures Lies(s, i, Piece(Number, s[i..i + 1]), i + 1)
  {
    assert DigitsEnd(s, i + 1, false) == i + 1;
    RunIs(s, Suffix, i + 1, i + 1);
  }

  lemma UpToPieces()
    ensures Lies(UP_TO, 9, Piece(Number, "1"), 10) && Lies(UP_TO, 10, Piece(DotDotEq, "..="), 13)
    ensures Lies(UP_TO, 13, Piece(Number, "5"), 14) && Lies(UP_TO, 14, Piece(Space, " "), 15) && Lies(UP_TO, 15, Piece(Punct, "{"), 16)
  {
    assert UP_TO[9..10] == "1" && UP_TO[10..13] == "..=" && UP_TO[13..14] == "5" && UP_TO[14..15] == " " && UP_TO[15..16] == "{";
    DigitPiece(UP_TO, 9);
    DigitPiece(UP_TO, 13);
    RunIs(UP_TO, Blanks, 14, 15);
  }

  lemma BelowPieces()
    ensures Lies(BELOW, 9, Piece(Number, "1"), 10) && Lies(BELOW, 10, Piece(DotDot, ".."), 12)
    ensures Lies(BELOW, 12, Piece(Number, "8"), 13) && Lies(BELOW, 13, Piece(Space, " "), 14) && Lies(BELOW, 14, Piece(Punct, "{"), 15)
  {
    assert BELOW[9..10] == "1" && BELOW[10..12] == ".." && BELOW[12..13] == "8" && BELOW[13..14] == " " && BELOW[14..15] == "{";
    DigitPiece(BELOW, 9);
    DigitPiece(BELOW, 12);
    RunIs(BELOW, Blanks, 13, 14);
  }

  function Pieces(v: string, op: Kind, dots: string, end: string): seq<Piece> {
    [Piece(Word, "for"), Piece(Space, " "), Piece(Word, v), Piece(Space, " "), Piece(Word, "in"), Piece(Space, " "),
     Piece(Number, "1"), Piece(op, dots), Piece(Number, end), Piece(Space, " "), Piece(Punct, "{")]
  }

  lemma UpToLex()
    ensures Reads(Lex(UP_TO, 0), Pieces("i", DotDotEq, "..=", "5"))
  {
    hide Lies;
    assert UP_TO[..9] == "for " + "i" + " in ";
    HeadPieces(UP_TO, "i");
    UpToPieces();
    var us := Pieces("i", DotDotEq, "..=", "5");
    LexesAs(UP_TO, us, [0, 3, 4, 5, 6, 8, 9, 10, 13, 14, 15, 16], 0);
    assert us[0..] == us;
  }

  lemma BelowLex()
    ensures Reads(Lex(BELOW, 0), Pieces("n", DotDot, "..", "8"))
  {
    hide Lies;
    assert BELOW[..9] == "for " + "n" + " in ";
    HeadPieces(BELOW, "n");
    BelowPieces();
    var us := Pieces("n", DotDot, "..", "8");
    LexesAs(BELOW, us, [0, 3, 4, 5, 6, 8, 9, 10, 12, 13, 14, 15], 0);
    assert us[0..] == us;
  }

  /** Eleven tokens of a range-for up to its brace, and the end mark. */
  ghost predicate IsLoop(ts: seq<Token>, v: string, op: Kind, dots: string, end: string) {
    Ended(ts) && |ts| == 12 && Reads(ts[..11], Pieces(v, op, dots, end))
  }

  lemma OneText(ts: seq<Token>, k: nat)
    requires k < |ts|
    ensures Concat(ts[k..k + 1]) == ts[k].text
  {
    ConcatOne(ts, k);
  }

  lemma EndTrimmed(ts: seq<Token>, end: string)
    requires |ts| == 12 && ts[8].text == end && ts[9].text == " " && end != "" && end[|end| - 1] != ' ' && end[|end| - 1] != '\t'
    ensures TrimBlanks(Concat(ts[8..10])) == end
  {
    assert ts[8..10] == [ts[8]] + ts[9..10];
    ConcatCons(ts[8], ts[9..10]);
    ConcatOne(ts, 9);
    assert (end + " ")[..|end|] == end;
    assert TrimBlanks(end) == end;
  }

  lemma LoopTokens(ts: seq<Token>, v: string, op: Kind, dots: string, end: string)
    requires IsLoop(ts, v, op, dots, end)
    ensures forall k :: 0 <= k < 11 ==> ts[k].kind == Pieces(v, op, dots, end)[k].kind && ts[k].text == Pieces(v, op, dots, end)[k].text
    ensures ts[11].kind == Eof
  {
    assert forall k :: 0 <= k < 11 ==> ts[..11][k] == ts[k];
  }

  lemma LoopChunk(ts: seq<Token>, v: string, op: Kind, dots: string, end: string)
    requires IsLoop(ts, v, op, dots, end) && (op == DotDot || op == DotDotEq)
    requires end != "" && end[|end| - 1] != ' ' && end[|end| - 1] != '\t'
    ensures Chunk(ts, 0) == Step(10, "for (int " + v + " = " + "1" + "; " + v + (if op == DotDotEq then " <= " else " < ") + end + "; " + v + "++)")
  {
    hide Chunk, TrimBlanks, Concat, Pieces;
    LoopTokens(ts, v, op, dots, end);
    assert Pieces(v, op, dots, end) == [Piece(Word, "for"), Piece(Space, " "), Piece(Word, v), Piece(Space, " "), Piece(Word, "in"),
      Piece(Space, " "), Piece(Number, "1"), Piece(op, dots), Piece(Number, end), Piece(Space, " "), Piece(Punct, "{")] by { PiecesAre(v, op, dots, end); }
    OneText(ts, 6);
    EndTrimmed(ts, end);
    RangeForText(ts, 0, 2, 4, 6, 7, 8, 10);
  }

  lemma PiecesAre(v: string, op: Kind, dots: string, end: string)
    ensures Pieces(v, op, dots, end) == [Piece(Word, "for"), Piece(Space, " "), Piece(Word, v), Piece(Space, " "), Piece(Word, "in"),
      Piece(Space, " "), Piece(Number, "1"), Piece(op, dots), Piece(Number, end), Piece(Space, " "), Piece(Punct, "{")]
  {
  }

  /** Behind the loop's head only its brace is left. */
  lemma BraceLeft(ts: seq<Token>)
    requires Ended(ts) && |ts| == 12 && ts[10].kind == Punct && ts[10].text == "{" && ts[11].kind == Eof
    ensures Translate(ts, 10) == "{"
  {
    assert Translate(ts, 11) == "";
  }

  lemma LoopTranslated(ts: seq<Token>, v: string, op: Kind, dots: string, end: string)
    requires IsLoop(ts, v, op, dots, end) && (op == DotDot || op == DotDotEq)
    requires end != "" && end[|end| - 1] != ' ' && end[|end| - 1] != '\t'
    ensures Translate(ts, 0) ==
              "for (int " + v + " = " + "1" + "; " + v + (if op == DotDotEq then " <= " else " < ") + end + "; " + v + "++)" + "{"
  {
    hide Chunk;
    LoopTokens(ts, v, op, dots, end);
    LoopChunk(ts, v, op, dots, end);
    BraceLeft(ts);
    TranslateOnce(ts, 0);
  }

  lemma UpToBody()
    ensures Body(UP_TO) == "for (int " + "i" + " = " + "1" + "; " + "i" + " <= " + "5" + "; " + "i" + "++)" + "{"
  {
    UpToLex();
    TokensEnd(UP_TO);
    var ts := Tokens(UP_TO);
    assert |Lex(UP_TO, 0)| == 11;
    hide Lex, Translate, Pieces;
    assert ts[..11] == Lex(UP_TO, 0);
    LoopTranslated(ts, "i", DotDotEq, "..=", "5");
  }

  lemma BelowBody()
    ensures Body(BELOW) == "for (int " + "n" + " = " + "1" + "; " + "n" + " < " + "8" + "; " + "n" + "++)" + "{"
  {
    BelowLex();
    TokensEnd(BELOW);
    var ts := Tokens(BELOW);
    assert |Lex(BELOW, 0)| == 11;
    hide Lex, Translate, Pieces;
    assert ts[..11] == Lex(BELOW, 0);
    LoopTranslated(ts, "n", DotDot, "..", "8");
  }

  /** for i in 1..=5 { runs up to 5, for n in 1..8 { stays below 8. */
  lemma LoopBodies()
    ensures Body("for i in 1..=5 {") == "for (int i = 1; i <= 5; i++){"
    ensures Body("for n in 1..8 {") == "for (int n = 1; n < 8; n++){"
  {
    hide Body;
    UpToBody();
    BelowBody();
  }
}
