/** The tokens of the S language, as the lexer of tools/s-lang/sc.c finds them. A source is a sequence
    of bytes held in chars. */
module LexerModel {

  datatype Kind =
    | Eof | Word | Number | Str | CharLit | Punct | Newline | Space | LineComment | BlockComment
    | DotDot | DotDotEq | Arrow | Eq2 | Neq | Leq | Geq | And2 | Or2 | Shl | Shr
    | PlusEq | MinusEq | StarEq | SlashEq | PercentEq | AndEq | OrEq | XorEq | Inc | Dec

  datatype Token = Token(kind: Kind, text: string, line: nat, col: nat)

  // --------------------------------------------------------------- characters

  predicate IsDigit(c: char) { '0' <= c <= '9' }

  predicate IsHex(c: char) { IsDigit(c) || 'a' <= c <= 'f' || 'A' <= c <= 'F' }

  predicate IsWordStart(c: char) { 'a' <= c <= 'z' || 'A' <= c <= 'Z' || c == '_' }

  predicate IsWordChar(c: char) { IsWordStart(c) || IsDigit(c) }

  predicate IsBlank(c: char) { c == ' ' || c == '\t' || c == '\r' }

  predicate IsSuffix(c: char) { c == 'u' || c == 'U' || c == 'l' || c == 'L' || c == 'f' || c == 'F' }

  /** What a simple scanning loop runs over. */
  datatype Class = Blanks | ToNewline | HexDigits | Suffix | WordChars

  predicate In(c: char, k: Class) {
    match k
    case Blanks => IsBlank(c)
    case ToNewline => c != '\n'
    case HexDigits => IsHex(c)
    case Suffix => IsSuffix(c)
    case WordChars => IsWordChar(c)
  }

  function Peek(s: string, i: nat): char { if i < |s| then s[i] else '\0' }

  // ------------------------------------------------------------ token lengths

  /** The end of the run of class k that starts at i. */
  function Run(s: string, k: Class, i: nat): (e: nat)
    requires i <= |s|
    ensures i <= e <= |s| && (e < |s| ==> !In(s[e], k)) && forall j :: i <= j < e ==> In(s[j], k)
    decreases |s| - i
  {
    if i < |s| && In(s[i], k) then Run(s, k, i + 1) else i
  }

  /** The end of a block comment whose text goes on at i; an unterminated one leaves the last byte. */
  function CommentEnd(s: string, i: nat): (e: nat)
    requires i <= |s|
    ensures i <= e <= |s|
    decreases |s| - i
  {
    if i + 1 >= |s| then i else if s[i] == '*' && s[i + 1] == '/' then i + 2 else CommentEnd(s, i + 1)
  }

  /** The end of a literal closed by q, escapes skipped. */
  function QuoteEnd(s: string, i: nat, q: char): (e: nat)
    requires i <= |s|
    ensures i <= e <= |s|
    decreases |s| - i
  {
    if i == |s| then i
    else if s[i] == '\\' then if i + 1 < |s| then QuoteEnd(s, i + 2, q) else i + 1
    else if s[i] == q then i + 1
    else QuoteEnd(s, i + 1, q)
  }

  /** Digits with at most one dot, which a digit must follow. */
  function DigitsEnd(s: string, i: nat, dot: bool): (e: nat)
    requires i <= |s|
    ensures i <= e <= |s| && (i < |s| && IsDigit(s[i]) ==> i < e)
    decreases |s| - i
  {
    if i == |s| then i
    else if IsDigit(s[i]) then DigitsEnd(s, i + 1, dot)
    else if s[i] == '.' && !dot && Peek(s, i + 1) != '.' && i + 1 < |s| && IsDigit(s[i + 1]) then DigitsEnd(s, i + 1, true)
    else i
  }

  function NumberEnd(s: string, i: nat): (e: nat)
    requires i < |s| && IsDigit(s[i])
    ensures i < e <= |s|
  {
    if s[i] == '0' && (Peek(s, i + 1) == 'x' || Peek(s, i + 1) == 'X') then Run(s, HexDigits, i + 2)
    else Run(s, Suffix, DigitsEnd(s, i, false))
  }

  /** The kind of a two-character operator; Punct if c and d make none. */
  function Pair(c: char, d: char): Kind {
    if c == '-' && d == '>' then Arrow
    else if c == '=' && d == '=' then Eq2
    else if c == '!' && d == '=' then Neq
    else if c == '<' && d == '=' then Leq
    else if c == '>' && d == '=' then Geq
    else if c == '&' && d == '&' then And2
    else if c == '|' && d == '|' then Or2
    else if c == '<' && d == '<' then Shl
    else if c == '>' && d == '>' then Shr
    else if d == '=' then
      (if c == '+' then PlusEq else if c == '-' then MinusEq else if c == '*' then StarEq
       else if c == '/' then SlashEq else if c == '%' then PercentEq else if c == '&' then AndEq
       else if c == '|' then OrEq else if c == '^' then XorEq else Punct)
    else if c == '+' && d == '+' then Inc
    else if c == '-' && d == '-' then Dec
    else Punct
  }

  /** Kind and end of the operator or punctuation at i. */
  function Operator(s: string, i: nat): (r: (Kind, nat))
    requires i < |s|
    ensures i < r.1 <= |s|
  {
    var c, d := s[i], Peek(s, i + 1);
    if c == '.' && d == '.' then if Peek(s, i + 2) == '=' then (DotDotEq, i + 3) else (DotDot, i + 2)
    else if Pair(c, d) != Punct && i + 1 < |s| then (Pair(c, d), i + 2)
    else (Punct, i + 1)
  }

  /** Kind and end of the token at i. */
  function Scan(s: string, i: nat): (r: (Kind, nat))
    requires i < |s|
    ensures i < r.1 <= |s|
  {
    var c, d := s[i], Peek(s, i + 1);
    if IsBlank(c) then (Space, Run(s, Blanks, i))
    else if c == '\n' then (Newline, i + 1)
    else if c == '/' && d == '/' then (LineComment, Run(s, ToNewline, i))
    else if c == '/' && d == '*' then (BlockComment, CommentEnd(s, i + 2))
    else if c == '"' then (Str, QuoteEnd(s, i + 1, '"'))
    else if c == '\'' then (CharLit, QuoteEnd(s, i + 1, '\''))
    else if IsDigit(c) then (Number, NumberEnd(s, i))
    else if IsWordStart(c) then (Word, Run(s, WordChars, i))
    else Operator(s, i)
  }

  // ------------------------------------------------------------------- tokens

  /** What is left of bytes when they are copied as a C string. */
  function CString(s: string): (t: string)
    ensures '\0' !in t && ('\0' !in s ==> t == s)
  {
    if s == "" || s[0] == '\0' then "" else [s[0]] + CString(s[1..])
  }

  /** The line of offset i: one more than the line feeds before it. */
  ghost function LineAt(s: string, i: nat): nat
    requires i <= |s|
  {
    1 + multiset(s[..i])['\n']
  }

  /** Where the line of offset i starts. */
  function LineStart(s: string, i: nat): (b: nat)
    requires i <= |s|
    ensures b <= i && (b == 0 || s[b - 1] == '\n') && '\n' !in s[b..i]
    decreases i
  {
    if i == 0 || s[i - 1] == '\n' then i else LineStart(s, i - 1)
  }

  function ColAt(s: string, i: nat): nat
    requires i <= |s|
  {
    1 + i - LineStart(s, i)
  }

  ghost function TokenAt(s: string, i: nat): Token
    requires i < |s|
  {
    var (kind, e) := Scan(s, i);
    Token(kind, CString(s[i..e]), LineAt(s, i), ColAt(s, i))
  }

  /** All tokens from i on, without the end mark. */
  ghost function Lex(s: string, i: nat): seq<Token>
    requires i <= |s|
    decreases |s| - i
  {
    if i == |s| then [] else [TokenAt(s, i)] + Lex(s, Scan(s, i).1)
  }

  /** The token array transpile builds. */
  ghost function Tokens(s: string): (ts: seq<Token>)
    ensures ts != []
  {
    Lex(s, 0) + [Token(Eof, "", LineAt(s, |s|), ColAt(s, |s|))]
  }

  function Concat(ts: seq<Token>): string {
    if ts == [] then "" else ts[0].text + Concat(ts[1..])
  }

  // ------------------------------------------------------------------ lemmas

  lemma LineStep(s: string, i: nat)
    requires i < |s|
    ensures LineAt(s, i + 1) == LineAt(s, i) + if s[i] == '\n' then 1 else 0
    ensures ColAt(s, i + 1) == if s[i] == '\n' then 1 else ColAt(s, i) + 1
  {
    assert s[..i + 1] == s[..i] + [s[i]];
  }

  lemma ConcatCons(t: Token, ts: seq<Token>)
    ensures Concat([t] + ts) == t.text + Concat(ts)
  {
    assert ([t] + ts)[1..] == ts;
  }

  lemma Associative(x: string, y: string, z: string)
    ensures x + (y + z) == (x + y) + z
  {
  }

  lemma {:induction false} ConcatAppend(a: seq<Token>, b: seq<Token>)
    ensures Concat(a + b) == Concat(a) + Concat(b)
  {
    if a == [] {
      assert a + b == b;
    } else {
      ConcatAppend(a[1..], b);
      assert a + b == [a[0]] + (a[1..] + b);
      ConcatCons(a[0], a[1..] + b);
      Associative(a[0].text, Concat(a[1..]), Concat(b));
    }
  }

  lemma {:induction false} LexIsLossless(s: string, i: nat)
    requires i <= |s| && '\0' !in s
    ensures Concat(Lex(s, i)) == s[i..]
    decreases |s| - i
  {
    hide Scan;
    if i < |s| {
      var e := Scan(s, i).1;
      LexIsLossless(s, e);
      assert CString(s[i..e]) == s[i..e];
      assert s[i..e] + s[e..] == s[i..];
      assert Lex(s, i)[1..] == Lex(s, e);
    }
  }

  lemma {:induction false} ConcatNulFree(ts: seq<Token>)
    requires forall k :: 0 <= k < |ts| ==> '\0' !in ts[k].text
    ensures '\0' !in Concat(ts)
  {
    if ts != [] { ConcatNulFree(ts[1..]); }
  }

  lemma {:induction false} LexNulFree(s: string, i: nat)
    requires i <= |s|
    ensures forall k :: 0 <= k < |Lex(s, i)| ==> '\0' !in Lex(s, i)[k].text
    decreases |s| - i
  {
    hide Scan;
    if i < |s| { LexNulFree(s, Scan(s, i).1); }
  }

  /** The token texts, joined, are the source exactly when it holds no NUL, unterminated comments and
      literals included. */
  lemma Lossless(s: string)
    ensures Concat(Tokens(s)) == s <==> '\0' !in s
  {
    ConcatAppend(Lex(s, 0), [Token(Eof, "", LineAt(s, |s|), ColAt(s, |s|))]);
    LexNulFree(s, 0);
    ConcatNulFree(Lex(s, 0));
    if '\0' !in s { LexIsLossless(s, 0); }
  }

  /** Where token k of a NUL-free source starts. */
  ghost function Offset(s: string, i: nat, k: nat): nat
    requires i <= |s| && k <= |Lex(s, i)|
  {
    i + |Concat(Lex(s, i)[..k])|
  }

  lemma OffsetStep(s: string, i: nat, k: nat)
    requires i < |s| && 0 < k <= |Lex(s, i)| && '\0' !in s
    ensures k - 1 <= |Lex(s, Scan(s, i).1)| && Offset(s, i, k) == Offset(s, Scan(s, i).1, k - 1)
  {
    hide Scan;
    var e := Scan(s, i).1;
    var t, rest := TokenAt(s, i), Lex(s, e);
    assert t.text == s[i..e];
    assert ([t] + rest)[..k] == [t] + rest[..k - 1];
    ConcatCons(t, rest[..k - 1]);
  }

  /** Token k of a NUL-free source is scanned right after the texts before it, and carries the line and
      column of that prefix. */
  lemma {:induction false} Positions(s: string, i: nat, k: nat)
    requires i <= |s| && k < |Lex(s, i)| && '\0' !in s
    ensures var o := Offset(s, i, k);
            && o < |s| && Lex(s, i)[k] == TokenAt(s, o)
            && Lex(s, i)[k].line == LineAt(s, o) && Lex(s, i)[k].col == ColAt(s, o)
    decreases k
  {
    hide Scan;
    if k > 0 {
      OffsetStep(s, i, k);
      Positions(s, Scan(s, i).1, k - 1);
    } else {
      assert Lex(s, i)[..0] == [];
    }
  }
}
