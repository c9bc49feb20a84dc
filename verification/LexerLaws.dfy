/** Where each token ends, said of the characters of the source. */
module LexerLaws {
  import opened LexerModel

  const DIGITS: string := "0123456789"
  const LOWER: string := "abcdefghijklmnopqrstuvwxyz"
  const UPPER: string := "ABCDEFGHIJKLMNOPQRSTUVWXYZ"

  lemma Classes(c: char)
    ensures IsDigit(c) <==> c in DIGITS
    ensures IsHex(c) <==> c in DIGITS + "abcdefABCDEF"
    ensures IsWordStart(c) <==> c in LOWER + UPPER + "_"
    ensures IsWordChar(c) <==> c in LOWER + UPPER + "_" + DIGITS
    ensures IsBlank(c) <==> c in " \t\r"
    ensures IsSuffix(c) <==> c in "uUlLfF"
  {
    DigitIs(c);
    HexIs(c);
    WordIs(c);
    assert c in DIGITS + "abcdefABCDEF" <==> c in DIGITS || c in "abcdefABCDEF";
    assert c in LOWER + UPPER + "_" + DIGITS <==> c in LOWER + UPPER + "_" || c in DIGITS;
  }

  lemma HexIs(c: char)
    ensures ('a' <= c <= 'f' || 'A' <= c <= 'F') <==> c in "abcdefABCDEF"
  {
  }

  lemma WordIs(c: char)
    ensures IsWordStart(c) <==> c in LOWER + UPPER + "_"
  {
    LowerIs(c);
    UpperIs(c);
    assert c in LOWER + UPPER + "_" <==> c in LOWER || c in UPPER || c == '_';
  }

  lemma DigitIs(c: char)
    ensures IsDigit(c) <==> c in DIGITS
  {
    if IsDigit(c) { assert DIGITS[c as int - '0' as int] == c; }
  }

  lemma LowerIs(c: char)
    ensures 'a' <= c <= 'z' <==> c in LOWER
  {
    if 'a' <= c <= 'z' { assert LOWER[c as int - 'a' as int] == c; }
  }

  lemma UpperIs(c: char)
    ensures 'A' <= c <= 'Z' <==> c in UPPER
  {
    if 'A' <= c <= 'Z' { assert UPPER[c as int - 'A' as int] == c; }
  }

  /** [i, e) is the longest run of characters of cs that starts at i. */
  ghost predicate Longest(s: string, cs: string, i: nat, e: nat) {
    i <= e <= |s| && (forall k :: i <= k < e ==> s[k] in cs) && (e < |s| ==> s[e] !in cs)
  }

  lemma RunLaw(s: string, i: nat)
    requires i <= |s|
    ensures Longest(s, " \t\r", i, Run(s, Blanks, i)) && Longest(s, DIGITS + "abcdefABCDEF", i, Run(s, HexDigits, i))
    ensures Longest(s, LOWER + UPPER + "_" + DIGITS, i, Run(s, WordChars, i)) && Longest(s, "uUlLfF", i, Run(s, Suffix, i))
    ensures var e := Run(s, ToNewline, i); i <= e <= |s| && '\n' !in s[i..e] && (e < |s| ==> s[e] == '\n')
  {
    forall k | i <= k < |s| ensures (IsHex(s[k]) <==> s[k] in DIGITS + "abcdefABCDEF") && (IsBlank(s[k]) <==> s[k] in " \t\r")
      && (IsWordChar(s[k]) <==> s[k] in LOWER + UPPER + "_" + DIGITS) && (IsSuffix(s[k]) <==> s[k] in "uUlLfF") { Classes(s[k]); }
  }

  // ---------------------------------------------------------- quotes and comments

  /** The backslashes that stand directly before k, from i on. */
  function Backslashes(s: string, i: nat, k: nat): nat
    requires i <= k <= |s|
    decreases k - i
  {
    if k > i && s[k - 1] == '\\' then 1 + Backslashes(s, i, k - 1) else 0
  }

  /** A quote at k closes the literal whose text starts at i: an even number of backslashes before it. */
  ghost predicate Closing(s: string, i: nat, q: char, k: nat) {
    i <= k < |s| && s[k] == q && Backslashes(s, i, k) % 2 == 0
  }

  /** e is one behind the first closing quote, or the end of the source if there is none. */
  ghost predicate QuotedTo(s: string, i: nat, q: char, e: nat) {
    if e > i && Closing(s, i, q, e - 1) then forall k :: i <= k < e - 1 ==> !Closing(s, i, q, k)
    else e == |s| && forall k :: i <= k < |s| ==> !Closing(s, i, q, k)
  }

  /** Starting behind another character counts the same backslashes. */
  lemma {:induction false} LaterStart(s: string, i: nat, k: nat)
    requires i < k <= |s| && s[i] != '\\'
    ensures Backslashes(s, i, k) == Backslashes(s, i + 1, k)
    decreases k
  {
    if k > i + 1 { LaterStart(s, i, k - 1); }
  }

  /** Starting behind an escaped character counts the same backslashes modulo 2. */
  lemma {:induction false} BehindEscape(s: string, i: nat, k: nat)
    requires i + 2 <= k <= |s| && s[i] == '\\'
    ensures Backslashes(s, i, k) == Backslashes(s, i + 2, k) || Backslashes(s, i, k) == Backslashes(s, i + 2, k) + 2
    decreases k
  {
    if k > i + 2 {
      BehindEscape(s, i, k - 1);
    } else {
      assert Backslashes(s, i, i) == 0;
      assert Backslashes(s, i, i + 1) == 1;
    }
  }

  lemma {:induction false} QuoteLaw(s: string, i: nat, q: char)
    requires i <= |s| && q != '\\'
    ensures QuotedTo(s, i, q, QuoteEnd(s, i, q))
    decreases |s| - i
  {
    if i == |s| { return; }
    assert Backslashes(s, i, i) == 0;
    if s[i] == '\\' {
      assert Backslashes(s, i, i + 1) == 1;
      if i + 1 < |s| {
        QuoteLaw(s, i + 2, q);
        forall k | i + 2 <= k < |s| ensures Closing(s, i, q, k) <==> Closing(s, i + 2, q, k) { BehindEscape(s, i, k); }
      }
    } else if s[i] == q {
      assert Closing(s, i, q, i);
    } else {
      QuoteLaw(s, i + 1, q);
      forall k | i + 1 <= k < |s| ensures Closing(s, i, q, k) <==> Closing(s, i + 1, q, k) { LaterStart(s, i, k); }
    }
  }

  ghost predicate Mark(s: string, k: nat) { k + 1 < |s| && s[k] == '*' && s[k + 1] == '/' }

  /** e is behind the first closing mark from i on; without one, the last character is left. */
  ghost predicate CommentTo(s: string, i: nat, e: nat) {
    if e >= i + 2 && Mark(s, e - 2) then forall k :: i <= k < e - 2 ==> !Mark(s, k)
    else (forall k :: i <= k < |s| ==> !Mark(s, k)) && e == if i + 1 < |s| then |s| - 1 else i
  }

  lemma {:induction false} CommentLaw(s: string, i: nat)
    requires i <= |s|
    ensures CommentTo(s, i, CommentEnd(s, i))
    decreases |s| - i
  {
    if i + 1 < |s| && !Mark(s, i) { CommentLaw(s, i + 1); }
  }

  // ------------------------------------------------------------------- numbers

  /** Digits, then a dot with digits behind it, if there are any, then a suffix: each as long as can be. */
  ghost predicate Decimal(s: string, i: nat, e: nat) {
    exists d: nat :: Longest(s, DIGITS, i, d) && if HasFraction(s, d) then Suffixed(s, d + 1, e) else Longest(s, "uUlLfF", d, e)
  }

  predicate HasFraction(s: string, d: nat) { d + 1 < |s| && s[d] == '.' && s[d + 1] in DIGITS }

  ghost predicate Suffixed(s: string, i: nat, e: nat) {
    exists d :: Longest(s, DIGITS, i, d) && Longest(s, "uUlLfF", d, e)
  }

  lemma {:induction false} DigitsLaw(s: string, i: nat, dot: bool) returns (d: nat)
    requires i <= |s|
    ensures Longest(s, DIGITS, i, d)
    ensures if !dot && HasFraction(s, d) then Longest(s, DIGITS, d + 1, DigitsEnd(s, i, dot))
            else DigitsEnd(s, i, dot) == d
    decreases |s| - i
  {
    d := i;
    if i < |s| {
      DigitIs(s[i]);
      if i + 1 < |s| { DigitIs(s[i + 1]); }
      if IsDigit(s[i]) {
        d := DigitsLaw(s, i + 1, dot);
      } else if s[i] == '.' && !dot && i + 1 < |s| && IsDigit(s[i + 1]) {
        var f := DigitsLaw(s, i + 1, true);
      }
    }
  }

  /** 0x and hexadecimal digits, or a decimal number. */
  lemma NumberLaw(s: string, i: nat)
    requires i < |s| && IsDigit(s[i])
    ensures if i + 1 < |s| && s[i] == '0' && s[i + 1] in "xX" then Longest(s, DIGITS + "abcdefABCDEF", i + 2, NumberEnd(s, i))
            else Decimal(s, i, NumberEnd(s, i))
  {
    hide Longest;
    if i + 1 < |s| && s[i] == '0' && s[i + 1] in "xX" {
      RunLaw(s, i + 2);
    } else {
      var d := DigitsLaw(s, i, false);
      RunLaw(s, DigitsEnd(s, i, false));
    }
  }

  // ----------------------------------------------------------------- operators

  /** The characters at i spell op. */
  predicate Spells(s: string, i: nat, op: string) { i + |op| <= |s| && forall k :: 0 <= k < |op| ==> s[i + k] == op[k] }

  lemma SpellsTwo(s: string, i: nat, op: string)
    requires i < |s| && |op| == 2
    ensures Spells(s, i, op) <==> i + 1 < |s| && s[i] == op[0] && s[i + 1] == op[1]
  {
    assert s[i + 0] == s[i];
  }

  lemma SpellsThree(s: string, i: nat, op: string)
    requires i < |s| && |op| == 3
    ensures Spells(s, i, op) <==> i + 2 < |s| && s[i] == op[0] && s[i + 1] == op[1] && s[i + 2] == op[2]
  {
    assert s[i + 0] == s[i];
  }

  /** The range operators. */
  lemma DotsLaw(s: string, i: nat)
    requires i < |s|
    ensures Spells(s, i, "..=") ==> Operator(s, i) == (DotDotEq, i + 3)
    ensures Spells(s, i, "..") && !Spells(s, i, "..=") ==> Operator(s, i) == (DotDot, i + 2)
  {
    SpellsTwo(s, i, "..");
    SpellsThree(s, i, "..=");
  }

  /** Which operator every other pair of characters is. */
  lemma OperatorLaw(s: string, i: nat)
    requires i < |s|
    ensures Spells(s, i, "->") ==> Operator(s, i) == (Arrow, i + 2)
    ensures Spells(s, i, "==") ==> Operator(s, i) == (Eq2, i + 2)
    ensures Spells(s, i, "!=") ==> Operator(s, i) == (Neq, i + 2)
    ensures Spells(s, i, "<=") ==> Operator(s, i) == (Leq, i + 2)
    ensures Spells(s, i, ">=") ==> Operator(s, i) == (Geq, i + 2)
    ensures Spells(s, i, "&&") ==> Operator(s, i) == (And2, i + 2)
    ensures Spells(s, i, "||") ==> Operator(s, i) == (Or2, i + 2)
    ensures Spells(s, i, "<<") ==> Operator(s, i) == (Shl, i + 2)
    ensures Spells(s, i, ">>") ==> Operator(s, i) == (Shr, i + 2)
    ensures Spells(s, i, "+=") ==> Operator(s, i) == (PlusEq, i + 2)
    ensures Spells(s, i, "-=") ==> Operator(s, i) == (MinusEq, i + 2)
    ensures Spells(s, i, "*=") ==> Operator(s, i) == (StarEq, i + 2)
    ensures Spells(s, i, "/=") ==> Operator(s, i) == (SlashEq, i + 2)
    ensures Spells(s, i, "%=") ==> Operator(s, i) == (PercentEq, i + 2)
    ensures Spells(s, i, "&=") ==> Operator(s, i) == (AndEq, i + 2)
    ensures Spells(s, i, "|=") ==> Operator(s, i) == (OrEq, i + 2)
    ensures Spells(s, i, "^=") ==> Operator(s, i) == (XorEq, i + 2)
    ensures Spells(s, i, "++") ==> Operator(s, i) == (Inc, i + 2)
    ensures Spells(s, i, "--") ==> Operator(s, i) == (Dec, i + 2)
  {
    forall op: string | |op| == 2 ensures Spells(s, i, op) <==> i + 1 < |s| && s[i] == op[0] && s[i + 1] == op[1] { SpellsTwo(s, i, op); }
    hide Spells;
  }

  /** Everything else is one character of punctuation. */
  lemma PunctuationLaw(s: string, i: nat)
    requires i < |s| && !Spells(s, i, "..")
    requires !Spells(s, i, "->") && !Spells(s, i, "==") && !Spells(s, i, "!=") && !Spells(s, i, "<=")
    requires !Spells(s, i, ">=") && !Spells(s, i, "&&") && !Spells(s, i, "||") && !Spells(s, i, "<<")
    requires !Spells(s, i, ">>") && !Spells(s, i, "+=") && !Spells(s, i, "-=") && !Spells(s, i, "*=")
    requires !Spells(s, i, "/=") && !Spells(s, i, "%=") && !Spells(s, i, "&=") && !Spells(s, i, "|=")
    requires !Spells(s, i, "^=") && !Spells(s, i, "++") && !Spells(s, i, "--")
    ensures Operator(s, i) == (Punct, i + 1)
  {
    if i + 1 < |s| {
      var c, d := s[i], s[i + 1];
      assert !(c == '-' && d == '>') by { assert Spells(s, i, "->") <==> c == '-' && d == '>'; }
      assert !(c == '=' && d == '=') by { assert Spells(s, i, "==") <==> c == '=' && d == '='; }
      assert !(c == '!' && d == '=') by { assert Spells(s, i, "!=") <==> c == '!' && d == '='; }
      assert !(c == '<' && d == '=') by { assert Spells(s, i, "<=") <==> c == '<' && d == '='; }
      assert !(c == '>' && d == '=') by { assert Spells(s, i, ">=") <==> c == '>' && d == '='; }
      assert !(c == '&' && d == '&') by { assert Spells(s, i, "&&") <==> c == '&' && d == '&'; }
      assert !(c == '|' && d == '|') by { assert Spells(s, i, "||") <==> c == '|' && d == '|'; }
      assert !(c == '<' && d == '<') by { assert Spells(s, i, "<<") <==> c == '<' && d == '<'; }
      assert !(c == '>' && d == '>') by { assert Spells(s, i, ">>") <==> c == '>' && d == '>'; }
      assert !(c == '+' && d == '=') by { assert Spells(s, i, "+=") <==> c == '+' && d == '='; }
      assert !(c == '-' && d == '=') by { assert Spells(s, i, "-=") <==> c == '-' && d == '='; }
      assert !(c == '*' && d == '=') by { assert Spells(s, i, "*=") <==> c == '*' && d == '='; }
      assert !(c == '/' && d == '=') by { assert Spells(s, i, "/=") <==> c == '/' && d == '='; }
      assert !(c == '%' && d == '=') by { assert Spells(s, i, "%=") <==> c == '%' && d == '='; }
      assert !(c == '&' && d == '=') by { assert Spells(s, i, "&=") <==> c == '&' && d == '='; }
      assert !(c == '|' && d == '=') by { assert Spells(s, i, "|=") <==> c == '|' && d == '='; }
      assert !(c == '^' && d == '=') by { assert Spells(s, i, "^=") <==> c == '^' && d == '='; }
      assert !(c == '+' && d == '+') by { assert Spells(s, i, "++") <==> c == '+' && d == '+'; }
      assert !(c == '-' && d == '-') by { assert Spells(s, i, "--") <==> c == '-' && d == '-'; }
    }
  }

  // -------------------------------------------------------------------- tokens

  /** Which token begins at i, by its first characters, and where it ends. */
  lemma ScanLaw(s: string, i: nat)
    requires i < |s|
    ensures var (kind, e) := Scan(s, i); var c := s[i];
            if c in " \t\r" then kind == Space && Longest(s, " \t\r", i, e)
            else if c == '\n' then kind == Newline && e == i + 1
            else if Spells(s, i, "//") then kind == LineComment && i < e <= |s| && '\n' !in s[i..e] && (e < |s| ==> s[e] == '\n')
            else if Spells(s, i, "/*") then kind == BlockComment && CommentTo(s, i + 2, e)
            else if c == '"' then kind == Str && QuotedTo(s, i + 1, '"', e)
            else if c == '\'' then kind == CharLit && QuotedTo(s, i + 1, '\'', e)
            else if c in DIGITS then kind == Number && e == NumberEnd(s, i)
            else if c in LOWER + UPPER + "_" then kind == Word && Longest(s, LOWER + UPPER + "_" + DIGITS, i, e)
            else (kind, e) == Operator(s, i)
  {
    hide Longest, CommentTo, QuotedTo, NumberEnd, Operator, CommentEnd, QuoteEnd, IsDigit, IsWordStart;
    Classes(s[i]);
    SpellsTwo(s, i, "//");
    SpellsTwo(s, i, "/*");
    RunLaw(s, i);
    QuoteLaw(s, i + 1, '"');
    QuoteLaw(s, i + 1, '\'');
    if Spells(s, i, "/*") { CommentLaw(s, i + 2); }
  }
}
