/** What strtol reads and itoa prints, by place value. */
module NumberLaws {
  import opened Common
  import opened NumberText

  const DIGITS: string := "0123456789abcdefghijklmnopqrstuvwxyz"

  /** The sixteen digits strtol knows, in either case, and no other. */
  lemma DigitTable(c: char)
    ensures forall d :: 0 <= d < 16 ==> DigitOf("0123456789abcdef"[d]) == d && DigitOf("0123456789ABCDEF"[d]) == d
    ensures c !in "0123456789abcdefABCDEF" ==> DigitOf(c) == -1
  {
    if DigitOf(c) != -1 {
      var all := "0123456789abcdefABCDEF";
      var k := if '0' <= c <= '9' then c as int - '0' as int else if 'a' <= c <= 'f' then c as int - 'a' as int + 10 else c as int - 'A' as int + 16;
      assert all[k] == c;
    }
  }

  function Pow(b: nat, k: nat): nat { if k == 0 then 1 else b * Pow(b, k - 1) }

  /** All characters are digits of base b. */
  predicate InBase(ds: string, b: nat) { forall k :: 0 <= k < |ds| ==> 0 <= DigitOf(ds[k]) < b }

  /** The value of digits by place: the first of n counts b^(n - 1). */
  function PlaceValue(ds: string, b: nat): nat
    requires InBase(ds, b)
  {
    if ds == "" then 0 else DigitOf(ds[0]) * Pow(b, |ds| - 1) + PlaceValue(ds[1..], b)
  }

  /** Scanning digits, up to the first character that is none, adds their value to what came before. */
  lemma {:induction false} ScanValue(pre: string, ds: string, tail: string, b: nat, acc: nat)
    requires InBase(ds, b) && (tail != "" ==> !(0 <= DigitOf(tail[0]) < b))
    ensures Scan(pre + ds + tail, |pre|, b, acc) == (acc * Pow(b, |ds|) + PlaceValue(ds, b), |pre| + |ds|)
    decreases |ds|
  {
    var s := pre + ds + tail;
    if ds == "" {
      assert |pre| < |s| ==> s[|pre|] == tail[0];
    } else {
      var d, rest := DigitOf(ds[0]), ds[1..];
      assert s[|pre|] == ds[0];
      assert s == (pre + [ds[0]]) + rest + tail;
      ScanValue(pre + [ds[0]], rest, tail, b, acc * b + d);
      Horner(acc, b, d, Pow(b, |rest|), PlaceValue(rest, b));
    }
  }

  lemma Horner(acc: nat, b: nat, d: nat, p: nat, v: nat)
    ensures (acc * b + d) * p + v == acc * (b * p) + (d * p + v)
  {
    assert (acc * b) * p == acc * (b * p);
  }

  // ------------------------------------------------------------------ strtol

  /** How a prefix says in which base the rest is read. */
  predicate Prefixed(prefix: string, rest: string, base: nat, b: nat) {
    var hex := prefix == "0x" || prefix == "0X";
    if base == 0 then
      || (hex && b == 16)
      || (prefix == "0" && b == 8 && (rest != "" ==> rest[0] != 'x' && rest[0] != 'X'))
      || (prefix == "" && b == 10 && (rest != "" ==> rest[0] != '0'))
    else if base == 16 then
      b == 16 && (hex || (prefix == "" && !(|rest| > 1 && rest[0] == '0' && (rest[1] == 'x' || rest[1] == 'X'))))
    else prefix == "" && b == base
  }

  predicate Blanks(s: string) { forall k :: 0 <= k < |s| ==> s[k] == ' ' || s[k] == '\t' }

  lemma {:induction false} BlanksSkipped(s: string, i: nat, n: nat)
    requires i <= n <= |s| && Blanks(s[i..n]) && (n < |s| ==> s[n] != ' ' && s[n] != '\t')
    ensures SkipBlanks(s, i) == n
    decreases n - i
  {
    if i < n {
      assert s[i] == s[i..n][0];
      assert s[i + 1..n] == s[i..n][1..];
      BlanksSkipped(s, i + 1, n);
    }
  }

  /** What follows the sign cannot be taken for a blank or a sign when there is none. */
  predicate Unambiguous(sign: string, prefix: string, rest: string) {
    sign == "" && prefix == "" && rest != "" ==> rest[0] != ' ' && rest[0] != '\t' && rest[0] != '-' && rest[0] != '+'
  }

  /** BLANKS SIGN PREFIX DIGITS and anything behind: the value of the digits in the base the prefix says,
      with its sign, and the place behind them. */
  lemma StrtolValue(blanks: string, sign: string, prefix: string, ds: string, tail: string, base: nat, b: nat)
    requires Blanks(blanks) && (sign == "" || sign == "-" || sign == "+") && Prefixed(prefix, ds + tail, base, b)
    requires InBase(ds, b) && (tail != "" ==> !(0 <= DigitOf(tail[0]) < b)) && Unambiguous(sign, prefix, ds + tail)
    ensures var v: int := PlaceValue(ds, b);
            Strtol(blanks + sign + prefix + ds + tail, base) == (if sign == "-" then -v else v, |blanks| + |sign| + |prefix| + |ds|)
  {
    hide InBase, Prefixed, PlaceValue, Blanks, Scan, Prefix, SkipBlanks, Unambiguous, DigitOf;
    var s := blanks + sign + prefix + ds + tail;
    var i, j := |blanks|, |blanks| + |sign|;
    assert prefix == "" || prefix[0] == '0' by { PrefixStarts(prefix, ds + tail, base, b); }
    Parts(blanks, sign, prefix, ds, tail);
    BlanksSkipped(s, 0, i);
    assert SignAt(s, i) == (sign == "-", j);
    PrefixIs(s, j, prefix, ds + tail, base, b);
    ScanValue(blanks + sign + prefix, ds, tail, b, 0);
  }

  lemma PrefixStarts(prefix: string, rest: string, base: nat, b: nat)
    requires Prefixed(prefix, rest, base, b)
    ensures prefix == "" || prefix[0] == '0'
  {
  }

  /** In a negative base no character is a digit. */
  lemma NegativeBase(s: string, base: int)
    requires base < 0
    ensures Strtol(s, base) == (0, SignAt(s, SkipBlanks(s, 0)).1)
  {
  }

  lemma Parts(blanks: string, sign: string, prefix: string, ds: string, tail: string)
    requires Blanks(blanks) && (sign == "" || sign == "-" || sign == "+")
    requires (prefix == "" || prefix[0] == '0') && Unambiguous(sign, prefix, ds + tail)
    ensures var s := blanks + sign + prefix + ds + tail; var i, j := |blanks|, |blanks| + |sign|;
            && s[0..i] == blanks && s[j..] == prefix + (ds + tail)
            && (i < |s| ==> s[i] != ' ' && s[i] != '\t')
            && (sign != "" ==> s[i] == sign[0]) && (sign == "" && i < |s| ==> s[i] != '-' && s[i] != '+')
  {
    var s := blanks + sign + prefix + ds + tail;
    assert s == blanks + (sign + (prefix + (ds + tail)));
    var i := |blanks|;
    if i < |s| {
      assert s[i] == (sign + (prefix + (ds + tail)))[0];
    }
  }

  lemma PrefixIs(s: string, j: nat, prefix: string, rest: string, base: nat, b: nat)
    requires j <= |s| && s[j..] == prefix + rest && Prefixed(prefix, rest, base, b)
    ensures Prefix(s, j, base) == (j + |prefix|, b)
  {
    var t := s[j..];
    assert |t| > 0 ==> s[j] == t[0];
    assert |t| > 1 ==> s[j + 1] == t[1];
  }

  // -------------------------------------------------------------------- itoa

  /** The digit characters of every base up to 36. */
  lemma DigitIs(d: nat)
    requires d < 36
    ensures Digit(d) == DIGITS[d]
  {
  }

  /** Where the digit stands among the 36. */
  function Rank(c: char): nat { if '0' <= c <= '9' then c as nat - '0' as nat else if 'a' <= c <= 'z' then c as nat - 'a' as nat + 10 else 99 }

  lemma RankIs(d: nat)
    requires d < 36
    ensures Rank(DIGITS[d]) == d
  {
  }

  function RankValue(ds: string, b: nat): nat {
    if ds == "" then 0 else RankValue(ds[..|ds| - 1], b) * b + Rank(ds[|ds| - 1])
  }

  /** In every base, itoa's digits have the value of the number, each below the base, and no zero leads. */
  lemma {:induction false} DigitsValue(n: nat, b: nat)
    requires 2 <= b <= 36
    ensures RankValue(Digits(n, b), b) == n
    ensures forall k :: 0 <= k < |Digits(n, b)| ==> Rank(Digits(n, b)[k]) < b
    ensures n > 0 ==> Digits(n, b)[0] != '0'
    decreases n
  {
    if n < b {
      DigitIs(n);
      RankIs(n);
      assert RankValue("", b) == 0;
    } else {
      var q, r := Quotient(n, b), Remainder(n, b);
      DigitsValue(q, b);
      DigitIs(r);
      RankIs(r);
      var ds := Digits(n, b);
      assert ds[..|ds| - 1] == Digits(q, b);
      assert q > 0;
    }
  }

  /** itoa prints a sign in base 10 only; in the other bases a negative number is its 32-bit pattern. */
  lemma ItoaText(val: int, base: int)
    requires IsInt(val)
    ensures Itoa(val, base) ==
              if base < 2 || base > 36 then ""
              else if val >= 0 then Digits(val, base)
              else if base == 10 then "-" + Digits(-val, 10)
              else Digits(val + 4294967296, base)
  {
    if 2 <= base <= 36 { assert "" + Digits(Magnitude(val, base), base) == Digits(Magnitude(val, base), base); }
  }
}
