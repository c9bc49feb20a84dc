/** itoa and strtol of lib/libflame/string.c, and what one undoes of the other. */
module NumberText {
  import opened Common

  const INT_MIN: int := -0x8000_0000
  const LONG_LIMIT: int := 0x8000_0000_0000_0000

  /** The range of a 32-bit int. */
  predicate IsInt(v: int) { INT_MIN <= v < 0x8000_0000 }

  /** itoa is defined: in base 10 it negates negative numbers, which INT_MIN does not allow in C. */
  predicate Defined(val: int, base: int) { IsInt(val) && (base == 10 ==> val != INT_MIN) }

  function Quotient(n: nat, b: nat): (q: nat)
    requires b >= 2
    ensures n > 0 ==> q < n
    ensures q == 0 <==> n < b
  {
    n / b
  }

  function Remainder(n: nat, b: nat): (r: nat)
    requires b >= 2
    ensures r < b && n == Quotient(n, b) * b + r
  {
    n % b
  }

  /** The character for a digit below 36. */
  function Digit(d: nat): char
    requires d < 36
  {
    if d < 10 then '0' + d as char else 'a' + (d - 10) as char
  }

  /** The digits of n, most significant first. */
  function Digits(n: nat, b: nat): (s: string)
    requires 2 <= b <= 36
    ensures s != ""
    decreases n
  {
    if n < b then [Digit(n)] else Digits(Quotient(n, b), b) + [Digit(Remainder(n, b))]
  }

  /** What itoa converts: only base 10 is signed, the other bases print the 32-bit pattern. */
  function Magnitude(val: int, base: int): nat
    requires IsInt(val)
  {
    if val >= 0 then val else if base == 10 then -val else val + TWO32
  }

  function Itoa(val: int, base: int): string
    requires IsInt(val)
  {
    if base < 2 || base > 36 then ""
    else (if val < 0 && base == 10 then "-" else "") + Digits(Magnitude(val, base), base)
  }

  // ------------------------------------------------------------------ strtol

  /** The value of a digit character, or -1; hexadecimal is as far as it goes. */
  function DigitOf(c: char): int {
    if '0' <= c <= '9' then c as int - '0' as int
    else if 'a' <= c <= 'f' then c as int - 'a' as int + 10
    else if 'A' <= c <= 'F' then c as int - 'A' as int + 10
    else -1
  }

  function SkipBlanks(s: string, i: nat): (k: nat)
    requires i <= |s|
    ensures i <= k <= |s|
    decreases |s| - i
  {
    if i < |s| && (s[i] == ' ' || s[i] == '\t') then SkipBlanks(s, i + 1) else i
  }

  predicate HasHexMark(s: string, i: nat) {
    i + 1 < |s| && s[i] == '0' && (s[i + 1] == 'x' || s[i + 1] == 'X')
  }

  /** Where the digits start and in which base, after the sign. */
  function Prefix(s: string, i: nat, base: int): (r: (nat, int))
    requires i <= |s|
    ensures i <= r.0 <= |s|
  {
    if base == 0 then
      if HasHexMark(s, i) then (i + 2, 16) else if i < |s| && s[i] == '0' then (i + 1, 8) else (i, 10)
    else if base == 16 && HasHexMark(s, i) then (i + 2, 16)
    else (i, base)
  }

  /** The digits from i on: their value after acc, and where they end. */
  function Scan(s: string, i: nat, b: int, acc: int): (r: (int, nat))
    requires i <= |s|
    ensures i <= r.1 <= |s|
    decreases |s| - i
  {
    if i == |s| || DigitOf(s[i]) < 0 || DigitOf(s[i]) >= b then (acc, i)
    else Scan(s, i + 1, b, acc * b + DigitOf(s[i]))
  }

  function SignAt(s: string, i: nat): (r: (bool, nat))
    requires i <= |s|
    ensures i <= r.1 <= |s|
  {
    if i < |s| && s[i] == '-' then (true, i + 1) else if i < |s| && s[i] == '+' then (false, i + 1) else (false, i)
  }

  /** The value and the end position. */
  function Strtol(s: string, base: int): (int, nat) {
    var (neg, i) := SignAt(s, SkipBlanks(s, 0));
    var (start, b) := Prefix(s, i, base);
    var (v, end) := Scan(s, start, b, 0);
    (if neg then -v else v, end)
  }

  // ------------------------------------------------------------- round trips

  /** No digit of n in base b is above 15. */
  predicate Low(n: nat, b: nat)
    requires b >= 2
    decreases n
  {
    if n < b then n < 16 else Low(Quotient(n, b), b) && Remainder(n, b) < 16
  }

  lemma {:induction false} HexIsLow(n: nat, b: nat)
    requires 2 <= b <= 16
    ensures Low(n, b)
    decreases n
  {
    if n >= b { HexIsLow(Quotient(n, b), b); }
  }

  lemma DigitRoundTrip(d: nat)
    requires d < 36
    ensures DigitOf(Digit(d)) == if d < 16 then d else -1
  {
  }

  lemma {:induction false} ScanSnoc(s: string, c: char, i: nat, b: int, acc: int)
    requires i <= |s|
    ensures var (v, e) := Scan(s, i, b, acc);
            Scan(s + [c], i, b, acc) ==
              if e == |s| && 0 <= DigitOf(c) < b then (v * b + DigitOf(c), e + 1) else (v, e)
    decreases |s| - i
  {
    if i < |s| && 0 <= DigitOf(s[i]) < b { ScanSnoc(s, c, i + 1, b, acc * b + DigitOf(s[i])); }
  }

  /** Scanning the digits of n gives n and reaches their end, unless a digit is above 15; then it
      stops before the end. */
  lemma {:induction false} ScanDigits(pre: string, n: nat, b: nat)
    requires 2 <= b <= 36
    ensures var s := pre + Digits(n, b);
            if Low(n, b) then Scan(s, |pre|, b, 0) == (n, |s|) else Scan(s, |pre|, b, 0).1 < |s|
    decreases n
  {
    if n < b {
      DigitRoundTrip(n);
    } else {
      var q, r := Quotient(n, b), Remainder(n, b);
      ScanDigits(pre, q, b);
      DigitRoundTrip(r);
      ScanSnoc(pre + Digits(q, b), Digit(r), |pre|, b, 0);
      assert pre + Digits(n, b) == pre + Digits(q, b) + [Digit(r)];
    }
  }

  lemma {:induction false} DigitsAreDigits(n: nat, b: nat)
    requires 2 <= b <= 36
    ensures forall i :: 0 <= i < |Digits(n, b)| ==>
              var c := Digits(n, b)[i]; ('0' <= c <= '9' || 'a' <= c <= 'z') && (b <= 16 ==> c <= 'f')
    decreases n
  {
    if n >= b { DigitsAreDigits(Quotient(n, b), b); }
  }

  lemma StartsAtDigits(val: int, base: int)
    requires IsInt(val) && 2 <= base <= 36
    ensures var s := Itoa(val, base);
            var pre := if val < 0 && base == 10 then "-" else "";
            var neg := val < 0 && base == 10;
            && SignAt(s, SkipBlanks(s, 0)) == (neg, |pre|) && Prefix(s, |pre|, base) == (|pre|, base)
            && s == pre + Digits(Magnitude(val, base), base)
  {
    var d := Digits(Magnitude(val, base), base);
    DigitsAreDigits(Magnitude(val, base), base);
    assert "" + d == d;
  }

  /** What strtol makes of itoa's text: negative numbers come back as their 32-bit pattern except in
      base 10. */
  function Back(val: int, base: int): int {
    if val < 0 && base != 10 then val + TWO32 else val
  }

  /** strtol reads all of itoa's text, and back to Back(val, base), exactly when no digit is above 15. */
  lemma ReadsBack(val: int, base: int)
    requires Defined(val, base) && 2 <= base <= 36
    ensures var s := Itoa(val, base);
            && (Strtol(s, base) == (Back(val, base), |s|) <==> Low(Magnitude(val, base), base))
            && (Strtol(s, base).1 == |s| <==> Low(Magnitude(val, base), base))
  {
    StartsAtDigits(val, base);
    ScanDigits(if val < 0 && base == 10 then "-" else "", Magnitude(val, base), base);
  }

  /** strtol inverts itoa exactly for non-negative numbers and base 10, as long as no digit is above 15;
      in bases 2 to 16 none is. */
  lemma RoundTrip(val: int, base: int)
    requires Defined(val, base) && 2 <= base <= 36
    ensures var s := Itoa(val, base);
            Strtol(s, base) == (val, |s|) <==> (val >= 0 || base == 10) && Low(Magnitude(val, base), base)
    ensures base <= 16 ==> Strtol(Itoa(val, base), base) == (Back(val, base), |Itoa(val, base)|)
  {
    ReadsBack(val, base);
    if base <= 16 { HexIsLow(Magnitude(val, base), base); }
  }

  // ------------------------------------------------------------- the program

  lemma DigitsLength(n: nat, b: nat, k: nat)
    requires 2 <= b <= 36 && n < Power(k) && k > 0
    ensures |Digits(n, b)| <= k
    decreases n
  {
    if n >= b {
      assert Quotient(n, b) < Power(k - 1) && k > 1 by { HalfBelow(n, b, Power(k - 1)); }
      DigitsLength(Quotient(n, b), b, k - 1);
    }
  }

  lemma AtLeastTwice(q: nat, b: nat)
    requires b >= 2
    ensures 2 * q <= q * b
  {
  }

  lemma HalfBelow(n: nat, b: nat, p: nat)
    requires b >= 2 && n < 2 * p
    ensures Quotient(n, b) < p
  {
    var q, r := Quotient(n, b), Remainder(n, b);
    AtLeastTwice(q, b);
    assert n == q * b + r;
  }

  function Power(k: nat): nat { if k == 0 then 1 else 2 * Power(k - 1) }

  lemma Power32()
    ensures Power(32) == TWO32
  {
    assert Power(8) == 256;
    assert Power(16) == 0x1_0000;
    assert Power(24) == 0x100_0000;
  }

  /** itoa: the text in buf, ended by NUL. Negating INT_MIN is undefined in C. */
  method ItoaTo(val: int, buf: array<char>, base: int)
    requires Defined(val, base)
    requires |Itoa(val, base)| < buf.Length
    modifies buf
    ensures buf[..|Itoa(val, base)|] == Itoa(val, base) && buf[|Itoa(val, base)|] == '\0'
  {
    if base < 2 || base > 36 { buf[0] := '\0'; return; }
    var neg := val < 0 && base == 10;
    var uval: nat := if neg then -val else if val < 0 then val + TWO32 else val;
    var tmp, i := Backwards(uval, base);
    if neg { tmp[i] := '-'; i := i + 1; }
    ghost var text := Itoa(val, base);
    assert |text| == i && forall k :: 0 <= k < i ==> tmp[k] == text[i - 1 - k];
    Reverse(tmp, i, buf);
    buf[i] := '\0';
  }

  /** The copy loop of itoa. */
  method Reverse(tmp: array<char>, n: nat, buf: array<char>)
    requires n <= tmp.Length && n <= buf.Length && tmp != buf
    modifies buf
    ensures forall k :: 0 <= k < n ==> buf[k] == tmp[n - 1 - k]
  {
    var i, j := n, 0;
    while i > 0
      invariant 0 <= i && i + j == n
      invariant forall k :: 0 <= k < j ==> buf[k] == tmp[n - 1 - k]
    {
      i := i - 1;
      buf[j] := tmp[i];
      j := j + 1;
    }
  }

  /** The digits still to come: none of 0. */
  ghost function Left(n: nat, b: nat): string
    requires 2 <= b <= 36
  {
    if n == 0 then "" else Digits(n, b)
  }

  lemma LeftStep(n: nat, b: nat)
    requires 2 <= b <= 36 && n > 0
    ensures Left(n, b) == Left(Quotient(n, b), b) + [Digit(Remainder(n, b))]
  {
    assert n < b ==> Remainder(n, b) == n;
  }

  /** The last digit still to come. */
  lemma LastLeft(text: string, m: nat, n: nat, b: nat)
    requires 2 <= b <= 36 && n > 0 && m <= |text| && text[..m] == Left(n, b)
    ensures m > 0 && text[m - 1] == Digit(Remainder(n, b)) && text[..m - 1] == Left(Quotient(n, b), b)
  {
    LeftStep(n, b);
    assert text[m - 1] == text[..m][m - 1] && text[..m - 1] == text[..m][..m - 1];
  }

  /** The digit loop: the digits of uval, least significant first. */
  method Backwards(uval: nat, base: nat) returns (tmp: array<char>, i: nat)
    requires 2 <= base <= 36 && uval < TWO32
    ensures fresh(tmp) && tmp.Length == 64 && i == |Digits(uval, base)| <= 32
    ensures forall k :: 0 <= k < i ==> tmp[k] == Digits(uval, base)[i - 1 - k]
  {
    tmp := new char[64];
    ghost var text := Digits(uval, base);
    Power32();
    DigitsLength(uval, base, 32);
    i := 0;
    if uval == 0 { tmp[0] := '0'; i := 1; return; }
    var n := uval;
    assert text[..|text|] == Left(n, base);
    hide Digits, Left;
    while n > 0
      invariant i <= |text| && forall k :: 0 <= k < i ==> tmp[k] == text[|text| - 1 - k]
      invariant text[..|text| - i] == Left(n, base)
    {
      LastLeft(text, |text| - i, n, base);
      var rem := Remainder(n, base);
      tmp[i] := if rem < 10 then '0' + rem as char else 'a' + (rem - 10) as char;
      i := i + 1;
      n := Quotient(n, base);
    }
  }

  method SkipBlanksIn(s: string) returns (i: nat)
    ensures i == SkipBlanks(s, 0)
  {
    i := 0;
    while i < |s| && (s[i] == ' ' || s[i] == '\t')
      invariant i <= |s| && SkipBlanks(s, 0) == SkipBlanks(s, i)
    {
      i := i + 1;
    }
  }

  method ScanFrom(s: string, start: nat, b: int) returns (result: int, i: nat)
    requires start <= |s|
    ensures (result, i) == Scan(s, start, b, 0)
  {
    result, i := 0, start;
    while i < |s|
      invariant start <= i <= |s| && Scan(s, start, b, 0) == Scan(s, i, b, result)
    {
      var digit := DigitOf(s[i]);
      if digit < 0 || digit >= b { break; }
      result := result * b + digit;
      i := i + 1;
    }
  }

  /** strtol: signed overflow of a long is undefined in C, so the value must fit. */
  method StrtolOf(s: string, base: int) returns (value: int, end: nat)
    requires '\0' !in s && -LONG_LIMIT < Strtol(s, base).0 < LONG_LIMIT
    ensures (value, end) == Strtol(s, base)
  {
    var i := SkipBlanksIn(s);
    var neg := false;
    if i < |s| && s[i] == '-' { neg := true; i := i + 1; } else if i < |s| && s[i] == '+' { i := i + 1; }
    var b := base;
    if b == 0 {
      if HasHexMark(s, i) { b := 16; i := i + 2; }
      else if i < |s| && s[i] == '0' { b := 8; i := i + 1; }
      else { b := 10; }
    } else if b == 16 && HasHexMark(s, i) {
      i := i + 2;
    }
    var result, e := ScanFrom(s, i, b);
    value, end := if neg then -result else result, e;
  }
}
