/** The text operations of Rust's str that the package database uses. */
module PackageText {

  /** What a trimming call strips. */
  datatype Class = Space | Exactly(c: char)

  /** char::is_whitespace: the Unicode White_Space characters. */
  predicate IsSpace(c: char) {
    var n := c as int;
    || 0x9 <= n <= 0xD || n == 0x20 || n == 0x85 || n == 0xA0 || n == 0x1680
    || 0x2000 <= n <= 0x200A || n == 0x2028 || n == 0x2029 || n == 0x202F || n == 0x205F || n == 0x3000
  }

  predicate In(c: char, k: Class) {
    match k
    case Space => IsSpace(c)
    case Exactly(d) => c == d
  }

  /** The first place from i on that is not in the class, or |s|. */
  function Skip(s: string, k: Class, i: nat): (a: nat)
    requires i <= |s|
    ensures i <= a <= |s| && (a < |s| ==> !In(s[a], k)) && forall j :: i <= j < a ==> In(s[j], k)
    decreases |s| - i
  {
    if i < |s| && In(s[i], k) then Skip(s, k, i + 1) else i
  }

  /** The end of s[..n] once trailing characters of the class are dropped. */
  function Back(s: string, k: Class, n: nat): (b: nat)
    requires n <= |s|
    ensures b <= n && (b > 0 ==> !In(s[b - 1], k)) && forall j :: b <= j < n ==> In(s[j], k)
    decreases n
  {
    if n > 0 && In(s[n - 1], k) then Back(s, k, n - 1) else n
  }

  function TrimStart(s: string, k: Class): string { s[Skip(s, k, 0)..] }

  function TrimEnd(s: string, k: Class): string { s[..Back(s, k, |s|)] }

  /** Both ends: trim() and trim_matches. */
  function Trim(s: string, k: Class): string {
    var a, b := Skip(s, k, 0), Back(s, k, |s|);
    if a == |s| then "" else s[a..b]
  }

  /** The first place of c from i on, or |s|. */
  function FindFrom(s: string, c: char, i: nat): (p: nat)
    requires i <= |s|
    ensures i <= p <= |s| && (p < |s| ==> s[p] == c) && forall j :: i <= j < p ==> s[j] != c
    decreases |s| - i
  {
    if i == |s| || s[i] == c then i else FindFrom(s, c, i + 1)
  }

  function Find(s: string, c: char): nat { FindFrom(s, c, 0) }

  /** split(c): always at least one piece. */
  function Split(s: string, c: char): seq<string>
    decreases |s|
  {
    var i := Find(s, c);
    if i == |s| then [s] else [s[..i]] + Split(s[i + 1..], c)
  }

  function StripReturn(s: string): string {
    if s != "" && s[|s| - 1] == '\r' then s[..|s| - 1] else s
  }

  /** lines(): no empty last line, and a carriage return before the line feed goes with it. */
  function Lines(s: string): seq<string>
    decreases |s|
  {
    if s == "" then []
    else
      var i := Find(s, '\n');
      if i == |s| then [s] else [StripReturn(s[..i])] + Lines(s[i + 1..])
  }

  // ------------------------------------------------------------------ lemmas

  /** Trimming drops exactly what the class covers on both sides of a core. */
  lemma TrimCore(pre: string, core: string, post: string, k: Class)
    requires core != "" && !In(core[0], k) && !In(core[|core| - 1], k)
    requires forall c :: c in pre || c in post ==> In(c, k)
    ensures Trim(pre + core + post, k) == core
  {
    var s := pre + core + post;
    var a, b := Skip(s, k, 0), Back(s, k, |s|);
    assert s[|pre|] == core[0] && s[|pre| + |core| - 1] == core[|core| - 1];
    assert forall j :: 0 <= j < |pre| ==> s[j] == pre[j];
    assert forall j :: |pre| + |core| <= j < |s| ==> s[j] == post[j - |pre| - |core|];
    assert a == |pre| && b == |pre| + |core|;
  }

  lemma TrimAll(s: string, k: Class)
    requires forall c :: c in s ==> In(c, k)
    ensures Trim(s, k) == ""
  {
    assert forall j :: 0 <= j < |s| ==> s[j] in s;
  }

  lemma FindIs(s: string, c: char, i: nat)
    requires i <= |s| && (i < |s| ==> s[i] == c) && forall j :: 0 <= j < i ==> s[j] != c
    ensures Find(s, c) == i
  {
  }

  /** A printed line is read back as itself. */
  lemma LinesCons(line: string, rest: string)
    requires '\n' !in line && (line != "" ==> line[|line| - 1] != '\r')
    ensures Lines(line + "\n" + rest) == [line] + Lines(rest)
  {
    var s := line + "\n" + rest;
    FindIs(s, '\n', |line|);
    assert s[..|line|] == line && s[|line| + 1..] == rest;
  }

  /** A piece without the separator comes off the front of a split. */
  lemma SplitCons(piece: string, rest: string, c: char)
    requires c !in piece
    ensures Split(piece + [c] + rest, c) == [piece] + Split(rest, c)
    ensures Split(piece, c) == [piece]
  {
    var s := piece + [c] + rest;
    FindIs(s, c, |piece|);
    assert s[..|piece|] == piece && s[|piece| + 1..] == rest;
    FindIs(piece, c, |piece|);
  }

  lemma {:induction false} LinesAreLines(s: string)
    ensures forall k :: 0 <= k < |Lines(s)| ==> '\n' !in Lines(s)[k]
    decreases |s|
  {
    var i := Find(s, '\n');
    if i < |s| { LinesAreLines(s[i + 1..]); }
  }

  /** No piece of a split holds the separator, or a character the text does not hold. */
  lemma {:induction false} SplitKeepsOut(s: string, c: char, d: char)
    requires d == c || d !in s
    ensures forall k :: 0 <= k < |Split(s, c)| ==> d !in Split(s, c)[k]
    decreases |s|
  {
    var i := Find(s, c);
    if i < |s| { SplitKeepsOut(s[i + 1..], c, d); }
  }

  /** Trimmed text is free of the class at both ends and holds no new character. */
  lemma TrimIs(s: string, k: Class)
    ensures var r := Trim(s, k); r == "" || (!In(r[0], k) && !In(r[|r| - 1], k))
    ensures forall c :: c in Trim(s, k) ==> c in s
  {
  }
}
