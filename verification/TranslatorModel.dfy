/** The translation pass of tools/s-lang/sc.c over a token array: each step takes the tokens from a
    position on and gives the position after them and the text emitted for them. */
module TranslatorModel {
  import opened LexerModel

  /** The new position and the text emitted. */
  datatype Step = Step(pos: nat, text: string)

  /** A range-for: the position after its head, the variable, and the bounds. */
  datatype Range = NoRange | Range(pos: nat, v: string, start: string, inclusive: bool, end: string)

  const NO_TOKEN: Token := Token(Eof, "", 0, 0)

  /** Only the last token is the end mark. */
  predicate Ended(ts: seq<Token>) {
    ts != [] && ts[|ts| - 1].kind == Eof && forall i :: 0 <= i < |ts| - 1 ==> ts[i].kind != Eof
  }

  function Look(ts: seq<Token>, p: nat): Token { if p < |ts| then ts[p] else NO_TOKEN }

  predicate IsWord(t: Token, word: string) { t.kind == Word && t.text == word }

  predicate IsPunct(t: Token, c: char) { t.kind == Punct && t.text != "" && t.text[0] == c }

  /** translate_type; "" where it returns NULL. */
  function Alias(word: string): string {
    if word == "str" then "char*"
    else if word == "byte" then "uint8_t"
    else if word == "i8" then "int8_t"
    else if word == "i16" then "int16_t"
    else if word == "i32" then "int32_t"
    else if word == "i64" then "int64_t"
    else if word == "u8" then "uint8_t"
    else if word == "u16" then "uint16_t"
    else if word == "u32" then "uint32_t"
    else if word == "u64" then "uint64_t"
    else if word == "f32" then "float"
    else if word == "f64" then "double"
    else if word == "usize" then "size_t"
    else if word == "isize" then "ssize_t"
    else ""
  }

  predicate IsAlias(t: Token) { t.kind == Word && Alias(t.text) != "" }

  /** A token with its type alias replaced. */
  function Mapped(t: Token): string { if IsAlias(t) then Alias(t.text) else t.text }

  function SkipSpaces(ts: seq<Token>, p: nat): (q: nat)
    requires p <= |ts|
    ensures p <= q <= |ts| && (p < |ts| && ts[|ts| - 1].kind != Space ==> q < |ts|)
    decreases |ts| - p
  {
    if p < |ts| && ts[p].kind == Space then SkipSpaces(ts, p + 1) else p
  }

  function TrimBlanks(s: string): string {
    if s != "" && (s[|s| - 1] == ' ' || s[|s| - 1] == '\t') then TrimBlanks(s[..|s| - 1]) else s
  }

  // ----------------------------------------------------------------------- fn

  /** Parameters after the opening parenthesis, up to the one that closes it. */
  function Params(ts: seq<Token>, p: nat, depth: nat): (r: Step)
    requires p <= |ts| && depth > 0
    ensures p <= r.pos <= |ts|
    decreases |ts| - p
  {
    if p == |ts| || ts[p].kind == Eof then Step(p, "")
    else if IsPunct(ts[p], ')') && depth == 1 then Step(p + 1, ")")
    else
      var d := if IsPunct(ts[p], '(') then depth + 1 else if IsPunct(ts[p], ')') then depth - 1 else depth;
      var rest := Params(ts, p + 1, d);
      Step(rest.pos, Mapped(ts[p]) + rest.text)
  }

  /** The return type after the arrow, up to a brace, semicolon, line end or end. */
  function ReturnType(ts: seq<Token>, p: nat): (r: Step)
    requires p <= |ts|
    ensures p <= r.pos <= |ts|
    decreases |ts| - p
  {
    if p == |ts| || ts[p].kind == Eof || IsPunct(ts[p], '{') || IsPunct(ts[p], ';') || ts[p].kind == Newline then Step(p, "")
    else var rest := ReturnType(ts, p + 1); Step(rest.pos, Mapped(ts[p]) + rest.text)
  }

  /** The part of a function declaration from its parameter list on. */
  function Signature(ts: seq<Token>, p: nat, name: string): (r: Step)
    requires p < |ts|
    ensures p < r.pos <= |ts|
  {
    var params := Params(ts, p + 1, 1);
    var list := "(" + params.text;
    var q := SkipSpaces(ts, params.pos);
    if Look(ts, q).kind == Arrow then
      var ret := ReturnType(ts, SkipSpaces(ts, q + 1));
      Step(ret.pos, TrimBlanks(ret.text) + " " + name + list)
    else Step(q, "void" + " " + name + list)
  }

  /** fn name(params) -> T and fn name(params), at the word fn. */
  function Function(ts: seq<Token>, p: nat): (r: Step)
    requires p < |ts|
    ensures p < r.pos <= |ts|
  {
    var q := SkipSpaces(ts, p + 1);
    var name := Look(ts, q);
    var after := if q < |ts| then q + 1 else q;
    if name.kind != Word then Step(after, "fn " + name.text)
    else
      var open := SkipSpaces(ts, after);
      if !IsPunct(Look(ts, open), '(') then Step(open, "void " + name.text) else Signature(ts, open, name.text)
  }

  // ---------------------------------------------------------------------- use

  /** A header name after '<', up to and including '>', the line end or the end mark. */
  function Angle(ts: seq<Token>, p: nat): (r: Step)
    requires p <= |ts|
    ensures p <= r.pos <= |ts|
    decreases |ts| - p
  {
    if p == |ts| then Step(p, "")
    else if IsPunct(ts[p], '>') || ts[p].kind == Newline || ts[p].kind == Eof then Step(p + 1, ts[p].text)
    else var rest := Angle(ts, p + 1); Step(rest.pos, ts[p].text + rest.text)
  }

  function Use(ts: seq<Token>, p: nat): (r: Step)
    requires p < |ts| && Ended(ts) && ts[p].kind != Eof
    ensures p < r.pos <= |ts|
  {
    var q := SkipSpaces(ts, p + 1);
    var t := Look(ts, q);
    if t.kind == Str then Step(q + 1, "#include " + t.text)
    else if IsPunct(t, '<') then var a := Angle(ts, q + 1); Step(a.pos, "#include " + t.text + a.text)
    else Step(q + 1, "/* use " + t.text + " */")
  }

  // -------------------------------------------------------------- let and var

  /** let (prefix "const ") and var (prefix ""), as T name or name: T. */
  function Declaration(ts: seq<Token>, p: nat, prefix: string): (r: Step)
    requires p < |ts|
    ensures p < r.pos <= |ts|
  {
    var q := SkipSpaces(ts, p + 1);
    var t := Look(ts, q);
    if t.kind != Word then Step(q, prefix)
    else if IsAlias(t) then Step(q + 1, prefix + Alias(t.text))
    else
      var colon := SkipSpaces(ts, q + 1);
      if !IsPunct(Look(ts, colon), ':') then Step(q + 1, prefix + t.text)
      else
        var ty := SkipSpaces(ts, colon + 1);
        Step(if Look(ts, ty).kind == Eof then ty else ty + 1, prefix + Mapped(Look(ts, ty)) + " " + t.text)
  }

  // ---------------------------------------------------------------- range-for

  /** The start expression: whether a range operator ends it on this line, which one, where and what. */
  datatype Bound = Bound(found: bool, inclusive: bool, pos: nat, text: string)

  function RangeStart(ts: seq<Token>, p: nat): (r: Bound)
    requires p <= |ts|
    ensures p <= r.pos <= |ts|
    decreases |ts| - p
  {
    if p == |ts| || ts[p].kind == Newline || ts[p].kind == Eof then Bound(false, false, p, "")
    else if ts[p].kind == DotDotEq || ts[p].kind == DotDot then Bound(true, ts[p].kind == DotDotEq, p + 1, "")
    else var rest := RangeStart(ts, p + 1); rest.(text := ts[p].text + rest.text)
  }

  function RangeEnd(ts: seq<Token>, p: nat): (r: Step)
    requires p <= |ts|
    ensures p <= r.pos <= |ts|
    decreases |ts| - p
  {
    if p == |ts| || IsPunct(ts[p], '{') || ts[p].kind == Newline || ts[p].kind == Eof then Step(p, "")
    else var rest := RangeEnd(ts, p + 1); Step(rest.pos, ts[p].text + rest.text)
  }

  function ForText(v: string, start: string, inclusive: bool, end: string): string {
    "for (int " + v + " = " + start + "; " + v + (if inclusive then " <= " else " < ") + end + "; " + v + "++)"
  }

  /** for WORD in, at the word for: where the variable is and where the start expression begins. */
  datatype Head = NoHead | Head(v: nat, start: nat)

  function ForHead(ts: seq<Token>, p: nat): (r: Head)
    requires p < |ts|
    ensures r.Head? ==> p < r.v < |ts| && p < r.start <= |ts|
  {
    var q := SkipSpaces(ts, p + 1);
    if Look(ts, q).kind != Word then NoHead
    else
      var i := SkipSpaces(ts, q + 1);
      if !IsWord(Look(ts, i), "in") then NoHead else Head(q, SkipSpaces(ts, i + 1))
  }

  /** a..b or a..=b from p on, for the variable v. */
  function Bounds(ts: seq<Token>, v: string, p: nat): (r: Range)
    requires p <= |ts|
    ensures r.Range? ==> p <= r.pos <= |ts|
  {
    var b := RangeStart(ts, p);
    if !b.found then NoRange
    else
      var e := RangeEnd(ts, SkipSpaces(ts, b.pos));
      Range(e.pos, v, b.text, b.inclusive, TrimBlanks(e.text))
  }

  /** for WORD in a..b and for WORD in a..=b, at the word for; NoRange where the code goes back. */
  function ForRange(ts: seq<Token>, p: nat): (r: Range)
    requires p < |ts|
    ensures r.Range? ==> p < r.pos <= |ts|
  {
    var h := ForHead(ts, p);
    if h.NoHead? then NoRange else Bounds(ts, ts[h.v].text, h.start)
  }

  // ----------------------------------------------------------------- the pass

  /** One round of the main loop. */
  function Chunk(ts: seq<Token>, p: nat): (r: Step)
    requires p < |ts| && Ended(ts) && ts[p].kind != Eof
    ensures p < r.pos <= |ts|
  {
    var t := ts[p];
    if t.kind != Word then Step(p + 1, t.text)
    else if t.text == "use" then Use(ts, p)
    else if t.text == "fn" then Function(ts, p)
    else if t.text == "let" then Declaration(ts, p, "const ")
    else if t.text == "var" then Declaration(ts, p, "")
    else if t.text == "null" then Step(p + 1, "NULL")
    else if t.text == "loop" then Step(p + 1, "while (1)")
    else if t.text == "for" then
      var r := ForRange(ts, p);
      if r.Range? then Step(r.pos, ForText(r.v, r.start, r.inclusive, r.end)) else Step(p + 1, t.text)
    else Step(p + 1, Mapped(t))
  }

  /** translate_tokens from p on. */
  function Translate(ts: seq<Token>, p: nat): string
    requires p <= |ts| && Ended(ts)
    decreases |ts| - p
  {
    if p == |ts| || ts[p].kind == Eof then "" else Chunk(ts, p).text + Translate(ts, Chunk(ts, p).pos)
  }
}
