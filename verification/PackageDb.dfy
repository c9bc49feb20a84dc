/** The package database of phx-pkgmgr: the printer of db_write, the hand-written parser of
    parse_metadata and db_read, and the round trip between them. File access is left to the
    caller: reading takes the text, writing returns it. */
module PackageDb {
  import opened PackageText

  datatype Meta = Meta(name: string, version: string, description: string,
                       deps: seq<string>, files: seq<string>, sha256: string)

  // ----------------------------------------------------------------- parsing

  /** The tables parse_metadata fills. */
  datatype Fields = Fields(text: map<string, string>, lists: map<string, seq<string>>)

  const NO_FIELDS: Fields := Fields(map[], map[])

  function CleanItem(piece: string): string { Trim(Trim(piece, Space), Exactly('"')) }

  /** split, trim, unquote, drop empty items. */
  function Items(pieces: seq<string>): seq<string> {
    if pieces == [] then []
    else (if CleanItem(pieces[0]) == "" then [] else [CleanItem(pieces[0])]) + Items(pieces[1..])
  }

  function ListItems(val: string): seq<string> {
    Items(Split(TrimEnd(TrimStart(val, Exactly('[')), Exactly(']')), ','))
  }

  function Store(f: Fields, key: string, val: string): Fields {
    if val != "" && val[0] == '[' then f.(lists := f.lists[key := ListItems(val)])
    else f.(text := f.text[key := Trim(val, Exactly('"'))])
  }

  /** One line of metadata. */
  function ParseLine(f: Fields, raw: string): Fields {
    var line := Trim(raw, Space);
    if line == "" || line[0] == '#' || line[0] == '[' then f
    else
      var eq := Find(line, '=');
      if eq == |line| then f
      else
        var key, val := Trim(line[..eq], Space), Trim(line[eq + 1..], Space);
        Store(f, key, val)
  }

  function ParseLines(f: Fields, lines: seq<string>): Fields
    decreases |lines|
  {
    if lines == [] then f else ParseLines(ParseLine(f, lines[0]), lines[1..])
  }

  function TextOf(f: Fields, key: string): string { if key in f.text then f.text[key] else "" }

  function ListOf(f: Fields, key: string): seq<string> { if key in f.lists then f.lists[key] else [] }

  function ToMeta(f: Fields): Meta {
    Meta(TextOf(f, "name"), TextOf(f, "version"), TextOf(f, "description"), ListOf(f, "deps"), ListOf(f, "files"), TextOf(f, "sha256"))
  }

  function Parse(content: string): Meta { ToMeta(ParseLines(NO_FIELDS, Lines(content))) }

  /** A finished package block enters the database unless it is empty or nameless. */
  function Flush(current: string, db: map<string, Meta>): map<string, Meta> {
    if current == "" then db
    else var m := Parse(current); if m.name == "" then db else db[m.name := m]
  }

  const HEADER: string := "[[package]]"

  function ReadLines(lines: seq<string>, current: string, db: map<string, Meta>): map<string, Meta>
    decreases |lines|
  {
    if lines == [] then Flush(current, db)
    else if Trim(lines[0], Space) == HEADER then ReadLines(lines[1..], "", Flush(current, db))
    else ReadLines(lines[1..], current + lines[0] + "\n", db)
  }

  function Read(content: string): map<string, Meta> { ReadLines(Lines(content), "", map[]) }

  // ---------------------------------------------------------------- printing

  function Quote(s: string): string { "\"" + s + "\"" }

  function Join(items: seq<string>): string {
    if items == [] then "" else if |items| == 1 then Quote(items[0]) else Quote(items[0]) + ", " + Join(items[1..])
  }

  function Line(key: string, val: string): string { key + " = " + val }

  function TextLine(key: string, val: string): string { Line(key, Quote(val)) }

  function ListLine(key: string, items: seq<string>): string { Line(key, "[" + Join(items) + "]") }

  /** The lines of a package under any six keys. */
  function BodyWith(n: string, v: string, d: string, s: string, p: string, l: string, m: Meta): seq<string> {
    [TextLine(n, m.name), TextLine(v, m.version), TextLine(d, m.description),
     TextLine(s, m.sha256), ListLine(p, m.deps), ListLine(l, m.files), ""]
  }

  /** The lines of one package, the empty last one included. */
  function Body(m: Meta): seq<string> { BodyWith("name", "version", "description", "sha256", "deps", "files", m) }

  function Unlines(lines: seq<string>): string {
    if lines == [] then "" else lines[0] + "\n" + Unlines(lines[1..])
  }

  /** What db_write prints for its values in iteration order. */
  function Print(order: seq<Meta>): string {
    if order == [] then "" else Unlines([HEADER] + Body(order[0])) + Print(order[1..])
  }

  // ------------------------------------------------------------- well-formed

  /** Text the format can carry: no line feed, no quote at either end. */
  predicate Plain(s: string) {
    '\n' !in s && (s != "" ==> s[0] != '"' && s[|s| - 1] != '"')
  }

  predicate PlainItems(items: seq<string>) {
    forall k :: 0 <= k < |items| ==> Plain(items[k]) && items[k] != "" && ',' !in items[k]
  }

  predicate PlainMeta(m: Meta) {
    Plain(m.name) && Plain(m.version) && Plain(m.description) && Plain(m.sha256) && PlainItems(m.deps) && PlainItems(m.files)
  }

  /** Every package is stored under its own name. */
  predicate Named(db: map<string, Meta>) {
    forall k :: k in db ==> db[k].name == k
  }

  predicate WellFormed(db: map<string, Meta>) {
    Named(db) && forall k :: k in db ==> k != "" && PlainMeta(db[k])
  }

  // ---------------------------------------------------- reading back a value

  lemma QuoteTrims(s: string)
    requires Plain(s)
    ensures Trim(Quote(s), Exactly('"')) == s
  {
    if s == "" { TrimAll(Quote(s), Exactly('"')); } else { TrimCore("\"", s, "\"", Exactly('"')); }
  }

  /** A key as all printed keys are: no '=', no blank at either end, no comment or block mark. */
  predicate IsKey(key: string) {
    key != "" && '=' !in key && '\n' !in key && !IsSpace(key[0]) && !IsSpace(key[|key| - 1]) && key[0] != '#' && key[0] != '['
  }

  lemma LineSplitsAt(key: string, val: string)
    requires '=' !in key
    ensures Find(Line(key, val), '=') == |key| + 1
    ensures Line(key, val)[..|key| + 1] == key + " " && Line(key, val)[|key| + 2..] == " " + val
  {
    FindIs(Line(key, val), '=', |key| + 1);
  }

  lemma EndsTrim(key: string, val: string)
    requires IsKey(key) && val != "" && !IsSpace(val[0]) && !IsSpace(val[|val| - 1])
    ensures Trim(key + " ", Space) == key && Trim(" " + val, Space) == val
  {
    TrimCore("", key, " ", Space);
    assert "" + key + " " == key + " ";
    TrimCore(" ", val, "", Space);
    assert " " + val + "" == " " + val;
  }

  lemma LineTrims(key: string, val: string)
    requires IsKey(key) && val != "" && !IsSpace(val[|val| - 1])
    ensures Trim(Line(key, val), Space) == Line(key, val) && Line(key, val)[0] == key[0]
  {
    var line := Line(key, val);
    assert line[|line| - 1] == val[|val| - 1];
    TrimCore("", line, "", Space);
    assert "" + line + "" == line;
  }

  /** A printed line parses to its key and value. */
  lemma LineParses(f: Fields, key: string, val: string)
    requires IsKey(key) && val != "" && !IsSpace(val[0]) && !IsSpace(val[|val| - 1])
    ensures ParseLine(f, Line(key, val)) == Store(f, key, val)
  {
    LineTrims(key, val);
    LineSplitsAt(key, val);
    EndsTrim(key, val);
  }

  lemma TextLineParses(f: Fields, key: string, val: string)
    requires IsKey(key) && Plain(val)
    ensures ParseLine(f, TextLine(key, val)) == f.(text := f.text[key := val])
  {
    LineParses(f, key, Quote(val));
    QuoteTrims(val);
  }

  lemma ItemCleans(pad: string, item: string)
    requires pad == "" || pad == " "
    requires Plain(item)
    ensures CleanItem(pad + Quote(item)) == item
  {
    TrimCore(pad, Quote(item), "", Space);
    assert pad + Quote(item) + "" == pad + Quote(item);
    QuoteTrims(item);
  }

  lemma ItemsCons(pad: string, item: string, rest: seq<string>)
    requires pad == "" || pad == " "
    requires Plain(item) && item != ""
    ensures Items([pad + Quote(item)] + rest) == [item] + Items(rest)
  {
    ItemCleans(pad, item);
    assert ([pad + Quote(item)] + rest)[1..] == rest;
  }

  lemma CommaMoves(pad: string, q: string, j: string)
    ensures pad + (q + ", " + j) == pad + q + [','] + (" " + j)
  {
    assert ", " == [','] + " ";
    assert q + ", " + j == q + [','] + (" " + j);
  }

  lemma JoinUnfolds(pad: string, items: seq<string>)
    requires |items| > 1
    ensures pad + Join(items) == pad + Quote(items[0]) + [','] + (" " + Join(items[1..]))
  {
    CommaMoves(pad, Quote(items[0]), Join(items[1..]));
  }

  /** One quoted item, and what follows its comma. */
  lemma ItemReads(pad: string, item: string, rest: string)
    requires pad == "" || pad == " "
    requires Plain(item) && item != "" && ',' !in item
    ensures Items(Split(pad + Quote(item), ',')) == [item]
    ensures Items(Split(pad + Quote(item) + [','] + rest, ',')) == [item] + Items(Split(rest, ','))
  {
    var piece := pad + Quote(item);
    assert ',' !in piece;
    SplitCons(piece, rest, ',');
    ItemsCons(pad, item, Split(rest, ','));
    ItemsCons(pad, item, []);
    assert [piece] + [] == [piece];
  }

  lemma {:induction false} JoinReads(pad: string, items: seq<string>)
    requires pad == "" || pad == " "
    requires items != [] && PlainItems(items)
    ensures Items(Split(pad + Join(items), ',')) == items
    decreases |items|
  {
    ItemReads(pad, items[0], " " + Join(items[1..]));
    if |items| > 1 {
      JoinUnfolds(pad, items);
      JoinReads(" ", items[1..]);
    }
  }

  lemma {:induction false} JoinShape(items: seq<string>)
    requires PlainItems(items)
    ensures '\n' !in Join(items)
    ensures items == [] <==> Join(items) == ""
    ensures items != [] ==> Join(items)[0] == '"' && Join(items)[|Join(items)| - 1] == '"'
  {
    if items != [] {
      assert Plain(items[0]);
      JoinShape(items[1..]);
    }
  }

  lemma BracketsTrim(j: string)
    requires j == "" || (j[0] == '"' && j[|j| - 1] == '"')
    ensures TrimEnd(TrimStart("[" + j + "]", Exactly('[')), Exactly(']')) == j
  {
    var val := "[" + j + "]";
    assert Skip(val, Exactly('['), 0) == 1 by { assert val[0] == '[' && val[1] != '['; }
    var inner := val[1..];
    assert inner == j + "]";
    assert Back(inner, Exactly(']'), |inner|) == |j| by { assert forall k :: 0 <= k < |j| ==> inner[k] == j[k]; }
  }

  lemma EmptyReads()
    ensures Items(Split("", ',')) == []
  {
    SplitCons("", "", ',');
    TrimAll("", Space);
    TrimAll("", Exactly('"'));
    assert Items([""]) == Items([]);
  }

  lemma ListReads(items: seq<string>)
    requires PlainItems(items)
    ensures ListItems("[" + Join(items) + "]") == items
  {
    JoinShape(items);
    BracketsTrim(Join(items));
    if items == [] {
      EmptyReads();
    } else {
      JoinReads("", items);
      assert "" + Join(items) == Join(items);
    }
  }

  lemma ListLineParses(f: Fields, key: string, items: seq<string>)
    requires IsKey(key) && PlainItems(items)
    ensures ParseLine(f, ListLine(key, items)) == f.(lists := f.lists[key := items])
  {
    LineParses(f, key, "[" + Join(items) + "]");
    ListReads(items);
  }

  lemma KeysAreKeys()
    ensures IsKey("name") && IsKey("version") && IsKey("description") && IsKey("sha256") && IsKey("deps") && IsKey("files")
  {
  }

  lemma {:induction false} ParseAppend(f: Fields, a: seq<string>, b: seq<string>)
    ensures ParseLines(f, a + b) == ParseLines(ParseLines(f, a), b)
    decreases |a|
  {
    if a == [] {
      assert a + b == b;
    } else {
      assert (a + b)[1..] == a[1..] + b;
      ParseAppend(ParseLine(f, a[0]), a[1..], b);
    }
  }

  lemma TwoTexts(f: Fields, k: string, x: string, l: string, y: string)
    requires IsKey(k) && IsKey(l) && Plain(x) && Plain(y)
    ensures ParseLines(f, [TextLine(k, x), TextLine(l, y)]) == f.(text := f.text[k := x][l := y])
  {
    var lines := [TextLine(k, x), TextLine(l, y)];
    var f1 := f.(text := f.text[k := x]);
    var f2 := f1.(text := f1.text[l := y]);
    assert f1 == ParseLine(f, lines[0]) by { TextLineParses(f, k, x); }
    assert f2 == ParseLine(f1, lines[1]) by { TextLineParses(f1, l, y); }
    StepsThrough(f, lines, [f, f1, f2], 0);
    assert lines[0..] == lines;
  }

  lemma TwoLists(f: Fields, k: string, x: seq<string>, l: string, y: seq<string>)
    requires IsKey(k) && IsKey(l) && PlainItems(x) && PlainItems(y)
    ensures ParseLines(f, [ListLine(k, x), ListLine(l, y), ""]) == f.(lists := f.lists[k := x][l := y])
  {
    var lines := [ListLine(k, x), ListLine(l, y), ""];
    var f1 := f.(lists := f.lists[k := x]);
    var f2 := f1.(lists := f1.lists[l := y]);
    assert f1 == ParseLine(f, lines[0]) by { ListLineParses(f, k, x); }
    assert f2 == ParseLine(f1, lines[1]) by { ListLineParses(f1, l, y); }
    assert f2 == ParseLine(f2, lines[2]) by { TrimAll("", Space); }
    StepsThrough(f, lines, [f, f1, f2, f2], 0);
    assert lines[0..] == lines;
  }

  lemma ThreeParts(f: Fields, a: seq<string>, g: Fields, b: seq<string>, h: Fields, c: seq<string>)
    requires ParseLines(f, a) == g && ParseLines(g, b) == h
    ensures ParseLines(f, a + b + c) == ParseLines(h, c)
  {
    ParseAppend(f, a + b, c);
    ParseAppend(f, a, b);
  }

  lemma BodyParts(n: string, v: string, d: string, s: string, p: string, l: string, m: Meta)
    ensures BodyWith(n, v, d, s, p, l, m) ==
              [TextLine(n, m.name), TextLine(v, m.version)] + [TextLine(d, m.description), TextLine(s, m.sha256)]
              + [ListLine(p, m.deps), ListLine(l, m.files), ""]
  {
  }

  lemma BodyParsesWith(n: string, v: string, d: string, s: string, p: string, l: string, m: Meta)
    requires PlainMeta(m) && IsKey(n) && IsKey(v) && IsKey(d) && IsKey(s) && IsKey(p) && IsKey(l)
    ensures ParseLines(NO_FIELDS, BodyWith(n, v, d, s, p, l, m)) ==
              Fields(map[][n := m.name][v := m.version][d := m.description][s := m.sha256], map[][p := m.deps][l := m.files])
  {
    var f := NO_FIELDS.(text := NO_FIELDS.text[n := m.name][v := m.version]);
    var g := f.(text := f.text[d := m.description][s := m.sha256]);
    BodyParts(n, v, d, s, p, l, m);
    TwoTexts(NO_FIELDS, n, m.name, v, m.version);
    TwoTexts(f, d, m.description, s, m.sha256);
    ThreeParts(NO_FIELDS, [TextLine(n, m.name), TextLine(v, m.version)], f,
               [TextLine(d, m.description), TextLine(s, m.sha256)], g, [ListLine(p, m.deps), ListLine(l, m.files), ""]);
    TwoLists(g, p, m.deps, l, m.files);
  }

  lemma BodyParses(m: Meta)
    requires PlainMeta(m)
    ensures ToMeta(ParseLines(NO_FIELDS, Body(m))) == m
  {
    KeysAreKeys();
    BodyParsesWith("name", "version", "description", "sha256", "deps", "files", m);
    FieldsRead(m);
  }

  lemma FieldsRead(m: Meta)
    ensures ToMeta(Fields(map[]["name" := m.name]["version" := m.version]["description" := m.description]["sha256" := m.sha256],
                          map[]["deps" := m.deps]["files" := m.files])) == m
  {
    assert "name"[0] != "version"[0] && "name"[0] != "description"[0] && "name"[0] != "sha256"[0];
    assert "version"[0] != "description"[0] && "version"[0] != "sha256"[0] && "description"[0] != "sha256"[0];
    assert "deps"[0] != "files"[0];
  }

  /** The states passed through lead to the last one. */
  lemma {:induction false} StepsThrough(f: Fields, lines: seq<string>, states: seq<Fields>, i: nat)
    requires i <= |lines| && |states| == |lines| + 1 && states[i] == f
    requires forall k :: i <= k < |lines| ==> states[k + 1] == ParseLine(states[k], lines[k])
    ensures ParseLines(f, lines[i..]) == states[|lines|]
    decreases |lines| - i
  {
    hide ParseLine;
    if i < |lines| {
      StepsThrough(states[i + 1], lines, states, i + 1);
      assert lines[i..][1..] == lines[i + 1..];
    }
  }

  // ------------------------------------------------------ reading back a file

  predicate Printable(line: string) {
    '\n' !in line && (line != "" ==> line[|line| - 1] != '\r')
  }

  lemma UnlinesUnfolds(lines: seq<string>, rest: string)
    requires lines != []
    ensures Unlines(lines) + rest == lines[0] + "\n" + (Unlines(lines[1..]) + rest)
  {
  }

  lemma Regroup(lines: seq<string>, more: seq<string>)
    requires lines != []
    ensures [lines[0]] + (lines[1..] + more) == lines + more
  {
  }

  lemma {:induction false} LinesOfUnlines(lines: seq<string>, rest: string)
    requires forall k :: 0 <= k < |lines| ==> Printable(lines[k])
    ensures Lines(Unlines(lines) + rest) == lines + Lines(rest)
    decreases |lines|
  {
    if lines == [] {
      assert Unlines(lines) + rest == rest;
    } else {
      UnlinesUnfolds(lines, rest);
      LinesCons(lines[0], Unlines(lines[1..]) + rest);
      LinesOfUnlines(lines[1..], rest);
      Regroup(lines, Lines(rest));
    }
  }

  lemma LineShape(key: string, val: string)
    requires IsKey(key) && '\n' !in val && val != "" && !IsSpace(val[|val| - 1])
    ensures Printable(Line(key, val)) && Trim(Line(key, val), Space) != HEADER
  {
    LineTrims(key, val);
    assert HEADER[0] == '[';
  }

  lemma TextLineShape(key: string, val: string)
    requires IsKey(key) && Plain(val)
    ensures Printable(TextLine(key, val)) && Trim(TextLine(key, val), Space) != HEADER
  {
    LineShape(key, Quote(val));
  }

  lemma ListLineShape(key: string, items: seq<string>)
    requires IsKey(key) && PlainItems(items)
    ensures Printable(ListLine(key, items)) && Trim(ListLine(key, items), Space) != HEADER
  {
    JoinShape(items);
    LineShape(key, "[" + Join(items) + "]");
  }

  predicate BodyLine(line: string) { Printable(line) && Trim(line, Space) != HEADER }

  lemma BodyShapeWith(n: string, v: string, d: string, s: string, p: string, l: string, m: Meta)
    requires PlainMeta(m) && IsKey(n) && IsKey(v) && IsKey(d) && IsKey(s) && IsKey(p) && IsKey(l)
    ensures forall k :: 0 <= k < 7 ==> BodyLine(BodyWith(n, v, d, s, p, l, m)[k])
  {
    var b := BodyWith(n, v, d, s, p, l, m);
    assert BodyLine(b[0]) by { TextLineShape(n, m.name); }
    assert BodyLine(b[1]) by { TextLineShape(v, m.version); }
    assert BodyLine(b[2]) by { TextLineShape(d, m.description); }
    assert BodyLine(b[3]) by { TextLineShape(s, m.sha256); }
    assert BodyLine(b[4]) by { ListLineShape(p, m.deps); }
    assert BodyLine(b[5]) by { ListLineShape(l, m.files); }
    assert BodyLine(b[6]) by { TrimAll("", Space); }
  }

  lemma BodyShape(m: Meta)
    requires PlainMeta(m)
    ensures forall k :: 0 <= k < |Body(m)| ==> BodyLine(Body(m)[k])
  {
    KeysAreKeys();
    BodyShapeWith("name", "version", "description", "sha256", "deps", "files", m);
  }

  lemma BlockParses(m: Meta)
    requires PlainMeta(m)
    ensures Parse(Unlines(Body(m))) == m
  {
    BodyShape(m);
    LinesOfUnlines(Body(m), "");
    assert Unlines(Body(m)) + "" == Unlines(Body(m)) && Body(m) + [] == Body(m);
    BodyParses(m);
  }

  /** Lines that are no header pile up in the current block. */
  lemma {:induction false} BlockPilesUp(lines: seq<string>, rest: seq<string>, current: string, db: map<string, Meta>)
    requires forall k :: 0 <= k < |lines| ==> Trim(lines[k], Space) != HEADER
    ensures ReadLines(lines + rest, current, db) == ReadLines(rest, current + Unlines(lines), db)
    decreases |lines|
  {
    if lines == [] {
      assert lines + rest == rest && current + Unlines(lines) == current;
    } else {
      assert (lines + rest)[1..] == lines[1..] + rest;
      BlockPilesUp(lines[1..], rest, current + lines[0] + "\n", db);
      assert current + lines[0] + "\n" + Unlines(lines[1..]) == current + Unlines(lines);
    }
  }

  /** Entering packages one after another. */
  function Enter(db: map<string, Meta>, order: seq<Meta>): map<string, Meta>
    decreases |order|
  {
    if order == [] then db else Enter(db[order[0].name := order[0]], order[1..])
  }

  lemma BlockRead(m: Meta, rest: seq<string>, current: string, db: map<string, Meta>)
    requires PlainMeta(m)
    ensures ReadLines([HEADER] + Body(m) + rest, current, db) == ReadLines(rest, Unlines(Body(m)), Flush(current, db))
  {
    var lines := [HEADER] + Body(m) + rest;
    assert HEADER[0] == '[' && HEADER[|HEADER| - 1] == ']';
    TrimCore("", HEADER, "", Space);
    assert "" + HEADER + "" == HEADER;
    assert lines[1..] == Body(m) + rest;
    BodyShape(m);
    BlockPilesUp(Body(m), rest, "", Flush(current, db));
    assert "" + Unlines(Body(m)) == Unlines(Body(m));
  }

  lemma PrintedLines(order: seq<Meta>)
    requires order != [] && PlainMeta(order[0])
    ensures Lines(Print(order)) == [HEADER] + Body(order[0]) + Lines(Print(order[1..]))
  {
    var block := [HEADER] + Body(order[0]);
    BodyShape(order[0]);
    assert Printable(HEADER);
    LinesOfUnlines(block, Print(order[1..]));
  }

  /** Reading a printed file enters its packages after the block that was open. */
  lemma {:induction false} PrintReads(order: seq<Meta>, current: string, db: map<string, Meta>)
    requires forall k :: 0 <= k < |order| ==> PlainMeta(order[k]) && order[k].name != ""
    ensures ReadLines(Lines(Print(order)), current, db) == Enter(Flush(current, db), order)
    decreases |order|
  {
    if order != [] {
      PrintedLines(order);
      BlockRead(order[0], Lines(Print(order[1..])), current, db);
      BlockParses(order[0]);
      PrintReads(order[1..], Unlines(Body(order[0])), Flush(current, db));
    }
  }

  // ---------------------------------------------------------------- theorems

  /** ks lists every key of db once: one iteration order of the map. */
  ghost predicate Enumerates(ks: seq<string>, db: map<string, Meta>) {
    && (forall i, j :: 0 <= i < j < |ks| ==> ks[i] != ks[j])
    && (forall k :: k in ks <==> k in db)
  }

  function Values(ks: seq<string>, db: map<string, Meta>): (r: seq<Meta>)
    requires forall k :: k in ks ==> k in db
    ensures |r| == |ks| && forall i :: 0 <= i < |ks| ==> r[i] == db[ks[i]]
  {
    if ks == [] then [] else [db[ks[0]]] + Values(ks[1..], db)
  }

  lemma {:induction false} EnterIs(db: map<string, Meta>, order: seq<Meta>)
    requires forall i, j :: 0 <= i < j < |order| ==> order[i].name != order[j].name
    ensures forall i :: 0 <= i < |order| ==> order[i].name in Enter(db, order) && Enter(db, order)[order[i].name] == order[i]
    ensures forall k :: k in Enter(db, order) ==> k in db || exists i :: 0 <= i < |order| && order[i].name == k
    ensures forall k :: k in db && (forall i :: 0 <= i < |order| ==> order[i].name != k) ==>
                          k in Enter(db, order) && Enter(db, order)[k] == db[k]
    decreases |order|
  {
    if order != [] {
      var next := db[order[0].name := order[0]];
      EnterIs(next, order[1..]);
      assert forall i :: 1 <= i < |order| ==> order[i] == order[1..][i - 1];
    }
  }

  lemma ValuesNamed(db: map<string, Meta>, ks: seq<string>)
    requires Named(db) && Enumerates(ks, db)
    ensures forall i :: 0 <= i < |ks| ==> Values(ks, db)[i].name == ks[i]
  {
    assert forall i :: 0 <= i < |ks| ==> ks[i] in ks;
  }

  lemma EnterRebuilds(db: map<string, Meta>, ks: seq<string>)
    requires Named(db) && Enumerates(ks, db)
    ensures Enter(map[], Values(ks, db)) == db
  {
    var order := Values(ks, db);
    ValuesNamed(db, ks);
    EnterIs(map[], order);
    var e := Enter(map[], order);
    forall k ensures k in e <==> k in db {
      if k in db { var i :| 0 <= i < |ks| && ks[i] == k; assert order[i].name in e; }
    }
    forall k | k in db ensures e[k] == db[k] {
      var i :| 0 <= i < |ks| && ks[i] == k;
      assert e[order[i].name] == order[i];
    }
  }

  /** Whatever text is read, the database it gives is well formed. */
  lemma ReadGivesWellFormed(content: string)
    ensures WellFormed(Read(content))
  {
    ReadLinesKeep(Lines(content), "", map[]);
  }

  ghost predicate Clean(f: Fields) {
    && (forall k :: k in f.text ==> Plain(f.text[k]))
    && (forall k :: k in f.lists ==> PlainItems(f.lists[k]))
  }

  lemma {:induction false} ItemsPlain(pieces: seq<string>)
    requires forall k :: 0 <= k < |pieces| ==> '\n' !in pieces[k] && ',' !in pieces[k]
    ensures PlainItems(Items(pieces))
  {
    if pieces != [] {
      ItemsPlain(pieces[1..]);
      TrimIs(pieces[0], Space);
      TrimIs(Trim(pieces[0], Space), Exactly('"'));
    }
  }

  lemma ListItemsPlain(val: string)
    requires '\n' !in val
    ensures PlainItems(ListItems(val))
  {
    var inner := TrimEnd(TrimStart(val, Exactly('[')), Exactly(']'));
    assert '\n' !in inner;
    SplitKeepsOut(inner, ',', '\n');
    SplitKeepsOut(inner, ',', ',');
    ItemsPlain(Split(inner, ','));
  }

  lemma UnquotedPlain(val: string)
    requires '\n' !in val
    ensures Plain(Trim(val, Exactly('"')))
  {
    TrimIs(val, Exactly('"'));
  }

  lemma CleanWithList(f: Fields, key: string, items: seq<string>)
    requires Clean(f) && PlainItems(items)
    ensures Clean(f.(lists := f.lists[key := items]))
  {
  }

  lemma CleanWithText(f: Fields, key: string, text: string)
    requires Clean(f) && Plain(text)
    ensures Clean(f.(text := f.text[key := text]))
  {
  }

  lemma ValueKeeps(f: Fields, key: string, val: string)
    requires Clean(f) && '\n' !in val
    ensures Clean(Store(f, key, val))
  {
    if val != "" && val[0] == '[' {
      ListItemsPlain(val);
      CleanWithList(f, key, ListItems(val));
    } else {
      UnquotedPlain(val);
      CleanWithText(f, key, Trim(val, Exactly('"')));
    }
  }

  lemma ParseLineKeeps(f: Fields, raw: string)
    requires Clean(f) && '\n' !in raw
    ensures Clean(ParseLine(f, raw))
  {
    var line := Trim(raw, Space);
    assert '\n' !in line by { TrimIs(raw, Space); }
    if line == "" || line[0] == '#' || line[0] == '[' || Find(line, '=') == |line| { return; }
    var eq := Find(line, '=');
    var key, val := Trim(line[..eq], Space), Trim(line[eq + 1..], Space);
    assert '\n' !in val by { TrimIs(line[eq + 1..], Space); }
    ValueKeeps(f, key, val);
    assert ParseLine(f, raw) == Store(f, key, val);
  }

  lemma {:induction false} ParseLinesKeep(f: Fields, lines: seq<string>)
    requires Clean(f) && forall k :: 0 <= k < |lines| ==> '\n' !in lines[k]
    ensures Clean(ParseLines(f, lines))
    decreases |lines|
  {
    if lines != [] {
      ParseLineKeeps(f, lines[0]);
      ParseLinesKeep(ParseLine(f, lines[0]), lines[1..]);
    }
  }

  lemma FlushKeeps(current: string, db: map<string, Meta>)
    requires WellFormed(db)
    ensures WellFormed(Flush(current, db))
  {
    LinesAreLines(current);
    ParseLinesKeep(NO_FIELDS, Lines(current));
    assert PlainMeta(Parse(current));
  }

  lemma {:induction false} ReadLinesKeep(lines: seq<string>, current: string, db: map<string, Meta>)
    requires WellFormed(db)
    ensures WellFormed(ReadLines(lines, current, db))
    decreases |lines|
  {
    FlushKeeps(current, db);
    if lines == [] {
    } else if Trim(lines[0], Space) == HEADER {
      ReadLinesKeep(lines[1..], "", Flush(current, db));
    } else {
      ReadLinesKeep(lines[1..], current + lines[0] + "\n", db);
    }
  }

  /** The round trip, in any iteration order, holds exactly for well-formed databases. */
  lemma RoundTrip(db: map<string, Meta>, ks: seq<string>)
    requires Enumerates(ks, db)
    ensures Read(Print(Values(ks, db))) == db <==> WellFormed(db)
  {
    ReadGivesWellFormed(Print(Values(ks, db)));
    if WellFormed(db) {
      var order := Values(ks, db);
      assert forall i :: 0 <= i < |ks| ==> ks[i] in ks;
      PrintReads(order, "", map[]);
      EnterRebuilds(db, ks);
    }
  }

  // ------------------------------------------------------------- the program

  /** parse_metadata. */
  method ParseMetadata(content: string) returns (m: Meta)
    ensures m == Parse(content)
  {
    var text: map<string, string> := map[];
    var lists: map<string, seq<string>> := map[];
    var lines := Lines(content);
    var i := 0;
    while i < |lines|
      invariant 0 <= i <= |lines|
      invariant ParseLines(Fields(text, lists), lines[i..]) == ParseLines(NO_FIELDS, lines)
    {
      assert lines[i..][0] == lines[i] && lines[i..][1..] == lines[i + 1..];
      var line := Trim(lines[i], Space);
      i := i + 1;
      if line == "" || line[0] == '#' || line[0] == '[' { continue; }
      var eq := Find(line, '=');
      if eq < |line| {
        var key, val := Trim(line[..eq], Space), Trim(line[eq + 1..], Space);
        if val != "" && val[0] == '[' {
          lists := lists[key := ListItems(val)];
        } else {
          text := text[key := Trim(val, Exactly('"'))];
        }
      }
    }
    m := ToMeta(Fields(text, lists));
  }

  /** db_read on the text of the database file. */
  method DbRead(content: string) returns (db: map<string, Meta>)
    ensures db == Read(content)
    ensures WellFormed(db)
  {
    db := map[];
    var current := "";
    var lines := Lines(content);
    var i := 0;
    while i < |lines|
      invariant 0 <= i <= |lines|
      invariant ReadLines(lines[i..], current, db) == Read(content)
    {
      assert lines[i..][0] == lines[i] && lines[i..][1..] == lines[i + 1..];
      if Trim(lines[i], Space) == HEADER {
        if current != "" {
          var meta := ParseMetadata(current);
          if meta.name != "" { db := db[meta.name := meta]; }
        }
        current := "";
      } else {
        current := current + lines[i] + "\n";
      }
      i := i + 1;
    }
    if current != "" {
      var meta := ParseMetadata(current);
      if meta.name != "" { db := db[meta.name := meta]; }
    }
    ReadGivesWellFormed(content);
  }

  method JoinQuoted(items: seq<string>) returns (out: string)
    ensures out == Join(items)
  {
    out := "";
    var i := |items|;
    while i > 0
      invariant 0 <= i <= |items|
      invariant out == Join(items[i..])
    {
      i := i - 1;
      assert items[i..][1..] == items[i + 1..];
      out := if i == |items| - 1 then Quote(items[i]) else Quote(items[i]) + ", " + out;
    }
  }

  lemma PrintSnoc(order: seq<Meta>, m: Meta)
    ensures Print(order + [m]) == Print(order) + Unlines([HEADER] + Body(m))
  {
    if order == [] {
      assert order + [m] == [m];
    } else {
      PrintSnoc(order[1..], m);
      assert (order + [m])[1..] == order[1..] + [m];
    }
  }

  lemma ValuesSnoc(ks: seq<string>, k: string, db: map<string, Meta>)
    requires k in db && forall x :: x in ks ==> x in db
    ensures Values(ks + [k], db) == Values(ks, db) + [db[k]]
  {
  }

  lemma {:induction false} UnlinesAppend(a: seq<string>, b: seq<string>)
    ensures Unlines(a + b) == Unlines(a) + Unlines(b)
  {
    if a == [] {
      assert a + b == b;
    } else {
      UnlinesAppend(a[1..], b);
      assert (a + b)[1..] == a[1..] + b;
    }
  }

  lemma UnlinesTwo(x: string, y: string)
    ensures Unlines([x, y]) == x + "\n" + (y + "\n")
  {
    assert Unlines([y]) == y + "\n" by { assert [y][1..] == []; }
    assert [x, y][1..] == [y];
  }

  lemma BlockLines(h: string, a: string, b: string, c: string, d: string, e: string, f: string)
    ensures Unlines([h] + [a, b, c, d, e, f, ""]) == Unlines([h, a]) + Unlines([b, c]) + Unlines([d, e]) + Unlines([f, ""])
  {
    UnlinesAppend([h, a], [b, c]);
    UnlinesAppend([h, a] + [b, c], [d, e]);
    UnlinesAppend([h, a] + [b, c] + [d, e], [f, ""]);
    assert [h] + [a, b, c, d, e, f, ""] == [h, a] + [b, c] + [d, e] + [f, ""];
  }

  lemma BlockText(h: string, a: string, b: string, c: string, d: string, e: string, f: string)
    ensures Unlines([h] + [a, b, c, d, e, f, ""]) ==
              h + "\n" + (a + "\n") + (b + "\n") + (c + "\n") + (d + "\n") + (e + "\n") + (f + "\n\n")
  {
    BlockLines(h, a, b, c, d, e, f);
    UnlinesTwo(h, a);
    UnlinesTwo(b, c);
    UnlinesTwo(d, e);
    UnlinesTwo(f, "");
    assert f + "\n" + ("" + "\n") == f + "\n\n";
  }

  /** The text db_write appends for one package. */
  method FormatBlock(m: Meta) returns (out: string)
    ensures out == Unlines([HEADER] + Body(m))
  {
    var a, b := TextLine("name", m.name), TextLine("version", m.version);
    var c, d := TextLine("description", m.description), TextLine("sha256", m.sha256);
    var h := HEADER;
    out := h + "\n";
    out := out + (a + "\n");
    out := out + (b + "\n");
    out := out + (c + "\n");
    out := out + (d + "\n");
    var deps := JoinQuoted(m.deps);
    var e := Line("deps", "[" + deps + "]");
    out := out + (e + "\n");
    var files := JoinQuoted(m.files);
    var f := Line("files", "[" + files + "]");
    out := out + (f + "\n\n");
    BlockText(h, a, b, c, d, e, f);
    ghost var lines := [h] + [a, b, c, d, e, f, ""];
    assert out == Unlines(lines);
    assert lines == [HEADER] + Body(m);
  }

  /** db_write, returning the text it stores; the order of the map's values is arbitrary. */
  method DbWrite(db: map<string, Meta>) returns (out: string)
    ensures exists ks :: Enumerates(ks, db) && out == Print(Values(ks, db))
    ensures Read(out) == db <==> WellFormed(db)
  {
    out := "";
    ghost var ks: seq<string> := [];
    var left := db.Keys;
    while left != {}
      invariant forall i, j :: 0 <= i < j < |ks| ==> ks[i] != ks[j]
      invariant left <= db.Keys && forall k :: k in ks <==> k in db && k !in left
      invariant out == Print(Values(ks, db))
      decreases |left|
    {
      var k :| k in left;
      var m := db[k];
      var block := FormatBlock(m);
      out := out + block;
      ValuesSnoc(ks, k, db);
      PrintSnoc(Values(ks, db), m);
      ks, left := ks + [k], left - {k};
    }
    RoundTrip(db, ks);
  }
}
