/** What the package parser makes of any text, printed by db_write or not. */
module ParseLaws {
  import opened PackageText
  import opened PackageDb

  /** White space only. */
  predicate Blank(s: string) { forall k :: 0 <= k < |s| ==> IsSpace(s[k]) }

  /** The 25 characters of Unicode's White_Space. */
  lemma SpaceTable(c: char)
    ensures IsSpace(c) <==> c in "\t\n\U{0B}\U{0C}\r \U{85}\U{A0}\U{1680}\U{2000}\U{2001}\U{2002}\U{2003}\U{2004}\U{2005}\U{2006}\U{2007}\U{2008}\U{2009}\U{200A}\U{2028}\U{2029}\U{202F}\U{205F}\U{3000}"
  {
  }

  /** No white space at either end. */
  predicate Tight(s: string) { s != "" ==> !IsSpace(s[0]) && !IsSpace(s[|s| - 1]) }

  lemma TrimTight(pre: string, core: string, post: string)
    requires Blank(pre) && Blank(post) && Tight(core)
    ensures Trim(pre + core + post, Space) == core
  {
    if core == "" {
      var s := pre + core + post;
      forall c | c in s ensures In(c, Space) { var k :| 0 <= k < |s| && s[k] == c; assert k < |pre| ==> s[k] == pre[k]; assert k >= |pre| ==> s[k] == post[k - |pre|]; }
      TrimAll(s, Space);
    } else {
      TrimCore(pre, core, post, Space);
    }
  }

  // ----------------------------------------------------------------- one line

  /** A key as a line can carry it. */
  predicate Keys(key: string) { key != "" && Tight(key) && '=' !in key && key[0] != '#' && key[0] != '[' }

  lemma Regrouped(pre: string, key: string, mid: string, pad: string, val: string, post: string)
    ensures pre + key + mid + "=" + pad + val + post == pre + (key + mid + "=" + (pad + val)) + post
  {
    assert pre + key + mid + "=" + pad + val + post == pre + (key + mid + "=" + (pad + val)) + post;
  }

  /** Splitting a trimmed line at its first '='. */
  lemma SplitLine(key: string, mid: string, tail: string)
    requires Keys(key) && Blank(mid)
    ensures var line := key + mid + "=" + tail;
            Find(line, '=') == |key| + |mid| < |line| && line[..|key| + |mid|] == key + mid && line[|key| + |mid| + 1..] == tail
  {
    var line := key + mid + "=" + tail;
    forall j | 0 <= j < |key| + |mid| ensures line[j] != '=' {
      assert line[j] == if j < |key| then key[j] else mid[j - |key|];
    }
    FindIs(line, '=', |key| + |mid|);
  }

  /** KEY = VALUE, whatever blanks stand around the two: the key gets the value. */
  lemma LineEnters(f: Fields, pre: string, key: string, mid: string, pad: string, val: string, post: string)
    requires Blank(pre) && Blank(mid) && Blank(pad) && Blank(post) && Keys(key) && Tight(val)
    ensures ParseLine(f, pre + key + mid + "=" + pad + val + post) == Store(f, key, val)
  {
    hide Trim, Find, Store, IsSpace;
    Regrouped(pre, key, mid, pad, val, post);
    if val != "" {
      var line := key + mid + "=" + (pad + val);
      TightLine(key, mid, pad + val);
      TrimTight(pre, line, post);
      EntersAt(f, key, mid, pad, val, "", pre + line + post);
    } else {
      var line := key + mid + "=";
      assert pre + (key + mid + "=" + (pad + val)) + post == pre + line + (pad + post);
      BlankJoin(pad, post);
      TightLine(key, mid, "");
      assert line + "" == line;
      TrimTight(pre, line, pad + post);
      EntersAt(f, key, mid, "", "", "", pre + line + (pad + post));
    }
  }

  lemma BlankJoin(a: string, b: string)
    requires Blank(a) && Blank(b)
    ensures Blank(a + b)
  {
  }

  lemma TightLine(key: string, mid: string, tail: string)
    requires Keys(key) && (tail == "" || !IsSpace(tail[|tail| - 1]))
    ensures Tight(key + mid + "=" + tail)
  {
    var line := key + mid + "=" + tail;
    assert line[0] == key[0];
    assert line[|line| - 1] == if tail == "" then '=' else tail[|tail| - 1];
    assert !IsSpace('=');
  }

  /** The rest of ParseLine, once the line is trimmed. */
  lemma EntersAt(f: Fields, key: string, mid: string, pad: string, val: string, post: string, raw: string)
    requires Keys(key) && Blank(mid) && Blank(pad) && Tight(val) && post == ""
    requires Trim(raw, Space) == key + mid + "=" + (pad + val)
    ensures ParseLine(f, raw) == Store(f, key, val)
  {
    hide Trim, Find, Store, IsSpace;
    var line := key + mid + "=" + (pad + val);
    assert line != "" && line[0] == key[0];
    SplitLine(key, mid, pad + val);
    TrimTight("", key, mid);
    assert "" + key + mid == key + mid;
    TrimTight(pad, val, "");
    assert pad + val + "" == pad + val;
  }

  /** Quotes only. */
  predicate Quotes(s: string) { forall k :: 0 <= k < |s| ==> s[k] == '"' }

  /** No quote at either end. */
  predicate Bare(s: string) { s != "" ==> s[0] != '"' && s[|s| - 1] != '"' }

  lemma Unquotes(open: string, core: string, close: string)
    requires Quotes(open) && Quotes(close) && Bare(core)
    ensures Trim(open + core + close, Exactly('"')) == core
  {
    var s := open + core + close;
    if core == "" {
      forall c | c in s ensures c == '"' { var k :| 0 <= k < |s| && s[k] == c; assert k < |open| ==> s[k] == open[k]; assert k >= |open| ==> s[k] == close[k - |open|]; }
      TrimAll(s, Exactly('"'));
    } else {
      TrimCore(open, core, close, Exactly('"'));
    }
  }

  /** KEY = "TEXT": the key gets the text, without the quotes around it. */
  lemma TextEnters(f: Fields, pre: string, key: string, mid: string, pad: string, open: string, core: string, close: string, post: string)
    requires Blank(pre) && Blank(mid) && Blank(pad) && Blank(post) && Keys(key)
    requires Quotes(open) && Quotes(close) && Bare(core)
    requires Tight(open + core + close) && (open + core + close != "" ==> (open + core + close)[0] != '[')
    ensures ParseLine(f, pre + key + mid + "=" + pad + (open + core + close) + post) == Fields(f.text[key := core], f.lists)
  {
    hide ParseLine, Trim;
    LineEnters(f, pre, key, mid, pad, open + core + close, post);
    Unquotes(open, core, close);
  }

  /** Lines that change nothing: blank ones, comments, headers, and lines without '='. */
  lemma LineIgnored(f: Fields, pre: string, rest: string)
    requires Blank(pre)
    ensures ParseLine(f, pre) == f && ParseLine(f, pre + "#" + rest) == f && ParseLine(f, pre + "[" + rest) == f
    ensures '=' !in rest ==> ParseLine(f, rest) == f
  {
    TrimTight(pre, "", "");
    assert pre + "" + "" == pre;
    TrimFirst(pre, '#', rest);
    TrimFirst(pre, '[', rest);
    if '=' !in rest {
      TrimIs(rest, Space);
      var line := Trim(rest, Space);
      assert forall j :: 0 <= j < |line| ==> line[j] in line;
      FindIs(line, '=', |line|);
    }
  }

  lemma TrimFirst(pre: string, c: char, rest: string)
    requires Blank(pre) && !IsSpace(c)
    ensures var line := Trim(pre + [c] + rest, Space); line != "" && line[0] == c
  {
    var s := pre + [c] + rest;
    assert forall j :: 0 <= j < |pre| ==> s[j] == pre[j];
    assert s[|pre|] == c;
  }

  // -------------------------------------------------------------------- lists

  /** piece is core in quotes and blanks. */
  ghost predicate Wraps(piece: string, core: string) {
    exists pre, open, close, post :: Wrapped(piece, core, pre, open, close, post)
  }

  ghost predicate Wrapped(piece: string, core: string, pre: string, open: string, close: string, post: string) {
    && piece == pre + (open + core + close) + post && Blank(pre) && Blank(post) && Quotes(open) && Quotes(close)
    && Bare(core) && Tight(open + core + close)
  }

  lemma WrappedCleans(piece: string, core: string)
    requires Wraps(piece, core)
    ensures CleanItem(piece) == core
  {
    var pre, open, close, post :| Wrapped(piece, core, pre, open, close, post);
    TrimTight(pre, open + core + close, post);
    Unquotes(open, core, close);
  }

  /** The pieces with a comma between each two. */
  function Commas(pieces: seq<string>): string
    requires pieces != []
  {
    if |pieces| == 1 then pieces[0] else pieces[0] + [','] + Commas(pieces[1..])
  }

  function NonEmpty(items: seq<string>): seq<string> {
    if items == [] then [] else (if items[0] == "" then [] else [items[0]]) + NonEmpty(items[1..])
  }

  lemma {:induction false} CommasSplit(pieces: seq<string>)
    requires pieces != [] && forall k :: 0 <= k < |pieces| ==> ',' !in pieces[k]
    ensures Split(Commas(pieces), ',') == pieces
  {
    if |pieces| == 1 {
      SplitCons(pieces[0], "", ',');
    } else {
      SplitCons(pieces[0], Commas(pieces[1..]), ',');
      CommasSplit(pieces[1..]);
    }
  }

  lemma {:induction false} ItemsAre(pieces: seq<string>, cores: seq<string>)
    requires |pieces| == |cores| && forall k :: 0 <= k < |pieces| ==> Wraps(pieces[k], cores[k])
    ensures Items(pieces) == NonEmpty(cores)
  {
    hide Wraps, CleanItem;
    if pieces != [] {
      WrappedCleans(pieces[0], cores[0]);
      ItemsAre(pieces[1..], cores[1..]);
    }
  }

  /** Brackets of one kind only. */
  predicate All(s: string, c: char) { forall k :: 0 <= k < |s| ==> s[k] == c }

  lemma BracketsOff(open: string, inner: string, close: string)
    requires All(open, '[') && All(close, ']') && (inner != "" ==> inner[0] != '[' && inner[|inner| - 1] != ']')
    ensures TrimEnd(TrimStart(open + inner + close, Exactly('[')), Exactly(']')) == inner
  {
    var s := open + inner + close;
    assert forall j :: 0 <= j < |open| ==> s[j] == open[j];
    assert |open| < |s| ==> s[|open|] == if inner != "" then inner[0] else close[0];
    assert Skip(s, Exactly('['), 0) == |open|;
    var t := inner + close;
    assert s[|open|..] == t;
    assert forall j :: |inner| <= j < |t| ==> t[j] == close[j - |inner|];
    assert inner != "" ==> t[|inner| - 1] == inner[|inner| - 1];
    assert Back(t, Exactly(']'), |t|) == |inner|;
  }

  /** KEY = [PIECE, PIECE, ...]: the key gets the pieces without their blanks and quotes, empty ones left
      out. */
  lemma ListEnters(f: Fields, pre: string, key: string, mid: string, pad: string, open: string, pieces: seq<string>,
                   cores: seq<string>, close: string, post: string)
    requires Blank(pre) && Blank(mid) && Blank(pad) && Blank(post) && Keys(key)
    requires open != "" && All(open, '[') && All(close, ']') && pieces != [] && |pieces| == |cores|
    requires forall k :: 0 <= k < |pieces| ==> ',' !in pieces[k] && Wraps(pieces[k], cores[k])
    requires Commas(pieces) != "" ==> Commas(pieces)[0] != '[' && Commas(pieces)[|Commas(pieces)| - 1] != ']'
    requires Tight(open + Commas(pieces) + close)
    ensures ParseLine(f, pre + key + mid + "=" + pad + (open + Commas(pieces) + close) + post) == Fields(f.text, f.lists[key := NonEmpty(cores)])
  {
    hide ParseLine, Trim, Wraps, Items, Split, TrimStart, TrimEnd, Commas;
    var val := open + Commas(pieces) + close;
    assert val[0] == open[0] == '[';
    LineEnters(f, pre, key, mid, pad, val, post);
    BracketsOff(open, Commas(pieces), close);
    CommasSplit(pieces);
    ItemsAre(pieces, cores);
  }

  // ------------------------------------------------------------- the metadata

  /** Each field of a package comes from the key of its name, and is empty without it. */
  lemma MetaFields(content: string)
    ensures var f := ParseLines(NO_FIELDS, Lines(content)); var m := Parse(content);
            && m.name == (if "name" in f.text then f.text["name"] else "")
            && m.version == (if "version" in f.text then f.text["version"] else "")
            && m.description == (if "description" in f.text then f.text["description"] else "")
            && m.sha256 == (if "sha256" in f.text then f.text["sha256"] else "")
            && m.deps == (if "deps" in f.lists then f.lists["deps"] else [])
            && m.files == (if "files" in f.lists then f.lists["files"] else [])
    ensures NO_FIELDS == Fields(map[], map[])
  {
  }

  /** Lines are taken in order, each on top of the ones before: of two with one key the later counts. */
  lemma {:induction false} LinesInOrder(f: Fields, a: seq<string>, b: seq<string>)
    ensures ParseLines(f, a + b) == ParseLines(ParseLines(f, a), b)
    decreases |a|
  {
    hide ParseLine;
    if a == [] {
      assert a + b == b;
    } else {
      assert (a + b)[1..] == a[1..] + b;
      LinesInOrder(ParseLine(f, a[0]), a[1..], b);
    }
  }

  lemma OneLine(f: Fields, line: string)
    ensures ParseLines(f, [line]) == ParseLine(f, line)
  {
    assert ParseLines(ParseLine(f, line), []) == ParseLine(f, line);
  }

  lemma FirstLine(line: string, rest: string)
    requires '\n' !in line
    ensures Lines(line + "\n" + rest) == [StripReturn(line)] + Lines(rest)
  {
    var s := line + "\n" + rest;
    FindIs(s, '\n', |line|);
    assert s[..|line|] == line && s[|line| + 1..] == rest;
  }

  /** Line feeds end lines, a carriage return before one goes with it, and the last line needs none. */
  lemma LineEnds(line: string, rest: string)
    requires '\n' !in line
    ensures Lines(line + "\r" + "\n" + rest) == [line] + Lines(rest)
    ensures (line != "" ==> line[|line| - 1] != '\r') ==> Lines(line + "\n" + rest) == [line] + Lines(rest)
    ensures line != "" ==> Lines(line) == [line]
    ensures Lines("") == []
  {
    assert (line + "\r")[..|line|] == line;
    assert StripReturn(line + "\r") == line;
    if line != "" { FindIs(line, '\n', |line|); }
    assert line != "" ==> Lines(line) == [line];
    hide Lines;
    FirstLine(line + "\r", rest);
    FirstLine(line, rest);
  }

  /** name="vim", with no blanks around '=': the package is called vim. */
  lemma NameWithoutBlanks(f: Fields)
    ensures ParseLine(f, "name=\"vim\"") == Fields(f.text["name" := "vim"], f.lists)
  {
    assert "name=\"vim\"" == "" + "name" + "" + "=" + "" + ("\"" + "vim" + "\"") + "";
    hide ParseLine;
    TextEnters(f, "", "name", "", "", "\"", "vim", "\"", "");
  }

  // --------------------------------------------------------------- the blocks

  /** No line is a package header, blanks around it or not. */
  predicate NoHeader(lines: seq<string>) { forall k :: 0 <= k < |lines| ==> Trim(lines[k], Space) != "[[package]]" }

  lemma HeaderTrims(pre: string, post: string)
    requires Blank(pre) && Blank(post)
    ensures Trim(pre + "[[package]]" + post, Space) == "[[package]]"
  {
    assert "[[package]]"[0] == '[' && "[[package]]"[10] == ']';
    TrimTight(pre, "[[package]]", post);
  }

  /** What a block of lines adds: its package under its name, if it has one. */
  ghost function Entered(db: map<string, Meta>, lines: seq<string>): map<string, Meta> {
    var m := Parse(Unlines(lines));
    if lines == [] || m.name == "" then db else db[m.name := m]
  }

  lemma FlushIs(lines: seq<string>, db: map<string, Meta>)
    ensures Flush(Unlines(lines), db) == Entered(db, lines)
  {
  }

  /** Lines without a header are collected. */
  lemma {:induction false} Collected(cur: string, lines: seq<string>, rest: seq<string>, db: map<string, Meta>)
    requires NoHeader(lines)
    ensures ReadLines(lines + rest, cur, db) == ReadLines(rest, cur + Unlines(lines), db)
    decreases |lines|
  {
    hide Trim, Flush;
    if lines == [] {
      assert lines + rest == rest && cur + Unlines(lines) == cur;
    } else {
      assert (lines + rest)[1..] == lines[1..] + rest && (lines + rest)[0] == lines[0];
      assert cur + lines[0] + "\n" + Unlines(lines[1..]) == cur + Unlines(lines);
      Collected(cur + lines[0] + "\n", lines[1..], rest, db);
    }
  }

  /** A header line, with any blanks around it, ends one block and begins the next. */
  lemma BlockEnds(lines: seq<string>, pre: string, post: string, rest: seq<string>, db: map<string, Meta>)
    requires NoHeader(lines) && Blank(pre) && Blank(post)
    ensures ReadLines(lines + [pre + "[[package]]" + post] + rest, "", db) == ReadLines(rest, "", Entered(db, lines))
    ensures ReadLines(lines, "", db) == Entered(db, lines)
  {
    hide Trim, Flush, Parse;
    var h := pre + "[[package]]" + post;
    HeaderTrims(pre, post);
    assert lines + [h] + rest == lines + ([h] + rest) && ([h] + rest)[1..] == rest;
    Collected("", lines, [h] + rest, db);
    Collected("", lines, [], db);
    assert lines + [] == lines && "" + Unlines(lines) == Unlines(lines);
    FlushIs(lines, db);
  }

  lemma StripKeepsTrim(line: string)
    ensures Trim(StripReturn(line), Space) == Trim(line, Space)
  {
    if line != "" && line[|line| - 1] == '\r' {
      var s := line[..|line| - 1];
      assert line == s + "\r";
      TrimIs(s, Space);
      BackStays(s, |s|);
      SkipStays(s, 0);
    }
  }

  lemma {:induction false} BackStays(s: string, n: nat)
    requires n <= |s|
    ensures Back(s + "\r", Space, n) == Back(s, Space, n)
    decreases n
  {
    if n > 0 { BackStays(s, n - 1); }
  }

  lemma {:induction false} SkipStays(s: string, i: nat)
    requires i <= |s|
    ensures Skip(s, Space, i) < |s| ==> Skip(s + "\r", Space, i) == Skip(s, Space, i)
    ensures Skip(s, Space, i) == |s| ==> Skip(s + "\r", Space, i) == |s| + 1
    decreases |s| - i
  {
    if i < |s| {
      SkipStays(s, i + 1);
    } else {
      assert (s + "\r")[i] == '\r';
    }
  }

  /** A collected block is parsed line by line, as its lines stood in the file. */
  lemma {:induction false} BlockLines(f: Fields, lines: seq<string>)
    requires forall k :: 0 <= k < |lines| ==> '\n' !in lines[k]
    ensures ParseLines(f, Lines(Unlines(lines))) == ParseLines(f, lines)
    decreases |lines|
  {
    hide Trim, Find, Store;
    if lines != [] {
      var s := Unlines(lines);
      assert s == lines[0] + "\n" + Unlines(lines[1..]);
      FirstLine(lines[0], Unlines(lines[1..]));
      StripKeepsTrim(lines[0]);
      assert ParseLine(f, StripReturn(lines[0])) == ParseLine(f, lines[0]);
      BlockLines(ParseLine(f, lines[0]), lines[1..]);
      assert ([StripReturn(lines[0])] + Lines(Unlines(lines[1..])))[1..] == Lines(Unlines(lines[1..]));
    }
  }

  // ----------------------------------------------------------------- printing

  /** Items in double quotes, with a comma and a blank between each two. */
  lemma JoinText(item: string, items: seq<string>)
    ensures Join([]) == "" && Join([item]) == "\"" + item + "\""
    ensures items != [] ==> Join([item] + items) == "\"" + item + "\"" + ", " + Join(items)
  {
    assert ([item] + items)[1..] == items;
  }

  /** The lines db_write prints for a package. */
  lemma PrintedLines(m: Meta)
    ensures Body(m) == ["name = \"" + m.name + "\"", "version = \"" + m.version + "\"", "description = \"" + m.description + "\"",
                        "sha256 = \"" + m.sha256 + "\"", "deps = [" + Join(m.deps) + "]", "files = [" + Join(m.files) + "]", ""]
    ensures HEADER == "[[package]]"
  {
    NamedLines(m);
    NamedLists(m);
    assert Body(m) == [TextLine("name", m.name), TextLine("version", m.version), TextLine("description", m.description),
                       TextLine("sha256", m.sha256), ListLine("deps", m.deps), ListLine("files", m.files), ""];
    hide TextLine, ListLine, Join;
  }

  lemma NamedLines(m: Meta)
    ensures TextLine("name", m.name) == "name = \"" + m.name + "\"" && TextLine("version", m.version) == "version = \"" + m.version + "\""
    ensures TextLine("description", m.description) == "description = \"" + m.description + "\""
    ensures TextLine("sha256", m.sha256) == "sha256 = \"" + m.sha256 + "\""
  {
    hide TextLine;
    TextText("name", m.name);
    TextText("version", m.version);
    TextText("description", m.description);
    TextText("sha256", m.sha256);
    assert "name" + " = \"" == "name = \"" && "version" + " = \"" == "version = \"" && "description" + " = \"" == "description = \"";
    assert "sha256" + " = \"" == "sha256 = \"";
  }

  lemma NamedLists(m: Meta)
    ensures ListLine("deps", m.deps) == "deps = [" + Join(m.deps) + "]" && ListLine("files", m.files) == "files = [" + Join(m.files) + "]"
  {
    hide ListLine, Join;
    ListText("deps", m.deps);
    ListText("files", m.files);
    assert "deps" + " = [" == "deps = [" && "files" + " = [" == "files = [";
  }

  lemma TextText(key: string, val: string)
    ensures TextLine(key, val) == key + " = \"" + val + "\""
  {
    assert key + " = " + ("\"" + val + "\"") == key + " = \"" + val + "\"";
  }

  lemma ListText(key: string, items: seq<string>)
    ensures ListLine(key, items) == key + " = [" + Join(items) + "]"
  {
    hide Join;
    assert key + " = " + ("[" + Join(items) + "]") == key + " = [" + Join(items) + "]";
  }

  /** Packages are printed one after another, each as its header and its lines, every line ended. */
  lemma PrintedPackages(m: Meta, rest: seq<Meta>)
    ensures Print([]) == "" && Print([m] + rest) == Unlines(["[[package]]"] + Body(m)) + Print(rest)
  {
    assert ([m] + rest)[1..] == rest;
  }

  lemma EndedLines(line: string, lines: seq<string>)
    ensures Unlines([]) == "" && Unlines([line] + lines) == line + "\n" + Unlines(lines)
  {
    assert ([line] + lines)[1..] == lines;
  }
}
