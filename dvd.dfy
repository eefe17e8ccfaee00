/** The metadata-block parser of the catalogue DVD (DVD.java): one pass over
    the lines of an HTML-like table, with a header cursor, value rows, file
    caption rows and a synthesised URL. */
module Dvd {
  import opened Wrappers
  import opened Text
  import opened Fields
  import opened Books

  const UrlPrefix := "https://www.gutenberg.org/ebooks/"

  /** input.replaceAll("<[^>]*>", ""): every '<' that has a '>' somewhere
      after it starts a span running to the first such '>', and the span is
      removed; a '<' with no later '>' is kept. */
  function StripTags(s: string): (r: string)
    ensures |r| <= |s|
    ensures forall c :: c in r ==> c in s
    ensures Tagless(r)
    decreases |s|
  {
    if s == [] then []
    else if s[0] == '<' && '>' in s then
      var j := IndexOfChar(s, '>');
      StripTags(s[j + 1..])
    else
      var t := StripTags(s[1..]);
      assert forall c :: c in [s[0]] + t ==> c == s[0] || c in t;
      [s[0]] + t
  }

  /** No '<' is followed, anywhere later, by a '>'. */
  predicate Tagless(t: string) {
    forall i :: 0 <= i < |t| && t[i] == '<' ==> '>' !in t[i + 1..]
  }

  /** Text with no complete tag left is not changed by stripping. */
  lemma {:induction false} StripTaglessUnchanged(t: string)
    requires Tagless(t)
    ensures StripTags(t) == t
    decreases |t|
  {
    if t != [] {
      assert t[1..][..] == t[1..];
      assert forall i :: 1 <= i < |t| ==> t[1..][i - 1..] == t[i..];
      if t[0] == '<' {
        assert '>' !in t[1..];
        assert '>' !in t by {
          assert t == [t[0]] + t[1..];
        }
      }
      assert Tagless(t[1..]) by {
        forall i | 0 <= i < |t[1..]| && t[1..][i] == '<'
          ensures '>' !in t[1..][i + 1..]
        {
          assert t[1..][i + 1..] == t[i + 2..];
        }
      }
      StripTaglessUnchanged(t[1..]);
    }
  }

  /** Stripping tags is idempotent. */
  lemma StripTagsIdempotent(s: string)
    ensures StripTags(StripTags(s)) == StripTags(s)
  {
    StripTaglessUnchanged(StripTags(s));
  }

  /** Text without '<' is not changed; the method's name notwithstanding,
      whitespace is not trimmed. */
  lemma StripTagsNoAngle(s: string)
    requires '<' !in s
    ensures StripTags(s) == s
  {
    StripTaglessUnchanged(s);
  }

  /** No two '/' in a row, and no '/' at the end unless the path is the
      root. */
  predicate NormalPath(p: string) {
    NoDoubleSlash(p) && (|p| > 1 ==> p[|p| - 1] != '/')
  }

  predicate NoDoubleSlash(p: string) {
    forall i, j :: 0 <= i < |p| && 0 <= j < |p| && j == i + 1 ==> p[i] != '/' || p[j] != '/'
  }

  /** The path with every run of '/' cut to one. */
  function CollapseSlashes(s: string): string {
    if |s| <= 1 then s
    else
      var p := CollapseSlashes(s[..|s| - 1]);
      if s[|s| - 1] == '/' && s[|s| - 2] == '/' then p
      else p + [s[|s| - 1]]
  }

  /** Collapsing keeps the first and the last character, leaves no "//"
      behind, and changes nothing in a path without one. */
  lemma {:induction false} CollapseFacts(s: string)
    ensures var r := CollapseSlashes(s);
      && |r| <= |s|
      && (s != [] ==> r != [] && r[0] == s[0] && r[|r| - 1] == s[|s| - 1])
      && NoDoubleSlash(r)
      && (NoDoubleSlash(s) ==> r == s)
  {
    if |s| > 1 {
      var front := s[..|s| - 1];
      CollapseFacts(front);
      assert forall i :: 0 <= i < |front| ==> front[i] == s[i];
      if s[|s| - 1] != '/' || s[|s| - 2] != '/' {
        assert s == front + [s[|s| - 1]];
      }
    }
  }

  /** How a Unix path string is normalized when the path is built: runs of
      '/' become one and a trailing '/' is dropped (the root keeps its
      '/'). */
  function NormalizePath(s: string): (r: string)
    ensures NormalPath(r)
    ensures s != [] ==> r != [] && r[0] == s[0]
    ensures NormalPath(s) ==> r == s
  {
    CollapseFacts(s);
    var c := CollapseSlashes(s);
    if |c| > 1 && c[|c| - 1] == '/' then c[..|c| - 1] else c
  }

  /** Path.resolve(other).toString() on a Unix file system: both paths are
      normalized; an absolute other replaces the base, an empty one leaves
      it, and otherwise the two are joined with one '/' (the root and the
      empty base take no separator). */
  function Resolve(base: string, other: string): (r: string)
    ensures NormalPath(r)
    ensures NormalizePath(other) == [] ==> r == NormalizePath(base)
    ensures other != [] && other[0] == '/' ==> r == NormalizePath(other)
    ensures NormalPath(base) && NormalPath(other) && base != [] && base != "/" && other != [] && other[0] != '/'
      ==> r == base + "/" + other
  {
    var b := NormalizePath(base);
    var o := NormalizePath(other);
    if o == [] then b
    else if o[0] == '/' || b == [] then o
    else if b == "/" then JoinNormal("", o); "/" + o
    else JoinNormal(b, o); b + "/" + o
  }

  /** A normal base and a normal relative path joined by one '/' make a
      normal path. */
  lemma JoinNormal(b: string, o: string)
    requires NormalPath(b) && NormalPath(o) && o != [] && o[0] != '/'
    requires b == [] || b[|b| - 1] != '/'
    ensures NormalPath(b + "/" + o)
  {
    var r := b + "/" + o;
    assert forall i :: 0 <= i < |b| ==> r[i] == b[i];
    assert forall i :: |b| < i < |r| ==> r[i] == o[i - |b| - 1];
  }

  /** A doubled '/' between a directory and a file name is cut to one, as
      Path.resolve does. */
  lemma ResolveCollapses(base: string, dir: string, name: string)
    requires NormalPath(base) && base != [] && base != "/"
    requires NormalPath(dir) && dir != [] && dir[0] != '/'
    requires NormalPath(name) && name != [] && name[0] != '/'
    ensures Resolve(base, dir + "//" + name) == base + "/" + dir + "/" + name
  {
    var o := dir + "/" + name;
    CollapseDoubled(dir, name);
    JoinNormal(dir, name);
    assert NormalizePath(dir + "//" + name) == o;
    assert NormalizePath(base) == base;
    assert base + "/" + o == base + "/" + dir + "/" + name;
  }

  /** A trailing '/' on a directory is dropped when it is resolved. */
  lemma ResolveTrailing(base: string, dir: string)
    requires NormalPath(base) && base != [] && base != "/"
    requires NormalPath(dir) && dir != [] && dir[0] != '/'
    ensures Resolve(base, dir + "/") == base + "/" + dir
  {
    TrailingDropped(dir);
    assert NormalizePath(base) == base;
  }

  /** Normalizing a directory with a trailing '/' gives the directory. */
  lemma TrailingDropped(dir: string)
    requires NormalPath(dir) && dir != [] && dir[0] != '/'
    ensures NormalizePath(dir + "/") == dir
  {
    var d := dir + "/";
    CollapseFacts(dir);
    assert CollapseSlashes(dir) == dir;
    CollapseAppend(dir, "/");
    assert CollapseSlashes(d) == d;
    assert d[..|d| - 1] == dir;
  }

  /** The doubled '/' collapses and nothing else changes. */
  lemma CollapseDoubled(dir: string, name: string)
    requires NormalPath(dir) && dir != [] && dir[0] != '/'
    requires NormalPath(name) && name != [] && name[0] != '/'
    ensures CollapseSlashes(dir + "//" + name) == dir + "/" + name
  {
    var d := dir + "/";
    assert dir + "//" + name == (d + "/") + name;
    CollapseFacts(dir);
    assert CollapseSlashes(dir) == dir;
    CollapseAppend(dir, "/");
    assert CollapseSlashes(d) == d;
    CollapseRepeat(d);
    CollapseAppend(d + "/", name);
  }

  /** A second '/' after a trailing one is dropped. */
  lemma CollapseRepeat(d: string)
    requires d != [] && d[|d| - 1] == '/'
    ensures CollapseSlashes(d + "/") == CollapseSlashes(d)
  {
    var s := d + "/";
    assert s[..|s| - 1] == d;
    assert s[|s| - 2] == '/';
  }

  /** Text without "//" that does not start a new run of '/' is kept as it
      is after the collapsed prefix. */
  lemma {:induction false} CollapseAppend(s: string, y: string)
    requires s != [] && NoDoubleSlash(y)
    requires y != [] ==> s[|s| - 1] != '/' || y[0] != '/'
    ensures CollapseSlashes(s + y) == CollapseSlashes(s) + y
  {
    if y == [] {
      assert s + y == s;
    } else {
      var front := y[..|y| - 1];
      var c := y[|y| - 1];
      var t := s + front;
      assert y == front + [c];
      assert s + y == t + [c];
      NoDoubleFront(y);
      CollapseAppend(s, front);
      LastBeforeSnoc(s, y);
      CollapseSnoc(t, c);
      ConcatAssoc(CollapseSlashes(s), front, [c]);
    }
  }

  lemma NoDoubleFront(y: string)
    requires y != [] && NoDoubleSlash(y)
    ensures NoDoubleSlash(y[..|y| - 1])
  {
    var front := y[..|y| - 1];
    assert forall i :: 0 <= i < |front| ==> front[i] == y[i];
  }

  /** The character before the last of y never doubles a '/' with it. */
  lemma LastBeforeSnoc(s: string, y: string)
    requires s != [] && y != [] && NoDoubleSlash(y)
    requires s[|s| - 1] != '/' || y[0] != '/'
    ensures var t := s + y[..|y| - 1]; t[|t| - 1] != '/' || y[|y| - 1] != '/'
  {
    if |y| > 1 {
      var t := s + y[..|y| - 1];
      assert t[|t| - 1] == y[|y| - 2];
    }
  }

  lemma CollapseSnoc(t: string, c: char)
    requires t != [] && (t[|t| - 1] != '/' || c != '/')
    ensures CollapseSlashes(t + [c]) == CollapseSlashes(t) + [c]
  {
    var s := t + [c];
    assert s[..|s| - 1] == t;
    assert s[|s| - 1] == c && s[|s| - 2] == t[|t| - 1];
  }

  datatype ParseError =
    | UnrecognizedField(message: string)
    | MalformedFileRow(row: string)
    | MissingETextNo

  /** addFileInfo: the (format, path) pair of a file row. The link cell is
      widened so that a space separates it from the format; the format is
      the text before the last space and the path is the text from two
      characters after it, resolved against the DVD directory. A row with
      no space, or whose last character is the space, makes substring
      throw. */
  function FileInfo(base: string, row: string): (r: Result<(string, string), ParseError>)
    ensures var t := RowText(row);
      r.Err? <==> ' ' !in t || t[|t| - 1] == ' '
    ensures var t := RowText(row);
      r.Ok? ==> exists i :: (0 <= i < |t| - 1 && t[i] == ' ' && ' ' !in t[i + 1..]
        && r.value == (t[..i], Resolve(base, t[i + 2..])))
  {
    var t := RowText(row);
    var i := LastIndexOf(t, ' ');
    LastSpace(t, i);
    if i == -1 || i + 2 > |t| then Err(MalformedFileRow(row))
    else Ok((t[..i], Resolve(base, t[i + 2..])))
  }

  /** The row as text: a space put between the name and the link cell,
      then the tags removed. */
  function RowText(row: string): string {
    StripTags(Replace(row, "<td><a", "<td> <a"))
  }

  /** The last space is missing or last exactly when the text has no space
      or ends in one. */
  lemma LastSpace(t: string, i: int)
    requires i == LastIndexOf(t, ' ')
    ensures (i == -1 || i + 2 > |t|) <==> (' ' !in t || t[|t| - 1] == ' ')
  {
    if i != -1 && i + 2 <= |t| {
      assert t[|t| - 1] == t[i + 1..][|t| - i - 2];
    }
  }

  /** line.substring(line.indexOf("</tr><tr>") + 5) */
  function CaptionRow(line: string): (r: string)
    requires StartsWith(line, "<table><caption>")
    ensures |r| < |line| && r == line[|line| - |r|..]
    ensures Contains(line, "</tr><tr>") ==> StartsWith(r, "<tr>")
  {
    var k := IndexOf(line, "</tr><tr>");
    if k == -1 then line[4..]
    else
      assert line[k + 5..][..4] == line[k..k + 9][5..];
      line[k + 5..]
  }

  /** The parser's local state between two lines. */
  datatype Scanner = Scanner(
    metadata: Metadata,
    formats: seq<string>,
    paths: seq<string>,
    field: Option<Field>,
    inFilesSection: bool)

  const Start := Scanner(map[], [], [], None, false)

  function AppendValue(md: Metadata, k: Option<Field>, v: string): Metadata {
    md[k := (if k in md then md[k] else []) + [v]]
  }

  function AddFileInfo(base: string, st: Scanner, row: string): Result<Scanner, ParseError> {
    var (format, path) :- FileInfo(base, row);
    Ok(st.(formats := st.formats + [format], paths := st.paths + [path]))
  }

  /** One iteration of the loop over the block's lines. */
  function Step(base: string, st: Scanner, line: string): Result<Scanner, ParseError> {
    if StartsWith(line, "<th") then
      match ForString(StripTags(line))
      case Ok(f) => Ok(st.(field := Some(f)))
      case Err(m) => Err(UnrecognizedField(m))
    else if StartsWith(line, "<td") then
      var value := StripTags(line);
      if value == [] then Ok(st) else Ok(st.(metadata := AppendValue(st.metadata, st.field, value)))
    else if StartsWith(line, "<table><caption>") then
      AddFileInfo(base, st, CaptionRow(line))
    else if st.inFilesSection then
      if StartsWith(line, "</table>") then Ok(st.(inFilesSection := false))
      else AddFileInfo(base, st, line)
    else Ok(st)
  }

  /** The loop run over a prefix of the lines; the first failing line ends it. */
  function Scan(base: string, lines: seq<string>): Result<Scanner, ParseError> {
    if lines == [] then Ok(Start)
    else
      var st :- Scan(base, lines[..|lines| - 1]);
      Step(base, st, lines[|lines| - 1])
  }

  /** What follows the loop: FORMAT and PATH from the file rows when there
      are any, then URL from the first EText number (a null dereference
      without one). */
  function Finish(st: Scanner): Result<Metadata, ParseError> {
    var md := if st.formats != [] then st.metadata[Some(Format) := st.formats][Some(Path) := st.paths]
              else st.metadata;
    if Some(ETextNo) !in md || md[Some(ETextNo)] == [] then Err(MissingETextNo)
    else Ok(md[Some(Url) := [UrlPrefix + md[Some(ETextNo)][0]]])
  }

  /** DVD.book: the metadata of one block. */
  function ParseBlock(base: string, lines: seq<string>): (r: Result<Metadata, ParseError>)
    ensures Scan(base, lines).Err? ==> r == Err(Scan(base, lines).error)
    ensures r.Ok? ==>
      && Some(ETextNo) in r.value && r.value[Some(ETextNo)] != []
      && Some(Url) in r.value && r.value[Some(Url)] == [UrlPrefix + r.value[Some(ETextNo)][0]]
  {
    var st :- Scan(base, lines);
    Finish(st)
  }

  /** DVD.book as the loop the source runs. */
  method ReadBlock(base: string, lines: seq<string>) returns (r: Result<Metadata, ParseError>)
    ensures r == ParseBlock(base, lines)
  {
    var metadata: Metadata := map[];
    var formats: seq<string> := [];
    var paths: seq<string> := [];
    var field: Option<Field> := None;
    var inFilesSection := false;
    var i := 0;
    while i < |lines|
      invariant 0 <= i <= |lines|
      invariant !inFilesSection
      invariant Scan(base, lines[..i]) == Ok(Scanner(metadata, formats, paths, field, inFilesSection))
    {
      ScanNext(base, lines, i);
      var line := lines[i];
      if StartsWith(line, "<th") {
        var f := ForString(StripTags(line));
        if f.Err? {
          ScanFailureSticky(base, lines, i + 1);
          return Err(UnrecognizedField(f.error));
        }
        field := Some(f.value);
      } else if StartsWith(line, "<td") {
        var value := StripTags(line);
        if value != [] {
          var values := if field in metadata then metadata[field] else [];
          metadata := metadata[field := values + [value]];
        }
      } else if StartsWith(line, "<table><caption>") {
        var info := FileInfo(base, CaptionRow(line));
        if info.Err? {
          ScanFailureSticky(base, lines, i + 1);
          return Err(info.error);
        }
        formats := formats + [info.value.0];
        paths := paths + [info.value.1];
      } else if inFilesSection {
        // The flag starts false and no line sets it, so the file-section
        // rows of the source are never reached.
        assert false;
      }
      i := i + 1;
    }
    assert lines[..i] == lines;
    if formats != [] {
      metadata := metadata[Some(Format) := formats];
      metadata := metadata[Some(Path) := paths];
    }
    if Some(ETextNo) !in metadata || metadata[Some(ETextNo)] == [] {
      return Err(MissingETextNo);
    }
    metadata := metadata[Some(Url) := [UrlPrefix + metadata[Some(ETextNo)][0]]];
    r := Ok(metadata);
  }

  /** The loop one line further on. */
  lemma ScanNext(base: string, lines: seq<string>, i: nat)
    requires i < |lines|
    ensures Scan(base, lines[..i + 1]) ==
      if Scan(base, lines[..i]).Err? then Scan(base, lines[..i]) else Step(base, Scan(base, lines[..i]).value, lines[i])
  {
    assert lines[..i + 1][..i] == lines[..i];
  }

  /** A failure at some line is the failure of the whole block. */
  lemma {:induction false} ScanFailureSticky(base: string, lines: seq<string>, n: nat)
    requires n <= |lines| && Scan(base, lines[..n]).Err?
    ensures Scan(base, lines) == Scan(base, lines[..n])
    decreases |lines| - n
  {
    if n == |lines| {
      assert lines[..n] == lines;
    } else {
      assert lines[..n + 1][..n] == lines[..n];
      ScanFailureSticky(base, lines, n + 1);
    }
  }

  // Reference definitions over the lines read so far.

  predicate IsHeader(line: string) {
    StartsWith(line, "<th")
  }

  /** A value row that contributes a value: its stripped text is not empty. */
  predicate IsValueRow(line: string) {
    !IsHeader(line) && StartsWith(line, "<td") && StripTags(line) != []
  }

  predicate IsCaption(line: string) {
    !IsHeader(line) && !StartsWith(line, "<td") && StartsWith(line, "<table><caption>")
  }

  /** A line the parser rejects, whatever lines came before it. */
  predicate Fails(base: string, line: string) {
    (IsHeader(line) && ForString(StripTags(line)).Err?)
    || (IsCaption(line) && FileInfo(base, CaptionRow(line)).Err?)
  }

  /** The field named by the last header line, if any. */
  function Cursor(lines: seq<string>): Option<Field> {
    if lines == [] then None
    else
      var last := lines[|lines| - 1];
      if IsHeader(last) && ForString(StripTags(last)).Ok? then Some(ForString(StripTags(last)).value)
      else Cursor(lines[..|lines| - 1])
  }

  /** The stripped value rows whose cursor is k, in order. */
  function Collected(lines: seq<string>, k: Option<Field>): (r: seq<string>)
    ensures forall i :: 0 <= i < |r| ==> r[i] != []
  {
    if lines == [] then []
    else
      var p := lines[..|lines| - 1];
      var last := lines[|lines| - 1];
      Collected(p, k) + (if IsValueRow(last) && Cursor(p) == k then [StripTags(last)] else [])
  }

  /** The file rows of the caption lines, in order. */
  function CaptionRows(lines: seq<string>): seq<string> {
    if lines == [] then []
    else
      var p := lines[..|lines| - 1];
      var last := lines[|lines| - 1];
      CaptionRows(p) + (if IsCaption(last) then [CaptionRow(last)] else [])
  }

  /** A scanner state agrees with the reference definitions for lines. */
  ghost predicate Agrees(base: string, lines: seq<string>, st: Scanner) {
    && st.field == Cursor(lines)
    && !st.inFilesSection
    && (forall k :: k in st.metadata <==> Collected(lines, k) != [])
    && (forall k :: k in st.metadata ==> st.metadata[k] == Collected(lines, k))
    && |st.formats| == |CaptionRows(lines)| == |st.paths|
    && (forall j :: 0 <= j < |st.formats| ==>
          FileInfo(base, CaptionRows(lines)[j]) == Ok((st.formats[j], st.paths[j])))
  }

  /** The reference definitions one line further on. */
  lemma Extend(p: seq<string>, line: string)
    ensures Cursor(p + [line]) ==
      if IsHeader(line) && ForString(StripTags(line)).Ok? then Some(ForString(StripTags(line)).value)
      else Cursor(p)
    ensures forall k ::
      Collected(p + [line], k) == Collected(p, k) + (if IsValueRow(line) && Cursor(p) == k then [StripTags(line)] else [])
    ensures CaptionRows(p + [line]) == CaptionRows(p) + (if IsCaption(line) then [CaptionRow(line)] else [])
  {
    var lines := p + [line];
    assert lines[..|lines| - 1] == p;
    assert lines[|lines| - 1] == line;
  }

  lemma StepAgrees(base: string, p: seq<string>, st: Scanner, line: string)
    requires Agrees(base, p, st) && Step(base, st, line).Ok?
    ensures Agrees(base, p + [line], Step(base, st, line).value)
  {
    Extend(p, line);
    if IsHeader(line) {
      HeaderAgrees(base, p, st, line);
    } else if StartsWith(line, "<td") {
      if IsValueRow(line) {
        ValueAgrees(base, p, st, line);
      }
    } else if IsCaption(line) {
      CaptionAgrees(base, p, st, line);
    }
  }

  lemma HeaderAgrees(base: string, p: seq<string>, st: Scanner, line: string)
    requires Agrees(base, p, st) && IsHeader(line) && ForString(StripTags(line)).Ok?
    ensures Agrees(base, p + [line], st.(field := Some(ForString(StripTags(line)).value)))
  {
    Extend(p, line);
  }

  lemma ValueAgrees(base: string, p: seq<string>, st: Scanner, line: string)
    requires Agrees(base, p, st) && IsValueRow(line)
    ensures Agrees(base, p + [line], st.(metadata := AppendValue(st.metadata, st.field, StripTags(line))))
  {
    Extend(p, line);
  }

  lemma CaptionAgrees(base: string, p: seq<string>, st: Scanner, line: string)
    requires Agrees(base, p, st) && IsCaption(line) && FileInfo(base, CaptionRow(line)).Ok?
    ensures var (format, path) := FileInfo(base, CaptionRow(line)).value;
      Agrees(base, p + [line], st.(formats := st.formats + [format], paths := st.paths + [path]))
  {
    Extend(p, line);
    assert !IsHeader(line) && !IsValueRow(line);
    var rows := CaptionRows(p + [line]);
    assert rows == CaptionRows(p) + [CaptionRow(line)];
    assert rows[|rows| - 1] == CaptionRow(line);
  }

  lemma StepFails(base: string, st: Scanner, line: string)
    requires !st.inFilesSection
    ensures Step(base, st, line).Err? <==> Fails(base, line)
  {
  }

  /** The loop agrees with the reference definitions, and it fails exactly
      when some line is rejected. */
  lemma {:induction false} ScanAgrees(base: string, lines: seq<string>)
    ensures Scan(base, lines).Err? <==> exists i :: 0 <= i < |lines| && Fails(base, lines[i])
    ensures Scan(base, lines).Ok? ==> Agrees(base, lines, Scan(base, lines).value)
  {
    if lines != [] {
      var p := lines[..|lines| - 1];
      var last := lines[|lines| - 1];
      assert lines == p + [last];
      ScanAgrees(base, p);
      assert forall i :: 0 <= i < |p| ==> p[i] == lines[i];
      if Scan(base, p).Ok? {
        var st := Scan(base, p).value;
        StepFails(base, st, last);
        if Step(base, st, last).Ok? {
          StepAgrees(base, p, st, last);
        } else {
          assert Fails(base, lines[|lines| - 1]);
        }
      }
    }
  }

  /** A block fails exactly when one of its lines is rejected or no
      EText number was collected; only headers and caption rows can be
      rejected. */
  lemma ParseBlockFails(base: string, lines: seq<string>)
    ensures ParseBlock(base, lines).Err? <==>
      (exists i :: 0 <= i < |lines| && Fails(base, lines[i])) || Collected(lines, Some(ETextNo)) == []
    ensures (forall i :: 0 <= i < |lines| ==> !Fails(base, lines[i])) && Collected(lines, Some(ETextNo)) == []
      ==> ParseBlock(base, lines) == Err(MissingETextNo)
  {
    ScanAgrees(base, lines);
    if Scan(base, lines).Ok? {
      FinishFails(base, lines, Scan(base, lines).value);
    }
  }

  lemma FinishFails(base: string, lines: seq<string>, st: Scanner)
    requires Agrees(base, lines, st)
    ensures Finish(st).Err? <==> Collected(lines, Some(ETextNo)) == []
    ensures Finish(st).Err? ==> Finish(st) == Err(MissingETextNo)
  {
    var md := Gathered(st);
    assert Some(ETextNo) in md <==> Some(ETextNo) in st.metadata;
    assert Some(ETextNo) in md ==> md[Some(ETextNo)] == st.metadata[Some(ETextNo)];
  }

  /** A parsed block names a known field in every header line. */
  lemma HeadersRecognized(base: string, lines: seq<string>, i: int)
    requires ParseBlock(base, lines).Ok? && 0 <= i < |lines| && IsHeader(lines[i])
    ensures ForString(StripTags(lines[i])).Ok?
  {
    ParseBlockFails(base, lines);
    assert !Fails(base, lines[i]);
  }

  /** The metadata of a parsed block. Every field other than URL, FORMAT
      and PATH holds the non-empty value rows under its headers, in source
      order; URL holds one address built from the first EText number;
      FORMAT and PATH hold one entry per caption row when there is one, and
      their value rows otherwise. */
  lemma ParseBlockValues(base: string, lines: seq<string>)
    requires ParseBlock(base, lines).Ok?
    ensures var md := ParseBlock(base, lines).value;
      Some(Url) in md && Collected(lines, Some(ETextNo)) != [] &&
      md[Some(Url)] == [UrlPrefix + Collected(lines, Some(ETextNo))[0]]
    ensures var md := ParseBlock(base, lines).value;
      forall k :: k != Some(Url) && (CaptionRows(lines) == [] || (k != Some(Format) && k != Some(Path))) ==>
        (k in md <==> Collected(lines, k) != []) && (k in md ==> md[k] == Collected(lines, k))
    ensures var md := ParseBlock(base, lines).value; var rows := CaptionRows(lines);
      rows != [] ==>
        && Some(Format) in md && Some(Path) in md
        && |md[Some(Format)]| == |rows| == |md[Some(Path)]|
        && forall j :: 0 <= j < |rows| ==> FileInfo(base, rows[j]) == Ok((md[Some(Format)][j], md[Some(Path)][j]))
    ensures var md := ParseBlock(base, lines).value; forall k :: k in md ==> md[k] != []
  {
    ScanAgrees(base, lines);
    var st := Scan(base, lines).value;
    assert ParseBlock(base, lines) == Finish(st);
    FinishUrl(base, lines, st);
    FinishFields(base, lines, st);
    FinishFiles(base, lines, st);
    FinishNonEmpty(base, lines, st);
  }

  /** The metadata a finished scan holds before URL is added. */
  function Gathered(st: Scanner): Metadata {
    if st.formats != [] then st.metadata[Some(Format) := st.formats][Some(Path) := st.paths]
    else st.metadata
  }

  lemma FinishShape(st: Scanner)
    requires Finish(st).Ok?
    ensures var md := Gathered(st);
      Some(ETextNo) in md && md[Some(ETextNo)] != [] &&
      Finish(st).value == md[Some(Url) := [UrlPrefix + md[Some(ETextNo)][0]]]
  {
  }

  lemma FinishUrl(base: string, lines: seq<string>, st: Scanner)
    requires Agrees(base, lines, st) && Finish(st).Ok?
    ensures var md := Finish(st).value;
      Some(Url) in md && Collected(lines, Some(ETextNo)) != [] &&
      md[Some(Url)] == [UrlPrefix + Collected(lines, Some(ETextNo))[0]]
  {
    FinishShape(st);
    assert Gathered(st)[Some(ETextNo)] == st.metadata[Some(ETextNo)];
  }

  lemma FinishFields(base: string, lines: seq<string>, st: Scanner)
    requires Agrees(base, lines, st) && Finish(st).Ok?
    ensures var md := Finish(st).value;
      forall k :: k != Some(Url) && (CaptionRows(lines) == [] || (k != Some(Format) && k != Some(Path))) ==>
        (k in md <==> Collected(lines, k) != []) && (k in md ==> md[k] == Collected(lines, k))
  {
    FinishShape(st);
  }

  lemma FinishFiles(base: string, lines: seq<string>, st: Scanner)
    requires Agrees(base, lines, st) && Finish(st).Ok?
    ensures var md := Finish(st).value; var rows := CaptionRows(lines);
      rows != [] ==>
        && Some(Format) in md && Some(Path) in md
        && |md[Some(Format)]| == |rows| == |md[Some(Path)]|
        && forall j :: 0 <= j < |rows| ==> FileInfo(base, rows[j]) == Ok((md[Some(Format)][j], md[Some(Path)][j]))
  {
    FinishShape(st);
  }

  lemma FinishNonEmpty(base: string, lines: seq<string>, st: Scanner)
    requires Agrees(base, lines, st) && Finish(st).Ok?
    ensures var md := Finish(st).value; forall k :: k in md ==> md[k] != []
  {
    FinishShape(st);
    assert forall k :: k in st.metadata ==> st.metadata[k] != [];
  }

  /** A parsed block is a record: no key holds an empty list. */
  lemma ParseBlockRecord(base: string, lines: seq<string>)
    requires ParseBlock(base, lines).Ok?
    ensures forall k :: k in ParseBlock(base, lines).value ==> ParseBlock(base, lines).value[k] != []
  {
    ParseBlockValues(base, lines);
  }

  /** DVD.book as a record: the parsed metadata, or the parser's error. */
  function ParseRecord(base: string, lines: seq<string>): (r: Result<Record, ParseError>)
    ensures r.Ok? <==> ParseBlock(base, lines).Ok?
    ensures r.Ok? ==> r.value == ParseBlock(base, lines).value
    ensures r.Err? ==> r.error == ParseBlock(base, lines).error
  {
    match ParseBlock(base, lines)
    case Err(e) => Err(e)
    case Ok(md) =>
      ParseBlockRecord(base, lines);
      Ok(md)
  }

  /** DVD.book followed by new Book(metadata): a fresh record whose memo is
      empty. */
  method ReadBook(base: string, lines: seq<string>, env: Env) returns (r: Result<Book, ParseError>)
    ensures r.Err? ==> ParseRecord(base, lines) == Err(r.error)
    ensures r.Ok? ==>
      && ParseRecord(base, lines) == Ok(r.value.metadata)
      && fresh(r.value) && r.value.env == env && r.value.Valid()
      && r.value.plaintextContent.None? && r.value.plaintextContentNormalized.None?
      && r.value.lineCount.None?
  {
    var md := ReadBlock(base, lines);
    if md.Err? {
      return Err(md.error);
    }
    ParseBlockRecord(base, lines);
    assert ParseRecord(base, lines).value == md.value;
    var book := new Book(md.value, env);
    return Ok(book);
  }
}
