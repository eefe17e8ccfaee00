/** A catalogue record: its metadata map and the plain-text views derived
    from its payload file (Book.java). */
module Books {
  import opened Wrappers
  import opened Text
  import opened Fields

  /** A metadata map as the parser builds it. The key None stands for
      Java's null key, under which a value row seen before any header row
      is stored. */
  type Metadata = map<Option<Field>, seq<string>>

  /** The metadata a record is built from: every list holds a value. */
  type Record = m: Metadata | forall k :: k in m ==> m[k] != [] witness map[]

  // ---------------------------------------------------------------------
  // The payload file, as far as the record's views depend on it.

  datatype ZipEntry = ZipEntry(name: string, lines: seq<string>)

  /** A zip archive that opens (its entries in archive order) or one that
      does not. */
  datatype Zip = Corrupt | Archive(entries: seq<ZipEntry>)

  /** The file PATH resolves to: its name, its lines when read as text
      (None when reading fails), and what opening it as a zip gives. */
  datatype PayloadFile = PayloadFile(name: string, text: Option<seq<string>>, zip: Zip)

  /** The environment a record consults: the files of the DVD by path and
      the charset names the runtime supports. */
  datatype Env = Env(files: map<string, PayloadFile>, charsets: set<string>)

  datatype BookError =
    | NoFormat                          // getFirst(FORMAT).get() on a record without FORMAT
    | NoPath                            // getFirst(PATH).get() on a record without PATH
    | FileNotFound(path: string)        // no file for the PATH value
    | ReadFailure(name: string)         // reading a .txt payload failed
    | UnclosedCharset(format: string)   // charset=" without a closing quote
    | IllegalCharsetName(name: string)  // a name Charset.forName rejects outright
    | NoExtension(name: string)         // a file name without a '.'
    | EmptyMetadata                     // nothing to print, so no final newline to drop

  // ---------------------------------------------------------------------
  // Charset inference (Book.getCharset).

  predicate IsAsciiLetterOrDigit(c: char) {
    'a' <= c <= 'z' || 'A' <= c <= 'Z' || '0' <= c <= '9'
  }

  /** The names Charset.forName accepts as names: not empty, starting with
      a letter or digit, then letters, digits and - + : _ . only. */
  predicate LegalCharsetName(name: string) {
    && name != []
    && IsAsciiLetterOrDigit(name[0])
    && forall i :: 0 < i < |name| ==>
         IsAsciiLetterOrDigit(name[i]) || name[i] in "-+:_."
  }

  /** Charset.forName: an illegal name throws; a legal one not supported
      throws UnsupportedCharsetException, which getCharset turns into empty. */
  function CharsetByName(name: string, charsets: set<string>): (r: Result<Option<string>, BookError>)
    ensures r.Err? <==> !LegalCharsetName(name)
    ensures r.Ok? && r.value.Some? <==> LegalCharsetName(name) && name in charsets
    ensures r.Ok? && r.value.Some? ==> r.value.value == name
  {
    if !LegalCharsetName(name) then Err(IllegalCharsetName(name))
    else if name in charsets then Ok(Some(name))
    else Ok(None)
  }

  const CharsetParam := "charset=\""

  /** Book.getCharset: the quoted charset parameter when there is one
      ("macintosh" standing for MacRoman), otherwise US-ASCII for a
      text/plain format, otherwise none. */
  function GetCharset(format: string, charsets: set<string>): (r: Result<Option<string>, BookError>)
    ensures r.Ok? && r.value.Some? ==>
      r.value.value in charsets || (r.value.value == "US-ASCII" && !Contains(format, CharsetParam))
    ensures r.Ok? && r.value.Some? ==> r.value.value != "macintosh"
    ensures r.Err? ==> Contains(format, CharsetParam)
  {
    var i := IndexOf(format, CharsetParam);
    if i != -1 then
      var remainder := format[i + 9..];
      var j := IndexOfChar(remainder, '"');
      if j == -1 then Err(UnclosedCharset(format))
      else
        var name := remainder[..j];
        CharsetByName(if name == "macintosh" then "MacRoman" else name, charsets)
    else if StartsWith(format, "text/plain") then Ok(Some("US-ASCII"))
    else Ok(None)
  }

  /** The first quoted charset parameter decides, whatever the media type;
      "macintosh" is looked up as MacRoman. */
  lemma CharsetFromParameter(format: string, pre: string, name: string, post: string, charsets: set<string>)
    requires format == pre + CharsetParam + name + "\"" + post
    requires IndexOf(format, CharsetParam) == |pre|
    requires '"' !in name
    ensures GetCharset(format, charsets) == CharsetByName(if name == "macintosh" then "MacRoman" else name, charsets)
  {
    var head := pre + CharsetParam;
    var rest := name + "\"" + post;
    ConcatAssoc(head, name, "\"");
    ConcatAssoc(head, name + "\"", post);
    assert format == head + rest;
    SplitJoin(head, rest);
    SplitJoin(name, "\"" + post);
    ConcatAssoc(name, "\"", post);
    IndexOfCharAt(rest, '"', |name|);
  }

  /** Without a charset parameter, a text/plain format is read as US-ASCII
      and any other format has no charset. */
  lemma CharsetDefault(format: string, charsets: set<string>)
    requires !Contains(format, CharsetParam)
    ensures StartsWith(format, "text/plain") ==> GetCharset(format, charsets) == Ok(Some("US-ASCII"))
    ensures !StartsWith(format, "text/plain") ==> GetCharset(format, charsets) == Ok(None)
  {
  }

  /** A parameter whose quote is never closed makes substring throw. */
  lemma CharsetUnclosed(format: string, charsets: set<string>)
    requires Contains(format, CharsetParam)
    requires '"' !in format[IndexOf(format, CharsetParam) + 9..]
    ensures GetCharset(format, charsets) == Err(UnclosedCharset(format))
  {
  }

  // ---------------------------------------------------------------------
  // Payload choice (getPlaintextContent(), zipEntryCount,
  // getPlaintextContentFromZip).

  /** Book.zipEntryCount: the number of entries of a .zip payload, -1 when
      the archive cannot be opened, 0 for any other payload. */
  function ZipEntryCount(file: PayloadFile): (r: int)
    ensures r >= -1
    ensures !EndsWith(file.name, ".zip") ==> r == 0
    ensures EndsWith(file.name, ".zip") && file.zip.Archive? ==> r == |file.zip.entries|
  {
    if !EndsWith(file.name, ".zip") then 0
    else match file.zip
      case Corrupt => -1
      case Archive(entries) => |entries|
  }

  /** The entries whose name ends with ".txt", in archive order. */
  function TxtEntries(entries: seq<ZipEntry>): (r: seq<ZipEntry>)
    ensures forall e :: e in r ==> e in entries && EndsWith(e.name, ".txt")
    ensures forall e :: e in entries && EndsWith(e.name, ".txt") ==> e in r
  {
    if entries == [] then []
    else
      var p := TxtEntries(entries[..|entries| - 1]);
      var last := entries[|entries| - 1];
      assert forall e :: e in entries ==> e in entries[..|entries| - 1] || e == last;
      if EndsWith(last.name, ".txt") then p + [last] else p
  }

  /** The text of the archive's only ".txt" entry; none when there is no
      such entry or more than one. */
  function ZipText(entries: seq<ZipEntry>): (r: Option<seq<string>>)
    ensures r.Some? <==> |TxtEntries(entries)| == 1
    ensures r.Some? ==> exists e :: e in entries && EndsWith(e.name, ".txt") && r.value == e.lines
  {
    var txt := TxtEntries(entries);
    if |txt| == 1 then
      assert txt[0] in txt;
      Some(txt[0].lines)
    else None
  }

  /** getPlaintextContentFromZip: one pass over the entries remembering the
      last ".txt" entry and how many there were. */
  method ReadZipText(entries: seq<ZipEntry>) returns (r: Option<seq<string>>)
    ensures r == ZipText(entries)
  {
    var textEntry: Option<ZipEntry> := None;
    var textEntryCount := 0;
    var i := 0;
    while i < |entries|
      invariant 0 <= i <= |entries|
      invariant textEntryCount == |TxtEntries(entries[..i])|
      invariant textEntryCount == 0 <==> textEntry.None?
      invariant textEntry.Some? ==> textEntry.value == TxtEntries(entries[..i])[textEntryCount - 1]
    {
      assert entries[..i + 1][..i] == entries[..i];
      var entry := entries[i];
      if EndsWith(entry.name, ".txt") {
        textEntry := Some(entry);
        textEntryCount := textEntryCount + 1;
      }
      i := i + 1;
    }
    assert entries[..i] == entries;
    if textEntryCount == 1 {
      return Some(textEntry.value.lines);
    }
    return None;
  }

  /** The file the record's PATH resolves to (GutenProc.getFileCaseInsensitive
      is not part of this model; it is a lookup in the environment). */
  function GetFile(md: Record, env: Env): (r: Result<PayloadFile, BookError>)
    ensures Some(Path) !in md ==> r == Err(NoPath)
    ensures Some(Path) in md ==> var path := md[Some(Path)][0];
      && (r.Ok? <==> path in env.files)
      && (r.Ok? ==> r.value == env.files[path])
      && (r.Err? ==> r == Err(FileNotFound(path)))
  {
    if Some(Path) !in md then Err(NoPath)
    else
      var path := md[Some(Path)][0];
      if path in env.files then Ok(env.files[path]) else Err(FileNotFound(path))
  }

  /** Book.getPlaintextContent(): the raw lines of the payload. There are
      lines only when a charset is resolved and then only for a .txt file,
      or for a zip of exactly one entry, in a text/plain format, holding
      exactly one ".txt" entry. */
  function RawContent(md: Record, env: Env): (r: Result<Option<seq<string>>, BookError>)
    ensures Some(Format) !in md ==> r == Err(NoFormat)
    ensures r.Ok? && r.value.Some? ==>
      && Some(Format) in md
      && GetCharset(md[Some(Format)][0], env.charsets).Ok?
      && GetCharset(md[Some(Format)][0], env.charsets).value.Some?
      && GetFile(md, env).Ok?
      && var file := GetFile(md, env).value;
         || (EndsWith(file.name, ".txt") && file.text == Some(r.value.value))
         || (&& ZipEntryCount(file) == 1 && file.zip.Archive?
             && StartsWith(md[Some(Format)][0], "text/plain")
             && |TxtEntries(file.zip.entries)| == 1
             && r.value.value == TxtEntries(file.zip.entries)[0].lines)
    ensures Some(Format) in md ==> var charset := GetCharset(md[Some(Format)][0], env.charsets);
      && (charset.Err? ==> r == Err(charset.error))
      && (charset == Ok(None) ==> r == Ok(None))
      && (charset.Ok? && charset.value.Some? && GetFile(md, env).Err? ==> r == Err(GetFile(md, env).error))
    ensures (&& Some(Format) in md && GetCharset(md[Some(Format)][0], env.charsets).Ok?
             && GetCharset(md[Some(Format)][0], env.charsets).value.Some? && GetFile(md, env).Ok?) ==>
      var file := GetFile(md, env).value;
      && (EndsWith(file.name, ".txt") ==>
            r == if file.text.None? then Err(ReadFailure(file.name)) else Ok(file.text))
      && ((!EndsWith(file.name, ".txt") && ZipEntryCount(file) == 1
           && StartsWith(md[Some(Format)][0], "text/plain")) ==> r == Ok(ZipText(file.zip.entries)))
      && ((!EndsWith(file.name, ".txt")
           && !(ZipEntryCount(file) == 1 && StartsWith(md[Some(Format)][0], "text/plain"))) ==> r == Ok(None))
  {
    if Some(Format) !in md then Err(NoFormat)
    else
      var format := md[Some(Format)][0];
      var charset :- GetCharset(format, env.charsets);
      if charset.None? then Ok(None)
      else
        var file :- GetFile(md, env);
        if EndsWith(file.name, ".txt") then
          match file.text
          case None => Err(ReadFailure(file.name))
          case Some(lines) => Ok(Some(lines))
        else if ZipEntryCount(file) == 1 && StartsWith(format, "text/plain") then
          Ok(ZipText(file.zip.entries))
        else Ok(None)
  }

  /** A zip with no ".txt" entry or with several gives no raw content. */
  lemma ZipAmbiguous(md: Record, env: Env)
    requires Some(Format) in md && GetFile(md, env).Ok?
    requires var file := GetFile(md, env).value;
      !EndsWith(file.name, ".txt") && file.zip.Archive? && |TxtEntries(file.zip.entries)| != 1
    ensures RawContent(md, env).Ok? ==> RawContent(md, env).value.None?
    ensures GetCharset(md[Some(Format)][0], env.charsets).Ok? ==> RawContent(md, env) == Ok(None)
  {
  }

  // ---------------------------------------------------------------------
  // The text normalizer (Book.normalizeText).

  /** A boilerplate line: its lower-cased text mentions Project Gutenberg,
      the public domain or an etext, or a Gutenberg address. */
  predicate IsMarker(line: string) {
    var lc := LowerStr(line);
    Contains(lc, "project gutenberg") || Contains(lc, "public domain") || Contains(lc, " etext")
    || (Contains(lc, "gutenberg") && Contains(lc, "http"))
  }

  /** Cutting a line short never makes it a marker. */
  lemma MarkerPrefix(line: string, n: nat)
    requires n <= |line| && IsMarker(line[..n])
    ensures IsMarker(line)
  {
    var lc := LowerStr(line);
    LowerPrefix(line, n);
    forall t | Contains(lc[..n], t) ensures Contains(lc, t) {
      ContainsInPrefix(lc, n, t);
    }
  }

  /** Removing trailing whitespace from a non-marker leaves a non-marker. */
  lemma StripKeepsNonMarker(line: string)
    requires !IsMarker(line)
    ensures !IsMarker(StripTrailingSpace(line))
  {
    var t := StripTrailingSpace(line);
    if IsMarker(t) {
      MarkerPrefix(line, |t|);
    }
  }

  /** The normalizer's state: the lines held, the blank-suppression flag,
      and whether the loop has broken off. */
  datatype Normalizer = Normalizer(lines: seq<string>, skipNextIfBlank: bool, stopped: bool)

  const NormStart := Normalizer([], true, false)

  /** One iteration of normalizeText's loop. */
  function NormStep(st: Normalizer, line: string): Normalizer {
    if st.stopped then st
    else if IsMarker(line) then
      if |st.lines| > 90 then
        var kept := if st.lines[|st.lines| - 1] == "" then st.lines[..|st.lines| - 1] else st.lines;
        Normalizer(kept, st.skipNextIfBlank, true)
      else Normalizer([], true, false)
    else if IsBlank(line) then
      if !st.skipNextIfBlank then Normalizer(st.lines + [""], true, false) else st
    else Normalizer(st.lines + [StripTrailingSpace(line)], false, false)
  }

  /** The loop run over a prefix of the input. */
  function NormRun(input: seq<string>): Normalizer {
    if input == [] then NormStart
    else NormStep(NormRun(input[..|input| - 1]), input[|input| - 1])
  }

  /** A blank line is never taken for a boilerplate marker. */
  lemma BlankNotMarker(line: string)
    ensures IsBlank(line) ==> !IsMarker(line)
  {
    if IsBlank(line) {
      var lc := LowerStr(line);
      assert IsBlank(lc);
      if Contains(lc, "project gutenberg") { BlankContains(lc, "project gutenberg", 0); }
      if Contains(lc, "public domain") { BlankContains(lc, "public domain", 0); }
      if Contains(lc, " etext") { BlankContains(lc, " etext", 1); }
      if Contains(lc, "gutenberg") { BlankContains(lc, "gutenberg", 0); }
    }
  }

  /** A run of blank lines before the loop has broken off leaves one empty
      line when the last line held is text, and nothing otherwise. */
  lemma {:induction false} BlankRun(p: seq<string>, blanks: seq<string>)
    requires blanks != [] && !NormRun(p).stopped
    requires forall i :: 0 <= i < |blanks| ==> IsBlank(blanks[i])
    ensures var st := NormRun(p);
      NormRun(p + blanks) == if st.skipNextIfBlank then st else Normalizer(st.lines + [""], true, false)
  {
    var n := |blanks| - 1;
    var x := blanks[n];
    BlankNotMarker(x);
    assert (p + blanks)[..|p + blanks| - 1] == p + blanks[..n];
    if n == 0 {
      assert p + blanks[..n] == p;
    } else {
      BlankRun(p, blanks[..n]);
    }
  }

  /** Book.normalizeText: the body text, or None (null) when fewer than 80
      lines are held at the end. */
  function NormalizeText(input: seq<string>): (r: Option<seq<string>>)
    ensures r.None? <==> |NormRun(input).lines| < 80
    ensures r.Some? ==> r.value == NormRun(input).lines
  {
    var st := NormRun(input);
    if |st.lines| < 80 then None else Some(st.lines)
  }

  /** Once the loop breaks off, later lines change nothing. */
  lemma {:induction false} NormStoppedSticky(input: seq<string>, n: nat)
    requires n <= |input| && NormRun(input[..n]).stopped
    ensures NormRun(input) == NormRun(input[..n])
    decreases |input| - n
  {
    if n == |input| {
      assert input[..n] == input;
    } else {
      assert input[..n + 1][..n] == input[..n];
      NormStoppedSticky(input, n + 1);
    }
  }

  /** normalizeText as the loop the source runs, break included. */
  method NormalizeLines(input: seq<string>) returns (r: Option<seq<string>>)
    ensures r == NormalizeText(input)
  {
    var lines: seq<string> := [];
    var skipNextIfBlank := true;
    var i := 0;
    while i < |input|
      invariant 0 <= i <= |input|
      invariant NormRun(input[..i]) == Normalizer(lines, skipNextIfBlank, false)
    {
      assert input[..i + 1][..i] == input[..i];
      var line := input[i];
      ghost var next := NormStep(Normalizer(lines, skipNextIfBlank, false), line);
      assert NormRun(input[..i + 1]) == next;
      if IsMarker(line) {
        if |lines| > 90 {
          if |lines[|lines| - 1]| == 0 {
            lines := lines[..|lines| - 1];
          }
          NormStoppedSticky(input, i + 1);
          break;
        } else {
          lines := [];
          skipNextIfBlank := true;
        }
      } else if IsBlank(line) {
        if !skipNextIfBlank {
          lines := lines + [""];
          skipNextIfBlank := true;
        }
      } else {
        lines := lines + [StripTrailingSpace(line)];
        skipNextIfBlank := false;
      }
      assert next == Normalizer(lines, skipNextIfBlank, false);
      i := i + 1;
    }
    if i == |input| {
      assert input[..i] == input;
    }
    if |lines| < 80 {
      return None;
    }
    return Some(lines);
  }

  /** The lines normalizeText keeps from the input: each non-blank line
      that is not a marker, with its trailing whitespace removed. */
  function KeptLines(input: seq<string>): (r: seq<string>)
    ensures forall j :: 0 <= j < |r| ==> r[j] != [] && !IsMarker(r[j])
  {
    if input == [] then []
    else
      var line := input[|input| - 1];
      var p := KeptLines(input[..|input| - 1]);
      if IsMarker(line) || IsBlank(line) then p
      else
        var t := StripTrailingSpace(line);
        StripNonBlank(line);
        StripKeepsNonMarker(line);
        p + [t]
  }

  /** No blank line first and no two blank lines in a row. */
  predicate WellSpaced(lines: seq<string>) {
    && (lines != [] ==> lines[0] != "")
    && forall i :: 0 <= i < |lines| - 1 ==> lines[i] != "" || lines[i + 1] != ""
  }

  /** What holds of the normalizer's state after any prefix of the input. */
  predicate NormInvariant(input: seq<string>, st: Normalizer) {
    && WellSpaced(st.lines)
    && (!st.stopped ==> (st.skipNextIfBlank <==> st.lines == [] || st.lines[|st.lines| - 1] == ""))
    && (st.stopped ==> |st.lines| >= 90 && st.lines[|st.lines| - 1] != "")
    && forall j :: 0 <= j < |st.lines| ==> st.lines[j] == "" || st.lines[j] in KeptLines(input)
  }

  lemma KeptExtend(input: seq<string>, line: string)
    ensures KeptLines(input + [line]) ==
      KeptLines(input) + (if IsMarker(line) || IsBlank(line) then [] else [StripTrailingSpace(line)])
  {
    var input' := input + [line];
    assert input'[..|input'| - 1] == input;
  }

  /** Reading one more line keeps every line kept so far. */
  lemma InvariantExtend(input: seq<string>, st: Normalizer, line: string)
    requires NormInvariant(input, st)
    ensures NormInvariant(input + [line], st)
  {
    KeptExtend(input, line);
    assert forall x :: x in KeptLines(input) ==> x in KeptLines(input + [line]);
  }

  lemma StopInvariant(input: seq<string>, st: Normalizer)
    requires NormInvariant(input, st) && !st.stopped && |st.lines| > 90
    ensures var n := |st.lines|;
      var kept := if st.lines[n - 1] == "" then st.lines[..n - 1] else st.lines;
      NormInvariant(input, Normalizer(kept, st.skipNextIfBlank, true))
  {
    var n := |st.lines|;
    if st.lines[n - 1] == "" {
      assert st.lines[n - 2] != "";
    }
  }

  lemma BlankInvariant(input: seq<string>, st: Normalizer)
    requires NormInvariant(input, st) && !st.stopped && !st.skipNextIfBlank
    ensures NormInvariant(input, Normalizer(st.lines + [""], true, false))
  {
    var lines := st.lines + [""];
    assert forall i :: 0 <= i < |st.lines| ==> lines[i] == st.lines[i];
    WellSpacedBlank(st.lines);
  }

  /** A blank line after a non-blank one keeps the spacing. */
  lemma WellSpacedBlank(lines: seq<string>)
    requires WellSpaced(lines) && lines != [] && lines[|lines| - 1] != ""
    ensures WellSpaced(lines + [""])
  {
    var r := lines + [""];
    assert forall i :: 0 <= i < |lines| ==> r[i] == lines[i];
  }

  lemma TextInvariant(input: seq<string>, st: Normalizer, line: string)
    requires NormInvariant(input, st) && !st.stopped && !IsMarker(line) && !IsBlank(line)
    ensures NormInvariant(input + [line], Normalizer(st.lines + [StripTrailingSpace(line)], false, false))
  {
    InvariantExtend(input, st, line);
    KeptExtend(input, line);
    StripNonBlank(line);
    var t := StripTrailingSpace(line);
    assert t in KeptLines(input + [line]);
  }

  lemma NormStepInvariant(input: seq<string>, st: Normalizer, line: string)
    requires NormInvariant(input, st)
    ensures NormInvariant(input + [line], NormStep(st, line))
  {
    InvariantExtend(input, st, line);
    if st.stopped {
    } else if IsMarker(line) {
      if |st.lines| > 90 {
        StopInvariant(input + [line], st);
      }
    } else if IsBlank(line) {
      if !st.skipNextIfBlank {
        BlankInvariant(input + [line], st);
      }
    } else {
      TextInvariant(input, st, line);
    }
  }

  lemma {:induction false} NormRunInvariant(input: seq<string>)
    ensures NormInvariant(input, NormRun(input))
  {
    if input != [] {
      var p := input[..|input| - 1];
      NormRunInvariant(p);
      assert p + [input[|input| - 1]] == input;
      NormStepInvariant(p, NormRun(p), input[|input| - 1]);
    }
  }

  /** The early stop keeps more than 90 lines less at most one trailing
      blank, so a text that reaches it is never rejected. */
  lemma NormStopAccepted(input: seq<string>)
    requires NormRun(input).stopped
    ensures NormalizeText(input).Some? && |NormalizeText(input).value| >= 90
    ensures NormalizeText(input).value[|NormalizeText(input).value| - 1] != ""
  {
    NormRunStopped(input);
  }

  lemma NormRunStopped(input: seq<string>)
    requires NormRun(input).stopped
    ensures |NormRun(input).lines| >= 90 && NormRun(input).lines[|NormRun(input).lines| - 1] != ""
  {
    NormRunInvariant(input);
  }

  /** The normalized text: at least 80 lines, no blank line first, no two
      blank lines in a row, and every other line is a kept input line, so
      no line is a marker. */
  lemma NormalizedShape(input: seq<string>)
    requires NormalizeText(input).Some?
    ensures var out := NormalizeText(input).value;
      && |out| >= 80
      && WellSpaced(out)
      && (forall j :: 0 <= j < |out| ==> out[j] == "" || out[j] in KeptLines(input))
      && (forall j :: 0 <= j < |out| ==> !IsMarker(out[j]))
  {
    NormRunInvariant(input);
    var out := NormalizeText(input).value;
    forall j | 0 <= j < |out| ensures !IsMarker(out[j]) {
      if out[j] != "" {
        var k :| 0 <= k < |KeptLines(input)| && KeptLines(input)[k] == out[j];
      } else {
        assert !Contains(LowerStr(out[j]), "gutenberg");
      }
    }
  }

  /** The number of non-empty lines (Book.lineCount's loop). */
  function CountNonEmpty(lines: seq<string>): (r: nat)
    ensures r <= |lines|
  {
    if lines == [] then 0
    else CountNonEmpty(lines[..|lines| - 1]) + (if lines[|lines| - 1] != "" then 1 else 0)
  }

  /** In well-spaced text at least every other line is non-empty. */
  lemma {:induction false} WellSpacedCount(lines: seq<string>)
    requires WellSpaced(lines)
    ensures |lines| <= 2 * CountNonEmpty(lines)
  {
    if lines != [] {
      var n := |lines|;
      var p := lines[..n - 1];
      assert WellSpaced(p);
      WellSpacedCount(p);
      if lines[n - 1] == "" && n >= 2 {
        var q := p[..n - 2];
        assert WellSpaced(q);
        WellSpacedCount(q);
        assert p[n - 2] != "";
        assert CountNonEmpty(p) == CountNonEmpty(q) + 1;
      }
    }
  }

  /** A normalized text of n lines has at least n/2 non-empty lines, so at
      least 40. */
  lemma NormalizedLineCount(input: seq<string>)
    requires NormalizeText(input).Some?
    ensures 2 * CountNonEmpty(NormalizeText(input).value) >= |NormalizeText(input).value| >= 80
  {
    NormalizedShape(input);
    WellSpacedCount(NormalizeText(input).value);
  }

  // ---------------------------------------------------------------------
  // Derived views that need no memo.

  /** The field order of getPlaintextMetadata. */
  const PrintOrder: seq<Field> := [Title, Author, Contributor, Language, Subject, LocClass, Note,
    ReleaseDate, CopyrightStatus, ETextNo, BaseDir, Format, Path, Url]

  /** The print order lists every field exactly once. */
  lemma PrintOrderComplete()
    ensures |PrintOrder| == |Values|
    ensures forall f: Field :: f in PrintOrder
    ensures forall i, j :: 0 <= i < j < |PrintOrder| ==> PrintOrder[i] != PrintOrder[j]
  {
    forall f: Field ensures f in PrintOrder {
      match f
      case Title => assert PrintOrder[0] == f;
      case Author => assert PrintOrder[1] == f;
      case Contributor => assert PrintOrder[2] == f;
      case Language => assert PrintOrder[3] == f;
      case Subject => assert PrintOrder[4] == f;
      case LocClass => assert PrintOrder[5] == f;
      case Note => assert PrintOrder[6] == f;
      case ReleaseDate => assert PrintOrder[7] == f;
      case CopyrightStatus => assert PrintOrder[8] == f;
      case ETextNo => assert PrintOrder[9] == f;
      case BaseDir => assert PrintOrder[10] == f;
      case Format => assert PrintOrder[11] == f;
      case Path => assert PrintOrder[12] == f;
      case Url => assert PrintOrder[13] == f;
    }
    AllValues();
  }

  /** addValuesIfPresent for one field: a "Label: value" line per value. */
  function ValueLines(name: string, values: seq<string>): string {
    if values == [] then ""
    else ValueLines(name, values[..|values| - 1]) + ValueLine(name, values[|values| - 1])
  }

  function ValueLine(name: string, value: string): string {
    name + ": " + value + "\n"
  }

  /** getPlaintextMetadata(fields...): the value lines of the fields present. */
  function MetadataText(md: Metadata, fields: seq<Field>): string {
    if fields == [] then ""
    else
      var f := fields[|fields| - 1];
      MetadataText(md, fields[..|fields| - 1]) + FieldLines(md, f)
  }

  function FieldLines(md: Metadata, f: Field): string {
    if Some(f) in md then ValueLines(f.Label(), md[Some(f)]) else ""
  }

  /** The number of newlines in a string. */
  function Newlines(s: string): nat {
    multiset(s)['\n']
  }

  /** The number of values of the fields present. */
  function ValueCount(md: Metadata, fields: seq<Field>): nat {
    if fields == [] then 0
    else
      var f := fields[|fields| - 1];
      ValueCount(md, fields[..|fields| - 1]) + (if Some(f) in md then |md[Some(f)]| else 0)
  }

  lemma LabelsSingleLine(f: Field)
    ensures '\n' !in f.Label()
  {
  }

  lemma ValueLineCount(name: string, v: string)
    requires '\n' !in name && '\n' !in v
    ensures Newlines(ValueLine(name, v)) == 1
  {
    assert multiset(ValueLine(name, v)) == multiset(name) + multiset(": ") + multiset(v) + multiset("\n");
  }

  lemma {:induction false} ValueLinesCount(name: string, values: seq<string>)
    requires '\n' !in name
    requires forall i :: 0 <= i < |values| ==> '\n' !in values[i]
    ensures Newlines(ValueLines(name, values)) == |values|
  {
    if values != [] {
      var p := values[..|values| - 1];
      ValueLinesCount(name, p);
      ValueLineCount(name, values[|values| - 1]);
    }
  }

  lemma {:induction false} ValueLinesEnd(name: string, values: seq<string>)
    ensures var t := ValueLines(name, values); t != [] ==> t[|t| - 1] == '\n'
  {
    if values != [] {
      ValueLinesEnd(name, values[..|values| - 1]);
    }
  }

  /** The metadata text, when not empty, ends with a newline. */
  lemma {:induction false} MetadataTextEnd(md: Metadata, fields: seq<Field>)
    ensures var t := MetadataText(md, fields); t != [] ==> t[|t| - 1] == '\n'
  {
    if fields != [] {
      var f := fields[|fields| - 1];
      MetadataTextEnd(md, fields[..|fields| - 1]);
      if Some(f) in md {
        ValueLinesEnd(f.Label(), md[Some(f)]);
      }
      assert MetadataText(md, fields) == MetadataText(md, fields[..|fields| - 1]) + FieldLines(md, f);
    }
  }

  /** The metadata text holds exactly one line per value. */
  lemma {:induction false} MetadataTextLines(md: Metadata, fields: seq<Field>)
    requires forall k, i :: k in md && 0 <= i < |md[k]| ==> '\n' !in md[k][i]
    ensures Newlines(MetadataText(md, fields)) == ValueCount(md, fields)
  {
    if fields != [] {
      var f := fields[|fields| - 1];
      MetadataTextLines(md, fields[..|fields| - 1]);
      if Some(f) in md {
        LabelsSingleLine(f);
        ValueLinesCount(f.Label(), md[Some(f)]);
      }
      assert MetadataText(md, fields) == MetadataText(md, fields[..|fields| - 1]) + FieldLines(md, f);
    }
  }

  /** The two computed lines of getPlaintextMetadata(true). */
  function ComputedLines(zipEntries: int, lineCount: int): string {
    "Zip Entries: " + IntToString(zipEntries) + "\n" + "Text Lines: " + IntToString(lineCount) + "\n"
  }

  /** The computed lines end with a line break. */
  lemma ComputedLinesEnd(zipEntries: int, lineCount: int)
    ensures var t := ComputedLines(zipEntries, lineCount); t != [] && t[|t| - 1] == '\n'
  {
    var head := "Zip Entries: " + IntToString(zipEntries) + "\n" + "Text Lines: " + IntToString(lineCount);
    assert ComputedLines(zipEntries, lineCount) == head + "\n";
  }

  /** Two texts that each end with a line break (or are empty) lose just
      that break when their join is cut by one character. */
  lemma ChopNewline(text: string, computed: string)
    requires text != [] ==> text[|text| - 1] == '\n'
    requires computed != [] ==> computed[|computed| - 1] == '\n'
    requires text + computed != []
    ensures var v := text + computed; v[..|v| - 1] + "\n" == v
  {
    var v := text + computed;
    assert v[|v| - 1] == '\n';
    assert v == v[..|v| - 1] + [v[|v| - 1]];
  }

  /** getPlaintextMetadata(fields...), as the builder loop. */
  method BuildMetadataText(md: Metadata, fields: seq<Field>) returns (text: string)
    ensures text == MetadataText(md, fields)
  {
    text := "";
    for i := 0 to |fields|
      invariant text == MetadataText(md, fields[..i])
    {
      assert fields[..i + 1][..i] == fields[..i];
      text := AddValuesIfPresent(md, fields[i], text);
    }
    assert fields[..|fields|] == fields;
  }

  /** addValuesIfPresent: appends the field's value lines, if it has any. */
  method AddValuesIfPresent(md: Metadata, f: Field, before: string) returns (text: string)
    ensures text == before + FieldLines(md, f)
  {
    text := before;
    if Some(f) in md {
      var values := md[Some(f)];
      var name := f.Label();
      for j := 0 to |values|
        invariant text == before + ValueLines(name, values[..j])
      {
        assert values[..j + 1][..j] == values[..j];
        text := text + ValueLine(name, values[j]);
      }
      assert values[..|values|] == values;
    }
  }

  /** The base file name is the PATH value with a directory part ending in
      '/' (or none) before it and an extension without '.' or '/' after it. */
  lemma BaseFilenameShape(md: Record)
    requires BaseFilename(md).Ok?
    ensures var path := md[Some(Path)][0]; var b := BaseFilename(md).value;
      exists dir, ext :: path == dir + b + "." + ext
        && (dir == [] || dir[|dir| - 1] == '/')
        && '/' !in ext && '.' !in ext
  {
    BaseNameShape(md[Some(Path)][0]);
  }

  lemma BaseNameShape(path: string)
    requires BaseName(path).Ok?
    ensures var b := BaseName(path).value;
      exists dir, ext :: path == dir + b + "." + ext
        && (dir == [] || dir[|dir| - 1] == '/')
        && '/' !in ext && '.' !in ext
  {
    var k := LastIndexOf(path, '/');
    var name := path[k + 1..];
    var dot := LastIndexOf(name, '.');
    assert BaseName(path).value == name[..dot];
    var dir, ext := SplitAt(path, k, name, dot);
  }

  /** A path cut at its last '/' and at the last '.' after it. */
  lemma SplitAt(path: string, k: int, name: string, dot: int) returns (dir: string, ext: string)
    requires -1 <= k < |path| && name == path[k + 1..]
    requires k != -1 ==> path[k] == '/'
    requires 0 <= dot < |name| && name[dot] == '.' && '.' !in name[dot + 1..]
    requires '/' !in name
    ensures path == dir + name[..dot] + "." + ext
    ensures dir == [] || dir[|dir| - 1] == '/'
    ensures '/' !in ext && '.' !in ext
  {
    dir, ext := path[..k + 1], name[dot + 1..];
    assert path == dir + name;
    assert name == name[..dot] + "." + ext;
    assert forall c :: c in ext ==> c in name;
  }

  /** Book.getBaseFilename: the file name of the first PATH value without
      its directory and without its last extension. */
  function BaseFilename(md: Record): (r: Result<string, BookError>)
    ensures Some(Path) !in md <==> r == Err(NoPath)
    ensures r.Ok? ==> '/' !in r.value
    ensures Some(Path) in md ==> var name := FileName(md[Some(Path)][0]);
      && (r.Ok? <==> '.' in name)
      && (r.Err? ==> r == Err(NoExtension(name)))
      && (r.Ok? ==> exists ext :: name == r.value + "." + ext && '.' !in ext)
  {
    if Some(Path) !in md then Err(NoPath)
    else BaseName(md[Some(Path)][0])
  }

  /** The file name of a path without its directory and its last extension;
      a name without '.' has no extension to cut. */
  function BaseName(path: string): (r: Result<string, BookError>)
    ensures r.Ok? ==> '/' !in r.value
    ensures r != Err(NoPath)
    ensures var name := FileName(path);
      && (r.Ok? <==> '.' in name)
      && (r.Err? ==> r == Err(NoExtension(name)))
      && (r.Ok? ==> exists ext :: name == r.value + "." + ext && '.' !in ext)
  {
    var name := FileName(path);
    var dot := LastIndexOf(name, '.');
    if dot == -1 then Err(NoExtension(name))
    else
      DotSplit(name, dot);
      Ok(name[..dot])
  }

  /** A name cut at its last '.'. */
  lemma DotSplit(name: string, dot: int)
    requires 0 <= dot < |name| && name[dot] == '.' && '.' !in name[dot + 1..] && '/' !in name
    ensures '/' !in name[..dot] && '.' in name
    ensures exists ext :: name == name[..dot] + "." + ext && '.' !in ext
  {
    assert forall c :: c in name[..dot] ==> c in name;
    assert name == name[..dot] + "." + name[dot + 1..];
  }

  /** The text after the last '/' of a path: the whole path when it has no
      '/'. */
  function FileName(path: string): (r: string)
    ensures '/' !in r && |r| <= |path| && r == path[|path| - |r|..]
    ensures |r| < |path| ==> path[|path| - |r| - 1] == '/'
  {
    var k := LastIndexOf(path, '/');
    if k == -1 then
      assert path[0..] == path;
      path
    else path[k + 1..]
  }

  /** getPlaintextContent(), reading a zip payload through the entry loop. */
  method ReadRawContent(md: Record, env: Env) returns (r: Result<Option<seq<string>>, BookError>)
    ensures r == RawContent(md, env)
  {
    if Some(Format) !in md {
      return Err(NoFormat);
    }
    var format := md[Some(Format)][0];
    var charset := GetCharset(format, env.charsets);
    if charset.Err? {
      return Err(charset.error);
    }
    if charset.value.None? {
      return Ok(None);
    }
    var file := GetFile(md, env);
    if file.Err? {
      return Err(file.error);
    }
    if EndsWith(file.value.name, ".txt") {
      if file.value.text.None? {
        return Err(ReadFailure(file.value.name));
      }
      return Ok(file.value.text);
    }
    if ZipEntryCount(file.value) == 1 && StartsWith(format, "text/plain") {
      var text := ReadZipText(file.value.zip.entries);
      return Ok(text);
    }
    return Ok(None);
  }

  /** The lines of the normalized text, if the payload has text. */
  function NormalizedContent(md: Record, env: Env): (r: Result<Option<seq<string>>, BookError>)
    ensures r.Err? <==> RawContent(md, env).Err?
    ensures r.Ok? && RawContent(md, env).value.None? ==> r.value.None?
    ensures r.Ok? && r.value.Some? ==> |r.value.value| >= 80
  {
    var raw :- RawContent(md, env);
    if raw.None? then Ok(None) else Ok(NormalizeText(raw.value))
  }

  /** Book.lineCount's value: the non-empty normalized lines, or -1 without
      normalized text. */
  function LineCountOf(md: Record, env: Env): (r: Result<int, BookError>)
    ensures r.Err? <==> RawContent(md, env).Err?
    ensures r.Ok? ==> (r.value == -1 <==> NormalizedContent(md, env).value.None?)
    ensures r.Ok? && r.value != -1 ==> 40 <= r.value
  {
    var n :- NormalizedContent(md, env);
    if n.None? then Ok(-1)
    else
      assert NormalizeText(RawContent(md, env).value.value).Some?;
      NormalizedLineCount(RawContent(md, env).value.value);
      Ok(CountNonEmpty(n.value) as int)
  }

  lemma LineCountByContent(md: Record, env: Env)
    ensures NormalizedContent(md, env).Err? ==> LineCountOf(md, env) == Err(NormalizedContent(md, env).error)
    ensures NormalizedContent(md, env) == Ok(None) ==> LineCountOf(md, env) == Ok(-1)
    ensures NormalizedContent(md, env).Ok? && NormalizedContent(md, env).value.Some? ==>
      LineCountOf(md, env) == Ok(CountNonEmpty(NormalizedContent(md, env).value.value))
  {
  }

  /** lineCount's loop over the normalized lines. */
  method CountLines(text: seq<string>) returns (count: int)
    ensures count == CountNonEmpty(text)
  {
    count := 0;
    for i := 0 to |text|
      invariant count == CountNonEmpty(text[..i])
    {
      assert text[..i + 1][..i] == text[..i];
      if |text[i]| != 0 {
        count := count + 1;
      }
    }
    assert text[..|text|] == text;
  }

  /** A catalogue record (Book.java). The memo fields hold None until the
      view is computed, as the source's null does. */
  class Book {
    const metadata: Record
    const env: Env

    var plaintextContent: Option<Option<seq<string>>>
    var plaintextContentNormalized: Option<Option<seq<string>>>
    var lineCount: Option<int>

    /** How often the raw payload and the normalized text were computed. */
    ghost var rawComputations: nat
    ghost var normalizations: nat

    /** The memo fields hold what they stand for, and each view was
        computed once if it is held and never otherwise. */
    ghost predicate Valid()
      reads this
    {
      && (plaintextContent.Some? ==> RawContent(metadata, env) == Ok(plaintextContent.value))
      && (plaintextContentNormalized.Some? ==>
            && plaintextContent.Some? && plaintextContent.value.Some?
            && plaintextContentNormalized.value == NormalizeText(plaintextContent.value.value))
      && (lineCount.Some? ==>
            && plaintextContentNormalized.Some? && plaintextContentNormalized.value.Some?
            && lineCount.value == CountNonEmpty(plaintextContentNormalized.value.value))
      && rawComputations == (if plaintextContent.Some? then 1 else 0)
      && normalizations == (if plaintextContentNormalized.Some? then 1 else 0)
    }

    constructor(md: Record, env: Env)
      ensures metadata == md && this.env == env
      ensures plaintextContent.None? && plaintextContentNormalized.None? && lineCount.None?
      ensures Valid()
    {
      metadata := md;
      this.env := env;
      plaintextContent := None;
      plaintextContentNormalized := None;
      lineCount := None;
      rawComputations := 0;
      normalizations := 0;
    }

    /** Book.has */
    predicate Has(f: Field) {
      Some(f) in metadata
    }

    /** Book.get: the field's values, in order, when it is present. */
    function Get(f: Field): (r: Option<seq<string>>)
      ensures r.Some? <==> Has(f)
      ensures r.Some? ==> r.value == metadata[Some(f)] && r.value != []
    {
      if Has(f) then Some(metadata[Some(f)]) else None
    }

    /** Book.getFirst: the field's first value, when it is present. */
    function GetFirst(f: Field): (r: Option<string>)
      ensures r.Some? <==> Has(f)
      ensures r.Some? ==> r.value == metadata[Some(f)][0]
    {
      if Has(f) then Some(metadata[Some(f)][0]) else None
    }

    /** Book.fields: the keys of the metadata map, the null key included. */
    function Fields(): set<Option<Field>> {
      metadata.Keys
    }

    /** Book.getPlaintextContent(normalize): the raw lines, or the
        normalized lines, each computed at most once and then returned from
        the memo. Without raw lines there are no normalized lines. A failure
        leaves the memo as it was. */
    method GetPlaintextContent(normalize: bool) returns (r: Result<Option<seq<string>>, BookError>)
      requires Valid()
      modifies this
      ensures Valid()
      ensures r == if normalize then NormalizedContent(metadata, env) else RawContent(metadata, env)
      ensures rawComputations <= 1 && normalizations <= 1
      ensures old(plaintextContent).Some? ==> plaintextContent == old(plaintextContent)
      ensures old(plaintextContentNormalized).Some? ==> plaintextContentNormalized == old(plaintextContentNormalized)
      ensures !normalize ==> plaintextContentNormalized == old(plaintextContentNormalized)
      ensures r.Ok? ==> plaintextContent.Some?
      ensures normalize && r.Ok? && r.value.Some? ==> plaintextContentNormalized == Some(r.value)
      ensures lineCount == old(lineCount)
    {
      if plaintextContent.None? {
        var raw := ReadRawContent(metadata, env);
        if raw.Err? {
          return Err(raw.error);
        }
        plaintextContent := Some(raw.value);
        rawComputations := rawComputations + 1;
      }
      if plaintextContent.value.None? {
        return Ok(None);
      }
      if normalize {
        if plaintextContentNormalized.None? {
          var normalized := NormalizeLines(plaintextContent.value.value);
          plaintextContentNormalized := Some(normalized);
          normalizations := normalizations + 1;
        }
        return Ok(plaintextContentNormalized.value);
      } else {
        return Ok(plaintextContent.value);
      }
    }

    /** Book.lineCount: the number of non-empty normalized lines, cached;
        -1, not cached, when there is no normalized text. */
    method LineCount() returns (r: Result<int, BookError>)
      requires Valid()
      modifies this
      ensures Valid()
      ensures r == LineCountOf(metadata, env)
      ensures r.Ok? ==> (lineCount.Some? <==> r.value != -1)
      ensures old(lineCount).Some? ==> lineCount == old(lineCount)
      ensures rawComputations <= 1 && normalizations <= 1
    {
      LineCountByContent(metadata, env);
      if lineCount.None? {
        var lines := GetPlaintextContent(true);
        if lines.Err? {
          return Err(lines.error);
        }
        if lines.value.None? {
          return Ok(-1);
        }
        var count := CountLines(lines.value.value);
        lineCount := Some(count);
      } else {
        assert NormalizedContent(metadata, env) == Ok(plaintextContentNormalized.value);
      }
      return Ok(lineCount.value);
    }

    /** Book.zipEntryCount */
    function ZipEntries(): (r: Result<int, BookError>)
      ensures r.Ok? <==> GetFile(metadata, env).Ok?
      ensures r.Err? ==> r.error == GetFile(metadata, env).error
      ensures r.Ok? ==> r.value == ZipEntryCount(GetFile(metadata, env).value) && r.value >= -1
    {
      var file :- GetFile(metadata, env);
      Ok(ZipEntryCount(file))
    }

    /** Book.getPlaintextMetadata(includeComputed): one "Label: value" line
        per value in print order, then the two computed lines when asked
        for, without the final newline. */
    method GetPlaintextMetadata(includeComputed: bool) returns (r: Result<string, BookError>)
      requires Valid()
      modifies this
      ensures Valid()
      ensures !includeComputed ==> r.Ok? ==> r.value + "\n" == MetadataText(metadata, PrintOrder)
      ensures includeComputed ==> r.Ok? ==>
        && ZipEntries().Ok? && LineCountOf(metadata, env).Ok?
        && r.value + "\n" == MetadataText(metadata, PrintOrder)
             + ComputedLines(ZipEntries().value, LineCountOf(metadata, env).value)
      ensures r.Err? && !includeComputed ==> r.error == EmptyMetadata && MetadataText(metadata, PrintOrder) == ""
      ensures includeComputed && ZipEntries().Err? ==> r == Err(ZipEntries().error)
      ensures includeComputed && ZipEntries().Ok? && LineCountOf(metadata, env).Err? ==>
        r == Err(LineCountOf(metadata, env).error)
      ensures includeComputed ==> (r.Ok? <==> ZipEntries().Ok? && LineCountOf(metadata, env).Ok?)
    {
      var computed := "";
      if includeComputed {
        var zipEntries := ZipEntries();
        if zipEntries.Err? {
          return Err(zipEntries.error);
        }
        var lines := LineCount();
        if lines.Err? {
          return Err(lines.error);
        }
        computed := ComputedLines(zipEntries.value, lines.value);
        ComputedLinesEnd(zipEntries.value, lines.value);
      }
      var text := BuildMetadataText(metadata, PrintOrder);
      var value := text + computed;
      if |value| == 0 {
        return Err(EmptyMetadata);
      }
      MetadataTextEnd(metadata, PrintOrder);
      ChopNewline(text, computed);
      return Ok(value[..|value| - 1]);
    }
  }
}
