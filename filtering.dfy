/** The filter pipeline shared by all processors (BaseProcessor.java): each
    book pulled from the DVD is counted, run through an ordered chain of
    metadata, text and line-count filters, counted again, offered to the
    processor's own test, and counted a third time while the limit allows. */
module Filtering {
  import opened Wrappers
  import opened Text
  import opened Fields
  import opened Books
  import opened Dvd

  /** Long.MAX_VALUE, the limit when none is given. */
  const LongMax: int := 0x7fff_ffff_ffff_ffff

  /** How one filter expression matches: a case-insensitive substring, or a
      whole-string regular expression written s/.../ */
  datatype Matcher = Substring(lcSubstring: string) | Pattern(regex: string)

  datatype ProcessError =
    | BadExpression(expr: string)   // "s/" itself: substring(2, 1) throws
    | BadPattern(regex: string)     // the regular expression does not compile
    | NegativeLimit(limit: int)     // Stream.limit rejects a negative size
    | ParseFailure(parse: ParseError)
    | BookFailure(book: BookError)
    | TestFailure(reason: string)   // the processor's own test threw

  /** The matcher an expression stands for. */
  function ParseExpr(expr: string): (r: Result<Matcher, ProcessError>)
    ensures r.Ok? && r.value.Pattern? ==>
      StartsWith(expr, "s/") && EndsWith(expr, "/") && expr == "s/" + r.value.regex + "/"
    ensures r.Ok? && r.value.Substring? ==>
      !(StartsWith(expr, "s/") && EndsWith(expr, "/")) && r.value.lcSubstring == LowerStr(expr)
    ensures r.Err? <==> expr == "s/"
  {
    if StartsWith(expr, "s/") && EndsWith(expr, "/") then
      if |expr| < 3 then Err(BadExpression(expr))
      else
        assert expr == "s/" + expr[2..|expr| - 1] + "/";
        Ok(Pattern(expr[2..|expr| - 1]))
    else Ok(Substring(LowerStr(expr)))
  }

  /** One link of the chain built by process. */
  datatype Filter =
    | FieldFilter(field: Field, matcher: Matcher)
    | TextFilter(matcher: Matcher)
    | MinLines(min: int)
    | MaxLines(max: int)

  /** The options process reads: the expressions given for each field's
      option, the -mx expressions, and the -mil, -mal and -l values. */
  datatype Options = Options(
    fieldExprs: map<Field, seq<string>>,
    textExprs: seq<string>,
    minLines: Option<int>,
    maxLines: Option<int>,
    limit: Option<int>)

  function ExprsOf(opts: Options, f: Field): seq<string> {
    if f in opts.fieldExprs then opts.fieldExprs[f] else []
  }

  /** filterByFieldIfNeeded over the fields in order: one filter per
      expression, in the order given. */
  function FieldFilters(opts: Options, fields: seq<Field>): (r: Result<seq<Filter>, ProcessError>)
    ensures r.Ok? ==> forall i :: 0 <= i < |r.value| ==> r.value[i].FieldFilter? && r.value[i].field in fields
    ensures r.Err? <==> exists f :: f in fields && "s/" in ExprsOf(opts, f)
  {
    if fields == [] then Ok([])
    else
      var front :- FieldFilters(opts, fields[..|fields| - 1]);
      var last :- ExprFilters(fields[|fields| - 1], ExprsOf(opts, fields[|fields| - 1]));
      Ok(front + last)
  }

  function ExprFilters(f: Field, exprs: seq<string>): (r: Result<seq<Filter>, ProcessError>)
    ensures r.Ok? ==> |r.value| == |exprs|
    ensures r.Ok? ==> forall i :: 0 <= i < |exprs| ==>
      ParseExpr(exprs[i]).Ok? && r.value[i] == FieldFilter(f, ParseExpr(exprs[i]).value)
    ensures r.Err? <==> "s/" in exprs
  {
    if exprs == [] then Ok([])
    else
      var front :- ExprFilters(f, exprs[..|exprs| - 1]);
      var m :- ParseExpr(exprs[|exprs| - 1]);
      assert forall i :: 0 <= i < |exprs| - 1 ==> exprs[..|exprs| - 1][i] == exprs[i];
      Ok(front + [FieldFilter(f, m)])
  }

  function TextFilters(exprs: seq<string>): (r: Result<seq<Filter>, ProcessError>)
    ensures r.Ok? ==> |r.value| == |exprs|
    ensures r.Ok? ==> forall i :: 0 <= i < |exprs| ==>
      ParseExpr(exprs[i]).Ok? && r.value[i] == TextFilter(ParseExpr(exprs[i]).value)
    ensures r.Err? <==> "s/" in exprs
  {
    if exprs == [] then Ok([])
    else
      var front :- TextFilters(exprs[..|exprs| - 1]);
      var m :- ParseExpr(exprs[|exprs| - 1]);
      assert forall i :: 0 <= i < |exprs| - 1 ==> exprs[..|exprs| - 1][i] == exprs[i];
      Ok(front + [TextFilter(m)])
  }

  /** The chain process builds: field filters in Field.values() order, then
      the text filters, then the lower and upper line bounds. Building
      fails exactly when some expression is "s/". */
  function BuildFilters(fieldExprs: map<Field, seq<string>>, textExprs: seq<string>,
                        minLines: Option<int>, maxLines: Option<int>): (r: Result<seq<Filter>, ProcessError>)
    ensures r.Err? <==> (exists f :: "s/" in ExprsOf(Options(fieldExprs, textExprs, None, None, None), f))
                        || "s/" in textExprs
  {
    AllValues();
    var fields :- FieldFilters(Options(fieldExprs, textExprs, None, None, None), Values);
    var text :- TextFilters(textExprs);
    Ok(fields + text + Bounds(minLines, maxLines))
  }

  /** The line-count filters, lower bound first. */
  function Bounds(minLines: Option<int>, maxLines: Option<int>): (r: seq<Filter>)
    ensures |r| == (if minLines.Some? then 1 else 0) + (if maxLines.Some? then 1 else 0)
    ensures minLines.Some? ==> r[0] == MinLines(minLines.value)
    ensures maxLines.Some? ==> r[|r| - 1] == MaxLines(maxLines.value)
    ensures forall i :: 0 <= i < |r| ==> !r[i].FieldFilter?
  {
    (if minLines.Some? then [MinLines(minLines.value)] else [])
      + (if maxLines.Some? then [MaxLines(maxLines.value)] else [])
  }

  /** For every field, the chain holds one filter per expression given for
      that field, in the order given. */
  lemma ChainFieldFilters(fieldExprs: map<Field, seq<string>>, textExprs: seq<string>,
                          minLines: Option<int>, maxLines: Option<int>, f: Field)
    requires BuildFilters(fieldExprs, textExprs, minLines, maxLines).Ok?
    ensures var opts := Options(fieldExprs, textExprs, None, None, None);
      && ExprFilters(f, ExprsOf(opts, f)).Ok?
      && OfField(BuildFilters(fieldExprs, textExprs, minLines, maxLines).value, f) == ExprFilters(f, ExprsOf(opts, f)).value
  {
    var opts := Options(fieldExprs, textExprs, None, None, None);
    var fields, text := BuildFiltersSplit(fieldExprs, textExprs, minLines, maxLines);
    var rest := text + Bounds(minLines, maxLines);
    ConcatAssoc(fields, text, Bounds(minLines, maxLines));
    assert forall i :: 0 <= i < |rest| ==> !rest[i].FieldFilter?;
    AllValues();
    FieldFiltersFor(opts, Values, f);
    OfFieldAppend(fields, rest, f);
    NoFieldFilters(rest, f);
    assert OfField(fields, f) + [] == OfField(fields, f);
  }

  /** The chain that was built is its field part, its text part and its
      bounds, one after the other. */
  lemma BuildFiltersSplit(fieldExprs: map<Field, seq<string>>, textExprs: seq<string>,
                          minLines: Option<int>, maxLines: Option<int>) returns (fields: seq<Filter>, text: seq<Filter>)
    requires BuildFilters(fieldExprs, textExprs, minLines, maxLines).Ok?
    ensures FieldFilters(Options(fieldExprs, textExprs, None, None, None), Values) == Ok(fields)
    ensures TextFilters(textExprs) == Ok(text)
    ensures BuildFilters(fieldExprs, textExprs, minLines, maxLines).value == fields + text + Bounds(minLines, maxLines)
  {
    fields := FieldFilters(Options(fieldExprs, textExprs, None, None, None), Values).value;
    text := TextFilters(textExprs).value;
  }

  /** The same split, by the kind of each part: field filters, then one
      text filter per expression. */
  lemma BuildFiltersParts(fieldExprs: map<Field, seq<string>>, textExprs: seq<string>,
                          minLines: Option<int>, maxLines: Option<int>) returns (fields: seq<Filter>, text: seq<Filter>)
    requires BuildFilters(fieldExprs, textExprs, minLines, maxLines).Ok?
    ensures forall i :: 0 <= i < |fields| ==> fields[i].FieldFilter?
    ensures |text| == |textExprs|
    ensures forall i :: 0 <= i < |textExprs| ==>
      ParseExpr(textExprs[i]).Ok? && text[i] == TextFilter(ParseExpr(textExprs[i]).value)
    ensures BuildFilters(fieldExprs, textExprs, minLines, maxLines).value == fields + text + Bounds(minLines, maxLines)
  {
    fields, text := BuildFiltersSplit(fieldExprs, textExprs, minLines, maxLines);
  }

  /** After the field filters come one text filter per -mx expression, in
      order, and then the bounds, the upper one last. */
  lemma ChainLayout(fieldExprs: map<Field, seq<string>>, textExprs: seq<string>,
                    minLines: Option<int>, maxLines: Option<int>)
    requires BuildFilters(fieldExprs, textExprs, minLines, maxLines).Ok?
    ensures var chain := BuildFilters(fieldExprs, textExprs, minLines, maxLines).value;
      var n := |chain| - |textExprs| - |Bounds(minLines, maxLines)|;
      && 0 <= n
      && (forall i :: 0 <= i < n ==> chain[i].FieldFilter?)
      && (forall i :: n <= i < n + |textExprs| ==> chain[i] == TextFilter(ParseExpr(textExprs[i - n]).value))
      && (minLines.Some? ==> chain[n + |textExprs|] == MinLines(minLines.value))
      && (maxLines.Some? ==> chain[|chain| - 1] == MaxLines(maxLines.value))
  {
    var fields, text := BuildFiltersParts(fieldExprs, textExprs, minLines, maxLines);
    Concat3Index(fields, text, Bounds(minLines, maxLines));
  }

  lemma NoFieldFilters(chain: seq<Filter>, f: Field)
    requires forall i :: 0 <= i < |chain| ==> !chain[i].FieldFilter?
    ensures OfField(chain, f) == []
  {
  }

  /** A chain holds a field's filter exactly for each expression given for
      that field, in the order given. */
  lemma {:induction false} FieldFiltersFor(opts: Options, fields: seq<Field>, f: Field)
    requires FieldFilters(opts, fields).Ok?
    requires forall i, j :: 0 <= i < j < |fields| ==> fields[i] != fields[j]
    ensures var chain := FieldFilters(opts, fields).value;
      f in fields ==> ExprFilters(f, ExprsOf(opts, f)).Ok? && OfField(chain, f) == ExprFilters(f, ExprsOf(opts, f)).value
    ensures f !in fields ==> OfField(FieldFilters(opts, fields).value, f) == []
  {
    if fields != [] {
      var p := fields[..|fields| - 1];
      var g := fields[|fields| - 1];
      FieldFiltersLast(opts, fields);
      FieldFiltersFor(opts, p, f);
      var front := FieldFilters(opts, p).value;
      var last := ExprFilters(g, ExprsOf(opts, g)).value;
      OfFieldAppend(front, last, f);
      OfFieldAll(last, g, f);
      assert f in fields <==> f in p || f == g;
      if f == g {
        assert f !in p;
      }
    }
  }

  /** The chain of the fields is that of all fields but the last, then the
      last field's filters. */
  lemma FieldFiltersLast(opts: Options, fields: seq<Field>)
    requires fields != [] && FieldFilters(opts, fields).Ok?
    ensures var p := fields[..|fields| - 1]; var g := fields[|fields| - 1];
      && FieldFilters(opts, p).Ok? && ExprFilters(g, ExprsOf(opts, g)).Ok?
      && FieldFilters(opts, fields).value == FieldFilters(opts, p).value + ExprFilters(g, ExprsOf(opts, g)).value
  {
  }

  /** The filters of a chain that test field f, in order. */
  function OfField(chain: seq<Filter>, f: Field): seq<Filter> {
    if chain == [] then []
    else OfField(chain[..|chain| - 1], f) + (if chain[|chain| - 1].FieldFilter? && chain[|chain| - 1].field == f then [chain[|chain| - 1]] else [])
  }

  lemma {:induction false} OfFieldAppend(a: seq<Filter>, b: seq<Filter>, f: Field)
    ensures OfField(a + b, f) == OfField(a, f) + OfField(b, f)
    decreases |b|
  {
    if b == [] {
      assert a + b == a;
    } else {
      var b' := b[..|b| - 1];
      assert (a + b)[..|a + b| - 1] == a + b';
      OfFieldAppend(a, b', f);
    }
  }

  lemma {:induction false} OfFieldAll(chain: seq<Filter>, g: Field, f: Field)
    requires forall i :: 0 <= i < |chain| ==> chain[i].FieldFilter? && chain[i].field == g
    ensures OfField(chain, f) == if f == g then chain else []
  {
    if chain != [] {
      OfFieldAll(chain[..|chain| - 1], g, f);
    }
  }

  lemma {:induction false} OfFieldIn(chain: seq<Filter>, f: Field, x: Filter)
    requires x in OfField(chain, f)
    ensures x in chain
  {
    if chain != [] {
      var front := chain[..|chain| - 1];
      if x in OfField(front, f) {
        OfFieldIn(front, f, x);
        assert x in chain[..|chain| - 1];
      }
    }
  }

  // ---------------------------------------------------------------------
  // Matching one expression against a field's values or a book's lines.

  /** The regular-expression engine, left abstract: which patterns compile,
      and String.matches (a whole-string match) for a pattern and a text. */
  datatype Regex = Regex(compiles: string -> bool, fullMatch: (string, string) -> bool)

  /** Whether one value or line satisfies a matcher: the lower-cased text
      contains the lower-cased substring, or the whole text matches. */
  predicate ItemMatches(re: Regex, m: Matcher, item: string) {
    match m
    case Substring(lc) => Contains(LowerStr(item), lc)
    case Pattern(regex) => re.fullMatch(regex, item)
  }

  /** Whether any of the items matches. */
  function AnyMatch(re: Regex, items: seq<string>, m: Matcher): (r: bool)
    ensures r <==> exists i :: 0 <= i < |items| && ItemMatches(re, m, items[i])
  {
    if items == [] then false
    else
      var n := |items| - 1;
      assert forall i :: 0 <= i < n ==> items[..n][i] == items[i];
      AnyMatch(re, items[..n], m) || ItemMatches(re, m, items[n])
  }

  lemma AnyMatchStep(re: Regex, items: seq<string>, m: Matcher, i: nat)
    requires i < |items|
    ensures AnyMatch(re, items[..i + 1], m) == (AnyMatch(re, items[..i], m) || ItemMatches(re, m, items[i]))
  {
    assert items[..i + 1][..i] == items[..i];
  }

  /** The verdict of one match predicate over the values (or lines) it
      scans: true when any item matches. A pattern that does not compile
      fails at the first item matched against, so only when there is one. */
  function MatchOutcome(re: Regex, items: seq<string>, m: Matcher): (r: Result<bool, ProcessError>)
    ensures r.Err? <==> items != [] && m.Pattern? && !re.compiles(m.regex)
    ensures r.Err? ==> r.error == BadPattern(m.regex)
    ensures r.Ok? ==> (r.value <==> exists i :: 0 <= i < |items| && ItemMatches(re, m, items[i]))
  {
    if items != [] && m.Pattern? && !re.compiles(m.regex) then Err(BadPattern(m.regex))
    else Ok(AnyMatch(re, items, m))
  }

  /** Where the scanned items come from, for the match-info lines. */
  datatype Source = FieldValues(field: Field) | TextLines

  /** The match-info line for the item at the given index. */
  function Describe(source: Source, m: Matcher, index: nat, item: string): string {
    var kind := if m.Pattern? then "regex" else "substring";
    match source
    case FieldValues(f) => "Metadata " + kind + " match on " + f.Label() + ": " + item
    case TextLines => "Text " + kind + " match on line " + IntToString(index + 1) + ": " + item
  }

  /** The match-info a full scan records: one line per matching item, in
      order, each ending in a newline. */
  function InfoLines(re: Regex, items: seq<string>, m: Matcher, source: Source): string {
    if items == [] then ""
    else
      var n := |items| - 1;
      InfoLines(re, items[..n], m, source)
        + (if ItemMatches(re, m, items[n]) then Describe(source, m, n, items[n]) + "\n" else "")
  }

  /** Scanning one more item adds its line, if it matches. */
  lemma InfoLinesStep(re: Regex, items: seq<string>, m: Matcher, source: Source, i: nat)
    requires i < |items|
    ensures InfoLines(re, items[..i + 1], m, source)
      == InfoLines(re, items[..i], m, source)
         + (if ItemMatches(re, m, items[i]) then Describe(source, m, i, items[i]) + "\n" else "")
  {
    assert items[..i + 1][..i] == items[..i];
  }

  /** A scan records something exactly when some item matches: a failing
      predicate leaves the match-info as it was. */
  lemma {:induction false} InfoLinesEmpty(re: Regex, items: seq<string>, m: Matcher, source: Source)
    ensures InfoLines(re, items, m, source) == [] <==> !exists i :: 0 <= i < |items| && ItemMatches(re, m, items[i])
  {
    if items != [] {
      var n := |items| - 1;
      InfoLinesEmpty(re, items[..n], m, source);
      if exists i :: 0 <= i < n && ItemMatches(re, m, items[i]) {
        var i :| 0 <= i < n && ItemMatches(re, m, items[i]);
        assert items[..n][i] == items[i];
      }
      if exists i :: 0 <= i < |items[..n]| && ItemMatches(re, m, items[..n][i]) {
        var i :| 0 <= i < n && ItemMatches(re, m, items[..n][i]);
        assert items[..n][i] == items[i];
      }
    }
  }

  // ---------------------------------------------------------------------
  // One book through the chain.

  /** The verdict of one filter on a record. A field filter scans the
      field's values and fails when the field is absent; a text filter
      scans the raw (not normalized) lines and fails when there are none;
      the bounds compare lineCount(), which is -1 for a book without text. */
  function FilterOutcome(re: Regex, md: Record, env: Env, filter: Filter): (r: Result<bool, ProcessError>)
    ensures filter.FieldFilter? && Some(filter.field) !in md ==> r == Ok(false)
    ensures filter.FieldFilter? && r == Ok(true) ==>
      Some(filter.field) in md && exists v :: v in md[Some(filter.field)] && ItemMatches(re, filter.matcher, v)
    ensures filter.TextFilter? && RawContent(md, env) == Ok(None) ==> r == Ok(false)
    ensures filter.TextFilter? && r == Ok(true) ==>
      && RawContent(md, env).Ok? && RawContent(md, env).value.Some?
      && exists line :: line in RawContent(md, env).value.value && ItemMatches(re, filter.matcher, line)
    ensures filter.MinLines? && LineCountOf(md, env) == Ok(-1) && filter.min >= 0 ==> r == Ok(false)
    ensures filter.MaxLines? && LineCountOf(md, env) == Ok(-1) && filter.max >= -1 ==> r == Ok(true)
  {
    match filter
    case FieldFilter(f, m) =>
      if Some(f) in md then MatchOutcome(re, md[Some(f)], m) else Ok(false)
    case TextFilter(m) =>
      (match RawContent(md, env)
       case Err(e) => Err(BookFailure(e))
       case Ok(None) => Ok(false)
       case Ok(Some(lines)) => MatchOutcome(re, lines, m))
    case MinLines(min) =>
      (match LineCountOf(md, env)
       case Err(e) => Err(BookFailure(e))
       case Ok(n) => Ok(n >= min))
    case MaxLines(max) =>
      (match LineCountOf(md, env)
       case Err(e) => Err(BookFailure(e))
       case Ok(n) => Ok(n <= max))
  }

  /** What one filter adds to the match-info when capturing. */
  function FilterInfo(re: Regex, md: Record, env: Env, filter: Filter): string {
    match filter
    case FieldFilter(f, m) =>
      if Some(f) in md then InfoLines(re, md[Some(f)], m, FieldValues(f)) else ""
    case TextFilter(m) =>
      if RawContent(md, env).Ok? && RawContent(md, env).value.Some? then
        InfoLines(re, RawContent(md, env).value.value, m, TextLines)
      else ""
    case _ => ""
  }

  /** The stream's filters in order: each runs only on a book every earlier
      one passed, and the first failure or exception decides. */
  function Passes(re: Regex, md: Record, env: Env, chain: seq<Filter>): (r: Result<bool, ProcessError>)
    ensures r == Ok(false) ==> exists i :: 0 <= i < |chain| && FilterOutcome(re, md, env, chain[i]) == Ok(false)
    ensures r.Err? ==> exists i :: 0 <= i < |chain| && FilterOutcome(re, md, env, chain[i]) == Err(r.error)
  {
    if chain == [] then Ok(true)
    else
      var ok :- FilterOutcome(re, md, env, chain[0]);
      if ok then Passes(re, md, env, chain[1..]) else Ok(false)
  }

  /** The match-info gathered while a book runs through the chain. */
  function ChainInfo(re: Regex, md: Record, env: Env, chain: seq<Filter>): string {
    if chain == [] then ""
    else
      FilterInfo(re, md, env, chain[0])
        + (if FilterOutcome(re, md, env, chain[0]) == Ok(true) then ChainInfo(re, md, env, chain[1..]) else "")
  }

  /** The chain from position i on: filter i, then the rest if it passed. */
  lemma ChainStep(re: Regex, md: Record, env: Env, chain: seq<Filter>, i: nat)
    requires i < |chain|
    ensures ChainInfo(re, md, env, chain[i..]) ==
      FilterInfo(re, md, env, chain[i])
        + (if FilterOutcome(re, md, env, chain[i]) == Ok(true) then ChainInfo(re, md, env, chain[i + 1..]) else "")
    ensures Passes(re, md, env, chain[i..]) ==
      match FilterOutcome(re, md, env, chain[i])
      case Err(e) => Err(e)
      case Ok(ok) => if ok then Passes(re, md, env, chain[i + 1..]) else Ok(false)
  {
    assert chain[i..][0] == chain[i] && chain[i..][1..] == chain[i + 1..];
  }

  /** The chain is a conjunction: a book passes exactly when every filter
      passes it. */
  lemma {:induction false} PassesAll(re: Regex, md: Record, env: Env, chain: seq<Filter>)
    ensures Passes(re, md, env, chain) == Ok(true) <==>
      forall i :: 0 <= i < |chain| ==> FilterOutcome(re, md, env, chain[i]) == Ok(true)
  {
    if chain != [] {
      PassesAll(re, md, env, chain[1..]);
      assert forall i :: 1 <= i < |chain| ==> chain[1..][i - 1] == chain[i];
      if forall i :: 0 <= i < |chain| - 1 ==> FilterOutcome(re, md, env, chain[1..][i]) == Ok(true) {
        assert forall i :: 0 < i < |chain| ==> FilterOutcome(re, md, env, chain[i]) == Ok(true);
      }
    }
  }

  /** A book that passes the chain built from the options satisfies every
      expression given for every field: the field is present and one of its
      values matches (expressions AND-ed, values OR-ed). */
  lemma PassedFieldExpression(re: Regex, md: Record, env: Env,
                              fieldExprs: map<Field, seq<string>>, textExprs: seq<string>,
                              minLines: Option<int>, maxLines: Option<int>, f: Field, e: string)
    requires BuildFilters(fieldExprs, textExprs, minLines, maxLines).Ok?
    requires Passes(re, md, env, BuildFilters(fieldExprs, textExprs, minLines, maxLines).value) == Ok(true)
    requires f in fieldExprs && e in fieldExprs[f]
    ensures ParseExpr(e).Ok?
    ensures Some(f) in md && exists v :: v in md[Some(f)] && ItemMatches(re, ParseExpr(e).value, v)
  {
    var chain := BuildFilters(fieldExprs, textExprs, minLines, maxLines).value;
    var exprs := ExprsOf(Options(fieldExprs, textExprs, None, None, None), f);
    ChainFieldFilters(fieldExprs, textExprs, minLines, maxLines, f);
    var k :| 0 <= k < |exprs| && exprs[k] == e;
    var x := ExprFilters(f, exprs).value[k];
    assert x in OfField(chain, f);
    OfFieldIn(chain, f, x);
    PassesAll(re, md, env, chain);
    var j :| 0 <= j < |chain| && chain[j] == x;
    assert FilterOutcome(re, md, env, x) == Ok(true);
  }

  /** A book with no text fails every -mx expression. */
  lemma NoTextFailsTextFilter(re: Regex, md: Record, env: Env, chain: seq<Filter>, i: nat)
    requires RawContent(md, env) == Ok(None)
    requires i < |chain| && chain[i].TextFilter?
    ensures Passes(re, md, env, chain) != Ok(true)
  {
    PassesAll(re, md, env, chain);
  }

  // ---------------------------------------------------------------------
  // The whole stream.

  /** How many books were pulled (scanned), passed the chain (matched) and
      passed the processor's own test within the limit (processed). */
  datatype Counts = Counts(scanned: nat, matched: nat, processed: nat)

  /** The processor's own test (its Predicate<Book>.test): whether it
      accepts the book, or the message of the exception it throws. */
  type ProcessorTest = Record -> Result<bool, string>

  /** One book pulled from the stream: parsed (or the parse error), counted
      as scanned, run through the chain, counted as matched if it passes,
      and counted as processed if the processor's test accepts it too. The
      test is asked only about books that pass the chain, and an exception
      it throws ends the run. */
  function PullBook(re: Regex, parsed: Result<Record, ParseError>, env: Env, chain: seq<Filter>,
                    test: ProcessorTest, c: Counts): (r: Result<Counts, ProcessError>)
    ensures parsed.Err? ==> r == Err(ParseFailure(parsed.error))
    ensures r.Ok? ==>
      && r.value.scanned == c.scanned + 1
      && c.matched <= r.value.matched <= c.matched + 1
      && c.processed <= r.value.processed <= c.processed + 1
      && r.value.processed - c.processed <= r.value.matched - c.matched
    ensures parsed.Ok? && r.Ok? ==>
      && (r.value.matched == c.matched + 1 <==> Passes(re, parsed.value, env, chain) == Ok(true))
      && (r.value.processed == c.processed + 1 <==>
            Passes(re, parsed.value, env, chain) == Ok(true) && test(parsed.value) == Ok(true))
    ensures parsed.Ok? && Passes(re, parsed.value, env, chain).Err? ==>
      r == Err(Passes(re, parsed.value, env, chain).error)
    ensures parsed.Ok? && Passes(re, parsed.value, env, chain) == Ok(false) ==>
      r == Ok(Counts(c.scanned + 1, c.matched, c.processed))
    ensures parsed.Ok? && Passes(re, parsed.value, env, chain) == Ok(true) && test(parsed.value).Err? ==>
      r == Err(TestFailure(test(parsed.value).error))
    ensures parsed.Ok? ==>
      (r.Err? <==> Passes(re, parsed.value, env, chain).Err?
                   || (Passes(re, parsed.value, env, chain) == Ok(true) && test(parsed.value).Err?))
  {
    match parsed
    case Err(e) => Err(ParseFailure(e))
    case Ok(md) =>
      var pass :- Passes(re, md, env, chain);
      if !pass then Ok(Counts(c.scanned + 1, c.matched, c.processed)) else TestStep(test, md, c)
  }

  /** A book that passed the chain: counted as matched, then put to the
      processor's test. */
  function TestStep(test: ProcessorTest, md: Record, c: Counts): Result<Counts, ProcessError> {
    match test(md)
    case Err(reason) => Err(TestFailure(reason))
    case Ok(accepted) => Ok(Counts(c.scanned + 1, c.matched + 1, if accepted then c.processed + 1 else c.processed))
  }

  /** The stream over the remaining blocks. Stream.limit asks for no
      further book once the limit has been reached; a block that does not
      parse, a filter that throws or a processor test that throws ends the
      whole run. */
  function RunBooks(re: Regex, base: string, blocks: seq<seq<string>>, env: Env, chain: seq<Filter>,
                    test: ProcessorTest, limit: int, c: Counts): (r: Result<Counts, ProcessError>)
    ensures r.Ok? ==> c.scanned <= r.value.scanned <= c.scanned + |blocks|
    ensures r.Ok? ==> c.processed <= r.value.processed
    ensures r.Ok? && r.value.scanned < c.scanned + |blocks| ==> r.value.processed >= limit
  {
    if blocks == [] || c.processed >= limit then Ok(c)
    else
      var next :- PullBook(re, ParseRecord(base, blocks[0]), env, chain, test, c);
      RunBooks(re, base, blocks[1..], env, chain, test, limit, next)
  }

  /** Below the limit, the run is the next pull followed by the rest. */
  lemma RunNext(re: Regex, base: string, blocks: seq<seq<string>>, env: Env, chain: seq<Filter>,
                test: ProcessorTest, limit: int, c: Counts)
    requires blocks != [] && c.processed < limit
    ensures var next := PullBook(re, ParseRecord(base, blocks[0]), env, chain, test, c);
      RunBooks(re, base, blocks, env, chain, test, limit, c) ==
        if next.Err? then Err(next.error) else RunBooks(re, base, blocks[1..], env, chain, test, limit, next.value)
  {
  }

  /** A processor test that throws on the next book, when that book
      passes the chain below the limit, ends the run with its message. */
  lemma TestFailureEndsRun(re: Regex, base: string, blocks: seq<seq<string>>, env: Env, chain: seq<Filter>,
                           test: ProcessorTest, limit: int, c: Counts)
    requires blocks != [] && c.processed < limit
    requires ParseRecord(base, blocks[0]).Ok?
    requires Passes(re, ParseRecord(base, blocks[0]).value, env, chain) == Ok(true)
    requires test(ParseRecord(base, blocks[0]).value).Err?
    ensures RunBooks(re, base, blocks, env, chain, test, limit, c)
      == Err(TestFailure(test(ParseRecord(base, blocks[0]).value).error))
  {
    RunNext(re, base, blocks, env, chain, test, limit, c);
  }

  /** process: the chain is built first (a bad expression fails before any
      book is read), then Stream.limit rejects a negative limit, then the
      books are streamed from zero counts. */
  function ProcessOutcome(re: Regex, base: string, blocks: seq<seq<string>>, env: Env, opts: Options,
                          minLines: Option<int>, maxLines: Option<int>, limit: int,
                          test: ProcessorTest): (r: Result<Counts, ProcessError>)
    ensures BuildFilters(opts.fieldExprs, opts.textExprs, minLines, maxLines).Err? ==>
      r == Err(BuildFilters(opts.fieldExprs, opts.textExprs, minLines, maxLines).error)
    ensures BuildFilters(opts.fieldExprs, opts.textExprs, minLines, maxLines).Ok? && limit < 0 ==>
      r == Err(NegativeLimit(limit))
    ensures r.Ok? ==> r.value.scanned <= |blocks| && (r.value.scanned < |blocks| ==> r.value.processed >= limit)
  {
    var chain :- BuildFilters(opts.fieldExprs, opts.textExprs, minLines, maxLines);
    if limit < 0 then Err(NegativeLimit(limit))
    else RunBooks(re, base, blocks, env, chain, test, limit, Counts(0, 0, 0))
  }

  /** The counters of a run: processed <= matched <= scanned, no more books
      scanned than there are, never more processed than the limit, and a
      run that stops before the last block stops because the limit was
      reached. A limit already reached pulls nothing. */
  lemma {:induction false} RunCounts(re: Regex, base: string, blocks: seq<seq<string>>, env: Env,
                                     chain: seq<Filter>, test: ProcessorTest, limit: int, c: Counts)
    requires c.processed <= c.matched <= c.scanned
    requires c.processed <= limit
    ensures var r := RunBooks(re, base, blocks, env, chain, test, limit, c);
      r.Ok? ==>
        && r.value.processed <= r.value.matched <= r.value.scanned
        && c.scanned <= r.value.scanned <= c.scanned + |blocks|
        && r.value.processed - c.processed <= r.value.matched - c.matched <= r.value.scanned - c.scanned
        && r.value.processed <= limit
        && (r.value.scanned < c.scanned + |blocks| ==> r.value.processed == limit)
    ensures limit == c.processed ==> RunBooks(re, base, blocks, env, chain, test, limit, c) == Ok(c)
    decreases |blocks|
  {
    if blocks != [] && c.processed < limit {
      var next := PullBook(re, ParseRecord(base, blocks[0]), env, chain, test, c);
      if next.Ok? {
        RunCounts(re, base, blocks[1..], env, chain, test, limit, next.value);
      }
    }
  }

  /** The counters after process: processed <= matched <= scanned <= the
      number of blocks, processed <= limit, and a limit of 0 scans nothing. */
  lemma ProcessCounts(re: Regex, base: string, blocks: seq<seq<string>>, env: Env, opts: Options,
                      minLines: Option<int>, maxLines: Option<int>, limit: int, test: ProcessorTest)
    requires ProcessOutcome(re, base, blocks, env, opts, minLines, maxLines, limit, test).Ok?
    ensures var c := ProcessOutcome(re, base, blocks, env, opts, minLines, maxLines, limit, test).value;
      && c.processed <= c.matched <= c.scanned <= |blocks|
      && c.processed <= limit
      && (c.scanned < |blocks| ==> c.processed == limit)
      && (limit == 0 ==> c == Counts(0, 0, 0))
  {
    var chain := BuildFilters(opts.fieldExprs, opts.textExprs, minLines, maxLines).value;
    RunCounts(re, base, blocks, env, chain, test, limit, Counts(0, 0, 0));
  }

  // ---------------------------------------------------------------------
  // The processor's state and the loops that update it.

  class BaseProcessor {
    /** The regular-expression engine the match predicates use. */
    const regex: Regex
    var captureMatchInfo: bool
    var matchInfo: string
    var scanCount: nat
    var matchCount: nat
    var processCount: nat
    var minLines: Option<int>
    var maxLines: Option<int>
    var limit: int

    constructor(regex: Regex, captureMatchInfo: bool)
      ensures this.regex == regex && this.captureMatchInfo == captureMatchInfo
      ensures matchInfo == "" && scanCount == 0 && matchCount == 0 && processCount == 0
      ensures minLines.None? && maxLines.None? && limit == 0
    {
      this.regex := regex;
      this.captureMatchInfo := captureMatchInfo;
      matchInfo := "";
      scanCount := 0;
      matchCount := 0;
      processCount := 0;
      minLines := None;
      maxLines := None;
      limit := 0;
    }

    /** begin: the bounds given with -mil and -mal (none otherwise), and the
        limit given with -l, Long.MAX_VALUE otherwise. */
    method Begin(opts: Options)
      modifies this`minLines, this`maxLines, this`limit
      ensures minLines == opts.minLines && maxLines == opts.maxLines
      ensures limit == if opts.limit.Some? then opts.limit.value else LongMax
    {
      minLines := opts.minLines;
      maxLines := opts.maxLines;
      if opts.limit.Some? {
        limit := opts.limit.value;
      } else {
        limit := LongMax;
      }
    }

    /** addMatchInfo: one line, only when capturing. */
    method AddMatchInfo(line: string)
      modifies this`matchInfo
      ensures matchInfo == if captureMatchInfo then old(matchInfo) + (line + "\n") else old(matchInfo)
    {
      if captureMatchInfo {
        matchInfo := matchInfo + (line + "\n");
      }
    }

    /** The loop of every match predicate: it scans the items, records each
        match, and returns at the first match unless capturing. Its verdict
        is the same either way; only the match-info differs. */
    method MatchItems(items: seq<string>, m: Matcher, source: Source) returns (r: Result<bool, ProcessError>)
      modifies this`matchInfo
      ensures r == MatchOutcome(regex, items, m)
      ensures captureMatchInfo && r.Ok? ==> matchInfo == old(matchInfo) + InfoLines(regex, items, m, source)
      ensures !captureMatchInfo ==> matchInfo == old(matchInfo)
    {
      // String.matches compiles the pattern on every call, so a bad pattern
      // throws at the first item, before anything is recorded.
      if items != [] && m.Pattern? && !regex.compiles(m.regex) {
        return Err(BadPattern(m.regex));
      }
      var matched := false;
      for i := 0 to |items|
        invariant matched == AnyMatch(regex, items[..i], m)
        invariant captureMatchInfo ==> matchInfo == old(matchInfo) + InfoLines(regex, items[..i], m, source)
        invariant !captureMatchInfo ==> matchInfo == old(matchInfo)
      {
        AnyMatchStep(regex, items, m, i);
        InfoLinesStep(regex, items, m, source, i);
        if ItemMatches(regex, m, items[i]) {
          ConcatAssoc(old(matchInfo), InfoLines(regex, items[..i], m, source), Describe(source, m, i, items[i]) + "\n");
          AddMatchInfo(Describe(source, m, i, items[i]));
          if captureMatchInfo {
            matched := true;
          } else {
            assert AnyMatch(regex, items, m);
            return Ok(true);
          }
        }
      }
      assert items[..|items|] == items;
      return Ok(matched);
    }

    /** One filter of the chain applied to a book. */
    method ApplyFilter(book: Book, filter: Filter) returns (r: Result<bool, ProcessError>)
      requires book.Valid()
      modifies this`matchInfo, book
      ensures book.Valid()
      ensures r == FilterOutcome(regex, book.metadata, book.env, filter)
      ensures captureMatchInfo && r.Ok? ==> matchInfo == old(matchInfo) + FilterInfo(regex, book.metadata, book.env, filter)
      ensures !captureMatchInfo ==> matchInfo == old(matchInfo)
    {
      match filter
      case FieldFilter(f, m) =>
        var values := book.Get(f);
        if values.Some? {
          r := MatchItems(values.value, m, FieldValues(f));
        } else {
          r := Ok(false);
        }
      case TextFilter(m) =>
        var lines := book.GetPlaintextContent(false);
        if lines.Err? {
          r := Err(BookFailure(lines.error));
        } else if lines.value.None? {
          r := Ok(false);
        } else {
          r := MatchItems(lines.value.value, m, TextLines);
        }
      case MinLines(min) =>
        var count := book.LineCount();
        if count.Err? {
          r := Err(BookFailure(count.error));
        } else {
          r := Ok(count.value >= min);
        }
      case MaxLines(max) =>
        var count := book.LineCount();
        if count.Err? {
          r := Err(BookFailure(count.error));
        } else {
          r := Ok(count.value <= max);
        }
    }

    /** A book through the whole chain, stopping at the first filter that
        rejects it or throws: each filter of the stream sees only the books
        the earlier ones let through. */
    method RunFilters(book: Book, chain: seq<Filter>) returns (r: Result<bool, ProcessError>)
      requires book.Valid()
      modifies this`matchInfo, book
      ensures book.Valid()
      ensures r == Passes(regex, book.metadata, book.env, chain)
      ensures captureMatchInfo && r.Ok? ==> matchInfo == old(matchInfo) + ChainInfo(regex, book.metadata, book.env, chain)
      ensures !captureMatchInfo ==> matchInfo == old(matchInfo)
      decreases |chain|
    {
      if chain == [] {
        return Ok(true);
      }
      r := ApplyFilter(book, chain[0]);
      if r.Err? || !r.value {
        assert captureMatchInfo && r.Ok? ==> FilterInfo(regex, book.metadata, book.env, chain[0]) + "" == FilterInfo(regex, book.metadata, book.env, chain[0]);
        return;
      }
      r := RunFilters(book, chain[1..]);
      if captureMatchInfo && r.Ok? {
        ConcatAssoc(old(matchInfo), FilterInfo(regex, book.metadata, book.env, chain[0]),
                    ChainInfo(regex, book.metadata, book.env, chain[1..]));
      }
    }

    /** The stream's work on one book: reset the match-info when capturing,
        count the scan, run the chain, count the match and, if the test
        accepts the book, count it as processed. The counts are those of
        pulling the book from c. */
    method Examine(book: Book, chain: seq<Filter>, test: ProcessorTest, c: Counts)
      returns (r: Result<Counts, ProcessError>)
      requires book.Valid()
      modifies this`matchInfo, this`scanCount, this`matchCount, this`processCount, book
      ensures book.Valid()
      ensures r == PullBook(regex, Ok(book.metadata), book.env, chain, test, c)
      ensures captureMatchInfo && Passes(regex, book.metadata, book.env, chain).Ok? ==>
        matchInfo == ChainInfo(regex, book.metadata, book.env, chain)
      ensures r.Ok? ==>
        && scanCount == old(scanCount) + 1
        && matchCount == old(matchCount) + (r.value.matched - c.matched)
        && processCount == old(processCount) + (r.value.processed - c.processed)
    {
      if captureMatchInfo {
        matchInfo := "";
      }
      scanCount := scanCount + 1;
      var pass := RunFilters(book, chain);
      if pass.Err? {
        return Err(pass.error);
      }
      if !pass.value {
        return Ok(Counts(c.scanned + 1, c.matched, c.processed));
      }
      r := RunTest(book.metadata, test, c);
    }

    /** A book that passed the chain: count the match, ask the processor's
        test, and count the book as processed if the test accepts it. */
    method RunTest(md: Record, test: ProcessorTest, c: Counts) returns (r: Result<Counts, ProcessError>)
      modifies this`matchCount, this`processCount
      ensures r == TestStep(test, md, c)
      ensures r.Ok? ==>
        && matchCount == old(matchCount) + 1
        && processCount == old(processCount) + (r.value.processed - c.processed)
    {
      matchCount := matchCount + 1;
      var accepted := test(md);
      if accepted.Err? {
        return Err(TestFailure(accepted.error));
      }
      if accepted.value {
        processCount := processCount + 1;
      }
      return Ok(Counts(c.scanned + 1, c.matched + 1, if accepted.value then c.processed + 1 else c.processed));
    }

    /** One book pulled from the stream: parsed into a fresh Book and
        examined. */
    method Pull(base: string, block: seq<string>, env: Env, chain: seq<Filter>, test: ProcessorTest, c: Counts)
      returns (r: Result<Counts, ProcessError>)
      modifies this`matchInfo, this`scanCount, this`matchCount, this`processCount
      ensures r == PullBook(regex, ParseRecord(base, block), env, chain, test, c)
      ensures r.Ok? ==>
        && scanCount == old(scanCount) + 1
        && matchCount == old(matchCount) + (r.value.matched - c.matched)
        && processCount == old(processCount) + (r.value.processed - c.processed)
    {
      var book := ReadBook(base, block, env);
      if book.Err? {
        return Err(ParseFailure(book.error));
      }
      r := Examine(book.value, chain, test, c);
    }

    /** The stream itself: books are pulled from the blocks, counting from
        c, until the blocks run out or the limit is reached. */
    method Stream(base: string, blocks: seq<seq<string>>, env: Env, chain: seq<Filter>,
                  test: ProcessorTest, c0: Counts)
      returns (r: Result<Counts, ProcessError>)
      modifies this`matchInfo, this`scanCount, this`matchCount, this`processCount
      ensures r == RunBooks(regex, base, blocks, env, chain, test, limit, c0)
      ensures r.Ok? ==>
        && scanCount == old(scanCount) + (r.value.scanned - c0.scanned)
        && matchCount == old(matchCount) + (r.value.matched - c0.matched)
        && processCount == old(processCount) + (r.value.processed - c0.processed)
      decreases |blocks|
    {
      if blocks == [] || c0.processed >= limit {
        return Ok(c0);
      }
      var next := Pull(base, blocks[0], env, chain, test, c0);
      if next.Err? {
        return Err(next.error);
      }
      r := Stream(base, blocks[1..], env, chain, test, next.value);
    }

    /** process over the DVD's metadata blocks: the chain is built from the
        options and the bounds set by begin, and books are pulled until the
        blocks run out or the limit is reached. The result is what this run
        added to the counters. */
    method Process(base: string, blocks: seq<seq<string>>, env: Env, opts: Options, test: ProcessorTest)
      returns (r: Result<Counts, ProcessError>)
      modifies this`matchInfo, this`scanCount, this`matchCount, this`processCount
      ensures r == ProcessOutcome(regex, base, blocks, env, opts, minLines, maxLines, limit, test)
      ensures r.Ok? ==>
        && scanCount == old(scanCount) + r.value.scanned
        && matchCount == old(matchCount) + r.value.matched
        && processCount == old(processCount) + r.value.processed
    {
      var chain := BuildFilters(opts.fieldExprs, opts.textExprs, minLines, maxLines);
      if chain.Err? {
        return Err(chain.error);
      }
      if limit < 0 {
        return Err(NegativeLimit(limit));
      }
      r := Stream(base, blocks, env, chain.value, test, Counts(0, 0, 0));
    }
  }
}
