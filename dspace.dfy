/** The DSpace processor (DSpaceProcessor.java): for every book that passes
    the filter chain, an item directory holding the book's bitstreams, a
    contents file listing them, and a dublin_core.xml file. The writing of
    files is outside the model; what it models is the text of the two
    files and the list of bitstream names, in order. */
module DSpace {
  import opened Wrappers
  import opened Text
  import opened Fields
  import opened Books

  datatype DSpaceError =
    | MissingOutputDir                  // -o not given
    | OutputDirExists                   // the output directory is already there
    | OutputDirNotCreated               // mkdir of the output directory failed
    | NoETextNo                         // getFirst(ETEXT_NO).get() on a record without it
    | NullField                         // dcElement() on the null key
    | BookFailure(error: BookError)     // a failure raised by the record's views

  // ---------------------------------------------------------------------
  // The contents file (getContents).

  /** The flag the last line of the contents file carries. */
  const PrimaryFlag := "\tprimary:true"

  /** The builder of getContents before the flag: each name appended,
      preceded by "\n" whenever the builder already holds something. */
  function JoinedNames(names: seq<string>): string {
    if names == [] then ""
    else
      var s := JoinedNames(names[..|names| - 1]);
      (if |s| > 0 then s + "\n" else s) + names[|names| - 1]
  }

  /** The text of the contents file. */
  function Contents(names: seq<string>): (r: string)
    ensures EndsWith(r, PrimaryFlag)
    ensures names == [] ==> r == PrimaryFlag
  {
    JoinedNames(names) + PrimaryFlag
  }

  /** Lines separated by "\n", as a reader of the file sees them. */
  function Lines(xs: seq<string>): (r: string)
    requires xs != []
  {
    if |xs| == 1 then xs[0] else xs[0] + "\n" + Lines(xs[1..])
  }

  lemma {:induction false} LinesSnoc(xs: seq<string>, x: string)
    requires xs != []
    ensures Lines(xs + [x]) == Lines(xs) + "\n" + x
    decreases |xs|
  {
    if |xs| == 1 {
      assert xs + [x] == [xs[0], x];
    } else {
      assert (xs + [x])[1..] == xs[1..] + [x];
      LinesSnoc(xs[1..], x);
      ConcatAssoc(xs[0] + "\n", Lines(xs[1..]), "\n" + x);
    }
  }

  /** With non-empty names, the builder is the names one per line. */
  lemma {:induction false} JoinedLines(names: seq<string>)
    requires names != []
    requires forall i :: 0 <= i < |names| ==> names[i] != []
    ensures JoinedNames(names) == Lines(names)
  {
    var n := |names| - 1;
    if n == 0 {
      assert JoinedNames(names[..0]) == "";
    } else {
      var front := names[..n];
      JoinedLines(front);
      assert |Lines(front)| > 0 by {
        assert front[0] != [];
        if |front| > 1 {
          assert Lines(front) == front[0] + "\n" + Lines(front[1..]);
        }
      }
      LinesSnoc(front, names[n]);
      assert front + [names[n]] == names;
    }
  }

  /** The contents file lists the bitstreams one per line, in order, and
      only the last line carries the primary flag. */
  lemma ContentsLines(names: seq<string>)
    requires names != []
    requires forall i :: 0 <= i < |names| ==> names[i] != []
    ensures var n := |names| - 1;
      Contents(names) == Lines(names[..n] + [names[n] + PrimaryFlag])
  {
    var n := |names| - 1;
    JoinedLines(names);
    if n == 0 {
      assert names[..n] + [names[n] + PrimaryFlag] == [names[0] + PrimaryFlag];
    } else {
      LinesSnoc(names[..n], names[n] + PrimaryFlag);
      LinesSnoc(names[..n], names[n]);
      assert names[..n] + [names[n]] == names;
    }
  }

  /** getContents */
  method GetContents(bitstreams: seq<string>) returns (s: string)
    ensures s == Contents(bitstreams)
  {
    s := "";
    for i := 0 to |bitstreams|
      invariant s == JoinedNames(bitstreams[..i])
    {
      assert bitstreams[..i + 1][..i] == bitstreams[..i];
      if |s| > 0 {
        s := s + "\n";
      }
      s := s + bitstreams[i];
    }
    assert bitstreams[..|bitstreams|] == bitstreams;
    s := s + PrimaryFlag;
  }

  // ---------------------------------------------------------------------
  // dublin_core.xml (getDcXml). The keys are visited in the map's
  // iteration order, which is a parameter; XmlEscapers' content escaper
  // is the parameter escape.

  /** One dcvalue element of dublin_core.xml. */
  datatype DcValue = DcValue(element: string, qualifier: string, value: string)

  /** The dcvalue elements of one field: one per value when the field
      carries a Dublin Core element, none otherwise. */
  function FieldDcValues(f: Field, values: seq<string>): seq<DcValue> {
    if f.DcElement().None? then []
    else seq(|values|, i requires 0 <= i < |values| => DcValue(f.DcElement().value, f.DcQualifier(), values[i]))
  }

  /** The dcvalue elements of the record, key by key; the null key fails
      at its first value. */
  function DcValues(md: Record, keys: seq<Option<Field>>): (r: Result<seq<DcValue>, DSpaceError>)
    requires forall k :: k in keys ==> k in md
    ensures r.Err? ==> r.error == NullField
  {
    if keys == [] then Ok([])
    else
      var n := |keys| - 1;
      var front :- DcValues(md, keys[..n]);
      match keys[n]
      case None => Err(NullField)
      case Some(f) => Ok(front + FieldDcValues(f, md[keys[n]]))
  }

  /** The elements of all keys but the last, then those of the last key. */
  lemma DcValuesLast(md: Record, keys: seq<Option<Field>>)
    requires forall k :: k in keys ==> k in md
    requires keys != [] && DcValues(md, keys).Ok?
    ensures var n := |keys| - 1;
      && keys[n].Some? && DcValues(md, keys[..n]).Ok?
      && DcValues(md, keys).value == DcValues(md, keys[..n]).value + FieldDcValues(keys[n].value, md[keys[n]])
  {
  }

  function DcLine(d: DcValue, escape: string -> string): string {
    "  <dcvalue element=\"" + d.element + "\" qualifier=\"" + d.qualifier + "\">"
      + escape(d.value) + "</dcvalue>\n"
  }

  function DcLines(ds: seq<DcValue>, escape: string -> string): string {
    if ds == [] then "" else DcLines(ds[..|ds| - 1], escape) + DcLine(ds[|ds| - 1], escape)
  }

  /** The text of dublin_core.xml. */
  function DcXml(md: Record, keys: seq<Option<Field>>, escape: string -> string): (r: Result<string, DSpaceError>)
    requires forall k :: k in md <==> k in keys
    requires forall i, j :: 0 <= i < j < |keys| ==> keys[i] != keys[j]
    ensures r.Err? <==> None in md
    ensures r.Err? ==> r.error == NullField
    ensures r.Ok? ==> StartsWith(r.value, "<dublin_core>\n") && EndsWith(r.value, "</dublin_core>")
  {
    DcValuesFail(md, keys);
    var ds :- DcValues(md, keys);
    var text := "<dublin_core>\n" + DcLines(ds, escape) + "</dublin_core>";
    assert text[..|"<dublin_core>\n"|] == "<dublin_core>\n";
    assert text[|text| - |"</dublin_core>"|..] == "</dublin_core>";
    Ok(text)
  }

  /** The file cannot be written exactly when the null key is visited. */
  lemma {:induction false} DcValuesFail(md: Record, keys: seq<Option<Field>>)
    requires forall k :: k in keys ==> k in md
    ensures DcValues(md, keys).Err? <==> None in keys
  {
    if keys != [] {
      var n := |keys| - 1;
      DcValuesFail(md, keys[..n]);
      assert keys == keys[..n] + [keys[n]];
    }
  }

  /** Every dcvalue element comes from a value of a field that carries a
      Dublin Core element, with that field's element and qualifier. */
  lemma {:induction false} DcValueSource(md: Record, keys: seq<Option<Field>>, d: DcValue) returns (f: Field, v: string)
    requires forall k :: k in keys ==> k in md
    requires DcValues(md, keys).Ok? && d in DcValues(md, keys).value
    ensures Some(f) in keys && f.DcElement().Some? && v in md[Some(f)]
    ensures d == DcValue(f.DcElement().value, f.DcQualifier(), v)
  {
    var n := |keys| - 1;
    var front := keys[..n];
    DcValuesLast(md, keys);
    var g := keys[n].value;
    var vs := md[keys[n]];
    if d in DcValues(md, front).value {
      f, v := DcValueSource(md, front, d);
      assert Some(f) in keys by {
        var i :| 0 <= i < n && front[i] == Some(f);
        assert keys[i] == Some(f);
      }
    } else {
      var i :| 0 <= i < |vs| && FieldDcValues(g, vs)[i] == d;
      f, v := g, vs[i];
      assert keys[n] == Some(f);
    }
  }

  /** Every value of every field that carries a Dublin Core element gets
      its dcvalue element. */
  lemma {:induction false} DcValueComplete(md: Record, keys: seq<Option<Field>>, f: Field, i: nat)
    requires forall k :: k in keys ==> k in md
    requires DcValues(md, keys).Ok? && Some(f) in keys && f.DcElement().Some? && i < |md[Some(f)]|
    ensures DcValue(f.DcElement().value, f.DcQualifier(), md[Some(f)][i]) in DcValues(md, keys).value
  {
    var n := |keys| - 1;
    var front := keys[..n];
    DcValuesLast(md, keys);
    if keys[n] == Some(f) {
      assert FieldDcValues(f, md[Some(f)])[i] == DcValue(f.DcElement().value, f.DcQualifier(), md[Some(f)][i]);
    } else {
      InFront(keys, Some(f));
      DcValueComplete(md, front, f, i);
    }
  }

  /** One dcvalue element per value of every field with an element: the
      fields without one (BASE_DIR and PATH) contribute nothing. */
  lemma {:induction false} DcValuesCount(md: Record, keys: seq<Option<Field>>)
    requires forall k :: k in keys ==> k in md
    requires DcValues(md, keys).Ok?
    ensures |DcValues(md, keys).value| == DcValueCount(md, keys)
  {
    if keys != [] {
      DcValuesCount(md, keys[..|keys| - 1]);
      DcAnnotations(keys[|keys| - 1].value);
    }
  }

  /** The values of the fields other than BASE_DIR and PATH. */
  function DcValueCount(md: Record, keys: seq<Option<Field>>): nat
    requires forall k :: k in keys ==> k in md
  {
    if keys == [] then 0
    else
      var k := keys[|keys| - 1];
      DcValueCount(md, keys[..|keys| - 1])
        + (if k == Some(BaseDir) || k == Some(Path) then 0 else |md[k]|)
  }

  lemma DcValuesStep(md: Record, keys: seq<Option<Field>>, i: nat)
    requires forall k :: k in keys ==> k in md
    requires i < |keys| && keys[i].Some? && DcValues(md, keys[..i]).Ok?
    ensures DcValues(md, keys[..i + 1])
      == Ok(DcValues(md, keys[..i]).value + FieldDcValues(keys[i].value, md[keys[i]]))
  {
    assert keys[..i + 1][..i] == keys[..i];
  }

  lemma {:induction false} DcValuesPrefixErr(md: Record, keys: seq<Option<Field>>, k: nat)
    requires forall key :: key in keys ==> key in md
    requires k <= |keys| && DcValues(md, keys[..k]).Err?
    ensures DcValues(md, keys) == DcValues(md, keys[..k])
    decreases |keys| - k
  {
    if k < |keys| {
      assert keys[..k + 1][..k] == keys[..k];
      DcValuesPrefixErr(md, keys, k + 1);
    } else {
      assert keys[..k] == keys;
    }
  }

  lemma FieldDcValuesSnoc(f: Field, values: seq<string>, j: nat)
    requires j < |values|
    ensures FieldDcValues(f, values[..j + 1]) == FieldDcValues(f, values[..j])
      + (if f.DcElement().Some? then [DcValue(f.DcElement().value, f.DcQualifier(), values[j])] else [])
  {
  }

  lemma DcLinesSnoc(ds: seq<DcValue>, d: DcValue, escape: string -> string)
    ensures DcLines(ds + [d], escape) == DcLines(ds, escape) + DcLine(d, escape)
  {
    assert (ds + [d])[..|ds|] == ds;
  }

  /** The inner loop of getDcXml: the dcvalue lines of one field appended
      to the builder. */
  method AppendField(builder: string, f: Field, values: seq<string>, escape: string -> string, ghost before: seq<DcValue>)
    returns (b: string)
    requires builder == "<dublin_core>\n" + DcLines(before, escape)
    ensures b == "<dublin_core>\n" + DcLines(before + FieldDcValues(f, values), escape)
  {
    b := builder;
    assert before + FieldDcValues(f, values[..0]) == before;
    for j := 0 to |values|
      invariant b == "<dublin_core>\n" + DcLines(before + FieldDcValues(f, values[..j]), escape)
    {
      FieldDcValuesSnoc(f, values, j);
      if f.DcElement().Some? {
        var d := DcValue(f.DcElement().value, f.DcQualifier(), values[j]);
        ghost var done := before + FieldDcValues(f, values[..j]);
        assert before + FieldDcValues(f, values[..j + 1]) == done + [d];
        DcLinesSnoc(done, d, escape);
        ConcatAssoc("<dublin_core>\n", DcLines(done, escape), DcLine(d, escape));
        b := b + DcLine(d, escape);
      }
    }
    assert values[..|values|] == values;
  }

  /** getDcXml over the book's keys in the given iteration order. */
  method GetDcXml(book: Book, keys: seq<Option<Field>>, escape: string -> string) returns (r: Result<string, DSpaceError>)
    requires forall k :: k in book.metadata <==> k in keys
    requires forall i, j :: 0 <= i < j < |keys| ==> keys[i] != keys[j]
    ensures r == DcXml(book.metadata, keys, escape)
  {
    var md := book.metadata;
    var builder := "<dublin_core>\n";
    for i := 0 to |keys|
      invariant DcValues(md, keys[..i]).Ok?
      invariant builder == "<dublin_core>\n" + DcLines(DcValues(md, keys[..i]).value, escape)
    {
      var field := keys[i];
      if field.None? {
        // the list under the null key holds a value, whose dcElement()
        // dereferences null
        assert keys[..i + 1][..i] == keys[..i];
        DcValuesPrefixErr(md, keys, i + 1);
        return Err(NullField);
      }
      var f := field.value;
      DcValuesStep(md, keys, i);
      builder := AppendField(builder, f, md[field], escape, DcValues(md, keys[..i]).value);
    }
    assert keys[..|keys|] == keys;
    builder := builder + "</dublin_core>";
    return Ok(builder);
  }

  // ---------------------------------------------------------------------
  // The bitstream list (addBitstreams, addOrig, explode).

  /** The processor's switches: -no, -ea, -eo, -gst, -gp, -gsp. */
  datatype Flags = Flags(noOrig: bool, explodeAll: bool, explodeOne: bool,
                         generateStrippedText: bool, generatePdf: bool, generateStrippedPdf: bool)

  /** An exploded entry's bitstream name: every '/' becomes '_'. */
  function Renamed(name: string): (r: string)
    ensures |r| == |name| && '/' !in r
  {
    SwapChar(name, '/', '_')
  }

  /** The bitstream names explode gives: one per entry of the archive, in
      archive order, none of them holding a '/'. */
  function ExplodedNames(file: PayloadFile): (r: seq<string>)
    ensures file.zip.Archive? ==> |r| == |file.zip.entries|
    ensures forall name :: name in r ==> '/' !in name
  {
    match file.zip
    case Corrupt => []
    case Archive(es) => seq(|es|, i requires 0 <= i < |es| => Renamed(es[i].name))
  }

  /** The bitstreams before the derivatives: the exploded entries of a
      multi-entry zip under -ea, then the original unless -no, then the
      exploded entry of a single-entry zip under -eo or -ea. */
  function PrimaryBitstreams(fl: Flags, file: PayloadFile): (r: seq<string>)
    ensures var n := ZipEntryCount(file);
      var orig := if fl.noOrig then [] else [file.name];
      && (n > 1 && fl.explodeAll ==> r == ExplodedNames(file) + orig)
      && (n == 1 && (fl.explodeOne || fl.explodeAll) ==> r == orig + ExplodedNames(file))
      && (!(n > 1 && fl.explodeAll) && !(n == 1 && (fl.explodeOne || fl.explodeAll)) ==> r == orig)
  {
    var n := ZipEntryCount(file);
    (if n > 1 && fl.explodeAll then ExplodedNames(file) else [])
      + (if !fl.noOrig then [file.name] else [])
      + (if n == 1 && (fl.explodeOne || fl.explodeAll) then ExplodedNames(file) else [])
  }

  /** One derivative: added under its switch when its content is present.
      The PDF derivatives compute the name before the content. */
  function Derivative(enabled: bool, content: Result<Option<seq<string>>, BookError>,
                      base: Result<string, BookError>, suffix: string, nameFirst: bool): (r: Result<seq<string>, BookError>)
    ensures !enabled ==> r == Ok([])
    ensures r.Ok? && r.value != [] ==> base.Ok? && r.value == [base.value + suffix]
  {
    if !enabled then Ok([])
    else if nameFirst then
      var b :- base;
      var c :- content;
      Ok(if c.Some? then [b + suffix] else [])
    else
      var c :- content;
      if c.None? then Ok([])
      else
        var b :- base;
        Ok([b + suffix])
  }

  /** The derivatives in the order -gens.txt, -gen.pdf, -gens.pdf. The PDF
      is written when there is content to render (Book.writePdf). */
  function Derivatives(fl: Flags, md: Record, env: Env): (r: Result<seq<string>, BookError>)
    ensures r.Ok? ==> |r.value| <= (if fl.generateStrippedText then 1 else 0)
                                  + (if fl.generatePdf then 1 else 0)
                                  + (if fl.generateStrippedPdf then 1 else 0)
  {
    var stripped :- Derivative(fl.generateStrippedText, NormalizedContent(md, env), BaseFilename(md), "-gens.txt", false);
    var pdf :- Derivative(fl.generatePdf, RawContent(md, env), BaseFilename(md), "-gen.pdf", true);
    var strippedPdf :- Derivative(fl.generateStrippedPdf, NormalizedContent(md, env), BaseFilename(md), "-gens.pdf", true);
    Ok(stripped + pdf + strippedPdf)
  }

  /** addBitstreams: a corrupt zip stops after the primary bitstreams. */
  function Bitstreams(fl: Flags, md: Record, env: Env): (r: Result<seq<string>, BookError>)
    ensures GetFile(md, env).Err? ==> r == Err(GetFile(md, env).error)
    ensures r.Ok? ==> GetFile(md, env).Ok? && PrimaryBitstreams(fl, GetFile(md, env).value) <= r.value
  {
    var file :- GetFile(md, env);
    var primary := PrimaryBitstreams(fl, file);
    if ZipEntryCount(file) == -1 then Ok(primary)
    else
      var derived :- Derivatives(fl, md, env);
      Ok(primary + derived)
  }

  /** Each derivative is in the list exactly when its switch is on and its
      generation succeeded, named after the base file name, in the order
      -gens.txt, -gen.pdf, -gens.pdf. */
  lemma DerivativesPresent(fl: Flags, md: Record, env: Env)
    requires Derivatives(fl, md, env).Ok?
    ensures var d := Derivatives(fl, md, env).value;
      var stripped := fl.generateStrippedText && NormalizedContent(md, env).value.Some?;
      var pdf := fl.generatePdf && RawContent(md, env).value.Some?;
      var strippedPdf := fl.generateStrippedPdf && NormalizedContent(md, env).value.Some?;
      && (stripped || pdf || strippedPdf ==> BaseFilename(md).Ok?)
      && d == (if stripped then [BaseFilename(md).value + "-gens.txt"] else [])
            + (if pdf then [BaseFilename(md).value + "-gen.pdf"] else [])
            + (if strippedPdf then [BaseFilename(md).value + "-gens.pdf"] else [])
  {
  }

  /** A corrupt zip leaves only the original, and no derivative. */
  lemma CorruptZipNoDerivatives(fl: Flags, md: Record, env: Env)
    requires GetFile(md, env).Ok? && ZipEntryCount(GetFile(md, env).value) == -1
    ensures Bitstreams(fl, md, env) == Ok(if fl.noOrig then [] else [GetFile(md, env).value.name])
  {
  }

  /** Without any bitstream switch a book gets its original file alone. */
  lemma DefaultBitstreams(md: Record, env: Env)
    requires GetFile(md, env).Ok?
    ensures Bitstreams(Flags(false, false, false, false, false, false), md, env)
      == Ok([GetFile(md, env).value.name])
  {
    var fl := Flags(false, false, false, false, false, false);
    var name := GetFile(md, env).value.name;
    assert Derivatives(fl, md, env).value == [];
    assert PrimaryBitstreams(fl, GetFile(md, env).value) + [] == [name];
  }

  /** Book.writePdf's outcome: false when there is no content to render.
      The rendering itself is not part of this model. */
  method WritePdf(book: Book, normalize: bool) returns (r: Result<bool, BookError>)
    requires book.Valid()
    modifies book
    ensures book.Valid()
    ensures var content := if normalize then NormalizedContent(book.metadata, book.env) else RawContent(book.metadata, book.env);
      r == match content case Err(e) => Err(e) case Ok(lines) => Ok(lines.Some?)
  {
    var content := book.GetPlaintextContent(normalize);
    if content.Err? {
      return Err(content.error);
    }
    return Ok(content.value.Some?);
  }

  /** explode: the renamed entry names of the archive, in order. */
  method Explode(file: PayloadFile) returns (names: seq<string>)
    ensures names == ExplodedNames(file)
  {
    names := [];
    if file.zip.Corrupt? {
      return;
    }
    var entries := file.zip.entries;
    for i := 0 to |entries|
      invariant |names| == i
      invariant forall k :: 0 <= k < i ==> names[k] == Renamed(entries[k].name)
    {
      names := names + [Renamed(entries[i].name)];
    }
  }

  // ---------------------------------------------------------------------
  // The package of one book (test).

  /** An item directory: its name, its bitstreams, and the text of the
      contents and dublin_core.xml files. */
  datatype ItemPackage = ItemPackage(dir: string, bitstreams: seq<string>, contents: string, dublinCore: string)

  /** test: None when the book has no eligible bitstream (test returns
      false), otherwise the package written (test returns true). */
  function PackageOf(fl: Flags, md: Record, env: Env, keys: seq<Option<Field>>, escape: string -> string)
    : (r: Result<Option<ItemPackage>, DSpaceError>)
    requires forall k :: k in md <==> k in keys
    requires forall i, j :: 0 <= i < j < |keys| ==> keys[i] != keys[j]
    ensures Some(ETextNo) !in md ==> r == Err(NoETextNo)
    ensures r.Ok? && r.value.Some? ==>
      r.value.value.bitstreams != [] && r.value.value.contents == Contents(r.value.value.bitstreams)
  {
    if Some(ETextNo) !in md then Err(NoETextNo)
    else
      var dir := "book_" + md[Some(ETextNo)][0];
      match Bitstreams(fl, md, env)
      case Err(e) => Err(BookFailure(e))
      case Ok(bitstreams) =>
        if bitstreams == [] then Ok(None)
        else
          var dc :- DcXml(md, keys, escape);
          Ok(Some(ItemPackage(dir, bitstreams, Contents(bitstreams), dc)))
  }

  /** A book is skipped exactly when it has no eligible bitstream; a
      package is named after the first EText number, lists every bitstream
      one per line with the last one primary, and carries the record's
      Dublin Core text. */
  lemma PackageShape(fl: Flags, md: Record, env: Env, keys: seq<Option<Field>>, escape: string -> string)
    requires forall k :: k in md <==> k in keys
    requires forall i, j :: 0 <= i < j < |keys| ==> keys[i] != keys[j]
    requires PackageOf(fl, md, env, keys, escape).Ok?
    ensures var p := PackageOf(fl, md, env, keys, escape).value;
      && Some(ETextNo) in md && Bitstreams(fl, md, env).Ok?
      && (p.None? <==> Bitstreams(fl, md, env).value == [])
      && (p.Some? ==>
            && p.value.dir == "book_" + md[Some(ETextNo)][0]
            && p.value.bitstreams == Bitstreams(fl, md, env).value
            && Ok(p.value.dublinCore) == DcXml(md, keys, escape)
            && None !in md)
      && (p.Some? && (forall i :: 0 <= i < |p.value.bitstreams| ==> p.value.bitstreams[i] != []) ==>
            var bs := p.value.bitstreams;
            p.value.contents == Lines(bs[..|bs| - 1] + [bs[|bs| - 1] + PrimaryFlag]))
  {
    var p := PackageOf(fl, md, env, keys, escape).value;
    if p.Some? {
      DcValuesFail(md, keys);
      if forall i :: 0 <= i < |p.value.bitstreams| ==> p.value.bitstreams[i] != [] {
        ContentsLines(p.value.bitstreams);
      }
    }
  }

  /** The DSpace part of the processor; the shared filter chain is
      Filtering.BaseProcessor. */
  class DSpaceProcessor {
    var outputDir: string
    var noOrig: bool
    var explodeAll: bool
    var explodeOne: bool
    var generateStrippedText: bool
    var generatePdf: bool
    var generateStrippedPdf: bool

    constructor()
      ensures outputDir == [] && Settings() == Flags(false, false, false, false, false, false)
    {
      outputDir := [];
      noOrig := false;
      explodeAll := false;
      explodeOne := false;
      generateStrippedText := false;
      generatePdf := false;
      generateStrippedPdf := false;
    }

    function Settings(): Flags
      reads this
    {
      Flags(noOrig, explodeAll, explodeOne, generateStrippedText, generatePdf, generateStrippedPdf)
    }

    /** begin, after the shared part: -o is required and names a directory
        that must not exist yet and that must be created; the switches are
        recorded. Whether the directory exists and whether mkdir succeeds
        are given, as the file system answers them. */
    method Begin(dir: Option<string>, exists_: bool, created: bool, fl: Flags) returns (r: Result<(), DSpaceError>)
      modifies this
      ensures dir.None? ==> r == Err(MissingOutputDir)
      ensures dir.Some? && exists_ ==> r == Err(OutputDirExists)
      ensures dir.Some? && !exists_ && !created ==> r == Err(OutputDirNotCreated)
      ensures r.Ok? <==> dir.Some? && !exists_ && created
      ensures r.Ok? ==> outputDir == dir.value && Settings() == fl
    {
      if dir.None? {
        return Err(MissingOutputDir);
      }
      outputDir := dir.value;
      if exists_ {
        return Err(OutputDirExists);
      }
      if !created {
        return Err(OutputDirNotCreated);
      }
      noOrig := fl.noOrig;
      explodeAll := fl.explodeAll;
      explodeOne := fl.explodeOne;
      generateStrippedText := fl.generateStrippedText;
      generatePdf := fl.generatePdf;
      generateStrippedPdf := fl.generateStrippedPdf;
      return Ok(());
    }

    /** addBitstreams */
    method AddBitstreams(book: Book) returns (r: Result<seq<string>, BookError>)
      requires book.Valid()
      modifies book
      ensures book.Valid()
      ensures r == Bitstreams(Settings(), book.metadata, book.env)
    {
      var md := book.metadata;
      var env := book.env;
      var zipEntries := book.ZipEntries();
      if zipEntries.Err? {
        return Err(zipEntries.error);
      }
      var file := GetFile(md, env).value;
      var n := zipEntries.value;
      var bitstreams: seq<string> := [];
      if n > 1 && explodeAll {
        var exploded := Explode(file);
        bitstreams := bitstreams + exploded;
      }
      if !noOrig {
        bitstreams := bitstreams + [file.name];
      }
      if n == 1 && (explodeOne || explodeAll) {
        var exploded := Explode(file);
        bitstreams := bitstreams + exploded;
      } else if n == -1 {
        assert bitstreams == PrimaryBitstreams(Settings(), file);
        return Ok(bitstreams);
      }
      assert bitstreams == PrimaryBitstreams(Settings(), file);
      var derived := AddDerivatives(book);
      if derived.Err? {
        return Err(derived.error);
      }
      bitstreams := bitstreams + derived.value;
      return Ok(bitstreams);
    }

    /** The derivative part of addBitstreams, switch by switch. */
    method AddDerivatives(book: Book) returns (r: Result<seq<string>, BookError>)
      requires book.Valid()
      modifies book
      ensures book.Valid()
      ensures r == Derivatives(Settings(), book.metadata, book.env)
    {
      var stripped := StrippedText(book);
      if stripped.Err? {
        return Err(stripped.error);
      }
      var pdf := Pdf(book, generatePdf, false, "-gen.pdf");
      if pdf.Err? {
        return Err(pdf.error);
      }
      var strippedPdf := Pdf(book, generateStrippedPdf, true, "-gens.pdf");
      if strippedPdf.Err? {
        return Err(strippedPdf.error);
      }
      return Ok(stripped.value + pdf.value + strippedPdf.value);
    }

    /** The stripped text derivative: named only once the text is there. */
    method StrippedText(book: Book) returns (r: Result<seq<string>, BookError>)
      requires book.Valid()
      modifies book
      ensures book.Valid()
      ensures r == Derivative(generateStrippedText, NormalizedContent(book.metadata, book.env),
                              BaseFilename(book.metadata), "-gens.txt", false)
    {
      if !generateStrippedText {
        return Ok([]);
      }
      var text := book.GetPlaintextContent(true);
      if text.Err? {
        return Err(text.error);
      }
      if text.value.None? {
        return Ok([]);
      }
      var base := BaseFilename(book.metadata);
      if base.Err? {
        return Err(base.error);
      }
      return Ok([base.value + "-gens.txt"]);
    }

    /** A PDF derivative: named first, then written. */
    method Pdf(book: Book, enabled: bool, normalize: bool, suffix: string) returns (r: Result<seq<string>, BookError>)
      requires book.Valid()
      modifies book
      ensures book.Valid()
      ensures r == Derivative(enabled,
                              if normalize then NormalizedContent(book.metadata, book.env) else RawContent(book.metadata, book.env),
                              BaseFilename(book.metadata), suffix, true)
    {
      if !enabled {
        return Ok([]);
      }
      var base := BaseFilename(book.metadata);
      if base.Err? {
        return Err(base.error);
      }
      var written := WritePdf(book, normalize);
      if written.Err? {
        return Err(written.error);
      }
      return Ok(if written.value then [base.value + suffix] else []);
    }

    /** test: the package of one book, over the book's keys in the map's
        iteration order. */
    method Test(book: Book, keys: seq<Option<Field>>, escape: string -> string)
      returns (r: Result<Option<ItemPackage>, DSpaceError>)
      requires book.Valid()
      requires forall k :: k in book.metadata <==> k in keys
      requires forall i, j :: 0 <= i < j < |keys| ==> keys[i] != keys[j]
      modifies book
      ensures book.Valid()
      ensures r == PackageOf(Settings(), book.metadata, book.env, keys, escape)
    {
      var etext := book.GetFirst(ETextNo);
      if etext.None? {
        return Err(NoETextNo);
      }
      var dir := "book_" + etext.value;
      var bitstreams := AddBitstreams(book);
      if bitstreams.Err? {
        return Err(BookFailure(bitstreams.error));
      }
      if bitstreams.value == [] {
        return Ok(None);
      }
      var contents := GetContents(bitstreams.value);
      var dc := GetDcXml(book, keys, escape);
      if dc.Err? {
        return Err(dc.error);
      }
      return Ok(Some(ItemPackage(dir, bitstreams.value, contents, dc.value)));
    }
  }
}
