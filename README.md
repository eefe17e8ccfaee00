# gutenproc core, modelled in Dafny

gutenproc reads the catalogue of a Project Gutenberg DVD. Each catalogue
page holds an HTML-ish metadata table, one row per line. The tool parses
each table into a book record and runs the record through a chain of
filters:

- metadata substring or `s/regex/` expressions;
- text-line expressions;
- minimum and maximum line-count bounds.

Each book that passes goes to a processor. The *unique* processor
tabulates field values. The *dspace* processor writes a DSpace Simple
Archive item: a `contents` file, a `dublin_core.xml` file and the
bitstreams.

The project models that core:

| file | module | models |
|---|---|---|
| `wrappers.dfy` | `Wrappers` | `Option` and `Result` |
| `text.dfy` | `Text` | the `java.lang.String` operations the core uses, with ASCII case folding |
| `fields.dfy` | `Fields` | the `Field` enum: labels, option tokens, Dublin Core annotations, `forString` |
| `dvd.dfy` | `Dvd` | the metadata-block parser `DVD.book` with `addFileInfo` and `stripTagsAndTrim` |
| `books.dfy` | `Books` | `Book`: metadata access, charset inference, payload choice (`.txt` or single-entry zip), the text normalizer, the memoised plain-text and line-count views, and the plain-text metadata rendering |
| `filtering.dfy` | `Filtering` | `BaseProcessor`: the filter chain, match-info capture, and the scan, match and process counters under the limit |
| `unique.dfy` | `Unique` | `UniqueProcessor`: field resolution, frequency tables, the sorted entry list, and top-N selection |
| `dspace.dfy` | `DSpace` | `DSpaceProcessor`: the contents text, the dublin_core.xml text, the bitstream list and its order, and entry renaming |
| `processors.dfy` | `Processors` | processor name derivation and lookup by name |

Stateful Java objects are Dafny classes whose methods are proved against
specification functions:

- `Books.Book` holds the memo fields;
- `Filtering.BaseProcessor` holds the counters and the match-info buffer;
- `Unique.UniqueProcessor` holds the field map;
- `DSpace.DSpaceProcessor` holds the settings.

The loops of the source (parser, normalizer, line count, filter scans,
printing, string builders) are `while` or `for` loops with invariants.
The stream pipeline of `process` (chained filters, then `limit` and
`forEach`) is a pair of recursive methods that follow its definition
book by book and filter by filter.

The environment a book consults is a parameter (`Books.Env`), holding:

- the DVD's files, keyed by path. A `.txt` file is its lines, or a read
  failure. A zip is its entries, or `Corrupt`.
- the set of charset names the runtime supports.

Other parameters stand for outside code:

- the regular-expression engine (`Filtering.Regex`);
- the XML escaper;
- HashMap iteration order;
- the output directory's file-system answers.

Java exceptions become `Err` results. The null HashMap key becomes `None`.

## Model

| member | source | states |
|---|---|---|
| `Fields.Field.DcElement` | src/main/java/com/github/cwilper/gutenproc/Field.java:43-45 | absent exactly when the constant declares no Dublin Core arguments, otherwise the first one |
| `Fields.Field.DcQualifier` | src/main/java/com/github/cwilper/gutenproc/Field.java:47-49 | the second Dublin Core argument when two are declared, otherwise "none" |
| `Fields.ShortLabelShape` | src/main/java/com/github/cwilper/gutenproc/Field.java:63-65 | a short label has no '.', no ' ' and is lower case |
| `Fields.Field.ShortLabel` | src/main/java/com/github/cwilper/gutenproc/Field.java:63-65 | no contract: the label with every '.' removed, every ' ' turned into '-', lower-cased; its shape is stated by `Fields.ShortLabelShape` |
| `Fields.Field.LongOpt` | src/main/java/com/github/cwilper/gutenproc/Field.java:59-61 | no contract: "match-" followed by the short label; `Fields.LongOptRoundTrip` states that it looks the field up again |
| `Fields.ETextNoShortLabel` | src/main/java/com/github/cwilper/gutenproc/Field.java:11 | "EText-No." becomes "etext-no" |
| `Fields.LocClassShortLabel` | src/main/java/com/github/cwilper/gutenproc/Field.java:14 | "LoC Class" becomes "loc-class" |
| `Fields.FindFieldSpec` | src/main/java/com/github/cwilper/gutenproc/Field.java:68-72 | the search returns a field that the string names (label or short label, ignoring case), and returns nothing only when no field in the list is named |
| `Fields.ForString` | src/main/java/com/github/cwilper/gutenproc/Field.java:67-74 | a recognised string names the returned field; an unrecognised one fails with "Unrecognized field: " plus the string |
| `Fields.ForStringFails` | src/main/java/com/github/cwilper/gutenproc/Field.java:67-74 | lookup fails if and only if no field's label or short label equals the string ignoring case |
| `Fields.AllValues` | src/main/java/com/github/cwilper/gutenproc/Field.java:7-20 | there are exactly 14 distinct constants and the list holds every one |
| `Fields.NamesUnique` | src/main/java/com/github/cwilper/gutenproc/Field.java:7-20 | no string names two different fields, so labels and short labels are distinct ignoring case |
| `Fields.ForStringRoundTrip` | src/main/java/com/github/cwilper/gutenproc/Field.java:67-74 | any string equal, ignoring case, to a field's label or short label looks up that field |
| `Fields.ForStringOwnNames` | src/main/java/com/github/cwilper/gutenproc/Field.java:59-74 | a field's label, its lower-cased label and its short label each look up that field |
| `Fields.LongOptRoundTrip` | src/main/java/com/github/cwilper/gutenproc/Field.java:59-61 | the long option is "match-" followed by a string that looks the field up again |
| `Fields.DcAnnotations` | src/main/java/com/github/cwilper/gutenproc/Field.java:27-41 | at most two Dublin Core arguments; no element exactly for BASE_DIR and PATH; a qualifier other than "none" exactly when two are declared |
| `Fields.OptsDistinct` | src/main/java/com/github/cwilper/gutenproc/Field.java:7-20 | the short option tokens of the constants are pairwise distinct |
| `Dvd.StripTags` | src/main/java/com/github/cwilper/gutenproc/DVD.java:92-94 | the result is no longer than the input, holds only the input's characters, and leaves no '<' followed later by '>' |
| `Dvd.StripTaglessUnchanged` | src/main/java/com/github/cwilper/gutenproc/DVD.java:92-94 | text without a complete tag is returned unchanged, so nothing is trimmed |
| `Dvd.StripTagsIdempotent` | src/main/java/com/github/cwilper/gutenproc/DVD.java:92-94 | stripping twice is stripping once |
| `Dvd.StripTagsNoAngle` | src/main/java/com/github/cwilper/gutenproc/DVD.java:92-94 | text without '<' is unchanged |
| `Dvd.Resolve` | src/main/java/com/github/cwilper/gutenproc/DVD.java:89 | the result is a normal path (no "//", no trailing '/'); an other path that normalises to nothing gives the normalised base; an absolute one replaces the base; otherwise a normal base and a normal relative path are joined with exactly one '/' |
| `Dvd.NormalizePath` | src/main/java/com/github/cwilper/gutenproc/DVD.java:89 | the normal form keeps the first character and has no "//" and no trailing '/'; a path already normal is unchanged |
| `Dvd.CollapseFacts` | src/main/java/com/github/cwilper/gutenproc/DVD.java:89 | cutting runs of '/' never lengthens a path, keeps its first and last characters, leaves no "//", and changes nothing in a path without "//" |
| `Dvd.CollapseAppend` | src/main/java/com/github/cwilper/gutenproc/DVD.java:89 | text without "//" that does not put two '/' together at the join is appended unchanged after collapsing |
| `Dvd.CollapseDoubled` | src/main/java/com/github/cwilper/gutenproc/DVD.java:89 | "dir//name" collapses to "dir/name" |
| `Dvd.ResolveCollapses` | src/main/java/com/github/cwilper/gutenproc/DVD.java:89 | resolving "dir//name" against a base gives base, '/', dir, '/', name |
| `Dvd.TrailingDropped` | src/main/java/com/github/cwilper/gutenproc/DVD.java:89 | "dir/" normalises to "dir" |
| `Dvd.ResolveTrailing` | src/main/java/com/github/cwilper/gutenproc/DVD.java:89 | resolving "dir/" against a base gives base, '/', dir |
| `Dvd.FileInfo` | src/main/java/com/github/cwilper/gutenproc/DVD.java:85-90 | after widening "<td><a" and stripping tags, the format is the text before the last space and the path is the text from two characters after it, resolved; the row fails exactly when it has no space or ends in one |
| `Dvd.CaptionRow` | src/main/java/com/github/cwilper/gutenproc/DVD.java:59-60 | the file row is a proper suffix of the caption line, starting at "<tr>" when the line holds "</tr><tr>" |
| `Dvd.AddFileInfo` | src/main/java/com/github/cwilper/gutenproc/DVD.java:85-90 | no contract: the row's (format, path) pair appended to the scanner's lists, or the row's failure; what the pair is, is stated by `Dvd.FileInfo` |
| `Dvd.Step` | src/main/java/com/github/cwilper/gutenproc/DVD.java:46-68 | no contract: one iteration of the line loop: a header sets the cursor or fails on an unknown label, a non-empty value row is added under the cursor, a caption adds its file row; `Dvd.StepFails` and `Dvd.ScanAgrees` state what it does |
| `Dvd.Scan` | src/main/java/com/github/cwilper/gutenproc/DVD.java:45-68 | no contract: the line loop over a whole block, stopping at the first failing line; `Dvd.ScanAgrees` and `Dvd.ScanFailureSticky` state what it computes |
| `Dvd.Finish` | src/main/java/com/github/cwilper/gutenproc/DVD.java:70-81 | no contract: FORMAT and PATH set from the file rows when there are any, then URL from the first EText-No, or the missing-number error; `Dvd.ParseBlockValues` and `Dvd.ParseBlockFails` state the result |
| `Dvd.ReadBlock` | src/main/java/com/github/cwilper/gutenproc/DVD.java:40-83 | the imperative line loop computes the record of the parse function, or its error |
| `Dvd.ParseBlock` | src/main/java/com/github/cwilper/gutenproc/DVD.java:40-83 | a failing line fails the block with its error; a parsed record has an EText-No value and exactly one URL, the URL prefix followed by the first EText-No |
| `Dvd.ScanFailureSticky` | src/main/java/com/github/cwilper/gutenproc/DVD.java:46-68 | once a prefix of the block fails, the whole block fails with the same error |
| `Dvd.StepFails` | src/main/java/com/github/cwilper/gutenproc/DVD.java:47-60 | one line fails exactly when it is an unknown header, or a caption whose file row cannot be split |
| `Dvd.ScanAgrees` | src/main/java/com/github/cwilper/gutenproc/DVD.java:45-68 | the scan fails exactly when some line fails; otherwise its state holds the header cursor, the collected values and one (format, path) pair per caption line, because the files-section flag never turns on |
| `Dvd.ParseBlockFails` | src/main/java/com/github/cwilper/gutenproc/DVD.java:46-80 | a block fails exactly when some line fails or no EText-No value was collected; with every line fine, a missing EText-No gives the missing-number error |
| `Dvd.HeadersRecognized` | src/main/java/com/github/cwilper/gutenproc/DVD.java:47-48 | in a block that parses, every header line names a field |
| `Dvd.ParseBlockValues` | src/main/java/com/github/cwilper/gutenproc/DVD.java:49-80 | URL is exactly one value built from the first EText-No; each other key holds its non-empty stripped values in order; FORMAT and PATH are replaced by equal-length lists, one pair per caption row; no list is empty |
| `Dvd.ReadBook` | src/main/java/com/github/cwilper/gutenproc/DVD.java:40-83 | a block that parses yields a fresh book with that metadata and empty memo fields; otherwise it yields the parse error |
| `Books.CharsetByName` | src/main/java/com/github/cwilper/gutenproc/Book.java:242-246 | an illegal name throws; a legal name is found exactly when supported, and then as itself |
| `Books.GetCharset` | src/main/java/com/github/cwilper/gutenproc/Book.java:233-251 | a resolved charset is supported, or is the US-ASCII default when there is no parameter; never "macintosh"; failures come only from a charset parameter |
| `Books.CharsetFromParameter` | src/main/java/com/github/cwilper/gutenproc/Book.java:234-246 | a quoted charset parameter decides the result, with "macintosh" read as "MacRoman" |
| `Books.CharsetDefault` | src/main/java/com/github/cwilper/gutenproc/Book.java:247-250 | without a parameter, a "text/plain" prefix gives US-ASCII and anything else gives nothing |
| `Books.CharsetUnclosed` | src/main/java/com/github/cwilper/gutenproc/Book.java:236-238 | a parameter without a closing quote fails |
| `Books.ZipEntryCount` | src/main/java/com/github/cwilper/gutenproc/Book.java:183-192 | zero for a non-zip, the number of entries for a zip that opens, at least -1 always |
| `Books.TxtEntries` | src/main/java/com/github/cwilper/gutenproc/Book.java:258-262 | exactly the entries whose names end in ".txt" |
| `Books.ZipText` | src/main/java/com/github/cwilper/gutenproc/Book.java:253-274 | text is found exactly when one ".txt" entry exists, and it is that entry's lines |
| `Books.ReadZipText` | src/main/java/com/github/cwilper/gutenproc/Book.java:253-274 | the entry loop computes the zip's text |
| `Books.GetFile` | src/main/java/com/github/cwilper/gutenproc/Book.java:175-177 | a record without PATH fails with the missing-path error; otherwise the file is found exactly when the first PATH value is a stored path, and then it is the file stored there, else the error names that path |
| `Books.RawContent` | src/main/java/com/github/cwilper/gutenproc/Book.java:211-231 | a record without FORMAT fails; a charset error, or a failed file lookup with a charset, is passed on; no charset gives nothing; with a charset, a ".txt" file gives its lines or a read failure, and a non-".txt" one-entry zip with a "text/plain" format gives the zip's text; any other file gives nothing (no error); content, when present, comes only from those two cases |
| `Books.ZipAmbiguous` | src/main/java/com/github/cwilper/gutenproc/Book.java:258-273 | a zip with no ".txt" entry or with several gives no content, and with a resolved charset (or none) the result is exactly "no content", not an error |
| `Books.MarkerPrefix` | src/main/java/com/github/cwilper/gutenproc/Book.java:280-281 | a line whose prefix is a boilerplate marker is a marker |
| `Books.StripKeepsNonMarker` | src/main/java/com/github/cwilper/gutenproc/Book.java:301-304 | removing trailing whitespace does not make a marker |
| `Books.NormalizeText` | src/main/java/com/github/cwilper/gutenproc/Book.java:276-311 | rejected exactly when fewer than 80 lines remain, otherwise the lines the state machine holds |
| `Books.NormStoppedSticky` | src/main/java/com/github/cwilper/gutenproc/Book.java:282-288 | after the early stop, later input changes nothing |
| `Books.NormStep` | src/main/java/com/github/cwilper/gutenproc/Book.java:279-305 | no contract: one loop iteration, a marker line clearing or stopping, a blank line adding "" only after text, any other line added without trailing whitespace |
| `Books.NormRun` | src/main/java/com/github/cwilper/gutenproc/Book.java:276-305 | no contract: the state after the loop has consumed the input |
| `Books.BlankNotMarker` | src/main/java/com/github/cwilper/gutenproc/Book.java:281 | a blank line is never a boilerplate marker |
| `Books.BlankRun` | src/main/java/com/github/cwilper/gutenproc/Book.java:295-300 | a run of blank lines adds exactly one "" after text, and nothing after a blank or at the start |
| `Books.NormalizeLines` | src/main/java/com/github/cwilper/gutenproc/Book.java:276-311 | the loop with its clear, remove and break computes the normalized text |
| `Books.KeptLines` | src/main/java/com/github/cwilper/gutenproc/Book.java:295-304 | every kept line is non-empty and no marker |
| `Books.NormRunInvariant` | src/main/java/com/github/cwilper/gutenproc/Book.java:276-311 | the held lines never start with "" or hold two "" in a row; every other line is a kept input line with trailing whitespace removed |
| `Books.NormStopAccepted` | src/main/java/com/github/cwilper/gutenproc/Book.java:282-288 | the early stop keeps at least 90 lines, so it is never rejected, and its last line is non-empty |
| `Books.NormalizedShape` | src/main/java/com/github/cwilper/gutenproc/Book.java:276-311 | accepted output has at least 80 lines, is well spaced, holds only "" and kept input lines, and holds no marker |
| `Books.WellSpacedCount` | src/main/java/com/github/cwilper/gutenproc/Book.java:295-300 | well-spaced text is at most twice its non-empty lines |
| `Books.NormalizedLineCount` | src/main/java/com/github/cwilper/gutenproc/Book.java:307-309 | accepted text has at least 80 lines and at least half of them are non-empty |
| `Books.PrintOrderComplete` | src/main/java/com/github/cwilper/gutenproc/Book.java:66-88 | the printing order lists each of the 14 fields exactly once |
| `Books.ValueLinesCount` | src/main/java/com/github/cwilper/gutenproc/Book.java:98-104 | one line per value |
| `Books.MetadataTextEnd` | src/main/java/com/github/cwilper/gutenproc/Book.java:90-96 | non-empty metadata text ends in a newline, so dropping the last character drops exactly one newline |
| `Books.MetadataTextLines` | src/main/java/com/github/cwilper/gutenproc/Book.java:90-104 | the text has exactly one line per value of the printed fields |
| `Books.BuildMetadataText` | src/main/java/com/github/cwilper/gutenproc/Book.java:90-96 | the builder loop renders every field in order |
| `Books.AddValuesIfPresent` | src/main/java/com/github/cwilper/gutenproc/Book.java:98-104 | appends one "Label: value" line per value of a present field, and nothing for an absent one |
| `Books.ValueLines` | src/main/java/com/github/cwilper/gutenproc/Book.java:98-104 | no contract: one "Label: value" line per value, in order; `Books.ValueLinesCount` counts them |
| `Books.MetadataText` | src/main/java/com/github/cwilper/gutenproc/Book.java:90-96 | no contract: the value lines of the given fields in the given order; `Books.MetadataTextLines` and `Books.MetadataTextEnd` state its shape |
| `Books.ComputedLines` | src/main/java/com/github/cwilper/gutenproc/Book.java:67-71 | no contract: the "Zip Entries: " and "Text Lines: " lines, each ending in a newline |
| `Books.BaseFilenameShape` | src/main/java/com/github/cwilper/gutenproc/Book.java:123-127 | the PATH value is a directory, the base name, a '.' and an extension without '.' or '/' |
| `Books.BaseFilename` | src/main/java/com/github/cwilper/gutenproc/Book.java:123-127 | fails with the missing-path error exactly for a record without PATH; fails with the no-extension error exactly when the file name after the last '/' has no '.'; otherwise the part of that name before its last '.', which holds no '/' |
| `Books.BaseName` | src/main/java/com/github/cwilper/gutenproc/Book.java:123-127 | the file name after the last '/' is the result, a '.' and an extension without '.'; a name without '.' fails |
| `Books.FileName` | src/main/java/com/github/cwilper/gutenproc/Book.java:123-127 | the longest suffix of the path without '/'; what precedes it ends in '/' |
| `Books.ReadRawContent` | src/main/java/com/github/cwilper/gutenproc/Book.java:211-231 | the imperative reader computes the raw content |
| `Books.NormalizedContent` | src/main/java/com/github/cwilper/gutenproc/Book.java:106-121 | fails exactly when raw content fails; absent when raw content is absent; present content has at least 80 lines |
| `Books.LineCountOf` | src/main/java/com/github/cwilper/gutenproc/Book.java:194-209 | fails exactly when raw content fails; -1 exactly when normalized content is absent; otherwise at least 40 |
| `Books.LineCountByContent` | src/main/java/com/github/cwilper/gutenproc/Book.java:194-209 | the line count is the number of non-empty normalized lines |
| `Books.CountLines` | src/main/java/com/github/cwilper/gutenproc/Book.java:200-205 | the counting loop counts the non-empty lines |
| `Books.Book.constructor` | src/main/java/com/github/cwilper/gutenproc/Book.java:40-42 | a book starts with its metadata and no cached view |
| `Books.Book.Get` | src/main/java/com/github/cwilper/gutenproc/Book.java:48-53 | present exactly when the field is, and then its non-empty list |
| `Books.Book.GetFirst` | src/main/java/com/github/cwilper/gutenproc/Book.java:55-60 | present exactly when the field is, and then its first value |
| `Books.Book.Has` | src/main/java/com/github/cwilper/gutenproc/Book.java:44-46 | no contract: the field is a key of the metadata map |
| `Books.Book.Fields` | src/main/java/com/github/cwilper/gutenproc/Book.java:62-64 | no contract: the keys of the metadata map, the null key included |
| `Books.Book.GetPlaintextContent` | src/main/java/com/github/cwilper/gutenproc/Book.java:106-121 | returns the raw or normalized content; each is computed at most once and a cached value never changes; normalizing absent raw content gives nothing |
| `Books.Book.LineCount` | src/main/java/com/github/cwilper/gutenproc/Book.java:194-209 | returns the line count; caches it only when it is not -1, and a cached count never changes |
| `Books.Book.ZipEntries` | src/main/java/com/github/cwilper/gutenproc/Book.java:183-192 | fails exactly when the book's file lookup fails, with its error; otherwise the entry count of that file, at least -1 |
| `Books.Book.GetPlaintextMetadata` | src/main/java/com/github/cwilper/gutenproc/Book.java:66-88 | without the computed lines: the fields in print order minus one final newline, and the empty-metadata error exactly when that text is empty; with them: succeeds exactly when the zip entry count and the line count both succeed, and then adds the two computed lines; otherwise the first of their errors |
| `Filtering.ParseExpr` | src/main/java/com/github/cwilper/gutenproc/BaseProcessor.java:135-141 | "s/…/" is the regex between the slashes, anything else a lower-cased substring; "s/" alone fails |
| `Filtering.ExprFilters` | src/main/java/com/github/cwilper/gutenproc/BaseProcessor.java:125-132 | each expression of a field becomes its own filter, in order |
| `Filtering.FieldFilters` | src/main/java/com/github/cwilper/gutenproc/BaseProcessor.java:96-98 | the field filters are for the configured fields; building fails exactly when some field has the expression "s/" |
| `Filtering.TextFilters` | src/main/java/com/github/cwilper/gutenproc/BaseProcessor.java:99-103 | each text expression becomes its own filter, in order |
| `Filtering.BuildFilters` | src/main/java/com/github/cwilper/gutenproc/BaseProcessor.java:96-109 | building the chain fails exactly when some expression is "s/" |
| `Filtering.Bounds` | src/main/java/com/github/cwilper/gutenproc/BaseProcessor.java:104-109 | the minimum bound comes first and the maximum last, each only when given |
| `Filtering.ChainFieldFilters` | src/main/java/com/github/cwilper/gutenproc/BaseProcessor.java:96-98 | the chain's filters for a field are exactly that field's expressions, in order |
| `Filtering.ChainLayout` | src/main/java/com/github/cwilper/gutenproc/BaseProcessor.java:96-109 | field filters come first, then text filters, then the minimum and maximum bounds |
| `Filtering.AnyMatch` | src/main/java/com/github/cwilper/gutenproc/BaseProcessor.java:143-152 | an expression passes exactly when some value matches it |
| `Filtering.MatchOutcome` | src/main/java/com/github/cwilper/gutenproc/BaseProcessor.java:134-172 | a bad regex fails at the first item it is matched against; otherwise the result is whether some item matches |
| `Filtering.InfoLinesEmpty` | src/main/java/com/github/cwilper/gutenproc/BaseProcessor.java:143-148 | the match-info gains a line exactly when some item matches |
| `Filtering.InfoLines` | src/main/java/com/github/cwilper/gutenproc/BaseProcessor.java:143-194 | no contract: one match-info line per matching item, in order, as `addMatchInfo` appends them; `Filtering.InfoLinesEmpty` states it is empty exactly when nothing matches |
| `Filtering.ChainInfo` | src/main/java/com/github/cwilper/gutenproc/BaseProcessor.java:96-109 | no contract: the match-info of each filter in chain order, up to and including the first filter that does not pass; `Filtering.BaseProcessor.RunFilters` appends exactly it |
| `Filtering.FilterOutcome` | src/main/java/com/github/cwilper/gutenproc/BaseProcessor.java:104-109 | a missing field fails a field filter; a book without text fails a text filter; a line count of -1 fails any minimum of at least 0 and passes any maximum of at least -1 |
| `Filtering.ChainStep` | src/main/java/com/github/cwilper/gutenproc/BaseProcessor.java:96-114 | the chain stops at the first failing filter |
| `Filtering.PassesAll` | src/main/java/com/github/cwilper/gutenproc/BaseProcessor.java:96-114 | a book passes the chain exactly when it passes every filter |
| `Filtering.Passes` | src/main/java/com/github/cwilper/gutenproc/BaseProcessor.java:96-114 | a rejection comes from some filter that rejects, and an error is some filter's error |
| `Filtering.PassedFieldExpression` | src/main/java/com/github/cwilper/gutenproc/BaseProcessor.java:125-152 | a book that passes has the field and, for every configured expression, a matching value |
| `Filtering.NoTextFailsTextFilter` | src/main/java/com/github/cwilper/gutenproc/BaseProcessor.java:179-183 | a book without text never passes a chain that has a text filter |
| `Filtering.PullBook` | src/main/java/com/github/cwilper/gutenproc/BaseProcessor.java:86-123 | a block that does not parse ends the run; a parsed book adds one scan, one match exactly when it passes the chain, and one process exactly when it passes and the test accepts it; the test is not asked about a rejected book; a filter's exception, or an exception of the test on a book that passed, ends the run with that error |
| `Filtering.RunNext` | src/main/java/com/github/cwilper/gutenproc/BaseProcessor.java:116-122 | below the limit the next book is pulled, and a failure ends the stream |
| `Filtering.TestFailureEndsRun` | src/main/java/com/github/cwilper/gutenproc/BaseProcessor.java:111-121 | below the limit, a parsed book that passes the chain and whose test throws ends the run with the test's failure |
| `Filtering.RunCounts` | src/main/java/com/github/cwilper/gutenproc/BaseProcessor.java:86-123 | processed ≤ matched ≤ scanned and processed ≤ limit; the stream stops early only at the limit; at the limit nothing more is pulled |
| `Filtering.RunBooks` | src/main/java/com/github/cwilper/gutenproc/BaseProcessor.java:111-122 | the scan counter grows by at most the number of blocks and the process counter never falls; stopping before the last block means the limit was reached |
| `Filtering.ProcessCounts` | src/main/java/com/github/cwilper/gutenproc/BaseProcessor.java:86-123 | for a whole run, processed ≤ matched ≤ scanned ≤ the number of books, processed ≤ limit, and a limit of 0 counts nothing |
| `Filtering.ProcessOutcome` | src/main/java/com/github/cwilper/gutenproc/BaseProcessor.java:86-123 | a chain that cannot be built fails with its error; a negative limit fails; a run scans at most every block and stops early only at the limit |
| `Filtering.BaseProcessor.constructor` | src/main/java/com/github/cwilper/gutenproc/BaseProcessor.java:15-25 | the counters start at 0 and the match-info is empty |
| `Filtering.BaseProcessor.Begin` | src/main/java/com/github/cwilper/gutenproc/BaseProcessor.java:71-83 | the bounds are as given; the limit is as given, or Long.MAX_VALUE |
| `Filtering.BaseProcessor.AddMatchInfo` | src/main/java/com/github/cwilper/gutenproc/BaseProcessor.java:220-224 | a line and a newline are appended only while capturing |
| `Filtering.BaseProcessor.MatchItems` | src/main/java/com/github/cwilper/gutenproc/BaseProcessor.java:143-194 | the result does not depend on capturing; when capturing, one info line is appended per matching item, with 1-based line numbers for text |
| `Filtering.BaseProcessor.ApplyFilter` | src/main/java/com/github/cwilper/gutenproc/BaseProcessor.java:104-109 | applying one filter computes its outcome, and records its match-info when capturing |
| `Filtering.BaseProcessor.RunFilters` | src/main/java/com/github/cwilper/gutenproc/BaseProcessor.java:96-109 | running the chain computes whether the book passes, and records the chain's match-info |
| `Filtering.BaseProcessor.Examine` | src/main/java/com/github/cwilper/gutenproc/BaseProcessor.java:87-121 | the match-info is reset for each book and holds the chain's info; the counters grow as pulling the book counts, and the result is that pull, including a test failure |
| `Filtering.BaseProcessor.RunTest` | src/main/java/com/github/cwilper/gutenproc/BaseProcessor.java:111-121 | the match counter grows by one, the test is asked, and the process counter grows by one exactly when it accepts; a throwing test fails |
| `Filtering.BaseProcessor.Pull` | src/main/java/com/github/cwilper/gutenproc/BaseProcessor.java:86-123 | pulling a block changes the counters as the counting function says |
| `Filtering.BaseProcessor.Stream` | src/main/java/com/github/cwilper/gutenproc/BaseProcessor.java:111-122 | the stream pulls books until the blocks run out or the limit is reached, and stops at the first failure; the counter fields grow by the counted amounts |
| `Filtering.BaseProcessor.Process` | src/main/java/com/github/cwilper/gutenproc/BaseProcessor.java:86-123 | process builds the chain, rejects a negative limit, and leaves counters that satisfy the whole-run bounds |
| `Unique.AddValuesCount` | src/main/java/com/github/cwilper/gutenproc/unique/UniqueProcessor.java:75-81 | each value's count grows by the number of times it occurs |
| `Unique.AddValues` | src/main/java/com/github/cwilper/gutenproc/unique/UniqueProcessor.java:75-81 | every added value has an entry; a value not added keeps its count; no count decreases |
| `Unique.AddValuesKeys` | src/main/java/com/github/cwilper/gutenproc/unique/UniqueProcessor.java:75-81 | the table's keys gain exactly the added values |
| `Unique.TotalRemove` | src/main/java/com/github/cwilper/gutenproc/unique/UniqueProcessor.java:75-81 | a table's total is any one count plus the total of the rest |
| `Unique.TotalIncrement` | src/main/java/com/github/cwilper/gutenproc/unique/UniqueProcessor.java:76-80 | one increment adds one to the table's total |
| `Unique.AddValuesTotal` | src/main/java/com/github/cwilper/gutenproc/unique/UniqueProcessor.java:75-81 | the total grows by exactly the number of values added |
| `Unique.AcceptAll` | src/main/java/com/github/cwilper/gutenproc/unique/UniqueProcessor.java:68-83 | every visited field has a table; every other field keeps its table, or still has none |
| `Unique.AcceptTables` | src/main/java/com/github/cwilper/gutenproc/unique/UniqueProcessor.java:68-83 | only the book's fields' tables change, each by the book's values; a table exists afterwards exactly for the fields that had one and the fields of the book |
| `Unique.AcceptCounts` | src/main/java/com/github/cwilper/gutenproc/unique/UniqueProcessor.java:68-83 | each count grows by the value's occurrences in the book's list for the field, and no count decreases |
| `Unique.AcceptTotal` | src/main/java/com/github/cwilper/gutenproc/unique/UniqueProcessor.java:68-83 | a field's total grows by the length of the book's list for it |
| `Unique.StrLessIrreflexive` | src/main/java/com/github/cwilper/gutenproc/unique/UniqueProcessor.java:123 | no key sorts before itself |
| `Unique.StrLessTransitive` | src/main/java/com/github/cwilper/gutenproc/unique/UniqueProcessor.java:123 | the key order is transitive |
| `Unique.StrLessTotal` | src/main/java/com/github/cwilper/gutenproc/unique/UniqueProcessor.java:123 | of two different keys, one sorts before the other |
| `Unique.PrecedesTransitive` | src/main/java/com/github/cwilper/gutenproc/unique/UniqueProcessor.java:119-125 | the entry order is transitive |
| `Unique.Insert` | src/main/java/com/github/cwilper/gutenproc/unique/UniqueProcessor.java:119-125 | inserting keeps every entry and adds one |
| `Unique.InsertSorted` | src/main/java/com/github/cwilper/gutenproc/unique/UniqueProcessor.java:119-125 | inserting into a sorted list keeps it sorted |
| `Unique.Sort` | src/main/java/com/github/cwilper/gutenproc/unique/UniqueProcessor.java:117-127 | the sorted list is a permutation of its input |
| `Unique.SortSorted` | src/main/java/com/github/cwilper/gutenproc/unique/UniqueProcessor.java:117-127 | the sorted list is sorted |
| `Unique.SortedByCount` | src/main/java/com/github/cwilper/gutenproc/unique/UniqueProcessor.java:120-121 | with counts shown, counts never increase along the list |
| `Unique.SortedByKey` | src/main/java/com/github/cwilper/gutenproc/unique/UniqueProcessor.java:122-123 | without counts, distinct keys strictly ascend |
| `Unique.SortedListing` | src/main/java/com/github/cwilper/gutenproc/unique/UniqueProcessor.java:117-127 | the sorted list holds exactly the table's entries, once each, in order |
| `Unique.ShownAsWritten` | src/main/java/com/github/cwilper/gutenproc/unique/UniqueProcessor.java:104-114 | printing never shows more entries than there are |
| `Unique.TopCount` | src/main/java/com/github/cwilper/gutenproc/unique/UniqueProcessor.java:104-114 | the intended count is min(n, showTop), and 0 for a non-positive showTop |
| `Unique.ShowTopOffByOne` | src/main/java/com/github/cwilper/gutenproc/unique/UniqueProcessor.java:110-112 | with fewer than n requested, the loop as written shows showTop + 1 entries, one more than asked |
| `Unique.EntryLines` | src/main/java/com/github/cwilper/gutenproc/unique/UniqueProcessor.java:106-109 | one line per entry, in order: the key alone without counts, and with counts the count in decimal, ": ", then the key |
| `Unique.ResolveFields` | src/main/java/com/github/cwilper/gutenproc/unique/UniqueProcessor.java:54-58 | on success each name looks up its field, in order; on failure the error is that of the first name that fails |
| `Unique.ResolvePrefixErr` | src/main/java/com/github/cwilper/gutenproc/unique/UniqueProcessor.java:55-57 | once a name fails, later names are not consulted |
| `Unique.UniqueProcessor.constructor` | src/main/java/com/github/cwilper/gutenproc/unique/UniqueProcessor.java:19-25 | empty field map and field list, counts off, no top limit |
| `Unique.ReadFieldNames` | src/main/java/com/github/cwilper/gutenproc/unique/UniqueProcessor.java:54-58 | the loop over the -f names computes their resolution: every field in order, or the error of the first unknown name |
| `Unique.UniqueProcessor.Begin` | src/main/java/com/github/cwilper/gutenproc/unique/UniqueProcessor.java:52-65 | an unknown field name aborts with its error; otherwise the resolved fields are appended in order and the count and top settings are applied |
| `Unique.CountValues` | src/main/java/com/github/cwilper/gutenproc/unique/UniqueProcessor.java:75-81 | the inner loop of accept computes the table with each value counted once more per occurrence |
| `Unique.UniqueProcessor.Accept` | src/main/java/com/github/cwilper/gutenproc/unique/UniqueProcessor.java:68-83 | the field map becomes the accepted tables, so the count, total and unchanged-field lemmas apply |
| `Unique.UniqueProcessor.SortedEntryList` | src/main/java/com/github/cwilper/gutenproc/unique/UniqueProcessor.java:117-127 | for an order listing each key once, the list is a permutation of the table's entries, holds each (key, count) of the table exactly once, and is sorted count-descending or key-ascending as selected |
| `Unique.UniqueProcessor.PrintValues` | src/main/java/com/github/cwilper/gutenproc/unique/UniqueProcessor.java:102-115 | as written: nothing for a missing table, otherwise the lines of the first min(n, max(showTop, 0) + 1) entries of the sorted list (one entry when showTop < 0) |
| `Unique.UniqueProcessor.PrintTopValues` | src/main/java/com/github/cwilper/gutenproc/unique/UniqueProcessor.java:102-115 | as intended: nothing for a missing table, otherwise the lines of the first min(n, showTop) entries of the sorted list |
| `DSpace.LinesSnoc` | src/main/java/com/github/cwilper/gutenproc/dspace/DSpaceProcessor.java:132-137 | joining with one more name adds a newline and that name |
| `DSpace.JoinedLines` | src/main/java/com/github/cwilper/gutenproc/dspace/DSpaceProcessor.java:130-140 | for non-empty names the builder loop joins them with "\n" |
| `DSpace.ContentsLines` | src/main/java/com/github/cwilper/gutenproc/dspace/DSpaceProcessor.java:130-140 | the contents are the names one per line, with the primary flag on the last only |
| `DSpace.GetContents` | src/main/java/com/github/cwilper/gutenproc/dspace/DSpaceProcessor.java:130-140 | the builder loop computes the contents text |
| `DSpace.Contents` | src/main/java/com/github/cwilper/gutenproc/dspace/DSpaceProcessor.java:130-140 | the text always ends with the primary flag, and is only the flag for no names |
| `DSpace.DcXml` | src/main/java/com/github/cwilper/gutenproc/dspace/DSpaceProcessor.java:223-241 | for keys listing the record's keys once each, fails with the null-field error exactly when the record has the null key; otherwise starts with "<dublin_core>\n" and ends with "</dublin_core>" |
| `DSpace.DcValues` | src/main/java/com/github/cwilper/gutenproc/dspace/DSpaceProcessor.java:226-236 | the only failure is the null-field error |
| `DSpace.DcValuesFail` | src/main/java/com/github/cwilper/gutenproc/dspace/DSpaceProcessor.java:226-228 | rendering fails exactly when the record has a value under the null key |
| `DSpace.DcValueSource` | src/main/java/com/github/cwilper/gutenproc/dspace/DSpaceProcessor.java:226-236 | every dcvalue carries its field's element and qualifier and one of its values |
| `DSpace.DcValueComplete` | src/main/java/com/github/cwilper/gutenproc/dspace/DSpaceProcessor.java:226-236 | every value of a field with a Dublin Core element gets a dcvalue |
| `DSpace.DcValuesCount` | src/main/java/com/github/cwilper/gutenproc/dspace/DSpaceProcessor.java:226-236 | exactly one dcvalue per value, with BASE_DIR and PATH contributing none |
| `DSpace.AppendField` | src/main/java/com/github/cwilper/gutenproc/dspace/DSpaceProcessor.java:229-235 | the inner loop appends one line per value of a field with an element |
| `DSpace.GetDcXml` | src/main/java/com/github/cwilper/gutenproc/dspace/DSpaceProcessor.java:223-241 | for keys listing the record's keys once each, the builder loops compute the dublin_core.xml text |
| `DSpace.Renamed` | src/main/java/com/github/cwilper/gutenproc/dspace/DSpaceProcessor.java:209 | the name keeps its length and holds no '/' |
| `DSpace.ExplodedNames` | src/main/java/com/github/cwilper/gutenproc/dspace/DSpaceProcessor.java:202-221 | one renamed name per zip entry, none holding '/' |
| `DSpace.PrimaryBitstreams` | src/main/java/com/github/cwilper/gutenproc/dspace/DSpaceProcessor.java:145-156 | many entries with explode-all put the exploded names before the original; one entry with either explode switch puts them after; otherwise only the original, omitted under no-orig |
| `DSpace.DerivativesPresent` | src/main/java/com/github/cwilper/gutenproc/dspace/DSpaceProcessor.java:162-186 | "-gens.txt", "-gen.pdf", "-gens.pdf" follow in that order, each exactly when its switch is on and its content exists |
| `DSpace.CorruptZipNoDerivatives` | src/main/java/com/github/cwilper/gutenproc/dspace/DSpaceProcessor.java:157-160 | a corrupt zip gives only the original, and no derivatives |
| `DSpace.DefaultBitstreams` | src/main/java/com/github/cwilper/gutenproc/dspace/DSpaceProcessor.java:142-190 | with every switch off, the item holds only the original file |
| `DSpace.Derivatives` | src/main/java/com/github/cwilper/gutenproc/dspace/DSpaceProcessor.java:162-186 | at most one derivative per enabled switch |
| `DSpace.Derivative` | src/main/java/com/github/cwilper/gutenproc/dspace/DSpaceProcessor.java:162-186 | a switched-off derivative gives nothing; a derivative that is listed is exactly the base name followed by its suffix |
| `DSpace.Bitstreams` | src/main/java/com/github/cwilper/gutenproc/dspace/DSpaceProcessor.java:142-190 | a failed file lookup is passed on; a list that is built starts with the primary bitstreams of the file |
| `DSpace.WritePdf` | src/main/java/com/github/cwilper/gutenproc/Book.java:129-138 | a PDF is produced exactly when the chosen content exists, and errors are passed on |
| `DSpace.Explode` | src/main/java/com/github/cwilper/gutenproc/dspace/DSpaceProcessor.java:202-221 | the entry loop computes the exploded names |
| `DSpace.PackageShape` | src/main/java/com/github/cwilper/gutenproc/dspace/DSpaceProcessor.java:96-128 | for keys listing the record's keys once each: an item is skipped exactly when no bitstream is eligible; otherwise its directory is "book_" plus the first EText-No, and it holds the bitstreams, the contents text and the dublin_core.xml text |
| `DSpace.PackageOf` | src/main/java/com/github/cwilper/gutenproc/dspace/DSpaceProcessor.java:96-128 | a record without EText-No fails with its error; a built item has at least one bitstream and its contents text lists them |
| `DSpace.DSpaceProcessor.constructor` | src/main/java/com/github/cwilper/gutenproc/dspace/DSpaceProcessor.java:31-37 | every switch starts off |
| `DSpace.DSpaceProcessor.Begin` | src/main/java/com/github/cwilper/gutenproc/dspace/DSpaceProcessor.java:81-94 | a missing output directory, an existing one, or one that cannot be created each fail; otherwise the directory and switches are stored |
| `DSpace.DSpaceProcessor.AddBitstreams` | src/main/java/com/github/cwilper/gutenproc/dspace/DSpaceProcessor.java:142-190 | the list built in place is the bitstream list of the ordering rule |
| `DSpace.DSpaceProcessor.AddDerivatives` | src/main/java/com/github/cwilper/gutenproc/dspace/DSpaceProcessor.java:162-186 | the derivatives are appended in their fixed order |
| `DSpace.DSpaceProcessor.StrippedText` | src/main/java/com/github/cwilper/gutenproc/dspace/DSpaceProcessor.java:162-171 | the stripped text is added when enabled and the normalized content exists |
| `DSpace.DSpaceProcessor.Pdf` | src/main/java/com/github/cwilper/gutenproc/dspace/DSpaceProcessor.java:172-186 | a PDF derivative is added when enabled and its content exists |
| `DSpace.DSpaceProcessor.Test` | src/main/java/com/github/cwilper/gutenproc/dspace/DSpaceProcessor.java:96-128 | for keys listing the record's keys once each, test builds the package of the packaging rule, or skips the book |
| `Processors.GetName` | src/main/java/com/github/cwilper/gutenproc/Processor.java:16-19 | the class name minus its last nine characters, lower-cased |
| `Processors.KnownNames` | src/main/java/com/github/cwilper/gutenproc/Processor.java:16-19 | ListProcessor, UniqueProcessor and DSpaceProcessor are "list", "unique" and "dspace" |
| `Processors.SuffixNotChecked` | src/main/java/com/github/cwilper/gutenproc/Processor.java:17-18 | "Processor" is cut off, and so is any other nine-character ending |
| `Processors.ForName` | src/main/java/com/github/cwilper/gutenproc/Processor.java:78-86 | the first processor whose name equals the lower-cased query; nothing exactly when none does |
| `Processors.ForNameIgnoresCase` | src/main/java/com/github/cwilper/gutenproc/Processor.java:79-81 | the query's case does not change the result |
| `Processors.KnownLookups` | src/main/java/com/github/cwilper/gutenproc/Processor.java:78-86 | "DSpace" finds the DSpace processor and "print" finds none |

## Left out

- Character handling: case folding, trimming and whitespace are ASCII-only. `Text.Lower` folds 'A'–'Z' only, and Unicode case mapping is not modelled.
- `Unique.StrLessTotal`: the key order compares characters as code points, while `String.compareTo` compares UTF-16 units. The two orders differ only for characters outside the Basic Multilingual Plane.
- Regular expressions: `String.matches` is an abstract engine (`Filtering.Regex`), with a whole-string match predicate and a compile check.
- Charsets: `Charset.forName` is the set of supported names in `Books.Env`, and decoding is not modelled. A `.txt` file is its lines, or a read failure.
- Counter width: `int` and `long` counter overflow is not modelled, and the counters are unbounded integers.
- File lookup: `GutenProc.getFileCaseInsensitive` becomes an exact lookup in `Books.Env.files`. GutenProc.java is not part of this model.
- `Filtering.MatchOutcome`: a regex that does not compile fails the run at the first item it is matched against. The exception type is not modelled.
- `Unique.UniqueProcessor.SortedEntryList`: HashMap iteration order is the parameter `order`, required to list every key once. The sort's stability is not stated.
- `DSpace.DcXml`: the record's iteration order is the parameter `keys`, required to list every key once.
- Printing: `UniqueProcessor.end`, `DSpaceProcessor.end`, the progress messages in `DSpaceProcessor.test`, `ListProcessor` and `Book.getPlaintextMetadata` callers' output are not modelled.
- `DSpace.WritePdf`: only reports whether a PDF would be written. PDFBox page rendering is not modelled.
- DSpace file I/O: the writes of `contents`, `dublin_core.xml` and the bitstream files, the file copies, and the zip stream copy in `explode` are not modelled. The item directory's `mkdir` is taken to succeed.
- `DSpace.DSpaceProcessor.Begin`: the output directory's existence and creation are boolean parameters.
- `Unique.UniqueProcessor.Begin`: when a -f name is unknown, the fields resolved before it are not appended; the exception ends the run either way.
- XML escaping: `XmlEscapers` is the parameter `escape`.
- `Processors.ForName`: `Processor.list()` classpath scanning is replaced by an explicit list of class names.
- `Unique.UniqueProcessor.Accept`: UniqueProcessor declares `accept` but no `test`, so nothing in the source feeds the filtered books to `accept`. The model keeps `Accept` as its own method. `Filtering.BaseProcessor.Process` takes the processor's `test` as a parameter (`Filtering.ProcessorTest`), which answers whether a book is accepted or gives the message of the exception it throws. `DSpace.DSpaceProcessor.Test` is not plugged into it, and the base-class part of each processor is `Filtering.BaseProcessor`.
- CLI: command-line parsing, help text and `System.exit` (GutenProc.java, Commandline.java) are not modelled. Options arrive as `Filtering.Options` and as method parameters.
- Laziness: Java stream laziness in `process` and `books` is a walk over the blocks that stops at the limit.
- Concurrency: the `synchronized` memo methods of `Book` are modelled sequentially.

## Findings

| source | as written | input that shows it | evidently intended | confidence | as-written member | corrected member |
|---|---|---|---|---|---|---|
| src/main/java/com/github/cwilper/gutenproc/unique/UniqueProcessor.java:104-114 | `i` is incremented before the `i > showTop` check, so min(n, max(showTop, 0) + 1) entries are printed (one when showTop < 0) | showTop = 1 with two distinct values prints both | print min(n, showTop) entries | high; not executed | `Unique.UniqueProcessor.PrintValues` | `Unique.UniqueProcessor.PrintTopValues` |
