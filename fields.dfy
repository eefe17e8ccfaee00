/** The closed set of metadata fields of a catalogue record, each with its
    display label, its short command-line option and its Dublin Core
    element/qualifier annotation (Field.java). */
module Fields {
  import opened Wrappers
  import opened Text

  datatype Field =
    | Author | BaseDir | Contributor | CopyrightStatus | ETextNo | Format | Language
    | LocClass | Note | Path | ReleaseDate | Subject | Title | Url
  {
    /** The display label given to the enum constant. */
    function Label(): string {
      match this
      case Author => "Author"
      case BaseDir => "Base Directory"
      case Contributor => "Contributor"
      case CopyrightStatus => "Copyright Status"
      case ETextNo => "EText-No."
      case Format => "Format"
      case Language => "Language"
      case LocClass => "LoC Class"
      case Note => "Note"
      case Path => "Path"
      case ReleaseDate => "Release Date"
      case Subject => "Subject"
      case Title => "Title"
      case Url => "URL"
    }

    /** The short option token given to the enum constant. */
    function Opt(): string {
      match this
      case Author => "ma"
      case BaseDir => "mb"
      case Contributor => "mo"
      case CopyrightStatus => "my"
      case ETextNo => "me"
      case Format => "mf"
      case Language => "ml"
      case LocClass => "mc"
      case Note => "mn"
      case Path => "mp"
      case ReleaseDate => "mr"
      case Subject => "ms"
      case Title => "mt"
      case Url => "mu"
    }

    /** The Dublin Core arguments the enum constant is declared with. */
    function DcArgs(): seq<string> {
      match this
      case Author => ["contributor", "author"]
      case BaseDir => []
      case Contributor => ["contributor", "other"]
      case CopyrightStatus => ["rights"]
      case ETextNo => ["identifier"]
      case Format => ["format", "mimetype"]
      case Language => ["language"]
      case LocClass => ["subject", "lcsh"]
      case Note => ["description"]
      case Path => []
      case ReleaseDate => ["date", "issued"]
      case Subject => ["subject"]
      case Title => ["title"]
      case Url => ["identifier", "uri"]
    }

    /** The element the constructor stores: null without dc arguments. */
    function DcElement(): (r: Option<string>)
      ensures r.None? <==> DcArgs() == []
      ensures r.Some? ==> r.value == DcArgs()[0]
    {
      var dc := DcArgs();
      if |dc| == 0 then None else Some(dc[0])
    }

    /** The qualifier the constructor stores: "none" unless a second dc
        argument is given. */
    function DcQualifier(): (r: string)
      ensures |DcArgs()| == 2 ==> r == DcArgs()[1]
      ensures |DcArgs()| != 2 ==> r == "none"
    {
      var dc := DcArgs();
      if |dc| == 2 then dc[1] else "none"
    }

    function ShortLabel(): string {
      ShortLabelOf(Label())
    }

    function LongOpt(): string {
      "match-" + ShortLabel()
    }
  }

  /** Field.values(): the constants in declaration order. */
  const Values: seq<Field> := [Author, BaseDir, Contributor, CopyrightStatus, ETextNo, Format,
    Language, LocClass, Note, Path, ReleaseDate, Subject, Title, Url]

  /** name.replace(".", "").replace(" ", "-").toLowerCase() */
  function ShortLabelOf(name: string): string {
    LowerStr(SwapChar(DeleteChar(name, '.'), ' ', '-'))
  }

  /** A short label has no '.', no ' ' and no upper-case letter. */
  lemma ShortLabelShape(name: string)
    ensures var r := ShortLabelOf(name); '.' !in r && ' ' !in r && IsLowerCase(r)
  {
  }

  /** The first field of fields whose label or short label equals s,
      ignoring case. */
  function FindField(s: string, fields: seq<Field>): Option<Field> {
    if fields == [] then None
    else if Names(fields[0], s) then Some(fields[0])
    else FindField(s, fields[1..])
  }

  /** The search finds a field of the list that s names, and fails only
      when s names none of them. */
  lemma {:induction false} FindFieldSpec(s: string, fields: seq<Field>)
    ensures var r := FindField(s, fields);
      && (r.Some? ==> r.value in fields && Names(r.value, s))
      && (r.None? ==> forall f :: f in fields ==> !Names(f, s))
  {
    if fields != [] && !Names(fields[0], s) {
      FindFieldSpec(s, fields[1..]);
    }
  }

  /** s is the label or the short label of f, ignoring case. */
  predicate Names(f: Field, s: string) {
    EqualsIgnoreCase(f.Label(), s) || EqualsIgnoreCase(f.ShortLabel(), s)
  }

  /** Field.forString: resolves a label or short label, ignoring case, or
      fails with "Unrecognized field: ..." as the IllegalArgumentException does. */
  function ForString(s: string): (r: Result<Field, string>)
    ensures r.Ok? ==> Names(r.value, s)
    ensures r.Err? ==> r.error == "Unrecognized field: " + s
  {
    FindFieldSpec(s, Values);
    match FindField(s, Values)
    case Some(f) => Ok(f)
    case None => Err("Unrecognized field: " + s)
  }

  /** forString fails exactly when no field has s as its label or short
      label, ignoring case. */
  lemma ForStringFails(s: string)
    ensures ForString(s).Err? <==> forall f: Field :: !Names(f, s)
  {
    AllValues();
    FindFieldSpec(s, Values);
  }

  /** Values lists every constant exactly once. */
  lemma AllValues()
    ensures forall f: Field :: f in Values
    ensures |Values| == 14
    ensures forall i, j :: 0 <= i < j < |Values| ==> Values[i] != Values[j]
  {
    forall f: Field ensures f in Values {
      match f
      case Author => assert Values[0] == f;
      case BaseDir => assert Values[1] == f;
      case Contributor => assert Values[2] == f;
      case CopyrightStatus => assert Values[3] == f;
      case ETextNo => assert Values[4] == f;
      case Format => assert Values[5] == f;
      case Language => assert Values[6] == f;
      case LocClass => assert Values[7] == f;
      case Note => assert Values[8] == f;
      case Path => assert Values[9] == f;
      case ReleaseDate => assert Values[10] == f;
      case Subject => assert Values[11] == f;
      case Title => assert Values[12] == f;
      case Url => assert Values[13] == f;
    }
  }

  /** The short label of EText-No. drops the dot and folds the case. */
  lemma ETextNoShortLabel()
    ensures ETextNo.ShortLabel() == "etext-no"
  {
    assert ETextNo.Label() == "EText-No" + ['.'];
    DropLastChar("EText-No", '.');
    FoldCase(DeleteChar(ETextNo.Label(), '.'), "etext-no");
  }

  /** The short label of LoC Class turns the space into a dash. */
  lemma LocClassShortLabel()
    ensures LocClass.ShortLabel() == "loc-class"
  {
    DeleteAbsent(LocClass.Label(), '.');
    FoldCase(LocClass.Label(), "loc-class");
  }

  /** Deleting a character that occurs only at the end drops just it. */
  lemma DropLastChar(stem: string, c: char)
    requires c !in stem
    ensures DeleteChar(stem + [c], c) == stem
  {
    DeleteAppend(stem, [c], c);
    DeleteAbsent(stem, c);
    assert [c][1..] == [];
    assert stem + [] == stem;
  }

  lemma FoldCase(name: string, folded: string)
    requires (name == "EText-No" && folded == "etext-no") || (name == "LoC Class" && folded == "loc-class")
    ensures LowerStr(SwapChar(name, ' ', '-')) == folded
  {
    if name == "EText-No" {
      assert SwapChar(name, ' ', '-') == "EText-No";
    } else {
      assert SwapChar(name, ' ', '-') == "LoC-Class";
    }
  }

  /** The length of a name and its first character, lower-cased: enough to
      tell every label and short label apart. */
  function Key(s: string): (int, char)
    requires s != []
  {
    (|s|, Lower(s[0]))
  }

  /** The field a key belongs to, if any. */
  function KeyOwner(k: (int, char)): Option<Field> {
    match k
    case (6, 'a') => Some(Author)
    case (14, 'b') => Some(BaseDir)
    case (11, 'c') => Some(Contributor)
    case (16, 'c') => Some(CopyrightStatus)
    case (9, 'e') => Some(ETextNo)
    case (8, 'e') => Some(ETextNo)
    case (6, 'f') => Some(Format)
    case (8, 'l') => Some(Language)
    case (9, 'l') => Some(LocClass)
    case (4, 'n') => Some(Note)
    case (4, 'p') => Some(Path)
    case (12, 'r') => Some(ReleaseDate)
    case (7, 's') => Some(Subject)
    case (5, 't') => Some(Title)
    case (3, 'u') => Some(Url)
    case _ => None
  }

  /** Without a '.', the short label keeps the length and the first
      character of the name. */
  lemma ShortLabelKey(name: string)
    requires '.' !in name && name != [] && name[0] != ' '
    ensures ShortLabelOf(name) != [] && Key(ShortLabelOf(name)) == Key(name)
  {
    DeleteAbsent(name, '.');
  }

  lemma DotlessKey(s: string)
    requires s == "etext-no"
    ensures s != [] && Key(s) == (8, 'e')
  {
  }

  /** Each label is owned by its own key, and only EText-No. has a dot. */
  lemma LabelKeys(f: Field)
    ensures f.Label() != [] && KeyOwner(Key(f.Label())) == Some(f)
    ensures f != ETextNo ==> '.' !in f.Label() && f.Label()[0] != ' '
  {
  }

  lemma OwnKeys(f: Field)
    ensures f.Label() != [] && KeyOwner(Key(f.Label())) == Some(f)
    ensures f.ShortLabel() != [] && KeyOwner(Key(f.ShortLabel())) == Some(f)
  {
    LabelKeys(f);
    if f == ETextNo {
      ETextNoShortKey();
    } else {
      PlainShortKey(f);
    }
  }

  lemma ETextNoShortKey()
    ensures ETextNo.ShortLabel() != [] && KeyOwner(Key(ETextNo.ShortLabel())) == Some(ETextNo)
  {
    ETextNoShortLabelKey();
  }

  lemma ETextNoShortLabelKey()
    ensures ETextNo.ShortLabel() != [] && Key(ETextNo.ShortLabel()) == (8, 'e')
  {
    ETextNoShortLabel();
    DotlessKey("etext-no");
  }

  lemma PlainShortKey(f: Field)
    requires f != ETextNo
    ensures f.ShortLabel() != [] && KeyOwner(Key(f.ShortLabel())) == Some(f)
  {
    LabelKeys(f);
    ShortLabelKey(f.Label());
  }

  /** Case-insensitive equality keeps the key. */
  lemma SameKey(a: string, b: string)
    requires a != [] && EqualsIgnoreCase(a, b)
    ensures b != [] && Key(a) == Key(b)
  {
    assert LowerStr(a)[0] == LowerStr(b)[0];
  }

  /** A name determines its field through its key. */
  lemma NameOwner(f: Field, s: string)
    requires Names(f, s)
    ensures s != [] && KeyOwner(Key(s)) == Some(f)
  {
    OwnKeys(f);
    if EqualsIgnoreCase(f.Label(), s) {
      SameKey(f.Label(), s);
    } else {
      SameKey(f.ShortLabel(), s);
    }
  }

  /** No string names two different fields: labels and short labels are
      pairwise distinct ignoring case. */
  lemma {:induction false} NamesUnique(f: Field, g: Field, s: string)
    requires Names(f, s) && Names(g, s)
    ensures f == g
  {
    NameOwner(f, s);
    NameOwner(g, s);
  }

  /** forString resolves every label and every short label to its own
      constant, whatever its case. */
  lemma ForStringRoundTrip(f: Field, s: string)
    requires EqualsIgnoreCase(f.Label(), s) || EqualsIgnoreCase(f.ShortLabel(), s)
    ensures ForString(s) == Ok(f)
  {
    assert Names(f, s);
    ForStringFails(s);
    var r := ForString(s);
    NamesUnique(r.value, f, s);
  }

  /** In particular the label as written, its lower-case form and the short
      label. */
  lemma ForStringOwnNames(f: Field)
    ensures ForString(f.Label()) == Ok(f)
    ensures ForString(LowerStr(f.Label())) == Ok(f)
    ensures ForString(f.ShortLabel()) == Ok(f)
  {
    OwnName(f, f.Label());
    ForStringRoundTrip(f, f.Label());
    OwnName(f, LowerStr(f.Label()));
    ForStringRoundTrip(f, LowerStr(f.Label()));
    OwnName(f, f.ShortLabel());
    ForStringRoundTrip(f, f.ShortLabel());
  }

  lemma OwnName(f: Field, s: string)
    requires s == f.Label() || s == f.ShortLabel() || s == LowerStr(f.Label())
    ensures Names(f, s)
  {
    if s == LowerStr(f.Label()) {
      LowerIdempotent(f.Label());
    }
  }

  /** The long option is "match-" followed by a name forString resolves
      back to the field. */
  lemma LongOptRoundTrip(f: Field)
    ensures StartsWith(f.LongOpt(), "match-")
    ensures ForString(f.LongOpt()[6..]) == Ok(f)
  {
    assert f.LongOpt()[6..] == f.ShortLabel();
    OwnName(f, f.ShortLabel());
    ForStringRoundTrip(f, f.ShortLabel());
  }

  /** Every constant passes the constructor's check of at most two dc
      arguments, and exactly BASE_DIR and PATH have a null element. */
  lemma DcAnnotations(f: Field)
    ensures |f.DcArgs()| < 3
    ensures f.DcElement().None? <==> f == BaseDir || f == Path
    ensures f.DcQualifier() != "none" <==> |f.DcArgs()| == 2
  {
  }

  /** The field an option token belongs to. */
  function OptOwner(opt: string): Option<Field> {
    if |opt| != 2 || opt[0] != 'm' then None
    else match opt[1]
      case 'a' => Some(Author)
      case 'b' => Some(BaseDir)
      case 'o' => Some(Contributor)
      case 'y' => Some(CopyrightStatus)
      case 'e' => Some(ETextNo)
      case 'f' => Some(Format)
      case 'l' => Some(Language)
      case 'c' => Some(LocClass)
      case 'n' => Some(Note)
      case 'p' => Some(Path)
      case 'r' => Some(ReleaseDate)
      case 's' => Some(Subject)
      case 't' => Some(Title)
      case 'u' => Some(Url)
      case _ => None
  }

  /** The short option tokens of the constants are pairwise distinct. */
  lemma {:induction false} OptsDistinct(f: Field, g: Field)
    requires f.Opt() == g.Opt()
    ensures f == g
  {
    assert OptOwner(f.Opt()) == Some(f);
    assert OptOwner(g.Opt()) == Some(g);
  }
}
