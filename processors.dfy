/** Processor names (Processor.java): a processor is known by its simple
    class name minus the "Processor" suffix, lower-cased, and looked up by
    that name in the list of known processors. */
module Processors {
  import opened Wrappers
  import opened Text

  /** Processor.CLASS_NAME_SUFFIX */
  const Suffix := "Processor"

  /** getName: the last |Suffix| characters are cut off, whatever they are,
      and the rest is lower-cased. A shorter class name makes substring
      throw. */
  function GetName(className: string): (r: string)
    requires |className| >= |Suffix|
    ensures |r| == |className| - |Suffix|
    ensures IsLowerCase(r)
    ensures EqualsIgnoreCase(r, className[..|className| - |Suffix|])
  {
    LowerIdempotent(className[..|className| - |Suffix|]);
    LowerStr(className[..|className| - |Suffix|])
  }

  /** The processors of the project get the names their commands use. */
  lemma KnownNames()
    ensures GetName("ListProcessor") == "list"
    ensures GetName("UniqueProcessor") == "unique"
    ensures GetName("DSpaceProcessor") == "dspace"
  {
    assert "ListProcessor"[..4] == "List";
    assert "UniqueProcessor"[..6] == "Unique";
    assert "DSpaceProcessor"[..6] == "DSpace";
  }

  /** A name ending in "Processor" loses exactly that suffix; a name with
      any other nine-character ending loses that ending all the same. */
  lemma SuffixNotChecked(stem: string, ending: string)
    requires |ending| == |Suffix|
    ensures GetName(stem + Suffix) == LowerStr(stem)
    ensures GetName(stem + ending) == LowerStr(stem)
  {
    assert (stem + Suffix)[..|stem|] == stem;
    assert (stem + ending)[..|stem|] == stem;
  }

  /** classNames[i] is the first class whose name is the lower-cased
      query. */
  predicate FirstMatch(name: string, classNames: seq<string>, i: int)
    requires forall i :: 0 <= i < |classNames| ==> |classNames[i]| >= |Suffix|
  {
    && 0 <= i < |classNames|
    && GetName(classNames[i]) == LowerStr(name)
    && forall j :: 0 <= j < i ==> GetName(classNames[j]) != LowerStr(name)
  }

  /** forName over the given class names: the first whose name equals the
      lower-cased query. */
  function ForName(name: string, classNames: seq<string>): (r: Option<string>)
    requires forall i :: 0 <= i < |classNames| ==> |classNames[i]| >= |Suffix|
    ensures r.Some? ==> exists i :: FirstMatch(name, classNames, i) && classNames[i] == r.value
    ensures r.None? <==> forall i :: 0 <= i < |classNames| ==> GetName(classNames[i]) != LowerStr(name)
  {
    if classNames == [] then None
    else if LowerStr(name) == GetName(classNames[0]) then
      assert FirstMatch(name, classNames, 0);
      Some(classNames[0])
    else
      var r := ForName(name, classNames[1..]);
      MatchShift(name, classNames);
      if r.Some? then
        var k :| FirstMatch(name, classNames[1..], k) && classNames[1..][k] == r.value;
        assert FirstMatch(name, classNames, k + 1);
        r
      else r
  }

  /** Past a first class that does not match, the matches are those of the
      rest, one place further on. */
  lemma MatchShift(name: string, classNames: seq<string>)
    requires forall i :: 0 <= i < |classNames| ==> |classNames[i]| >= |Suffix|
    requires classNames != [] && GetName(classNames[0]) != LowerStr(name)
    ensures forall k :: FirstMatch(name, classNames[1..], k) ==> FirstMatch(name, classNames, k + 1)
    ensures (forall i :: 0 <= i < |classNames[1..]| ==> GetName(classNames[1..][i]) != LowerStr(name))
      ==> forall i :: 0 <= i < |classNames| ==> GetName(classNames[i]) != LowerStr(name)
    ensures forall i :: 1 <= i < |classNames| ==> classNames[i] == classNames[1..][i - 1]
  {
    var rest := classNames[1..];
    assert forall i :: 1 <= i < |classNames| ==> classNames[i] == rest[i - 1];
  }

  /** The query's case does not matter. */
  lemma ForNameIgnoresCase(name: string, classNames: seq<string>)
    requires forall i :: 0 <= i < |classNames| ==> |classNames[i]| >= |Suffix|
    ensures ForName(name, classNames) == ForName(LowerStr(name), classNames)
  {
    LowerIdempotent(name);
    ForNameByFolded(name, LowerStr(name), classNames);
  }

  lemma {:induction false} ForNameByFolded(a: string, b: string, classNames: seq<string>)
    requires forall i :: 0 <= i < |classNames| ==> |classNames[i]| >= |Suffix|
    requires LowerStr(a) == LowerStr(b)
    ensures ForName(a, classNames) == ForName(b, classNames)
  {
    if classNames != [] {
      ForNameByFolded(a, b, classNames[1..]);
    }
  }

  /** Among the project's processors, each command name finds its class. */
  lemma KnownLookups()
    ensures ForName("DSpace", ["ListProcessor", "UniqueProcessor", "DSpaceProcessor"]) == Some("DSpaceProcessor")
    ensures ForName("print", ["ListProcessor", "UniqueProcessor", "DSpaceProcessor"]).None?
  {
    KnownNames();
    var ps := ["ListProcessor", "UniqueProcessor", "DSpaceProcessor"];
    assert LowerStr("DSpace") == "dspace";
    assert LowerStr("print") == "print";
    assert ps[1..] == ["UniqueProcessor", "DSpaceProcessor"];
    assert ps[1..][1..] == ["DSpaceProcessor"];
  }
}
