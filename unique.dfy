/** UniqueProcessor: a frequency table of metadata values per field, built
    book by book, and the listing of one table, sorted by descending count
    or by ascending value and cut off after the top entries. */
module Unique {
  import opened Wrappers
  import opened Text
  import opened Fields
  import opened Books

  /** Integer.MAX_VALUE, the number of entries shown when -t is not given. */
  const IntMax: int := 0x7fff_ffff

  /** How often each value was seen. */
  type ValueMap = map<string, nat>

  /** The value maps of the fields seen so far; a book's values gathered
      before any header sit under the null key, None. */
  type FieldMap = map<Option<Field>, ValueMap>

  /** A value's count, 0 when the value was never seen. */
  function Count(vm: ValueMap, v: string): nat {
    if v in vm then vm[v] else 0
  }

  /** The value map of a field, empty when the field was never seen. */
  function Table(fm: FieldMap, k: Option<Field>): ValueMap {
    if k in fm then fm[k] else map[]
  }

  // ---------------------------------------------------------------------
  // Counting.

  /** The inner loop of accept: valueMap.put(value, count + 1) for each
      value of the field in turn. */
  function AddValues(vm: ValueMap, values: seq<string>): (r: ValueMap)
    ensures forall v :: v in values ==> v in r
    ensures forall v :: v !in values ==> Count(r, v) == Count(vm, v)
    ensures forall v :: Count(vm, v) <= Count(r, v)
  {
    if values == [] then vm
    else
      var front := AddValues(vm, values[..|values| - 1]);
      var v := values[|values| - 1];
      front[v := Count(front, v) + 1]
  }

  /** Each value's count grows by the number of times it occurs. */
  lemma {:induction false} AddValuesCount(vm: ValueMap, values: seq<string>, v: string)
    ensures Count(AddValues(vm, values), v) == Count(vm, v) + multiset(values)[v]
  {
    if values != [] {
      var n := |values| - 1;
      AddValuesCount(vm, values[..n], v);
      assert values == values[..n] + [values[n]];
    }
  }

  /** The values counted are the values seen before and the new ones. */
  lemma {:induction false} AddValuesKeys(vm: ValueMap, values: seq<string>)
    ensures AddValues(vm, values).Keys == vm.Keys + set v | v in values
  {
    if values != [] {
      var n := |values| - 1;
      AddValuesKeys(vm, values[..n]);
      assert values == values[..n] + [values[n]];
    }
  }

  /** The sum of all counts in a value map. */
  ghost function Total(vm: ValueMap): nat
    decreases |vm|
  {
    if vm == map[] then 0
    else
      var k :| k in vm;
      assert (vm - {k}).Keys == vm.Keys - {k};
      vm[k] + Total(vm - {k})
  }

  /** The total splits off any one entry, whichever the definition picked. */
  lemma {:induction false} TotalRemove(vm: ValueMap, k: string)
    requires k in vm
    ensures Total(vm) == vm[k] + Total(vm - {k})
    decreases |vm|
  {
    var j :| j in vm && Total(vm) == vm[j] + Total(vm - {j});
    assert (vm - {j}).Keys == vm.Keys - {j};
    if j != k {
      assert (vm - {k}).Keys == vm.Keys - {k};
      TotalRemove(vm - {j}, k);
      TotalRemove(vm - {k}, j);
      assert vm - {j} - {k} == vm - {k} - {j};
    }
  }

  /** One more occurrence of v adds one to the total. */
  lemma TotalIncrement(vm: ValueMap, v: string)
    ensures Total(vm[v := Count(vm, v) + 1]) == Total(vm) + 1
  {
    var vm' := vm[v := Count(vm, v) + 1];
    TotalRemove(vm', v);
    if v in vm {
      TotalRemove(vm, v);
      assert vm' - {v} == vm - {v};
    } else {
      assert vm' - {v} == vm;
    }
  }

  /** The total grows by exactly the number of values counted. */
  lemma {:induction false} AddValuesTotal(vm: ValueMap, values: seq<string>)
    ensures Total(AddValues(vm, values)) == Total(vm) + |values|
  {
    if values != [] {
      var n := |values| - 1;
      AddValuesTotal(vm, values[..n]);
      TotalIncrement(AddValues(vm, values[..n]), values[n]);
    }
  }

  /** The inner loop of accept over one field's values. */
  method CountValues(vm: ValueMap, values: seq<string>) returns (valueMap: ValueMap)
    ensures valueMap == AddValues(vm, values)
  {
    valueMap := vm;
    for j := 0 to |values|
      invariant valueMap == AddValues(vm, values[..j])
    {
      var count := if values[j] in valueMap then valueMap[values[j]] else 0;
      valueMap := valueMap[values[j] := count + 1];
      assert values[..j + 1][..j] == values[..j];
    }
    assert values[..|values|] == values;
  }

  /** accept over the book's fields in the order the record yields them. */
  function AcceptAll(fm: FieldMap, md: Record, keys: seq<Option<Field>>): (r: FieldMap)
    requires forall i :: 0 <= i < |keys| ==> keys[i] in md
    ensures forall k :: k in keys ==> k in r
    ensures forall k :: k !in keys ==> (k in r <==> k in fm) && (k in fm ==> r[k] == fm[k])
  {
    if keys == [] then fm
    else
      var front := AcceptAll(fm, md, keys[..|keys| - 1]);
      var k := keys[|keys| - 1];
      front[k := AddValues(Table(front, k), md[k])]
  }

  /** accept one field further on. */
  lemma AcceptStep(fm: FieldMap, md: Record, keys: seq<Option<Field>>, i: nat)
    requires forall i :: 0 <= i < |keys| ==> keys[i] in md
    requires i < |keys|
    ensures var front := AcceptAll(fm, md, keys[..i]);
      AcceptAll(fm, md, keys[..i + 1]) == front[keys[i] := AddValues(Table(front, keys[i]), md[keys[i]])]
  {
    assert keys[..i + 1][..i] == keys[..i];
  }

  /** Each field of the book has its values added to its table once; every
      other table is left as it was. A table exists afterwards exactly for
      the fields it existed for and the fields of the book. */
  lemma {:induction false} AcceptTables(fm: FieldMap, md: Record, keys: seq<Option<Field>>, k: Option<Field>)
    requires forall i :: 0 <= i < |keys| ==> keys[i] in md
    requires forall i, j :: 0 <= i < j < |keys| ==> keys[i] != keys[j]
    ensures Table(AcceptAll(fm, md, keys), k) == if k in keys then AddValues(Table(fm, k), md[k]) else Table(fm, k)
    ensures k in AcceptAll(fm, md, keys) <==> k in fm || k in keys
  {
    if keys != [] {
      var n := |keys| - 1;
      AcceptTables(fm, md, keys[..n], k);
      InSnoc(keys, k);
      if k == keys[n] {
        DistinctLast(keys);
      }
    }
  }

  /** After accept, the count of every value of every field of the book
      has grown by its number of occurrences in that field; fields and
      values the book lacks keep their counts, and no count decreases. */
  lemma AcceptCounts(fm: FieldMap, md: Record, keys: seq<Option<Field>>, k: Option<Field>, v: string)
    requires forall key :: key in md <==> key in keys
    requires forall i, j :: 0 <= i < j < |keys| ==> keys[i] != keys[j]
    ensures Count(Table(AcceptAll(fm, md, keys), k), v)
      == Count(Table(fm, k), v) + (if k in md then multiset(md[k])[v] else 0)
    ensures Count(Table(fm, k), v) <= Count(Table(AcceptAll(fm, md, keys), k), v)
  {
    AcceptTables(fm, md, keys, k);
    if k in md {
      AddValuesCount(Table(fm, k), md[k], v);
    }
  }

  /** The sum of a field's counts grows by the number of values the book
      has for it. */
  lemma AcceptTotal(fm: FieldMap, md: Record, keys: seq<Option<Field>>, k: Option<Field>)
    requires forall key :: key in md <==> key in keys
    requires forall i, j :: 0 <= i < j < |keys| ==> keys[i] != keys[j]
    ensures Total(Table(AcceptAll(fm, md, keys), k)) == Total(Table(fm, k)) + (if k in md then |md[k]| else 0)
  {
    AcceptTables(fm, md, keys, k);
    if k in md {
      AddValuesTotal(Table(fm, k), md[k]);
    }
  }

  // ---------------------------------------------------------------------
  // Sorting.

  datatype Entry = Entry(key: string, count: nat)

  /** String.compareTo(a, b) < 0: lexicographic by character code, a proper
      prefix first. */
  predicate StrLess(a: string, b: string) {
    if b == [] then false
    else if a == [] then true
    else if a[0] != b[0] then a[0] < b[0]
    else StrLess(a[1..], b[1..])
  }

  lemma {:induction false} StrLessIrreflexive(a: string)
    ensures !StrLess(a, a)
  {
    if a != [] {
      StrLessIrreflexive(a[1..]);
    }
  }

  lemma {:induction false} StrLessTransitive(a: string, b: string, c: string)
    requires StrLess(a, b) && StrLess(b, c)
    ensures StrLess(a, c)
  {
    if a != [] && a[0] == b[0] && b[0] == c[0] {
      StrLessTransitive(a[1..], b[1..], c[1..]);
    }
  }

  lemma {:induction false} StrLessTotal(a: string, b: string)
    requires a != b
    ensures StrLess(a, b) || StrLess(b, a)
  {
    if a != [] && b != [] && a[0] == b[0] {
      assert a == [a[0]] + a[1..] && b == [b[0]] + b[1..];
      StrLessTotal(a[1..], b[1..]);
    }
  }

  /** The comparator of sortedEntryList: a strictly before b. */
  predicate Precedes(showCounts: bool, a: Entry, b: Entry) {
    if showCounts then a.count > b.count else StrLess(a.key, b.key)
  }

  lemma PrecedesTransitive(showCounts: bool, a: Entry, b: Entry, c: Entry)
    requires Precedes(showCounts, a, b) && Precedes(showCounts, b, c)
    ensures Precedes(showCounts, a, c)
  {
    if !showCounts {
      StrLessTransitive(a.key, b.key, c.key);
    }
  }

  /** No entry is strictly before one listed earlier. */
  predicate Sorted(showCounts: bool, s: seq<Entry>) {
    forall i, j :: 0 <= i < j < |s| ==> !Precedes(showCounts, s[j], s[i])
  }

  /** x placed after every entry it is not strictly before, which keeps
      entries that compare equal in the order they came (the sort is
      stable). */
  function Insert(showCounts: bool, x: Entry, s: seq<Entry>): (r: seq<Entry>)
    ensures multiset(r) == multiset(s) + multiset{x}
  {
    if s == [] then [x]
    else if Precedes(showCounts, x, s[0]) then [x] + s
    else
      assert s == [s[0]] + s[1..];
      [s[0]] + Insert(showCounts, x, s[1..])
  }

  lemma {:induction false} InsertSorted(showCounts: bool, x: Entry, s: seq<Entry>)
    requires Sorted(showCounts, s)
    ensures Sorted(showCounts, Insert(showCounts, x, s))
  {
    if s != [] {
      if Precedes(showCounts, x, s[0]) {
        InsertFirst(showCounts, x, s);
      } else {
        assert Sorted(showCounts, s[1..]) by {
          assert forall i :: 0 <= i < |s| - 1 ==> s[1..][i] == s[i + 1];
        }
        InsertSorted(showCounts, x, s[1..]);
        InsertLater(showCounts, x, s, Insert(showCounts, x, s[1..]));
      }
    }
  }

  lemma PrecedesIrreflexive(showCounts: bool, a: Entry)
    ensures !Precedes(showCounts, a, a)
  {
    StrLessIrreflexive(a.key);
  }

  /** An entry strictly before the head of a sorted list goes first. */
  lemma InsertFirst(showCounts: bool, x: Entry, s: seq<Entry>)
    requires s != [] && Sorted(showCounts, s) && Precedes(showCounts, x, s[0])
    ensures Sorted(showCounts, [x] + s)
  {
    var r := [x] + s;
    forall j | 0 < j < |r|
      ensures !Precedes(showCounts, r[j], x)
    {
      assert r[j] == s[j - 1];
      PrecedesIrreflexive(showCounts, s[0]);
      if Precedes(showCounts, r[j], x) {
        PrecedesTransitive(showCounts, r[j], x, s[0]);
      }
    }
    forall i, j | 0 < i < j < |r|
      ensures !Precedes(showCounts, r[j], r[i])
    {
      assert r[i] == s[i - 1] && r[j] == s[j - 1];
    }
  }

  /** Otherwise the head stays first, and the entry goes into the rest. */
  lemma InsertLater(showCounts: bool, x: Entry, s: seq<Entry>, t: seq<Entry>)
    requires s != [] && Sorted(showCounts, s) && !Precedes(showCounts, x, s[0])
    requires t == Insert(showCounts, x, s[1..]) && Sorted(showCounts, t)
    ensures Insert(showCounts, x, s) == [s[0]] + t
    ensures Sorted(showCounts, [s[0]] + t)
  {
    HeadStaysFirst(showCounts, x, s, t);
    SortedCons(showCounts, s[0], t);
  }

  lemma HeadStaysFirst(showCounts: bool, x: Entry, s: seq<Entry>, t: seq<Entry>)
    requires s != [] && Sorted(showCounts, s) && !Precedes(showCounts, x, s[0])
    requires t == Insert(showCounts, x, s[1..])
    ensures forall k :: 0 <= k < |t| ==> !Precedes(showCounts, t[k], s[0])
  {
    forall k | 0 <= k < |t|
      ensures !Precedes(showCounts, t[k], s[0])
    {
      assert t[k] in multiset(t);
      if t[k] != x {
        assert t[k] in s[1..];
      }
    }
  }

  /** A head that nothing in a sorted tail is strictly before keeps the
      list sorted. */
  lemma SortedCons(showCounts: bool, h: Entry, t: seq<Entry>)
    requires Sorted(showCounts, t)
    requires forall k :: 0 <= k < |t| ==> !Precedes(showCounts, t[k], h)
    ensures Sorted(showCounts, [h] + t)
  {
    var r := [h] + t;
    assert forall k :: 1 <= k < |r| ==> r[k] == t[k - 1];
  }

  /** Collections.sort with the comparator, as insertion of each entry in
      list order. */
  function Sort(showCounts: bool, s: seq<Entry>): (r: seq<Entry>)
    ensures multiset(r) == multiset(s)
  {
    if s == [] then []
    else
      assert s == s[..|s| - 1] + [s[|s| - 1]];
      Insert(showCounts, s[|s| - 1], Sort(showCounts, s[..|s| - 1]))
  }

  lemma SortStep(showCounts: bool, s: seq<Entry>, i: nat)
    requires i < |s|
    ensures Sort(showCounts, s[..i + 1]) == Insert(showCounts, s[i], Sort(showCounts, s[..i]))
  {
    assert s[..i + 1][..i] == s[..i];
  }

  lemma {:induction false} SortSorted(showCounts: bool, s: seq<Entry>)
    ensures Sorted(showCounts, Sort(showCounts, s))
  {
    if s != [] {
      SortSorted(showCounts, s[..|s| - 1]);
      InsertSorted(showCounts, s[|s| - 1], Sort(showCounts, s[..|s| - 1]));
    }
  }

  /** Sorted by the count comparator: counts never increase. */
  lemma SortedByCount(s: seq<Entry>)
    requires Sorted(true, s)
    ensures forall i, j :: 0 <= i < j < |s| ==> s[i].count >= s[j].count
  {
  }

  /** Sorted by the key comparator with distinct keys: keys strictly
      ascend. */
  lemma SortedByKey(s: seq<Entry>)
    requires Sorted(false, s)
    requires forall i, j :: 0 <= i < j < |s| ==> s[i].key != s[j].key
    ensures forall i, j :: 0 <= i < j < |s| ==> StrLess(s[i].key, s[j].key)
  {
    forall i, j | 0 <= i < j < |s|
      ensures StrLess(s[i].key, s[j].key)
    {
      StrLessTotal(s[i].key, s[j].key);
    }
  }

  /** The map's entries in its iteration order. */
  function EntriesOf(vm: ValueMap, order: seq<string>): (r: seq<Entry>)
    requires forall i :: 0 <= i < |order| ==> order[i] in vm
    ensures |r| == |order|
    ensures forall i :: 0 <= i < |order| ==> r[i] == Entry(order[i], vm[order[i]])
  {
    seq(|order|, i requires 0 <= i < |order| => Entry(order[i], vm[order[i]]))
  }

  /** A list with no repeats has as many elements as it has members. */
  lemma {:induction false} DistinctCard(order: seq<string>)
    requires forall i, j :: 0 <= i < j < |order| ==> order[i] != order[j]
    ensures |set v | v in order| == |order|
  {
    if order != [] {
      var n := |order| - 1;
      DistinctCard(order[..n]);
      assert (set v | v in order) == (set v | v in order[..n]) + {order[n]};
      assert order[n] !in order[..n];
    }
  }

  /** A sorted listing holds every entry of the map exactly once. */
  lemma SortedListing(showCounts: bool, vm: ValueMap, order: seq<string>)
    requires forall v :: v in vm <==> v in order
    requires forall i, j :: 0 <= i < j < |order| ==> order[i] != order[j]
    ensures var list := Sort(showCounts, EntriesOf(vm, order));
      && |list| == |vm|
      && (forall e :: e in list <==> e.key in vm && vm[e.key] == e.count)
      && Sorted(showCounts, list)
  {
    var entries := EntriesOf(vm, order);
    var list := Sort(showCounts, entries);
    SortSorted(showCounts, entries);
    DistinctCard(order);
    assert vm.Keys == set v | v in order;
    assert |list| == |multiset(list)| == |multiset(entries)| == |entries|;
    forall e
      ensures e in list <==> e.key in vm && vm[e.key] == e.count
    {
      assert e in list <==> e in multiset(entries);
      if e.key in vm && vm[e.key] == e.count {
        var i :| 0 <= i < |order| && order[i] == e.key;
        assert entries[i] == e;
      }
    }
  }

  // ---------------------------------------------------------------------
  // How many entries printValues shows.

  /** printValues as written: it counts an entry after printing it and stops
      once the count exceeds showTop, so one entry more than showTop is
      shown (and at least one). */
  function ShownAsWritten(n: nat, showTop: int): (k: nat)
    ensures k <= n
  {
    if n == 0 then 0 else if showTop < 0 then 1 else if n < showTop + 1 then n else showTop + 1
  }

  /** The evidently intended count: the top showTop entries. */
  function TopCount(n: nat, showTop: int): (k: nat)
    ensures k <= n
    ensures 0 <= showTop ==> k == if n < showTop then n else showTop
    ensures showTop <= 0 ==> k == 0
  {
    if showTop <= 0 then 0 else if n < showTop then n else showTop
  }

  /** As written, a table with more entries than showTop shows showTop + 1
      of them: -t 1 lists two values. */
  lemma ShowTopOffByOne(n: nat, showTop: int)
    requires 0 <= showTop < n
    ensures ShownAsWritten(n, showTop) == showTop + 1
    ensures ShownAsWritten(n, showTop) == TopCount(n, showTop) + 1
  {
  }

  /** The line printValues prints for an entry. */
  function EntryLine(showCounts: bool, e: Entry): string {
    (if showCounts then IntToString(e.count) + ": " else "") + e.key
  }

  function EntryLines(showCounts: bool, s: seq<Entry>): (r: seq<string>)
    ensures |r| == |s|
    ensures forall i :: 0 <= i < |s| ==> r[i] == EntryLine(showCounts, s[i])
    ensures !showCounts ==> forall i :: 0 <= i < |s| ==> r[i] == s[i].key
    ensures showCounts ==> forall i :: 0 <= i < |s| ==>
      var prefix := IntToString(s[i].count) + ": ";
      |r[i]| == |prefix| + |s[i].key| && StartsWith(r[i], prefix) && r[i][|prefix|..] == s[i].key
  {
    seq(|s|, i requires 0 <= i < |s| => EntryLine(showCounts, s[i]))
  }

  lemma EntryLinesStep(showCounts: bool, s: seq<Entry>, i: nat)
    requires i < |s|
    ensures EntryLines(showCounts, s[..i + 1]) == EntryLines(showCounts, s[..i]) + [EntryLine(showCounts, s[i])]
  {
  }

  // ---------------------------------------------------------------------
  // The processor.

  /** The -f names resolved in order with the given lookup (Field.forString
      in begin); the first name that does not resolve aborts. */
  function Resolve(lookup: string -> Result<Field, string>, names: seq<string>): (r: Result<seq<Field>, string>)
    ensures r.Ok? ==> |r.value| == |names|
  {
    if names == [] then Ok([])
    else
      var n := |names| - 1;
      var front :- Resolve(lookup, names[..n]);
      var f :- lookup(names[n]);
      Ok(front + [f])
  }

  /** Every name resolves to the field the lookup gives it, or the error is
      that of the first name that does not resolve. */
  lemma {:induction false} ResolveFields(lookup: string -> Result<Field, string>, names: seq<string>)
    ensures Resolve(lookup, names).Ok? ==>
      forall i :: 0 <= i < |names| ==> lookup(names[i]) == Ok(Resolve(lookup, names).value[i])
    ensures Resolve(lookup, names).Err? ==>
      exists i :: 0 <= i < |names| && lookup(names[i]) == Err(Resolve(lookup, names).error)
        && (forall j :: 0 <= j < i ==> lookup(names[j]).Ok?)
  {
    if names != [] {
      var n := |names| - 1;
      var front := names[..n];
      ResolveFields(lookup, front);
      if Resolve(lookup, front).Err? {
        var i :| 0 <= i < n && lookup(front[i]) == Err(Resolve(lookup, front).error)
          && (forall j :: 0 <= j < i ==> lookup(front[j]).Ok?);
        assert forall j :: 0 <= j <= i ==> front[j] == names[j];
      } else {
        assert forall j :: 0 <= j < n ==> front[j] == names[j];
      }
    }
  }

  lemma ResolveStep(lookup: string -> Result<Field, string>, names: seq<string>, i: nat)
    requires i < |names|
    ensures Resolve(lookup, names[..i + 1]) ==
      match Resolve(lookup, names[..i])
      case Err(e) => Err(e)
      case Ok(front) => (match lookup(names[i]) case Err(e) => Err(e) case Ok(f) => Ok(front + [f]))
  {
    assert names[..i + 1][..i] == names[..i];
  }

  /** A name that fails to resolve fails the whole list with its error. */
  lemma {:induction false} ResolvePrefixErr(lookup: string -> Result<Field, string>, names: seq<string>, k: nat)
    requires k <= |names| && Resolve(lookup, names[..k]).Err?
    ensures Resolve(lookup, names) == Resolve(lookup, names[..k])
    decreases |names| - k
  {
    if k < |names| {
      ResolveStep(lookup, names, k);
      ResolvePrefixErr(lookup, names, k + 1);
    } else {
      assert names[..k] == names;
    }
  }

  /** The -f names resolved one after another; the first unknown name
      throws. */
  method ReadFieldNames(names: seq<string>) returns (r: Result<seq<Field>, string>)
    ensures r == Resolve(ForString, names)
  {
    var fields: seq<Field> := [];
    for i := 0 to |names|
      invariant Resolve(ForString, names[..i]) == Ok(fields)
    {
      var f := ForString(names[i]);
      ResolveStep(ForString, names, i);
      if f.Err? {
        ResolvePrefixErr(ForString, names, i + 1);
        return Err(f.error);
      }
      fields := fields + [f.value];
    }
    assert names[..|names|] == names;
    return Ok(fields);
  }

  class UniqueProcessor {
    var fieldMap: FieldMap
    var fields: seq<Field>
    var showCounts: bool
    var showTop: int

    constructor()
      ensures fieldMap == map[] && fields == [] && !showCounts && showTop == IntMax
    {
      fieldMap := map[];
      fields := [];
      showCounts := false;
      showTop := IntMax;
    }

    /** begin, after the shared part: the -f fields in order, -c and -t. */
    method Begin(names: seq<string>, counts: bool, top: Option<int>) returns (r: Result<(), string>)
      modifies this`fields, this`showCounts, this`showTop
      ensures r.Err? <==> Resolve(ForString, names).Err?
      ensures r.Err? ==> r.error == Resolve(ForString, names).error
      ensures r.Ok? ==> fields == old(fields) + Resolve(ForString, names).value
      ensures r.Ok? ==> showCounts == (old(showCounts) || counts)
      ensures r.Ok? ==> showTop == if top.Some? then top.value else old(showTop)
    {
      var resolved := ReadFieldNames(names);
      if resolved.Err? {
        return Err(resolved.error);
      }
      fields := fields + resolved.value;
      if counts {
        showCounts := true;
      }
      if top.Some? {
        showTop := top.value;
      }
      return Ok(());
    }

    /** accept: every value of every field of the book counted once, the
        fields visited in the given order (the record's iteration order). */
    method Accept(book: Book, keys: seq<Option<Field>>)
      requires forall key :: key in book.metadata <==> key in keys
      requires forall i, j :: 0 <= i < j < |keys| ==> keys[i] != keys[j]
      modifies this`fieldMap
      ensures fieldMap == AcceptAll(old(fieldMap), book.metadata, keys)
    {
      for i := 0 to |keys|
        invariant fieldMap == AcceptAll(old(fieldMap), book.metadata, keys[..i])
      {
        var field := keys[i];
        var valueMap := CountValues(Table(fieldMap, field), book.metadata[field]);
        fieldMap := fieldMap[field := valueMap];
        AcceptStep(old(fieldMap), book.metadata, keys, i);
      }
      assert keys[..|keys|] == keys;
    }

    /** sortedEntryList: the entries, listed in the map's iteration order,
        sorted with the comparator showCounts selects. */
    function SortedEntryList(vm: ValueMap, order: seq<string>): (list: seq<Entry>)
      reads this
      requires forall v :: v in vm <==> v in order
      requires forall i, j :: 0 <= i < j < |order| ==> order[i] != order[j]
      ensures multiset(list) == multiset(EntriesOf(vm, order))
      ensures Sorted(showCounts, list)
      ensures |list| == |vm|
      ensures forall e :: e in list <==> e.key in vm && vm[e.key] == e.count
    {
      SortedListing(showCounts, vm, order);
      Sort(showCounts, EntriesOf(vm, order))
    }

    /** printValues as written, returning the lines it prints; a field
        never seen (a null map) prints nothing. */
    method PrintValues(valueMap: Option<ValueMap>, order: seq<string>) returns (lines: seq<string>)
      requires valueMap.Some? ==> forall v :: v in valueMap.value <==> v in order
      requires valueMap.Some? ==> forall i, j :: 0 <= i < j < |order| ==> order[i] != order[j]
      ensures valueMap.None? ==> lines == []
      ensures valueMap.Some? ==>
        var list := SortedEntryList(valueMap.value, order);
        lines == EntryLines(showCounts, list[..ShownAsWritten(|list|, showTop)])
    {
      lines := [];
      if valueMap.None? {
        return;
      }
      var list := SortedEntryList(valueMap.value, order);
      var i := 0;
      while i < |list|
        invariant 0 <= i <= |list|
        invariant i <= ShownAsWritten(|list|, showTop)
        invariant 0 < i ==> i <= showTop
        invariant lines == EntryLines(showCounts, list[..i])
      {
        EntryLinesStep(showCounts, list, i);
        lines := lines + [EntryLine(showCounts, list[i])];
        i := i + 1;
        if i > showTop {
          break;
        }
      }
      assert i == ShownAsWritten(|list|, showTop);
    }

    /** printValues as evidently intended: the top showTop entries. */
    method PrintTopValues(valueMap: Option<ValueMap>, order: seq<string>) returns (lines: seq<string>)
      requires valueMap.Some? ==> forall v :: v in valueMap.value <==> v in order
      requires valueMap.Some? ==> forall i, j :: 0 <= i < j < |order| ==> order[i] != order[j]
      ensures valueMap.None? ==> lines == []
      ensures valueMap.Some? ==>
        var list := SortedEntryList(valueMap.value, order);
        lines == EntryLines(showCounts, list[..TopCount(|list|, showTop)])
    {
      lines := [];
      if valueMap.None? {
        return;
      }
      var list := SortedEntryList(valueMap.value, order);
      var i := 0;
      while i < |list| && i < showTop
        invariant 0 <= i <= |list|
        invariant i <= TopCount(|list|, showTop)
        invariant lines == EntryLines(showCounts, list[..i])
      {
        EntryLinesStep(showCounts, list, i);
        lines := lines + [EntryLine(showCounts, list[i])];
        i := i + 1;
      }
    }
  }
}
