/**
 How the mock server journals request headers. Go ranges over maps in an arbitrary order, so the loops pick keys
 arbitrarily; the result is proved to be the same for every order. The values of a name are a slice on the heap: merging
 allocates new ones, and sorting works in place.
 */
module JournalHeaders {
  import opened Ordering

  type Headers = map<string, seq<string>>

  function LowerChar(c: char): char {
    if 'A' <= c <= 'Z' then ((c as int - 'A' as int) + 'a' as int) as char else c
  }

  /** Header names are ASCII tokens, so lowering them is ASCII lowering. */
  function Lower(s: string): string {
    if s == "" then "" else [LowerChar(s[0])] + Lower(s[1..])
  }

  predicate NoCapitals(s: string) {
    forall i :: 0 <= i < |s| ==> !('A' <= s[i] <= 'Z')
  }

  /** The same name but for capitals, which became the letters 32 places on. */
  predicate LowersTo(name: string, key: string) {
    && |key| == |name|
    && forall i :: 0 <= i < |name| ==>
         if 'A' <= name[i] <= 'Z' then key[i] as int == name[i] as int + 32 else key[i] == name[i]
  }

  lemma {:induction false} LowerIff(name: string, key: string)
    ensures Lower(name) == key <==> LowersTo(name, key)
    ensures NoCapitals(Lower(name))
  {
    if name != "" {
      LowerIff(name[1..], Lower(name[1..]));
      if key != "" {
        LowerIff(name[1..], key[1..]);
        assert key == [key[0]] + key[1..];
        FirstLowersTo(name, key);
      }
    }
  }

  lemma FirstLowersTo(name: string, key: string)
    requires name != "" && key != ""
    ensures LowersTo(name, key) <==> LowersTo(name[..1], key[..1]) && LowersTo(name[1..], key[1..])
  {
    assert forall i :: 1 <= i < |name| ==> name[i] == name[1..][i - 1];
    assert forall i :: 1 <= i < |key| ==> key[i] == key[1..][i - 1];
  }

  predicate IsLower(s: string) {
    Lower(s) == s
  }

  function LowerNames(names: set<string>): set<string> {
    set name | name in names :: Lower(name)
  }

  ghost function Pick(names: set<string>): (name: string)
    requires names != {}
    ensures name in names
  {
    var name :| name in names;
    name
  }

  /** The values a name adds to a key. */
  function Contribution(h: Headers, name: string, key: string): multiset<string>
    requires name in h
  {
    if Lower(name) == key then multiset(h[name]) else multiset{}
  }

  /** All values of the names that lower to a key, with multiplicity. */
  ghost function Merged(h: Headers, names: set<string>, key: string): multiset<string>
    requires names <= h.Keys
    decreases names
  {
    if names == {} then multiset{}
    else
      var name := Pick(names);
      Contribution(h, name, key) + Merged(h, names - {name}, key)
  }

  /** The values can be merged in any order. */
  lemma {:induction false} MergeAny(h: Headers, names: set<string>, name: string, key: string)
    requires names <= h.Keys && name in names
    ensures Merged(h, names, key) == Contribution(h, name, key) + Merged(h, names - {name}, key)
    decreases names
  {
    var first := Pick(names);
    if first != name {
      MergeAny(h, names - {first}, name, key);
      MergeAny(h, names - {name}, first, key);
      assert names - {first} - {name} == names - {name} - {first};
    }
  }

  lemma {:induction false} NothingMerged(h: Headers, names: set<string>, key: string)
    requires names <= h.Keys && forall name :: name in names ==> Lower(name) != key
    ensures Merged(h, names, key) == multiset{}
    decreases names
  {
    if names != {} {
      NothingMerged(h, names - {Pick(names)}, key);
    }
  }

  /** r holds, under each lowered name, the merged values of the given names in some order. */
  ghost predicate IsMerge(h: Headers, names: set<string>, r: Headers)
    requires names <= h.Keys
  {
    && r.Keys == LowerNames(names)
    && forall key :: key in r ==> multiset(r[key]) == Merged(h, names, key)
  }

  /** Keys lowered, values merged and sorted, none lost or added. */
  ghost predicate IsJournalForm(h: Headers, r: Headers) {
    IsMerge(h, h.Keys, r) && forall key :: key in r ==> Sorted(r[key])
  }

  /** The journal form of a header map is unique, whatever order its names were visited in. */
  lemma JournalFormIsUnique(h: Headers, a: Headers, b: Headers)
    requires IsJournalForm(h, a) && IsJournalForm(h, b)
    ensures a == b
  {
    forall key | key in a
      ensures key in b && a[key] == b[key]
    {
      SortedIsUnique(a[key], b[key]);
    }
  }

  function ValuesOf(r: Headers, key: string): seq<string> {
    if key in r then r[key] else []
  }

  lemma MergedWith(h: Headers, names: set<string>, name: string, key: string)
    requires names <= h.Keys && name in h && name !in names
    ensures Merged(h, names + {name}, key) == Contribution(h, name, key) + Merged(h, names, key)
  {
    assert names + {name} - {name} == names;
    MergeAny(h, names + {name}, name, key);
  }

  lemma MergeKey(h: Headers, names: set<string>, name: string, r: Headers, k: string)
    requires names <= h.Keys && name in h && name !in names && IsMerge(h, names, r) && (k in r || k == Lower(name))
    ensures multiset(if k == Lower(name) then ValuesOf(r, k) + h[name] else r[k]) == Merged(h, names + {name}, k)
  {
    MergedWith(h, names, name, k);
    MergedValues(h, names, r, k);
  }

  /** What a key holds so far, if only nothing. */
  lemma MergedValues(h: Headers, names: set<string>, r: Headers, k: string)
    requires names <= h.Keys && IsMerge(h, names, r)
    ensures multiset(ValuesOf(r, k)) == Merged(h, names, k)
  {
    if k !in r {
      NothingMerged(h, names, k);
    }
  }

  lemma MergeStep(h: Headers, names: set<string>, name: string, r: Headers)
    requires names <= h.Keys && name in h && name !in names && IsMerge(h, names, r)
    ensures IsMerge(h, names + {name}, r[Lower(name) := ValuesOf(r, Lower(name)) + h[name]])
  {
    var r' := r[Lower(name) := ValuesOf(r, Lower(name)) + h[name]];
    forall k | k in r'
      ensures multiset(r'[k]) == Merged(h, names + {name}, k)
    {
      MergeKey(h, names, name, r, k);
    }
    assert LowerNames(names + {name}) == LowerNames(names) + {Lower(name)};
  }

  predicate AllLower(h: Headers) {
    forall name :: name in h ==> IsLower(name)
  }

  /** If every name is lower already, the values are those of h in their own order. */
  predicate KeepsLowerNames(h: Headers, r: Headers) {
    AllLower(h) ==> forall key :: key in r ==> key in h && r[key] == h[key]
  }

  lemma KeepStep(h: Headers, names: set<string>, name: string, r: Headers)
    requires names <= h.Keys && name in h && name !in names && r.Keys == LowerNames(names) && KeepsLowerNames(h, r)
    ensures KeepsLowerNames(h, r[Lower(name) := ValuesOf(r, Lower(name)) + h[name]])
  {
  }

  lemma MergeOfAll(h: Headers, r: Headers)
    requires r.Keys == LowerNames(h.Keys) && KeepsLowerNames(h, r)
    ensures AllLower(h) ==> r == h
  {
  }

  // --- Slices on the heap --------------------------------------------------------------------------------------

  /** What a map[string][]string holds: for each name the array its slice is over. */
  type Slices = map<string, array<string>>

  /** A map[string][]string. */
  class HeaderMap {
    var entries: Slices

    constructor (entries: Slices)
      ensures this.entries == entries
    {
      this.entries := entries;
    }
  }

  function Arrays(m: Slices): set<object> {
    set key | key in m :: m[key]
  }

  /** The headers by value. */
  ghost function Values(m: Slices): Headers
    reads Arrays(m)
  {
    map key | key in m :: m[key][..]
  }

  /** No two names share an array. */
  predicate Separate(m: Slices) {
    forall a, b :: a in m && b in m && a != b ==> m[a] != m[b]
  }

  function Old(m: Slices, key: string): seq<string>
    reads Arrays(m)
  {
    if key in m then m[key][..] else []
  }

  /** m[key] = append(m[key], values...), into an array of its own. */
  method AppendValues(m: Slices, key: string, values: array<string>, ghost held: Headers) returns (r: Slices)
    requires Separate(m) && held == Values(m)
    ensures Separate(r) && fresh(Arrays(r) - Arrays(m))
    ensures Values(r) == held[key := ValuesOf(held, key) + values[..]]
  {
    var all := Old(m, key) + values[..];
    var joined := new string[|all|](i requires 0 <= i < |all| => all[i]);
    assert joined[..] == all;
    r := m[key := joined];
    assert key in m ==> m[key] in Arrays(m);
  }

  /** The names visited so far are merged. */
  ghost predicate Merging(h: Headers, names: set<string>, r: Headers) {
    names <= h.Keys && IsMerge(h, names, r) && KeepsLowerNames(h, r)
  }

  lemma MergingStep(h: Headers, names: set<string>, name: string, r: Headers)
    requires Merging(h, names, r) && name in h && name !in names
    ensures Merging(h, names + {name}, r[Lower(name) := ValuesOf(r, Lower(name)) + h[name]])
  {
    MergeStep(h, names, name, r);
    KeepStep(h, names, name, r);
  }

  lemma MergingDone(h: Headers, r: Headers)
    requires Merging(h, h.Keys, r)
    ensures IsMerge(h, h.Keys, r) && (AllLower(h) ==> r == h)
  {
    MergeOfAll(h, r);
  }

  /** One turn of the loop. */
  method MergeName(
    h: Slices, name: string, r: Slices, ghost values: Headers, ghost visited: set<string>, ghost merged: Headers)
    returns (more: Slices, ghost mergedMore: Headers)
    requires values == Values(h) && name in h && name !in visited
    requires Separate(r) && merged == Values(r) && Merging(values, visited, merged)
    ensures Separate(more) && fresh(Arrays(more) - Arrays(r))
    ensures mergedMore == Values(more) && Merging(values, visited + {name}, mergedMore)
  {
    MergingStep(values, visited, name, merged);
    mergedMore := merged[Lower(name) := ValuesOf(merged, Lower(name)) + values[name]];
    more := AppendValues(r, Lower(name), h[name], merged);
  }

  /** The loop both files share: append every name's values under the lowered name. */
  method MergeHeaders(h: Slices, ghost values: Headers) returns (r: Slices)
    requires values == Values(h)
    ensures fresh(Arrays(r)) && Separate(r)
    ensures IsMerge(values, values.Keys, Values(r))
    ensures AllLower(values) ==> Values(r) == values
  {
    r := map[];
    var names := h.Keys;
    ghost var visited: set<string>, merged: Headers := {}, map[];
    while names != {}
      invariant names <= h.Keys && visited == h.Keys - names
      invariant fresh(Arrays(r)) && Separate(r) && Values(h) == values && Values(r) == merged
      invariant Merging(values, visited, merged)
      decreases names
    {
      var name :| name in names;
      r, merged := MergeName(h, name, r, values, visited, merged);
      names, visited := names - {name}, visited + {name};
    }
    assert visited == values.Keys;
    MergingDone(values, merged);
  }

  /** Some slices are sorted, none has lost or gained a value. */
  predicate SortedExcept(merged: Headers, headers: Headers, keys: set<string>) {
    && headers.Keys == merged.Keys
    && (forall key :: key in headers ==> multiset(headers[key]) == multiset(merged[key]))
    && (forall key :: key in headers && key !in keys ==> Sorted(headers[key]))
  }

  lemma SortStep(merged: Headers, headers: Headers, keys: set<string>, key: string)
    requires SortedExcept(merged, headers, keys) && key in headers
    ensures SortedExcept(merged, headers[key := SortStrings(headers[key])], keys - {key})
  {
    SortIsSorted(headers[key]);
  }

  lemma SameLength(a: seq<string>, b: seq<string>)
    requires multiset(a) == multiset(b)
    ensures |a| == |b|
  {
    assert |multiset(a)| == |multiset(b)|;
  }

  /** sort.Strings, in place. */
  method SortSlice(a: array<string>)
    modifies a
    ensures a[..] == SortStrings(old(a[..]))
  {
    var sorted := SortStrings(a[..]);
    SameLength(sorted, a[..]);
    for i := 0 to a.Length
      invariant a[..i] == sorted[..i]
    {
      a[i] := sorted[i];
    }
    assert a[..] == sorted;
  }

  method SortOne(m: Slices, key: string, ghost values: Headers)
    requires Separate(m) && key in m && values == Values(m)
    modifies m[key]
    ensures Values(m) == values[key := SortStrings(values[key])]
  {
    SortSlice(m[key]);
    forall name | name in m && name != key
      ensures Values(m)[name] == values[name]
    {
      assert m[name][..] == old(m[name][..]);
    }
  }

  method SortValues(m: Slices)
    requires Separate(m)
    modifies Arrays(m)
    ensures SortedExcept(old(Values(m)), Values(m), {})
  {
    var keys := m.Keys;
    ghost var merged := Values(m);
    while keys != {}
      invariant keys <= m.Keys && SortedExcept(merged, Values(m), keys)
      decreases keys
    {
      var key :| key in keys;
      SortStep(merged, Values(m), keys, key);
      SortOne(m, key, Values(m));
      keys := keys - {key};
    }
  }

  method SortMerged(m: Slices, ghost h: Headers)
    requires Separate(m) && IsMerge(h, h.Keys, Values(m))
    modifies Arrays(m)
    ensures IsJournalForm(h, Values(m)) && AllLower(Values(m))
  {
    ghost var merged := Values(m);
    SortValues(m);
    SortedMerge(h, merged, Values(m));
  }

  /** No name has a capital, and for every given name there is the one with its capitals lowered. */
  predicate HasLoweredNames(h: Headers, r: Headers) {
    && (forall key :: key in r ==> NoCapitals(key))
    && (forall name :: name in h ==> Lower(name) in r && LowersTo(name, Lower(name)))
  }

  lemma NamesAreLowered(h: Headers, r: Headers)
    requires r.Keys == LowerNames(h.Keys)
    ensures HasLoweredNames(h, r)
  {
    forall key | key in r
      ensures NoCapitals(key)
    {
      var name :| name in h && Lower(name) == key;
      LowerIff(name, key);
    }
    forall name | name in h
      ensures Lower(name) in r && LowersTo(name, Lower(name))
    {
      LowerIff(name, Lower(name));
    }
  }

  /** handleIngest: merge, then sort every slice in place. */
  method NormalizeHeaders(h: Slices, ghost values: Headers) returns (headers: Slices)
    requires values == Values(h)
    ensures fresh(Arrays(headers))
    ensures IsJournalForm(values, Values(headers)) && AllLower(Values(headers))
    ensures HasLoweredNames(values, Values(headers))
  {
    headers := MergeHeaders(h, values);
    SortMerged(headers, values);
    NamesAreLowered(values, Values(headers));
  }

  lemma SortedMerge(h: Headers, merged: Headers, headers: Headers)
    requires IsMerge(h, h.Keys, merged) && SortedExcept(merged, headers, {})
    ensures IsJournalForm(h, headers) && AllLower(headers)
  {
    forall key | key in headers
      ensures IsLower(key)
    {
      var name :| name in h && Lower(name) == key;
      LowerTwice(name);
    }
  }

  lemma {:induction false} LowerTwice(s: string)
    ensures IsLower(Lower(s))
  {
    if s != "" {
      LowerTwice(s[1..]);
      assert Lower(s)[1..] == Lower(s[1..]);
    }
  }
}
