/**
 The recursive copies of the Java, Python and Node.js SDKs in their own form, each proved to compute the copy of
 ObjectGraphs. All three share one mutable set of ancestors down the recursion. Python and Node.js restore it in a
 finally block; Java removes a container only after copying it, so a refusal leaves the containers around it behind.
 */
module GraphCopiers {
  import opened Results
  import opened Utf16
  import opened Decimals
  import opened JsonNumbers
  import opened JsonValues
  import opened JsonUnicode
  import opened ObjectGraphs

  /** The identity set of containers the walk is inside of. */
  class IdentitySet {
    var members: set<Ref>

    constructor ()
      ensures members == {}
    {
      members := {};
    }

    /** Adds a container and tells whether it was there already. */
    method Put(ref: Ref) returns (present: bool)
      modifies this
      ensures present == (ref in old(members))
      ensures members == old(members) + {ref}
    {
      present := ref in members;
      members := members + {ref};
    }

    method Remove(ref: Ref)
      modifies this
      ensures members == old(members) - {ref}
    {
      members := members - {ref};
    }
  }

  /** Values copied so far in front of the outcome for the others. */
  function Prepend<T>(done: seq<T>, rest: Result<seq<T>, Refusal>): Result<seq<T>, Refusal> {
    match rest
    case Ok(more) => Ok(done + more)
    case Err(refusal) => Err(refusal)
  }

  lemma PrependNone<T>(rest: Result<seq<T>, Refusal>)
    ensures Prepend([], rest) == rest
  {
    if rest.Ok? {
      assert [] + rest.value == rest.value;
    }
  }

  lemma PrependOne<T>(done: seq<T>, x: T, rest: Result<seq<T>, Refusal>)
    ensures Prepend(done, Prepend([x], rest)) == Prepend(done + [x], rest)
  {
    if rest.Ok? {
      assert done + ([x] + rest.value) == (done + [x]) + rest.value;
    }
  }

  /** The copy of a list from some index on, when the item there is copied. */
  lemma NextItem(rules: Rules, h: Heap, items: seq<Source>, index: nat, ancestors: set<Ref>, depth: nat)
    requires Proper(h) && AllPresent(h, items) && index < |items|
    ensures CopyItems(rules, h, items[index..], ancestors, depth) ==
            match Copy(rules, h, items[index], ancestors, depth)
            case Ok(t) => Prepend([t], CopyItems(rules, h, items[index + 1..], ancestors, depth))
            case Err(refusal) => Err(refusal)
  {
  }

  lemma NextEntry(rules: Rules, h: Heap, entries: seq<Entry>, index: nat, ancestors: set<Ref>, depth: nat)
    requires Proper(h) && EntriesPresent(h, entries) && index < |entries|
    requires entries[index].key.TextKey? && TextAllowed(rules, entries[index].key.text)
    ensures CopyEntries(rules, h, entries[index..], ancestors, depth) ==
            match Copy(rules, h, entries[index].value, ancestors, depth)
            case Ok(t) =>
              Prepend([Member(entries[index].key.text, t)], CopyEntries(rules, h, entries[index + 1..], ancestors, depth))
            case Err(refusal) => Err(refusal)
  {
  }

  /** The members copied so far have the keys of the entries before index, so putting the next one appends it. */
  ghost predicate KeysCopied(entries: seq<Entry>, index: nat, copied: seq<Member>) {
    |copied| == index <= |entries| && forall i :: 0 <= i < index ==> entries[i].key == TextKey(copied[i].key)
  }

  lemma PutAppends(entries: seq<Entry>, index: nat, copied: seq<Member>, t: Json)
    requires DistinctTextKeys(entries) && KeysCopied(entries, index, copied) && index < |entries|
    requires entries[index].key.TextKey?
    ensures Put(copied, entries[index].key.text, t) == copied + [Member(entries[index].key.text, t)]
    ensures KeysCopied(entries, index + 1, copied + [Member(entries[index].key.text, t)])
  {
    var key := entries[index].key.text;
    PutNewKey(copied, key, t);
  }

  // --- Java ----------------------------------------------------------------------------------------------------

  method JavaText(value: Text) returns (r: Result<Text, Refusal>)
    ensures r == if WellFormed(value) then Ok(value) else Err(InvalidUnicode)
  {
    var valid := JavaScan(value);
    WellFormedIffEncoding(value);
    return if valid then Ok(value) else Err(InvalidUnicode);
  }

  method JavaNormalize(h: Heap, value: Source, ancestors: IdentitySet, depth: nat) returns (r: Result<Json, Refusal>)
    requires Proper(h) && Present(h, value)
    modifies ancestors
    ensures r == Copy(JAVA, h, value, old(ancestors.members), depth)
    ensures r.Ok? ==> ancestors.members == old(ancestors.members)
    ensures old(ancestors.members) <= ancestors.members
    decreases h.Keys - ancestors.members, 1
  {
    if depth > 256 {
      return Err(NestedTooDeeply);
    }
    match value
    case NullValue => return Ok(Null);
    case BoolValue(b) => return Ok(Bool(b));
    case TextValue(text) =>
      var checked := JavaText(text);
      return match checked case Ok(t) => Ok(String(t)) case Err(refusal) => Err(refusal);
    case NumberValue(n) =>
      JavaRejectsUnsafeIntegers(PartsValue(PartsOf(n)));
      return if JavaRejects(PartsValue(PartsOf(n))) then Err(NotJson) else Ok(Json.Number(n));
    case NonFinite => return Err(NotJson);
    case Foreign => return Err(NotJson);
    case Reference(ref) =>
      match h[ref]
      case OtherObject => return Err(NotJson);
      case MapObject(entries) => r := JavaMap(h, ref, entries, ancestors, depth);
      case ListObject(items) => r := JavaList(h, ref, items, ancestors, depth);
  }

  method JavaMap(h: Heap, ref: Ref, entries: seq<Entry>, ancestors: IdentitySet, depth: nat)
    returns (r: Result<Json, Refusal>)
    requires Proper(h) && ref in h && h[ref] == MapObject(entries) && depth <= 256
    modifies ancestors
    ensures r == Copy(JAVA, h, Reference(ref), old(ancestors.members), depth)
    ensures r.Ok? ==> ancestors.members == old(ancestors.members)
    ensures old(ancestors.members) <= ancestors.members
    decreases h.Keys - ancestors.members, 0
  {
    var present := ancestors.Put(ref);
    if present {
      return Err(ContainsCycle);
    }
    ghost var inside := ancestors.members;
    assert ref in h.Keys - old(ancestors.members) && ref !in h.Keys - inside;
    ghost var all := CopyEntries(JAVA, h, entries, inside, depth + 1);
    assert entries[0..] == entries;
    PrependNone(all);
    var copy: seq<Member> := [];
    for index := 0 to |entries|
      invariant ancestors.members == inside && KeysCopied(entries, index, copy)
      invariant all == Prepend(copy, CopyEntries(JAVA, h, entries[index..], inside, depth + 1))
    {
      if entries[index].key.OtherKey? {
        return Err(NonTextKey);
      }
      var key := JavaText(entries[index].key.text);
      if key.Err? {
        return Err(InvalidUnicode);
      }
      NextEntry(JAVA, h, entries, index, inside, depth + 1);
      var t := JavaNormalize(h, entries[index].value, ancestors, depth + 1);
      if t.Err? {
        return t;
      }
      PutAppends(entries, index, copy, t.value);
      PrependOne(copy, Member(key.value, t.value), CopyEntries(JAVA, h, entries[index + 1..], inside, depth + 1));
      copy := Put(copy, key.value, t.value);
    }
    assert entries[|entries|..] == [] && copy + [] == copy;
    ancestors.Remove(ref);
    assert inside - {ref} == old(ancestors.members);
    return Ok(Object(copy));
  }

  method JavaList(h: Heap, ref: Ref, items: seq<Source>, ancestors: IdentitySet, depth: nat)
    returns (r: Result<Json, Refusal>)
    requires Proper(h) && ref in h && h[ref] == ListObject(items) && depth <= 256
    modifies ancestors
    ensures r == Copy(JAVA, h, Reference(ref), old(ancestors.members), depth)
    ensures r.Ok? ==> ancestors.members == old(ancestors.members)
    ensures old(ancestors.members) <= ancestors.members
    decreases h.Keys - ancestors.members, 0
  {
    var present := ancestors.Put(ref);
    if present {
      return Err(ContainsCycle);
    }
    ghost var inside := ancestors.members;
    assert ref in h.Keys - old(ancestors.members) && ref !in h.Keys - inside;
    ghost var all := CopyItems(JAVA, h, items, inside, depth + 1);
    assert items[0..] == items;
    PrependNone(all);
    var copy: seq<Json> := [];
    for index := 0 to |items|
      invariant ancestors.members == inside
      invariant all == Prepend(copy, CopyItems(JAVA, h, items[index..], inside, depth + 1))
    {
      NextItem(JAVA, h, items, index, inside, depth + 1);
      var t := JavaNormalize(h, items[index], ancestors, depth + 1);
      if t.Err? {
        return t;
      }
      PrependOne(copy, t.value, CopyItems(JAVA, h, items[index + 1..], inside, depth + 1));
      copy := copy + [t.value];
    }
    assert items[|items|..] == [] && copy + [] == copy;
    ancestors.Remove(ref);
    assert inside - {ref} == old(ancestors.members);
    return Ok(Array(copy));
  }

  // --- Python --------------------------------------------------------------------------------------------------

  method PythonNormalize(h: Heap, value: Source, ancestors: IdentitySet, depth: nat) returns (r: Result<Json, Refusal>)
    requires Proper(h) && Present(h, value)
    modifies ancestors
    ensures r == Copy(PYTHON, h, value, old(ancestors.members), depth)
    ensures ancestors.members == old(ancestors.members)
    decreases h.Keys - ancestors.members, 2
  {
    if depth > 256 {
      return Err(NestedTooDeeply);
    }
    match value
    case NullValue => return Ok(Null);
    case BoolValue(b) => return Ok(Bool(b));
    case TextValue(text) => return if WellFormed(text) then Ok(String(text)) else Err(InvalidUnicode);
    case NumberValue(n) =>
      var d := PartsValue(PartsOf(n));
      return if IsInteger(d) && IntegerMagnitude(d) > MAX_SAFE_INTEGER then Err(NotJson) else Ok(Json.Number(n));
    case NonFinite => return Err(NotJson);
    case Foreign => return Err(NotJson);
    case Reference(ref) =>
      if h[ref].OtherObject? {
        return Err(NotJson);
      }
      r := PythonContainer(h, ref, ancestors, depth);
  }

  /** The try block of _container is PythonBody; the ancestor is discarded whatever it does. */
  method PythonContainer(h: Heap, ref: Ref, ancestors: IdentitySet, depth: nat) returns (r: Result<Json, Refusal>)
    requires Proper(h) && ref in h && !h[ref].OtherObject? && depth <= 256
    modifies ancestors
    ensures r == Copy(PYTHON, h, Reference(ref), old(ancestors.members), depth)
    ensures ancestors.members == old(ancestors.members)
    decreases h.Keys - ancestors.members, 1
  {
    if ref in ancestors.members {
      return Err(ContainsCycle);
    }
    var _ := ancestors.Put(ref);
    assert ref in h.Keys - old(ancestors.members) && ref !in h.Keys - ancestors.members;
    r := PythonBody(h, ref, ancestors, depth);
    assert ancestors.members - {ref} == old(ancestors.members);
    ancestors.Remove(ref);
  }

  method PythonBody(h: Heap, ref: Ref, ancestors: IdentitySet, depth: nat) returns (r: Result<Json, Refusal>)
    requires Proper(h) && ref in h && ref in ancestors.members && !h[ref].OtherObject? && depth <= 256
    modifies ancestors
    ensures r == Copy(PYTHON, h, Reference(ref), old(ancestors.members) - {ref}, depth)
    ensures ancestors.members == old(ancestors.members)
    decreases h.Keys - ancestors.members, 3
  {
    ghost var inside := ancestors.members;
    assert (inside - {ref}) + {ref} == inside;
    match h[ref]
    case MapObject(entries) =>
      ghost var all := CopyEntries(PYTHON, h, entries, inside, depth + 1);
      assert entries[0..] == entries;
      PrependNone(all);
      var result: seq<Member> := [];
      for index := 0 to |entries|
        invariant ancestors.members == inside && KeysCopied(entries, index, result)
        invariant all == Prepend(result, CopyEntries(PYTHON, h, entries[index..], inside, depth + 1))
      {
        if entries[index].key.OtherKey? {
          return Err(NonTextKey);
        }
        var key := entries[index].key.text;
        if !WellFormed(key) {
          return Err(InvalidUnicode);
        }
        NextEntry(PYTHON, h, entries, index, inside, depth + 1);
        var t := PythonNormalize(h, entries[index].value, ancestors, depth + 1);
        if t.Err? {
          return t;
        }
        PutAppends(entries, index, result, t.value);
        PrependOne(result, Member(key, t.value), CopyEntries(PYTHON, h, entries[index + 1..], inside, depth + 1));
        result := Put(result, key, t.value);
      }
      assert entries[|entries|..] == [] && result + [] == result;
      return Ok(Object(result));
    case ListObject(items) =>
      ghost var all := CopyItems(PYTHON, h, items, inside, depth + 1);
      assert items[0..] == items;
      PrependNone(all);
      var result: seq<Json> := [];
      for index := 0 to |items|
        invariant ancestors.members == inside
        invariant all == Prepend(result, CopyItems(PYTHON, h, items[index..], inside, depth + 1))
      {
        NextItem(PYTHON, h, items, index, inside, depth + 1);
        var t := PythonNormalize(h, items[index], ancestors, depth + 1);
        if t.Err? {
          return t;
        }
        PrependOne(result, t.value, CopyItems(PYTHON, h, items[index + 1..], inside, depth + 1));
        result := result + [t.value];
      }
      assert items[|items|..] == [] && result + [] == result;
      return Ok(Array(result));
  }

  // --- Node.js -------------------------------------------------------------------------------------------------

  /** Objects that are neither plain maps nor lists are refused at once, so the walk is never inside one. */
  ghost predicate PlainContainers(h: Heap, refs: set<Ref>) {
    forall r :: r in refs ==> r in h && !h[r].OtherObject?
  }

  /** No depth is passed: the recursion ends because every level adds an object to the ancestors. */
  method NodeCopy(h: Heap, value: Source, ancestors: IdentitySet, ghost depth: nat) returns (r: Result<Json, Refusal>)
    requires Proper(h) && Present(h, value) && PlainContainers(h, ancestors.members)
    modifies ancestors
    ensures r == Copy(NODE, h, value, old(ancestors.members), depth)
    ensures ancestors.members == old(ancestors.members)
    decreases h.Keys - ancestors.members, 2
  {
    match value
    case NullValue => return Ok(Null);
    case BoolValue(b) => return Ok(Bool(b));
    case TextValue(text) => return Ok(String(text));
    case NumberValue(n) =>
      var d := PartsValue(PartsOf(n));
      return if IsInteger(d) && !(IntegerMagnitude(d) <= MAX_SAFE_INTEGER) then Err(NotJson) else Ok(Json.Number(n));
    case NonFinite => return Err(NotJson);
    case Foreign => return Err(NotJson);
    case Reference(ref) => r := NodeObject(h, ref, ancestors, depth);
  }

  method NodeObject(h: Heap, ref: Ref, ancestors: IdentitySet, ghost depth: nat) returns (r: Result<Json, Refusal>)
    requires Proper(h) && ref in h && PlainContainers(h, ancestors.members)
    modifies ancestors
    ensures r == Copy(NODE, h, Reference(ref), old(ancestors.members), depth)
    ensures ancestors.members == old(ancestors.members)
    decreases h.Keys - ancestors.members, 1
  {
    if ref in ancestors.members {
      return Err(ContainsCycle);
    }
    var _ := ancestors.Put(ref);
    assert ref in h.Keys - old(ancestors.members) && ref !in h.Keys - ancestors.members;
    r := NodeBody(h, ref, ancestors, depth);
    assert ancestors.members - {ref} == old(ancestors.members);
    ancestors.Remove(ref);
  }

  method NodeBody(h: Heap, ref: Ref, ancestors: IdentitySet, ghost depth: nat) returns (r: Result<Json, Refusal>)
    requires Proper(h) && ref in h && ref in ancestors.members && PlainContainers(h, ancestors.members - {ref})
    modifies ancestors
    ensures r == Copy(NODE, h, Reference(ref), old(ancestors.members) - {ref}, depth)
    ensures ancestors.members == old(ancestors.members)
    decreases h.Keys - ancestors.members, 3
  {
    ghost var inside := ancestors.members;
    assert (inside - {ref}) + {ref} == inside;
    match h[ref]
    case OtherObject => return Err(NotJson);
    case MapObject(entries) =>
      if HasOtherKey(entries) {
        return Err(NotJson);
      }
      ghost var all := CopyEntries(NODE, h, entries, inside, depth + 1);
      assert entries[0..] == entries;
      PrependNone(all);
      var copied: seq<Member> := [];
      for index := 0 to |entries|
        invariant ancestors.members == inside && KeysCopied(entries, index, copied)
        invariant all == Prepend(copied, CopyEntries(NODE, h, entries[index..], inside, depth + 1))
      {
        var key := entries[index].key.text;
        NextEntry(NODE, h, entries, index, inside, depth + 1);
        var t := NodeCopy(h, entries[index].value, ancestors, depth + 1);
        if t.Err? {
          return t;
        }
        PutAppends(entries, index, copied, t.value);
        PrependOne(copied, Member(key, t.value), CopyEntries(NODE, h, entries[index + 1..], inside, depth + 1));
        copied := Put(copied, key, t.value);
      }
      assert entries[|entries|..] == [] && copied + [] == copied;
      return Ok(Object(copied));
    case ListObject(items) =>
      ghost var all := CopyItems(NODE, h, items, inside, depth + 1);
      assert items[0..] == items;
      PrependNone(all);
      var copied: seq<Json> := [];
      for index := 0 to |items|
        invariant ancestors.members == inside
        invariant all == Prepend(copied, CopyItems(NODE, h, items[index..], inside, depth + 1))
      {
        NextItem(NODE, h, items, index, inside, depth + 1);
        var t := NodeCopy(h, items[index], ancestors, depth + 1);
        if t.Err? {
          return t;
        }
        PrependOne(copied, t.value, CopyItems(NODE, h, items[index + 1..], inside, depth + 1));
        copied := copied + [t.value];
      }
      assert items[|items|..] == [] && copied + [] == copied;
      return Ok(Array(copied));
  }

  // --- How the copies compare ----------------------------------------------------------------------------------

  lemma UnfoldingRules(h: Heap, v: Source, t: Json)
    requires Proper(h) && Present(h, v)
    ensures Unfolds(JAVA, h, v, t) <==> Unfolds(NODE, h, v, t) && UnicodeText(t)
    decreases t
  {
    if v.Reference? && t.Array? && h[v.ref].ListObject? {
      ItemUnfoldingRules(h, h[v.ref].items, t.items);
    } else if v.Reference? && t.Object? && h[v.ref].MapObject? {
      EntryUnfoldingRules(h, h[v.ref].entries, t.members);
    }
  }

  lemma {:induction false} ItemUnfoldingRules(h: Heap, items: seq<Source>, ts: seq<Json>)
    requires Proper(h) && AllPresent(h, items)
    ensures UnfoldsItems(JAVA, h, items, ts) <==> UnfoldsItems(NODE, h, items, ts) && UnicodeItems(ts)
    decreases ts
  {
    if items != [] && ts != [] {
      UnfoldingRules(h, items[0], ts[0]);
      ItemUnfoldingRules(h, items[1..], ts[1..]);
    }
  }

  lemma {:induction false} EntryUnfoldingRules(h: Heap, entries: seq<Entry>, ts: seq<Member>)
    requires Proper(h) && EntriesPresent(h, entries)
    ensures UnfoldsEntries(JAVA, h, entries, ts) <==> UnfoldsEntries(NODE, h, entries, ts) && UnicodeMembers(ts)
    decreases ts
  {
    if entries != [] && ts != [] {
      UnfoldingRules(h, entries[0].value, ts[0].value);
      EntryUnfoldingRules(h, entries[1..], ts[1..]);
    }
  }

  /** Java and Python accept what Node.js accepts with the same tree, if it is valid Unicode and nested at most 256 deep. */
  lemma BoundedVersusUnbounded(h: Heap, v: Source, t: Json)
    requires Proper(h) && Present(h, v)
    ensures Copy(JAVA, h, v, {}, 0) == Copy(PYTHON, h, v, {}, 0)
    ensures Copy(JAVA, h, v, {}, 0) == Ok(t) <==>
            Copy(NODE, h, v, {}, 0) == Ok(t) && UnicodeText(t) && Depth(t) <= 256
  {
    CopyIffUnfolding(JAVA, h, v, t);
    CopyIffUnfolding(NODE, h, v, t);
    UnfoldingRules(h, v, t);
  }

  /** A copied tree can be serialized. */
  lemma UnfoldingIsWritable(rules: Rules, h: Heap, v: Source, t: Json)
    requires Proper(h) && Present(h, v) && Unfolds(rules, h, v, t)
    ensures Writable(t)
    decreases t
  {
    if v.Reference? && t.Array? && h[v.ref].ListObject? {
      ItemUnfoldingsAreWritable(rules, h, h[v.ref].items, t.items);
    } else if v.Reference? && t.Object? && h[v.ref].MapObject? {
      EntryUnfoldingsAreWritable(rules, h, h[v.ref].entries, t.members);
    }
  }

  lemma {:induction false} ItemUnfoldingsAreWritable(rules: Rules, h: Heap, items: seq<Source>, ts: seq<Json>)
    requires Proper(h) && AllPresent(h, items) && UnfoldsItems(rules, h, items, ts)
    ensures WritableItems(ts)
    decreases ts
  {
    if items != [] {
      UnfoldingIsWritable(rules, h, items[0], ts[0]);
      ItemUnfoldingsAreWritable(rules, h, items[1..], ts[1..]);
    }
  }

  lemma {:induction false} EntryUnfoldingsAreWritable(rules: Rules, h: Heap, entries: seq<Entry>, ts: seq<Member>)
    requires Proper(h) && EntriesPresent(h, entries) && UnfoldsEntries(rules, h, entries, ts)
    ensures WritableMembers(ts) && DistinctKeys(ts)
    ensures |ts| == |entries| && forall i :: 0 <= i < |ts| ==> entries[i].key == TextKey(ts[i].key)
    decreases ts
  {
    if entries != [] {
      UnfoldingIsWritable(rules, h, entries[0].value, ts[0].value);
      EntryUnfoldingsAreWritable(rules, h, entries[1..], ts[1..]);
      assert forall i :: 1 <= i < |ts| ==> entries[i] == entries[1..][i - 1] && ts[i] == ts[1..][i - 1];
    }
  }

  // --- What an unfolding prints as can be read again, but for one zero ------------------------------------------

  lemma UnfoldingIsRereadableIff(rules: Rules, h: Heap, v: Source, t: Json)
    requires Proper(h) && Present(h, v) && Unfolds(rules, h, v, t)
    ensures Rereadable(t) <==> !HasLowestZero(t)
    decreases t
  {
    if v.NumberValue? && v.n.Exact? {
      PrintedValue(v.n.value);
      OnlyLowestZeroOverflows(v.n.value);
    } else if v.Reference? && t.Array? && h[v.ref].ListObject? {
      ItemUnfoldingsAreRereadableIff(rules, h, h[v.ref].items, t.items);
    } else if v.Reference? && t.Object? && h[v.ref].MapObject? {
      EntryUnfoldingsAreRereadableIff(rules, h, h[v.ref].entries, t.members);
    }
  }

  lemma {:induction false} ItemUnfoldingsAreRereadableIff(rules: Rules, h: Heap, items: seq<Source>, ts: seq<Json>)
    requires Proper(h) && AllPresent(h, items) && UnfoldsItems(rules, h, items, ts)
    ensures RereadableItems(ts) <==> !ItemsHaveLowestZero(ts)
    decreases ts
  {
    if items != [] {
      UnfoldingIsRereadableIff(rules, h, items[0], ts[0]);
      ItemUnfoldingsAreRereadableIff(rules, h, items[1..], ts[1..]);
    }
  }

  lemma {:induction false} EntryUnfoldingsAreRereadableIff(
    rules: Rules, h: Heap, entries: seq<Entry>, ts: seq<Member>)
    requires Proper(h) && EntriesPresent(h, entries) && UnfoldsEntries(rules, h, entries, ts)
    ensures RereadableMembers(ts) <==> !MembersHaveLowestZero(ts)
    decreases ts
  {
    if entries != [] {
      UnfoldingIsRereadableIff(rules, h, entries[0].value, ts[0].value);
      EntryUnfoldingsAreRereadableIff(rules, h, entries[1..], ts[1..]);
    }
  }
}
