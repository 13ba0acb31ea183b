/**
 Copying the caller's property values into a JSON tree.

 The caller's objects form a finite heap that may share containers and may be cyclic. The SDKs walk it recursively and
 remember only the containers they are inside of. That set is also the only termination measure of the Node.js copy,
 which has no depth bound.
 */
module ObjectGraphs {
  import opened Results
  import opened Utf16
  import opened Decimals
  import opened JsonNumbers
  import opened JsonValues

  type Ref = nat

  /** A value the caller hands over. Foreign stands for anything of a type no SDK serializes. */
  datatype Source =
    | NullValue
    | BoolValue(b: bool)
    | TextValue(text: Text)
    | NumberValue(n: Number)
    | NonFinite
    | Foreign
    | Reference(ref: Ref)

  datatype Key = TextKey(text: Text) | OtherKey

  datatype Entry = Entry(key: Key, value: Source)

  /** A container in the heap. OtherObject is an object that is neither a plain map nor a plain list. */
  datatype Container = MapObject(entries: seq<Entry>) | ListObject(items: seq<Source>) | OtherObject

  type Heap = map<Ref, Container>

  // --- The caller's heap ---------------------------------------------------------------------------------------

  predicate Present(h: Heap, v: Source) {
    (v.Reference? ==> v.ref in h) && (v.NumberValue? ==> WritableNumber(v.n))
  }

  predicate DistinctTextKeys(entries: seq<Entry>) {
    forall i, j :: 0 <= i < j < |entries| && entries[i].key.TextKey? ==> entries[i].key != entries[j].key
  }

  /** References are not dangling and the keys of a map are distinct. */
  ghost predicate Proper(h: Heap) {
    && (forall r, i :: r in h && h[r].ListObject? && 0 <= i < |h[r].items| ==> Present(h, h[r].items[i]))
    && (forall r, i :: r in h && h[r].MapObject? && 0 <= i < |h[r].entries| ==> Present(h, h[r].entries[i].value))
    && (forall r :: r in h && h[r].MapObject? ==> DistinctTextKeys(h[r].entries))
  }

  predicate AllPresent(h: Heap, items: seq<Source>) {
    forall i :: 0 <= i < |items| ==> Present(h, items[i])
  }

  predicate EntriesPresent(h: Heap, entries: seq<Entry>) {
    && DistinctTextKeys(entries)
    && forall i :: 0 <= i < |entries| ==> Present(h, entries[i].value)
  }

  // --- What the SDKs compute -----------------------------------------------------------------------------------

  /** Why the values are refused. */
  datatype Refusal = NestedTooDeeply | ContainsCycle | NotJson | InvalidUnicode | NonTextKey

  /** How the SDKs differ: checking Unicode, bounding the depth, and looking at a map's keys before its values. */
  datatype Rules = Rules(unicode: bool, limit: Option<nat>, keysFirst: bool)

  const JAVA := Rules(true, Some(256), false)
  const PYTHON := Rules(true, Some(256), false)
  const NODE := Rules(false, None, true)

  predicate Within(rules: Rules, depth: nat) {
    rules.limit.Some? ==> depth <= rules.limit.value
  }

  predicate TextAllowed(rules: Rules, text: Text) {
    rules.unicode ==> WellFormed(text)
  }

  predicate NumberAllowed(n: Number)
    requires WritableNumber(n)
  {
    !UnsafeInteger(PartsValue(PartsOf(n)))
  }

  predicate HasOtherKey(entries: seq<Entry>) {
    exists i :: 0 <= i < |entries| && entries[i].key.OtherKey?
  }

  /** The copy of a value met at some depth inside the containers of ancestors. */
  ghost function Copy(rules: Rules, h: Heap, v: Source, ancestors: set<Ref>, depth: nat): Result<Json, Refusal>
    requires Proper(h) && Present(h, v)
    decreases h.Keys - ancestors, 0
  {
    if !Within(rules, depth) then Err(NestedTooDeeply)
    else match v
      case NullValue => Ok(Null)
      case BoolValue(b) => Ok(Bool(b))
      case TextValue(text) => if TextAllowed(rules, text) then Ok(String(text)) else Err(InvalidUnicode)
      case NumberValue(n) => if NumberAllowed(n) then Ok(Json.Number(n)) else Err(NotJson)
      case NonFinite => Err(NotJson)
      case Foreign => Err(NotJson)
      case Reference(r) =>
        if h[r].OtherObject? then Err(NotJson)
        else if r in ancestors then Err(ContainsCycle)
        else match h[r]
          case ListObject(items) =>
            var copied :- CopyItems(rules, h, items, ancestors + {r}, depth + 1);
            Ok(Array(copied))
          case MapObject(entries) =>
            if rules.keysFirst && HasOtherKey(entries) then Err(NotJson)
            else
              var copied :- CopyEntries(rules, h, entries, ancestors + {r}, depth + 1);
              Ok(Object(copied))
  }

  ghost function CopyItems(rules: Rules, h: Heap, items: seq<Source>, ancestors: set<Ref>, depth: nat)
    : Result<seq<Json>, Refusal>
    requires Proper(h) && AllPresent(h, items)
    decreases h.Keys - ancestors, |items|
  {
    if items == [] then Ok([])
    else
      var first :- Copy(rules, h, items[0], ancestors, depth);
      var more :- CopyItems(rules, h, items[1..], ancestors, depth);
      Ok([first] + more)
  }

  ghost function CopyEntries(rules: Rules, h: Heap, entries: seq<Entry>, ancestors: set<Ref>, depth: nat)
    : Result<seq<Member>, Refusal>
    requires Proper(h) && EntriesPresent(h, entries)
    decreases h.Keys - ancestors, |entries|
  {
    if entries == [] then Ok([])
    else if entries[0].key.OtherKey? then Err(NonTextKey)
    else if !TextAllowed(rules, entries[0].key.text) then Err(InvalidUnicode)
    else
      var first :- Copy(rules, h, entries[0].value, ancestors, depth);
      var more :- CopyEntries(rules, h, entries[1..], ancestors, depth);
      Ok([Member(entries[0].key.text, first)] + more)
  }

  // --- The tree unfolding, by recursion on the tree ------------------------------------------------------------

  /** t is the tree that v unfolds to, and everything in it is legal. Neither ancestors nor depths are mentioned. */
  ghost predicate Unfolds(rules: Rules, h: Heap, v: Source, t: Json)
    requires Proper(h) && Present(h, v)
    decreases t
  {
    match v
    case NullValue => t == Null
    case BoolValue(b) => t == Bool(b)
    case TextValue(text) => t == String(text) && TextAllowed(rules, text)
    case NumberValue(n) => t == Json.Number(n) && NumberAllowed(n)
    case NonFinite => false
    case Foreign => false
    case Reference(r) =>
      match h[r]
      case ListObject(items) => t.Array? && UnfoldsItems(rules, h, items, t.items)
      case MapObject(entries) => t.Object? && UnfoldsEntries(rules, h, entries, t.members)
      case OtherObject => false
  }

  ghost predicate UnfoldsItems(rules: Rules, h: Heap, items: seq<Source>, ts: seq<Json>)
    requires Proper(h) && AllPresent(h, items)
    decreases ts
  {
    if items == [] then ts == []
    else ts != [] && Unfolds(rules, h, items[0], ts[0]) && UnfoldsItems(rules, h, items[1..], ts[1..])
  }

  ghost predicate UnfoldsEntries(rules: Rules, h: Heap, entries: seq<Entry>, ts: seq<Member>)
    requires Proper(h) && EntriesPresent(h, entries)
    decreases ts
  {
    if entries == [] then ts == []
    else
      && ts != [] && entries[0].key == TextKey(ts[0].key) && TextAllowed(rules, ts[0].key)
      && Unfolds(rules, h, entries[0].value, ts[0].value) && UnfoldsEntries(rules, h, entries[1..], ts[1..])
  }

  lemma UnfoldingIsUnique(rules: Rules, h: Heap, v: Source, t: Json, u: Json)
    requires Proper(h) && Present(h, v) && Unfolds(rules, h, v, t) && Unfolds(rules, h, v, u)
    ensures t == u
    decreases t
  {
    if v.Reference? {
      match h[v.ref]
      case ListObject(items) => ItemUnfoldingsAreUnique(rules, h, items, t.items, u.items);
      case MapObject(entries) => EntryUnfoldingsAreUnique(rules, h, entries, t.members, u.members);
      case OtherObject =>
    }
  }

  lemma {:induction false} ItemUnfoldingsAreUnique(
    rules: Rules, h: Heap, items: seq<Source>, ts: seq<Json>, us: seq<Json>)
    requires Proper(h) && AllPresent(h, items)
    requires UnfoldsItems(rules, h, items, ts) && UnfoldsItems(rules, h, items, us)
    ensures ts == us
    decreases ts
  {
    if items != [] {
      UnfoldingIsUnique(rules, h, items[0], ts[0], us[0]);
      ItemUnfoldingsAreUnique(rules, h, items[1..], ts[1..], us[1..]);
      assert ts == [ts[0]] + ts[1..] && us == [us[0]] + us[1..];
    }
  }

  lemma {:induction false} EntryUnfoldingsAreUnique(
    rules: Rules, h: Heap, entries: seq<Entry>, ts: seq<Member>, us: seq<Member>)
    requires Proper(h) && EntriesPresent(h, entries)
    requires UnfoldsEntries(rules, h, entries, ts) && UnfoldsEntries(rules, h, entries, us)
    ensures ts == us
    decreases ts
  {
    if entries != [] {
      UnfoldingIsUnique(rules, h, entries[0].value, ts[0].value, us[0].value);
      EntryUnfoldingsAreUnique(rules, h, entries[1..], ts[1..], us[1..]);
      assert ts == [ts[0]] + ts[1..] && us == [us[0]] + us[1..];
    }
  }

  // --- A copy is the unfolding, and fits the bound -------------------------------------------------------------

  lemma CopyIsUnfolding(rules: Rules, h: Heap, v: Source, ancestors: set<Ref>, depth: nat)
    requires Proper(h) && Present(h, v) && Copy(rules, h, v, ancestors, depth).Ok?
    ensures var t := Copy(rules, h, v, ancestors, depth).value;
      Unfolds(rules, h, v, t) && Within(rules, depth + Depth(t))
    decreases h.Keys - ancestors, 0
  {
    if v.Reference? {
      var inside := ancestors + {v.ref};
      assert h.Keys - inside < h.Keys - ancestors by {
        assert v.ref in h.Keys - ancestors && v.ref !in h.Keys - inside;
      }
      match h[v.ref]
      case ListObject(items) => CopiedItemsUnfold(rules, h, items, inside, depth + 1);
      case MapObject(entries) => CopiedEntriesUnfold(rules, h, entries, inside, depth + 1);
      case OtherObject =>
    }
  }

  lemma {:induction false} CopiedItemsUnfold(
    rules: Rules, h: Heap, items: seq<Source>, ancestors: set<Ref>, depth: nat)
    requires Proper(h) && AllPresent(h, items) && CopyItems(rules, h, items, ancestors, depth).Ok?
    requires depth > 0 && Within(rules, depth - 1)
    ensures var ts := CopyItems(rules, h, items, ancestors, depth).value;
      UnfoldsItems(rules, h, items, ts) && Within(rules, depth - 1 + DepthOfItems(ts))
    decreases h.Keys - ancestors, |items|
  {
    if items != [] {
      CopyIsUnfolding(rules, h, items[0], ancestors, depth);
      CopiedItemsUnfold(rules, h, items[1..], ancestors, depth);
      var ts := CopyItems(rules, h, items, ancestors, depth).value;
      assert ts[1..] == CopyItems(rules, h, items[1..], ancestors, depth).value;
    }
  }

  lemma {:induction false} CopiedEntriesUnfold(
    rules: Rules, h: Heap, entries: seq<Entry>, ancestors: set<Ref>, depth: nat)
    requires Proper(h) && EntriesPresent(h, entries) && CopyEntries(rules, h, entries, ancestors, depth).Ok?
    requires depth > 0 && Within(rules, depth - 1)
    ensures var ts := CopyEntries(rules, h, entries, ancestors, depth).value;
      UnfoldsEntries(rules, h, entries, ts) && Within(rules, depth - 1 + DepthOfMembers(ts))
    decreases h.Keys - ancestors, |entries|
  {
    if entries != [] {
      CopyIsUnfolding(rules, h, entries[0].value, ancestors, depth);
      CopiedEntriesUnfold(rules, h, entries[1..], ancestors, depth);
      var ts := CopyEntries(rules, h, entries, ancestors, depth).value;
      assert ts[1..] == CopyEntries(rules, h, entries[1..], ancestors, depth).value;
    }
  }

  // --- An unfolding that fits is found -------------------------------------------------------------------------

  /** The container a unfolds to a tree nested deeper than n, so it cannot occur in an unfolding of depth n. */
  ghost predicate Deeper(rules: Rules, h: Heap, a: Ref, n: nat)
    requires Proper(h)
  {
    a in h && exists t :: Unfolds(rules, h, Reference(a), t) && Depth(t) > n
  }

  ghost predicate AllDeeper(rules: Rules, h: Heap, ancestors: set<Ref>, n: nat)
    requires Proper(h)
  {
    forall a :: a in ancestors ==> Deeper(rules, h, a, n)
  }

  lemma UnfoldingIsCopied(
    rules: Rules, h: Heap, v: Source, t: Json, ancestors: set<Ref>, depth: nat)
    requires Proper(h) && Present(h, v) && Unfolds(rules, h, v, t)
    requires Within(rules, depth + Depth(t)) && AllDeeper(rules, h, ancestors, Depth(t))
    ensures Copy(rules, h, v, ancestors, depth) == Ok(t)
    decreases t
  {
    if v.Reference? {
      var r := v.ref;
      if r in ancestors {
        var u :| Unfolds(rules, h, Reference(r), u) && Depth(u) > Depth(t);
        UnfoldingIsUnique(rules, h, v, t, u);
        assert false;
      }
      forall n: nat | n < Depth(t)
        ensures AllDeeper(rules, h, ancestors + {r}, n)
      {
        DeeperStill(rules, h, ancestors, r, t, n);
      }
      match h[r]
      case ListObject(items) => ItemUnfoldingsAreCopied(rules, h, items, t.items, ancestors + {r}, depth + 1, Depth(t));
      case MapObject(entries) =>
        NoOtherKey(rules, h, entries, t.members);
        EntryUnfoldingsAreCopied(rules, h, entries, t.members, ancestors + {r}, depth + 1, Depth(t));
      case OtherObject =>
    }
  }

  lemma DeeperStill(rules: Rules, h: Heap, ancestors: set<Ref>, r: Ref, t: Json, n: nat)
    requires Proper(h) && r in h && Unfolds(rules, h, Reference(r), t) && n < Depth(t)
    requires AllDeeper(rules, h, ancestors, Depth(t))
    ensures AllDeeper(rules, h, ancestors + {r}, n)
  {
  }

  lemma {:induction false} NoOtherKey(rules: Rules, h: Heap, entries: seq<Entry>, ts: seq<Member>)
    requires Proper(h) && EntriesPresent(h, entries) && UnfoldsEntries(rules, h, entries, ts)
    ensures !HasOtherKey(entries)
    decreases ts
  {
    if entries != [] {
      NoOtherKey(rules, h, entries[1..], ts[1..]);
      forall i | 0 <= i < |entries|
        ensures entries[i].key.TextKey?
      {
        assert i > 0 ==> entries[1..][i - 1] == entries[i];
      }
    }
  }

  lemma {:induction false} ItemUnfoldingsAreCopied(
    rules: Rules, h: Heap, items: seq<Source>, ts: seq<Json>, ancestors: set<Ref>, depth: nat, nesting: nat)
    requires Proper(h) && AllPresent(h, items) && UnfoldsItems(rules, h, items, ts)
    requires depth > 0 && Within(rules, depth - 1 + DepthOfItems(ts))
    requires DepthOfItems(ts) <= nesting && forall n: nat :: n < nesting ==> AllDeeper(rules, h, ancestors, n)
    ensures CopyItems(rules, h, items, ancestors, depth) == Ok(ts)
    decreases ts
  {
    if items != [] {
      UnfoldingIsCopied(rules, h, items[0], ts[0], ancestors, depth);
      ItemUnfoldingsAreCopied(rules, h, items[1..], ts[1..], ancestors, depth, nesting);
      assert ts == [ts[0]] + ts[1..];
    }
  }

  lemma {:induction false} EntryUnfoldingsAreCopied(
    rules: Rules, h: Heap, entries: seq<Entry>, ts: seq<Member>, ancestors: set<Ref>, depth: nat, nesting: nat)
    requires Proper(h) && EntriesPresent(h, entries) && UnfoldsEntries(rules, h, entries, ts)
    requires depth > 0 && Within(rules, depth - 1 + DepthOfMembers(ts))
    requires DepthOfMembers(ts) <= nesting && forall n: nat :: n < nesting ==> AllDeeper(rules, h, ancestors, n)
    ensures CopyEntries(rules, h, entries, ancestors, depth) == Ok(ts)
    decreases ts
  {
    if entries != [] {
      UnfoldingIsCopied(rules, h, entries[0].value, ts[0].value, ancestors, depth);
      EntryUnfoldingsAreCopied(rules, h, entries[1..], ts[1..], ancestors, depth, nesting);
      assert ts == [ts[0]] + ts[1..];
    }
  }

  /** The copy of a value succeeds with t exactly when t is the value's unfolding and is nested within the bound. */
  lemma CopyIffUnfolding(rules: Rules, h: Heap, v: Source, t: Json)
    requires Proper(h) && Present(h, v)
    ensures Copy(rules, h, v, {}, 0) == Ok(t) <==> Unfolds(rules, h, v, t) && Within(rules, Depth(t))
  {
    if Copy(rules, h, v, {}, 0) == Ok(t) {
      CopyIsUnfolding(rules, h, v, {}, 0);
    }
    if Unfolds(rules, h, v, t) && Within(rules, Depth(t)) {
      UnfoldingIsCopied(rules, h, v, t, {}, 0);
    }
  }

  // --- When there is an unfolding ------------------------------------------------------------------------------

  /** w is directly inside the container v refers to. */
  ghost predicate Inside(h: Heap, v: Source, w: Source) {
    v.Reference? && v.ref in h &&
    match h[v.ref]
    case ListObject(items) => w in items
    case MapObject(entries) => exists i :: 0 <= i < |entries| && entries[i].value == w
    case OtherObject => false
  }

  ghost predicate IsPath(h: Heap, p: seq<Source>) {
    p != [] && forall i :: 0 <= i < |p| - 1 ==> Inside(h, p[i], p[i + 1])
  }

  /** A value that may be serialized as far as it can be told without looking inside it. */
  ghost predicate Legal(rules: Rules, h: Heap, v: Source)
    requires Present(h, v)
  {
    match v
    case TextValue(text) => TextAllowed(rules, text)
    case NumberValue(n) => NumberAllowed(n)
    case NonFinite => false
    case Foreign => false
    case Reference(r) =>
      (match h[r]
       case ListObject(_) => true
       case MapObject(entries) =>
         forall i :: 0 <= i < |entries| ==> entries[i].key.TextKey? && TextAllowed(rules, entries[i].key.text)
       case OtherObject => false)
    case _ => true
  }

  lemma {:induction false} PathIsPresent(h: Heap, p: seq<Source>)
    requires Proper(h) && IsPath(h, p) && Present(h, p[0])
    ensures Present(h, p[|p| - 1])
  {
    if |p| > 1 {
      PathIsPresent(h, p[..|p| - 1]);
      var last, v := p[|p| - 2], p[|p| - 1];
      assert Inside(h, last, v);
      match h[last.ref]
      case ListObject(items) =>
        var i :| 0 <= i < |items| && items[i] == v;
      case MapObject(entries) =>
        var i :| 0 <= i < |entries| && entries[i].value == v;
      case OtherObject =>
    }
  }

  /** From v one can reach a value that may not be serialized. */
  ghost predicate ReachesIllegal(rules: Rules, h: Heap, v: Source)
    requires Proper(h) && Present(h, v)
  {
    exists p :: IsPath(h, p) && p[0] == v && Present(h, p[|p| - 1]) && !Legal(rules, h, p[|p| - 1])
  }

  /** Some path from v comes back to a value it has been at. */
  ghost predicate ReachesCycle(h: Heap, v: Source) {
    exists p, i :: IsPath(h, p) && p[0] == v && 0 <= i < |p| - 1 && p[i] == p[|p| - 1]
  }

  /** One step into a container goes to a value whose unfolding is shallower. */
  lemma StepUnfolds(rules: Rules, h: Heap, v: Source, w: Source, t: Json) returns (u: Json)
    requires Proper(h) && Present(h, v) && Unfolds(rules, h, v, t) && Inside(h, v, w)
    ensures Present(h, w) && Unfolds(rules, h, w, u) && Depth(u) < Depth(t)
  {
    match h[v.ref]
    case ListObject(items) => u := ItemUnfolds(rules, h, items, t.items, w);
    case MapObject(entries) =>
      var i :| 0 <= i < |entries| && entries[i].value == w;
      u := EntryUnfolds(rules, h, entries, t.members, i);
    case OtherObject =>
  }

  lemma {:induction false} ItemUnfolds(rules: Rules, h: Heap, items: seq<Source>, ts: seq<Json>, w: Source)
    returns (u: Json)
    requires Proper(h) && AllPresent(h, items) && UnfoldsItems(rules, h, items, ts) && w in items
    ensures Present(h, w) && Unfolds(rules, h, w, u) && Depth(u) < DepthOfItems(ts)
    decreases ts
  {
    if w == items[0] {
      u := ts[0];
    } else {
      u := ItemUnfolds(rules, h, items[1..], ts[1..], w);
    }
  }

  lemma {:induction false} EntryUnfolds(rules: Rules, h: Heap, entries: seq<Entry>, ts: seq<Member>, i: nat)
    returns (u: Json)
    requires Proper(h) && EntriesPresent(h, entries) && UnfoldsEntries(rules, h, entries, ts) && i < |entries|
    ensures Unfolds(rules, h, entries[i].value, u) && Depth(u) < DepthOfMembers(ts)
    ensures entries[i].key.TextKey? && TextAllowed(rules, entries[i].key.text)
    decreases ts
  {
    if i == 0 {
      u := ts[0].value;
    } else {
      u := EntryUnfolds(rules, h, entries[1..], ts[1..], i - 1);
    }
  }

  /** Every step of a path goes one level down. */
  lemma {:induction false} PathUnfolds(rules: Rules, h: Heap, p: seq<Source>, t: Json) returns (u: Json)
    requires Proper(h) && IsPath(h, p) && Present(h, p[0]) && Unfolds(rules, h, p[0], t)
    ensures Present(h, p[|p| - 1]) && Unfolds(rules, h, p[|p| - 1], u) && Depth(u) + |p| - 1 <= Depth(t)
    decreases |p|
  {
    if |p| == 1 {
      u := t;
    } else {
      var next := StepUnfolds(rules, h, p[0], p[1], t);
      PathSlice(h, p, 1, |p|);
      assert p[1..|p|] == p[1..];
      u := PathUnfolds(rules, h, p[1..], next);
    }
  }

  lemma UnfoldingIsLegal(rules: Rules, h: Heap, v: Source, t: Json)
    requires Proper(h) && Present(h, v) && Unfolds(rules, h, v, t)
    ensures Legal(rules, h, v)
  {
    if v.Reference? && h[v.ref].MapObject? {
      var entries := h[v.ref].entries;
      forall i | 0 <= i < |entries|
        ensures entries[i].key.TextKey? && TextAllowed(rules, entries[i].key.text)
      {
        var _ := EntryUnfolds(rules, h, entries, t.members, i);
      }
    }
  }

  lemma UnfoldingHasNoCycle(rules: Rules, h: Heap, v: Source, t: Json)
    requires Proper(h) && Present(h, v) && Unfolds(rules, h, v, t)
    ensures !ReachesIllegal(rules, h, v) && !ReachesCycle(h, v)
  {
    if p :| IsPath(h, p) && p[0] == v && Present(h, p[|p| - 1]) && !Legal(rules, h, p[|p| - 1]) {
      var u := PathUnfolds(rules, h, p, t);
      UnfoldingIsLegal(rules, h, p[|p| - 1], u);
    }
    if p, i :| IsPath(h, p) && p[0] == v && 0 <= i < |p| - 1 && p[i] == p[|p| - 1] {
      PathDoesNotReturn(rules, h, p, i, t);
    }
  }

  lemma PathSlice(h: Heap, p: seq<Source>, lo: nat, hi: nat)
    requires IsPath(h, p) && lo < hi <= |p|
    ensures IsPath(h, p[lo..hi])
  {
  }

  /** A path through an unfolding never comes back. */
  lemma PathDoesNotReturn(rules: Rules, h: Heap, p: seq<Source>, i: nat, t: Json)
    requires Proper(h) && IsPath(h, p) && Present(h, p[0]) && Unfolds(rules, h, p[0], t)
    requires i < |p| - 1
    ensures p[i] != p[|p| - 1]
  {
    PathSlice(h, p, 0, i + 1);
    PathSlice(h, p, i, |p|);
    var u := PathUnfolds(rules, h, p[0..i + 1], t);
    var w := PathUnfolds(rules, h, p[i..|p|], u);
    if p[i] == p[|p| - 1] {
      UnfoldingIsUnique(rules, h, p[i], u, w);
    }
  }

  /** The containers a path goes through before its last value. */
  ghost function Visited(p: seq<Source>): set<Ref> {
    set i | 0 <= i < |p| - 1 && p[i].Reference? :: p[i].ref
  }

  /** The last value of the path is why a copy is refused for the given reason. */
  ghost predicate Fault(rules: Rules, h: Heap, p: seq<Source>, e: Refusal)
    requires p != [] && Present(h, p[|p| - 1])
  {
    var v := p[|p| - 1];
    match e
    case NestedTooDeeply => rules.limit.Some? && |p| - 1 > rules.limit.value
    case ContainsCycle => v.Reference? && exists i :: 0 <= i < |p| - 1 && p[i] == v
    case InvalidUnicode =>
      && rules.unicode
      && ((v.TextValue? && !WellFormed(v.text))
          || (v.Reference? && h[v.ref].MapObject? && exists entry ::
                entry in h[v.ref].entries && entry.key.TextKey? && !WellFormed(entry.key.text)))
    case NonTextKey =>
      !rules.keysFirst && v.Reference? && h[v.ref].MapObject? && HasOtherKey(h[v.ref].entries)
    case NotJson =>
      || v.NonFinite? || v.Foreign? || (v.NumberValue? && UnsafeInteger(PartsValue(PartsOf(v.n))))
      || (v.Reference? && h[v.ref].OtherObject?)
      || (rules.keysFirst && v.Reference? && h[v.ref].MapObject? && HasOtherKey(h[v.ref].entries))
  }

  /** A value that is the reason can be reached. */
  ghost predicate HasFault(rules: Rules, h: Heap, v: Source, e: Refusal) {
    exists p :: IsPath(h, p) && p[0] == v && Present(h, p[|p| - 1]) && Fault(rules, h, p, e)
  }

  /** A copy that is refused has met the reason it gives. */
  lemma PathHasFault(rules: Rules, h: Heap, p: seq<Source>, e: Refusal)
    requires Proper(h) && IsPath(h, p) && Present(h, p[0]) && Present(h, p[|p| - 1])
    requires Copy(rules, h, p[|p| - 1], Visited(p), |p| - 1) == Err(e)
    ensures HasFault(rules, h, p[0], e)
    decreases h.Keys - Visited(p), 0, 1
  {
    var v := p[|p| - 1];
    if v.Reference? && !h[v.ref].OtherObject? && Within(rules, |p| - 1) {
      if v.ref in Visited(p) {
        var i :| 0 <= i < |p| - 1 && p[i].Reference? && p[i].ref == v.ref;
        assert p[i] == v;
        assert Fault(rules, h, p, e);
      } else {
        ContainerHasFault(rules, h, p, v.ref, e);
      }
    } else {
      assert Fault(rules, h, p, e);
    }
  }

  lemma ContainerHasFault(rules: Rules, h: Heap, p: seq<Source>, r: Ref, e: Refusal)
    requires Proper(h) && IsPath(h, p) && Present(h, p[0]) && p[|p| - 1] == Reference(r) && r in h
    requires !h[r].OtherObject? && r !in Visited(p) && Within(rules, |p| - 1)
    requires Copy(rules, h, Reference(r), Visited(p), |p| - 1) == Err(e)
    ensures HasFault(rules, h, p[0], e)
    decreases h.Keys - Visited(p), 0, 0
  {
    var inside := Visited(p) + {r};
    assert r in h.Keys - Visited(p) && r !in h.Keys - inside;
    match h[r]
    case ListObject(items) => ItemHasFault(rules, h, p, items, inside, e);
    case MapObject(entries) =>
      if rules.keysFirst && HasOtherKey(entries) {
        assert Fault(rules, h, p, e);
      } else {
        EntryHasFault(rules, h, p, entries, inside, e);
      }
    case OtherObject =>
  }

  lemma ExtendPath(h: Heap, p: seq<Source>, w: Source)
    requires IsPath(h, p) && Inside(h, p[|p| - 1], w)
    ensures IsPath(h, p + [w]) && Visited(p + [w]) == Visited(p) + {p[|p| - 1].ref}
  {
    var q, v := p + [w], p[|p| - 1];
    forall i | 0 <= i < |q| - 1
      ensures Inside(h, q[i], q[i + 1])
    {
      if i < |p| - 1 {
        assert Inside(h, p[i], p[i + 1]);
      }
    }
    forall r
      ensures r in Visited(q) <==> r in Visited(p) + {v.ref}
    {
      if r in Visited(q) {
        var i :| 0 <= i < |q| - 1 && q[i].Reference? && q[i].ref == r;
        assert i < |p| - 1 ==> p[i] == q[i];
      }
      if r in Visited(p) {
        var i :| 0 <= i < |p| - 1 && p[i].Reference? && p[i].ref == r;
        assert q[i] == p[i];
      }
      if r == v.ref {
        assert q[|p| - 1] == v;
      }
    }
  }

  lemma {:induction false} ItemHasFault(
    rules: Rules, h: Heap, p: seq<Source>, items: seq<Source>, inside: set<Ref>, e: Refusal)
    requires Proper(h) && IsPath(h, p) && Present(h, p[0])
    requires AllPresent(h, items) && forall i :: 0 <= i < |items| ==> Inside(h, p[|p| - 1], items[i])
    requires p[|p| - 1].Reference? && inside == Visited(p) + {p[|p| - 1].ref}
    requires CopyItems(rules, h, items, inside, |p|) == Err(e)
    ensures HasFault(rules, h, p[0], e)
    decreases h.Keys - inside, |items|
  {
    if Copy(rules, h, items[0], inside, |p|).Err? {
      ExtendPath(h, p, items[0]);
      PathHasFault(rules, h, p + [items[0]], e);
    } else {
      ItemHasFault(rules, h, p, items[1..], inside, e);
    }
  }

  lemma {:induction false} EntryHasFault(
    rules: Rules, h: Heap, p: seq<Source>, entries: seq<Entry>, inside: set<Ref>, e: Refusal)
    requires Proper(h) && IsPath(h, p) && Present(h, p[0])
    requires p[|p| - 1].Reference? && p[|p| - 1].ref in h && h[p[|p| - 1].ref].MapObject?
    requires inside == Visited(p) + {p[|p| - 1].ref} && EntriesPresent(h, entries)
    requires forall i :: 0 <= i < |entries| ==> entries[i] in h[p[|p| - 1].ref].entries
    requires !(rules.keysFirst && HasOtherKey(h[p[|p| - 1].ref].entries))
    requires CopyEntries(rules, h, entries, inside, |p|) == Err(e)
    ensures HasFault(rules, h, p[0], e)
    decreases h.Keys - inside, |entries|
  {
    var all := h[p[|p| - 1].ref].entries;
    var first := entries[0];
    var k :| 0 <= k < |all| && all[k] == first;
    if first.key.OtherKey? || !TextAllowed(rules, first.key.text) {
      assert HasOtherKey(all) || (first in all && !WellFormed(first.key.text));
      assert Fault(rules, h, p, e);
    } else if Copy(rules, h, first.value, inside, |p|).Err? {
      assert Inside(h, p[|p| - 1], first.value);
      ExtendPath(h, p, first.value);
      PathHasFault(rules, h, p + [first.value], e);
    } else {
      EntryHasFault(rules, h, p, entries[1..], inside, e);
    }
  }

  /** Whatever reason a copy is refused for, a value that is the reason can be reached. */
  lemma RefusalHasReason(rules: Rules, h: Heap, v: Source, e: Refusal)
    requires Proper(h) && Present(h, v) && Copy(rules, h, v, {}, 0) == Err(e)
    ensures HasFault(rules, h, v, e)
  {
    assert Visited([v]) == {};
    PathHasFault(rules, h, [v], e);
  }

  /** Without a depth bound, every reason is something illegal or a cycle. */
  lemma FaultIsIllegalOrCycle(rules: Rules, h: Heap, v: Source, e: Refusal)
    requires Proper(h) && Present(h, v) && rules.limit == None && HasFault(rules, h, v, e)
    ensures ReachesIllegal(rules, h, v) || ReachesCycle(h, v)
  {
    var p :| IsPath(h, p) && p[0] == v && Present(h, p[|p| - 1]) && Fault(rules, h, p, e);
    if e == ContainsCycle {
      var i :| 0 <= i < |p| - 1 && p[i] == p[|p| - 1];
    } else {
      assert !Legal(rules, h, p[|p| - 1]);
    }
  }

  /** Without a depth bound, copying succeeds exactly when no cycle and nothing illegal can be reached. */
  lemma CopyIffAcyclicAndLegal(rules: Rules, h: Heap, v: Source)
    requires Proper(h) && Present(h, v) && rules.limit == None
    ensures Copy(rules, h, v, {}, 0).Ok? <==> !ReachesIllegal(rules, h, v) && !ReachesCycle(h, v)
  {
    if Copy(rules, h, v, {}, 0).Ok? {
      CopyIsUnfolding(rules, h, v, {}, 0);
      UnfoldingHasNoCycle(rules, h, v, Copy(rules, h, v, {}, 0).value);
    } else {
      var e := Copy(rules, h, v, {}, 0).error;
      RefusalHasReason(rules, h, v, e);
      FaultIsIllegalOrCycle(rules, h, v, e);
    }
  }
}
