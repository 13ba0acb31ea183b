/**
 The browser allowlist: validation, canonical form and matching. The canonical form identifies an installation, so
 what matters is when two allowlists have the same one: exactly when they name the same targets, provided the locale's
 collation tells those targets apart.
 */
module AllowedTargets {
  import opened Results
  import Ordering

  datatype Target = Target(origin: string, pathPrefix: string)

  datatype Url = Url(protocol: string, origin: string, pathname: string)

  /** What the URL parser says of an origin. */
  datatype ParsedOrigin = ParsedOrigin(
    protocol: string, username: string, password: string, pathname: string, search: string, hash: string,
    origin: string)

  /** A caller's target, with the parse of its origin if it has one. */
  datatype Requested = Requested(parsed: Option<ParsedOrigin>, pathPrefix: Option<string>)

  datatype TargetError = NoTargets | NotAbsolute | NotAnOrigin | BadPathPrefix

  /** The order the locale's collation puts on targets. */
  type Order = (Target, Target) -> bool

  ghost predicate IsCollation(le: Order) {
    && (forall a, b :: le(a, b) || le(b, a))
    && (forall a, b, c :: le(a, b) && le(b, c) ==> le(a, c))
  }

  // --- Validation ----------------------------------------------------------------------------------------------

  function NormalizeTarget(t: Requested): Result<Target, TargetError> {
    if t.parsed.None? then Err(NotAbsolute)
    else
      var parsed := t.parsed.value;
      if (parsed.protocol != "http:" && parsed.protocol != "https:")
         || parsed.username != "" || parsed.password != ""
         || parsed.pathname != "/" || parsed.search != "" || parsed.hash != "" then Err(NotAnOrigin)
      else
        var pathPrefix := if t.pathPrefix.Some? then t.pathPrefix.value else "/";
        if !("/" <= pathPrefix) then Err(BadPathPrefix)
        else Ok(Target(parsed.origin, pathPrefix))
  }

  /** The first target that is refused decides the error. */
  function NormalizeEach(ts: seq<Requested>): Result<seq<Target>, TargetError> {
    if ts == [] then Ok([])
    else
      var first :- NormalizeTarget(ts[0]);
      var rest :- NormalizeEach(ts[1..]);
      Ok([first] + rest)
  }

  // --- One copy of each, in order ------------------------------------------------------------------------------

  /** The values of a Map keyed by target: each target once, where it first stood. */
  function Unique(ts: seq<Target>): seq<Target> {
    if ts == [] then []
    else
      var front, last := ts[..|ts| - 1], ts[|ts| - 1];
      if last in front then Unique(front) else Unique(front) + [last]
  }

  predicate Distinct(ts: seq<Target>) {
    forall i, j :: 0 <= i < j < |ts| ==> ts[i] != ts[j]
  }

  function Insert(le: Order, t: Target, ts: seq<Target>): seq<Target> {
    if ts == [] || le(t, ts[0]) then [t] + ts else [ts[0]] + Insert(le, t, ts[1..])
  }

  /** A stable sort. */
  function Sort(le: Order, ts: seq<Target>): seq<Target> {
    if ts == [] then [] else Insert(le, ts[0], Sort(le, ts[1..]))
  }

  function Canonical(le: Order, ts: seq<Target>): seq<Target> {
    Sort(le, Unique(ts))
  }

  function NormalizeAllowedTargets(le: Order, ts: seq<Requested>): Result<seq<Target>, TargetError> {
    if ts == [] then Err(NoTargets)
    else
      var each :- NormalizeEach(ts);
      Ok(Canonical(le, each))
  }

  function TargetsIn(ts: seq<Target>): set<Target> {
    set t | t in ts
  }

  // --- Matching ------------------------------------------------------------------------------------------------

  predicate MatchesTarget(t: Target, url: Url) {
    t.origin == url.origin && t.pathPrefix <= url.pathname
  }

  predicate MatchesAllowedTarget(ts: seq<Target>, url: Url) {
    (url.protocol == "http:" || url.protocol == "https:") && exists t :: t in ts && MatchesTarget(t, url)
  }

  /** Some target has the URL's origin and starts its path, and the URL is HTTP or HTTPS. */
  ghost predicate Allows(ts: seq<Target>, url: Url) {
    && url.protocol in ["http:", "https:"]
    && exists t :: t in ts && t.origin == url.origin && t.pathPrefix <= url.pathname
  }

  lemma MatchesIffAllows(ts: seq<Target>, url: Url)
    ensures MatchesAllowedTarget(ts, url) <==> Allows(ts, url)
  {
    if t :| t in ts && MatchesTarget(t, url) {
      assert t.origin == url.origin && t.pathPrefix <= url.pathname;
    }
    if t :| t in ts && t.origin == url.origin && t.pathPrefix <= url.pathname {
      assert MatchesTarget(t, url);
    }
  }

  // --- The canonical form keeps the targets --------------------------------------------------------------------

  lemma {:induction false} UniqueKeeps(ts: seq<Target>)
    ensures Distinct(Unique(ts)) && forall t :: t in Unique(ts) <==> t in ts
  {
    if ts != [] {
      var front, last := ts[..|ts| - 1], ts[|ts| - 1];
      assert ts == front + [last];
      UniqueKeeps(front);
    }
  }

  lemma {:induction false} InsertKeeps(le: Order, t: Target, ts: seq<Target>)
    ensures multiset(Insert(le, t, ts)) == multiset{t} + multiset(ts)
  {
    if ts != [] {
      assert ts == [ts[0]] + ts[1..];
      InsertKeeps(le, t, ts[1..]);
    }
  }

  lemma {:induction false} SortKeeps(le: Order, ts: seq<Target>)
    ensures multiset(Sort(le, ts)) == multiset(ts)
  {
    if ts != [] {
      assert ts == [ts[0]] + ts[1..];
      SortKeeps(le, ts[1..]);
      InsertKeeps(le, ts[0], Sort(le, ts[1..]));
    }
  }

  lemma CanonicalKeeps(le: Order, ts: seq<Target>)
    ensures TargetsIn(Canonical(le, ts)) == TargetsIn(ts)
    ensures forall t :: t in Canonical(le, ts) <==> t in ts
  {
    UniqueKeeps(ts);
    SortKeeps(le, Unique(ts));
    forall t
      ensures t in Canonical(le, ts) <==> t in ts
    {
      assert t in Canonical(le, ts) <==> t in multiset(Canonical(le, ts));
      assert t in Unique(ts) <==> t in multiset(Unique(ts));
    }
  }

  /** Putting an allowlist in canonical form does not change what it allows. */
  lemma CanonicalMatchesTheSame(le: Order, ts: seq<Target>, url: Url)
    ensures MatchesAllowedTarget(Canonical(le, ts), url) <==> Allows(ts, url)
  {
    MatchesIffAllows(Canonical(le, ts), url);
    CanonicalKeeps(le, ts);
  }

  // --- Which allowlists are accepted ---------------------------------------------------------------------------

  /** An HTTP or HTTPS origin with nothing else in it; the prefix is a slash unless given, and begins with one. */
  lemma AcceptedTarget(r: Requested, t: Target)
    ensures NormalizeTarget(r) == Ok(t) <==>
            && r.parsed.Some? && r.parsed.value == ParsedOrigin(r.parsed.value.protocol, "", "", "/", "", "", t.origin)
            && r.parsed.value.protocol in ["http:", "https:"]
            && (r.pathPrefix == Some(t.pathPrefix) || (r.pathPrefix == None && t.pathPrefix == "/"))
            && t.pathPrefix != "" && t.pathPrefix[0] == '/'
  {
  }

  /** Every target is accepted, in the order given. */
  lemma {:induction false} AcceptedEach(rs: seq<Requested>, ts: seq<Target>)
    ensures NormalizeEach(rs) == Ok(ts) <==>
            |ts| == |rs| && forall i :: 0 <= i < |rs| ==> NormalizeTarget(rs[i]) == Ok(ts[i])
  {
    if rs != [] {
      if ts != [] {
        AcceptedEach(rs[1..], ts[1..]);
        assert ts == [ts[0]] + ts[1..];
      }
      assert NormalizeEach(rs).Ok? ==> NormalizeEach(rs).value != [];
    }
  }

  // --- Equal canonical forms -----------------------------------------------------------------------------------

  predicate Sorted(le: Order, ts: seq<Target>) {
    forall i, j :: 0 <= i < j < |ts| ==> le(ts[i], ts[j])
  }

  /** No two of the targets compare equal. */
  ghost predicate TellsApart(le: Order, s: set<Target>) {
    forall a, b :: a in s && b in s && le(a, b) && le(b, a) ==> a == b
  }

  lemma {:induction false} InsertSorted(le: Order, t: Target, ts: seq<Target>)
    requires IsCollation(le) && Sorted(le, ts)
    ensures Sorted(le, Insert(le, t, ts))
  {
    if ts != [] && !le(t, ts[0]) {
      var tail := Insert(le, t, ts[1..]);
      InsertSorted(le, t, ts[1..]);
      InsertKeeps(le, t, ts[1..]);
      forall i | 0 <= i < |tail|
        ensures le(ts[0], tail[i])
      {
        assert tail[i] in multiset(tail);
        assert tail[i] == t || tail[i] in ts[1..];
      }
    }
  }

  lemma {:induction false} SortSorts(le: Order, ts: seq<Target>)
    requires IsCollation(le)
    ensures Sorted(le, Sort(le, ts))
  {
    if ts != [] {
      SortSorts(le, ts[1..]);
      InsertSorted(le, ts[0], Sort(le, ts[1..]));
    }
  }

  lemma SameFirst(le: Order, a: seq<Target>, b: seq<Target>)
    requires a != [] && b != [] && Sorted(le, a) && Sorted(le, b) && TargetsIn(a) == TargetsIn(b)
    requires TellsApart(le, TargetsIn(a))
    ensures a[0] == b[0]
  {
    assert a[0] in TargetsIn(b) && b[0] in TargetsIn(a);
    var i :| 0 <= i < |b| && b[i] == a[0];
    var j :| 0 <= j < |a| && a[j] == b[0];
  }

  lemma RestOf(a: seq<Target>)
    requires a != [] && Distinct(a)
    ensures Distinct(a[1..]) && TargetsIn(a[1..]) == TargetsIn(a) - {a[0]}
  {
  }

  lemma NoneIffEmpty(ts: seq<Target>)
    ensures TargetsIn(ts) == {} <==> ts == []
  {
    if ts != [] {
      assert ts[0] in TargetsIn(ts);
    }
  }

  lemma {:induction false} SortedIsUnique(le: Order, a: seq<Target>, b: seq<Target>)
    requires Sorted(le, a) && Sorted(le, b) && Distinct(a) && Distinct(b) && TargetsIn(a) == TargetsIn(b)
    requires TellsApart(le, TargetsIn(a))
    ensures a == b
  {
    NoneIffEmpty(a);
    NoneIffEmpty(b);
    if a != [] {
      SameFirst(le, a, b);
      RestOf(a);
      RestOf(b);
      assert a == [a[0]] + a[1..] && b == [b[0]] + b[1..];
      SortedIsUnique(le, a[1..], b[1..]);
    }
  }

  lemma {:induction false} InsertStaysDistinct(le: Order, t: Target, ts: seq<Target>)
    requires Distinct(ts) && t !in ts
    ensures Distinct(Insert(le, t, ts))
  {
    if ts != [] && !le(t, ts[0]) {
      RestOf(ts);
      InsertStaysDistinct(le, t, ts[1..]);
      InsertKeeps(le, t, ts[1..]);
      var tail := Insert(le, t, ts[1..]);
      assert ts[0] !in TargetsIn(ts[1..]) && ts[0] !in multiset(ts[1..]);
      assert ts[0] !in multiset(tail);
    }
  }

  lemma {:induction false} SortStaysDistinct(le: Order, ts: seq<Target>)
    requires Distinct(ts)
    ensures Distinct(Sort(le, ts))
  {
    if ts != [] {
      RestOf(ts);
      SortStaysDistinct(le, ts[1..]);
      SortKeeps(le, ts[1..]);
      assert ts[0] !in TargetsIn(ts[1..]) && ts[0] !in multiset(ts[1..]);
      assert ts[0] !in multiset(Sort(le, ts[1..]));
      InsertStaysDistinct(le, ts[0], Sort(le, ts[1..]));
    }
  }

  lemma CanonicalIsSorted(le: Order, ts: seq<Target>)
    requires IsCollation(le)
    ensures Sorted(le, Canonical(le, ts)) && Distinct(Canonical(le, ts))
  {
    UniqueKeeps(ts);
    SortSorts(le, Unique(ts));
    SortStaysDistinct(le, Unique(ts));
  }

  /** Allowlists the collation tells apart have the same canonical form exactly when they name the same targets. */
  lemma SameFormIffSameTargets(le: Order, a: seq<Target>, b: seq<Target>)
    requires IsCollation(le) && TellsApart(le, TargetsIn(a))
    ensures Canonical(le, a) == Canonical(le, b) <==> TargetsIn(a) == TargetsIn(b)
  {
    CanonicalKeeps(le, a);
    CanonicalKeeps(le, b);
    if TargetsIn(a) == TargetsIn(b) {
      CanonicalIsSorted(le, a);
      CanonicalIsSorted(le, b);
      SortedIsUnique(le, Canonical(le, a), Canonical(le, b));
    }
  }

  // --- A collation tie makes the form depend on the caller's order ----------------------------------------------

  function TiedWith(le: Order, a: Target, ts: seq<Target>): seq<Target> {
    if ts == [] then []
    else (if le(a, ts[0]) && le(ts[0], a) then [ts[0]] else []) + TiedWith(le, a, ts[1..])
  }

  lemma {:induction false} InsertIsStable(le: Order, a: Target, t: Target, ts: seq<Target>)
    requires IsCollation(le)
    ensures TiedWith(le, a, Insert(le, t, ts)) == TiedWith(le, a, [t]) + TiedWith(le, a, ts)
  {
    if ts == [] || le(t, ts[0]) {
      assert ([t] + ts)[1..] == ts;
    } else {
      InsertIsStable(le, a, t, ts[1..]);
      var r := Insert(le, t, ts[1..]);
      assert ([ts[0]] + r)[1..] == r;
      assert TiedWith(le, a, [t]) == [] || TiedWith(le, a, [ts[0]]) == [];
    }
  }

  lemma {:induction false} SortIsStable(le: Order, a: Target, ts: seq<Target>)
    requires IsCollation(le)
    ensures TiedWith(le, a, Sort(le, ts)) == TiedWith(le, a, ts)
  {
    if ts != [] {
      SortIsStable(le, a, ts[1..]);
      InsertIsStable(le, a, ts[0], Sort(le, ts[1..]));
    }
  }

  lemma {:induction false} UniqueStartsAlike(first: Target, rest: seq<Target>)
    ensures Unique([first] + rest) != [] && Unique([first] + rest)[0] == first
  {
    if rest != [] {
      var ts := [first] + rest;
      assert ts[..|ts| - 1] == [first] + rest[..|rest| - 1];
      UniqueStartsAlike(first, rest[..|rest| - 1]);
    }
  }

  lemma TieFollowsOrder(le: Order, a: Target, b: Target, rest: seq<Target>)
    requires IsCollation(le) && le(a, b) && le(b, a)
    ensures TiedWith(le, a, Canonical(le, [b] + rest)) != [] && TiedWith(le, a, Canonical(le, [b] + rest))[0] == b
  {
    UniqueStartsAlike(b, rest);
    SortIsStable(le, a, Unique([b] + rest));
  }

  /** The targets of a set in some order. */
  lemma {:induction false} Listing(s: set<Target>) returns (ts: seq<Target>)
    ensures TargetsIn(ts) == s
    decreases s
  {
    if s == {} {
      ts := [];
    } else {
      var t :| t in s;
      var rest := Listing(s - {t});
      ts := [t] + rest;
      assert forall u :: u in ts <==> u == t || u in TargetsIn(rest);
    }
  }

  ghost predicate FormIgnoresOrder(le: Order, s: set<Target>) {
    forall a, b :: TargetsIn(a) == s && TargetsIn(b) == s ==> Canonical(le, a) == Canonical(le, b)
  }

  /** The order a caller lists a set of targets in is immaterial exactly when the collation tells them apart. */
  lemma OrderIsImmaterialIff(le: Order, s: set<Target>)
    requires IsCollation(le)
    ensures FormIgnoresOrder(le, s) <==> TellsApart(le, s)
  {
    if TellsApart(le, s) {
      forall a, b | TargetsIn(a) == s && TargetsIn(b) == s
        ensures Canonical(le, a) == Canonical(le, b)
      {
        SameFormIffSameTargets(le, a, b);
      }
    } else {
      var a, b :| a in s && b in s && le(a, b) && le(b, a) && a != b;
      var ts := Listing(s);
      assert TargetsIn([a] + ts) == s == TargetsIn([b] + ts);
      TieFollowsOrder(le, a, a, ts);
      TieFollowsOrder(le, a, b, ts);
      assert Canonical(le, [a] + ts) != Canonical(le, [b] + ts);
    }
  }

  // --- A collation that ties two targets -----------------------------------------------------------------------

  /** A soft hyphen, which collations ignore. */
  const SOFT_HYPHEN: char := '\U{00AD}'

  function Visible(s: string): string {
    if s == "" then "" else (if s[0] == SOFT_HYPHEN then "" else [s[0]]) + Visible(s[1..])
  }

  /** Origins first, then path prefixes, soft hyphens aside. */
  predicate VisiblyBefore(a: Target, b: Target) {
    if Visible(a.origin) == Visible(b.origin) then Ordering.LexLe(Visible(a.pathPrefix), Visible(b.pathPrefix))
    else Ordering.LexLe(Visible(a.origin), Visible(b.origin))
  }

  const VISIBLE_ORDER: Order := (a, b) => VisiblyBefore(a, b)

  lemma VisibleOrderIsCollation()
    ensures IsCollation(VISIBLE_ORDER)
  {
    forall a, b
      ensures VisiblyBefore(a, b) || VisiblyBefore(b, a)
    {
      Ordering.LexTotal(Visible(a.origin), Visible(b.origin));
      Ordering.LexTotal(Visible(a.pathPrefix), Visible(b.pathPrefix));
    }
    forall a, b, c | VisiblyBefore(a, b) && VisiblyBefore(b, c)
      ensures VisiblyBefore(a, c)
    {
      VisiblyTransitive(a, b, c);
    }
  }

  lemma VisiblyTransitive(a: Target, b: Target, c: Target)
    requires VisiblyBefore(a, b) && VisiblyBefore(b, c)
    ensures VisiblyBefore(a, c)
  {
    var x, y, z := Visible(a.origin), Visible(b.origin), Visible(c.origin);
    if x == y == z {
      Ordering.LexTransitive(Visible(a.pathPrefix), Visible(b.pathPrefix), Visible(c.pathPrefix));
    } else if x != y && y != z {
      Ordering.LexTransitive(x, y, z);
      if x == z {
        Ordering.LexAntisymmetric(x, y);
      }
    }
  }

  const PLAIN := Target("https://shop.example", "/")
  const HYPHENATED := Target("https://shop.example", ['/', SOFT_HYPHEN])

  /** Two distinct targets which that collation ties. */
  lemma SoftHyphenTies()
    ensures PLAIN != HYPHENATED && VISIBLE_ORDER(PLAIN, HYPHENATED) && VISIBLE_ORDER(HYPHENATED, PLAIN)
  {
    var hyphen := [SOFT_HYPHEN];
    assert hyphen[1..] == "" && Visible(hyphen) == "";
    assert HYPHENATED.pathPrefix[1..] == hyphen && PLAIN.pathPrefix[1..] == "";
    assert Visible(HYPHENATED.pathPrefix) == ['/'] == Visible(PLAIN.pathPrefix);
    Ordering.LexTotal(['/'], ['/']);
  }

  /** The canonical form of two tied targets is in the order they are listed in. */
  lemma TieShows(le: Order, a: Target, b: Target)
    requires IsCollation(le) && le(a, b) && le(b, a) && a != b
    ensures Canonical(le, [a, b]) != Canonical(le, [b, a])
  {
    TieFollowsOrder(le, a, a, [b]);
    TieFollowsOrder(le, a, b, [a]);
    assert [a] + [b] == [a, b] && [b] + [a] == [b, a];
  }
}
