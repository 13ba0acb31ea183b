/**
 Accounting for a conformance run: every fixture must be reported exactly once, as passed or as not applicable by
 declaration. account adds no problem exactly when the records match the fixtures one to one in that way.
 */
module Accounting {
  import opened Ordering

  datatype Status = Passed | NotApplicable | OtherStatus(text: string)

  datatype Record = Record(id: string, status: Status, deviates: bool)

  datatype Problem =
    | UnknownFixture(id: string)
    | NotDeclared(id: string)
    | BadStatus(id: string, text: string)
    | Duplicated(ids: seq<string>)
    | Missing(ids: seq<string>)

  /** Each fixture with the languages that declare it inapplicable. */
  type Fixtures = map<string, set<string>>

  // --- What is expected ----------------------------------------------------------------------------------------

  /** The record is about a fixture and has a status that counts. */
  predicate Legal(language: string, fixtures: Fixtures, r: Record) {
    && r.id in fixtures
    && (r.status == Passed || (r.status == NotApplicable && language in fixtures[r.id]))
  }

  predicate AllLegal(language: string, fixtures: Fixtures, records: seq<Record>) {
    forall r :: r in records ==> Legal(language, fixtures, r)
  }

  predicate DistinctIds(records: seq<Record>) {
    forall i, j :: 0 <= i < j < |records| ==> records[i].id != records[j].id
  }

  function Ids(records: seq<Record>): set<string> {
    set r | r in records :: r.id
  }

  /** The records match the fixtures one to one, with legal statuses. */
  predicate Matches(language: string, fixtures: Fixtures, records: seq<Record>) {
    && AllLegal(language, fixtures, records)
    && DistinctIds(records)
    && fixtures.Keys == Ids(records)
  }

  // --- What is counted -----------------------------------------------------------------------------------------

  predicate CountsAsPassed(fixtures: Fixtures, r: Record) {
    r.id in fixtures && r.status == Passed
  }

  predicate CountsAsNotApplicable(language: string, fixtures: Fixtures, r: Record) {
    r.id in fixtures && r.status == NotApplicable && language in fixtures[r.id]
  }

  function PassedIn(fixtures: Fixtures, records: seq<Record>): nat {
    if records == [] then 0
    else PassedIn(fixtures, records[..|records| - 1])
         + (if CountsAsPassed(fixtures, records[|records| - 1]) then 1 else 0)
  }

  function NotApplicableIn(language: string, fixtures: Fixtures, records: seq<Record>): nat {
    if records == [] then 0
    else NotApplicableIn(language, fixtures, records[..|records| - 1])
         + (if CountsAsNotApplicable(language, fixtures, records[|records| - 1]) then 1 else 0)
  }

  function DeviationsIn(fixtures: Fixtures, records: seq<Record>): nat {
    if records == [] then 0
    else DeviationsIn(fixtures, records[..|records| - 1])
         + (if CountsAsPassed(fixtures, records[|records| - 1]) && records[|records| - 1].deviates then 1 else 0)
  }

  function ProblemOf(language: string, fixtures: Fixtures, r: Record): seq<Problem> {
    if r.id !in fixtures then [UnknownFixture(r.id)]
    else match r.status
      case Passed => []
      case NotApplicable => if language in fixtures[r.id] then [] else [NotDeclared(r.id)]
      case OtherStatus(text) => [BadStatus(r.id, text)]
  }

  /** One problem for each record that is not legal, in the order of the records. */
  function ProblemsOf(language: string, fixtures: Fixtures, records: seq<Record>): seq<Problem> {
    if records == [] then []
    else ProblemsOf(language, fixtures, records[..|records| - 1])
         + ProblemOf(language, fixtures, records[|records| - 1])
  }

  function Occurrences(id: string, records: seq<Record>): nat {
    if records == [] then 0
    else Occurrences(id, records[..|records| - 1]) + (if records[|records| - 1].id == id then 1 else 0)
  }

  /** A sorted list of the elements of a set. */
  ghost predicate IsSortedList(ids: seq<string>, s: set<string>) {
    Sorted(ids) && multiset(ids) == multiset(s)
  }

  method SortedList(s: set<string>) returns (ids: seq<string>)
    ensures IsSortedList(ids, s)
  {
    var found: seq<string> := [];
    var left := s;
    while left != {}
      invariant left <= s && multiset(found) == multiset(s - left)
      decreases left
    {
      var id :| id in left;
      assert s - (left - {id}) == (s - left) + {id};
      found := found + [id];
      left := left - {id};
    }
    assert s - left == s;
    ids := SortStrings(found);
    SortIsSorted(found);
  }

  // --- account -------------------------------------------------------------------------------------------------

  class Outcome {
    var passed: nat
    var notApplicable: nat
    var deviations: nat
    var problems: seq<Problem>
  }

  /** The problems account adds: those of the records, then the ids seen more than once, then the fixtures not seen. */
  ghost predicate Reports(
    added: seq<Problem>, language: string, fixtures: Fixtures, records: seq<Record>)
  {
    exists twice: seq<string>, missing: seq<string> ::
      && IsSortedList(twice, Repeated(records))
      && IsSortedList(missing, fixtures.Keys - Ids(records))
      && added == ProblemsOf(language, fixtures, records) + Rest(twice, missing)
  }

  function Rest(twice: seq<string>, missing: seq<string>): seq<Problem> {
    (if twice == [] then [] else [Duplicated(twice)]) + (if missing == [] then [] else [Missing(missing)])
  }

  function Repeated(records: seq<Record>): set<string> {
    set id | id in Ids(records) && Occurrences(id, records) > 1
  }

  /** An outcome by value. */
  datatype Totals = Totals(passed: nat, notApplicable: nat, deviations: nat, problems: seq<Problem>)

  /** What an outcome has become after the records. */
  function TotalsAfter(base: Totals, language: string, fixtures: Fixtures, records: seq<Record>): Totals {
    Totals(base.passed + PassedIn(fixtures, records),
           base.notApplicable + NotApplicableIn(language, fixtures, records),
           base.deviations + DeviationsIn(fixtures, records),
           base.problems + ProblemsOf(language, fixtures, records))
  }

  /** How often each id has been seen. */
  ghost predicate Seen(seen: map<string, nat>, records: seq<Record>) {
    && seen.Keys == Ids(records)
    && forall id :: id in seen ==> seen[id] == Occurrences(id, records)
  }

  lemma IdsSnoc(front: seq<Record>, last: Record)
    ensures Ids(front + [last]) == Ids(front) + {last.id}
  {
  }

  lemma {:induction false} NotSeen(id: string, records: seq<Record>)
    ensures id in Ids(records) <==> Occurrences(id, records) > 0
  {
    if records != [] {
      var front, last := records[..|records| - 1], records[|records| - 1];
      assert records == front + [last];
      NotSeen(id, front);
      IdsSnoc(front, last);
    }
  }

  lemma SeenOneMore(seen: map<string, nat>, front: seq<Record>, last: Record)
    requires Seen(seen, front)
    ensures Seen(seen[last.id := (if last.id in seen then seen[last.id] else 0) + 1], front + [last])
  {
    var records := front + [last];
    assert records[..|records| - 1] == front;
    IdsSnoc(front, last);
    NotSeen(last.id, front);
  }

  function OneMore(t: Totals, language: string, fixtures: Fixtures, r: Record): Totals {
    Totals(t.passed + (if CountsAsPassed(fixtures, r) then 1 else 0),
           t.notApplicable + (if CountsAsNotApplicable(language, fixtures, r) then 1 else 0),
           t.deviations + (if CountsAsPassed(fixtures, r) && r.deviates then 1 else 0),
           t.problems + ProblemOf(language, fixtures, r))
  }

  lemma TotalsOneMore(base: Totals, language: string, fixtures: Fixtures, front: seq<Record>, last: Record)
    ensures TotalsAfter(base, language, fixtures, front + [last])
         == OneMore(TotalsAfter(base, language, fixtures, front), language, fixtures, last)
  {
    var records := front + [last];
    assert records[..|records| - 1] == front;
    Appended(base.problems, ProblemsOf(language, fixtures, front), ProblemOf(language, fixtures, last));
  }

  /** One round of the loop of account: the branch on the status of the record. */
  method AccountRecord(language: string, fixtures: Fixtures, record: Record, outcome: Outcome)
    modifies outcome
    ensures outcome.passed == old(outcome.passed) + (if CountsAsPassed(fixtures, record) then 1 else 0)
    ensures outcome.notApplicable
            == old(outcome.notApplicable) + (if CountsAsNotApplicable(language, fixtures, record) then 1 else 0)
    ensures outcome.deviations
            == old(outcome.deviations) + (if CountsAsPassed(fixtures, record) && record.deviates then 1 else 0)
    ensures outcome.problems == old(outcome.problems) + ProblemOf(language, fixtures, record)
  {
    var id := record.id;
    if id !in fixtures {
      outcome.problems := outcome.problems + [UnknownFixture(id)];
    } else if record.status == Passed {
      outcome.passed := outcome.passed + 1;
      if record.deviates {
        outcome.deviations := outcome.deviations + 1;
      }
    } else if record.status == NotApplicable {
      if language in fixtures[id] {
        outcome.notApplicable := outcome.notApplicable + 1;
      } else {
        outcome.problems := outcome.problems + [NotDeclared(id)];
      }
    } else {
      outcome.problems := outcome.problems + [BadStatus(id, record.status.text)];
    }
  }

  /** seen[id] = seen.get(id, 0) + 1. */
  method CountId(seen: map<string, nat>, ghost front: seq<Record>, record: Record) returns (more: map<string, nat>)
    requires Seen(seen, front)
    ensures Seen(more, front + [record])
  {
    more := seen[record.id := (if record.id in seen then seen[record.id] else 0) + 1];
    SeenOneMore(seen, front, record);
  }

  method Tally(language: string, fixtures: Fixtures, records: seq<Record>, outcome: Outcome)
    returns (seen: map<string, nat>)
    modifies outcome
    ensures Seen(seen, records)
    ensures outcome.passed == old(outcome.passed) + PassedIn(fixtures, records)
    ensures outcome.notApplicable == old(outcome.notApplicable) + NotApplicableIn(language, fixtures, records)
    ensures outcome.deviations == old(outcome.deviations) + DeviationsIn(fixtures, records)
    ensures outcome.problems == old(outcome.problems) + ProblemsOf(language, fixtures, records)
  {
    seen := map[];
    ghost var base := Totals(outcome.passed, outcome.notApplicable, outcome.deviations, outcome.problems);
    assert TotalsAfter(base, language, fixtures, []) == base;
    for i := 0 to |records|
      invariant Seen(seen, records[..i])
      invariant TotalsAfter(base, language, fixtures, records[..i])
             == Totals(outcome.passed, outcome.notApplicable, outcome.deviations, outcome.problems)
    {
      assert records[..i + 1] == records[..i] + [records[i]];
      TotalsOneMore(base, language, fixtures, records[..i], records[i]);
      seen := CountId(seen, records[..i], records[i]);
      AccountRecord(language, fixtures, records[i], outcome);
    }
    assert records[..|records|] == records;
  }

  /** The last two steps of account. */
  method ReportTheRest(fixtures: Fixtures, records: seq<Record>, seen: map<string, nat>, outcome: Outcome)
    returns (ghost twice: seq<string>, ghost absent: seq<string>)
    requires Seen(seen, records)
    modifies outcome`problems
    ensures IsSortedList(twice, Repeated(records)) && IsSortedList(absent, fixtures.Keys - Ids(records))
    ensures outcome.problems == old(outcome.problems) + Rest(twice, absent)
  {
    var duplicates := SortedList(set id | id in seen && seen[id] > 1);
    assert (set id | id in seen && seen[id] > 1) == Repeated(records);
    var missing := SortedList(fixtures.Keys - seen.Keys);
    if duplicates != [] {
      outcome.problems := outcome.problems + [Duplicated(duplicates)];
    }
    if missing != [] {
      outcome.problems := outcome.problems + [Missing(missing)];
    }
    twice, absent := duplicates, missing;
  }

  method Account(language: string, fixtures: Fixtures, records: seq<Record>, outcome: Outcome)
    modifies outcome
    ensures outcome.passed == old(outcome.passed) + PassedIn(fixtures, records)
    ensures outcome.notApplicable == old(outcome.notApplicable) + NotApplicableIn(language, fixtures, records)
    ensures outcome.deviations == old(outcome.deviations) + DeviationsIn(fixtures, records)
    ensures exists added ::
              && Reports(added, language, fixtures, records)
              && outcome.problems == old(outcome.problems) + added
    ensures outcome.problems == old(outcome.problems) <==> Matches(language, fixtures, records)
  {
    ghost var before := outcome.problems;
    var seen := Tally(language, fixtures, records, outcome);
    ghost var reported := ProblemsOf(language, fixtures, records);
    ghost var twice, absent := ReportTheRest(fixtures, records, seen, outcome);
    ReportsJoined(language, fixtures, records, twice, absent);
    Appended(before, reported, Rest(twice, absent));
    NoneAddedIffMatches(language, fixtures, records, reported + Rest(twice, absent));
  }

  lemma ReportsJoined(
    language: string, fixtures: Fixtures, records: seq<Record>, twice: seq<string>, missing: seq<string>)
    requires IsSortedList(twice, Repeated(records)) && IsSortedList(missing, fixtures.Keys - Ids(records))
    ensures Reports(ProblemsOf(language, fixtures, records) + Rest(twice, missing), language, fixtures, records)
  {
  }

  lemma Appended(before: seq<Problem>, first: seq<Problem>, second: seq<Problem>)
    ensures before + first + second == before + (first + second)
    ensures before + first + second == before <==> first + second == []
  {
  }

  // --- No problem is added exactly when the records match the fixtures --------------------------------------------

  lemma {:induction false} NoProblemsIffLegal(language: string, fixtures: Fixtures, records: seq<Record>)
    ensures ProblemsOf(language, fixtures, records) == [] <==>
            AllLegal(language, fixtures, records)
  {
    if records != [] {
      var front, last := records[..|records| - 1], records[|records| - 1];
      assert records == front + [last];
      NoProblemsIffLegal(language, fixtures, front);
      assert ProblemOf(language, fixtures, last) == [] <==> Legal(language, fixtures, last);
    }
  }

  lemma {:induction false} OccursAt(records: seq<Record>, i: nat)
    requires i < |records|
    ensures Occurrences(records[i].id, records) >= 1
  {
    var front := records[..|records| - 1];
    if i < |front| {
      OccursAt(front, i);
    }
  }

  lemma {:induction false} OccursTwice(records: seq<Record>, i: nat, j: nat)
    requires i < j < |records| && records[i].id == records[j].id
    ensures Occurrences(records[i].id, records) >= 2
  {
    var front := records[..|records| - 1];
    if j < |front| {
      OccursTwice(front, i, j);
    } else {
      OccursAt(front, i);
    }
  }

  lemma {:induction false} DistinctOccurOnce(records: seq<Record>, id: string)
    requires DistinctIds(records)
    ensures Occurrences(id, records) <= 1
  {
    if records != [] {
      var front, last := records[..|records| - 1], records[|records| - 1];
      NewId(front, last);
      DistinctOccurOnce(front, id);
      NotSeen(id, front);
    }
  }

  lemma NoRepeatsIffDistinct(records: seq<Record>)
    ensures Repeated(records) == {} <==> DistinctIds(records)
  {
    if !DistinctIds(records) {
      var i, j :| 0 <= i < j < |records| && records[i].id == records[j].id;
      OccursTwice(records, i, j);
      assert records[i] in records;
      assert records[i].id in Repeated(records);
    } else if Repeated(records) != {} {
      var id :| id in Repeated(records);
      DistinctOccurOnce(records, id);
    }
  }

  lemma NoneAddedIffMatches(language: string, fixtures: Fixtures, records: seq<Record>, added: seq<Problem>)
    requires Reports(added, language, fixtures, records)
    ensures added == [] <==> Matches(language, fixtures, records)
  {
    var twice, missing :| IsSortedList(twice, Repeated(records))
                          && IsSortedList(missing, fixtures.Keys - Ids(records))
                          && added == ProblemsOf(language, fixtures, records) + Rest(twice, missing);
    NoProblemsIffLegal(language, fixtures, records);
    NothingElseIff(fixtures, records, twice, missing);
    MatchesIff(language, fixtures, records);
  }

  lemma MatchesIff(language: string, fixtures: Fixtures, records: seq<Record>)
    ensures Matches(language, fixtures, records) <==>
            AllLegal(language, fixtures, records) && DistinctIds(records) && fixtures.Keys <= Ids(records)
  {
  }

  lemma NothingElseIff(fixtures: Fixtures, records: seq<Record>, twice: seq<string>, missing: seq<string>)
    requires IsSortedList(twice, Repeated(records)) && IsSortedList(missing, fixtures.Keys - Ids(records))
    ensures Rest(twice, missing) == [] <==> DistinctIds(records) && fixtures.Keys <= Ids(records)
  {
    EmptyList(twice, Repeated(records));
    EmptyList(missing, fixtures.Keys - Ids(records));
    NoRepeatsIffDistinct(records);
    var absent := fixtures.Keys - Ids(records);
    if absent == {} {
      assert forall id :: id in fixtures.Keys && id !in Ids(records) ==> id in absent;
    }
  }

  lemma EmptyList(ids: seq<string>, s: set<string>)
    requires IsSortedList(ids, s)
    ensures ids == [] <==> s == {}
  {
  }

  // --- What is counted and reported, record by record ------------------------------------------------------------

  function Count(p: Record -> bool, records: seq<Record>): nat {
    if records == [] then 0
    else Count(p, records[..|records| - 1]) + (if p(records[|records| - 1]) then 1 else 0)
  }

  /** The number of places that have the property. */
  lemma {:induction false} CountIsPlaces(p: Record -> bool, records: seq<Record>)
    ensures Count(p, records) == |set i | 0 <= i < |records| && p(records[i])|
  {
    if records != [] {
      var front, n := records[..|records| - 1], |records| - 1;
      CountIsPlaces(p, front);
      var few, all := set i | 0 <= i < |front| && p(front[i]), set i | 0 <= i < |records| && p(records[i]);
      assert n !in few && (if p(records[n]) then all == few + {n} else all == few);
    }
  }

  /** Passes and inapplicable declarations count for known fixtures alone, and deviations for such passes. */
  lemma {:induction false} CountsSay(language: string, fixtures: Fixtures, records: seq<Record>)
    ensures PassedIn(fixtures, records) == Count((r: Record) => r.id in fixtures && r.status == Passed, records)
    ensures NotApplicableIn(language, fixtures, records)
         == Count((r: Record) => r.id in fixtures && r.status == NotApplicable && language in fixtures[r.id], records)
    ensures DeviationsIn(fixtures, records)
         == Count((r: Record) => r.id in fixtures && r.status == Passed && r.deviates, records)
  {
    if records != [] {
      CountsSay(language, fixtures, records[..|records| - 1]);
    }
  }

  /** A record has at most one problem, which names it and says what is wrong with it. */
  lemma ProblemSays(language: string, fixtures: Fixtures, r: Record)
    ensures ProblemOf(language, fixtures, r) == [UnknownFixture(r.id)] <==> r.id !in fixtures
    ensures ProblemOf(language, fixtures, r) == [NotDeclared(r.id)] <==>
            r.id in fixtures && r.status == NotApplicable && language !in fixtures[r.id]
    ensures forall text :: ProblemOf(language, fixtures, r) == [BadStatus(r.id, text)] <==>
              r.id in fixtures && r.status == OtherStatus(text)
    ensures ProblemOf(language, fixtures, r) == [] <==> Legal(language, fixtures, r)
  {
  }

  // --- A clean run accounts for every fixture ------------------------------------------------------------------

  function IdsThat(records: seq<Record>, status: Status): set<string> {
    set r | r in records && r.status == status :: r.id
  }

  lemma IdsThatSnoc(front: seq<Record>, last: Record, status: Status)
    ensures IdsThat(front + [last], status)
         == if last.status == status then IdsThat(front, status) + {last.id} else IdsThat(front, status)
  {
  }

  lemma NewId(front: seq<Record>, last: Record)
    requires DistinctIds(front + [last])
    ensures DistinctIds(front) && last.id !in Ids(front)
  {
    var records := front + [last];
    assert forall i :: 0 <= i < |front| ==> front[i] == records[i];
    forall r | r in front
      ensures r.id != last.id
    {
      var i :| 0 <= i < |front| && front[i] == r;
      assert records[i].id != records[|front|].id;
    }
  }

  lemma {:induction false} PassedAddUp(language: string, fixtures: Fixtures, records: seq<Record>)
    requires DistinctIds(records) && AllLegal(language, fixtures, records)
    ensures PassedIn(fixtures, records) == |IdsThat(records, Passed)|
  {
    if records != [] {
      var front, last := records[..|records| - 1], records[|records| - 1];
      assert records == front + [last];
      NewId(front, last);
      PassedAddUp(language, fixtures, front);
      IdsThatSnoc(front, last, Passed);
      assert last.id !in IdsThat(front, Passed);
      assert Legal(language, fixtures, last);
    }
  }

  lemma OneStatusEach(records: seq<Record>)
    requires DistinctIds(records)
    ensures IdsThat(records, Passed) !! IdsThat(records, NotApplicable)
  {
  }

  lemma EachHasAStatus(language: string, fixtures: Fixtures, records: seq<Record>)
    requires AllLegal(language, fixtures, records)
    ensures IdsThat(records, Passed) + IdsThat(records, NotApplicable) == Ids(records)
  {
  }

  /** In a clean run, passed and not applicable add up to the fixtures, and each fixture is one or the other. */
  lemma CleanRunAccountsForAll(language: string, fixtures: Fixtures, records: seq<Record>)
    requires Matches(language, fixtures, records)
    ensures PassedIn(fixtures, records) + NotApplicableIn(language, fixtures, records) == |fixtures|
    ensures IdsThat(records, Passed) !! IdsThat(records, NotApplicable)
    ensures IdsThat(records, Passed) + IdsThat(records, NotApplicable) == fixtures.Keys
    ensures PassedIn(fixtures, records) == |IdsThat(records, Passed)|
    ensures |records| == |fixtures|
    ensures forall r :: r in records ==>
              r.status == Passed || (r.status == NotApplicable && language in fixtures[r.id])
  {
    assert forall r :: r in records ==> Legal(language, fixtures, r);
    PassedAddUp(language, fixtures, records);
    OneStatusEach(records);
    EachHasAStatus(language, fixtures, records);
    EachCountsOnce(language, fixtures, records);
    DistinctCount(records);
  }

  lemma {:induction false} EachCountsOnce(language: string, fixtures: Fixtures, records: seq<Record>)
    requires AllLegal(language, fixtures, records)
    ensures PassedIn(fixtures, records) + NotApplicableIn(language, fixtures, records) == |records|
  {
    if records != [] {
      var front, last := records[..|records| - 1], records[|records| - 1];
      assert records == front + [last];
      EachCountsOnce(language, fixtures, front);
      assert Legal(language, fixtures, last);
    }
  }

  lemma {:induction false} DistinctCount(records: seq<Record>)
    requires DistinctIds(records)
    ensures |Ids(records)| == |records|
  {
    if records != [] {
      var front, last := records[..|records| - 1], records[|records| - 1];
      assert records == front + [last];
      NewId(front, last);
      DistinctCount(front);
      IdsSnoc(front, last);
    }
  }
}
