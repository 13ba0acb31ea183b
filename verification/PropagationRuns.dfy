/**
 What automatic propagation can do in a run: any sequence of enabling, disabling with any handle ever returned, opening,
 setting headers, sending and fetching. The claims are about the log of what the browser saw, read without the
 wrappers' own flags: the visitor header goes out at most once per open and only for an allowed URL. It follows a header
 the page set since that open only when an event handler set it before open returned, which the wrapper cannot see.
 */
module PropagationRuns {
  import opened Results
  import opened AllowedTargets
  import opened AutoPropagation

  datatype Step =
    | Enable(requested: seq<Requested>)
    | Disable(handle: nat)
    | Open(xhr: Xhr, url: Option<Url>, ok: bool, handlerSets: bool)
    | SetHeader(xhr: Xhr, isVisitor: bool, ok: bool)
    | Send(xhr: Xhr, visitorId: Option<string>, headerOk: bool, sendOk: bool)
    | Fetch(request: Option<Request>, visitorId: Option<string>, copies: bool)

  function Next(le: Order, s: Propagation, step: Step): Propagation {
    match step
    case Enable(requested) => AfterEnable(le, s, requested)
    case Disable(handle) => AfterDisable(s, handle)
    case Open(xhr, url, ok, handlerSets) => if ok then AfterOpen(s, xhr, url, handlerSets) else s
    case SetHeader(xhr, isVisitor, ok) => if ok && isVisitor then AfterHeader(s, xhr) else s
    case Send(xhr, visitorId, headerOk, sendOk) => AfterSend(s, xhr, visitorId, headerOk, sendOk)
    case Fetch(request, visitorId, copies) => AfterFetch(s, request, visitorId, copies)
  }

  function Run(le: Order, s: Propagation, steps: seq<Step>): Propagation {
    if steps == [] then s
    else Next(le, Run(le, s, steps[..|steps| - 1]), steps[|steps| - 1])
  }

  // --- Reading the log -----------------------------------------------------------------------------------------

  /** What has happened to a request object since it was last opened. */
  datatype Truth = Truth(url: Option<Url>, returned: bool, setInside: bool, setAfter: bool, injected: bool)

  function TruthStep(t: Option<Truth>, e: Event, xhr: Xhr): Option<Truth> {
    match e
    case Opened(x, url) => if x == xhr then Some(Truth(url, false, false, false, false)) else t
    case Returned(x, _) => if x == xhr && t.Some? then Some(t.value.(returned := true)) else t
    case HeaderSet(x) =>
      if x != xhr || t.None? then t
      else if t.value.returned then Some(t.value.(setAfter := true))
      else Some(t.value.(setInside := true))
    case Injected(x, _) => if x == xhr && t.Some? then Some(t.value.(injected := true)) else t
    case _ => t
  }

  function SinceOpen(log: seq<Event>, xhr: Xhr): Option<Truth> {
    if log == [] then None else TruthStep(SinceOpen(log[..|log| - 1], xhr), log[|log| - 1], xhr)
  }

  /** What the wrappers of the last installation can know. */
  function KnownStep(k: Option<XhrState>, e: Event, xhr: Xhr): Option<XhrState> {
    match e
    case Installed(_) => None
    case Returned(x, url) => if x == xhr then Some(XhrState(url, false, false)) else k
    case HeaderSet(x) => if x == xhr && k.Some? then Some(k.value.(explicit := true)) else k
    case Injected(x, _) => if x == xhr && k.Some? then Some(k.value.(injected := true)) else k
    case _ => k
  }

  function Known(log: seq<Event>, xhr: Xhr): Option<XhrState> {
    if log == [] then None else KnownStep(Known(log[..|log| - 1], xhr), log[|log| - 1], xhr)
  }

  /** The allowlist of the last installation. */
  function TargetsAt(log: seq<Event>): seq<Target> {
    if log == [] then []
    else if log[|log| - 1].Installed? then log[|log| - 1].targets
    else TargetsAt(log[..|log| - 1])
  }

  /** The allowlist of the installation there is. */
  function InForce(log: seq<Event>): Option<seq<Target>> {
    if log == [] then None
    else match log[|log| - 1]
      case Installed(targets) => Some(targets)
      case Removed => None
      case _ => InForce(log[..|log| - 1])
  }

  lemma Snoc(log: seq<Event>, e: Event)
    ensures InForce(log + [e]) == match e case Installed(ts) => Some(ts) case Removed => None case _ => InForce(log)
    ensures AllFetchedRightly(log + [e]) <==> AllFetchedRightly(log) && (e.Fetched? ==> FetchedRightly(log, e))
    ensures forall xhr :: SinceOpen(log + [e], xhr) == TruthStep(SinceOpen(log, xhr), e, xhr)
    ensures forall xhr :: Known(log + [e], xhr) == KnownStep(Known(log, xhr), e, xhr)
    ensures TargetsAt(log + [e]) == if e.Installed? then e.targets else TargetsAt(log)
    ensures AllJustified(log + [e]) <==> AllJustified(log) && (e.Injected? ==> Justified(log, e.xhr))
  {
  }

  // --- The invariant -------------------------------------------------------------------------------------------

  /** The visitor header may go out for this request object now. */
  ghost predicate Justified(log: seq<Event>, xhr: Xhr) {
    var t := SinceOpen(log, xhr);
    && t.Some? && t.value.returned && !t.value.setAfter && !t.value.injected
    && t.value.url.Some? && MatchesAllowedTarget(TargetsAt(log), t.value.url.value)
  }

  ghost predicate AllJustified(log: seq<Event>) {
    log != [] ==>
      && AllJustified(log[..|log| - 1])
      && (log[|log| - 1].Injected? ==> Justified(log[..|log| - 1], log[|log| - 1].xhr))
  }

  /**
   The browser got the page's request, with the visitor header added exactly if an installation's allowlist allows the
   URL, the request had no such header and there was a visitor.
   */
  ghost predicate FetchedRightly(log: seq<Event>, e: Event)
    requires e.Fetched?
  {
    && e.passed.url == e.given.url
    && e.passed.visitor == if InForce(log).Some? && Allows(InForce(log).value, e.given.url) && e.given.visitor.None?
                           then e.visitor else e.given.visitor
  }

  ghost predicate AllFetchedRightly(log: seq<Event>) {
    log != [] ==>
      && AllFetchedRightly(log[..|log| - 1])
      && (log[|log| - 1].Fetched? ==> FetchedRightly(log[..|log| - 1], log[|log| - 1]))
  }

  /** What a wrapper can know of a request object is true of it. */
  ghost predicate KnownIsTrue(log: seq<Event>, xhr: Xhr) {
    var k, t := Known(log, xhr), SinceOpen(log, xhr);
    k.Some? ==>
      && t.Some? && t.value.returned && t.value.url == k.value.url
      && t.value.setAfter == k.value.explicit && t.value.injected == k.value.injected
  }

  function Recorded(states: map<Xhr, XhrState>, xhr: Xhr): Option<XhrState> {
    if xhr in states then Some(states[xhr]) else None
  }

  ghost predicate Matching(s: Propagation) {
    && InForce(s.log) == (if s.current.Some? then Some(s.current.value.targets) else None)
    && (s.current.Some? ==>
      && s.current.value.handle < s.handles
      && s.current.value.targets == TargetsAt(s.log)
      && forall xhr :: Recorded(s.current.value.states, xhr) == Known(s.log, xhr))
  }

  ghost predicate Sound(s: Propagation) {
    && Matching(s)
    && AllTrue(s.log)
    && AllJustified(s.log)
    && AllFetchedRightly(s.log)
  }

  ghost predicate AllTrue(log: seq<Event>) {
    forall xhr :: KnownIsTrue(log, xhr)
  }

  lemma StaysTrue(log: seq<Event>, e: Event)
    requires AllTrue(log) && !e.Opened? && !e.Returned?
    ensures AllTrue(log + [e])
  {
    Snoc(log, e);
    forall xhr
      ensures KnownIsTrue(log + [e], xhr)
    {
      assert KnownIsTrue(log, xhr);
    }
  }

  lemma HeaderKeepsSound(s: Propagation, xhr: Xhr)
    requires Sound(s)
    ensures Sound(AfterHeader(s, xhr))
  {
    Snoc(s.log, HeaderSet(xhr));
    StaysTrue(s.log, HeaderSet(xhr));
  }

  /** What open adds to the log. */
  function OpenEvents(xhr: Xhr, url: Option<Url>, handlerSets: bool): seq<Event> {
    [Event.Opened(xhr, url)] + (if handlerSets then [HeaderSet(xhr)] else []) + [Returned(xhr, url)]
  }

  lemma OpenLogs(log: seq<Event>, xhr: Xhr, url: Option<Url>, handlerSets: bool)
    ensures var after := log + OpenEvents(xhr, url, handlerSets);
            && SinceOpen(after, xhr) == Some(Truth(url, true, handlerSets, false, false))
            && Known(after, xhr) == Some(XhrState(url, false, false))
            && (forall x :: x != xhr ==> SinceOpen(after, x) == SinceOpen(log, x))
            && (forall x :: x != xhr ==> Known(after, x) == Known(log, x))
            && TargetsAt(after) == TargetsAt(log) && InForce(after) == InForce(log)
            && (AllFetchedRightly(after) <==> AllFetchedRightly(log))
            && (AllJustified(after) <==> AllJustified(log))
  {
    var begun := log + [Event.Opened(xhr, url)];
    var handled := if handlerSets then begun + [HeaderSet(xhr)] else begun;
    Snoc(log, Event.Opened(xhr, url));
    if handlerSets {
      Snoc(begun, HeaderSet(xhr));
    }
    Snoc(handled, Returned(xhr, url));
    assert log + OpenEvents(xhr, url, handlerSets) == handled + [Returned(xhr, url)];
  }

  lemma OpenAppends(s: Propagation, xhr: Xhr, url: Option<Url>, handlerSets: bool)
    ensures AfterOpen(s, xhr, url, handlerSets).log == s.log + OpenEvents(xhr, url, handlerSets)
    ensures AfterOpen(s, xhr, url, handlerSets).current.Some? <==> s.current.Some?
    ensures s.current.Some? ==>
              AfterOpen(s, xhr, url, handlerSets).current.value
              == s.current.value.(states := s.current.value.states[xhr := XhrState(url, false, false)])
  {
  }

  lemma OpenKeepsSound(s: Propagation, xhr: Xhr, url: Option<Url>, handlerSets: bool)
    requires Sound(s)
    ensures Sound(AfterOpen(s, xhr, url, handlerSets))
  {
    OpenLogs(s.log, xhr, url, handlerSets);
    OpenAppends(s, xhr, url, handlerSets);
    var after := AfterOpen(s, xhr, url, handlerSets);
    forall x
      ensures KnownIsTrue(after.log, x)
    {
      assert KnownIsTrue(s.log, x);
    }
  }

  lemma SendKeepsSound(s: Propagation, xhr: Xhr, visitorId: Option<string>, headerOk: bool, sendOk: bool)
    requires Sound(s)
    ensures Sound(AfterSend(s, xhr, visitorId, headerOk, sendOk))
  {
    var injected := s;
    if Injects(s, xhr, visitorId) {
      Snoc(s.log, Injected(xhr, visitorId.value));
      StaysTrue(s.log, Injected(xhr, visitorId.value));
      InjectsIsJustified(s, xhr, visitorId);
      injected := AfterInjection(s, xhr, visitorId.value);
      assert Sound(injected);
    }
    Snoc(s.log, Sent(xhr));
    StaysTrue(s.log, Sent(xhr));
    Snoc(injected.log, Sent(xhr));
    StaysTrue(injected.log, Sent(xhr));
  }

  lemma InjectsIsJustified(s: Propagation, xhr: Xhr, visitorId: Option<string>)
    requires Sound(s) && Injects(s, xhr, visitorId)
    ensures Justified(s.log, xhr)
  {
    assert Recorded(s.current.value.states, xhr) == Known(s.log, xhr);
    assert KnownIsTrue(s.log, xhr);
  }

  lemma FetchIsRight(s: Propagation, given: Request, visitorId: Option<string>, passed: Request)
    requires Sound(s) && PassedOn(s, Some(given), visitorId, true) == Some(passed)
    ensures Sound(Seen(s, Fetched(given, visitorId, passed)))
  {
    if s.current.Some? {
      MatchesIffAllows(s.current.value.targets, given.url);
    }
    Snoc(s.log, Fetched(given, visitorId, passed));
    StaysTrue(s.log, Fetched(given, visitorId, passed));
  }

  lemma NextKeepsSound(le: Order, s: Propagation, step: Step)
    requires Sound(s)
    ensures Sound(Next(le, s, step))
  {
    match step
    case Enable(requested) =>
      var targets := NormalizeAllowedTargets(le, requested);
      if targets.Ok? {
        Snoc(s.log, Installed(targets.value));
        StaysTrue(s.log, Installed(targets.value));
      }
    case Disable(_) =>
      Snoc(s.log, Removed);
      StaysTrue(s.log, Removed);
    case Open(xhr, url, ok, handlerSets) => OpenKeepsSound(s, xhr, url, handlerSets);
    case SetHeader(xhr, _, _) => HeaderKeepsSound(s, xhr);
    case Send(xhr, visitorId, headerOk, sendOk) => SendKeepsSound(s, xhr, visitorId, headerOk, sendOk);
    case Fetch(request, visitorId, copies) =>
      var passed := PassedOn(s, request, visitorId, copies);
      if passed.Some? {
        FetchIsRight(s, request.value, visitorId, passed.value);
      }
  }

  lemma {:induction false} RunIsSound(le: Order, steps: seq<Step>)
    ensures Sound(Run(le, START, steps))
  {
    if steps != [] {
      RunIsSound(le, steps[..|steps| - 1]);
      NextKeepsSound(le, Run(le, START, steps[..|steps| - 1]), steps[|steps| - 1]);
    }
  }

  // --- What the log then says, event by event ------------------------------------------------------------------

  /** The object was last opened at position o, for this URL. */
  ghost predicate LastOpened(log: seq<Event>, xhr: Xhr, o: nat, url: Option<Url>) {
    && o < |log| && log[o] == Event.Opened(xhr, url)
    && forall i :: o < i < |log| && log[i].Opened? ==> log[i].xhr != xhr
  }

  ghost predicate InjectedSince(log: seq<Event>, xhr: Xhr, o: nat) {
    exists i :: o < i < |log| && log[i].Injected? && log[i].xhr == xhr
  }

  ghost predicate PageSetSince(log: seq<Event>, xhr: Xhr, o: nat) {
    exists i :: o < i < |log| && log[i] == HeaderSet(xhr)
  }

  lemma SinceSnoc(log: seq<Event>, e: Event, xhr: Xhr, o: nat)
    requires o < |log|
    ensures InjectedSince(log + [e], xhr, o) <==> InjectedSince(log, xhr, o) || (e.Injected? && e.xhr == xhr)
    ensures PageSetSince(log + [e], xhr, o) <==> PageSetSince(log, xhr, o) || e == HeaderSet(xhr)
  {
    var all := log + [e];
    assert all[|log|] == e;
    if InjectedSince(log, xhr, o) {
      var i :| o < i < |log| && log[i].Injected? && log[i].xhr == xhr;
      assert all[i] == log[i];
    }
    if PageSetSince(log, xhr, o) {
      var i :| o < i < |log| && log[i] == HeaderSet(xhr);
      assert all[i] == log[i];
    }
  }

  lemma {:induction false} TruthIsTrue(log: seq<Event>, xhr: Xhr) returns (o: nat)
    requires SinceOpen(log, xhr).Some?
    ensures LastOpened(log, xhr, o, SinceOpen(log, xhr).value.url)
    ensures InjectedSince(log, xhr, o) <==> SinceOpen(log, xhr).value.injected
    ensures PageSetSince(log, xhr, o) <==> SinceOpen(log, xhr).value.setInside || SinceOpen(log, xhr).value.setAfter
  {
    var front, e := log[..|log| - 1], log[|log| - 1];
    assert log == front + [e];
    if e.Opened? && e.xhr == xhr {
      o := |front|;
    } else {
      o := TruthIsTrue(front, xhr);
      SinceSnoc(front, e, xhr, o);
    }
  }

  lemma {:induction false} JustifiedAt(log: seq<Event>, k: nat)
    requires AllJustified(log) && k < |log| && log[k].Injected?
    ensures Justified(log[..k], log[k].xhr)
  {
    if k < |log| - 1 {
      var front := log[..|log| - 1];
      assert front[..k] == log[..k];
      JustifiedAt(front, k);
    }
  }

  /**
   Every visitor header a wrapper adds is for the last open of its request object, to a URL the allowlist in force
   allows, and is the first since that open. The page has set the header since that open just when it did so before
   open returned.
   */
  lemma InjectionIsLegitimate(le: Order, steps: seq<Step>, k: nat) returns (o: nat, url: Url, t: Target)
    requires var log := Run(le, START, steps).log; k < |log| && log[k].Injected?
    ensures var log := Run(le, START, steps).log; var xhr := log[k].xhr;
            && LastOpened(log[..k], xhr, o, Some(url))
            && url.protocol in ["http:", "https:"] && t in TargetsAt(log[..k])
            && t.origin == url.origin && t.pathPrefix <= url.pathname
            && !InjectedSince(log[..k], xhr, o)
            && SinceOpen(log[..k], xhr).Some?
            && (PageSetSince(log[..k], xhr, o) <==> SinceOpen(log[..k], xhr).value.setInside)
  {
    var log := Run(le, START, steps).log;
    RunIsSound(le, steps);
    JustifiedAt(log, k);
    o := TruthIsTrue(log[..k], log[k].xhr);
    url := SinceOpen(log[..k], log[k].xhr).value.url.value;
    MatchesIffAllows(TargetsAt(log[..k]), url);
    t :| t in TargetsAt(log[..k]) && t.origin == url.origin && t.pathPrefix <= url.pathname;
  }

  /**
   Every request that fetch passes to the browser in any run is the page's, with the visitor header added exactly if an
   installation allows the URL, the request had none and there was a visitor. A header of the page's own is kept.
   */
  lemma FetchIsLegitimate(le: Order, steps: seq<Step>, k: nat)
    requires var log := Run(le, START, steps).log; k < |log| && log[k].Fetched?
    ensures var log := Run(le, START, steps).log; var (given, passed) := (log[k].given, log[k].passed);
            && passed.url == given.url
            && (given.visitor.Some? ==> passed.visitor == given.visitor)
            && (given.visitor.None? ==>
                  passed.visitor == if InForce(log[..k]).Some? && Allows(InForce(log[..k]).value, given.url)
                                    then log[k].visitor else None)
  {
    RunIsSound(le, steps);
    FetchedAt(Run(le, START, steps).log, k);
  }

  /** A fetch is rejected exactly for a request that cannot be built, or that needs a copy that cannot be made. */
  lemma FetchRejectsIff(s: Propagation, request: Option<Request>, visitorId: Option<string>, copies: bool)
    ensures PassedOn(s, request, visitorId, copies).None? <==>
            request.None? || (!copies && s.current.Some? && Allows(s.current.value.targets, request.value.url))
  {
    if request.Some? && s.current.Some? {
      MatchesIffAllows(s.current.value.targets, request.value.url);
    }
  }

  lemma {:induction false} FetchedAt(log: seq<Event>, k: nat)
    requires AllFetchedRightly(log) && k < |log| && log[k].Fetched?
    ensures FetchedRightly(log[..k], log[k])
  {
    if k < |log| - 1 {
      var front := log[..|log| - 1];
      assert front[..k] == log[..k];
      FetchedAt(front, k);
    }
  }

  /** Between two headers added to one request object lies an open. */
  lemma AtMostOncePerOpen(le: Order, steps: seq<Step>, j: nat, k: nat)
    requires var log := Run(le, START, steps).log;
             j < k < |log| && log[j].Injected? && log[k].Injected? && log[j].xhr == log[k].xhr
    ensures var log := Run(le, START, steps).log;
            exists o :: j < o < k && log[o].Opened? && log[o].xhr == log[k].xhr
  {
    var log := Run(le, START, steps).log;
    var o, url, t := InjectionIsLegitimate(le, steps, k);
    assert log[..k][o] == log[o];
    assert log[..k][j] == log[j];
    assert j != o;
    assert !(o < j);
  }

  // --- The page's own header ------------------------------------------------------------------------------------

  predicate HandlersSetNothing(steps: seq<Step>) {
    forall step :: step in steps && step.Open? ==> !step.handlerSets
  }

  ghost predicate NothingInside(log: seq<Event>) {
    forall xhr :: SinceOpen(log, xhr).Some? ==>
      SinceOpen(log, xhr).value.returned && !SinceOpen(log, xhr).value.setInside
  }

  ghost predicate NeverInside(log: seq<Event>) {
    forall k :: 0 <= k < |log| && log[k].Injected? ==> !SetInside(log[..k], log[k].xhr)
  }

  ghost predicate SetInside(log: seq<Event>, xhr: Xhr) {
    SinceOpen(log, xhr).Some? && SinceOpen(log, xhr).value.setInside
  }

  lemma NeverInsideSnoc(log: seq<Event>, e: Event)
    requires NeverInside(log) && (e.Injected? ==> !SetInside(log, e.xhr))
    ensures NeverInside(log + [e])
  {
    var all := log + [e];
    forall k | 0 <= k < |all| && all[k].Injected?
      ensures !SetInside(all[..k], all[k].xhr)
    {
      if k < |log| {
        assert all[..k] == log[..k] && all[k] == log[k];
      } else {
        assert all[..k] == log;
      }
    }
  }

  ghost predicate Quiet(log: seq<Event>) {
    NothingInside(log) && NeverInside(log)
  }

  lemma StaysQuiet(log: seq<Event>, e: Event)
    requires Quiet(log) && !e.Opened? && !e.Returned?
    ensures Quiet(log + [e])
  {
    Snoc(log, e);
    NeverInsideSnoc(log, e);
  }

  lemma QuietOpen(s: Propagation, xhr: Xhr, url: Option<Url>)
    requires Quiet(s.log)
    ensures Quiet(AfterOpen(s, xhr, url, false).log)
  {
    OpenLogs(s.log, xhr, url, false);
    OpenAppends(s, xhr, url, false);
    var begun := s.log + [Event.Opened(xhr, url)];
    NeverInsideSnoc(s.log, Event.Opened(xhr, url));
    NeverInsideSnoc(begun, Returned(xhr, url));
    assert s.log + OpenEvents(xhr, url, false) == begun + [Returned(xhr, url)];
  }

  lemma QuietNext(le: Order, s: Propagation, step: Step)
    requires Quiet(s.log) && (step.Open? ==> !step.handlerSets)
    ensures Quiet(Next(le, s, step).log)
  {
    match step
    case Enable(requested) =>
      var targets := NormalizeAllowedTargets(le, requested);
      if targets.Ok? {
        StaysQuiet(s.log, Installed(targets.value));
      }
    case Disable(_) => StaysQuiet(s.log, Removed);
    case Open(xhr, url, ok, handlerSets) => QuietOpen(s, xhr, url);
    case SetHeader(xhr, _, _) => StaysQuiet(s.log, HeaderSet(xhr));
    case Send(xhr, visitorId, headerOk, sendOk) =>
      if visitorId.Some? {
        StaysQuiet(s.log, Injected(xhr, visitorId.value));
        StaysQuiet(s.log + [Injected(xhr, visitorId.value)], Sent(xhr));
      }
      StaysQuiet(s.log, Sent(xhr));
    case Fetch(request, visitorId, copies) =>
      var passed := PassedOn(s, request, visitorId, copies);
      if passed.Some? {
        StaysQuiet(s.log, Fetched(request.value, visitorId, passed.value));
      }
  }

  lemma {:induction false} QuietRun(le: Order, steps: seq<Step>)
    requires HandlersSetNothing(steps)
    ensures Quiet(Run(le, START, steps).log)
  {
    if steps != [] {
      QuietRun(le, steps[..|steps| - 1]);
      QuietNext(le, Run(le, START, steps[..|steps| - 1]), steps[|steps| - 1]);
    }
  }

  /** As long as no event handler sets the header while open runs, no wrapper adds one after the page's own. */
  lemma NeverAfterThePagesOwn(le: Order, steps: seq<Step>, k: nat)
    requires HandlersSetNothing(steps)
    requires var log := Run(le, START, steps).log; k < |log| && log[k].Injected?
    ensures var log := Run(le, START, steps).log;
            exists o, url :: LastOpened(log[..k], log[k].xhr, o, url) && !PageSetSince(log[..k], log[k].xhr, o)
  {
    var log := Run(le, START, steps).log;
    var o, url, t := InjectionIsLegitimate(le, steps, k);
    QuietRun(le, steps);
    assert !SetInside(log[..k], log[k].xhr);
    assert LastOpened(log[..k], log[k].xhr, o, Some(url));
  }

  /**
   Opening an allowed URL and sending adds the header in every state, so the request carries a header of the page's own
   and the wrapper's just when an event handler set one while open ran.
   */
  lemma OpenThenSend(s: Propagation, xhr: Xhr, url: Url, visitorId: string, handlerSets: bool)
    requires s.current.Some? && Allows(s.current.value.targets, url)
    ensures var begun := AfterOpen(s, xhr, Some(url), handlerSets);
            var sent := AfterSend(begun, xhr, Some(visitorId), true, true);
            && sent.log == begun.log + [Injected(xhr, visitorId), Sent(xhr)]
            && LastOpened(begun.log, xhr, |s.log|, Some(url))
            && (PageSetSince(begun.log, xhr, |s.log|) <==> handlerSets)
  {
    MatchesIffAllows(s.current.value.targets, url);
    var begun := AfterOpen(s, xhr, Some(url), handlerSets);
    var events := [Event.Opened(xhr, Some(url))] + (if handlerSets then [HeaderSet(xhr)] else [])
                  + [Returned(xhr, Some(url))];
    assert begun.log == s.log + events;
    assert Injects(begun, xhr, Some(visitorId));
    if handlerSets {
      assert begun.log[|s.log| + 1] == HeaderSet(xhr);
    }
  }

  lemma OneTarget(le: Order, requested: Requested, target: Target)
    requires NormalizeTarget(requested) == Ok(target)
    ensures NormalizeAllowedTargets(le, [requested]) == Ok([target])
  {
    var one := [requested];
    assert one[0] == requested && one[1..] == [];
    assert NormalizeEach(one[1..]) == Ok([]);
    assert [target] + [] == [target];
    assert Unique([target][..0]) == [];
    assert Unique([target]) == [target];
    assert Sort(le, [target][1..]) == [];
  }

  /** A run in which the header is added after the page's own: the page sets it in a handler that open calls. */
  lemma HandlerHeaderIsOverlooked(le: Order)
    ensures var url := Url("https:", "https://shop.example", "/pay");
            var origin := ParsedOrigin("https:", "", "", "/", "", "", "https://shop.example");
            Run(le, START, [Enable([Requested(Some(origin), None)]), Open(7, Some(url), true, true),
                            Send(7, Some("v"), true, true)]).log
            == [Installed([Target("https://shop.example", "/")]), Event.Opened(7, Some(url)), HeaderSet(7),
                Returned(7, Some(url)), Injected(7, "v"), Sent(7)]
  {
    var url := Url("https:", "https://shop.example", "/pay");
    var requested := Requested(Some(ParsedOrigin("https:", "", "", "/", "", "", "https://shop.example")), None);
    var target := Target("https://shop.example", "/");
    OneTarget(le, requested, target);
    var steps := [Enable([requested]), Open(7, Some(url), true, true), Send(7, Some("v"), true, true)];
    assert steps[..2][..1] == [Enable([requested])] && steps[..2] == [steps[0], steps[1]];
    assert Run(le, START, steps[..2][..1][..0]) == START;
    var one := Run(le, START, steps[..2][..1]);
    assert one == AfterEnable(le, START, [requested]);
    var two := Run(le, START, steps[..2]);
    assert two == AfterOpen(one, 7, Some(url), true);
    assert target in [target] && target.origin == url.origin && target.pathPrefix <= url.pathname;
    OpenThenSend(one, 7, url, "v", true);
    OpenAppends(one, 7, Some(url), true);
  }

  // --- A send adds the header exactly when it should -------------------------------------------------------------

  /** In any run, send adds the header just when what the log shows since the last installation allows it. */
  lemma InjectsIff(le: Order, steps: seq<Step>, xhr: Xhr, visitorId: Option<string>)
    ensures var s := Run(le, START, steps);
            Injects(s, xhr, visitorId) <==>
              && s.current.Some? && visitorId.Some?
              && Known(s.log, xhr).Some?
              && var t := SinceOpen(s.log, xhr);
                 t.Some? && t.value.returned && !t.value.setAfter && !t.value.injected
                 && t.value.url.Some? && Allows(TargetsAt(s.log), t.value.url.value)
  {
    RunIsSound(le, steps);
    var s := Run(le, START, steps);
    if SinceOpen(s.log, xhr).Some? && SinceOpen(s.log, xhr).value.url.Some? {
      MatchesIffAllows(TargetsAt(s.log), SinceOpen(s.log, xhr).value.url.value);
    }
    assert KnownIsTrue(s.log, xhr);
    if s.current.Some? {
      assert Recorded(s.current.value.states, xhr) == Known(s.log, xhr);
    }
  }

  /** The browser sees the send in every state, after the header if that is added, unless it refuses one of the two. */
  lemma SendReachesTheBrowser(
    s: Propagation, xhr: Xhr, visitorId: Option<string>, headerOk: bool, sendOk: bool)
    ensures var header := if Injects(s, xhr, visitorId) && headerOk then [Injected(xhr, visitorId.value)] else [];
            var refused := Injects(s, xhr, visitorId) && !headerOk;
            var sent := if sendOk && !refused then [Sent(xhr)] else [];
            AfterSend(s, xhr, visitorId, headerOk, sendOk).log == s.log + header + sent
  {
  }

  // --- Installing and removing ---------------------------------------------------------------------------------

  /** An installation lasts until its own handle is used: nothing else removes or replaces it. */
  lemma {:induction false} InstalledUntilDisabled(le: Order, s: Propagation, handle: nat, steps: seq<Step>)
    requires s.current.Some? && s.current.value.handle == handle && Disable(handle) !in steps
    ensures var after := Run(le, s, steps);
            && after.current.Some? && after.current.value.handle == handle
            && after.current.value.targets == s.current.value.targets && after.handles == s.handles
    ensures Next(le, Run(le, s, steps), Disable(handle)).current == None
  {
    if steps != [] {
      InstalledUntilDisabled(le, s, handle, steps[..|steps| - 1]);
    }
  }

  /** While one installation is active, enabling again gives its handle exactly for the same set of targets. */
  lemma EnableAgainIff(
    le: Order, s: Propagation, first: seq<Requested>, steps: seq<Step>, second: seq<Requested>)
    requires IsCollation(le) && s.current.None?
    requires NormalizeEach(first).Ok? && NormalizeEach(second).Ok? && first != [] && second != []
    requires TellsApart(le, TargetsIn(NormalizeEach(first).value))
    requires Disable(s.handles) !in steps
    ensures var later := Run(le, AfterEnable(le, s, first), steps);
            && AfterEnable(le, later, second) == later
            && EnableAnswer(le, s, first) == Ok(s.handles)
            && EnableAnswer(le, later, second)
               == if TargetsIn(NormalizeEach(second).value) == TargetsIn(NormalizeEach(first).value) then Ok(s.handles)
                  else Err(DifferentConfiguration)
  {
    InstalledUntilDisabled(le, AfterEnable(le, s, first), s.handles, steps);
    SameFormIffSameTargets(le, NormalizeEach(first).value, NormalizeEach(second).value);
  }

  /** A caller's way to ask for a target. */
  function RequestFor(t: Target): Requested {
    Requested(Some(ParsedOrigin("https:", "", "", "/", "", "", t.origin)), Some(t.pathPrefix))
  }

  /** Asking again for the same two targets in the other order is refused when the collation ties them. */
  lemma TiedOrderIsRefused(le: Order, a: Target, b: Target, ra: Requested, rb: Requested)
    requires IsCollation(le) && le(a, b) && le(b, a) && a != b
    requires NormalizeTarget(ra) == Ok(a) && NormalizeTarget(rb) == Ok(b)
    ensures EnableAnswer(le, START, [ra, rb]) == Ok(0)
    ensures EnableAnswer(le, AfterEnable(le, START, [ra, rb]), [rb, ra]) == Err(DifferentConfiguration)
  {
    TieShows(le, a, b);
    TwoTargets(ra, a, rb, b);
    TwoTargets(rb, b, ra, a);
  }

  lemma TwoTargets(ra: Requested, a: Target, rb: Requested, b: Target)
    requires NormalizeTarget(ra) == Ok(a) && NormalizeTarget(rb) == Ok(b)
    ensures NormalizeEach([ra, rb]) == Ok([a, b])
  {
    assert [ra, rb][1..] == [rb] && [rb][1..] == [];
    assert NormalizeEach([]) == Ok([]);
    assert [b] + [] == [b] && [a] + [b] == [a, b];
    assert NormalizeEach([rb]) == Ok([b]);
  }

  lemma RequestNormalizes(t: Target)
    requires "/" <= t.pathPrefix
    ensures NormalizeTarget(RequestFor(t)) == Ok(t)
  {
  }

  /** A collation and two targets for which that happens. */
  lemma ReorderedIsRefused()
    ensures IsCollation(VISIBLE_ORDER)
    ensures NormalizeTarget(RequestFor(PLAIN)) == Ok(PLAIN) && NormalizeTarget(RequestFor(HYPHENATED)) == Ok(HYPHENATED)
    ensures EnableAnswer(VISIBLE_ORDER,
              AfterEnable(VISIBLE_ORDER, START, [RequestFor(PLAIN), RequestFor(HYPHENATED)]),
              [RequestFor(HYPHENATED), RequestFor(PLAIN)]) == Err(DifferentConfiguration)
  {
    VisibleOrderIsCollation();
    SoftHyphenTies();
    RequestNormalizes(PLAIN);
    RequestNormalizes(HYPHENATED);
    TiedOrderIsRefused(VISIBLE_ORDER, PLAIN, HYPHENATED, RequestFor(PLAIN), RequestFor(HYPHENATED));
  }
}
