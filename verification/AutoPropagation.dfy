/**
 Automatic visitor propagation in the browser: installing and removing wrappers around four global hooks.

 The page calls whatever function a global holds; a wrapper calls the function it captured when it was installed. The
 specification is a machine without hooks: at most one installation, and a log of what the browser itself saw. Page is
 the program, and each of its methods takes one step of that machine. What a run can do is then proved of the log.
 */
module AutoPropagation {
  import opened Results
  import opened AllowedTargets

  type Xhr = nat

  datatype Request = Request(url: Url, visitor: Option<string>)

  /**
   What the browser's own functions saw, and where enabling, disabling and open finished. A fetch is seen with the
   request the page gave and the visitor there was.
   */
  datatype Event =
    | Installed(targets: seq<Target>)
    | Removed
    | Opened(xhr: Xhr, url: Option<Url>)
    | Returned(xhr: Xhr, url: Option<Url>)
    | HeaderSet(xhr: Xhr)
    | Injected(xhr: Xhr, visitorId: string)
    | Sent(xhr: Xhr)
    | Fetched(given: Request, visitor: Option<string>, passed: Request)

  /** What a wrapper remembers of a request object. */
  datatype XhrState = XhrState(url: Option<Url>, explicit: bool, injected: bool)

  // --- The machine without hooks -------------------------------------------------------------------------------

  datatype Installation = Installation(handle: nat, targets: seq<Target>, states: map<Xhr, XhrState>)

  datatype Propagation = Propagation(current: Option<Installation>, handles: nat, log: seq<Event>)

  const START := Propagation(None, 0, [])

  datatype EnableError = Invalid(error: TargetError) | DifferentConfiguration

  /** What a call of enable answers: a handle to disable with, or an error. */
  function EnableAnswer(le: Order, s: Propagation, requested: seq<Requested>): Result<nat, EnableError> {
    match NormalizeAllowedTargets(le, requested)
    case Err(error) => Err(Invalid(error))
    case Ok(targets) =>
      if s.current.None? then Ok(s.handles)
      else if s.current.value.targets == targets then Ok(s.current.value.handle)
      else Err(DifferentConfiguration)
  }

  function AfterEnable(le: Order, s: Propagation, requested: seq<Requested>): Propagation {
    match NormalizeAllowedTargets(le, requested)
    case Err(_) => s
    case Ok(targets) =>
      if s.current.Some? then s
      else Propagation(Some(Installation(s.handles, targets, map[])), s.handles + 1, s.log + [Installed(targets)])
  }

  function AfterDisable(s: Propagation, handle: nat): Propagation {
    if s.current.Some? && s.current.value.handle == handle then s.(current := None, log := s.log + [Removed]) else s
  }

  function Seen(s: Propagation, event: Event): Propagation {
    s.(log := s.log + [event])
  }

  function Remember(s: Propagation, xhr: Xhr, state: XhrState): Propagation {
    if s.current.None? then s
    else s.(current := Some(s.current.value.(states := s.current.value.states[xhr := state])))
  }

  /** The page sets the visitor header, and the browser allows it. */
  function AfterHeader(s: Propagation, xhr: Xhr): Propagation {
    var seen := Seen(s, HeaderSet(xhr));
    if s.current.Some? && xhr in s.current.value.states then
      Remember(seen, xhr, s.current.value.states[xhr].(explicit := true))
    else seen
  }

  /** The page opens a request; handlerSets says whether an event handler sets the visitor header meanwhile. */
  function AfterOpen(s: Propagation, xhr: Xhr, url: Option<Url>, handlerSets: bool): Propagation {
    var begun := Seen(s, Opened(xhr, url));
    var handled := if handlerSets then AfterHeader(begun, xhr) else begun;
    Seen(Remember(handled, xhr, XhrState(url, false, false)), Returned(xhr, url))
  }

  predicate Injects(s: Propagation, xhr: Xhr, visitorId: Option<string>) {
    && s.current.Some?
    && xhr in s.current.value.states
    && var state := s.current.value.states[xhr];
    && state.url.Some?
    && MatchesAllowedTarget(s.current.value.targets, state.url.value)
    && !state.explicit
    && !state.injected
    && visitorId.Some?
  }

  function AfterInjection(s: Propagation, xhr: Xhr, visitorId: string): Propagation
    requires Injects(s, xhr, Some(visitorId))
  {
    Remember(Seen(s, Injected(xhr, visitorId)), xhr, s.current.value.states[xhr].(injected := true))
  }

  /** The page sends; the browser may refuse the header, which ends the call, or the send. */
  function AfterSend(s: Propagation, xhr: Xhr, visitorId: Option<string>, headerOk: bool, sendOk: bool): Propagation {
    if Injects(s, xhr, visitorId) && !headerOk then s
    else
      var injected := if Injects(s, xhr, visitorId) then AfterInjection(s, xhr, visitorId.value) else s;
      if sendOk then Seen(injected, Sent(xhr)) else injected
  }

  /** The request fetch passes on, or None when it rejects. None is also a request that cannot be built. */
  function PassedOn(
    s: Propagation, request: Option<Request>, visitorId: Option<string>, copies: bool): Option<Request>
  {
    if request.None? then None
    else if s.current.Some? && MatchesAllowedTarget(s.current.value.targets, request.value.url) then
      if copies then Some(WithVisitor(request.value, visitorId)) else None
    else request
  }

  function AfterFetch(s: Propagation, request: Option<Request>, visitorId: Option<string>, copies: bool): Propagation {
    match PassedOn(s, request, visitorId, copies)
    case None => s
    case Some(passed) => Seen(s, Fetched(request.value, visitorId, passed))
  }

  function WithVisitor(request: Request, visitorId: Option<string>): Request {
    if visitorId.Some? && request.visitor.None? then request.(visitor := visitorId) else request
  }

  // --- The program ---------------------------------------------------------------------------------------------

  /** What a global can hold: the browser's own function, or a wrapper of the numbered installation. */
  datatype Hook = Native | Wrapper(installation: nat)

  datatype Hooks = Hooks(fetch: Hook, open: Hook, setRequestHeader: Hook, send: Hook)

  const NATIVE := Hooks(Native, Native, Native, Native)

  function WrappersOf(i: nat): Hooks {
    Hooks(Wrapper(i), Wrapper(i), Wrapper(i), Wrapper(i))
  }

  /** The variables the wrappers and the disable function of one installation share. */
  datatype Closure = Closure(targets: seq<Target>, originals: Hooks, states: map<Xhr, XhrState>, disabled: bool)

  function Rank(hook: Hook): nat {
    match hook
    case Native => 0
    case Wrapper(i) => i + 1
  }

  class Page {
    var fetch: Hook
    var open: Hook
    var setRequestHeader: Hook
    var send: Hook
    var active: Option<nat>
    var closures: seq<Closure>
    ghost var log: seq<Event>

    ghost function Globals(): Hooks
      reads this
    {
      Hooks(fetch, open, setRequestHeader, send)
    }

    /**
     The globals are the browser's own functions when nothing is installed, and otherwise the wrappers of the one
     installation that is not disabled. No wrapper captured another.
     */
    ghost predicate Valid()
      reads this
    {
      && (match active
          case None => Globals() == NATIVE
          case Some(i) => i < |closures| && Globals() == WrappersOf(i))
      && forall i :: 0 <= i < |closures| ==> Settled(closures[i], i)
    }

    ghost predicate Settled(c: Closure, i: nat)
      reads this
    {
      c.originals == NATIVE && (c.disabled <==> active != Some(i))
    }

    ghost function View(): Propagation
      reads this
      requires Valid()
    {
      Propagation(
        (match active
         case None => None
         case Some(i) => Some(Installation(i, closures[i].targets, closures[i].states))),
        |closures|, log)
    }

    constructor ()
      ensures Valid() && View() == START
    {
      fetch, open, setRequestHeader, send := Native, Native, Native, Native;
      active := None;
      closures := [];
      log := [];
    }

    method Enable(le: Order, requested: seq<Requested>) returns (r: Result<nat, EnableError>)
      requires Valid()
      modifies this
      ensures Valid()
      ensures r == EnableAnswer(le, old(View()), requested)
      ensures View() == AfterEnable(le, old(View()), requested)
      ensures r.Ok? ==> active == Some(r.value)
    {
      var normalized := NormalizeAllowedTargets(le, requested);
      if normalized.Err? {
        return Err(Invalid(normalized.error));
      }
      var targets := normalized.value;
      if active.Some? {
        if closures[active.value].targets == targets {
          return Ok(active.value);
        }
        return Err(DifferentConfiguration);
      }
      var handle := |closures|;
      closures := closures + [Closure(targets, Hooks(fetch, open, setRequestHeader, send), map[], false)];
      fetch, open, setRequestHeader, send := Wrapper(handle), Wrapper(handle), Wrapper(handle), Wrapper(handle);
      active := Some(handle);
      log := log + [Installed(targets)];
      r := Ok(handle);
    }

    /** The disable function an earlier enable returned, however old it is. */
    method Disable(handle: nat)
      requires Valid() && handle < |closures|
      modifies this
      ensures Valid()
      ensures View() == AfterDisable(old(View()), handle)
      ensures Globals() == if old(active) == Some(handle) then NATIVE else old(Globals())
    {
      if closures[handle].disabled {
        return;
      }
      closures := closures[handle := closures[handle].(disabled := true)];
      var originals := closures[handle].originals;
      fetch := originals.fetch;
      open := originals.open;
      setRequestHeader := originals.setRequestHeader;
      send := originals.send;
      if active == Some(handle) {
        active := None;
        log := log + [Removed];
      }
    }

    method SetState(i: nat, xhr: Xhr, state: XhrState)
      requires Valid() && active == Some(i)
      modifies this`closures
      ensures Valid() && View() == Remember(old(View()), xhr, state)
      ensures |closures| == old(|closures|)
    {
      closures := closures[i := closures[i].(states := closures[i].states[xhr := state])];
    }

    method CallSetRequestHeader(hook: Hook, xhr: Xhr, byPage: bool, isVisitor: bool, visitorId: string, ok: bool)
      returns (threw: bool)
      requires Valid() && (hook == Native || hook == setRequestHeader)
      requires !byPage ==> hook == Native && isVisitor
      modifies this`closures, this`log
      ensures Valid() && threw == !ok
      ensures View() == if !ok || !isVisitor then old(View())
                        else if !byPage then Seen(old(View()), Injected(xhr, visitorId))
                        else if hook == Native then Seen(old(View()), HeaderSet(xhr))
                        else AfterHeader(old(View()), xhr)
      decreases Rank(hook)
    {
      match hook
      case Native =>
        if ok && isVisitor {
          log := log + [if byPage then HeaderSet(xhr) else Injected(xhr, visitorId)];
        }
        threw := !ok;
      case Wrapper(i) =>
        threw := CallSetRequestHeader(closures[i].originals.setRequestHeader, xhr, byPage, isVisitor, visitorId, ok);
        if threw {
          return;
        }
        if isVisitor && xhr in closures[i].states {
          SetState(i, xhr, closures[i].states[xhr].(explicit := true));
        }
    }

    method CallOpen(hook: Hook, xhr: Xhr, url: Option<Url>, ok: bool, handlerSets: bool) returns (threw: bool)
      requires Valid() && (hook == Native || hook == open)
      modifies this`closures, this`log
      ensures Valid() && threw == !ok
      ensures View() == if !ok then old(View())
                        else
                          var begun := Seen(old(View()), Opened(xhr, url));
                          var handled := if handlerSets then AfterHeader(begun, xhr) else begun;
                          if hook == Native then handled else Remember(handled, xhr, XhrState(url, false, false))
      decreases Rank(hook)
    {
      match hook
      case Native =>
        if ok {
          log := log + [Opened(xhr, url)];
          if handlerSets {
            var _ := CallSetRequestHeader(setRequestHeader, xhr, true, true, "", true);
          }
        }
        threw := !ok;
      case Wrapper(i) =>
        threw := CallOpen(closures[i].originals.open, xhr, url, ok, handlerSets);
        if threw {
          return;
        }
        SetState(i, xhr, XhrState(url, false, false));
    }

    method Open(xhr: Xhr, url: Option<Url>, ok: bool, handlerSets: bool) returns (threw: bool)
      requires Valid()
      modifies this`closures, this`log
      ensures Valid() && threw == !ok
      ensures View() == if ok then AfterOpen(old(View()), xhr, url, handlerSets) else old(View())
    {
      threw := CallOpen(open, xhr, url, ok, handlerSets);
      if !threw {
        log := log + [Returned(xhr, url)];
      }
    }

    method SetRequestHeader(xhr: Xhr, isVisitor: bool, ok: bool) returns (threw: bool)
      requires Valid()
      modifies this`closures, this`log
      ensures Valid() && threw == !ok
      ensures View() == if ok && isVisitor then AfterHeader(old(View()), xhr) else old(View())
    {
      threw := CallSetRequestHeader(setRequestHeader, xhr, true, isVisitor, "", ok);
    }

    method CallSend(hook: Hook, xhr: Xhr, visitorId: Option<string>, headerOk: bool, sendOk: bool)
      returns (threw: bool)
      requires Valid() && (hook == Native || hook == send)
      modifies this`closures, this`log
      ensures Valid()
      ensures hook == Native ==>
                threw == !sendOk && View() == if sendOk then Seen(old(View()), Sent(xhr)) else old(View())
      ensures hook != Native ==> View() == AfterSend(old(View()), xhr, visitorId, headerOk, sendOk)
      ensures hook != Native ==> threw == !(sendOk && (headerOk || !Injects(old(View()), xhr, visitorId)))
      decreases Rank(hook)
    {
      match hook
      case Native =>
        if sendOk {
          log := log + [Sent(xhr)];
        }
        threw := !sendOk;
      case Wrapper(i) =>
        var states := closures[i].states;
        if xhr in states
           && states[xhr].url.Some?
           && MatchesAllowedTarget(closures[i].targets, states[xhr].url.value)
           && !states[xhr].explicit
           && !states[xhr].injected
           && visitorId.Some? {
          threw := CallSetRequestHeader(
            closures[i].originals.setRequestHeader, xhr, false, true, visitorId.value, headerOk);
          if threw {
            return;
          }
          SetState(i, xhr, states[xhr].(injected := true));
        }
        threw := CallSend(closures[i].originals.send, xhr, visitorId, headerOk, sendOk);
    }

    method Send(xhr: Xhr, visitorId: Option<string>, headerOk: bool, sendOk: bool) returns (threw: bool)
      requires Valid()
      modifies this`closures, this`log
      ensures Valid()
      ensures View() == AfterSend(old(View()), xhr, visitorId, headerOk, sendOk)
      ensures threw == !(sendOk && (headerOk || !Injects(old(View()), xhr, visitorId)))
    {
      threw := CallSend(send, xhr, visitorId, headerOk, sendOk);
    }

    /** A request that could be built, as the page gave it and as it is handed on. */
    method CallFetch(hook: Hook, request: Request, ghost given: Request, visitorId: Option<string>, copies: bool)
      returns (rejected: bool)
      requires Valid() && (hook == Native || (hook == fetch && request == given))
      modifies this`log
      ensures Valid()
      ensures hook != Native ==> rejected == PassedOn(old(View()), Some(given), visitorId, copies).None?
      ensures hook != Native ==> View() == AfterFetch(old(View()), Some(given), visitorId, copies)
      ensures hook == Native ==> !rejected && View() == Seen(old(View()), Fetched(given, visitorId, request))
      decreases Rank(hook)
    {
      match hook
      case Native =>
        log := log + [Fetched(given, visitorId, request)];
        rejected := false;
      case Wrapper(i) =>
        var toFetch := request;
        if MatchesAllowedTarget(closures[i].targets, toFetch.url) {
          if !copies {
            return true;
          }
          toFetch := WithVisitor(toFetch, visitorId);
        }
        rejected := CallFetch(closures[i].originals.fetch, toFetch, given, visitorId, copies);
    }

    /** None is a request that cannot be built, which every fetch rejects. */
    method Fetch(request: Option<Request>, visitorId: Option<string>, copies: bool) returns (rejected: bool)
      requires Valid()
      modifies this`log
      ensures Valid()
      ensures rejected == PassedOn(old(View()), request, visitorId, copies).None?
      ensures View() == AfterFetch(old(View()), request, visitorId, copies)
    {
      if request.None? {
        return true;
      }
      rejected := CallFetch(fetch, request.value, request.value, visitorId, copies);
    }
  }
}
