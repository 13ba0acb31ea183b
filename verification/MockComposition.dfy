/**
 The clients' retry loops against the mock server, one delivery at a time: what the conformance runners rely on when
 they script responses and then compare the journal with the attempts.
 */
module MockComposition {
  import opened Results
  import opened RetryPolicy
  import opened Delivery
  import opened Cancellation
  import opened DeliveryLoops
  import opened GoDelivery
  import opened JournalHeaders
  import opened MockState

  /** How a client reads a response: what it makes of the headers, and whether a 200 with this body decodes. */
  datatype Reader = Reader(retryAfterOf: Option<map<string, string>> -> RetryAfter, decodes: string -> bool)

  /** A delivery's request as it arrives at the server; every attempt sends the same one. */
  datatype Request = Request(verb: string, path: string, headers: Headers, body: string)

  /**
   What an attempt comes to when the server answers as scripted and no timeout intervenes: closing the connection before
   the headers is a transport failure, closing it after them leaves a status whose body cannot be read, and an empty
   queue is answered with the default success.
   */
  function Observed(reader: Reader, answer: Option<ResponseValue>): Outcome {
    match answer
    case None => Response(200, Absent, true)
    case Some(r) =>
      if r.disconnectBeforeHeaders then TransportFailure
      else Response(r.status, reader.retryAfterOf(r.headers), !r.disconnectAfterHeaders && reader.decodes(r.body))
  }

  /** The answer to the k-th request: the script's k-th entry while there is one, then the default. */
  function AnswerTo(values: seq<ResponseValue>, k: nat): Option<ResponseValue> {
    if 1 <= k <= |values| then Some(values[k - 1]) else None
  }

  /** The outcome of the k-th attempt against a script. */
  function ScriptOutcomes(reader: Reader, script: seq<ResponseValue>): Outcomes {
    (k: nat) => Observed(reader, AnswerTo(script, k))
  }

  /** How many entries in a row, from the first, are worth another attempt. */
  function RetryPrefix(reader: Reader, script: seq<ResponseValue>): (n: nat)
    ensures n <= |script|
  {
    if script == [] || !Transient(Observed(reader, Some(script[0]))) then 0
    else 1 + RetryPrefix(reader, script[1..])
  }

  lemma {:induction false} PrefixIsTransient(reader: Reader, script: seq<ResponseValue>)
    ensures forall i :: 0 <= i < RetryPrefix(reader, script) ==> Transient(Observed(reader, Some(script[i])))
    ensures RetryPrefix(reader, script) < |script| ==>
              !Transient(Observed(reader, Some(script[RetryPrefix(reader, script)])))
  {
    if script != [] && Transient(Observed(reader, Some(script[0]))) {
      PrefixIsTransient(reader, script[1..]);
      forall i | 0 <= i < RetryPrefix(reader, script)
        ensures Transient(Observed(reader, Some(script[i])))
      {
        if i > 0 {
          assert script[i] == script[1..][i - 1];
        }
      }
    }
  }

  /** A script fixes the number of attempts: the retryable prefix plus one, unless the retries run out before. */
  lemma AttemptsOfScript(reader: Reader, script: seq<ResponseValue>, jitter: Jitter, retryCount: nat)
    ensures var run := Deliver(ScriptOutcomes(reader, script), jitter, retryCount, 1);
      && run.attempts == Min(retryCount + 1, 1 + RetryPrefix(reader, script))
      && run.final == Ending(ScriptOutcomes(reader, script)(run.attempts), run.attempts)
  {
    var outcomes := ScriptOutcomes(reader, script);
    var run := Deliver(outcomes, jitter, retryCount, 1);
    var prefix := RetryPrefix(reader, script);
    PrefixIsTransient(reader, script);
    DeliverIsRun(outcomes, jitter, retryCount, 1);
    if run.attempts <= prefix {
      assert Transient(outcomes(run.attempts));
    } else {
      assert outcomes(prefix + 1) == Observed(reader, if prefix < |script| then Some(script[prefix]) else None);
      assert !Transient(outcomes(prefix + 1));
      assert prefix + 1 >= run.attempts || RetriedAt(run, outcomes, jitter, 1, prefix + 1);
    }
  }

  /**
   A script of one entry. Closing the connection before the headers is a transport failure. Closing it after them spoils
   the body, so that a 200 is accepted and not decoded. After the entry, and after an empty script, comes a success.
   */
  lemma OneEntry(reader: Reader, r: ResponseValue, jitter: Jitter, retryCount: nat)
    ensures Deliver(ScriptOutcomes(reader, []), jitter, retryCount, 1).final == Acknowledged(1)
    ensures var run := Deliver(ScriptOutcomes(reader, [r]), jitter, retryCount, 1);
            var o := Response(r.status, reader.retryAfterOf(r.headers), true);
      && (r.disconnectBeforeHeaders ==> run.final == if retryCount == 0 then TransportError(1) else Acknowledged(2))
      && (!r.disconnectBeforeHeaders && r.status == 200 ==>
            run.final == if reader.decodes(r.body) && !r.disconnectAfterHeaders then Acknowledged(1) else DecodeFailure(1))
      && (!r.disconnectBeforeHeaders && r.status != 200 ==>
            run.final == if WorthRetrying(o) && retryCount > 0 then Acknowledged(2) else StatusFailure(r.status, 1))
  {
    var none, one := ScriptOutcomes(reader, []), ScriptOutcomes(reader, [r]);
    assert none(1) == Response(200, Absent, true) == one(2);
    assert one(1) == Observed(reader, Some(r));
    if retryCount > 0 {
      assert Deliver(one, jitter, retryCount, 2).final == Acknowledged(2);
    }
  }

  /** A journal entry for the request, whose headers are journaled in their normal form. */
  function Entry(request: Request, normal: Headers, sequence: nat): RecordValue {
    RecordValue(sequence, request.verb, request.path, Some(normal), request.body)
  }

  /** The journal of n attempts of one delivery: numbered from 1, otherwise identical. */
  function Journal(request: Request, normal: Headers, n: nat): (r: seq<RecordValue>)
    ensures |r| == n
    ensures forall i :: 0 <= i < n ==> r[i] == Entry(request, normal, i + 1)
  {
    if n == 0 then [] else Journal(request, normal, n - 1) + [Entry(request, normal, n)]
  }

  /** The record has every part of the request, its headers in their journal form, and its number. */
  predicate Journaled(r: RecordValue, request: Request, normal: Headers, sequence: nat) {
    && r.sequence == sequence && r.verb == request.verb && r.path == request.path && r.body == request.body
    && r.headers == Some(normal)
  }

  /** The server after n attempts on a fresh script. */
  function After(script: seq<ResponseValue>, request: Request, normal: Headers, n: nat): View {
    View(if n <= |script| then script[n..] else [], Journal(request, normal, n), n)
  }

  /** The headers of a request as the HTTP library hands them over. */
  method NewHeader(h: Headers) returns (m: Slices)
    ensures fresh(Arrays(m)) && Values(m) == h
  {
    m := map[];
    var names := h.Keys;
    while names != {}
      invariant names <= h.Keys == m.Keys + names && m.Keys !! names
      invariant forall name :: name in m ==> fresh(m[name]) && m[name][..] == h[name]
      decreases names
    {
      var name :| name in names;
      var values := h[name];
      var slice := new string[|values|](i requires 0 <= i < |values| => values[i]);
      assert slice[..] == values;
      m := m[name := slice];
      names := names - {name};
    }
  }

  /** handleIngest: normalize the headers, record, then take the next response. */
  method HandleIngest(store: State, request: Request, header: Slices, ghost normal: Headers)
    returns (answer: Option<ResponseValue>)
    requires store.Valid() && Values(header) == request.headers && IsJournalForm(request.headers, normal)
    modifies store, store.responses
    ensures store.Valid() && fresh(store.Owned() - old(store.Owned())) && store.responses == old(store.responses)
    ensures answer == NextOf(old(store.view)) && HasLoweredNames(request.headers, normal)
    ensures store.view == Consumed(Recorded(old(store.view), Entry(request, normal, 0)))
  {
    var headers := NormalizedHeaders(header, request.headers, normal);
    var record := RequestRecord(0, request.verb, request.path, headers, request.body);
    var copied := store.Record(record, Entry(request, normal, 0));
    assert copied == Entry(request, normal, 0);
    NamesAreLowered(request.headers, normal);
    var response := store.NextResponse();
    answer := match response case None => None case Some(r) => Some(r.Value());
  }

  /** The normalized headers are the journal form, whatever order their names are visited in. */
  method NormalizedHeaders(header: Slices, ghost values: Headers, ghost normal: Headers) returns (headers: HeaderMap)
    requires values == Values(header) && IsJournalForm(values, normal)
    ensures fresh(headers) && fresh(Arrays(headers.entries)) && Values(headers.entries) == normal && AllLower(normal)
  {
    var entries := NormalizeHeaders(header, values);
    ghost var form := Values(entries);
    JournalFormIsUnique(values, form, normal);
    assert form == normal;
    headers := new HeaderMap(entries);
    assert Values(headers.entries) == form;
  }

  lemma OneMore(script: seq<ResponseValue>, request: Request, normal: Headers, n: nat)
    ensures var v := After(script, request, normal, n);
      && NextOf(v) == (if n < |script| then Some(script[n]) else None)
      && Consumed(Recorded(v, Entry(request, normal, 0))) == After(script, request, normal, n + 1)
  {
  }

  /** The requests of n attempts, one after the other. */
  method ServeRequests(store: State, values: seq<ResponseValue>, request: Request, n: nat, ghost normal: Headers)
    returns (answers: seq<Option<ResponseValue>>)
    requires store.Valid() && store.view == After(values, request, normal, 0)
    requires IsJournalForm(request.headers, normal)
    modifies store, store.responses
    ensures store.Valid() && store.view == After(values, request, normal, n)
    ensures |answers| == n && forall k :: 0 <= k < n ==> answers[k] == AnswerTo(values, k + 1)
  {
    answers := [];
    for i := 0 to n
      invariant store.Valid() && store.responses == old(store.responses)
      invariant store.view == After(values, request, normal, i)
      invariant |answers| == i && forall k :: 0 <= k < i ==> answers[k] == AnswerTo(values, k + 1)
    {
      OneMore(values, request, normal, i);
      var header := NewHeader(request.headers);
      var answer := HandleIngest(store, request, header, normal);
      answers := answers + [answer];
    }
  }

  /** The same at a server that is first reset and scripted. */
  method Serve(
    store: State, script: array<ResponseSpec>, values: seq<ResponseValue>, ghost maps: set<object>, request: Request,
    n: nat)
    returns (answers: seq<Option<ResponseValue>>, ghost normal: Headers)
    requires store.Valid() && AreResponses(script[..], values, maps)
    modifies store
    ensures store.Valid() && IsJournalForm(request.headers, normal)
    ensures store.view == After(values, request, normal, n)
    ensures |store.view.requests| == n && store.view.responses == if n <= |values| then values[n..] else []
    ensures forall k :: 0 <= k < n ==> Journaled(store.view.requests[k], request, normal, k + 1)
    ensures |answers| == n && forall k :: 0 <= k < n ==> answers[k] == AnswerTo(values, k + 1)
  {
    var first := NewHeader(request.headers);
    var form := NormalizeHeaders(first, request.headers);
    normal := Values(form);
    store.Reset();
    store.ReplaceResponses(script, values, maps);
    assert values[0..] == values;
    answers := ServeRequests(store, values, request, n, normal);
  }

  // --- Every SDK against the server ----------------------------------------------------------------------------

  datatype Sdk = Python | Java | Node | Dotnet | Go

  /** What an SDK's options accept, and for Go what its jitter promises. */
  ghost predicate Accepts(sdk: Sdk, retryCount: nat, jitter: Jitter) {
    match sdk
    case Java => retryCount < MAX_INT32 as nat
    case Go => retryCount < MAX_INT as nat && DrawsWithinBounds(jitter)
    case _ => true
  }

  /** The loop of the SDK, not cancelled. */
  method RunLoop(sdk: Sdk, wire: Wire, retryCount: nat) returns (final: Final)
    requires wire.Unused() && Accepts(sdk, retryCount, wire.jitter)
    modifies wire
    ensures wire.Did(final, retryCount)
  {
    var context := new Context(_ => false, _ => false);
    var stop: Stop;
    match sdk {
      case Python =>
        final := PythonTrack(wire, retryCount);
        return;
      case Java =>
        stop := JavaTrack(wire, context, retryCount as int32);
      case Node =>
        stop := NodeDeliver(wire, context, retryCount);
      case Dotnet =>
        stop := DotnetTrack(wire, context, retryCount);
      case Go =>
        var result := Deliver64(wire, context, retryCount as int64);
        UncancelledIsDelivery(wire.outcomes, wire.jitter, context.cancelled, context.interrupts, retryCount, 1, 0);
        stop := Completed(result.final);
    }
    final := stop.final;
  }

  /**
   A delivery of any SDK against a server that was reset and scripted. Its loop meets exactly the answers that the
   server gives to its requests. The journal then holds one record per attempt, numbered and identical, and the queue
   holds the script minus one entry per attempt.
   */
  method DeliverToMock(
    sdk: Sdk, store: State, script: array<ResponseSpec>, values: seq<ResponseValue>, ghost maps: set<object>,
    request: Request, reader: Reader, jitter: Jitter, retryCount: nat)
    returns (final: Final, wire: Wire, answers: seq<Option<ResponseValue>>, ghost normal: Headers)
    requires store.Valid() && AreResponses(script[..], values, maps) && Accepts(sdk, retryCount, jitter)
    modifies store
    ensures |answers| == wire.sent
    ensures forall k :: 1 <= k <= wire.sent ==> wire.outcomes(k) == Observed(reader, answers[k - 1])
    ensures wire.sent == Min(retryCount + 1, 1 + RetryPrefix(reader, values))
    ensures wire.jitter == jitter && wire.Did(final, retryCount) && final == Ending(wire.outcomes(wire.sent), wire.sent)
    ensures IsJournalForm(request.headers, normal) && store.view == After(values, request, normal, wire.sent)
  {
    wire := new Wire(ScriptOutcomes(reader, values), jitter);
    final := RunLoop(sdk, wire, retryCount);
    AttemptsOfScript(reader, values, jitter, retryCount);
    answers, normal := Serve(store, script, values, maps, request, wire.sent);
  }
}
