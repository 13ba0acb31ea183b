/**
 The mock ingest server's state: a queue of scripted responses and a journal of requests. Maps and slices live on the
 heap, down to the values of each header. Everything that crosses the boundary is copied, so nothing a caller does to
 what it passed in or got back reaches the state.

 A mutex makes each method one atomic step; MockInterleaving composes the steps.
 */
module MockState {
  import opened Results
  import opened JournalHeaders

  // --- Values --------------------------------------------------------------------------------------------------

  datatype ResponseValue = ResponseValue(
    status: int, headers: Option<map<string, string>>, body: string, delayMs: int,
    disconnectBeforeHeaders: bool, disconnectAfterHeaders: bool)

  datatype RecordValue = RecordValue(
    sequence: nat, verb: string, path: string, headers: Option<Headers>, body: string)

  /** What the state holds, by value. */
  datatype View = View(responses: seq<ResponseValue>, requests: seq<RecordValue>, nextSeq: nat)

  const EMPTY := View([], [], 0)

  function Replaced(v: View, responses: seq<ResponseValue>): View {
    v.(responses := responses)
  }

  function Recorded(v: View, request: RecordValue): View {
    v.(requests := v.requests + [request.(sequence := v.nextSeq + 1)], nextSeq := v.nextSeq + 1)
  }

  function NextOf(v: View): Option<ResponseValue> {
    if v.responses == [] then None else Some(v.responses[0])
  }

  function Consumed(v: View): View {
    if v.responses == [] then v else v.(responses := v.responses[1..])
  }

  // --- Objects -------------------------------------------------------------------------------------------------

  /** A map[string]string on the heap. */
  class ResponseHeaders {
    var entries: map<string, string>

    constructor (entries: map<string, string>)
      ensures this.entries == entries
    {
      this.entries := entries;
    }
  }

  /** A value object holding a reference to a header map, which may be nil. */
  datatype ResponseSpec = ResponseSpec(
    status: int, headers: ResponseHeaders?, body: string, delayMs: int,
    disconnectBeforeHeaders: bool, disconnectAfterHeaders: bool)
  {
    function Value(): ResponseValue
      reads headers
    {
      ResponseValue(status, if headers == null then None else Some(headers.entries), body, delayMs,
                    disconnectBeforeHeaders, disconnectAfterHeaders)
    }
  }

  const NO_RESPONSE := ResponseSpec(0, null, "", 0, false, false)

  datatype RequestRecord = RequestRecord(
    sequence: nat, verb: string, path: string, headers: HeaderMap?, body: string)
  {
    /** The header map and the arrays its slices are over. */
    function Refs(): set<object>
      reads headers
    {
      if headers == null then {} else {headers} + Arrays(headers.entries)
    }

    ghost function Value(): RecordValue
      reads headers, Refs()
    {
      RecordValue(sequence, verb, path, if headers == null then None else Some(Values(headers.entries)), body)
    }
  }

  const NO_REQUEST := RequestRecord(0, "", "", null, "")

  /** Headers with lower-case names, as handleIngest leaves them, or none. */
  predicate Normalized(headers: Option<Headers>) {
    headers.Some? ==> AllLower(headers.value)
  }

  predicate AllNormalized(values: seq<RecordValue>) {
    forall i :: 0 <= i < |values| ==> Normalized(values[i].headers)
  }

  /** The responses by value; their header maps are among the given objects. */
  predicate AreResponses(rs: seq<ResponseSpec>, values: seq<ResponseValue>, maps: set<object>)
    reads maps
  {
    && |rs| == |values|
    && forall k :: 0 <= k < |rs| ==> (rs[k].headers != null ==> rs[k].headers in maps) && rs[k].Value() == values[k]
  }

  /** The records by value; their header maps and the arrays of their slices are among the given objects. */
  ghost predicate AreRecords(rs: seq<RequestRecord>, values: seq<RecordValue>, refs: set<object>)
    reads refs
  {
    && |rs| == |values|
    && forall k :: 0 <= k < |rs| ==>
         (rs[k].headers != null ==> rs[k].headers in refs) && rs[k].Refs() <= refs && rs[k].Value() == values[k]
  }

  // --- Copies --------------------------------------------------------------------------------------------------

  method CopyResponseHeaders(headers: ResponseHeaders?) returns (copy: ResponseHeaders?)
    ensures copy == null <==> headers == null
    ensures copy != null ==> fresh(copy) && copy.entries == headers.entries
  {
    if headers == null {
      return null;
    }
    copy := new ResponseHeaders(map[]);
    var keys := headers.entries.Keys;
    while keys != {}
      invariant keys <= headers.entries.Keys && copy.entries == headers.entries - keys
      invariant fresh(copy)
      decreases keys
    {
      var key :| key in keys;
      copy.entries := copy.entries[key := headers.entries[key]];
      keys := keys - {key};
    }
    assert headers.entries - {} == headers.entries;
  }

  method CopyResponse(response: ResponseSpec) returns (copy: ResponseSpec)
    ensures copy.headers != null ==> fresh(copy.headers)
    ensures copy.Value() == response.Value()
  {
    var headers := CopyResponseHeaders(response.headers);
    return response.(headers := headers);
  }

  /** The names are lowered on the way; names that are lower already keep their values in order. */
  method CopyNormalizedHeaders(headers: HeaderMap?, ghost values: Headers) returns (copy: HeaderMap?)
    requires headers != null ==> values == Values(headers.entries)
    ensures copy == null <==> headers == null
    ensures copy != null ==> fresh(copy) && fresh(Arrays(copy.entries))
    ensures copy != null ==> IsMerge(values, values.Keys, Values(copy.entries))
    ensures copy != null && AllLower(values) ==> Values(copy.entries) == values
  {
    if headers == null {
      return null;
    }
    var entries := MergeHeaders(headers.entries, values);
    copy := new HeaderMap(entries);
  }

  /** The names lowered and their values merged, or nil for nil. */
  ghost predicate MergedOptional(h: Option<Headers>, r: Option<Headers>) {
    (h.None? <==> r.None?) && (h.Some? ==> IsMerge(h.value, h.value.Keys, r.value))
  }

  lemma MergedAreLower(h: Headers, r: Headers)
    requires r.Keys == LowerNames(h.Keys)
    ensures AllLower(r)
  {
    forall key | key in r
      ensures IsLower(key)
    {
      var name :| name in h && Lower(name) == key;
      LowerTwice(name);
    }
  }

  /** The copy's value, which is the request's own if its names are lower-case. */
  ghost predicate IsCopy(value: RecordValue, copy: RecordValue) {
    && copy == value.(headers := copy.headers)
    && MergedOptional(value.headers, copy.headers) && Normalized(copy.headers)
    && (Normalized(value.headers) ==> copy == value)
  }

  method CopyRequest(request: RequestRecord, ghost value: RecordValue) returns (copy: RequestRecord)
    requires value == request.Value()
    ensures fresh(copy.Refs()) && copy == request.(headers := copy.headers)
    ensures IsCopy(value, copy.Value())
  {
    ghost var values := if value.headers.Some? then value.headers.value else map[];
    var headers := CopyNormalizedHeaders(request.headers, values);
    if headers != null {
      MergedAreLower(values, Values(headers.entries));
    }
    return request.(headers := headers);
  }

  method CopyResponses(rs: array<ResponseSpec>, ghost values: seq<ResponseValue>, ghost maps: set<object>)
    returns (copies: array<ResponseSpec>, ghost own: set<object>)
    requires AreResponses(rs[..], values, maps)
    ensures fresh(copies) && fresh(own) && copies !in own
    ensures AreResponses(copies[..], values, own)
  {
    copies := new ResponseSpec[rs.Length](_ => NO_RESPONSE);
    own := {};
    for i := 0 to rs.Length
      invariant fresh(own) && copies !in own && AreResponses(copies[..i], values[..i], own)
      invariant AreResponses(rs[..], values, maps)
    {
      var copy := CopyResponse(rs[i]);
      copies[i] := copy;
      own := own + if copy.headers == null then {} else {copy.headers};
      assert copies[..i + 1] == copies[..i] + [copy];
    }
  }

  method CopyRequests(rs: array<RequestRecord>, ghost values: seq<RecordValue>, ghost refs: set<object>)
    returns (copies: array<RequestRecord>, ghost own: set<object>)
    requires AreRecords(rs[..], values, refs) && AllNormalized(values)
    ensures fresh(copies) && fresh(own) && copies !in own
    ensures AreRecords(copies[..], values, own)
  {
    var all: seq<RequestRecord> := [];
    own := {};
    for i := 0 to rs.Length
      invariant fresh(own) && AreRecords(all, values[..i], own)
      invariant AreRecords(rs[..], values, refs)
    {
      var copy := CopyRequest(rs[i], values[i]);
      all := all + [copy];
      own := own + copy.Refs();
    }
    copies := new RequestRecord[|all|](i requires 0 <= i < |all| => all[i]);
    assert copies[..] == all && values[..rs.Length] == values;
  }

  /** append(rs, copy), into an array of its own, where copy is a copy of the request. */
  method AppendCopy(
    rs: array<RequestRecord>, request: RequestRecord, sequence: nat, ghost values: seq<RecordValue>,
    ghost refs: set<object>, ghost value: RecordValue)
    returns (r: array<RequestRecord>, ghost copied: RecordValue, ghost more: set<object>)
    requires AreRecords(rs[..], values, refs) && value == request.Value()
    ensures fresh(r) && r !in more && refs <= more && fresh(more - refs) && IsCopy(value, copied)
    ensures AreRecords(r[..], values + [copied.(sequence := sequence)], more)
  {
    var copy := CopyRequest(request, value);
    copied, more := copy.Value(), refs + copy.Refs();
    var all := rs[..] + [copy.(sequence := sequence)];
    r := new RequestRecord[|all|](i requires 0 <= i < |all| => all[i]);
    assert r[..] == all;
  }

  // --- The state -----------------------------------------------------------------------------------------------

  class State {
    /** The queue is the slice responses[next..]. */
    var responses: array<ResponseSpec>
    var next: nat
    var requests: array<RequestRecord>
    var nextSeq: nat

    /** What the state holds, by value. */
    ghost var view: View

    /** The maps and arrays the elements of the slices refer to. */
    ghost var refs: set<object>

    ghost function Owned(): set<object>
      reads this
    {
      {responses, requests} + refs
    }

    /** The view is what the slices hold, and the journal's headers have lower-case names. */
    ghost predicate Valid()
      reads this, Owned()
    {
      && next <= responses.Length && nextSeq == view.nextSeq && {this, responses, requests} !! refs
      && AreResponses(responses[next..], view.responses, refs)
      && AreRecords(requests[..], view.requests, refs) && AllNormalized(view.requests)
    }

    constructor ()
      ensures Valid() && view == EMPTY && fresh(Owned())
    {
      responses, next := new ResponseSpec[0](_ => NO_RESPONSE), 0;
      requests, nextSeq := new RequestRecord[0](_ => NO_REQUEST), 0;
      view, refs := EMPTY, {};
    }

    method Reset()
      modifies this
      ensures Valid() && view == EMPTY && fresh(Owned())
    {
      responses, next := new ResponseSpec[0](_ => NO_RESPONSE), 0;
      requests, nextSeq := new RequestRecord[0](_ => NO_REQUEST), 0;
      view, refs := EMPTY, {};
    }

    method ReplaceResponses(scripted: array<ResponseSpec>, ghost values: seq<ResponseValue>, ghost maps: set<object>)
      requires Valid() && AreResponses(scripted[..], values, maps)
      modifies this
      ensures Valid() && fresh(Owned() - old(Owned())) && fresh(responses)
      ensures view == Replaced(old(view), values)
    {
      ghost var own;
      responses, own := CopyResponses(scripted, values, maps);
      next := 0;
      assert responses[0..] == responses[..];
      view, refs := Replaced(view, values), refs + own;
    }

    /** The journal takes a copy with lowered names; headers that are normalized already are kept as they are. */
    method Record(request: RequestRecord, ghost value: RecordValue) returns (ghost copied: RecordValue)
      requires Valid() && value == request.Value()
      modifies this
      ensures Valid() && fresh(Owned() - old(Owned())) && responses == old(responses)
      ensures IsCopy(value, copied) && view == Recorded(old(view), copied)
    {
      var all;
      ghost var more;
      all, copied, more := AppendCopy(requests, request, nextSeq + 1, view.requests, refs, value);
      Install(all, Recorded(view, copied), more);
    }

    /** The fields after one more record. */
    method Install(all: array<RequestRecord>, ghost next: View, ghost more: set<object>)
      requires Valid() && refs <= more && {this, responses, all} !! more
      requires next.responses == view.responses && next.nextSeq == nextSeq + 1
      requires AreRecords(all[..], next.requests, more) && AllNormalized(next.requests)
      modifies this
      ensures Valid() && requests == all && refs == more && view == next && responses == old(responses)
    {
      requests, nextSeq := all, nextSeq + 1;
      view, refs := next, more;
    }

    method NextResponse() returns (response: Option<ResponseSpec>)
      requires Valid()
      modifies this, responses
      ensures Valid() && Owned() == old(Owned()) && responses == old(responses)
      ensures view == Consumed(old(view))
      ensures match response
              case None => NextOf(old(view)) == None
              case Some(r) => NextOf(old(view)) == Some(r.Value()) && (r.headers != null ==> fresh(r.headers))
    {
      if next == responses.Length {
        return None;
      }
      var copy := CopyResponse(responses[next]);
      assert responses[next..][1..] == responses[next + 1..];
      Advance();
      return Some(copy);
    }

    /** Clears the first slot of the queue and moves past it. */
    method Advance()
      requires Valid() && next < responses.Length
      modifies this, responses
      ensures Valid() && Owned() == old(Owned()) && responses == old(responses) && view == Consumed(old(view))
    {
      responses[next] := NO_RESPONSE;
      next := next + 1;
      view := Consumed(view);
    }

    method Requests() returns (snapshot: array<RequestRecord>, ghost own: set<object>)
      requires Valid()
      ensures fresh(snapshot) && fresh(own)
      ensures AreRecords(snapshot[..], view.requests, own)
    {
      snapshot, own := CopyRequests(requests, view.requests, refs);
    }
  }

  // --- What a caller can do ------------------------------------------------------------------------------------

  /** A caller overwriting a header map it holds. */
  method ScribbleOnResponse(headers: ResponseHeaders?, garbage: map<string, string>)
    modifies headers
  {
    if headers != null {
      headers.entries := garbage;
    }
  }

  /** A caller overwriting a script it passed in: the maps and the slots. */
  method ScribbleOnScript(rs: array<ResponseSpec>, ghost maps: set<object>, garbage: map<string, string>)
    requires forall k :: 0 <= k < rs.Length && rs[k].headers != null ==> rs[k].headers in maps
    modifies rs, maps
  {
    for i := 0 to rs.Length
      invariant forall k :: i <= k < rs.Length ==> rs[k] == old(rs[k])
    {
      ScribbleOnResponse(rs[i].headers, garbage);
      rs[i] := NO_RESPONSE;
    }
  }

  method ScribbleOnValues(m: Slices, junk: string)
    modifies Arrays(m)
  {
    var names := m.Keys;
    while names != {}
      invariant names <= m.Keys
      decreases names
    {
      var name :| name in names;
      assert m[name] in Arrays(m);
      for i := 0 to m[name].Length {
        m[name][i] := junk;
      }
      names := names - {name};
    }
  }

  /** A caller overwriting the headers of a request: every value, and the map. */
  method ScribbleOnHeaders(headers: HeaderMap?, ghost refs: set<object>, junk: string)
    requires headers != null ==> headers in refs && Arrays(headers.entries) <= refs
    modifies refs
  {
    if headers != null {
      ScribbleOnValues(headers.entries, junk);
      headers.entries := map[];
    }
  }

  /** A caller overwriting a snapshot it got: the headers and the slots. */
  method ScribbleOnSnapshot(rs: array<RequestRecord>, ghost refs: set<object>, junk: string)
    requires forall k :: 0 <= k < rs.Length && rs[k].headers != null ==> rs[k].headers in refs && rs[k].Refs() <= refs
    modifies rs, refs
  {
    for i := 0 to rs.Length
      invariant forall k :: i <= k < rs.Length ==> rs[k] == old(rs[k])
      invariant forall k :: i <= k < rs.Length && rs[k].headers != null ==> rs[k].Refs() <= refs
    {
      var headers := rs[i].headers;
      if headers != null {
        ScribbleOnValues(headers.entries, junk);
        headers.entries := map[];
      }
      rs[i] := NO_REQUEST;
    }
  }

  // Whatever a caller does to the slices and maps it passed in or got back, the state holds what the method left there.

  method QueueThenScribble(
    state: State, script: array<ResponseSpec>, ghost values: seq<ResponseValue>, ghost maps: set<object>,
    garbage: map<string, string>)
    requires state.Valid() && AreResponses(script[..], values, maps)
    requires state !in maps && {script} + maps !! state.Owned()
    modifies state, script, maps
    ensures state.Valid() && state.view == Replaced(old(state.view), values)
  {
    state.ReplaceResponses(script, values, maps);
    ScribbleOnScript(script, maps, garbage);
  }

  method RecordThenScribble(state: State, request: RequestRecord, ghost value: RecordValue, junk: string)
    requires state.Valid() && value == request.Value() && Normalized(value.headers)
    requires state !in request.Refs() && request.Refs() !! state.Owned()
    modifies state, request.Refs()
    ensures state.Valid() && state.view == Recorded(old(state.view), value)
  {
    ghost var refs := request.Refs();
    var copied := state.Record(request, value);
    assert copied == value && refs !! state.Owned();
    ScribbleOnHeaders(request.headers, refs, junk);
  }

  method TakeThenScribble(state: State, garbage: map<string, string>)
    requires state.Valid()
    modifies state, state.responses
    ensures state.Valid() && state.view == Consumed(old(state.view))
  {
    var response := state.NextResponse();
    if response.Some? {
      ScribbleOnResponse(response.value.headers, garbage);
    }
  }

  method ReadThenScribble(state: State, junk: string)
    requires state.Valid()
    ensures state.Valid() && state.view == old(state.view)
  {
    var snapshot, own := state.Requests();
    ScribbleOnSnapshot(snapshot, own, junk);
  }
}
