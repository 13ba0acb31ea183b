/**
 The retry loops of the Python, Java, Node.js and .NET SDKs in their own shapes. Each is proved to send the requests,
 sleep the pauses and return the result of the one delivery specification, on every transcript and every jitter stream.

 The last three can be cancelled. Whatever the moment, a loop that completes has still made the specified run; one that
 is stopped has made a beginning of it, and no attempt passed the head check after the cancellation.
 */
module DeliveryLoops {
  import opened Results
  import opened Utf16
  import opened RetryPolicy
  import opened Delivery
  import opened Cancellation

  /** The HTTP client, the sleeper and the jitter source of one delivery, with what has been done to them. */
  class Wire {
    const outcomes: Outcomes
    const jitter: Jitter
    var sent: nat
    var drawn: nat
    var slept: seq<real>

    constructor (outcomes: Outcomes, jitter: Jitter)
      ensures this.outcomes == outcomes && this.jitter == jitter && Unused()
    {
      this.outcomes, this.jitter, sent, drawn, slept := outcomes, jitter, 0, 0, [];
    }

    ghost predicate Unused()
      reads this
    {
      sent == 0 && drawn == 0 && slept == []
    }

    /** Sends one more request. */
    method Execute() returns (o: Outcome)
      modifies `sent
      ensures sent == old(sent) + 1 && o == outcomes(sent)
    {
      sent := sent + 1;
      return outcomes(sent);
    }

    /** Draws the next jitter value for a bound. */
    method Draw(bound: nat) returns (d: real)
      modifies `drawn
      ensures drawn == old(drawn) + 1 && d == jitter(drawn, bound)
    {
      drawn := drawn + 1;
      return jitter(drawn, bound);
    }

    method Sleep(delay: real)
      modifies `slept
      ensures slept == old(slept) + [delay]
    {
      slept := slept + [delay];
    }

    /** Everything done on the wire, with a result, is the run of the specification. */
    ghost predicate Did(final: Final, retryCount: nat)
      reads this
    {
      Run(sent, slept, final) == Deliver(outcomes, jitter, retryCount, 1)
    }

    /** What was done on the wire is a beginning of the run of the specification. */
    ghost predicate Began(retryCount: nat)
      reads this
    {
      var run := Deliver(outcomes, jitter, retryCount, 1);
      sent <= run.attempts && slept <= run.delays
    }

    ghost predicate Midway(attempts: nat, retryCount: nat)
      reads this
    {
      sent == drawn == attempts <= retryCount && Retried(outcomes, jitter, attempts, slept)
    }
  }

  /** How a loop that can be cancelled ends. */
  datatype Stop = Completed(final: Final) | Cancelled

  /** A completed loop made the run of the specification; a cancelled one began it and found the signal cancelled. */
  ghost predicate Obeyed(wire: Wire, context: Context, stop: Stop, retryCount: nat)
    reads wire, context
  {
    && wire.sent == |context.admitted| && InOrder(context.admitted, context.cancelled)
    && match stop
       case Completed(final) => wire.Did(final, retryCount)
       case Cancelled => context.cancelled(context.tick) && wire.Began(retryCount)
  }

  /** Every one of the first attempts was transient, and its pause was slept. */
  ghost predicate Retried(outcomes: Outcomes, jitter: Jitter, attempts: nat, slept: seq<real>) {
    |slept| == attempts && forall k :: 1 <= k <= attempts ==> PausedAfter(outcomes, jitter, slept, k)
  }

  predicate PausedAfter(outcomes: Outcomes, jitter: Jitter, slept: seq<real>, k: nat)
    requires 1 <= k <= |slept|
  {
    Transient(outcomes(k)) && slept[k - 1] == Pause(k, outcomes(k), jitter)
  }

  /** What is done before an attempt is a beginning of the run, and the attempt is made whatever comes of it. */
  lemma Underway(outcomes: Outcomes, jitter: Jitter, retryCount: nat, attempts: nat, slept: seq<real>)
    requires attempts <= retryCount && Retried(outcomes, jitter, attempts, slept)
    ensures attempts + 1 <= Deliver(outcomes, jitter, retryCount, 1).attempts
    ensures slept <= Deliver(outcomes, jitter, retryCount, 1).delays
  {
    var run := Deliver(outcomes, jitter, retryCount, 1);
    DeliverIsRun(outcomes, jitter, retryCount, 1);
    assert run.attempts > attempts || PausedAfter(outcomes, jitter, slept, run.attempts);
    forall k | 0 <= k < |slept|
      ensures slept[k] == run.delays[k]
    {
      assert PausedAfter(outcomes, jitter, slept, k + 1) && RetriedAt(run, outcomes, jitter, 1, k + 1);
    }
  }

  /** One more transient outcome, and its pause. */
  lemma Continue(outcomes: Outcomes, jitter: Jitter, attempt: nat, before: seq<real>, slept: seq<real>)
    requires attempt >= 1 && Retried(outcomes, jitter, attempt - 1, before)
    requires Transient(outcomes(attempt)) && slept == before + [Pause(attempt, outcomes(attempt), jitter)]
    ensures Retried(outcomes, jitter, attempt, slept)
  {
    forall k | 1 <= k <= attempt
      ensures PausedAfter(outcomes, jitter, slept, k)
    {
      assert k < attempt ==> PausedAfter(outcomes, jitter, before, k);
    }
  }

  /** The last attempt completes the run. */
  lemma Finish(outcomes: Outcomes, jitter: Jitter, retryCount: nat, attempt: nat, slept: seq<real>)
    requires 1 <= attempt <= retryCount + 1 && Retried(outcomes, jitter, attempt - 1, slept)
    requires Transient(outcomes(attempt)) ==> attempt == retryCount + 1
    ensures Run(attempt, slept, Ending(outcomes(attempt), attempt)) == Deliver(outcomes, jitter, retryCount, 1)
  {
    var run := Run(attempt, slept, Ending(outcomes(attempt), attempt));
    forall k | 1 <= k < attempt
      ensures RetriedAt(run, outcomes, jitter, 1, k)
    {
      assert PausedAfter(outcomes, jitter, slept, k);
    }
    RunIsUnique(run, outcomes, jitter, retryCount);
  }

  /** The response decoders: an acknowledgement for a 200 whose body is readable and valid, else the status's error. */
  function Decode(status: int, decodes: bool, attempts: nat): Final {
    if status == 200 then if decodes then Acknowledged(attempts) else DecodeFailure(attempts)
    else StatusFailure(status, attempts)
  }

  // --- Python --------------------------------------------------------------------------------------------------

  /** retry_delay: None when the header exceeds the cap. */
  method PythonRetryDelay(wire: Wire, retryNumber: nat, retryAfter: RetryAfter) returns (delay: Option<real>)
    requires retryNumber >= 1
    modifies wire`drawn
    ensures Acceptable(retryAfter) ==>
              && wire.drawn == old(wire.drawn) + 1
              && delay == Some(Longer(wire.jitter(wire.drawn, DelayBound(retryNumber)), Requested(retryAfter) as real))
    ensures !Acceptable(retryAfter) ==> delay == None && wire.drawn == old(wire.drawn)
  {
    if retryAfter.Unbounded? || (retryAfter.After? && retryAfter.delay > 5000) {
      return None;
    }
    BoundsAgree(retryNumber);
    var jittered := wire.Draw(PythonUpperBound(retryNumber));
    var requested := if retryAfter.After? then retryAfter.delay as real else 0.0;
    return Some(if requested > jittered then requested else jittered);
  }

  method PythonTrack(wire: Wire, retryCount: nat) returns (final: Final)
    requires wire.Unused()
    modifies wire
    ensures wire.Did(final, retryCount)
  {
    var attempts: nat := 0;
    while true
      invariant wire.Midway(attempts, retryCount)
      decreases retryCount - attempts
    {
      ghost var before := wire.slept;
      attempts := attempts + 1;
      var response := wire.Execute();
      if response.TransportFailure? {
        if attempts > retryCount {
          Finish(wire.outcomes, wire.jitter, retryCount, attempts, before);
          return TransportError(attempts);
        }
        var pause := PythonRetryDelay(wire, attempts, Absent);
        wire.Sleep(if pause.Some? then pause.value else 0.0);
        Continue(wire.outcomes, wire.jitter, attempts, before, wire.slept);
        continue;
      }
      if RetryableStatus(response.status) && attempts <= retryCount {
        var delay := PythonRetryDelay(wire, attempts, response.retryAfter);
        if delay.Some? {
          wire.Sleep(delay.value);
          Continue(wire.outcomes, wire.jitter, attempts, before, wire.slept);
          continue;
        }
      }
      Finish(wire.outcomes, wire.jitter, retryCount, attempts, before);
      return Decode(response.status, response.decodes, attempts);
    }
  }

  // --- Java ----------------------------------------------------------------------------------------------------

  newtype int32 = x: int | -0x8000_0000 <= x < 0x8000_0000

  const MAX_INT32: int32 := 0x7FFF_FFFF

  /** Sleeps the longer of the jitter and the requested delay; an interrupted thread may not sleep it out. */
  method JavaBackoff(wire: Wire, context: Context, retry: int32, retryAfter: RetryAfter) returns (interrupted: bool)
    requires retry >= 1 && Acceptable(retryAfter)
    modifies wire`drawn, wire`slept, context`tick
    ensures wire.drawn == old(wire.drawn) + 1 && context.tick == old(context.tick) + 1
    ensures wire.slept == old(wire.slept)
                          + [Longer(wire.jitter(wire.drawn, DelayBound(retry as nat)), Requested(retryAfter) as real)]
    ensures interrupted ==> context.cancelled(context.tick)
  {
    BoundsAgree(retry as nat);
    var jitter := wire.Draw(JavaDelayBound(retry as int));
    var requested := if retryAfter.After? then retryAfter.delay as real else 0.0;
    wire.Sleep(if jitter < requested then requested else jitter);
    interrupted := context.Stopped();
  }

  method JavaTrack(wire: Wire, context: Context, retryCount: int32) returns (stop: Stop)
    requires wire.Unused() && context.admitted == [] && 0 <= retryCount < MAX_INT32
    modifies wire, context
    ensures Obeyed(wire, context, stop, retryCount as nat)
  {
    var maximumAttempts: int32 := retryCount + 1;
    var attempt: int32 := 1;
    ghost var n := retryCount as nat;
    while true
      invariant 1 <= attempt <= maximumAttempts && wire.Midway(attempt as nat - 1, n)
      invariant context.Orderly(wire.sent)
      decreases maximumAttempts - attempt
    {
      ghost var before := wire.slept;
      var interrupted := context.Admit();
      if interrupted {
        Underway(wire.outcomes, wire.jitter, n, attempt as nat - 1, before);
        return Cancelled;
      }
      var response := wire.Execute();
      interrupted := context.Stopped();
      if interrupted {
        Underway(wire.outcomes, wire.jitter, n, attempt as nat - 1, before);
        return Cancelled;
      }
      var retryAfter := Absent;
      if response.TransportFailure? {
        if attempt >= maximumAttempts {
          Finish(wire.outcomes, wire.jitter, n, attempt as nat, before);
          return Completed(TransportError(attempt as nat));
        }
      } else {
        var retry := false;
        if attempt < maximumAttempts && RetryableStatus(response.status) {
          retryAfter := response.retryAfter;
          retry := retryAfter.Absent? || (retryAfter.After? && retryAfter.delay <= 5000);
        }
        if !retry {
          Finish(wire.outcomes, wire.jitter, n, attempt as nat, before);
          return Completed(Decode(response.status, response.decodes, attempt as nat));
        }
      }
      interrupted := JavaBackoff(wire, context, attempt, retryAfter);
      Continue(wire.outcomes, wire.jitter, attempt as nat, before, wire.slept);
      if interrupted {
        Underway(wire.outcomes, wire.jitter, n, attempt as nat, wire.slept);
        return Cancelled;
      }
      attempt := attempt + 1;
    }
  }

  // --- Node.js -------------------------------------------------------------------------------------------------

  /** What attempt returns or throws: an acknowledgement, a response to retry, or an error. */
  datatype NodeResult = Acknowledgement(final: Final) | RetryResponse(retryAfterMs: Option<nat>) | Threw(error: NodeError)

  /** The abort reason, an error that tells the outcome, or a failure that does not. */
  datatype NodeError = AbortReason | KnownOutcome(final: Final) | UnknownOutcome

  function RetryAfterMs(r: RetryAfter): Option<nat> {
    if r.After? then Some(r.delay) else None
  }

  /** What an attempt that was not aborted can come to. */
  predicate NodeOutcome(r: NodeResult, o: Outcome, attempts: nat, last: bool) {
    match r
    case Acknowledgement(final) => !Transient(o) && final == Ending(o, attempts)
    case RetryResponse(ms) => !last && Transient(o) && o.Response? && ms == RetryAfterMs(o.retryAfter)
    case Threw(UnknownOutcome) => o.TransportFailure?
    case Threw(KnownOutcome(final)) => (last || !Transient(o)) && o.Response? && final == Ending(o, attempts)
    case Threw(AbortReason) => false
  }

  /** The request, and what its callback makes of the response; the abort signal can stop both. */
  method NodeAttempt(wire: Wire, context: Context, attempts: nat, last: bool) returns (r: NodeResult)
    requires NeverTakenBack(context.cancelled) && attempts >= 1 && wire.sent == attempts - 1
    modifies wire`sent, context`tick
    ensures wire.sent == attempts && context.tick > old(context.tick)
    ensures if r == Threw(AbortReason) then context.cancelled(context.tick)
            else NodeOutcome(r, wire.outcomes(attempts), attempts, last)
  {
    var response := wire.Execute();
    var aborted := context.Stopped();
    if aborted || response.TransportFailure? {
      aborted := context.Err();
      return Threw(if aborted then AbortReason else UnknownOutcome);
    }
    aborted := context.Err();
    if aborted {
      return Threw(AbortReason);
    }
    if RetryableStatus(response.status) && !last {
      var requested := response.retryAfter;
      if requested.Absent? || (requested.After? && requested.delay <= 5000) {
        return RetryResponse(RetryAfterMs(requested));
      }
    }
    aborted := context.Stopped();
    var final := Decode(response.status, response.decodes && !aborted, attempts);
    if final.Acknowledged? {
      return Acknowledgement(final);
    }
    aborted := context.Err();
    return Threw(if aborted then AbortReason else KnownOutcome(final));
  }

  /** Waits the longer of the jitter and the requested delay; the signal is looked at before, meanwhile and after. */
  method NodeBackoff(wire: Wire, context: Context, retryNumber: nat, retryAfterMs: Option<nat>) returns (aborted: bool)
    requires retryNumber >= 1
    modifies wire`drawn, wire`slept, context`tick
    ensures context.tick > old(context.tick) && (aborted ==> context.cancelled(context.tick))
    ensures var requested := if retryAfterMs.Some? then retryAfterMs.value else 0;
            var pause := Longer(wire.jitter(old(wire.drawn) + 1, DelayBound(retryNumber)), requested as real);
      && (!aborted ==> wire.drawn == old(wire.drawn) + 1 && wire.slept == old(wire.slept) + [pause])
      && (aborted ==> wire.slept <= old(wire.slept) + [pause])
  {
    aborted := context.Err();
    if aborted {
      return;
    }
    BoundsAgree(retryNumber);
    var jitter := wire.Draw(NodeDelayBound(retryNumber));
    var requested := (if retryAfterMs.Some? then retryAfterMs.value else 0) as real;
    aborted := context.Err();
    if aborted {
      return;
    }
    wire.Sleep(if requested > jitter then requested else jitter);
    aborted := context.Stopped();
    if !aborted {
      aborted := context.Err();
    }
  }

  method NodeDeliver(wire: Wire, context: Context, retryCount: nat) returns (stop: Stop)
    requires wire.Unused() && context.admitted == [] && NeverTakenBack(context.cancelled)
    modifies wire, context
    ensures Obeyed(wire, context, stop, retryCount)
  {
    var maximumAttempts := retryCount + 1;
    var attempts := 1;
    while attempts <= maximumAttempts
      invariant 1 <= attempts <= maximumAttempts && wire.Midway(attempts - 1, retryCount)
      invariant context.Orderly(wire.sent)
      decreases maximumAttempts - attempts
    {
      ghost var before := wire.slept;
      var aborted := context.Admit();
      if aborted {
        Underway(wire.outcomes, wire.jitter, retryCount, attempts - 1, before);
        return Cancelled;
      }
      var retryAfterMs: Option<nat> := None;
      var result := NodeAttempt(wire, context, attempts, attempts == maximumAttempts);
      match result {
        case Acknowledgement(final) =>
          Finish(wire.outcomes, wire.jitter, retryCount, attempts, before);
          return Completed(final);
        case RetryResponse(ms) =>
          retryAfterMs := ms;
        case Threw(error) =>
          aborted := context.Err();
          if aborted {
            Underway(wire.outcomes, wire.jitter, retryCount, attempts - 1, before);
            return Cancelled;
          }
          if error.KnownOutcome? {
            Finish(wire.outcomes, wire.jitter, retryCount, attempts, before);
            return Completed(error.final);
          }
          if attempts == maximumAttempts {
            Finish(wire.outcomes, wire.jitter, retryCount, attempts, before);
            return Completed(TransportError(attempts));
          }
      }
      ghost var after := before + [Pause(attempts, wire.outcomes(attempts), wire.jitter)];
      Continue(wire.outcomes, wire.jitter, attempts, before, after);
      aborted := NodeBackoff(wire, context, attempts, retryAfterMs);
      if aborted {
        Underway(wire.outcomes, wire.jitter, retryCount, attempts, after);
        return Cancelled;
      }
      attempts := attempts + 1;
    }
  }

  // --- .NET ----------------------------------------------------------------------------------------------------

  /** What follows an attempt that was not cancelled: a delay before the next one, or the result. */
  method DotnetVerdict(wire: Wire, attempts: nat, response: Outcome, retryCount: nat)
    returns (delay: Option<real>, final: Final)
    requires attempts == wire.drawn + 1
    modifies wire`drawn
    ensures match delay
            case None => final == Ending(response, attempts) && (Transient(response) ==> attempts > retryCount)
            case Some(pause) =>
              && attempts <= retryCount && Transient(response) && wire.drawn == attempts
              && pause == Pause(attempts, response, wire.jitter)
  {
    delay, final := None, TransportError(attempts);
    if response.TransportFailure? {
      if attempts <= retryCount {
        delay := PythonRetryDelay(wire, attempts, Absent);
      }
      return;
    }
    if RetryableStatus(response.status) && attempts <= retryCount {
      delay := PythonRetryDelay(wire, attempts, response.retryAfter);
    }
    final := Decode(response.status, response.decodes, attempts);
  }

  method DotnetTrack(wire: Wire, context: Context, retryCount: nat) returns (stop: Stop)
    requires wire.Unused() && context.admitted == []
    modifies wire, context
    ensures Obeyed(wire, context, stop, retryCount)
  {
    var attempts: nat := 0;
    while true
      invariant wire.Midway(attempts, retryCount) && context.Orderly(wire.sent)
      decreases retryCount - attempts
    {
      ghost var before := wire.slept;
      var cancelled := context.Admit();
      if cancelled {
        Underway(wire.outcomes, wire.jitter, retryCount, attempts, before);
        return Cancelled;
      }
      attempts := attempts + 1;
      var response := wire.Execute();
      cancelled := context.Stopped();
      if cancelled {
        Underway(wire.outcomes, wire.jitter, retryCount, attempts - 1, before);
        return Cancelled;
      }
      var delay, final := DotnetVerdict(wire, attempts, response, retryCount);
      if delay.None? {
        Finish(wire.outcomes, wire.jitter, retryCount, attempts, before);
        return Completed(final);
      }
      wire.Sleep(delay.value);
      Continue(wire.outcomes, wire.jitter, attempts, before, wire.slept);
      cancelled := context.Stopped();
      if cancelled {
        Underway(wire.outcomes, wire.jitter, retryCount, attempts, wire.slept);
        return Cancelled;
      }
    }
  }
}
