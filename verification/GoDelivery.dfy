/**
 Go's deliver, with the caller's context. Time is counted in ticks, one for each interaction with the world: the check
 at the head of the loop, the request, the transport's own look at the context, the check after the attempt, and the
 pause.
 */
module GoDelivery {
  import opened Results
  import opened RetryPolicy
  import opened Delivery
  import opened Cancellation
  import opened DeliveryLoops

  datatype GoFinal = Finished(final: Final) | ContextError | InvalidRetryCount

  /** The run of deliver from attempt n on, entered after a given tick. */
  datatype GoRun = GoRun(admitted: seq<nat>, sent: nat, delays: seq<real>, final: GoFinal)

  /** An interrupted pause ends early, but only a cancelled context interrupts it. */
  predicate Interrupted(cancelled: Clock, interrupts: Clock, tick: nat) {
    cancelled(tick) && interrupts(tick)
  }

  /** Ticks after entry: +1 head check, +2 request, +3 the transport's look, +4 the check after, +5 the pause. */
  function GoDeliver(
    outcomes: Outcomes, jitter: Jitter, cancelled: Clock, interrupts: Clock, retryCount: nat, n: nat, tick: nat)
    : (run: GoRun)
    requires 1 <= n <= retryCount + 1
    decreases retryCount + 1 - n
  {
    if cancelled(tick + 1) then GoRun([], n - 1, [], ContextError)
    else
      var o := outcomes(n);
      if o.Response? && o.status == 200 && o.decodes then GoRun([tick + 1], n, [], Finished(Acknowledged(n)))
      else if cancelled(tick + 4) then GoRun([tick + 1], n, [], ContextError)
      else if !Transient(o) || n == retryCount + 1 then
        GoRun([tick + 1], n, [], Finished(Ending(o, n)))
      else if Interrupted(cancelled, interrupts, tick + 5) then
        GoRun([tick + 1], n, [Pause(n, o, jitter)], ContextError)
      else
        var rest := GoDeliver(outcomes, jitter, cancelled, interrupts, retryCount, n + 1, tick + 5);
        GoRun([tick + 1] + rest.admitted, rest.sent, [Pause(n, o, jitter)] + rest.delays, rest.final)
  }

  // --- The loop ------------------------------------------------------------------------------------------------

  const MAX_INT: int64 := MAX_INT64

  /** The number of attempts, when an int can hold it. */
  function RetryAttempts(retryCount: int64): (r: (int64, bool))
    ensures r.1 <==> 0 <= retryCount < MAX_INT
    ensures r.1 ==> r.0 as int == retryCount as int + 1
  {
    if retryCount < 0 || retryCount == MAX_INT then (0, false) else (retryCount + 1, true)
  }

  /** doAttempt's result; the acknowledgement is carried by err being None. */
  datatype AttemptResult = AttemptResult(err: Option<GoFinal>, retryable: bool, retryAfter: RetryAfter)

  method DoAttempt(wire: Wire, context: Context, attempt: int64) returns (r: AttemptResult)
    requires attempt >= 1
    modifies wire`sent, context`tick
    ensures wire.sent == old(wire.sent) + 1 && context.tick == old(context.tick) + 2
    ensures var o := wire.outcomes(wire.sent);
      && (r.err.None? <==> o.Response? && o.status == 200 && o.decodes)
      && (o.TransportFailure? && context.cancelled(context.tick) ==> r.err == Some(ContextError) && !r.retryable)
      && (r.err.Some? && !(o.TransportFailure? && context.cancelled(context.tick)) ==>
            && r.err.value == Finished(Ending(o, attempt as nat))
            && (o.TransportFailure? ==> r.retryable && r.retryAfter == Absent)
            && (o.Response? ==> r.retryable == RetryableStatus(o.status)
                                && r.retryAfter == if r.retryable then o.retryAfter else Absent))
  {
    context.Pass();
    var response := wire.Execute();
    match response
    case TransportFailure =>
      var cancelled := context.Err();
      if cancelled {
        return AttemptResult(Some(ContextError), false, Absent);
      }
      return AttemptResult(Some(Finished(TransportError(attempt as nat))), true, Absent);
    case Response(status, retryAfter, decodes) =>
      context.Pass();
      if status == 200 && decodes {
        return AttemptResult(None, false, Absent);
      }
      var retryable := RetryableStatus(status);
      return AttemptResult(Some(Finished(Ending(response, attempt as nat))), retryable,
                           if retryable then retryAfter else Absent);
  }

  /** What the loop has done before the attempt after the given number, and that the rest completes the run. */
  ghost predicate Underway(
    wire: Wire, context: Context, retryCount: nat, attempts: nat)
    reads wire, context
  {
    && attempts <= retryCount && wire.sent == attempts && wire.drawn == attempts
    && var rest := GoDeliver(wire.outcomes, wire.jitter, context.cancelled, context.interrupts, retryCount,
                             attempts + 1, context.tick);
       GoDeliver(wire.outcomes, wire.jitter, context.cancelled, context.interrupts, retryCount, 1, 0)
       == GoRun(context.admitted + rest.admitted, rest.sent, wire.slept + rest.delays, rest.final)
  }

  /** The pause before a retry; a cancelled context may interrupt it. */
  method GoPause(wire: Wire, context: Context, attempt: int64, retryAfter: RetryAfter) returns (interrupted: bool)
    requires DrawsWithinBounds(wire.jitter) && attempt >= 1 && wire.drawn == attempt as nat - 1
    requires Acceptable(retryAfter)
    modifies wire`drawn, wire`slept, context`tick
    ensures wire.drawn == old(wire.drawn) + 1 && context.tick == old(context.tick) + 1
    ensures wire.slept == old(wire.slept)
                          + [Longer(wire.jitter(attempt as nat, DelayBound(attempt as nat)), Requested(retryAfter) as real)]
    ensures interrupted == Interrupted(context.cancelled, context.interrupts, context.tick)
  {
    BoundsAgree(attempt as nat);
    var delay := wire.Draw(GoRetryMaximum(attempt as int));
    assert delay >= 0.0;
    if retryAfter.After? && retryAfter.delay as real > delay {
      delay := retryAfter.delay as real;
    }
    wire.Sleep(delay);
    context.Pass();
    return context.cancelled(context.tick) && context.interrupts(context.tick);
  }

  /** One turn of the loop: the delivery's result, or None when another attempt follows. */
  method Turn(wire: Wire, context: Context, attempt: int64, last: bool, ghost retryCount: nat)
    returns (r: Option<GoFinal>)
    requires NeverTakenBack(context.cancelled) && DrawsWithinBounds(wire.jitter)
    requires attempt >= 1 && wire.sent == wire.drawn == attempt as nat - 1
    requires attempt as nat <= retryCount + 1 && (last <==> attempt as nat == retryCount + 1)
    modifies wire, context
    ensures wire.sent <= attempt as nat
    ensures var n, o := attempt as nat, wire.outcomes(attempt as nat);
      var run := GoDeliver(wire.outcomes, wire.jitter, context.cancelled, context.interrupts, retryCount, n,
                           old(context.tick));
      match r
      case Some(final) =>
        && old(context.admitted) <= context.admitted && old(wire.slept) <= wire.slept
        && run == GoRun(context.admitted[|old(context.admitted)|..], wire.sent, wire.slept[|old(wire.slept)|..], final)
      case None =>
        && !last && wire.sent == wire.drawn == n && context.tick == old(context.tick) + 5
        && context.admitted == old(context.admitted) + [old(context.tick) + 1]
        && wire.slept == old(wire.slept) + [Pause(n, o, wire.jitter)]
        && var rest := GoDeliver(wire.outcomes, wire.jitter, context.cancelled, context.interrupts, retryCount, n + 1,
                                 context.tick);
           run == GoRun([old(context.tick) + 1] + rest.admitted, rest.sent,
                        [Pause(n, o, wire.jitter)] + rest.delays, rest.final)
  {
    var cancelled := context.Enter();
    if cancelled {
      return Some(ContextError);
    }
    var result := DoAttempt(wire, context, attempt);
    if result.err.None? {
      return Some(Finished(Acknowledged(attempt as nat)));
    }
    cancelled := context.Err();
    if cancelled {
      return Some(ContextError);
    }
    assert !context.cancelled(context.tick - 1);
    if !result.retryable || last {
      return result.err;
    }
    if result.retryAfter.Unbounded? || (result.retryAfter.After? && result.retryAfter.delay > 5000) {
      return result.err;
    }
    var interrupted := GoPause(wire, context, attempt, result.retryAfter);
    return if interrupted then Some(ContextError) else None;
  }

  method Deliver64(wire: Wire, context: Context, retryCount: int64) returns (final: GoFinal)
    requires wire.Unused() && context.tick == 0 && context.admitted == []
    requires NeverTakenBack(context.cancelled) && DrawsWithinBounds(wire.jitter)
    modifies wire, context
    ensures retryCount < 0 || retryCount == MAX_INT ==> final == InvalidRetryCount && wire.sent == 0
    ensures 0 <= retryCount < MAX_INT ==>
              GoRun(context.admitted, wire.sent, wire.slept, final)
              == GoDeliver(wire.outcomes, wire.jitter, context.cancelled, context.interrupts, retryCount as nat, 1, 0)
  {
    var (attempts, ok) := RetryAttempts(retryCount);
    if !ok {
      return InvalidRetryCount;
    }
    NothingBefore(wire, context, retryCount as nat);
    var attempt: int64 := 1;
    while attempt <= attempts
      invariant 1 <= attempt <= attempts && attempts == retryCount + 1
      invariant Underway(wire, context, retryCount as nat, (attempt - 1) as nat)
      decreases attempts - attempt
    {
      ghost var admitted, slept := context.admitted, wire.slept;
      var result := Turn(wire, context, attempt, attempt == attempts, retryCount as nat);
      if result.Some? {
        assert context.admitted == admitted + context.admitted[|admitted|..];
        assert wire.slept == slept + wire.slept[|slept|..];
        return result.value;
      }
      ghost var rest := GoDeliver(wire.outcomes, wire.jitter, context.cancelled, context.interrupts,
                                  retryCount as nat, attempt as nat + 1, context.tick);
      AppendOne(admitted, context.admitted[|admitted|], rest.admitted);
      AppendOne(slept, wire.slept[|slept|], rest.delays);
      attempt := attempt + 1;
    }
  }

  lemma AppendOne<T>(done: seq<T>, x: T, rest: seq<T>)
    ensures done + ([x] + rest) == (done + [x]) + rest
  {
  }

  lemma NothingBefore(wire: Wire, context: Context, retryCount: nat)
    requires wire.Unused() && context.tick == 0 && context.admitted == []
    ensures Underway(wire, context, retryCount, 0)
  {
  }

  // --- Cancellation --------------------------------------------------------------------------------------------

  /** If the context is never cancelled, Go runs the delivery every other SDK runs. */
  lemma {:induction false} UncancelledIsDelivery(
    outcomes: Outcomes, jitter: Jitter, cancelled: Clock, interrupts: Clock, retryCount: nat, n: nat, tick: nat)
    requires 1 <= n <= retryCount + 1 && forall t :: !cancelled(t)
    ensures var run := GoDeliver(outcomes, jitter, cancelled, interrupts, retryCount, n, tick);
      var spec := Deliver(outcomes, jitter, retryCount, n);
      run.sent == spec.attempts && run.delays == spec.delays && run.final == Finished(spec.final)
    decreases retryCount + 1 - n
  {
    if n <= retryCount {
      UncancelledIsDelivery(outcomes, jitter, cancelled, interrupts, retryCount, n + 1, tick + 5);
    }
  }

  /** The ticks at which attempts are admitted: uncancelled, and five ticks apart. */
  ghost predicate AdmittedFrom(admitted: seq<nat>, cancelled: Clock, tick: nat) {
    forall i :: 0 <= i < |admitted| ==> admitted[i] == tick + 1 + 5 * i && !cancelled(admitted[i])
  }

  lemma {:induction false} AttemptsAreAdmitted(
    outcomes: Outcomes, jitter: Jitter, cancelled: Clock, interrupts: Clock, retryCount: nat, n: nat, tick: nat)
    requires 1 <= n <= retryCount + 1
    ensures var run := GoDeliver(outcomes, jitter, cancelled, interrupts, retryCount, n, tick);
      AdmittedFrom(run.admitted, cancelled, tick) && run.sent == n - 1 + |run.admitted|
    decreases retryCount + 1 - n
  {
    if n <= retryCount {
      var rest := GoDeliver(outcomes, jitter, cancelled, interrupts, retryCount, n + 1, tick + 5);
      var run := GoDeliver(outcomes, jitter, cancelled, interrupts, retryCount, n, tick);
      AttemptsAreAdmitted(outcomes, jitter, cancelled, interrupts, retryCount, n + 1, tick + 5);
      forall i | 0 <= i < |run.admitted|
        ensures run.admitted[i] == tick + 1 + 5 * i && !cancelled(run.admitted[i])
      {
        if i > 0 {
          assert run.admitted[i] == rest.admitted[i - 1];
        }
      }
    }
  }

  /**
   Once the context is cancelled no attempt is admitted, so at most one request, the one admitted just before, is sent
   after that moment.
   */
  lemma AtMostOneAfterCancellation(
    outcomes: Outcomes, jitter: Jitter, cancelled: Clock, interrupts: Clock, retryCount: nat, when: nat)
    requires NeverTakenBack(cancelled) && cancelled(when)
    ensures var run := GoDeliver(outcomes, jitter, cancelled, interrupts, retryCount, 1, 0);
      && run.sent == |run.admitted|
      && (forall i :: 0 <= i < |run.admitted| ==> run.admitted[i] < when)
      && (forall i :: 0 <= i < |run.admitted| && run.admitted[i] + 1 >= when ==> i == |run.admitted| - 1)
  {
    var run := GoDeliver(outcomes, jitter, cancelled, interrupts, retryCount, 1, 0);
    AttemptsAreAdmitted(outcomes, jitter, cancelled, interrupts, retryCount, 1, 0);
    forall i, j | 0 <= i < j < |run.admitted|
      ensures run.admitted[i] + 1 < run.admitted[j]
    {
      assert run.admitted[i] == 1 + 5 * i && run.admitted[j] == 1 + 5 * j;
    }
    if run.admitted != [] {
      assert !cancelled(run.admitted[|run.admitted| - 1]);
    }
  }

  /** The tick of the check after the last attempt. */
  function CheckAfterLast(run: GoRun): nat
    requires run.admitted != []
  {
    run.admitted[|run.admitted| - 1] + 3
  }

  /**
   How a run ends: with the context error, and then the context is cancelled by the head check that follows its last
   attempt and pause; with the last attempt's acknowledgement, cancelled or not; or with the last attempt's own error,
   and then the context was not yet cancelled at the check after that attempt.
   */
  lemma {:induction false} EndingUnderCancellation(
    outcomes: Outcomes, jitter: Jitter, cancelled: Clock, interrupts: Clock, retryCount: nat, n: nat, tick: nat)
    requires 1 <= n <= retryCount + 1 && NeverTakenBack(cancelled)
    ensures var run := GoDeliver(outcomes, jitter, cancelled, interrupts, retryCount, n, tick);
      match run.final
      case ContextError => cancelled(tick + 5 * |run.admitted| + 1)
      case InvalidRetryCount => false
      case Finished(final) =>
        && run.admitted != [] && run.sent >= 1
        && final == Ending(outcomes(run.sent), run.sent)
        && (final.Acknowledged? || !cancelled(CheckAfterLast(run)))
    decreases retryCount + 1 - n
  {
    var run := GoDeliver(outcomes, jitter, cancelled, interrupts, retryCount, n, tick);
    if n <= retryCount {
      var rest := GoDeliver(outcomes, jitter, cancelled, interrupts, retryCount, n + 1, tick + 5);
      EndingUnderCancellation(outcomes, jitter, cancelled, interrupts, retryCount, n + 1, tick + 5);
      assert run.admitted == [tick + 1] + rest.admitted ==> |run.admitted| == 1 + |rest.admitted|;
    }
  }

  /** A received acknowledgement is returned, whenever the context is cancelled. */
  lemma {:induction false} AcknowledgementSurvives(
    outcomes: Outcomes, jitter: Jitter, cancelled: Clock, interrupts: Clock, retryCount: nat, n: nat, tick: nat)
    requires 1 <= n <= retryCount + 1
    ensures var run := GoDeliver(outcomes, jitter, cancelled, interrupts, retryCount, n, tick);
      run.admitted != [] ==>
        var last := outcomes(run.sent);
        run.final == Finished(Acknowledged(run.sent)) <==> last.Response? && last.status == 200 && last.decodes
    decreases retryCount + 1 - n
  {
    AttemptsAreAdmitted(outcomes, jitter, cancelled, interrupts, retryCount, n, tick);
    if n <= retryCount {
      AttemptsAreAdmitted(outcomes, jitter, cancelled, interrupts, retryCount, n + 1, tick + 5);
      AcknowledgementSurvives(outcomes, jitter, cancelled, interrupts, retryCount, n + 1, tick + 5);
    }
  }

  /**
   Whenever the context is cancelled, what was done is a beginning of the uncancelled delivery, and a run that ends with
   an attempt's own result is all of it.
   */
  lemma {:induction false} RunIsBeginning(
    outcomes: Outcomes, jitter: Jitter, cancelled: Clock, interrupts: Clock, retryCount: nat, n: nat, tick: nat)
    requires 1 <= n <= retryCount + 1
    ensures var run := GoDeliver(outcomes, jitter, cancelled, interrupts, retryCount, n, tick);
            var spec := Deliver(outcomes, jitter, retryCount, n);
      && run.sent <= spec.attempts && run.delays <= spec.delays
      && (run.final.Finished? ==> run.sent == spec.attempts && run.delays == spec.delays && run.final.final == spec.final)
    decreases retryCount + 1 - n
  {
    if n <= retryCount {
      RunIsBeginning(outcomes, jitter, cancelled, interrupts, retryCount, n + 1, tick + 5);
    }
  }
}
