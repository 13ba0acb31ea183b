/**
 One delivery as every SDK is documented to run it: try, and after a transport failure or a transient status try again
 while retries are left and the server does not ask for too long a pause.

 The outside world is a transcript: the outcome of each request by number, and the jitter drawn before each retry as a
 function of the retry number and its bound. The loops of the SDKs are proved to produce the run defined here.
 */
module Delivery {
  import opened RetryPolicy

  /** What a request comes to. decodes says whether a received 200 carries a readable, valid success envelope. */
  datatype Outcome = TransportFailure | Response(status: int, retryAfter: RetryAfter, decodes: bool)

  /** How a delivery ends, with the number of attempts it reports. */
  datatype Final =
    | Acknowledged(attempts: nat)
    | StatusFailure(status: int, attempts: nat)
    | DecodeFailure(attempts: nat)
    | TransportError(attempts: nat)

  type Outcomes = nat -> Outcome
  type Jitter = (nat, nat) -> real

  datatype Run = Run(attempts: nat, delays: seq<real>, final: Final)

  /** Worth another attempt. */
  predicate Transient(o: Outcome) {
    o.TransportFailure? || (RetryableStatus(o.status) && Acceptable(o.retryAfter))
  }

  function RequestedBy(o: Outcome): nat {
    if o.Response? then Requested(o.retryAfter) else 0
  }

  function Longer(a: real, b: real): real {
    if a < b then b else a
  }

  /** The pause before retry n after outcome o. */
  function Pause(n: nat, o: Outcome, jitter: Jitter): real
    requires n >= 1
  {
    Longer(jitter(n, DelayBound(n)), RequestedBy(o) as real)
  }

  function Ending(o: Outcome, attempts: nat): Final {
    match o
    case TransportFailure => TransportError(attempts)
    case Response(status, _, decodes) =>
      if status == 200 then (if decodes then Acknowledged(attempts) else DecodeFailure(attempts))
      else StatusFailure(status, attempts)
  }

  /** The run from attempt n on. */
  function Deliver(outcomes: Outcomes, jitter: Jitter, retryCount: nat, n: nat): (run: Run)
    requires 1 <= n <= retryCount + 1
    ensures n <= run.attempts <= retryCount + 1
    decreases retryCount + 1 - n
  {
    var o := outcomes(n);
    if Transient(o) && n <= retryCount then
      var rest := Deliver(outcomes, jitter, retryCount, n + 1);
      Run(rest.attempts, [Pause(n, o, jitter)] + rest.delays, rest.final)
    else Run(n, [], Ending(o, n))
  }

  // --- What a run looks like -----------------------------------------------------------------------------------

  /** Attempt k was worth retrying and was followed by its pause. */
  ghost predicate RetriedAt(run: Run, outcomes: Outcomes, jitter: Jitter, first: nat, k: nat)
    requires first >= 1
  {
    && first <= k < first + |run.delays|
    && Transient(outcomes(k)) && run.delays[k - first] == Pause(k, outcomes(k), jitter)
  }

  /**
   A run is determined by its last attempt: it is the first one that is not worth retrying or has no retry left. Every
   attempt before it was a transport failure or a transient status, and was followed by its pause.
   */
  ghost predicate IsRun(run: Run, outcomes: Outcomes, jitter: Jitter, retryCount: nat, first: nat)
    requires first >= 1
  {
    && first <= run.attempts <= retryCount + 1 && |run.delays| == run.attempts - first
    && (forall k :: first <= k < run.attempts ==> RetriedAt(run, outcomes, jitter, first, k))
    && (Transient(outcomes(run.attempts)) ==> run.attempts == retryCount + 1)
    && run.final == Ending(outcomes(run.attempts), run.attempts)
  }

  lemma {:induction false} DeliverIsRun(outcomes: Outcomes, jitter: Jitter, retryCount: nat, n: nat)
    requires 1 <= n <= retryCount + 1
    ensures IsRun(Deliver(outcomes, jitter, retryCount, n), outcomes, jitter, retryCount, n)
    decreases retryCount + 1 - n
  {
    if Transient(outcomes(n)) && n <= retryCount {
      DeliverIsRun(outcomes, jitter, retryCount, n + 1);
      var rest := Deliver(outcomes, jitter, retryCount, n + 1);
      var run := Deliver(outcomes, jitter, retryCount, n);
      forall k | n <= k < run.attempts
        ensures RetriedAt(run, outcomes, jitter, n, k)
      {
        if k > n {
          assert RetriedAt(rest, outcomes, jitter, n + 1, k);
        }
      }
    }
  }

  /** The conditions on a run leave no choice, so they hold of the delivery's run and of no other. */
  lemma RunIsUnique(run: Run, outcomes: Outcomes, jitter: Jitter, retryCount: nat)
    ensures IsRun(run, outcomes, jitter, retryCount, 1) <==> run == Deliver(outcomes, jitter, retryCount, 1)
  {
    var spec := Deliver(outcomes, jitter, retryCount, 1);
    DeliverIsRun(outcomes, jitter, retryCount, 1);
    if IsRun(run, outcomes, jitter, retryCount, 1) {
      assert run.attempts >= spec.attempts || RetriedAt(spec, outcomes, jitter, 1, run.attempts);
      assert spec.attempts >= run.attempts || RetriedAt(run, outcomes, jitter, 1, spec.attempts);
      forall i | 0 <= i < |run.delays|
        ensures run.delays[i] == spec.delays[i]
      {
        assert RetriedAt(run, outcomes, jitter, 1, i + 1) && RetriedAt(spec, outcomes, jitter, 1, i + 1);
      }
      assert run.delays == spec.delays;
    }
  }

  // --- Safety of whole runs ------------------------------------------------------------------------------------

  /** A received 200 is never retried: it can only be the last attempt, whether or not it decodes. */
  lemma AcceptedIsLast(outcomes: Outcomes, jitter: Jitter, retryCount: nat, k: nat)
    requires 1 <= k <= Deliver(outcomes, jitter, retryCount, 1).attempts
    requires outcomes(k).Response? && outcomes(k).status == 200
    ensures var run := Deliver(outcomes, jitter, retryCount, 1);
      run.attempts == k && run.final == if outcomes(k).decodes then Acknowledged(k) else DecodeFailure(k)
  {
    var run := Deliver(outcomes, jitter, retryCount, 1);
    DeliverIsRun(outcomes, jitter, retryCount, 1);
    assert k >= run.attempts || RetriedAt(run, outcomes, jitter, 1, k);
  }

  /** A delivery is acknowledged exactly when some attempt is, and all attempts before it are worth retrying. */
  lemma AcknowledgedIff(outcomes: Outcomes, jitter: Jitter, retryCount: nat, k: nat)
    requires k >= 1
    ensures Deliver(outcomes, jitter, retryCount, 1).final == Acknowledged(k) <==>
            && k <= retryCount + 1 && outcomes(k).Response? && outcomes(k).status == 200 && outcomes(k).decodes
            && forall i :: 1 <= i < k ==> Transient(outcomes(i))
  {
    var run := Deliver(outcomes, jitter, retryCount, 1);
    DeliverIsRun(outcomes, jitter, retryCount, 1);
    assert forall i :: RetriedAt(run, outcomes, jitter, 1, i) ==> Transient(outcomes(i));
    assert k >= run.attempts || RetriedAt(run, outcomes, jitter, 1, k);
  }

  ghost predicate DrawsWithinBounds(jitter: Jitter) {
    forall n, bound :: 0.0 <= jitter(n, bound) <= bound as real
  }

  function Sum(delays: seq<real>): real {
    if delays == [] then 0.0 else delays[0] + Sum(delays[1..])
  }

  /** Every pause is at least what the server asked for, and at most the larger of that and the jitter bound. */
  lemma PausesRespectServer(outcomes: Outcomes, jitter: Jitter, retryCount: nat, k: nat)
    requires DrawsWithinBounds(jitter) && 1 <= k < Deliver(outcomes, jitter, retryCount, 1).attempts
    ensures var run := Deliver(outcomes, jitter, retryCount, 1);
      && k <= |run.delays| && 0.0 <= run.delays[k - 1]
      && RequestedBy(outcomes(k)) as real <= run.delays[k - 1]
      && run.delays[k - 1] <= Max(DelayBound(k), RequestedBy(outcomes(k))) as real
      && run.delays[k - 1] <= 5000.0
  {
    DeliverIsRun(outcomes, jitter, retryCount, 1);
    assert RetriedAt(Deliver(outcomes, jitter, retryCount, 1), outcomes, jitter, 1, k);
    BoundsAgree(k);
    assert 0.0 <= jitter(k, DelayBound(k)) <= DelayBound(k) as real;
  }

  /** The most that retries n..r can sleep on jitter alone. */
  function BoundsFrom(n: nat, retryCount: nat): nat
    requires n >= 1
    decreases retryCount + 1 - n
  {
    if n > retryCount then 0 else DelayBound(n) + BoundsFrom(n + 1, retryCount)
  }

  lemma {:induction false} BoundsFromFifth(n: nat, retryCount: nat)
    requires n >= 5
    ensures BoundsFrom(n, retryCount) == if n > retryCount then 0 else 1000 * (retryCount + 1 - n)
    decreases retryCount + 1 - n
  {
    if n <= retryCount {
      BoundsAgree(n);
      BoundsFromFifth(n + 1, retryCount);
    }
  }

  ghost predicate NothingRequested(outcomes: Outcomes) {
    forall n :: RequestedBy(outcomes(n)) == 0
  }

  lemma {:induction false} SumWithinBounds(outcomes: Outcomes, jitter: Jitter, retryCount: nat, n: nat)
    requires DrawsWithinBounds(jitter) && NothingRequested(outcomes) && 1 <= n <= retryCount + 1
    ensures Sum(Deliver(outcomes, jitter, retryCount, n).delays) <= BoundsFrom(n, retryCount) as real
    decreases retryCount + 1 - n
  {
    if n <= retryCount {
      SumWithinBounds(outcomes, jitter, retryCount, n + 1);
      assert jitter(n, DelayBound(n)) <= DelayBound(n) as real;
      var run := Deliver(outcomes, jitter, retryCount, n);
      if run.delays != [] {
        assert run.delays[1..] == Deliver(outcomes, jitter, retryCount, n + 1).delays;
      }
    }
  }

  lemma {:induction false} SumWithinCap(outcomes: Outcomes, jitter: Jitter, retryCount: nat, n: nat)
    requires DrawsWithinBounds(jitter) && 1 <= n <= retryCount + 1
    ensures Sum(Deliver(outcomes, jitter, retryCount, n).delays) <= 5000.0 * (retryCount + 1 - n) as real
    decreases retryCount + 1 - n
  {
    var run := Deliver(outcomes, jitter, retryCount, n);
    if run.delays != [] {
      SumWithinCap(outcomes, jitter, retryCount, n + 1);
      BoundsAgree(n);
      assert jitter(n, DelayBound(n)) <= DelayBound(n) as real;
      assert run.delays[1..] == Deliver(outcomes, jitter, retryCount, n + 1).delays;
    }
  }

  /** How long a whole delivery can sleep: 5 s a retry, and far less when the server asks for nothing. */
  lemma TotalSleep(outcomes: Outcomes, jitter: Jitter, retryCount: nat)
    requires DrawsWithinBounds(jitter)
    ensures var total := Sum(Deliver(outcomes, jitter, retryCount, 1).delays);
      && total <= 5000.0 * retryCount as real
      && (NothingRequested(outcomes) && retryCount >= 4 ==> total <= 1500.0 + 1000.0 * (retryCount - 4) as real)
  {
    SumWithinCap(outcomes, jitter, retryCount, 1);
    if NothingRequested(outcomes) && retryCount >= 4 {
      SumWithinBounds(outcomes, jitter, retryCount, 1);
      BoundsAgree(1);
      BoundsAgree(2);
      BoundsAgree(3);
      BoundsAgree(4);
      BoundsFromFifth(5, retryCount);
      assert BoundsFrom(3, retryCount) == 400 + BoundsFrom(4, retryCount);
      assert BoundsFrom(1, retryCount) == 100 + (200 + BoundsFrom(3, retryCount));
    }
  }

  // --- What the run says, in the statuses and limits of the documentation ----------------------------------------

  predicate WorthRetrying(o: Outcome) {
    match o
    case TransportFailure => true
    case Response(status, retryAfter, _) =>
      && status in {429, 500, 502, 503, 504}
      && (retryAfter == Absent || (retryAfter.After? && retryAfter.delay <= 5000))
  }

  /**
   Every attempt but the last failed before a response, or got one of five statuses and no demand for more than five
   seconds. It was followed by a pause that is the jitter drawn or the delay demanded, whichever is longer.
   */
  lemma WhyRetried(outcomes: Outcomes, jitter: Jitter, retryCount: nat, k: nat)
    requires 1 <= k < Deliver(outcomes, jitter, retryCount, 1).attempts
    ensures var run := Deliver(outcomes, jitter, retryCount, 1); var o := outcomes(k);
            var draw := jitter(k, DelayBound(k));
            var demand := if o.Response? && o.retryAfter.After? then o.retryAfter.delay as real else 0.0;
      && WorthRetrying(o) && |run.delays| == run.attempts - 1
      && run.delays[k - 1] >= draw && run.delays[k - 1] >= demand
      && (run.delays[k - 1] == draw || run.delays[k - 1] == demand)
  {
    DeliverIsRun(outcomes, jitter, retryCount, 1);
    assert RetriedAt(Deliver(outcomes, jitter, retryCount, 1), outcomes, jitter, 1, k);
  }

  /** The last attempt was not worth retrying or had no retry left, and the result is what came of it. */
  lemma WhyEnded(outcomes: Outcomes, jitter: Jitter, retryCount: nat)
    ensures var run := Deliver(outcomes, jitter, retryCount, 1); var n := run.attempts;
      && (WorthRetrying(outcomes(n)) ==> n == retryCount + 1)
      && match outcomes(n)
         case TransportFailure => run.final == TransportError(n)
         case Response(status, _, decodes) =>
           && (status == 200 && decodes ==> run.final == Acknowledged(n))
           && (status == 200 && !decodes ==> run.final == DecodeFailure(n))
           && (status != 200 ==> run.final == StatusFailure(status, n))
  {
    DeliverIsRun(outcomes, jitter, retryCount, 1);
  }
}
