/**
 Cancellation of a delivery: Go's context, the abort signal of Node.js, .NET's cancellation token, the interruption of a
 Java thread. The environment may cancel at any moment and does not take it back.

 Time is counted in ticks, one for each moment at which a loop looks at the signal or could be stopped by it.
 Cancellation is a monotone predicate on ticks.
 */
module Cancellation {

  type Clock = nat -> bool

  ghost predicate NeverTakenBack(cancelled: Clock) {
    forall t, u :: t <= u && cancelled(t) ==> cancelled(u)
  }

  /** The signal of one delivery: when it is cancelled, and which operations the cancellation stops on the way. */
  class Context {
    const cancelled: Clock
    const interrupts: Clock
    var tick: nat
    /** The ticks at which the loop passed its head check. */
    ghost var admitted: seq<nat>

    constructor (cancelled: Clock, interrupts: Clock)
      ensures this.cancelled == cancelled && this.interrupts == interrupts && tick == 0 && admitted == []
    {
      this.cancelled, this.interrupts, tick, admitted := cancelled, interrupts, 0, [];
    }

    /** Looks at the signal. */
    method Err() returns (err: bool)
      modifies `tick
      ensures tick == old(tick) + 1 && err == cancelled(tick)
    {
      tick := tick + 1;
      return cancelled(tick);
    }

    /** Lets time pass without looking. */
    method Pass()
      modifies `tick
      ensures tick == old(tick) + 1
    {
      tick := tick + 1;
    }

    /** The head check of a loop. */
    method Enter() returns (err: bool)
      modifies this
      ensures tick == old(tick) + 1 && err == cancelled(tick)
      ensures admitted == if err then old(admitted) else old(admitted) + [tick]
    {
      err := Err();
      if !err {
        admitted := admitted + [tick];
      }
    }

    /** The head check of a loop between attempts, each of which passed its own. */
    method Admit() returns (err: bool)
      requires Orderly(|admitted|)
      modifies this
      ensures tick == old(tick) + 1 && err == cancelled(tick) && InOrder(admitted, cancelled)
      ensures |admitted| == old(|admitted|) + (if err then 0 else 1)
      ensures forall i :: 0 <= i < |admitted| ==> admitted[i] <= tick
    {
      err := Enter();
    }

    /** An operation that a cancelled signal may stop. */
    method Stopped() returns (stopped: bool)
      modifies `tick
      ensures tick == old(tick) + 1 && stopped == (cancelled(tick) && interrupts(tick))
    {
      tick := tick + 1;
      return cancelled(tick) && interrupts(tick);
    }

    /** Between attempts: every one passed a head check of its own, and time has passed since. */
    ghost predicate Orderly(sent: nat)
      reads this
    {
      sent == |admitted| && InOrder(admitted, cancelled) && forall i :: 0 <= i < |admitted| ==> admitted[i] < tick
    }
  }

  /** Head checks that found the signal not cancelled, with a request between any two of them. */
  ghost predicate InOrder(admitted: seq<nat>, cancelled: Clock) {
    && (forall i :: 0 <= i < |admitted| ==> !cancelled(admitted[i]))
    && (forall i, j :: 0 <= i < j < |admitted| ==> admitted[i] + 1 < admitted[j])
  }

  /**
   Once the signal is cancelled no attempt is admitted, and at most the request that was admitted last is sent at that
   moment or later; a request is sent in the tick after its head check.
   */
  lemma AtMostOneRequestAfter(admitted: seq<nat>, cancelled: Clock, when: nat)
    requires InOrder(admitted, cancelled) && NeverTakenBack(cancelled) && cancelled(when)
    ensures forall i :: 0 <= i < |admitted| ==> admitted[i] < when
    ensures forall i :: 0 <= i < |admitted| && admitted[i] + 1 >= when ==> i == |admitted| - 1
  {
    forall i | 0 <= i < |admitted| - 1
      ensures admitted[i] + 1 < when
    {
      assert admitted[i] + 1 < admitted[|admitted| - 1];
    }
  }
}
