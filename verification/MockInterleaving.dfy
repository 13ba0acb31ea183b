/**
 Any number of ingests at once. Each records its request and later takes a response, as two atomic steps; script
 replacements and resets fall anywhere in between, also between the two steps of an ingest.
 */
module MockInterleaving {
  import opened Results
  import opened MockState

  /** Where an ingest is. Answered(None) is the default answer, given when the queue is empty. */
  datatype Phase = NotStarted | Recorded | Answered(response: Option<ResponseValue>)

  /**
   The server, the ingests with the request each brings, and the history the claims are about: the script last
   installed, which ingest took each of its responses, and since the last reset the ingests that recorded, the responses
   taken and the ingests that were already in flight.
   */
  datatype System = System(
    view: View,
    asked: seq<RecordValue>,
    phases: seq<Phase>,
    recorded: seq<nat>,
    script: seq<ResponseValue>,
    handedOut: seq<(nat, ResponseValue)>,
    consumed: nat,
    carried: nat)

  datatype Step =
    | Record(ingest: nat)
    | Consume(ingest: nat)
    | Replace(responses: seq<ResponseValue>)
    | Reset

  /** The moment ingests with these requests are about to start. */
  function Initial(asked: seq<RecordValue>): System {
    System(EMPTY, asked, seq(|asked|, _ => NotStarted), [], [], [], 0, 0)
  }

  predicate Enabled(s: System, step: Step) {
    match step
    case Record(ingest) => ingest < |s.phases| && ingest < |s.asked| && s.phases[ingest].NotStarted?
    case Consume(ingest) => ingest < |s.phases| && s.phases[ingest].Recorded?
    case Replace(_) => true
    case Reset => true
  }

  function Next(s: System, step: Step): System
    requires Enabled(s, step)
  {
    match step
    case Record(ingest) =>
      s.(view := MockState.Recorded(s.view, s.asked[ingest]),
         phases := s.phases[ingest := Recorded],
         recorded := s.recorded + [ingest])
    case Consume(ingest) =>
      var response := NextOf(s.view);
      s.(view := Consumed(s.view),
         phases := s.phases[ingest := Answered(response)],
         handedOut := if response.Some? then s.handedOut + [(ingest, response.value)] else s.handedOut,
         consumed := s.consumed + 1)
    case Replace(responses) =>
      s.(view := Replaced(s.view, responses), script := responses, handedOut := [])
    case Reset =>
      s.(view := EMPTY, recorded := [], script := [], handedOut := [], consumed := 0, carried := InFlight(s.phases))
  }

  /** The steps of an interleaving, each possible when it is taken. */
  ghost predicate Runs(s: System, steps: seq<Step>, t: System)
    decreases steps
  {
    if steps == [] then s == t
    else Enabled(s, steps[0]) && Runs(Next(s, steps[0]), steps[1..], t)
  }

  function InFlight(phases: seq<Phase>): nat {
    if phases == [] then 0 else (if phases[0].Recorded? then 1 else 0) + InFlight(phases[1..])
  }

  function Responses(handedOut: seq<(nat, ResponseValue)>): seq<ResponseValue> {
    seq(|handedOut|, i requires 0 <= i < |handedOut| => handedOut[i].1)
  }

  /** What holds at every moment. */
  ghost predicate Invariant(s: System) {
    // The journal has the requests of the ingests that recorded since the last reset, in order, numbered 1, 2, 3, ...
    && |s.phases| == |s.asked| && s.view.nextSeq == |s.view.requests| == |s.recorded|
    && (forall i :: 0 <= i < |s.recorded| ==> s.recorded[i] < |s.phases| && !s.phases[s.recorded[i]].NotStarted?)
    && (forall i :: 0 <= i < |s.recorded| ==> s.view.requests[i] == s.asked[s.recorded[i]].(sequence := i + 1))
    && (forall i, j :: 0 <= i < j < |s.recorded| ==> s.recorded[i] != s.recorded[j])
    // The responses taken so far, in the order they were taken, and those still queued make up the script.
    && s.script == Responses(s.handedOut) + s.view.responses
    // Each response went to one ingest, no ingest took two, and it is what that ingest answers.
    && (forall i, j :: 0 <= i < j < |s.handedOut| ==> s.handedOut[i].0 != s.handedOut[j].0)
    && (forall i :: 0 <= i < |s.handedOut| ==>
          s.handedOut[i].0 < |s.phases| && s.phases[s.handedOut[i].0] == Answered(Some(s.handedOut[i].1)))
    // Since the last reset, every request recorded or already in flight has taken its response or is still in flight.
    && |s.view.requests| + s.carried == s.consumed + InFlight(s.phases)
  }

  lemma {:induction false} InFlightUpdate(phases: seq<Phase>, i: nat, p: Phase)
    requires i < |phases|
    ensures InFlight(phases[i := p]) + (if phases[i].Recorded? then 1 else 0)
         == InFlight(phases) + (if p.Recorded? then 1 else 0)
  {
    var updated := phases[i := p];
    if i == 0 {
      assert updated[1..] == phases[1..];
    } else {
      InFlightUpdate(phases[1..], i - 1, p);
      assert updated[1..] == phases[1..][i - 1 := p];
    }
  }

  lemma {:induction false} NoneInFlight(phases: seq<Phase>)
    requires forall i :: 0 <= i < |phases| ==> phases[i].NotStarted?
    ensures InFlight(phases) == 0
  {
    if phases != [] {
      NoneInFlight(phases[1..]);
    }
  }

  lemma ConsumeKeepsInvariant(s: System, ingest: nat)
    requires Invariant(s) && Enabled(s, Consume(ingest))
    ensures Invariant(Next(s, Consume(ingest)))
  {
    var t := Next(s, Consume(ingest));
    InFlightUpdate(s.phases, ingest, Answered(NextOf(s.view)));
    if s.view.responses != [] {
      assert Responses(t.handedOut) == Responses(s.handedOut) + [s.view.responses[0]];
      assert s.view.responses == [s.view.responses[0]] + s.view.responses[1..];
      assert forall i :: 0 <= i < |s.handedOut| ==> s.handedOut[i].0 != ingest;
    }
  }

  lemma StepKeepsInvariant(s: System, step: Step)
    requires Invariant(s) && Enabled(s, step)
    ensures Invariant(Next(s, step))
  {
    match step
    case Record(ingest) => InFlightUpdate(s.phases, ingest, Recorded);
    case Consume(ingest) => ConsumeKeepsInvariant(s, ingest);
    case Replace(responses) => assert Responses([]) + responses == responses;
    case Reset =>
  }

  lemma {:induction false} RunKeepsInvariant(s: System, steps: seq<Step>, t: System)
    requires Invariant(s) && Runs(s, steps, t)
    ensures Invariant(t)
    decreases steps
  {
    if steps != [] {
      StepKeepsInvariant(s, steps[0]);
      RunKeepsInvariant(Next(s, steps[0]), steps[1..], t);
    }
  }

  /** Every interleaving of any number of ingests, replacements and resets keeps the invariant. */
  lemma EveryInterleaving(asked: seq<RecordValue>, steps: seq<Step>, t: System)
    requires Runs(Initial(asked), steps, t)
    ensures Invariant(t) && t.asked == asked
  {
    NoneInFlight(Initial(asked).phases);
    assert Responses([]) + [] == [];
    RunKeepsInvariant(Initial(asked), steps, t);
    RunKeepsRequests(Initial(asked), steps, t);
  }

  lemma {:induction false} RunKeepsRequests(s: System, steps: seq<Step>, t: System)
    requires Runs(s, steps, t)
    ensures t.asked == s.asked
    decreases steps
  {
    if steps != [] {
      RunKeepsRequests(Next(s, steps[0]), steps[1..], t);
    }
  }

  /** An answer is final: no later step, not even a reset, changes what an ingest got. */
  lemma {:induction false} AnswersAreFinal(s: System, steps: seq<Step>, t: System, ingest: nat)
    requires Runs(s, steps, t) && ingest < |s.phases| && s.phases[ingest].Answered?
    ensures ingest < |t.phases| && t.phases[ingest] == s.phases[ingest]
    decreases steps
  {
    if steps != [] {
      AnswersAreFinal(Next(s, steps[0]), steps[1..], t, ingest);
    }
  }

  /** A script is served from the front: who is k-th to take a response since it was installed gets its k-th entry. */
  lemma ConsumesInQueueOrder(asked: seq<RecordValue>, steps: seq<Step>, t: System, k: nat)
    requires Runs(Initial(asked), steps, t) && k < |t.handedOut|
    ensures |t.handedOut| <= |t.script| && t.handedOut[k].1 == t.script[k]
    ensures t.handedOut[k].0 < |t.phases| && t.phases[t.handedOut[k].0] == Answered(Some(t.script[k]))
  {
    EveryInterleaving(asked, steps, t);
    assert Responses(t.handedOut)[k] == t.handedOut[k].1;
  }

  /** Records and answers tally exactly when no ingest was in flight at the last reset. */
  lemma RecordsTallyIff(asked: seq<RecordValue>, steps: seq<Step>, t: System)
    requires Runs(Initial(asked), steps, t)
    ensures |t.view.requests| == t.consumed + InFlight(t.phases) <==> t.carried == 0
  {
    EveryInterleaving(asked, steps, t);
  }

  /**
   A reset can fall between the two steps of an ingest. Its record is then gone from the journal although the ingest
   still takes a response, so the journal is not the list of the ingests that were answered.
   */
  lemma ResetLosesRecordInFlight(request: RecordValue, response: ResponseValue)
    ensures var steps := [Record(0), Reset, Replace([response]), Consume(0)];
      exists t :: Runs(Initial([request]), steps, t) && t.view.requests == [] && t.phases == [Answered(Some(response))]
                  && t.carried == t.consumed == 1
  {
    var s0 := Initial([request]);
    var s1 := Next(s0, Record(0));
    var s2 := Next(s1, Reset);
    var s3 := Next(s2, Replace([response]));
    var s4 := Next(s3, Consume(0));
    var steps := [Record(0), Reset, Replace([response]), Consume(0)];
    assert s1.phases[1..] == [] && InFlight(s1.phases) == 1;
    assert steps[1..] == [Reset, Replace([response]), Consume(0)];
    assert steps[1..][1..] == [Replace([response]), Consume(0)];
    assert steps[1..][1..][1..] == [Consume(0)];
    assert steps[1..][1..][1..][1..] == [];
    assert Runs(s3, [Consume(0)], s4);
    assert Runs(s2, steps[1..][1..], s4);
    assert Runs(s1, steps[1..], s4);
    assert Runs(s0, steps, s4);
  }
}
