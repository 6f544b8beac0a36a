/**
 JSON-RPC batches (cmd/serve.go): the concurrent handler against the sequential one. Processing an entry
 is a function of the entry; the concurrent handler is a state machine over the steps of its dispatcher
 and of the goroutines it starts, in any interleaving.
 */
module Batch {
  import opened Wrappers
  import Sorting

  const BATCH_CONCURRENCY := 8

  datatype Request = Request(id: Option<int>, body: int)

  datatype Response = Response(id: int, body: int)

  type Process = Request -> Option<Response>

  function Listed(r: Option<Response>): seq<Response> { if r.None? then [] else [r.value] }

  /** What the sequential handler answers: in order, and nothing for a notification. */
  function Sequential(f: Process, reqs: seq<Request>): seq<Response> {
    if reqs == [] then []
    else (if reqs[0].id.None? then [] else Listed(f(reqs[0]))) + Sequential(f, reqs[1..])
  }

  lemma SequentialStep(f: Process, reqs: seq<Request>, i: nat)
    requires i < |reqs|
    ensures Sequential(f, reqs[i..]) ==
            (if reqs[i].id.None? then [] else Listed(f(reqs[i]))) + Sequential(f, reqs[i + 1..])
  {
    assert reqs[i..][0] == reqs[i] && reqs[i..][1..] == reqs[i + 1..];
  }

  lemma SequentialOfNone(f: Process)
    ensures Sequential(f, []) == []
  {
  }

  /** The loop of handleBatchRequest. */
  method HandleSequential(f: Process, reqs: seq<Request>) returns (responses: seq<Response>)
    ensures responses == Sequential(f, reqs)
  {
    hide Sequential;
    responses := [];
    assert reqs[0..] == reqs && [] + Sequential(f, reqs) == Sequential(f, reqs);
    for i := 0 to |reqs|
      invariant responses + Sequential(f, reqs[i..]) == Sequential(f, reqs)
    {
      SequentialStep(f, reqs, i);
      var answered: seq<Response> := [];
      if reqs[i].id.Some? {
        var resp := f(reqs[i]);
        if resp.Some? {
          answered := [resp.value];
        }
      }
      Sorting.Reassociate(responses, answered, Sequential(f, reqs[i + 1..]));
      responses := responses + answered;
    }
    SequentialOfNone(f);
    assert reqs[|reqs|..] == [] && responses + [] == responses;
  }

  // ---- the concurrent handler ----

  /** A goroutine: not started, running, its slot written, its semaphore place given back, and signed off. */
  datatype Phase = Idle | Running | Wrote | Released | Finished

  datatype State = State(
    next: nat,                     // the entry the dispatcher is at
    added: bool,                   // it has done wg.Add for that entry and waits for the semaphore
    phases: seq<Phase>,
    slots: seq<Option<Response>>,
    sem: nat,                      // places taken
    wg: nat,                       // the wait group's counter
    responses: Option<seq<Response>>)

  datatype Action = Skip | Add | Acquire | Write(i: nat) | Release(i: nat) | Finish(i: nat) | Collect

  function Start(reqs: seq<Request>): State {
    State(0, false, seq(|reqs|, _ => Idle), seq(|reqs|, _ => None), 0, 0, None)
  }

  /** The slots that are not nil, in order. */
  function Collected(slots: seq<Option<Response>>): seq<Response> {
    if slots == [] then [] else Listed(slots[0]) + Collected(slots[1..])
  }

  method CollectResponses(slots: seq<Option<Response>>) returns (responses: seq<Response>)
    ensures responses == Collected(slots)
  {
    responses := [];
    for i := 0 to |slots|
      invariant responses + Collected(slots[i..]) == Collected(slots)
    {
      assert slots[i..][1..] == slots[i + 1..];
      Sorting.Reassociate(responses, Listed(slots[i]), Collected(slots[i + 1..]));
      if slots[i].Some? {
        responses := responses + [slots[i].value];
      }
    }
    assert slots[|slots|..] == [] && responses + [] == responses;
  }

  predicate Shaped(reqs: seq<Request>, s: State) {
    |s.phases| == |s.slots| == |reqs| && s.next <= |reqs|
  }

  predicate Enabled(reqs: seq<Request>, s: State, a: Action)
    requires Shaped(reqs, s)
  {
    match a
    case Skip => s.next < |reqs| && reqs[s.next].id.None?
    case Add => s.next < |reqs| && reqs[s.next].id.Some? && !s.added
    case Acquire => s.next < |reqs| && s.added && s.sem < BATCH_CONCURRENCY
    case Write(i) => i < |reqs| && s.phases[i].Running?
    case Release(i) => i < |reqs| && s.phases[i].Wrote?
    case Finish(i) => i < |reqs| && s.phases[i].Released?
    case Collect => s.next == |reqs| && s.wg == 0 && s.responses.None?
  }

  function Do(f: Process, reqs: seq<Request>, s: State, a: Action): (t: State)
    requires Shaped(reqs, s) && Enabled(reqs, s, a)
    ensures Shaped(reqs, t)
  {
    match a
    case Skip => s.(next := s.next + 1)
    case Add => s.(added := true, wg := s.wg + 1)
    case Acquire => s.(next := s.next + 1, added := false, sem := s.sem + 1, phases := s.phases[s.next := Running])
    case Write(i) => s.(slots := s.slots[i := f(reqs[i])], phases := s.phases[i := Wrote])
    case Release(i) => s.(sem := if s.sem > 0 then s.sem - 1 else 0, phases := s.phases[i := Released])
    case Finish(i) => s.(wg := if s.wg > 0 then s.wg - 1 else 0, phases := s.phases[i := Finished])
    case Collect => s.(responses := Some(Collected(s.slots)))
  }

  // ---- what every step keeps ----

  function HoldsPlace(p: Phase): nat { if p.Running? || p.Wrote? then 1 else 0 }

  function SignedOn(p: Phase): nat { if p.Running? || p.Wrote? || p.Released? then 1 else 0 }

  function StepsLeft(p: Phase): nat { if p.Running? then 3 else if p.Wrote? then 2 else if p.Released? then 1 else 0 }

  function Total(w: Phase -> nat, phases: seq<Phase>): nat {
    if phases == [] then 0 else w(phases[0]) + Total(w, phases[1..])
  }

  lemma {:induction false} TotalUpdate(w: Phase -> nat, phases: seq<Phase>, i: nat, p: Phase)
    requires i < |phases|
    ensures Total(w, phases[i := p]) + w(phases[i]) == Total(w, phases) + w(p)
  {
    if i == 0 {
      assert phases[0 := p][1..] == phases[1..];
    } else {
      TotalUpdate(w, phases[1..], i - 1, p);
      assert phases[i := p][1..] == phases[1..][i - 1 := p];
    }
  }

  lemma {:induction false} TotalZero(w: Phase -> nat, phases: seq<Phase>)
    ensures Total(w, phases) == 0 <==> forall i :: 0 <= i < |phases| ==> w(phases[i]) == 0
  {
    if phases != [] {
      TotalZero(w, phases[1..]);
      assert forall i :: 0 < i < |phases| ==> phases[i] == phases[1..][i - 1];
    }
  }

  predicate HasWritten(p: Phase) { p.Wrote? || p.Released? || p.Finished? }

  /** The places taken and the wait group count the goroutines at work; a slot is filled, with the entry's
      response, exactly once its goroutine has written it; the dispatcher starts one for every entry with an
      id and none for a notification. */
  ghost predicate Inv(f: Process, reqs: seq<Request>, s: State) {
    && Shaped(reqs, s)
    && s.sem == Total(HoldsPlace, s.phases) <= BATCH_CONCURRENCY
    && s.wg == Total(SignedOn, s.phases) + (if s.added then 1 else 0)
    && (s.added ==> s.next < |reqs| && reqs[s.next].id.Some?)
    && (forall i :: 0 <= i < |reqs| ==> (s.phases[i].Idle? <==> s.next <= i || reqs[i].id.None?))
    && (forall i :: 0 <= i < |reqs| ==> s.slots[i] == if HasWritten(s.phases[i]) then f(reqs[i]) else None)
    && (s.responses.Some? ==> s.next == |reqs| && s.wg == 0 && s.responses.value == Collected(s.slots))
  }

  lemma {:induction false} AllIdle(w: Phase -> nat, n: nat)
    requires w(Idle) == 0
    ensures Total(w, seq(n, _ => Idle)) == 0
  {
    TotalZero(w, seq(n, _ => Idle));
  }

  lemma StartInv(f: Process, reqs: seq<Request>)
    ensures Inv(f, reqs, Start(reqs))
  {
    AllIdle(HoldsPlace, |reqs|);
    AllIdle(SignedOn, |reqs|);
  }

  lemma PhaseChange(phases: seq<Phase>, i: nat, p: Phase)
    requires i < |phases|
    ensures Total(HoldsPlace, phases[i := p]) + HoldsPlace(phases[i]) == Total(HoldsPlace, phases) + HoldsPlace(p)
    ensures Total(SignedOn, phases[i := p]) + SignedOn(phases[i]) == Total(SignedOn, phases) + SignedOn(p)
    ensures SignedOn(phases[i]) == 1 ==> Total(SignedOn, phases) > 0
  {
    TotalUpdate(HoldsPlace, phases, i, p);
    TotalUpdate(SignedOn, phases, i, p);
    TotalZero(SignedOn, phases);
  }

  lemma DispatcherStepInv(f: Process, reqs: seq<Request>, s: State, a: Action)
    requires Inv(f, reqs, s) && Enabled(reqs, s, a) && (a.Skip? || a.Add? || a.Acquire? || a.Collect?)
    ensures Inv(f, reqs, Do(f, reqs, s, a))
  {
    if a.Acquire? {
      PhaseChange(s.phases, s.next, Running);
    }
  }

  lemma GoroutineStepInv(f: Process, reqs: seq<Request>, s: State, a: Action)
    requires Inv(f, reqs, s) && Enabled(reqs, s, a) && (a.Write? || a.Release? || a.Finish?)
    ensures Inv(f, reqs, Do(f, reqs, s, a))
  {
    PhaseChange(s.phases, a.i, if a.Write? then Wrote else if a.Release? then Released else Finished);
  }

  lemma StepInv(f: Process, reqs: seq<Request>, s: State, a: Action)
    requires Inv(f, reqs, s) && Enabled(reqs, s, a)
    ensures Inv(f, reqs, Do(f, reqs, s, a))
  {
    if a.Write? || a.Release? || a.Finish? {
      GoroutineStepInv(f, reqs, s, a);
    } else {
      DispatcherStepInv(f, reqs, s, a);
    }
  }

  // ---- runs ----

  ghost predicate Follows(f: Process, reqs: seq<Request>, s: State, a: Action, t: State) {
    Shaped(reqs, s) && Enabled(reqs, s, a) && t == Do(f, reqs, s, a)
  }

  ghost predicate IsRun(f: Process, reqs: seq<Request>, states: seq<State>, actions: seq<Action>) {
    && |states| == |actions| + 1 && states[0] == Start(reqs)
    && forall k :: 0 <= k < |actions| ==> Follows(f, reqs, states[k], actions[k], states[k + 1])
  }

  lemma {:induction false} RunInv(f: Process, reqs: seq<Request>, states: seq<State>, actions: seq<Action>, k: nat)
    requires IsRun(f, reqs, states, actions) && k <= |actions|
    ensures Inv(f, reqs, states[k])
  {
    if k == 0 {
      StartInv(f, reqs);
    } else {
      RunInv(f, reqs, states, actions, k - 1);
      assert Follows(f, reqs, states[k - 1], actions[k - 1], states[k]);
      StepInv(f, reqs, states[k - 1], actions[k - 1]);
    }
  }

  lemma {:induction false} CollectedIsSequential(f: Process, reqs: seq<Request>, slots: seq<Option<Response>>)
    requires |slots| == |reqs|
    requires forall i :: 0 <= i < |reqs| ==> slots[i] == if reqs[i].id.None? then None else f(reqs[i])
    ensures Collected(slots) == Sequential(f, reqs)
  {
    if reqs != [] {
      CollectedIsSequential(f, reqs[1..], slots[1..]);
    }
  }

  /** Every interleaving, with never more than eight entries in flight, answers what the sequential loop does. */
  lemma ConcurrentRefinesSequential(f: Process, reqs: seq<Request>, states: seq<State>, actions: seq<Action>, k: nat)
    requires IsRun(f, reqs, states, actions) && k <= |actions|
    ensures Total(HoldsPlace, states[k].phases) <= BATCH_CONCURRENCY
    ensures states[k].responses.Some? ==> states[k].responses.value == Sequential(f, reqs)
  {
    RunInv(f, reqs, states, actions, k);
    var s := states[k];
    if s.responses.Some? {
      TotalZero(SignedOn, s.phases);
      CollectedIsSequential(f, reqs, s.slots);
    }
  }

  /** Until the responses are collected some step can be taken: the handler never deadlocks. */
  lemma NeverStuck(f: Process, reqs: seq<Request>, s: State) returns (a: Action)
    requires Inv(f, reqs, s) && s.responses.None?
    ensures Enabled(reqs, s, a)
  {
    TotalZero(SignedOn, s.phases);
    TotalZero(HoldsPlace, s.phases);
    if i :| 0 <= i < |reqs| && SignedOn(s.phases[i]) == 1 {
      a := if s.phases[i].Running? then Write(i) else if s.phases[i].Wrote? then Release(i) else Finish(i);
    } else if s.next == |reqs| {
      a := Collect;
    } else if reqs[s.next].id.None? {
      a := Skip;
    } else {
      a := if s.added then Acquire else Add;
    }
  }

  /** An upper bound on the steps still to come. */
  function Work(reqs: seq<Request>, s: State): int
    requires Shaped(reqs, s)
  {
    5 * (|reqs| - s.next) + Total(StepsLeft, s.phases)
    + (if s.added then -1 else 0) + if s.responses.None? then 1 else 0
  }

  /** Every step uses up some of it, so every run ends. */
  lemma StepsDecreaseWork(f: Process, reqs: seq<Request>, s: State, a: Action)
    requires Inv(f, reqs, s) && Enabled(reqs, s, a)
    ensures 0 <= Work(reqs, Do(f, reqs, s, a)) < Work(reqs, s)
  {
    StepInv(f, reqs, s, a);
    match a
    case Acquire => TotalUpdate(StepsLeft, s.phases, s.next, Running);
    case Write(i) => TotalUpdate(StepsLeft, s.phases, i, Wrote);
    case Release(i) => TotalUpdate(StepsLeft, s.phases, i, Released);
    case Finish(i) => TotalUpdate(StepsLeft, s.phases, i, Finished);
    case _ =>
  }

  lemma {:induction false} WrittenStays(f: Process, reqs: seq<Request>, states: seq<State>, actions: seq<Action>,
          i: nat, j: nat, k: nat)
    requires IsRun(f, reqs, states, actions) && i < |reqs| && j <= k <= |actions|
    requires Shaped(reqs, states[j]) && HasWritten(states[j].phases[i])
    ensures Shaped(reqs, states[k]) && HasWritten(states[k].phases[i])
    decreases k - j
  {
    if j < k {
      WrittenStays(f, reqs, states, actions, i, j, k - 1);
      RunInv(f, reqs, states, actions, k - 1);
      assert Follows(f, reqs, states[k - 1], actions[k - 1], states[k]);
    }
  }

  /** No slot is written twice in a run. */
  lemma SlotsAreWrittenOnce(f: Process, reqs: seq<Request>, states: seq<State>, actions: seq<Action>, i: nat,
          j: nat, k: nat)
    requires IsRun(f, reqs, states, actions) && j < k < |actions|
    requires actions[j] == Write(i)
    ensures actions[k] != Write(i)
  {
    assert Follows(f, reqs, states[j], actions[j], states[j + 1]);
    WrittenStays(f, reqs, states, actions, i, j + 1, k);
    assert Follows(f, reqs, states[k], actions[k], states[k + 1]);
  }

  function Calls(reqs: seq<Request>): nat {
    if reqs == [] then 0 else Calls(reqs[1..]) + if reqs[0].id.Some? then 1 else 0
  }

  ghost predicate Answers(f: Process, reqs: seq<Request>) {
    forall r :: r in reqs && r.id.Some? ==> f(r).Some? && f(r).value.id == r.id.value
  }

  /** Where every entry with an id gets a response that carries it, there is one response per such entry and
      none for a notification... */
  lemma {:induction false} OneResponsePerCall(f: Process, reqs: seq<Request>)
    requires Answers(f, reqs)
    ensures |Sequential(f, reqs)| == Calls(reqs)
  {
    if reqs != [] {
      OneResponsePerCall(f, reqs[1..]);
    }
  }

  /** ...and the response to an entry stands where the calls before it put it, and is what processing it gave. */
  lemma {:induction false} ResponsesInOrder(f: Process, reqs: seq<Request>, i: nat)
    requires Answers(f, reqs) && i < |reqs| && reqs[i].id.Some?
    ensures Calls(reqs[..i]) < |Sequential(f, reqs)|
    ensures f(reqs[i]) == Some(Sequential(f, reqs)[Calls(reqs[..i])])
    ensures Sequential(f, reqs)[Calls(reqs[..i])].id == reqs[i].id.value
    decreases i
  {
    assert reqs[0] in reqs;
    if i > 0 {
      ResponsesInOrder(f, reqs[1..], i - 1);
      assert reqs[..i][1..] == reqs[1..][..i - 1] && reqs[..i][0] == reqs[0];
    }
  }
}
