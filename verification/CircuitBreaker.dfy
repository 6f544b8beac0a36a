/**
 The circuit breaker (pkg/concurrent/circuit.go), one call at a time. Its counters are int32 and wrap.
 */
module CircuitBreaker {
  datatype CircuitState = Closed | Open | HalfOpen

  const TWO_31 := 0x8000_0000

  /** Conversion to, and addition in, Go's int32. */
  function Wrap32(n: int): int { (n + TWO_31) % (2 * TWO_31) - TWO_31 }

  datatype Config = Config(threshold: int, cooldown: int, halfOpenMax: int)

  datatype Breaker = Breaker(
    state: CircuitState,
    failures: int,
    successes: int,
    lastFailure: int,
    totalSuccesses: int,
    totalFailures: int)

  const FRESH := Breaker(Closed, 0, 0, 0, 0, 0)

  datatype Answer = Answer(state: CircuitState, breaker: Breaker)

  /** The test that makes State answer Closed for a breaker that is half-open. */
  predicate AnswersClosedHalfOpen(c: Config, b: Breaker) {
    b.state.HalfOpen? && b.successes >= Wrap32(c.halfOpenMax)
  }

  function StateStep(c: Config, b: Breaker, now: int): Answer {
    if b.state.Open? then
      if now - b.lastFailure >= c.cooldown then Answer(HalfOpen, b.(state := HalfOpen, successes := 0))
      else Answer(Open, b)
    else if AnswersClosedHalfOpen(c, b) then Answer(Closed, b)
    else Answer(b.state, b)
  }

  /** What Allow answers no to. */
  predicate Refuses(c: Config, b: Breaker, now: int) { StateStep(c, b, now).state.Open? }

  function SuccessStep(c: Config, b0: Breaker): Breaker {
    var b := b0.(totalSuccesses := Wrap32(b0.totalSuccesses + 1));
    match b.state
    case HalfOpen =>
      var n := Wrap32(b.successes + 1);
      if n >= Wrap32(c.halfOpenMax) then b.(state := Closed, failures := 0, successes := 0)
      else b.(successes := n)
    case Closed => b.(failures := 0)
    case Open => b
  }

  function FailureStep(c: Config, b0: Breaker, now: int): Breaker {
    var b := b0.(totalFailures := Wrap32(b0.totalFailures + 1),
                 failures := Wrap32(b0.failures + 1), lastFailure := now);
    match b.state
    case Closed => if b.failures >= Wrap32(c.threshold) then b.(state := Open) else b
    case HalfOpen => b.(state := Open, successes := 0)
    case Open => b
  }

  function ResetStep(b: Breaker): Breaker {
    b.(state := Closed, failures := 0, successes := 0, lastFailure := 0)
  }

  class CircuitBreaker {
    const config: Config
    var state: CircuitState
    var failures: int
    var successes: int
    var lastFailure: int
    var totalSuccesses: int
    var totalFailures: int

    function Value(): Breaker
      reads this
    {
      Breaker(state, failures, successes, lastFailure, totalSuccesses, totalFailures)
    }

    constructor (config: Config)
      ensures Value() == FRESH && this.config == config
    {
      this.config := config;
      state, failures, successes, lastFailure := Closed, 0, 0, 0;
      totalSuccesses, totalFailures := 0, 0;
    }

    method State(now: int) returns (answer: CircuitState)
      modifies this
      ensures Answer(answer, Value()) == StateStep(config, old(Value()), now)
    {
      if state == Open {
        if now - lastFailure >= config.cooldown {
          state := HalfOpen;
          successes := 0;
          return HalfOpen;
        }
        return Open;
      }
      if state == HalfOpen && successes >= Wrap32(config.halfOpenMax) {
        return Closed;
      }
      return state;
    }

    method RecordSuccess()
      modifies this
      ensures Value() == SuccessStep(config, old(Value()))
    {
      totalSuccesses := Wrap32(totalSuccesses + 1);
      match state
      case HalfOpen =>
        successes := Wrap32(successes + 1);
        if successes >= Wrap32(config.halfOpenMax) {
          state := Closed;
          failures := 0;
          successes := 0;
        }
      case Closed =>
        failures := 0;
      case Open =>
    }

    method RecordFailure(now: int)
      modifies this
      ensures Value() == FailureStep(config, old(Value()), now)
    {
      totalFailures := Wrap32(totalFailures + 1);
      failures := Wrap32(failures + 1);
      lastFailure := now;
      match state
      case Closed =>
        if failures >= Wrap32(config.threshold) {
          state := Open;
        }
      case HalfOpen =>
        state := Open;
        successes := 0;
      case Open =>
    }

    method Allow(now: int) returns (allowed: bool)
      modifies this
      ensures allowed == !Refuses(config, old(Value()), now)
      ensures Value() == StateStep(config, old(Value()), now).breaker
    {
      var answer := State(now);
      allowed := answer == Closed || answer == HalfOpen;
    }

    method Reset()
      modifies this
      ensures Value() == ResetStep(old(Value()))
    {
      state, failures, successes, lastFailure := Closed, 0, 0, 0;
    }
  }

  // ---- runs ----

  datatype Event = Success | Failure(now: int) | Query(now: int) | Reset

  function Step(c: Config, b: Breaker, e: Event): Breaker {
    match e
    case Success => SuccessStep(c, b)
    case Failure(now) => FailureStep(c, b, now)
    case Query(now) => StateStep(c, b, now).breaker
    case Reset => ResetStep(b)
  }

  /** The breaker after a history of calls. */
  function After(c: Config, h: seq<Event>): Breaker {
    if h == [] then FRESH else Step(c, After(c, h[..|h| - 1]), h[|h| - 1])
  }

  predicate Sensible(c: Config) { 1 <= c.threshold < TWO_31 && 1 <= c.halfOpenMax < TWO_31 }

  /** Failures recorded with no success and no reset since. */
  function FailuresInARow(h: seq<Event>): nat {
    if h == [] then 0
    else
      match h[|h| - 1]
      case Failure(_) => FailuresInARow(h[..|h| - 1]) + 1
      case Query(_) => FailuresInARow(h[..|h| - 1])
      case _ => 0
  }

  predicate HasFailed(h: seq<Event>) {
    h != [] && (h[|h| - 1].Failure? || (!h[|h| - 1].Reset? && HasFailed(h[..|h| - 1])))
  }

  /** When the last failure since the last reset was recorded. */
  function LastFailure(h: seq<Event>): int
    requires HasFailed(h)
  {
    if h[|h| - 1].Failure? then h[|h| - 1].now else LastFailure(h[..|h| - 1])
  }

  function Successes(h: seq<Event>): nat {
    if h == [] then 0 else Successes(h[..|h| - 1]) + if h[|h| - 1].Success? then 1 else 0
  }

  predicate NoSetback(h: seq<Event>) { forall i :: 0 <= i < |h| ==> !h[i].Failure? && !h[i].Reset? }

  lemma Wrap32Small(n: int)
    requires -TWO_31 <= n < TWO_31
    ensures Wrap32(n) == n
  {
  }

  lemma AfterOne(c: Config, h: seq<Event>, e: Event)
    ensures After(c, h + [e]) == Step(c, After(c, h), e)
    ensures FailuresInARow(h + [e]) ==
              if e.Failure? then FailuresInARow(h) + 1 else if e.Query? then FailuresInARow(h) else 0
    ensures HasFailed(h + [e]) <==> e.Failure? || (!e.Reset? && HasFailed(h))
    ensures HasFailed(h + [e]) ==> LastFailure(h + [e]) == if e.Failure? then e.now else LastFailure(h)
    ensures Successes(h + [e]) == Successes(h) + if e.Success? then 1 else 0
  {
    assert (h + [e])[..|h|] == h && (h + [e])[|h|] == e;
  }

  lemma AfterNothing(c: Config)
    ensures After(c, []) == FRESH
  {
  }

  lemma Snoc(h: seq<Event>) returns (p: seq<Event>, e: Event)
    requires h != []
    ensures h == p + [e] && |p| < |h|
  {
    p, e := h[..|h| - 1], h[|h| - 1];
  }

  /** What the fields mean in terms of the history. */
  ghost predicate Tells(c: Config, b: Breaker, h: seq<Event>) {
    && (b.state.Closed? ==> b.failures == FailuresInARow(h) < c.threshold)
    && (!b.state.Closed? ==> HasFailed(h) && b.lastFailure == LastFailure(h))
    && (b.state.HalfOpen? ==> 0 <= b.successes < c.halfOpenMax)
  }

  lemma StepTells(c: Config, b: Breaker, h: seq<Event>, e: Event)
    requires Sensible(c) && Tells(c, b, h)
    ensures Tells(c, Step(c, b, e), h + [e])
  {
    AfterOne(c, h, e);
    hide Wrap32, FailuresInARow, HasFailed, LastFailure;
    Wrap32Small(c.threshold);
    Wrap32Small(c.halfOpenMax);
    if b.state.HalfOpen? { Wrap32Small(b.successes + 1); }
    if b.state.Closed? { Wrap32Small(b.failures + 1); }
  }

  lemma {:induction false} FieldsFollowHistory(c: Config, h: seq<Event>)
    requires Sensible(c)
    ensures Tells(c, After(c, h), h)
    decreases |h|
  {
    if h != [] {
      var p, e := Snoc(h);
      FieldsFollowHistory(c, p);
      StepTells(c, After(c, p), p, e);
      AfterOne(c, p, e);
    }
  }

  /** A closed breaker opens exactly on the failure that makes `threshold` of them in a row. */
  lemma OpensOnThreshold(c: Config, h: seq<Event>, e: Event)
    requires Sensible(c) && After(c, h).state.Closed?
    ensures After(c, h + [e]).state == (if e.Failure? && FailuresInARow(h + [e]) == c.threshold then Open else Closed)
  {
    hide After, Wrap32, FailuresInARow, HasFailed, LastFailure;
    FieldsFollowHistory(c, h);
    AfterOne(c, h, e);
    Wrap32Small(c.threshold);
    Wrap32Small(After(c, h).failures + 1);
  }

  /** An open breaker lets no call through until the cooldown has passed since the last failure; then it
      does, and is half-open. */
  lemma OpenUntilCooldown(c: Config, h: seq<Event>, now: int)
    requires Sensible(c) && After(c, h).state.Open?
    ensures HasFailed(h)
    ensures StateStep(c, After(c, h), now).state == (if now - LastFailure(h) >= c.cooldown then HalfOpen else Open)
    ensures After(c, h + [Query(now)]).state == StateStep(c, After(c, h), now).state
  {
    hide After;
    FieldsFollowHistory(c, h);
    AfterOne(c, h, Query(now));
  }

  /** What State answers after any history: what the breaker is, but for an open one whose cooldown has passed. */
  lemma StateAnswers(c: Config, h: seq<Event>, now: int)
    requires Sensible(c)
    ensures var answer := StateStep(c, After(c, h), now).state;
            && (After(c, h).state.Closed? ==> answer.Closed?)
            && (After(c, h).state.HalfOpen? ==> answer.HalfOpen?)
            && (After(c, h).state.Open? ==>
                  HasFailed(h) && answer == if now - LastFailure(h) >= c.cooldown then HalfOpen else Open)
  {
    hide After, HasFailed, LastFailure, FailuresInARow, Wrap32;
    FieldsFollowHistory(c, h);
    Wrap32Small(c.halfOpenMax);
  }

  /** So Allow refuses a call exactly while the breaker is open and the cooldown since the last failure lasts. */
  lemma RefusedOnlyInCooldown(c: Config, h: seq<Event>, now: int)
    requires Sensible(c)
    ensures Refuses(c, After(c, h), now) <==>
            After(c, h).state.Open? && HasFailed(h) && now - LastFailure(h) < c.cooldown
  {
    hide After, HasFailed, LastFailure, StateStep;
    StateAnswers(c, h, now);
  }

  /** A query changes nothing but an open breaker whose cooldown has passed. */
  lemma QueryHalfOpens(c: Config, h: seq<Event>, now: int)
    requires Sensible(c)
    ensures After(c, h + [Query(now)]) ==
            if After(c, h).state.Open? && !Refuses(c, After(c, h), now)
            then After(c, h).(state := HalfOpen, successes := 0) else After(c, h)
  {
    hide After, Wrap32, FailuresInARow, HasFailed, LastFailure;
    AfterOne(c, h, Query(now));
  }

  function Failures(h: seq<Event>): nat {
    if h == [] then 0 else Failures(h[..|h| - 1]) + if h[|h| - 1].Failure? then 1 else 0
  }

  lemma Wrap32Adds(n: int)
    ensures Wrap32(Wrap32(n) + 1) == Wrap32(n + 1)
  {
  }

  /** The totals count the whole history, resets or not, as far as an int32 goes. */
  lemma {:induction false} TotalsCount(c: Config, h: seq<Event>)
    ensures After(c, h).totalSuccesses == Wrap32(Successes(h)) && After(c, h).totalFailures == Wrap32(Failures(h))
    decreases |h|
  {
    if h == [] {
      Wrap32Small(0);
    } else {
      var p, e := h[..|h| - 1], h[|h| - 1];
      TotalsCount(c, p);
      hide Wrap32;
      Wrap32Adds(Successes(p));
      Wrap32Adds(Failures(p));
    }
  }

  /** How a breaker came to be half-open: a query after the cooldown, then `successes` successes and no setback. */
  lemma {:induction false} HalfOpenHistory(c: Config, h: seq<Event>)
    returns (before: seq<Event>, now: int, since: seq<Event>)
    requires Sensible(c) && After(c, h).state.HalfOpen?
    ensures h == before + [Query(now)] + since
    ensures After(c, before).state.Open? && HasFailed(before) && now - LastFailure(before) >= c.cooldown
    ensures NoSetback(since) && Successes(since) == After(c, h).successes
  {
    if h == [] {
      before, now, since := [], 0, [];
      assert false;
    } else {
      var p, e := Snoc(h);
      AfterOne(c, p, e);
      FieldsFollowHistory(c, p);
      hide After, Wrap32, FailuresInARow, LastFailure, HasFailed;
      if After(c, p).state.Open? {
        before, now, since := p, e.now, [];
      } else {
        Wrap32Small(After(c, p).successes + 1);
        Wrap32Small(c.halfOpenMax);
        before, now, since := HalfOpenHistory(c, p);
        AfterOne(c, since, e);
        assert before + [Query(now)] + since + [e] == before + [Query(now)] + (since + [e]);
        since := since + [e];
      }
    }
  }

  /** Apart from a reset, a breaker closes only on the success that completes the required number of them since
      a query half-opened it after the cooldown, with no failure in between. */
  lemma ClosesAfterSuccesses(c: Config, h: seq<Event>, e: Event)
    returns (before: seq<Event>, now: int, since: seq<Event>)
    requires Sensible(c) && !After(c, h).state.Closed? && After(c, h + [e]).state.Closed? && !e.Reset?
    ensures e.Success? && h == before + [Query(now)] + since
    ensures After(c, before).state.Open? && HasFailed(before) && now - LastFailure(before) >= c.cooldown
    ensures NoSetback(since) && Successes(since) + 1 == c.halfOpenMax
  {
    FieldsFollowHistory(c, h);
    AfterOne(c, h, e);
    hide After, Wrap32, FailuresInARow, LastFailure, HasFailed;
    Wrap32Small(c.halfOpenMax);
    if After(c, h).state.HalfOpen? {
      Wrap32Small(After(c, h).successes + 1);
    }
    before, now, since := HalfOpenHistory(c, h);
  }

  /** A half-open breaker with one success still missing does close on it. */
  lemma CompletedSuccessesClose(c: Config, h: seq<Event>)
    requires Sensible(c) && After(c, h).state.HalfOpen? && After(c, h).successes + 1 == c.halfOpenMax
    ensures After(c, h + [Success]).state.Closed?
  {
    AfterOne(c, h, Success);
  }

  function Repeat(e: Event, n: nat): seq<Event> {
    if n == 0 then [] else Repeat(e, n - 1) + [e]
  }

  /** The failures in a row that open a fresh breaker. */
  function FailuresToOpen(c: Config): (n: nat)
    ensures 1 <= n < TWO_31
  {
    if Wrap32(c.threshold) < 1 then 1 else Wrap32(c.threshold)
  }

  lemma {:induction false} FailuresOpen(c: Config, now: int, n: nat)
    requires n <= FailuresToOpen(c)
    ensures After(c, Repeat(Failure(now), n)) ==
            Breaker(if n == FailuresToOpen(c) then Open else Closed, n, 0, if n == 0 then 0 else now, 0, n)
  {
    hide After;
    if n == 0 {
      AfterNothing(c);
    } else {
      FailuresOpen(c, now, n - 1);
      AfterOne(c, Repeat(Failure(now), n - 1), Failure(now));
      Wrap32Small(n);
    }
  }

  lemma {:induction false} HalfOpenCounts(c: Config, h: seq<Event>)
    requires Wrap32(c.halfOpenMax) >= 1
    ensures After(c, h).state.HalfOpen? ==> 0 <= After(c, h).successes < Wrap32(c.halfOpenMax)
    decreases |h|
  {
    hide After;
    if h == [] {
      AfterNothing(c);
    } else {
      var p, e := Snoc(h);
      HalfOpenCounts(c, p);
      AfterOne(c, p, e);
      if After(c, p).state.HalfOpen? {
        Wrap32Small(After(c, p).successes + 1);
      }
    }
  }

  /** For every configuration, State answers Closed for a half-open breaker in some history exactly if the half-open
      limit, as an int32, is below one. */
  lemma StaleClosedAnswer(c: Config)
    ensures (exists h :: AnswersClosedHalfOpen(c, After(c, h))) <==> Wrap32(c.halfOpenMax) < 1
  {
    if Wrap32(c.halfOpenMax) < 1 {
      var h := Repeat(Failure(0), FailuresToOpen(c));
      FailuresOpen(c, 0, FailuresToOpen(c));
      var q := if c.cooldown < 0 then 0 else c.cooldown;
      AfterOne(c, h, Query(q));
      assert AnswersClosedHalfOpen(c, After(c, h + [Query(q)]));
    } else {
      forall h ensures !AnswersClosedHalfOpen(c, After(c, h)) {
        HalfOpenCounts(c, h);
      }
    }
  }
}
