/**
 The sliding-window rate limiter (pkg/concurrent/ratelimit.go). Times are whole nanoseconds; each
 method holds the limiter's lock throughout, so a run is a sequence of calls and cleaner ticks.
 */
module RateLimiter {
  import Sorting

  const SECOND := 1_000_000_000

  /** The times not before start, in order. */
  function Live(times: seq<int>, start: int): seq<int> {
    Sorting.Filter((t: int) => t >= start, times)
  }

  lemma LiveCons(x: int, times: seq<int>, start: int)
    ensures Live([x] + times, start) == (if x >= start then [x] else []) + Live(times, start)
  {
    assert ([x] + times)[1..] == times;
  }

  lemma LiveNone(start: int)
    ensures Live([], start) == []
  {
  }

  /** How many of the times are not before start. */
  function Since(times: seq<int>, start: int): nat {
    if times == [] then 0 else (if times[0] >= start then 1 else 0) + Since(times[1..], start)
  }

  lemma {:induction false} LiveCounts(times: seq<int>, start: int)
    ensures |Live(times, start)| == Since(times, start)
  {
    if times != [] {
      LiveCounts(times[1..], start);
    }
  }

  datatype Limiter = Limiter(max: nat, window: nat, requests: seq<int>, blocked: nat)

  datatype Outcome = Outcome(limiter: Limiter, allowed: bool)

  function AllowStep(l: Limiter, now: int): Outcome {
    var live := Live(l.requests, now - l.window);
    if |live| >= l.max then Outcome(l.(requests := live, blocked := l.blocked + 1), false)
    else Outcome(l.(requests := live + [now]), true)
  }

  function TickStep(l: Limiter, now: int): Limiter {
    l.(requests := Live(l.requests, now - l.window))
  }

  class RateLimiter {
    const max: nat
    const window: nat
    var requests: seq<int>
    var blocked: nat

    function Value(): Limiter
      reads this
    {
      Limiter(max, window, requests, blocked)
    }

    /** newRateLimiter; the cleaner it starts is the method CleanupTick. */
    constructor (max: int, window: int)
      ensures Value() == Limiter(if max <= 0 then 10 else max, if window <= 0 then SECOND else window, [], 0)
    {
      this.max := if max <= 0 then 10 else max;
      this.window := if window <= 0 then SECOND else window;
      requests, blocked := [], 0;
    }

    /** Allow: expired entries are cut out of the slice one by one, then the rest is counted. */
    method Allow(now: int) returns (allowed: bool)
      modifies this
      ensures Outcome(Value(), allowed) == AllowStep(old(Value()), now)
    {
      hide Live;
      var windowStart := now - window;
      var i := 0;
      while i < |requests|
        invariant i <= |requests| && blocked == old(blocked)
        invariant requests[..i] + Live(requests[i..], windowStart) == Live(old(requests), windowStart)
        decreases |requests| - i
      {
        var t, rest := requests[i], requests[i + 1..];
        assert requests[i..] == [t] + rest;
        LiveCons(t, rest, windowStart);
        if t < windowStart {
          assert [] + Live(rest, windowStart) == Live(rest, windowStart);
          requests := requests[..i] + rest;
          assert requests[i..] == rest;
        } else {
          assert requests[..i + 1] == requests[..i] + [t];
          Sorting.Reassociate(requests[..i], [t], Live(rest, windowStart));
          i := i + 1;
        }
      }
      LiveNone(windowStart);
      assert requests[i..] == [] && requests[..i] + [] == requests;
      if |requests| >= max {
        blocked := blocked + 1;
        return false;
      }
      requests := requests + [now];
      return true;
    }

    /** One round of cleanupLoop. */
    method CleanupTick(now: int)
      modifies this
      ensures Value() == TickStep(old(Value()), now)
    {
      var windowStart := now - window;
      var filtered: seq<int> := [];
      for i := 0 to |requests|
        invariant requests == old(requests) && blocked == old(blocked)
        invariant filtered + Live(requests[i..], windowStart) == Live(requests, windowStart)
      {
        var rest := requests[i + 1..];
        assert requests[i..][0] == requests[i] && requests[i..][1..] == rest;
        if requests[i] >= windowStart {
          Sorting.Reassociate(filtered, [requests[i]], Live(rest, windowStart));
          filtered := filtered + [requests[i]];
        }
      }
      assert filtered + Live([], windowStart) == filtered;
      requests := filtered;
    }
  }

  // ---- runs ----

  datatype Event = Allow(now: int) | Tick(now: int)

  /** The clock never goes back, from time t on. */
  predicate Clocked(t: int, run: seq<Event>)
    decreases run
  {
    run == [] || (t <= run[0].now && Clocked(run[0].now, run[1..]))
  }

  /** What each Allow of the run answers. */
  function Decisions(l: Limiter, run: seq<Event>): seq<bool>
    decreases run
  {
    if run == [] then []
    else
      match run[0]
      case Allow(now) => [AllowStep(l, now).allowed] + Decisions(AllowStep(l, now).limiter, run[1..])
      case Tick(now) => Decisions(TickStep(l, now), run[1..])
  }

  /** The times it admitted. */
  function Admitted(l: Limiter, run: seq<Event>): seq<int>
    decreases run
  {
    if run == [] then []
    else
      match run[0]
      case Allow(now) =>
        (if AllowStep(l, now).allowed then [now] else []) + Admitted(AllowStep(l, now).limiter, run[1..])
      case Tick(now) => Admitted(TickStep(l, now), run[1..])
  }

  /** A limiter with perfect memory and no cleaner: it looks back over every admission there has been. */
  function FromHistory(max: nat, window: nat, history: seq<int>, run: seq<Event>): seq<bool>
    decreases run
  {
    if run == [] then []
    else
      match run[0]
      case Allow(now) =>
        var ok := Since(history, now - window) < max;
        [ok] + FromHistory(max, window, if ok then history + [now] else history, run[1..])
      case Tick(_) => FromHistory(max, window, history, run[1..])
  }

  /** Pruning twice is pruning once, at the later time. */
  lemma {:induction false} LiveOfLive(times: seq<int>, c: int, start: int)
    requires c <= start
    ensures Live(Live(times, c), start) == Live(times, start)
  {
    if times != [] {
      var x, rest := times[0], times[1..];
      assert times == [x] + rest;
      LiveCons(x, rest, c);
      LiveCons(x, rest, start);
      LiveCons(x, Live(rest, c), start);
      LiveOfLive(rest, c, start);
      assert [] + Live(rest, c) == Live(rest, c) && [] + Live(rest, start) == Live(rest, start);
    }
  }

  /** A request admitted now is live, and comes last. */
  lemma {:induction false} LiveThenNow(times: seq<int>, now: int, start: int)
    requires start <= now
    ensures Live(times + [now], start) == Live(times, start) + [now]
  {
    if times == [] {
      assert times + [now] == [now];
    } else {
      assert (times + [now])[1..] == times[1..] + [now];
      LiveThenNow(times[1..], now, start);
    }
  }

  /** Each decision is the one that the full admission history calls for: what was pruned, by an earlier
      call or by the cleaner, no longer mattered. */
  lemma {:induction false} DecidesFromHistory(l: Limiter, history: seq<int>, c: int, t: int, run: seq<Event>)
    requires l.requests == Live(history, c) && c <= t - l.window
    requires Clocked(t, run)
    ensures Decisions(l, run) == FromHistory(l.max, l.window, history, run)
    decreases run
  {
    if run != [] {
      var now := run[0].now;
      var start := now - l.window;
      LiveOfLive(history, c, start);
      LiveCounts(history, start);
      match run[0]
      case Allow(_) =>
        var o := AllowStep(l, now);
        if o.allowed {
          LiveThenNow(history, now, start);
          DecidesFromHistory(o.limiter, history + [now], start, now, run[1..]);
        } else {
          DecidesFromHistory(o.limiter, history, start, now, run[1..]);
        }
      case Tick(_) => DecidesFromHistory(TickStep(l, now), history, start, now, run[1..]);
    }
  }

  /** The run without its cleaner ticks. */
  function Calls(run: seq<Event>): seq<Event> {
    if run == [] then [] else if run[0].Tick? then Calls(run[1..]) else [run[0]] + Calls(run[1..])
  }

  lemma {:induction false} HistoryIgnoresTicks(max: nat, window: nat, history: seq<int>, run: seq<Event>)
    ensures FromHistory(max, window, history, run) == FromHistory(max, window, history, Calls(run))
    decreases run
  {
    if run != [] {
      match run[0]
      case Allow(now) =>
        var ok := Since(history, now - window) < max;
        HistoryIgnoresTicks(max, window, if ok then history + [now] else history, run[1..]);
      case Tick(_) => HistoryIgnoresTicks(max, window, history, run[1..]);
    }
  }

  lemma ClockedEarlier(t: int, u: int, run: seq<Event>)
    requires Clocked(u, run) && t <= u
    ensures Clocked(t, run)
  {
  }

  lemma {:induction false} CallsClocked(t: int, run: seq<Event>)
    requires Clocked(t, run)
    ensures Clocked(t, Calls(run))
    decreases run
  {
    if run != [] {
      CallsClocked(run[0].now, run[1..]);
      ClockedEarlier(t, run[0].now, Calls(run[1..]));
    }
  }

  /** Cleaner ticks are unobservable: taking them all out of a run changes no decision. */
  lemma TicksAreUnobservable(max: nat, window: nat, t: int, run: seq<Event>)
    requires Clocked(t, run)
    ensures var l := Limiter(max, window, [], 0);
            Decisions(l, run) == Decisions(l, Calls(run))
  {
    var l := Limiter(max, window, [], 0);
    DecidesFromHistory(l, [], t - window, t, run);
    HistoryIgnoresTicks(max, window, [], run);
    CallsClocked(t, run);
    DecidesFromHistory(l, [], t - window, t, Calls(run));
  }

  // ---- the limit ----

  /** How many of the times lie in the closed interval from lo to hi. */
  function CountIn(times: seq<int>, lo: int, hi: int): nat {
    if times == [] then 0 else (if lo <= times[0] <= hi then 1 else 0) + CountIn(times[1..], lo, hi)
  }

  /** How many of the times lie in the closed interval of one window that starts at x. */
  function InWindow(times: seq<int>, x: int, window: nat): nat { CountIn(times, x, x + window) }

  ghost predicate WithinLimit(times: seq<int>, max: nat, window: nat) {
    forall x :: InWindow(times, x, window) <= max
  }

  lemma {:induction false} CountInSum(a: seq<int>, b: seq<int>, lo: int, hi: int)
    ensures CountIn(a + b, lo, hi) == CountIn(a, lo, hi) + CountIn(b, lo, hi)
  {
    if a == [] {
      assert a + b == b;
    } else {
      assert (a + b)[1..] == a[1..] + b;
      CountInSum(a[1..], b, lo, hi);
    }
  }

  lemma {:induction false} CountIsLive(times: seq<int>, lo: int, hi: int, start: int)
    requires start <= lo
    ensures CountIn(times, lo, hi) <= |Live(times, start)|
  {
    if times != [] {
      CountIsLive(times[1..], lo, hi, start);
    }
  }

  lemma AdmissionKeepsLimit(history: seq<int>, now: int, max: nat, window: nat)
    requires WithinLimit(history, max, window) && |Live(history, now - window)| < max
    ensures WithinLimit(history + [now], max, window)
  {
    forall x ensures InWindow(history + [now], x, window) <= max {
      assert InWindow(history, x, window) <= max;
      CountInSum(history, [now], x, x + window);
      assert CountIn([now], x, x + window) == if x <= now <= x + window then 1 else 0;
      if x <= now <= x + window {
        CountIsLive(history, x, x + window, now - window);
      }
    }
  }

  /** Over every run, no closed interval of one window's length holds more than max admitted requests. */
  lemma {:induction false} NeverOverLimit(l: Limiter, history: seq<int>, c: int, t: int, run: seq<Event>)
    requires l.requests == Live(history, c) && c <= t - l.window
    requires Clocked(t, run) && WithinLimit(history, l.max, l.window)
    ensures WithinLimit(history + Admitted(l, run), l.max, l.window)
    decreases run
  {
    if run == [] {
      assert history + [] == history;
    } else {
      var now := run[0].now;
      var start := now - l.window;
      LiveOfLive(history, c, start);
      match run[0]
      case Allow(_) =>
        var o := AllowStep(l, now);
        if o.allowed {
          LiveThenNow(history, now, start);
          AdmissionKeepsLimit(history, now, l.max, l.window);
          NeverOverLimit(o.limiter, history + [now], start, now, run[1..]);
          Sorting.Reassociate(history, [now], Admitted(o.limiter, run[1..]));
        } else {
          NeverOverLimit(o.limiter, history, start, now, run[1..]);
          assert [] + Admitted(o.limiter, run[1..]) == Admitted(o.limiter, run[1..]);
        }
      case Tick(_) => NeverOverLimit(TickStep(l, now), history, start, now, run[1..]);
    }
  }

  /** The same, from a new limiter. */
  lemma SlidingWindow(max: nat, window: nat, t: int, run: seq<Event>, x: int)
    requires Clocked(t, run)
    ensures InWindow(Admitted(Limiter(max, window, [], 0), run), x, window) <= max
  {
    var l := Limiter(max, window, [], 0);
    NeverOverLimit(l, [], t - window, t, run);
    assert [] + Admitted(l, run) == Admitted(l, run);
  }

  lemma {:induction false} AllInWindow(times: seq<int>, now: int, window: nat)
    requires forall i :: 0 <= i < |times| ==> times[i] <= now
    ensures InWindow(times, now - window, window) == Since(times, now - window)
  {
    if times != [] {
      AllInWindow(times[1..], now, window);
    }
  }

  /** l has kept what matters of the history, all of it from no later than t. */
  ghost predicate Remembers(l: Limiter, history: seq<int>, t: int) {
    && (exists c :: c <= t - l.window && l.requests == Live(history, c))
    && forall i :: 0 <= i < |history| ==> history[i] <= t
  }

  lemma LiveAsOfNow(l: Limiter, history: seq<int>, t: int, now: int)
    requires Remembers(l, history, t) && t <= now
    ensures Live(l.requests, now - l.window) == Live(history, now - l.window)
    ensures |Live(l.requests, now - l.window)| == InWindow(history, now - l.window, l.window)
  {
    var c :| c <= t - l.window && l.requests == Live(history, c);
    LiveOfLive(history, c, now - l.window);
    LiveCounts(history, now - l.window);
    AllInWindow(history, now, l.window);
  }

  lemma AdmissionIsRemembered(l: Limiter, history: seq<int>, t: int, now: int)
    requires Remembers(l, history, t) && t <= now
    ensures var o := AllowStep(l, now);
            && o.allowed == (InWindow(history, now - l.window, l.window) < l.max)
            && Remembers(o.limiter, if o.allowed then history + [now] else history, now)
    ensures Remembers(TickStep(l, now), history, now)
  {
    LiveAsOfNow(l, history, t, now);
    LiveThenNow(history, now, now - l.window);
    hide Live, InWindow;
    var start := now - l.window;
    assert AllowStep(l, now).allowed ==> AllowStep(l, now).limiter.requests == Live(history + [now], start);
    assert !AllowStep(l, now).allowed ==> AllowStep(l, now).limiter.requests == Live(history, start);
  }

  lemma LaterRun(run: seq<Event>, e: Event, t: int)
    requires run != [] && Clocked(t, run + [e])
    ensures t <= run[0].now && Clocked(run[0].now, run[1..] + [e])
    ensures (run + [e])[0] == run[0] && (run + [e])[1..] == run[1..] + [e]
  {
    assert (run + [e])[1..] == run[1..] + [e];
  }

  lemma OneDecision(l: Limiter, now: int)
    ensures Decisions(l, [Allow(now)]) == [AllowStep(l, now).allowed]
  {
    assert Decisions(AllowStep(l, now).limiter, []) == [];
  }

  lemma OneCall(t: int, now: int)
    requires Clocked(t, [Allow(now)])
    ensures t <= now
  {
  }

  lemma {:induction false} NextDecision(l: Limiter, history: seq<int>, t: int, run: seq<Event>, now: int)
    requires Remembers(l, history, t) && Clocked(t, run + [Allow(now)])
    ensures Decisions(l, run + [Allow(now)])
         == Decisions(l, run) + [InWindow(history + Admitted(l, run), now - l.window, l.window) < l.max]
    decreases run
  {
    hide Remembers, Live, InWindow, Clocked;
    if run == [] {
      assert run + [Allow(now)] == [Allow(now)] && history + [] == history;
      OneCall(t, now);
      OneDecision(l, now);
      AdmissionIsRemembered(l, history, t, now);
    } else {
      var u, rest := run[0].now, run[1..];
      LaterRun(run, Allow(now), t);
      AdmissionIsRemembered(l, history, t, u);
      match run[0]
      case Allow(_) =>
        var o := AllowStep(l, u);
        var admitted := if o.allowed then [u] else [];
        NextDecision(o.limiter, history + admitted, u, rest, now) by { assert history + [] == history; }
        Sorting.Reassociate(history, admitted, Admitted(o.limiter, rest));
        Sorting.Reassociate([o.allowed], Decisions(o.limiter, rest),
                            [InWindow(history + Admitted(l, run), now - l.window, l.window) < l.max]);
      case Tick(_) => NextDecision(TickStep(l, u), history, u, rest, now);
    }
  }

  /** A call is refused exactly if max admitted requests lie in the window that ends with it. */
  lemma RefusedOnlyWhenFull(max: nat, window: nat, t: int, run: seq<Event>, now: int)
    requires Clocked(t, run + [Allow(now)])
    ensures Decisions(Limiter(max, window, [], 0), run + [Allow(now)])
         == Decisions(Limiter(max, window, [], 0), run)
            + [InWindow(Admitted(Limiter(max, window, [], 0), run), now - window, window) < max]
  {
    var l := Limiter(max, window, [], 0);
    assert l.requests == Live([], t - window);
    NextDecision(l, [], t, run, now);
    assert [] + Admitted(l, run) == Admitted(l, run);
  }

  function Refusals(decisions: seq<bool>): nat {
    if decisions == [] then 0 else (if decisions[0] then 0 else 1) + Refusals(decisions[1..])
  }

  /** The limiter after a run. */
  function After(l: Limiter, run: seq<Event>): Limiter
    decreases run
  {
    if run == [] then l
    else After(if run[0].Allow? then AllowStep(l, run[0].now).limiter else TickStep(l, run[0].now), run[1..])
  }

  /** The blocked counter counts the refusals of a run. */
  lemma {:induction false} BlockedCounts(l: Limiter, run: seq<Event>)
    ensures After(l, run).blocked == l.blocked + Refusals(Decisions(l, run))
    decreases run
  {
    if run != [] {
      BlockedCounts(if run[0].Allow? then AllowStep(l, run[0].now).limiter else TickStep(l, run[0].now), run[1..]);
    }
  }
}
