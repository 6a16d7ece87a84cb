/*
 * The throttle wrapper `searchWithThrottle(fn, delay)`: a closure that keeps
 * one mutable timestamp, `Lastcall`, and runs the wrapped function only when
 * at least `delay` milliseconds have passed since the last call it let
 * through. The clock is an explicit `now` argument; running the wrapped
 * function is recorded as an `Event` holding the call's time and arguments.
 */
module Throttle {

  /** One run of the wrapped function: when it ran and what it was given. */
  datatype Event<A> = Event(at: int, args: A)

  /** The value `Lastcall` holds before the first call. */
  const InitialLastCall: int := 0

  /** The gate: a call at `now` gets through exactly when `delay` ms have passed. */
  predicate Accepts(lastCall: int, now: int, delay: int) {
    now - lastCall >= delay
  }

  /** `Lastcall` after one call at `now`. */
  function Next(lastCall: int, now: int, delay: int): int {
    if Accepts(lastCall, now, delay) then now else lastCall
  }

  function Last(s: seq<int>): int
    requires s != []
  {
    s[|s| - 1]
  }

  /** Each element is at least `delay` after the one before it. */
  predicate Spaced(s: seq<int>, delay: int) {
    forall i :: 0 < i < |s| ==> s[i] - s[i - 1] >= delay
  }

  predicate NonDecreasing(s: seq<int>) {
    forall i, j :: 0 <= i <= j < |s| ==> s[i] <= s[j]
  }

  /** The times of a list of runs. */
  function Times<A>(es: seq<Event<A>>): seq<int> {
    seq(|es|, i requires 0 <= i < |es| => es[i].at)
  }

  /**
   * The timestamps, in order, of the calls among `nows` that run the wrapped
   * function, when `Lastcall` holds `lastCall` before the first of them.
   */
  function Runs(lastCall: int, delay: int, nows: seq<int>): (r: seq<int>)
    ensures |r| <= |nows|
    ensures forall t :: t in r ==> t in nows
    decreases |nows|
  {
    if nows == [] then []
    else if Accepts(lastCall, nows[0], delay) then [nows[0]] + Runs(nows[0], delay, nows[1..])
    else Runs(lastCall, delay, nows[1..])
  }

  /** `Lastcall` after the calls at `nows`: the time of the last run, or its start value. */
  function LastCallAfter(lastCall: int, delay: int, nows: seq<int>): int {
    Last([lastCall] + Runs(lastCall, delay, nows))
  }

  /**
   * One more call extends the runs exactly when the gate, fed the time of the
   * last run so far, lets it through.
   */
  lemma {:induction false} RunsSnoc(lastCall: int, delay: int, nows: seq<int>, now: int)
    ensures Runs(lastCall, delay, nows + [now]) ==
            Runs(lastCall, delay, nows) +
            (if Accepts(LastCallAfter(lastCall, delay, nows), now, delay) then [now] else [])
    decreases |nows|
  {
    if nows == [] {
      assert nows + [now] == [now];
    } else {
      assert (nows + [now])[0] == nows[0];
      assert (nows + [now])[1..] == nows[1..] + [now];
      if Accepts(lastCall, nows[0], delay) {
        RunsSnoc(nows[0], delay, nows[1..], now);
        assert LastCallAfter(lastCall, delay, nows) == LastCallAfter(nows[0], delay, nows[1..]) by {
          assert [lastCall] + Runs(lastCall, delay, nows) ==
                 [lastCall] + ([nows[0]] + Runs(nows[0], delay, nows[1..]));
        }
      } else {
        RunsSnoc(lastCall, delay, nows[1..], now);
      }
    }
  }

  /**
   * Two consecutive runs are at least `delay` apart, and the first run is at
   * least `delay` after the start value. No assumption on the order of the
   * timestamps is needed for this.
   */
  lemma {:induction false} RunsSpaced(lastCall: int, delay: int, nows: seq<int>)
    ensures Spaced([lastCall] + Runs(lastCall, delay, nows), delay)
    decreases |nows|
  {
    if nows != [] {
      if Accepts(lastCall, nows[0], delay) {
        RunsSpaced(nows[0], delay, nows[1..]);
        var tail := [nows[0]] + Runs(nows[0], delay, nows[1..]);
        assert [lastCall] + Runs(lastCall, delay, nows) == [lastCall] + tail;
      } else {
        RunsSpaced(lastCall, delay, nows[1..]);
      }
    }
  }

  /** When `delay` is not negative, ANY two runs, not only consecutive ones, are `delay` apart. */
  lemma {:induction false} SpacedApart(s: seq<int>, delay: int, i: int, j: int)
    requires Spaced(s, delay) && delay >= 0
    requires 0 <= i < j < |s|
    ensures s[j] - s[i] >= delay
    decreases j - i
  {
    if i < j - 1 {
      SpacedApart(s, delay, i, j - 1);
    }
  }

  lemma RunsApart(lastCall: int, delay: int, nows: seq<int>)
    requires delay >= 0
    ensures var r := Runs(lastCall, delay, nows);
            forall i, j :: 0 <= i < j < |r| ==> r[j] - r[i] >= delay
  {
    var r := Runs(lastCall, delay, nows);
    RunsSpaced(lastCall, delay, nows);
    forall i, j | 0 <= i < j < |r| ensures r[j] - r[i] >= delay {
      SpacedApart([lastCall] + r, delay, i + 1, j + 1);
    }
  }

  /**
   * With timestamps that never go back (and a start value not after the first
   * of them), `Lastcall` never decreases from one call to the next.
   */
  lemma LastCallNeverDecreases(lastCall: int, delay: int, nows: seq<int>, now: int)
    requires NonDecreasing([lastCall] + nows + [now])
    ensures LastCallAfter(lastCall, delay, nows) <= LastCallAfter(lastCall, delay, nows + [now])
  {
    RunsSnoc(lastCall, delay, nows, now);
    var before := LastCallAfter(lastCall, delay, nows);
    var s := [lastCall] + nows + [now];
    assert before in [lastCall] + nows;
    var k :| 0 <= k < |[lastCall] + nows| && ([lastCall] + nows)[k] == before;
    assert s[k] == before && s[|s| - 1] == now;
  }

  /**
   * The wrapper returned by `searchWithThrottle(fn, delay)`. `executed` records
   * every run of `fn`; the ghost `calls` records the time of every call, run or
   * ignored, and `Valid` ties both real fields to the trace semantics above.
   */
  class Throttled<A> {
    const delay: int
    var lastCall: int
    var executed: seq<Event<A>>
    ghost var calls: seq<int>

    ghost predicate Valid()
      reads this
    {
      Times(executed) == Runs(InitialLastCall, delay, calls) &&
      lastCall == LastCallAfter(InitialLastCall, delay, calls)
    }

    constructor (delay: int)
      ensures Valid()
      ensures this.delay == delay && lastCall == InitialLastCall
      ensures executed == [] && calls == []
    {
      this.delay := delay;
      lastCall := InitialLastCall;
      executed := [];
      calls := [];
    }

    /** One call of the wrapper at time `now`; `ran` says whether `fn` ran. */
    method Call(now: int, args: A) returns (ran: bool)
      requires Valid()
      modifies this
      ensures Valid()
      ensures ran <==> now - old(lastCall) >= delay
      ensures lastCall == (if ran then now else old(lastCall))
      ensures executed == (if ran then old(executed) + [Event(now, args)] else old(executed))
      ensures calls == old(calls) + [now]
      ensures Spaced([InitialLastCall] + Times(executed), delay)
    {
      ran := now - lastCall >= delay;
      if ran {
        executed := executed + [Event(now, args)];
        lastCall := now;
      }
      calls := calls + [now];
      RunsSnoc(InitialLastCall, delay, old(calls), now);
      assert Times(executed) == Times(old(executed)) + (if ran then [now] else []);
      RunsSpaced(InitialLastCall, delay, calls);
    }
  }

  /**
   * The example: a 300 ms throttle around `search`, called three times within
   * one window. Only the first call's name reaches `search`.
   */
  method SearchExample(t0: int, t1: int, t2: int) returns (searched: seq<string>)
    requires InitialLastCall + 300 <= t0 <= t1 <= t2 < t0 + 300
    ensures searched == ["vikas"]
  {
    var searchInput := new Throttled<string>(300);
    var _ := searchInput.Call(t0, "vikas");
    var _ := searchInput.Call(t1, "vikas singh");
    var _ := searchInput.Call(t2, "vikas kumar thakur");
    var runs := searchInput.executed;
    assert runs == [Event(t0, "vikas")];
    searched := seq(|runs|, i requires 0 <= i < |runs| => runs[i].args);
  }
}
