/**
 * The `throttle` and `debounce` wrappers of js/main.js, with the timers they
 * start made into explicit events: a `Call` is one invocation of the wrapper,
 * a `Timeout` is the wrapper's pending timer going off.
 *
 * `throttle(func, limit)` runs `func` on a call unless a previous run's timer
 * is still pending, and that timer clears the flag. `debounce(func, wait)`
 * cancels the pending timer on every call and starts a new one that will run
 * `func` with that call's arguments.
 */
module Gates {
  import opened Options

  datatype GateEvent<A> = Call(args: A) | Timeout

  /**
   * What `func` is run with on each event of a throttled trace, starting with
   * `inThrottle` as given (`undefined`, that is false, when the wrapper is made).
   */
  function ThrottleTrace<A>(inThrottle: bool, events: seq<GateEvent<A>>): (out: seq<Option<A>>)
    ensures |out| == |events|
    decreases |events|
  {
    if events == [] then []
    else match events[0]
      case Call(a) =>
        (if inThrottle then [None] else [Some(a)]) + ThrottleTrace(true, events[1..])
      case Timeout => [None] + ThrottleTrace(false, events[1..])
  }

  /** While the flag is up, nothing runs before a timer has gone off. */
  lemma {:induction false} ThrottledUntilTimeout<A>(events: seq<GateEvent<A>>, j: int)
    requires 0 <= j < |events| && ThrottleTrace(true, events)[j].Some?
    ensures exists k :: 0 <= k < j && events[k].Timeout?
    decreases |events|
  {
    if events[0].Call? {
      assert ThrottleTrace(true, events)[j] == ThrottleTrace(true, events[1..])[j - 1];
      ThrottledUntilTimeout(events[1..], j - 1);
      var k :| 0 <= k < j - 1 && events[1..][k].Timeout?;
      assert events[k + 1].Timeout?;
    }
  }

  /**
   * Throttling: a run of `func` is a call that `func` runs with its own
   * arguments, and between any two runs the timer of the first has gone off.
   */
  lemma {:induction false} ThrottleSpacing<A>(inThrottle: bool, events: seq<GateEvent<A>>, i: int, j: int)
    requires 0 <= i < j < |events|
    requires ThrottleTrace(inThrottle, events)[i].Some? && ThrottleTrace(inThrottle, events)[j].Some?
    ensures events[i] == Call(ThrottleTrace(inThrottle, events)[i].value)
    ensures exists k :: i < k < j && events[k].Timeout?
    decreases |events|
  {
    var out := ThrottleTrace(inThrottle, events);
    var next := if events[0].Call? then true else false;
    assert out[1..] == ThrottleTrace(next, events[1..]);
    if i > 0 {
      assert out[i] == ThrottleTrace(next, events[1..])[i - 1];
      assert out[j] == ThrottleTrace(next, events[1..])[j - 1];
      ThrottleSpacing(next, events[1..], i - 1, j - 1);
      var k :| i - 1 < k < j - 1 && events[1..][k].Timeout?;
      assert events[k + 1].Timeout?;
    } else {
      assert events[0].Call?;
      assert out[j] == ThrottleTrace(true, events[1..])[j - 1];
      ThrottledUntilTimeout(events[1..], j - 1);
      var k :| 0 <= k < j - 1 && events[1..][k].Timeout?;
      assert events[k + 1].Timeout?;
    }
  }

  /**
   * Which calls run: a call runs `func`, with its own arguments, exactly when no
   * run's timer is pending, that is, when the event before it was the timer
   * going off (or, for the first event, when the flag starts down). A call made
   * while throttled still leaves the flag up, so it is the timer alone that
   * frees the wrapper.
   */
  lemma {:induction false} ThrottleRunsWhenFree<A>(inThrottle: bool, events: seq<GateEvent<A>>, i: int)
    requires 0 <= i < |events|
    ensures ThrottleTrace(inThrottle, events)[i] ==
      if events[i].Timeout? then None
      else if (if i == 0 then !inThrottle else events[i - 1].Timeout?) then Some(events[i].args)
      else None
    decreases |events|
  {
    if i > 0 {
      var next := if events[0].Call? then true else false;
      assert ThrottleTrace(inThrottle, events)[i] == ThrottleTrace(next, events[1..])[i - 1];
      ThrottleRunsWhenFree(next, events[1..], i - 1);
    }
  }

  /**
   * What `func` is run with on each event of a debounced trace, starting with
   * the arguments of the pending timer, if there is one.
   */
  function DebounceTrace<A>(pending: Option<A>, events: seq<GateEvent<A>>): (out: seq<Option<A>>)
    ensures |out| == |events|
    decreases |events|
  {
    if events == [] then []
    else match events[0]
      case Call(a) => [None] + DebounceTrace(Some(a), events[1..])
      case Timeout => [pending] + DebounceTrace(None, events[1..])
  }

  /**
   * Debouncing: a call only cancels and reschedules, so `func` runs only when the
   * timer goes off, and then exactly with the arguments of the call just before
   * it (the latest one); a timer event with no call since the last one runs
   * nothing. At the start of the trace the pending timer's arguments stand in
   * for that call.
   */
  lemma {:induction false} DebounceRunsLatest<A>(pending: Option<A>, events: seq<GateEvent<A>>, j: int)
    requires 0 <= j < |events|
    ensures DebounceTrace(pending, events)[j] ==
      if events[j].Call? then None
      else if j == 0 then pending
      else if events[j - 1].Call? then Some(events[j - 1].args)
      else None
    decreases |events|
  {
    if j > 0 {
      var next := if events[0].Call? then Some(events[0].args) else None;
      assert DebounceTrace(pending, events)[j] == DebounceTrace(next, events[1..])[j - 1];
      DebounceRunsLatest(next, events[1..], j - 1);
    }
  }

  /** Over a whole trace from a fresh wrapper, `func` never runs with arguments no call passed. */
  lemma DebounceRunsOnlyCalledArgs<A>(events: seq<GateEvent<A>>, j: int)
    requires 0 <= j < |events| && DebounceTrace(None, events)[j].Some?
    ensures 0 < j && events[j].Timeout? && events[j - 1] == Call(DebounceTrace(None, events)[j].value)
  {
    DebounceRunsLatest(None, events, j);
  }

  /** The closure of `throttle(func, limit)`. */
  class Throttle {
    var inThrottle: bool

    constructor ()
      ensures !inThrottle
    {
      inThrottle := false;
    }

    /** The wrapper called with `args`; returns the arguments `func` was run with, if it was. */
    method Call<A>(args: A) returns (ran: Option<A>)
      modifies this
      ensures ran == ThrottleTrace(old(inThrottle), [GateEvent.Call(args)])[0]
      ensures inThrottle
    {
      if !inThrottle {
        ran := Some(args);
        inThrottle := true;
      } else {
        ran := None;
      }
    }

    /** The timer started by the last run goes off. */
    method Expire()
      modifies this
      ensures !inThrottle
    {
      inThrottle := false;
    }
  }

  /** The closure of `debounce(func, wait)`: the arguments its pending timer will run `func` with. */
  class Debounce<A> {
    var pending: Option<A>

    constructor ()
      ensures pending == None
    {
      pending := None;
    }

    /** The wrapper called with `args`: the pending timer is cleared and a new one started. */
    method Call(args: A)
      modifies this
      ensures pending == Some(args)
    {
      pending := Some(args);
    }

    /** The pending timer goes off; returns the arguments `func` was run with, if any timer was pending. */
    method Fire() returns (ran: Option<A>)
      modifies this
      ensures ran == DebounceTrace(old(pending), [Timeout])[0]
      ensures pending == None
    {
      ran := pending;
      pending := None;
    }
  }
}
