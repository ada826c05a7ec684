/** `throttle(func, limit)`: a call runs `func` at once unless an earlier run is less
    than `limit` ms ago, in which case it is dropped (never queued). Time is discrete
    and explicit; the timer that clears `inThrottle` is idealised to fire exactly
    `limit` ms after the run that armed it, and before any call made at that instant
    or later. */
module Throttle {
  import opened JsText

  /** The wrapper's state: `openAt` is when the pending `inThrottle = false` timer
      fires, or None before the first run. */
  datatype Throttler = Throttler(limit: nat, openAt: Option<int>)

  /** Result of one call: the new state and whether `func` ran. */
  datatype Outcome = Outcome(next: Throttler, ran: bool)

  /** A fresh wrapper, as `throttle` returns it. */
  function Fresh(limit: nat): Throttler {
    Throttler(limit, None)
  }

  /** The wrapper is not in its throttled window at time `t`. */
  predicate Admits(th: Throttler, t: int) {
    th.openAt.None? || th.openAt.value <= t
  }

  /** One call at time `t`. It runs iff the wrapper admits it, and then opens a window
      of `limit` ms; a dropped call leaves the state exactly as it was. */
  function Call(th: Throttler, t: int): (o: Outcome)
    ensures o.ran <==> Admits(th, t)
    ensures o.ran ==> o.next == th.(openAt := Some(t + th.limit))
    ensures !o.ran ==> o.next == th
  {
    if Admits(th, t) then Outcome(th.(openAt := Some(t + th.limit)), true)
    else Outcome(th, false)
  }

  /** Event times never go backwards. */
  predicate Nondecreasing(times: seq<int>) {
    forall i, j | 0 <= i <= j < |times| :: times[i] <= times[j]
  }

  /** Feeds calls at `times` to a fresh wrapper and reports which ones ran. A call runs
      iff it is at least `limit` after every earlier call that ran; so the first call
      always runs, two runs are never closer than `limit`, and every dropped call fell
      inside the window of an earlier run. */
  method RunThrottle(limit: nat, times: seq<int>) returns (ran: seq<bool>)
    requires Nondecreasing(times)
    ensures |ran| == |times|
    ensures forall j | 0 <= j < |times| ::
              ran[j] <==> (forall k | 0 <= k < j && ran[k] :: times[k] + limit <= times[j])
    ensures |times| > 0 ==> ran[0]
    ensures forall k, j | 0 <= k < j < |times| && ran[k] && ran[j] :: times[k] + limit <= times[j]
    ensures forall j | 0 <= j < |times| && !ran[j] ::
              exists k | 0 <= k < j :: ran[k] && times[j] < times[k] + limit
  {
    var th := Fresh(limit);
    ran := [];
    ghost var last := -1;
    var i := 0;
    while i < |times|
      invariant 0 <= i <= |times|
      invariant |ran| == i
      invariant th.limit == limit
      invariant th.openAt.None? ==> forall k | 0 <= k < i :: !ran[k]
      invariant th.openAt.Some? ==>
                  0 <= last < i && ran[last] && th.openAt.value == times[last] + limit
      invariant th.openAt.Some? ==> forall k | 0 <= k < i && ran[k] :: times[k] <= times[last]
      invariant forall j | 0 <= j < i ::
                  ran[j] <==> (forall k | 0 <= k < j && ran[k] :: times[k] + limit <= times[j])
    {
      var o := Call(th, times[i]);
      if o.ran {
        last := i;
      }
      ran := ran + [o.ran];
      th := o.next;
      i := i + 1;
    }
  }

  /** Limit 100, calls at 0, 5, 50 and 105 ms: only the calls at 0 and 105 run. */
  lemma ThrottleExample()
    ensures var c0 := Call(Fresh(100), 0);
            var c1 := Call(c0.next, 5);
            var c2 := Call(c1.next, 50);
            var c3 := Call(c2.next, 105);
            [c0.ran, c1.ran, c2.ran, c3.ran] == [true, false, false, true]
  {
  }
}
