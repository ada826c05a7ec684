/** `debounce(func, wait)`: every call cancels the pending timer and schedules `func`
    with that call's arguments `wait` ms later. Time is discrete and explicit; a timer
    due at `d` has fired before any call made at `d` or later, and once the calls stop
    the last pending timer fires. */
module Debounce {
  import opened JsText

  /** A call to the wrapper at time `at` with arguments `args`. */
  datatype Call<A> = Call(at: int, args: A)

  /** An execution of `func` at time `at` with arguments `args`. */
  datatype Run<A> = Run(at: int, args: A)

  /** The wrapper's state: the `later` timer currently scheduled, if any. */
  datatype Debouncer<A> = Debouncer(wait: nat, pending: Option<Run<A>>)

  /** Result of one call: the new state and the runs that happened before it. */
  datatype Outcome<A> = Outcome(next: Debouncer<A>, fired: seq<Run<A>>)

  /** The run a call schedules. */
  function Scheduled<A>(wait: nat, c: Call<A>): Run<A> {
    Run(c.at + wait, c.args)
  }

  /** One call. A pending timer already due has fired before it; otherwise it is
      cancelled. Either way the call's own run becomes the only pending one. */
  function Invoke<A>(d: Debouncer<A>, c: Call<A>): (o: Outcome<A>)
    ensures o.next == d.(pending := Some(Scheduled(d.wait, c)))
    ensures |o.fired| <= 1
    ensures o.fired != [] <==> d.pending.Some? && d.pending.value.at <= c.at
    ensures o.fired != [] ==> o.fired[0] == d.pending.value
  {
    var fired := if d.pending.Some? && d.pending.value.at <= c.at then [d.pending.value] else [];
    Outcome(d.(pending := Some(Scheduled(d.wait, c))), fired)
  }

  /** Every run `func` makes when `calls` are fed to `d` and time then runs on. */
  function Runs<A>(d: Debouncer<A>, calls: seq<Call<A>>): seq<Run<A>>
    decreases |calls|
  {
    if calls == [] then
      if d.pending.Some? then [d.pending.value] else []
    else
      var o := Invoke(d, calls[0]);
      o.fired + Runs(o.next, calls[1..])
  }

  /** The call at index `i` gets its run: no later call arrives before its timer fires. */
  predicate Survives<A>(wait: nat, calls: seq<Call<A>>, i: nat)
    requires i < |calls|
  {
    i == |calls| - 1 || calls[i].at + wait <= calls[i + 1].at
  }

  /** Reference behaviour, call by call: each surviving call runs `wait` after it with
      its own arguments, in call order. */
  function Expected<A>(wait: nat, calls: seq<Call<A>>): (rs: seq<Run<A>>)
    ensures |rs| <= |calls|
    ensures calls != [] ==> rs != [] && rs[|rs| - 1] == Scheduled(wait, calls[|calls| - 1])
  {
    if calls == [] then []
    else
      (if Survives(wait, calls, 0) then [Scheduled(wait, calls[0])] else [])
      + Expected(wait, calls[1..])
  }

  /** A wrapper whose pending run was scheduled by call `c` behaves as if `c` had been
      the call just before `calls`. */
  lemma {:induction false} RunsFromPending<A>(wait: nat, c: Call<A>, calls: seq<Call<A>>)
    ensures Runs(Debouncer(wait, Some(Scheduled(wait, c))), calls) == Expected(wait, [c] + calls)
    decreases |calls|
  {
    var d := Debouncer(wait, Some(Scheduled(wait, c)));
    if calls == [] {
      assert Expected(wait, [c]) == [Scheduled(wait, c)] + Expected(wait, []);
    } else {
      var o := Invoke(d, calls[0]);
      RunsFromPending(wait, calls[0], calls[1..]);
      assert ([c] + calls)[1..] == calls;
      assert [calls[0]] + calls[1..] == calls;
    }
  }

  /** The state machine agrees with the reference behaviour on every call sequence. */
  lemma {:induction false} RunsMatchExpected<A>(wait: nat, calls: seq<Call<A>>)
    ensures Runs(Debouncer(wait, None), calls) == Expected(wait, calls)
  {
    if calls != [] {
      RunsFromPending(wait, calls[0], calls[1..]);
      assert [calls[0]] + calls[1..] == calls;
    }
  }

  /** A burst whose gaps are all shorter than `wait` yields exactly one run, `wait` after
      the last call, with the last call's arguments. */
  lemma {:induction false} BurstRunsOnce<A>(wait: nat, calls: seq<Call<A>>)
    requires calls != []
    requires forall i | 0 <= i < |calls| - 1 :: calls[i + 1].at < calls[i].at + wait
    ensures Runs(Debouncer(wait, None), calls) == [Scheduled(wait, calls[|calls| - 1])]
  {
    RunsMatchExpected(wait, calls);
    BurstExpected(wait, calls);
  }

  lemma {:induction false} BurstExpected<A>(wait: nat, calls: seq<Call<A>>)
    requires calls != []
    requires forall i | 0 <= i < |calls| - 1 :: calls[i + 1].at < calls[i].at + wait
    ensures Expected(wait, calls) == [Scheduled(wait, calls[|calls| - 1])]
    decreases |calls|
  {
    if |calls| > 1 {
      assert !Survives(wait, calls, 0);
      BurstExpected(wait, calls[1..]);
    }
  }

  /** Wait 50, calls at 0, 10 and 20 ms: one run, at 70 ms, with the arguments of the
      call at 20 ms. */
  lemma DebounceExample()
    ensures Runs(Debouncer(50, None), [Call(0, "a"), Call(10, "b"), Call(20, "c")])
            == [Run(70, "c")]
  {
    BurstRunsOnce(50, [Call(0, "a"), Call(10, "b"), Call(20, "c")]);
  }
}
