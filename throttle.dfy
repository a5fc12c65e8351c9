/** A model of `throttle(fn, limit)`: a wrapper that forwards an invocation to
    `fn` only when at least `limit` time units have passed since the last
    forwarded invocation. The clock reading is an explicit parameter, and the
    call of `fn` is the observable output (the arguments delivered). */
module Throttle {
  import opened Wrappers

  /** One invocation of the throttled wrapper: the clock reading and the arguments. */
  datatype Call<A> = Call(time: int, args: A)

  /** What the wrapper's closure holds: the limit and the time of the last forwarded call. */
  datatype State = State(limit: int, lastCall: int)

  /** A freshly created throttle wrapper: `lastCall` starts at 0. */
  function Init(limit: int): (r: State) {
    State(limit, 0)
  }

  /** The throttle rule: an invocation at `now` is forwarded exactly when
      `now - lastCall >= limit`. */
  predicate Admits(s: State, now: int) {
    now - s.lastCall >= s.limit
  }

  /** One invocation: the state afterwards and the arguments `fn` received, if it was called. */
  function Step<A>(s: State, c: Call<A>): (r: (State, Option<A>)) {
    if Admits(s, c.time) then (State(s.limit, c.time), Some(c.args)) else (s, None)
  }

  /** The state after a whole sequence of invocations, oldest first. */
  function Final<A>(s: State, calls: seq<Call<A>>): (r: State) {
    if calls == [] then s
    else Step(Final(s, calls[..|calls| - 1]), calls[|calls| - 1]).0
  }

  /** The invocations that reached `fn`, in order, out of a sequence of invocations. */
  function Forwarded<A>(s: State, calls: seq<Call<A>>): (r: seq<Call<A>>) {
    if calls == [] then []
    else
      var before := calls[..|calls| - 1];
      var last := calls[|calls| - 1];
      Forwarded(s, before) + if Admits(Final(s, before), last.time) then [last] else []
  }

  /** Running one more invocation extends the run by one step. */
  lemma ExtendRun<A>(s: State, calls: seq<Call<A>>, c: Call<A>)
    ensures Final(s, calls + [c]) == Step(Final(s, calls), c).0
    ensures Forwarded(s, calls + [c]) ==
            Forwarded(s, calls) + if Admits(Final(s, calls), c.time) then [c] else []
  {
    assert (calls + [c])[..|calls|] == calls;
  }

  /** The time of the most recent forwarded invocation, or the initial `lastCall` if none was. */
  function LastForwardedTime<A>(s: State, calls: seq<Call<A>>): (r: int) {
    var f := Forwarded(s, calls);
    if f == [] then s.lastCall else f[|f| - 1].time
  }

  /** The limit never changes, and `lastCall` always holds the time of the last forwarded call. */
  lemma {:induction false} FinalRecordsLastForwarded<A>(s: State, calls: seq<Call<A>>)
    ensures Final(s, calls).limit == s.limit
    ensures Final(s, calls).lastCall == LastForwardedTime(s, calls)
  {
    if calls != [] {
      FinalRecordsLastForwarded(s, calls[..|calls| - 1]);
    }
  }

  /** A further invocation is forwarded exactly when it comes at least `limit` after the last
      forwarded one; a call within `limit` of it is suppressed and nothing else is delivered. */
  lemma NextCallForwardedIff<A>(s: State, calls: seq<Call<A>>, c: Call<A>)
    ensures Forwarded(s, calls + [c]) ==
            Forwarded(s, calls) + if c.time - LastForwardedTime(s, calls) >= s.limit then [c] else []
    ensures Final(s, calls + [c]).lastCall ==
            if c.time - LastForwardedTime(s, calls) >= s.limit then c.time else LastForwardedTime(s, calls)
  {
    ExtendRun(s, calls, c);
    FinalRecordsLastForwarded(s, calls);
  }

  /** Every delivery is one of the invocations, with that invocation's own time and arguments. */
  lemma {:induction false} ForwardedAreCalls<A>(s: State, calls: seq<Call<A>>)
    ensures |Forwarded(s, calls)| <= |calls|
    ensures forall k :: 0 <= k < |Forwarded(s, calls)| ==> Forwarded(s, calls)[k] in calls
  {
    if calls != [] {
      var before := calls[..|calls| - 1];
      ForwardedAreCalls(s, before);
      assert forall c :: c in before ==> c in calls;
    }
  }

  /** The first delivery comes at least `limit` after the initial `lastCall`, and any two
      consecutive deliveries are at least `limit` apart. */
  lemma {:induction false} ForwardedSpacing<A>(s: State, calls: seq<Call<A>>)
    ensures var f := Forwarded(s, calls);
      (f != [] ==> f[0].time - s.lastCall >= s.limit) &&
      forall k :: 0 <= k < |f| - 1 ==> f[k + 1].time - f[k].time >= s.limit
  {
    if calls != [] {
      var before := calls[..|calls| - 1];
      ForwardedSpacing(s, before);
      FinalRecordsLastForwarded(s, before);
    }
  }

  /** With a non-negative limit, deliveries `i < j` are at least `(j - i) * limit` apart,
      so in particular any two deliveries are at least `limit` apart. */
  lemma {:induction false} ForwardedApart<A>(s: State, calls: seq<Call<A>>, i: nat, j: nat)
    requires s.limit >= 0
    requires i < j < |Forwarded(s, calls)|
    ensures Forwarded(s, calls)[j].time - Forwarded(s, calls)[i].time >= (j - i) * s.limit
    ensures Forwarded(s, calls)[j].time - Forwarded(s, calls)[i].time >= s.limit
    decreases j
  {
    ForwardedSpacing(s, calls);
    if i < j - 1 {
      ForwardedApart(s, calls, i, j - 1);
      assert (j - i) * s.limit == (j - 1 - i) * s.limit + s.limit;
    }
  }

  /** The closure created by `throttle(fn, limit)`. `lastCall` is its one mutable variable;
      the ghost fields record every invocation and every delivery to `fn`. */
  class Throttler<A> {
    const limit: int
    var lastCall: int
    ghost var calls: seq<Call<A>>
    ghost var forwarded: seq<Call<A>>

    /** The fields agree with running the throttle rule over the recorded invocations. */
    ghost predicate Valid()
      reads this
    {
      Final(Init(limit), calls) == State(limit, lastCall) &&
      forwarded == Forwarded(Init(limit), calls)
    }

    constructor (limit: int)
      ensures Valid()
      ensures this.limit == limit && lastCall == 0
      ensures calls == [] && forwarded == []
    {
      this.limit := limit;
      lastCall := 0;
      calls := [];
      forwarded := [];
    }

    /** One invocation at clock reading `now`: returns the arguments passed to `fn`,
        or `None` when the call was suppressed. */
    method Invoke(now: int, args: A) returns (delivered: Option<A>)
      requires Valid()
      modifies this
      ensures Valid()
      ensures delivered.Some? <==> now - old(lastCall) >= limit
      ensures delivered.Some? ==> delivered.value == args && lastCall == now
      ensures delivered.None? ==> lastCall == old(lastCall)
      ensures calls == old(calls) + [Call(now, args)]
      ensures forwarded == old(forwarded) + if delivered.Some? then [Call(now, args)] else []
    {
      ExtendRun(Init(limit), calls, Call(now, args));
      if now - lastCall >= limit {
        lastCall := now;
        delivered := Some(args);
      } else {
        delivered := None;
      }
      calls := calls + [Call(now, args)];
      forwarded := forwarded + if delivered.Some? then [Call(now, args)] else [];
    }
  }
}
