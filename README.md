# Debounce and throttle wrappers

`output-based-qna.js` defines two higher-order wrappers around a callback `fn`:

- `throttle(fn, limit)` returns a closure holding one variable, `lastCall`, which starts
  at 0. Each invocation reads the clock. When at least `limit` time units have passed
  since `lastCall`, the closure records the current time in `lastCall` and calls `fn`
  with the invocation's arguments. Otherwise the invocation is dropped.
- `debounce(fn, delay)` returns a closure holding one variable, `timeoutId`, which starts
  undefined. Each invocation cancels the host timer named by `timeoutId`. It then sets a
  new timer, due `delay` later, that calls `fn` with this invocation's arguments, and
  stores the new timer's handle in `timeoutId`.

The project models each wrapper as a Dafny class whose mutable fields are the closure's
variables, with the clock reading passed in as a parameter:

- `Throttle.Throttler` holds `lastCall`. Its `Invoke(now, args)` returns the arguments
  delivered to `fn`, or `None` when the invocation was suppressed.
- `Debounce.Debouncer` holds `timeoutId`. It also holds the host timers this wrapper set
  that have neither run nor been cancelled, and the next handle the host will hand out.
  `Invoke(now, args)` is one invocation. `Tick(now)` is the host's event loop running
  every timer that is due at `now`. It returns the arguments `fn` was called with.

Each class carries ghost fields that record every event and every call of `fn`. Its
`Valid()` predicate ties the real fields to pure functions that replay the recorded
events from a fresh wrapper:

- `Throttle.Final` / `Throttle.Forwarded`;
- `Debounce.Final` / `Debounce.Fired`.

The properties are lemmas about those functions. For throttle:

- the admission rule;
- what `lastCall` records;
- that deliveries are invocations;
- the spacing of deliveries. This holds for any timestamps, not only non-decreasing
  ones, because each delivery is admitted against the previous delivery's time. The
  bound for non-adjacent deliveries also needs `limit >= 0`.

For debounce:

- at most one call is ever pending;
- the pending call carries the latest arguments and is due `delay` after the latest
  invocation;
- a burst of invocations makes `fn` run exactly once, with the last arguments, once a
  tick reaches the due time.

Files:

- `wrappers.dfy`: the `Option` type.
- `throttle.dfy`: module `Throttle`.
- `debounce.dfy`: module `Debounce`.

## Model

| member | source | states |
|---|---|---|
| Throttle.Throttler.constructor | output-based-qna.js:74-75 | a fresh throttle wrapper has `lastCall == 0`, has seen no invocation and has delivered nothing |
| Throttle.Throttler.Invoke | output-based-qna.js:76-82 | an invocation at `now` is forwarded exactly when `now - lastCall >= limit`. A forwarded one delivers exactly its own arguments and sets `lastCall` to `now`. A suppressed one delivers nothing and leaves `lastCall` unchanged. The history is extended by the invocation, and by the delivery when there is one. |
| Throttle.FinalRecordsLastForwarded | output-based-qna.js:75-79 | over any sequence of invocations, the limit never changes, and `lastCall` equals the time of the most recent forwarded invocation, or its initial value if none was forwarded |
| Throttle.NextCallForwardedIff | output-based-qna.js:77-80 | a further invocation is delivered exactly when it comes at least `limit` after the last forwarded invocation, and `lastCall` then moves to its time. An invocation within `limit` of it is suppressed, and the deliveries stay as they were. |
| Throttle.ForwardedAreCalls | output-based-qna.js:76-80 | there are never more deliveries than invocations, and every delivery is one of the invocations, with that invocation's own time and arguments |
| Throttle.ForwardedSpacing | output-based-qna.js:77-79 | the first delivery comes at least `limit` after the initial `lastCall`, and consecutive deliveries are at least `limit` apart |
| Throttle.ForwardedApart | output-based-qna.js:77-79 | for a non-negative limit, deliveries `i < j` are at least `(j - i) * limit` apart, and so at least `limit` apart |
| Debounce.Debouncer.constructor | output-based-qna.js:53-54 | a fresh debounce wrapper has an undefined `timeoutId`, no timer set, no events and no calls of `fn` |
| Debounce.Debouncer.Invoke | output-based-qna.js:56-61 | after an invocation exactly one timer is pending. That timer is the new one, due `now + delay` and carrying this invocation's arguments, and `timeoutId` holds its handle. `fn` is not called. |
| Debounce.Debouncer.Tick | output-based-qna.js:58-60 | the host runs the pending call exactly when it is due, passing its arguments to `fn`; then nothing is pending. Otherwise nothing runs and the pending call stays. `timeoutId` keeps its value. |
| Debounce.Debouncer.ClearTimer | output-based-qna.js:57 | the host's `clearTimeout(id)` removes the timer whose handle is `id` and keeps every other timer in order; on an undefined `id` it does nothing |
| Debounce.Debouncer.SetTimer | output-based-qna.js:58 | the host's `setTimeout` appends a timer due at `due` carrying `args`, under the host's next handle, which it returns and then advances by one |
| Debounce.FinalAppend | output-based-qna.js:56-60 | running two sequences of events one after the other ends in the state reached by running the second from wherever the first left off |
| Debounce.RunAppend | output-based-qna.js:56-60 | the calls of `fn` over a history `a + b` are those of `a` followed by those of `b` run from the state `a` left |
| Debounce.InitNothingPending | output-based-qna.js:54 | before any invocation nothing is pending |
| Debounce.ClearCancelsPending | output-based-qna.js:57 | while at most one call is pending, `clearTimeout(timeoutId)` leaves no timer of the wrapper pending |
| Debounce.InvokeReplacesPending | output-based-qna.js:57-58 | an invocation keeps the at-most-one invariant and leaves exactly the new timer pending, due `now + delay` with the invocation's arguments |
| Debounce.TickFiresWhenDue | output-based-qna.js:58-60 | a tick runs the pending call's arguments exactly when the call is due, and then clears it; otherwise it runs nothing and changes nothing. The invariant and `timeoutId` are kept. |
| Debounce.NextKeepsAtMostOnePending | output-based-qna.js:56-60 | any single event keeps at most one call pending, with `timeoutId` naming it |
| Debounce.RunKeepsAtMostOnePending | output-based-qna.js:56-60 | after any sequence of events, at most one call is pending |
| Debounce.DelayConstant | output-based-qna.js:53-58 | the `delay` captured by the closure never changes |
| Debounce.LastInvokedIsLatest | output-based-qna.js:56 | the most recent invocation is found exactly when there is one, it is one of the events, and only ticks follow it |
| Debounce.PendingIsLatest | output-based-qna.js:56-60 | from a fresh wrapper, a pending call carries the arguments of the most recent invocation and is due `delay` after it. Right after an invocation something is pending. |
| Debounce.BurstIsQuiet | output-based-qna.js:56-60 | during a burst (each event comes before the latest pending call is due) `fn` never runs, and the one pending call carries the burst's last arguments, due `delay` after its last invocation |
| Debounce.ReachesIsSome | output-based-qna.js:58-60 | a sequence of ticks reaches a due time exactly when one of its ticks comes at or after it |
| Debounce.SettleRunsOnce | output-based-qna.js:58-60 | while only ticks happen, a pending call runs exactly once, with its own arguments, if and only if some tick reaches its due time. Until then it stays pending, and afterwards nothing is pending. |
| Debounce.BurstRunsOnceWithLastArgs | output-based-qna.js:53-61 | a burst of invocations followed by ticks calls `fn` exactly once, with the burst's last arguments, if a tick comes at or after the last invocation's time plus `delay`, and never otherwise. This holds both for the ticks run from the state the burst left and for the whole history `burst + ticks` from a fresh wrapper, which is what `Debouncer` records. Nothing is pending afterwards exactly when it ran. |

## Left out

- The rest of `output-based-qna.js` is not part of this model:
  - the `var`/`let` loop-closure demo;
  - the prototype-chain demo;
  - the DOM wiring (`getElementById`, `addEventListener`) and the example usages;
  - the Promise, `fetch` and async/await demos;
  - the `fs.readFile` demos;
  - the shallow and deep copy demos;
  - `console.log` output.

  These are language demonstrations, UI plumbing, network or file I/O.
- The clock (`Date.now()`) is not modelled. It becomes the explicit `now` parameter.
- The host timers (`setTimeout`, `clearTimeout`) are modelled only as the list of timers
  this wrapper set, which `Tick(now)` runs when they are due. The event loop, its ordering
  among other callbacks, and real concurrency are not modelled.
- The host's normalisation of the delay is not modelled: negative, fractional or very large
  delays are not clamped or converted, and `delay` is used as given.
- Times, limits and delays are integers. JavaScript numbers are floating point, and they
  are not modelled.
- The `this` binding of `fn.apply(this, args)` is not modelled. `fn` is observed only
  through the arguments it receives.
- Debounce.BurstRunsOnceWithLastArgs: states "exactly once" for ticks that follow the
  burst. A tick in the middle of a burst comes before that point's due time by the
  definition of a burst, so it runs nothing (Debounce.BurstIsQuiet).
