/** A model of `debounce(fn, delay)`: a wrapper that, on every invocation, cancels the
    timer it set last (`clearTimeout(timeoutId)`) and sets a new one
    (`timeoutId = setTimeout(..., delay)`) that calls `fn` with the latest arguments.
    The clock is an explicit parameter. The host's timers that this wrapper created
    are an explicit list; `Tick(now)` is the host running every timer that is due. */
module Debounce {
  import opened Wrappers

  /** A timer registered with the host: its handle, the time it becomes due, and the
      arguments its callback passes to `fn`. */
  datatype Timer<A> = Timer(id: nat, due: int, args: A)

  /** The wrapper's closure (`delay` and `timeoutId`, which is `None` while still
      undefined), the host timers it created that have neither run nor been
      cancelled, oldest first, and the next handle the host will hand out. */
  datatype State<A> = State(delay: int, timeoutId: Option<nat>, timers: seq<Timer<A>>, nextId: nat)

  /** What happens to the wrapper: an invocation at `time`, or the host's event loop
      running the timers that are due at `time`. */
  datatype Event<A> = Invoked(time: int, args: A) | Ticked(time: int)

  /** A freshly created debounce wrapper: `timeoutId` is undefined and no timer is set. */
  function Init<A>(delay: int): (r: State<A>) {
    State(delay, None, [], 1)
  }

  /** The host timers without the one whose handle is `id`. */
  function Without<A>(timers: seq<Timer<A>>, id: nat): (r: seq<Timer<A>>) {
    if timers == [] then []
    else (if timers[0].id == id then [] else [timers[0]]) + Without(timers[1..], id)
  }

  /** `clearTimeout(id)`: cancels the timer with that handle; on `undefined` it does nothing. */
  function ClearTimeout<A>(timers: seq<Timer<A>>, id: Option<nat>): (r: seq<Timer<A>>) {
    if id.None? then timers else Without(timers, id.value)
  }

  /** One invocation at `now`: cancel the timer named by `timeoutId`, then set a new one,
      due `delay` later, carrying this invocation's arguments, and remember its handle. */
  function AfterInvoke<A>(s: State<A>, now: int, args: A): (r: State<A>) {
    var cleared := ClearTimeout(s.timers, s.timeoutId);
    State(s.delay, Some(s.nextId), cleared + [Timer(s.nextId, now + s.delay, args)], s.nextId + 1)
  }

  /** The arguments of the timers that are due at `now`, in the order the timers were set. */
  function DueArgs<A>(timers: seq<Timer<A>>, now: int): (r: seq<A>) {
    if timers == [] then []
    else (if timers[0].due <= now then [timers[0].args] else []) + DueArgs(timers[1..], now)
  }

  /** The timers that are not yet due at `now`. */
  function NotDue<A>(timers: seq<Timer<A>>, now: int): (r: seq<Timer<A>>) {
    if timers == [] then []
    else (if timers[0].due <= now then [] else [timers[0]]) + NotDue(timers[1..], now)
  }

  /** The host at time `now` runs every due timer and forgets it; `timeoutId` keeps
      the stale handle, as the closure does. The calls of `fn` this makes are
      `DueArgs(s.timers, now)`. */
  function AfterTick<A>(s: State<A>, now: int): (r: State<A>) {
    s.(timers := NotDue(s.timers, now))
  }

  /** The state after one event. */
  function Next<A>(s: State<A>, e: Event<A>): (r: State<A>) {
    match e
    case Invoked(now, args) => AfterInvoke(s, now, args)
    case Ticked(now) => AfterTick(s, now)
  }

  /** The arguments of the calls of `fn` that one event causes: an invocation causes none. */
  function Output<A>(s: State<A>, e: Event<A>): (r: seq<A>) {
    match e
    case Invoked(_, _) => []
    case Ticked(now) => DueArgs(s.timers, now)
  }

  /** The state after a sequence of events, oldest first. */
  function Final<A>(s: State<A>, events: seq<Event<A>>): (r: State<A>) {
    if events == [] then s
    else Next(Final(s, events[..|events| - 1]), events[|events| - 1])
  }

  /** Every call of `fn` that a sequence of events causes, in order. */
  function Fired<A>(s: State<A>, events: seq<Event<A>>): (r: seq<A>) {
    if events == [] then []
    else
      var before := events[..|events| - 1];
      Fired(s, before) + Output(Final(s, before), events[|events| - 1])
  }

  /** The invariant the clear-before-set order keeps: at most one timer is pending,
      and it is the one whose handle `timeoutId` holds. */
  ghost predicate AtMostOnePending<A>(s: State<A>) {
    |s.timers| <= 1 && (s.timers != [] ==> s.timeoutId == Some(s.timers[0].id))
  }

  /** The pending call, if any: its handle, when it is due and with which arguments. */
  function Pending<A>(s: State<A>): (r: Option<Timer<A>>) {
    if s.timers == [] then None else Some(s.timers[0])
  }

  /** The most recent invocation among the events, if there is one. */
  function LastInvoked<A>(events: seq<Event<A>>): (r: Option<Event<A>>)
    ensures r.Some? ==> r.value.Invoked?
    ensures |events| > 0 && events[0].Invoked? ==> r.Some?
  {
    if events == [] then None
    else if events[|events| - 1].Invoked? then Some(events[|events| - 1])
    else LastInvoked(events[..|events| - 1])
  }

  /** `LastInvoked` finds an invocation exactly when there is one, and it is one of the
      events, after which only ticks happen. */
  lemma {:induction false} LastInvokedIsLatest<A>(events: seq<Event<A>>)
    ensures LastInvoked(events).None? <==> forall i :: 0 <= i < |events| ==> events[i].Ticked?
    ensures LastInvoked(events).Some? ==>
              exists i :: 0 <= i < |events| && events[i] == LastInvoked(events).value &&
                          forall j :: i < j < |events| ==> events[j].Ticked?
  {
    if events != [] {
      var n := |events|;
      var before := events[..n - 1];
      LastInvokedIsLatest(before);
      assert forall i :: 0 <= i < n - 1 ==> before[i] == events[i];
      if events[n - 1].Invoked? {
        assert events[n - 1] == LastInvoked(events).value;
      } else if LastInvoked(before).Some? {
        var i :| 0 <= i < n - 1 && before[i] == LastInvoked(before).value &&
                 forall j :: i < j < n - 1 ==> before[j].Ticked?;
        assert events[i] == LastInvoked(events).value;
      }
    }
  }

  /** Running one more event extends the run by one step. */
  lemma ExtendRun<A>(s: State<A>, events: seq<Event<A>>, e: Event<A>)
    ensures Final(s, events + [e]) == Next(Final(s, events), e)
    ensures Fired(s, events + [e]) == Fired(s, events) + Output(Final(s, events), e)
  {
    assert (events + [e])[..|events|] == events;
  }

  /** `a + b` is `a` followed by the front of `b`, then by the last event of `b`. */
  lemma AppendLast<A>(a: seq<Event<A>>, b: seq<Event<A>>)
    requires b != []
    ensures b == b[..|b| - 1] + [b[|b| - 1]]
    ensures a + b == (a + b[..|b| - 1]) + [b[|b| - 1]]
  {
  }

  /** The final state of `a + b` splits at `a` once that of `a` followed by the front of `b` does. */
  lemma FinalAppendStep<A>(s: State<A>, a: seq<Event<A>>, b: seq<Event<A>>)
    requires b != []
    requires Final(s, a + b[..|b| - 1]) == Final(Final(s, a), b[..|b| - 1])
    ensures Final(s, a + b) == Final(Final(s, a), b)
  {
    var b0, e := b[..|b| - 1], b[|b| - 1];
    AppendLast(a, b);
    ExtendRun(s, a + b0, e);
    ExtendRun(Final(s, a), b0, e);
  }

  /** The calls of `fn` over `a + b` split at `a` once those over `a` followed by the front
      of `b` do. */
  lemma FiredAppendStep<A>(s: State<A>, a: seq<Event<A>>, b: seq<Event<A>>)
    requires b != []
    requires Final(s, a + b[..|b| - 1]) == Final(Final(s, a), b[..|b| - 1])
    requires Fired(s, a + b[..|b| - 1]) == Fired(s, a) + Fired(Final(s, a), b[..|b| - 1])
    ensures Fired(s, a + b) == Fired(s, a) + Fired(Final(s, a), b)
  {
    var b0, e := b[..|b| - 1], b[|b| - 1];
    AppendLast(a, b);
    ExtendRun(s, a + b0, e);
    ExtendRun(Final(s, a), b0, e);
    var out := Output(Final(s, a + b0), e);
    assert Fired(s, a + b) == (Fired(s, a) + Fired(Final(s, a), b0)) + out;
    assert Fired(Final(s, a), b) == Fired(Final(s, a), b0) + out;
    ConcatAssoc(Fired(s, a), Fired(Final(s, a), b0), out);
  }

  /** Concatenation is associative; stated on its own so that the proof above need not
      look inside the runs. */
  lemma ConcatAssoc<A>(x: seq<A>, y: seq<A>, z: seq<A>)
    ensures (x + y) + z == x + (y + z)
  {
  }

  /** Running `a` then `b` ends where running `b` from the state `a` left ends. */
  lemma {:induction false} FinalAppend<A>(s: State<A>, a: seq<Event<A>>, b: seq<Event<A>>)
    ensures Final(s, a + b) == Final(Final(s, a), b)
  {
    if b == [] {
      assert a + b == a;
    } else {
      FinalAppend(s, a, b[..|b| - 1]);
      FinalAppendStep(s, a, b);
    }
  }

  /** Running `a` then `b` calls `fn` as running `a` does, then as running `b` from the
      state `a` left does. */
  lemma {:induction false} RunAppend<A>(s: State<A>, a: seq<Event<A>>, b: seq<Event<A>>)
    ensures Final(s, a + b) == Final(Final(s, a), b)
    ensures Fired(s, a + b) == Fired(s, a) + Fired(Final(s, a), b)
  {
    FinalAppend(s, a, b);
    if b == [] {
      assert a + b == a;
    } else {
      RunAppend(s, a, b[..|b| - 1]);
      FiredAppendStep(s, a, b);
    }
  }

  /** An invocation adds one step to the run and no call of `fn`. */
  lemma ExtendRunInvoked<A>(s: State<A>, events: seq<Event<A>>, now: int, args: A)
    ensures Final(s, events + [Invoked(now, args)]) == AfterInvoke(Final(s, events), now, args)
    ensures Fired(s, events + [Invoked(now, args)]) == Fired(s, events)
  {
    ExtendRun(s, events, Invoked(now, args));
    assert Fired(s, events) + [] == Fired(s, events);
  }

  /** A tick adds one step to the run and the calls of `fn` for the timers that are due. */
  lemma ExtendRunTicked<A>(s: State<A>, events: seq<Event<A>>, now: int)
    ensures Final(s, events + [Ticked(now)]) == AfterTick(Final(s, events), now)
    ensures Fired(s, events + [Ticked(now)]) == Fired(s, events) + DueArgs(Final(s, events).timers, now)
  {
    ExtendRun(s, events, Ticked(now));
  }

  /** Before any invocation nothing is pending. */
  lemma InitNothingPending<A>(delay: int)
    ensures AtMostOnePending(Init<A>(delay)) && Pending(Init<A>(delay)) == None
  {
  }

  /** Under the invariant, `clearTimeout(timeoutId)` cancels every pending timer. */
  lemma ClearCancelsPending<A>(s: State<A>)
    requires AtMostOnePending(s)
    ensures ClearTimeout(s.timers, s.timeoutId) == []
  {
    if s.timers != [] {
      var t := s.timers[0];
      assert s.timers == [t];
      assert Without<A>([t][1..], t.id) == [];
    }
  }

  /** After an invocation exactly one call is pending: the previous one was cancelled, and
      the new one carries this invocation's arguments and is due `delay` after it. */
  lemma InvokeReplacesPending<A>(s: State<A>, now: int, args: A)
    requires AtMostOnePending(s)
    ensures AtMostOnePending(AfterInvoke(s, now, args))
    ensures AfterInvoke(s, now, args).timers == [Timer(s.nextId, now + s.delay, args)]
    ensures Pending(AfterInvoke(s, now, args)) == Some(Timer(s.nextId, now + s.delay, args))
  {
    ClearCancelsPending(s);
  }

  /** A tick at `now` runs the pending call exactly when it is due, and then nothing is
      pending; otherwise it runs nothing and changes nothing. */
  lemma TickFiresWhenDue<A>(s: State<A>, now: int)
    requires AtMostOnePending(s)
    ensures AtMostOnePending(AfterTick(s, now))
    ensures DueArgs(s.timers, now) ==
            if Pending(s).Some? && Pending(s).value.due <= now then [Pending(s).value.args] else []
    ensures Pending(AfterTick(s, now)) ==
            if Pending(s).Some? && Pending(s).value.due <= now then None else Pending(s)
    ensures AfterTick(s, now).timeoutId == s.timeoutId
  {
    if s.timers != [] {
      var t := s.timers[0];
      assert s.timers == [t];
      assert [t][1..] == [];
      assert NotDue([t], now) == if t.due <= now then [] else [t];
      assert DueArgs([t], now) == if t.due <= now then [t.args] else [];
    }
  }

  /** One event keeps the invariant. */
  lemma NextKeepsAtMostOnePending<A>(s: State<A>, e: Event<A>)
    requires AtMostOnePending(s)
    ensures AtMostOnePending(Next(s, e))
  {
    match e
    case Invoked(now, args) => InvokeReplacesPending(s, now, args);
    case Ticked(now) => TickFiresWhenDue(s, now);
  }

  /** Whatever happens, never more than one call is pending. */
  lemma {:induction false} RunKeepsAtMostOnePending<A>(s: State<A>, events: seq<Event<A>>)
    requires AtMostOnePending(s)
    ensures AtMostOnePending(Final(s, events))
  {
    if events != [] {
      var before := events[..|events| - 1];
      RunKeepsAtMostOnePending(s, before);
      NextKeepsAtMostOnePending(Final(s, before), events[|events| - 1]);
    }
  }

  /** The delay captured by the closure never changes. */
  lemma {:induction false} DelayConstant<A>(s: State<A>, events: seq<Event<A>>)
    ensures Final(s, events).delay == s.delay
  {
    if events != [] {
      DelayConstant(s, events[..|events| - 1]);
    }
  }

  /** From a fresh wrapper, the pending call, if any, carries the arguments of the most
      recent invocation and is due `delay` after it; right after an invocation it always exists. */
  lemma {:induction false} PendingIsLatest<A>(delay: int, events: seq<Event<A>>)
    ensures AtMostOnePending(Final(Init<A>(delay), events))
    ensures var p := Pending(Final(Init<A>(delay), events));
      p.Some? ==> LastInvoked(events).Some? &&
                  p.value.due == LastInvoked(events).value.time + delay &&
                  p.value.args == LastInvoked(events).value.args
    ensures events != [] && events[|events| - 1].Invoked? ==>
              Pending(Final(Init<A>(delay), events)).Some?
  {
    if events != [] {
      var before := events[..|events| - 1];
      PendingIsLatest(delay, before);
      var mid := Final(Init<A>(delay), before);
      DelayConstant(Init<A>(delay), before);
      match events[|events| - 1]
      case Invoked(now, args) => InvokeReplacesPending(mid, now, args);
      case Ticked(now) => TickFiresWhenDue(mid, now);
    }
  }

  /** A burst: it starts with an invocation, and every later event happens before the
      call set by the most recent invocation before it would be due. */
  predicate IsBurst<A>(delay: int, events: seq<Event<A>>) {
    |events| > 0 && events[0].Invoked? &&
    (|events| > 1 ==>
       var before := events[..|events| - 1];
       IsBurst(delay, before) && LastInvoked(before).Some? &&
       events[|events| - 1].time < LastInvoked(before).value.time + delay)
  }

  /** During a burst `fn` never runs, and the one pending call carries the latest arguments. */
  lemma {:induction false} BurstIsQuiet<A>(delay: int, events: seq<Event<A>>)
    requires IsBurst(delay, events)
    ensures Fired(Init<A>(delay), events) == []
    ensures LastInvoked(events).Some?
    ensures var p := Pending(Final(Init<A>(delay), events));
      p.Some? && p.value.due == LastInvoked(events).value.time + delay &&
      p.value.args == LastInvoked(events).value.args
  {
    var n := |events|;
    var before := events[..n - 1];
    var e := events[n - 1];
    assert events == before + [e];
    ExtendRun(Init<A>(delay), before, e);
    PendingIsLatest(delay, events);
    if n > 1 {
      BurstIsQuiet(delay, before);
      var mid := Final(Init<A>(delay), before);
      PendingIsLatest(delay, before);
      if e.Ticked? {
        assert e.time < LastInvoked(before).value.time + delay;
        TickFiresWhenDue(mid, e.time);
      }
    }
  }

  /** Some event of the sequence happens at or after `due`. */
  predicate Reaches<A>(events: seq<Event<A>>, due: int) {
    events != [] &&
    (events[|events| - 1].time >= due || Reaches(events[..|events| - 1], due))
  }

  /** `Reaches` says that some event's time is at least `due`. */
  lemma {:induction false} ReachesIsSome<A>(events: seq<Event<A>>, due: int)
    ensures Reaches(events, due) <==> exists k :: 0 <= k < |events| && events[k].time >= due
  {
    if events != [] {
      var n := |events|;
      var before := events[..n - 1];
      ReachesIsSome(before, due);
      if Reaches(before, due) {
        var k :| 0 <= k < n - 1 && before[k].time >= due;
        assert events[k] == before[k];
      }
      if exists k :: 0 <= k < n && events[k].time >= due {
        var k :| 0 <= k < n && events[k].time >= due;
        if k < n - 1 {
          assert before[k] == events[k];
        }
      }
    }
  }

  /** One more event reaches `due` exactly when it or an earlier one does. */
  lemma ReachesExtend<A>(events: seq<Event<A>>, e: Event<A>, due: int)
    ensures Reaches(events + [e], due) <==> Reaches(events, due) || e.time >= due
  {
    assert (events + [e])[..|events|] == events;
  }

  /** One tick after a run that has settled as far as `t` goes: the tick runs `t` exactly
      when it is the first event to reach `t`'s due time. */
  lemma SettleStep<A>(s: State<A>, t: Timer<A>, before: seq<Event<A>>, now: int)
    requires AtMostOnePending(Final(s, before))
    requires Pending(Final(s, before)) == if Reaches(before, t.due) then None else Some(t)
    requires Fired(s, before) == if Reaches(before, t.due) then [t.args] else []
    ensures AtMostOnePending(Final(s, before + [Ticked(now)]))
    ensures Pending(Final(s, before + [Ticked(now)])) ==
            if Reaches(before + [Ticked(now)], t.due) then None else Some(t)
    ensures Fired(s, before + [Ticked(now)]) ==
            if Reaches(before + [Ticked(now)], t.due) then [t.args] else []
  {
    ExtendRunTicked(s, before, now);
    TickFiresWhenDue(Final(s, before), now);
    ReachesExtend(before, Ticked(now), t.due);
  }

  /** While only ticks happen, `fn` runs once, with the arguments of the pending call `t`,
      exactly when some tick reaches `t`'s due time, and never otherwise; `t` stays pending
      until then, and afterwards nothing is pending. */
  lemma {:induction false} SettleRunsOnce<A>(s: State<A>, t: Timer<A>, ticks: seq<Event<A>>)
    requires AtMostOnePending(s) && Pending(s) == Some(t)
    requires forall k :: 0 <= k < |ticks| ==> ticks[k].Ticked?
    ensures AtMostOnePending(Final(s, ticks))
    ensures Pending(Final(s, ticks)) == if Reaches(ticks, t.due) then None else Some(t)
    ensures Fired(s, ticks) == if Reaches(ticks, t.due) then [t.args] else []
  {
    if ticks != [] {
      var n := |ticks|;
      var before, now := ticks[..n - 1], ticks[n - 1].time;
      SettleRunsOnce(s, t, before);
      assert ticks == before + [Ticked(now)];
      SettleStep(s, t, before, now);
    }
  }

  /** The pending call left by a burst, run through the ticks that follow it. */
  lemma SettleAfterBurst<A>(delay: int, burst: seq<Event<A>>, ticks: seq<Event<A>>, settled: State<A>)
    requires IsBurst(delay, burst) && settled == Final(Init<A>(delay), burst)
    requires forall k :: 0 <= k < |ticks| ==> ticks[k].Ticked?
    ensures Fired(settled, ticks) ==
            if Reaches(ticks, LastInvoked(burst).value.time + delay)
            then [LastInvoked(burst).value.args] else []
    ensures Pending(Final(settled, ticks)) == None <==>
            Reaches(ticks, LastInvoked(burst).value.time + delay)
  {
    BurstIsQuiet(delay, burst);
    RunKeepsAtMostOnePending(Init<A>(delay), burst);
    var t := Pending(settled).value;
    SettleRunsOnce(settled, t, ticks);
  }

  /** A burst followed by ticks: during the burst `fn` never runs; during the ticks it runs
      exactly once, with the arguments of the burst's last invocation, if some tick comes at
      or after that invocation's time plus `delay`, and not at all otherwise; afterwards
      nothing is pending exactly when it ran. */
  lemma BurstRunsOnceWithLastArgs<A>(delay: int, burst: seq<Event<A>>, ticks: seq<Event<A>>)
    requires IsBurst(delay, burst)
    requires forall k :: 0 <= k < |ticks| ==> ticks[k].Ticked?
    ensures Fired(Init<A>(delay), burst) == []
    ensures Fired(Final(Init<A>(delay), burst), ticks) ==
            if Reaches(ticks, LastInvoked(burst).value.time + delay)
            then [LastInvoked(burst).value.args] else []
    ensures Pending(Final(Final(Init<A>(delay), burst), ticks)) == None <==>
            Reaches(ticks, LastInvoked(burst).value.time + delay)
    ensures Fired(Init<A>(delay), burst + ticks) ==
            if Reaches(ticks, LastInvoked(burst).value.time + delay)
            then [LastInvoked(burst).value.args] else []
  {
    BurstIsQuiet(delay, burst);
    SettleAfterBurst(delay, burst, ticks, Final(Init<A>(delay), burst));
    RunAppend(Init<A>(delay), burst, ticks);
  }

  /** The closure created by `debounce(fn, delay)`, together with the host timers it set.
      `timeoutId` is its one mutable variable; the ghost fields record every event and
      every call of `fn`. */
  class Debouncer<A> {
    const delay: int
    var timeoutId: Option<nat>
    var timers: seq<Timer<A>>
    var nextId: nat
    ghost var events: seq<Event<A>>
    ghost var executed: seq<A>

    /** The closure and host timers as a value. */
    ghost function Model(): State<A>
      reads this
    {
      State(delay, timeoutId, timers, nextId)
    }

    /** The fields agree with running the recorded events from a fresh wrapper,
        and at most one call is pending. */
    ghost predicate Valid()
      reads this
    {
      AtMostOnePending(Model()) && Final(Init(delay), events) == Model() &&
      Fired(Init(delay), events) == executed
    }

    constructor (delay: int)
      ensures Valid()
      ensures this.delay == delay && timeoutId == None && timers == []
      ensures events == [] && executed == []
    {
      this.delay := delay;
      timeoutId := None;
      timers := [];
      nextId := 1;
      events := [];
      executed := [];
    }

    /** The host's `clearTimeout(id)`. */
    method ClearTimer(id: Option<nat>)
      modifies this`timers
      ensures timers == ClearTimeout(old(timers), id)
    {
      if id.Some? {
        timers := Without(timers, id.value);
      }
    }

    /** The host's `setTimeout`: registers a timer and returns its fresh handle. */
    method SetTimer(due: int, args: A) returns (id: nat)
      modifies this`timers, this`nextId
      ensures id == old(nextId) && nextId == old(nextId) + 1
      ensures timers == old(timers) + [Timer(id, due, args)]
    {
      id := nextId;
      timers := timers + [Timer(id, due, args)];
      nextId := nextId + 1;
    }

    /** One invocation at clock reading `now`: cancel the previous timer, then set a new one. */
    method Invoke(now: int, args: A)
      requires Valid()
      modifies this
      ensures Valid()
      ensures timers == [Timer(old(nextId), now + delay, args)]
      ensures timeoutId == Some(old(nextId)) && nextId == old(nextId) + 1
      ensures Pending(Model()) == Some(Timer(old(nextId), now + delay, args))
      ensures events == old(events) + [Invoked(now, args)] && executed == old(executed)
    {
      ghost var before := Model();
      ExtendRunInvoked(Init(delay), events, now, args);
      InvokeReplacesPending(before, now, args);
      ClearCancelsPending(before);
      ClearTimer(timeoutId);
      assert timers == [];
      var id := SetTimer(now + delay, args);
      timeoutId := Some(id);
      events := events + [Invoked(now, args)];
      assert Model() == AfterInvoke(before, now, args);
    }

    /** The host's event loop at clock reading `now`: every due timer runs; returns the
        arguments `fn` was called with. */
    method Tick(now: int) returns (fired: seq<A>)
      requires Valid()
      modifies this
      ensures Valid()
      ensures fired == if Pending(old(Model())).Some? && Pending(old(Model())).value.due <= now
                       then [Pending(old(Model())).value.args] else []
      ensures Pending(Model()) == if fired == [] then Pending(old(Model())) else None
      ensures timeoutId == old(timeoutId) && nextId == old(nextId)
      ensures events == old(events) + [Ticked(now)] && executed == old(executed) + fired
    {
      ghost var before := Model();
      ExtendRunTicked(Init(delay), events, now);
      TickFiresWhenDue(before, now);
      fired := DueArgs(timers, now);
      timers := NotDue(timers, now);
      events := events + [Ticked(now)];
      executed := executed + fired;
    }
  }
}
