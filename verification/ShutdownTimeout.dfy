/**
  The watchdog that shuts an idle server down: a wrapper of one Node.js timer, stopped when
  a request arrives and started when a response finishes.  The event loop runs a timer at
  or after the time it is due.
*/
module ShutdownTimeout {
  import opened Wrappers

  type TimerId = nat

  /** The event loop's clock and pending timers with their due times, and the `timeout` field of the wrapper. */
  datatype Timers = Timers(now: nat, pending: map<TimerId, nat>, nextId: TimerId, field: Option<TimerId>)

  function Stop(t: Timers): Timers {
    if t.field.Some? then t.(pending := t.pending - {t.field.value}, field := None) else t
  }

  function Start(t: Timers, delay: nat): Timers {
    var stopped := Stop(t);
    stopped.(pending := stopped.pending[t.nextId := t.now + delay], nextId := t.nextId + 1, field := Some(t.nextId))
  }

  // ----- the objects -----

  class EventLoop {
    var now: nat
    var pending: map<TimerId, nat>
    var nextId: TimerId

    constructor ()
      ensures now == 0 && pending == map[] && nextId == 0
    {
      now, pending, nextId := 0, map[], 0;
    }

    method SetTimeout(delay: nat) returns (id: TimerId)
      modifies this
      ensures id == old(nextId) && nextId == id + 1 && now == old(now) && pending == old(pending)[id := now + delay]
    {
      id := nextId;
      pending := pending[id := now + delay];
      nextId := nextId + 1;
    }

    method ClearTimeout(id: TimerId)
      modifies this`pending
      ensures pending == old(pending) - {id}
    {
      pending := pending - {id};
    }
  }

  class Timeout {
    const loop: EventLoop
    const delay: nat
    var timeout: Option<TimerId>

    constructor (loop: EventLoop, delay: nat)
      ensures this.loop == loop && this.delay == delay && timeout == None
    {
      this.loop, this.delay, timeout := loop, delay, None;
    }

    ghost function Now(): Timers
      reads this, loop
    {
      Timers(loop.now, loop.pending, loop.nextId, timeout)
    }

    method StopTimer()
      modifies this, loop
      ensures Now() == Stop(old(Now()))
    {
      if timeout.Some? {
        loop.ClearTimeout(timeout.value);
        timeout := None;
      }
    }

    method StartTimer()
      modifies this, loop
      ensures Now() == Start(old(Now()), delay)
    {
      StopTimer();
      var id := loop.SetTimeout(delay);
      timeout := Some(id);
    }
  }

  /** The middleware: one wrapper shared by all requests. */
  class Middleware {
    const timeout: Timeout

    constructor (loop: EventLoop, delay: nat)
      modifies loop
      ensures timeout.loop == loop && timeout.delay == delay && fresh(timeout)
      ensures timeout.Now() == Start(old(Timers(loop.now, loop.pending, loop.nextId, None)), delay)
    {
      timeout := new Timeout(loop, delay);
      new;
      timeout.StartTimer();
    }

    method OnRequest()
      modifies timeout, timeout.loop
      ensures timeout.Now() == Stop(old(timeout.Now()))
    {
      timeout.StopTimer();
    }

    method OnFinish()
      modifies timeout, timeout.loop
      ensures timeout.Now() == Start(old(timeout.Now()), timeout.delay)
    {
      timeout.StartTimer();
    }

    method OnClose()
      modifies timeout, timeout.loop
      ensures timeout.Now() == Stop(old(timeout.Now()))
    {
      timeout.StopTimer();
    }
  }

  // ----- runs -----

  datatype Event = Tick(dt: nat) | Arrive | Finish | Close | Expire(id: TimerId)

  function Initial(delay: nat): Timers {
    Start(Timers(0, map[], 0, None), delay)
  }

  function Step(t: Timers, e: Event, delay: nat): Timers {
    match e
    case Tick(dt) => t.(now := t.now + dt)
    case Arrive => Stop(t)
    case Finish => Start(t, delay)
    case Close => Stop(t)
    case Expire(id) => t.(pending := t.pending - {id})  // the callback runs; the field keeps the spent timer
  }

  function Run(events: seq<Event>, delay: nat): Timers {
    if events == [] then Initial(delay) else Step(Run(events[..|events| - 1], delay), events[|events| - 1], delay)
  }

  /** Requests that have arrived and whose response has not finished. */
  function InFlight(events: seq<Event>): int {
    if events == [] then 0
    else InFlight(events[..|events| - 1]) + match events[|events| - 1] case Arrive => 1 case Finish => -1 case _ => 0
  }

  function Clock(events: seq<Event>): nat {
    if events == [] then 0
    else Clock(events[..|events| - 1]) + match events[|events| - 1] case Tick(dt) => dt case _ => 0
  }

  /** A response finishes once per request, and a timer runs only when it is pending and due. */
  predicate CanHappen(events: seq<Event>, e: Event, delay: nat) {
    match e
    case Finish => InFlight(events) > 0
    case Expire(id) => var t := Run(events, delay); id in t.pending && t.pending[id] <= t.now
    case _ => true
  }

  predicate IsRun(events: seq<Event>, delay: nat) {
    events == [] || (IsRun(events[..|events| - 1], delay)
                     && CanHappen(events[..|events| - 1], events[|events| - 1], delay))
  }

  predicate IsActivity(e: Event) {
    e.Arrive? || e.Finish?
  }

  /** When the last request arrived, the last response finished, or the server started. */
  function LastActivity(events: seq<Event>): nat {
    if events == [] then 0
    else if IsActivity(events[|events| - 1]) then Clock(events)
    else LastActivity(events[..|events| - 1])
  }

  /** The requests in flight when the timer was last started. */
  function InFlightAtStart(events: seq<Event>): int {
    if events == [] then 0
    else if events[|events| - 1].Finish? then InFlight(events)
    else InFlightAtStart(events[..|events| - 1])
  }

  /**
    Whatever is pending is held in the field, is due `delay` after the last activity, and no
    request has arrived since it was started.
  */
  ghost predicate Inv(t: Timers, events: seq<Event>, delay: nat) {
    && t.now == Clock(events)
    && (t.field.Some? ==> t.field.value < t.nextId)
    && forall id :: id in t.pending ==>
         t.field == Some(id) && t.pending[id] == LastActivity(events) + delay
         && InFlight(events) == InFlightAtStart(events)
  }

  lemma {:induction false} InvHoldsInEveryRun(events: seq<Event>, delay: nat)
    ensures Inv(Run(events, delay), events, delay)
  {
    if events != [] {
      InvHoldsInEveryRun(events[..|events| - 1], delay);
    }
  }

  lemma {:induction false} ActivityIsNotLater(events: seq<Event>, j: nat)
    requires j < |events| && IsActivity(events[j])
    ensures Clock(events[..j + 1]) <= LastActivity(events)
  {
    if j == |events| - 1 {
      assert events[..j + 1] == events;
    } else {
      var prefix := events[..|events| - 1];
      ActivityIsNotLater(prefix, j);
      assert prefix[..j + 1] == events[..j + 1];
      LastActivityIsPast(prefix);
    }
  }

  lemma {:induction false} LastActivityIsPast(events: seq<Event>)
    ensures LastActivity(events) <= Clock(events)
  {
    if events != [] {
      LastActivityIsPast(events[..|events| - 1]);
    }
  }

  /** In every run, the callback runs only when the last arrival, the last finish and the start are `delay` away. */
  lemma CallbackRunsOnlyWhenIdle(events: seq<Event>, id: TimerId, delay: nat, j: nat)
    requires CanHappen(events, Expire(id), delay)
    ensures delay <= Clock(events)
    ensures j < |events| && IsActivity(events[j]) ==> Clock(events[..j + 1]) + delay <= Clock(events)
  {
    InvHoldsInEveryRun(events, delay);
    if j < |events| && IsActivity(events[j]) {
      ActivityIsNotLater(events, j);
    }
  }

  /** There is never more than the one timer in the field, so a stop leaves none. */
  lemma PendingIsTheField(events: seq<Event>, delay: nat, e: Event)
    ensures var t := Run(events, delay);
            (forall id :: id in t.pending ==> t.field == Some(id))
            && (e.Arrive? || e.Close? ==> Step(t, e, delay).pending == map[])
  {
    InvHoldsInEveryRun(events, delay);
  }

  /**
    The callback runs while requests are in flight exactly when the response that finished last
    left some in flight.
  */
  lemma CallbackInFlightExactly(events: seq<Event>, id: TimerId, delay: nat)
    requires CanHappen(events, Expire(id), delay)
    ensures InFlight(events) == InFlightAtStart(events)
  {
    InvHoldsInEveryRun(events, delay);
  }

  lemma {:induction false} WithoutOverlapNothingIsLeft(events: seq<Event>, delay: nat)
    requires IsRun(events, delay)
    requires forall k :: 0 <= k <= |events| ==> InFlight(events[..k]) <= 1
    ensures InFlightAtStart(events) == 0
  {
    if events != [] {
      var n := |events| - 1;
      var prefix := events[..n];
      assert InFlight(prefix) <= 1;
      forall k | 0 <= k <= n
        ensures InFlight(prefix[..k]) <= 1
      {
        assert prefix[..k] == events[..k];
      }
      WithoutOverlapNothingIsLeft(prefix, delay);
    }
  }

  /** When requests never overlap, the callback never runs while one is in flight. */
  lemma NeverInFlightWithoutOverlap(events: seq<Event>, id: TimerId, delay: nat)
    requires IsRun(events, delay) && CanHappen(events, Expire(id), delay)
    requires forall k :: 0 <= k <= |events| ==> InFlight(events[..k]) <= 1
    ensures InFlight(events) == 0
  {
    CallbackInFlightExactly(events, id, delay);
    WithoutOverlapNothingIsLeft(events, delay);
  }

  /** The last event that concerns the timer started it; the start of the server counts as one. */
  ghost predicate WasStartedLast(events: seq<Event>) {
    exists k :: 0 <= k <= |events| && StartedBefore(events, k)
  }

  ghost predicate StartedBefore(events: seq<Event>, k: nat)
    requires k <= |events|
  {
    (k == 0 || events[k - 1].Finish?) && forall j :: k <= j < |events| ==> events[j].Tick? || events[j].Finish?
  }

  lemma StartedBeforeLast(events: seq<Event>)
    requires events != []
    ensures var e := events[|events| - 1];
      WasStartedLast(events) <==> e.Finish? || (e.Tick? && WasStartedLast(events[..|events| - 1]))
  {
    var n := |events| - 1;
    var prefix, e := events[..n], events[n];
    if e.Finish? {
      assert StartedBefore(events, n + 1);
    } else if k :| 0 <= k <= n && StartedBefore(prefix, k) {
      if e.Tick? {
        assert StartedBefore(events, k);
      }
    }
    if k :| 0 <= k <= n + 1 && StartedBefore(events, k) {
      if !e.Finish? {
        assert k <= n && StartedBefore(prefix, k);
      }
    }
  }

  /** In every run, a timer is pending exactly when the last thing that concerned it was a start or a finish. */
  lemma {:induction false} PendingExactlyWhenStarted(events: seq<Event>, delay: nat)
    requires IsRun(events, delay)
    ensures Run(events, delay).pending != map[] <==> WasStartedLast(events)
  {
    InvHoldsInEveryRun(events, delay);
    if events == [] {
      assert 0 in Initial(delay).pending;
      assert StartedBefore([], 0);
    } else {
      var prefix, e := events[..|events| - 1], events[|events| - 1];
      PendingExactlyWhenStarted(prefix, delay);
      InvHoldsInEveryRun(prefix, delay);
      StartedBeforeLast(events);
      if e.Finish? {
        var t := Run(events, delay);
        assert t.field.value in t.pending;
      }
    }
  }

  /**
    The callback can run exactly when the timer was started last and the last arrival, finish or
    start is at least `delay` in the past.
  */
  lemma CallbackCanRunExactly(events: seq<Event>, delay: nat)
    requires IsRun(events, delay)
    ensures (exists id :: CanHappen(events, Expire(id), delay)) <==>
      WasStartedLast(events) && LastActivity(events) + delay <= Clock(events)
  {
    var t := Run(events, delay);
    InvHoldsInEveryRun(events, delay);
    PendingExactlyWhenStarted(events, delay);
    if WasStartedLast(events) && LastActivity(events) + delay <= Clock(events) {
      var id :| id in t.pending;
      assert CanHappen(events, Expire(id), delay);
    }
  }

  lemma OneMoreEvent(events: seq<Event>, e: Event, delay: nat)
    ensures Run(events + [e], delay) == Step(Run(events, delay), e, delay)
    ensures IsRun(events + [e], delay) <==> IsRun(events, delay) && CanHappen(events, e, delay)
    ensures InFlight(events + [e]) == InFlight(events) + match e case Arrive => 1 case Finish => -1 case _ => 0
  {
    assert (events + [e])[..|events|] == events;
  }

  /** With overlapping requests it can: the first of two responses starts the timer while the other request goes on. */
  lemma OverlapLetsTheTimerRun(delay: nat)
    ensures var events := [] + [Arrive] + [Arrive] + [Finish] + [Tick(delay)];
            IsRun(events, delay) && CanHappen(events, Expire(1), delay) && InFlight(events) == 1
  {
    OneMoreEvent([], Arrive, delay);
    OneMoreEvent([] + [Arrive], Arrive, delay);
    OneMoreEvent([] + [Arrive] + [Arrive], Finish, delay);
    OneMoreEvent([] + [Arrive] + [Arrive] + [Finish], Tick(delay), delay);
  }
}
