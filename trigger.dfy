/**
  The timer side of src/gif.rs: the `GifResource` that owns a repeating
  timer, and `event_trigger`, which advances that timer by the frame's
  delta and sends one default event on a pass in which it finished.
 */
module Trigger {

  /**
    A repeating engine timer. Durations are whole nanoseconds, as the
    engine's `Duration` keeps them; `finished` is the answer of the last tick.
   */
  datatype Timer = Timer(duration: nat, elapsed: nat, finished: bool)
  {
    /**
      `tick`: the elapsed time grows by `delta`; reaching the period finishes
      the timer, and a finished repeating timer keeps only the time past its
      last whole period (nothing at all when the period is zero).
     */
    function Tick(delta: nat): (t: Timer)
      ensures t.duration == duration
      ensures t.finished <==> elapsed + delta >= duration
      ensures !t.finished ==> t.elapsed == elapsed + delta
      ensures duration > 0 ==> t.elapsed < duration
      ensures t.finished && duration > 0 ==>
        t.elapsed <= elapsed + delta && exists k: nat :: elapsed + delta - t.elapsed == Periods(k, duration)
      ensures duration == 0 ==> t.finished && t.elapsed == 0
    {
      var e := elapsed + delta;
      if e < duration then Timer(duration, e, false)
      else if duration == 0 then Timer(duration, 0, true)
      else
        assert e - e % duration == Periods(e / duration, duration);
        Timer(duration, e % duration, true)
    }
  }

  /** `k` whole periods of length `d`. */
  function Periods(k: nat, d: nat): nat
  {
    k * d
  }

  /** A timer fresh from `Timer::from_seconds`: nothing elapsed, not finished. */
  function NewTimer(period: nat): (t: Timer)
    ensures t.duration == period && t.elapsed == 0 && !t.finished
  {
    Timer(period, 0, false)
  }

  /** A tick of exactly one period always finishes and leaves the phase where it was. */
  lemma TickWholePeriod(t: Timer)
    requires 0 < t.duration && t.elapsed < t.duration
    ensures t.Tick(t.duration).finished
    ensures t.Tick(t.duration).elapsed == t.elapsed
  {
    var e := t.elapsed + t.duration;
    assert e % t.duration == t.elapsed by {
      assert e == 1 * t.duration + t.elapsed;
    }
  }

  /** Ticks that stay short of the period never finish, and their deltas add up. */
  lemma TicksBelowPeriod(t: Timer, a: nat, b: nat)
    requires t.elapsed + a + b < t.duration
    ensures !t.Tick(a).finished && !t.Tick(a).Tick(b).finished
    ensures t.Tick(a).Tick(b) == Timer(t.duration, t.elapsed + a + b, false)
  {
  }

  /** `GifResource`: a repeating timer plus a key and a frame index that nothing in src/gif.rs reads. */
  class GifResource {
    var timer: Timer
    const key: string
    const frame: nat

    /** `GifResource::new`: a repeating timer whose period is `time`, here in nanoseconds. */
    constructor (time: nat, key: string, frame: nat)
      ensures timer == NewTimer(time)
      ensures this.key == key && this.frame == frame
    {
      timer := NewTimer(time);
      this.key := key;
      this.frame := frame;
    }
  }

  /** The default value of the event type; every event sent is this one. */
  datatype TriggerEvent = TriggerEvent

  /** The event buffer that an `EventWriter` appends to. */
  class Events {
    var queue: seq<TriggerEvent>

    constructor ()
      ensures queue == []
    {
      queue := [];
    }

    /** `send_default`. */
    method SendDefault()
      modifies this
      ensures queue == old(queue) + [TriggerEvent]
    {
      queue := queue + [TriggerEvent];
    }
  }

  /** The events sent over a run of passes, given whether the timer finished on each. */
  function Emitted(finished: seq<bool>): seq<TriggerEvent>
    decreases |finished|
  {
    if finished == [] then []
    else
      var n := |finished| - 1;
      Emitted(finished[..n]) + (if finished[n] then [TriggerEvent] else [])
  }

  /**
    `event_trigger`: one pass; ticks the resource's timer by the frame's
    `delta` and sends the default event exactly when that tick finished it.
   */
  method EventTrigger(delta: nat, state: GifResource, events: Events)
    modifies state, events
    ensures state.timer == old(state.timer).Tick(delta)
    ensures events.queue == old(events.queue) + Emitted([state.timer.finished])
    ensures |events.queue| == |old(events.queue)| + (if state.timer.finished then 1 else 0)
  {
    state.timer := state.timer.Tick(delta);
    assert [state.timer.finished][..0] == [];
    if state.timer.finished {
      events.SendDefault();
    }
  }

  /** The number of `true` flags: passes on which a timer finished, or entities carrying a tag. */
  function Count(flags: seq<bool>): nat
    decreases |flags|
  {
    if flags == [] then 0
    else
      var n := |flags| - 1;
      Count(flags[..n]) + (if flags[n] then 1 else 0)
  }

  /** The events sent are counted by the finished passes. */
  lemma {:induction false} EmittedCount(finished: seq<bool>)
    ensures |Emitted(finished)| == Count(finished) <= |finished|
    decreases |finished|
  {
    if finished != [] {
      EmittedCount(finished[..|finished| - 1]);
    }
  }

  /** Every pass finished exactly when the count reaches the number of passes. */
  lemma {:induction false} FinishedAll(finished: seq<bool>)
    ensures Count(finished) == |finished| <==> forall i | 0 <= i < |finished| :: finished[i]
    decreases |finished|
  {
    if finished != [] {
      var n := |finished| - 1;
      var init := finished[..n];
      FinishedAll(init);
      EmittedCount(init);
      assert forall i | 0 <= i < n :: init[i] == finished[i];
    }
  }

  /** No pass finished exactly when the count is zero. */
  lemma {:induction false} FinishedNone(finished: seq<bool>)
    ensures Count(finished) == 0 <==> forall i | 0 <= i < |finished| :: !finished[i]
    decreases |finished|
  {
    if finished != [] {
      var n := |finished| - 1;
      var init := finished[..n];
      FinishedNone(init);
      assert forall i | 0 <= i < n :: init[i] == finished[i];
    }
  }

  /**
    Over any run of passes at most one event is sent per pass, and the
    number sent is the number of passes on which the timer finished.
   */
  lemma EmittedPerPass(finished: seq<bool>)
    ensures |Emitted(finished)| == Count(finished) <= |finished|
    ensures |Emitted(finished)| == |finished| <==> forall i | 0 <= i < |finished| :: finished[i]
    ensures Emitted(finished) == [] <==> forall i | 0 <= i < |finished| :: !finished[i]
  {
    EmittedCount(finished);
    FinishedAll(finished);
    FinishedNone(finished);
  }

  /** Extending a run by one pass adds that pass's events at the end and leaves the earlier ones alone. */
  lemma {:induction false} EmittedAppend(finished: seq<bool>, last: bool)
    ensures Emitted(finished + [last]) == Emitted(finished) + Emitted([last])
  {
  }
}
