/**
  The earlier scheduler (scheduler.py). Its snapshot action differs from the one in
  camscheduler.py: a shorter seek time, `true` from `run` means "done", every run
  that has not expired moves the camera, and shots are spaced from the time of the previous shot
  (`lastTime`) rather than from a precomputed due time. The callback receives only
  the image.

  Time is explicit, as in CamScheduler: `now` is `time.time()` when the run starts,
  and `time.sleep(d)` advances the run's clock by d.
 */
module LegacyScheduler {
  import opened Common

  /** scheduler.py, line 6 */
  const SEEK_TIME: real := 10.0

  datatype Event =
    | GotoPreset(at: real, preset: int)
      /** `callback(image)`; the image bytes are not modelled. */
    | Deliver(at: real)

  /** The fields of a SnapshotAction, as a value. */
  datatype Action = Action(preset: int, number: int, interval: real, expire: Option<real>, lastTime: real)

  /** What one run does: whether the action is done, the new fields, the clock when it returns, and the events. */
  datatype Outcome = Outcome(done: bool, number: int, lastTime: real, clock: real, trace: seq<Event>)

  /** `now > expire`, with no expiry meaning "never expires". */
  predicate Expired(expire: Option<real>, now: real)
  {
    expire.Some? && now > expire.value
  }

  /**
    `now > expire` as Python 2 evaluates it: None orders below every number, so
    an action without expiry counts as expired.
   */
  predicate ExpiredAsWritten(expire: Option<real>, now: real)
  {
    expire.None? || now > expire.value
  }

  /**
    The clock after the wait of lines 38-39: `remaining = interval - (now - lastTime)`,
    slept when positive, so the wait ends `interval` after the previous shot at the earliest.
   */
  function Settled(interval: real, lastTime: real, clock: real): (t: real)
    ensures t >= clock && t >= lastTime + interval
    ensures t == clock || t == lastTime + interval
  {
    var remaining := interval - (clock - lastTime);
    if remaining > 0.0 then clock + remaining else clock
  }

  /**
    The shot loop of `run` (scheduler.py, lines 40-48), entered at `clock`: each
    pass records the shot time in `lastTime`, delivers and counts the shot off; a
    short interval is slept through, a long one ends the run as not done.
   */
  function Shots(interval: real, number: int, lastTime: real, clock: real): (o: Outcome)
    ensures number <= 0 ==> o.done && o.number == number && o.lastTime == lastTime && o.trace == []
    ensures number > 0 ==> 0 <= o.number < number && |o.trace| == number - o.number
    ensures number > 0 ==> (o.done <==> interval <= SEEK_TIME) && (o.done ==> o.number == 0)
    decreases number
  {
    if number <= 0 then Outcome(true, number, lastTime, clock, [])
    else if interval <= SEEK_TIME then
      var rest := Shots(interval, number - 1, clock, clock + interval);
      rest.(trace := [Deliver(clock)] + rest.trace)
    else
      Outcome(false, number - 1, clock, clock, [Deliver(clock)])
  }

  /**
    One pass of the shot loop with a short interval keeps the loop's outcome: the
    shot moves from the rest of the loop to the events already made.
   */
  lemma ShotsStep(interval: real, number: int, lastTime: real, clock: real, made: seq<Event>)
    requires number > 0 && interval <= SEEK_TIME
    ensures var o := Shots(interval, number, lastTime, clock);
            var rest := Shots(interval, number - 1, clock, clock + interval);
            o.(trace := made + o.trace) == rest.(trace := (made + [Deliver(clock)]) + rest.trace)
  {
    var rest := Shots(interval, number - 1, clock, clock + interval);
    assert made + ([Deliver(clock)] + rest.trace) == (made + [Deliver(clock)]) + rest.trace;
  }

  /** One call of `SnapshotAction.run` at time `now` (scheduler.py, lines 30-48). */
  function Execute(a: Action, now: real): (o: Outcome)
    ensures o.trace == [] <==> Expired(a.expire, now)
  {
    if Expired(a.expire, now) then Outcome(true, a.number, a.lastTime, now, [])
    else
      var o := Shots(a.interval, a.number, a.lastTime, Settled(a.interval, a.lastTime, now + SEEK_TIME));
      o.(trace := [GotoPreset(now, a.preset)] + o.trace)
  }

  /** The action after a run: only `number` and `lastTime` change. */
  function After(a: Action, o: Outcome): Action
  {
    a.(number := o.number, lastTime := o.lastTime)
  }

  /** The times of the callbacks in a trace, in order. */
  function ShotTimes(trace: seq<Event>): seq<real>
  {
    if trace == [] then []
    else if trace[0].Deliver? then [trace[0].at] + ShotTimes(trace[1..])
    else ShotTimes(trace[1..])
  }

  /** `lastTime` is the time of the latest shot, if there was one. */
  predicate LastShotAt(times: seq<real>, lastTime: real)
  {
    times != [] ==> times[|times| - 1] == lastTime
  }

  // ---------------------------------------------------------------- lemmas

  /** An expired action is done at once: no camera command, no callback, fields unchanged. */
  lemma ExecuteExpired(a: Action, now: real)
    requires Expired(a.expire, now)
    ensures var o := Execute(a, now);
            o.done && o.trace == [] && After(a, o) == a
  {
  }

  /**
    A run that is not expired first moves to the preset and waits. Its first shot
    comes no sooner than SEEK_TIME after the move and `interval` after the previous
    shot; with no shot left, the run still waits that long and then reports done.
   */
  lemma ExecuteWaits(a: Action, now: real)
    requires !Expired(a.expire, now)
    ensures Execute(a, now).trace[0] == GotoPreset(now, a.preset)
    ensures var o := Execute(a, now);
            a.number > 0 ==>
              && |o.trace| >= 2 && o.trace[1].Deliver?
              && o.trace[1].at >= now + SEEK_TIME && o.trace[1].at >= a.lastTime + a.interval
    ensures a.number <= 0 ==>
              Execute(a, now) == Outcome(true, a.number, a.lastTime, Settled(a.interval, a.lastTime, now + SEEK_TIME),
                                         [GotoPreset(now, a.preset)])
  {
  }

  /** With a long interval a run takes exactly one shot and is not done, even when that shot was the last. */
  lemma ExecuteOneShot(a: Action, now: real)
    requires !Expired(a.expire, now) && a.number > 0 && a.interval > SEEK_TIME
    ensures var o := Execute(a, now);
            !o.done && o.number == a.number - 1 && |o.trace| == 2 && o.lastTime == o.trace[1].at
  {
  }

  /** With a short interval a run takes every remaining shot and is done. */
  lemma ExecuteAllShots(a: Action, now: real)
    requires !Expired(a.expire, now) && a.number > 0 && a.interval <= SEEK_TIME
    ensures var o := Execute(a, now);
            o.done && o.number == 0 && |o.trace| == a.number + 1
  {
  }

  lemma {:induction false} ShotTimesConcat(s: seq<Event>, t: seq<Event>)
    ensures ShotTimes(s + t) == ShotTimes(s) + ShotTimes(t)
  {
    if s == [] {
      assert s + t == t;
    } else {
      assert (s + t)[0] == s[0] && (s + t)[1..] == s[1..] + t;
      ShotTimesConcat(s[1..], t);
    }
  }

  /**
    Appending the shots of the loop to a spaced history keeps it spaced when the
    loop starts `interval` after the last shot; `lastTime` ends at the latest shot,
    and every event of the loop is a shot.
   */
  lemma {:induction false} ShotsSpacing(interval: real, number: int, lastTime: real, clock: real, h: seq<real>)
    requires Spaced(h, interval) && LastShotAt(h, lastTime)
    requires h != [] ==> h[|h| - 1] + interval <= clock
    ensures var o := Shots(interval, number, lastTime, clock);
            && Spaced(h + ShotTimes(o.trace), interval)
            && LastShotAt(h + ShotTimes(o.trace), o.lastTime)
            && |ShotTimes(o.trace)| == |o.trace|
    decreases number
  {
    var o := Shots(interval, number, lastTime, clock);
    if number > 0 {
      var h1 := h + [clock];
      SpacedConcat(h, [clock], interval);
      if interval <= SEEK_TIME {
        var rest := Shots(interval, number - 1, clock, clock + interval);
        ShotsSpacing(interval, number - 1, clock, clock + interval, h1);
        assert o.trace == [Deliver(clock)] + rest.trace;
        assert ShotTimes(o.trace) == [clock] + ShotTimes(rest.trace);
        assert h + ShotTimes(o.trace) == h1 + ShotTimes(rest.trace);
      } else {
        assert ShotTimes(o.trace) == [clock];
      }
    }
  }

  /**
    One run keeps the history of shot times spaced by `interval` and leaves
    `lastTime` at the latest shot; each callback counts `number` down by one.
   */
  lemma ExecuteSpacing(a: Action, now: real, h: seq<real>)
    requires Spaced(h, a.interval) && LastShotAt(h, a.lastTime)
    ensures var o := Execute(a, now);
            && Spaced(h + ShotTimes(o.trace), a.interval)
            && LastShotAt(h + ShotTimes(o.trace), o.lastTime)
            && (a.number >= 0 ==> o.number >= 0 && |ShotTimes(o.trace)| == a.number - o.number)
  {
    var o := Execute(a, now);
    if !Expired(a.expire, now) {
      var start := Settled(a.interval, a.lastTime, now + SEEK_TIME);
      var s := Shots(a.interval, a.number, a.lastTime, start);
      ShotsSpacing(a.interval, a.number, a.lastTime, start, h);
      assert o.trace == [GotoPreset(now, a.preset)] + s.trace;
      assert ShotTimes(o.trace) == ShotTimes(s.trace);
    } else {
      assert h + ShotTimes(o.trace) == h;
    }
  }

  // ------------------------------------------------------ repeated runs

  /**
    The action run at each of the times in `pops` until a run reports it done:
    the action afterwards, whether it is done, and all events.
   */
  function RunRepeatedly(a: Action, pops: seq<real>): (Action, bool, seq<Event>)
    decreases |pops|
  {
    if pops == [] then (a, false, [])
    else
      var o := Execute(a, pops[0]);
      if o.done then (After(a, o), true, o.trace)
      else
        var (b, done, rest) := RunRepeatedly(After(a, o), pops[1..]);
        (b, done, o.trace + rest)
  }

  /**
    However the runs of one action are timed, consecutive shots, within a run and
    across runs, are at least `interval` apart, and each shot counts `number` down
    by one.
   */
  lemma {:induction false} RepeatedRunsSpaced(a: Action, pops: seq<real>, h: seq<real>)
    requires Spaced(h, a.interval) && LastShotAt(h, a.lastTime)
    ensures var (b, done, trace) := RunRepeatedly(a, pops);
            && Spaced(h + ShotTimes(trace), a.interval)
            && (a.number >= 0 ==> 0 <= b.number <= a.number && |ShotTimes(trace)| == a.number - b.number)
    decreases |pops|
  {
    if pops != [] {
      var o := Execute(a, pops[0]);
      ExecuteSpacing(a, pops[0], h);
      if !o.done {
        var h1 := h + ShotTimes(o.trace);
        RepeatedRunsSpaced(After(a, o), pops[1..], h1);
        var (b, done, rest) := RunRepeatedly(After(a, o), pops[1..]);
        ShotTimesConcat(o.trace, rest);
        assert h + ShotTimes(o.trace + rest) == h1 + ShotTimes(rest);
      }
    }
  }

  /** Every run of every action, from its first: consecutive shots are at least `interval` apart. */
  lemma ShotsAlwaysSpaced(a: Action, pops: seq<real>)
    ensures var (_, _, trace) := RunRepeatedly(a, pops);
            Spaced(ShotTimes(trace), a.interval)
  {
    RepeatedRunsSpaced(a, pops, []);
    var (_, _, trace) := RunRepeatedly(a, pops);
    assert [] + ShotTimes(trace) == ShotTimes(trace);
  }

  /**
    One call of `run` with the expiry test as Python 2 evaluates it (scheduler.py,
    line 34); past that test it is the run above.
   */
  function ExecuteAsWritten(a: Action, now: real): (o: Outcome)
    ensures o.trace == [] <==> ExpiredAsWritten(a.expire, now)
  {
    if ExpiredAsWritten(a.expire, now) then Outcome(true, a.number, a.lastTime, now, [])
    else Execute(a, now)
  }

  /**
    As written, every run of an action without expiry reports it done at once,
    before any camera command or callback, so the snapshot that
    `Scheduler.snapshot` queues without an expiry is never delivered.
   */
  lemma NoExpiryDroppedAsWritten(a: Action, preset: int, now: real)
    requires a.expire.None?
    ensures ExecuteAsWritten(a, now) == Outcome(true, a.number, a.lastTime, now, [])
    ensures ExecuteAsWritten(Action(preset, 1, 0.0, None, 0.0), now) == Outcome(true, 1, 0.0, now, [])
    ensures a.number > 0 ==> Execute(a, now).trace[1].Deliver?
  {
  }

  /**
    With "no expiry" meaning never expires, the single snapshot that
    `Scheduler.snapshot` queues without an expiry is served on its first run: a
    move, then one callback after SEEK_TIME, and it is done.
   */
  lemma SnapshotWithoutExpiryServed(preset: int, now: real)
    requires now >= 0.0
    ensures !Expired(None, now)
    ensures Execute(Action(preset, 1, 0.0, None, 0.0), now)
         == Outcome(true, 0, now + SEEK_TIME, now + SEEK_TIME,
                    [GotoPreset(now, preset), Deliver(now + SEEK_TIME)])
  {
  }

  // ------------------------------------------------------------ classes

  class SnapshotAction {
    const preset: int
    var number: int
    const interval: real
    const expire: Option<real>
    var lastTime: real

    function View(): Action
      reads this
    {
      Action(preset, number, interval, expire, lastTime)
    }

    /** scheduler.py, lines 13-28; the interval must be a number, and `time.sleep` refuses a negative one. */
    constructor (preset: int, number: int, interval: real, expire: Option<real>)
      requires interval >= 0.0
      ensures View() == Action(preset, number, interval, expire, 0.0)
    {
      this.preset := preset;
      this.number := number;
      this.interval := interval;
      this.expire := expire;
      this.lastTime := 0.0;
    }

    /**
      One scheduling pass at time `now`. Returns true when the action is done and
      false when it has more to do, the clock when it returns, and the camera
      commands and callbacks it made.
     */
    method Run(now: real) returns (done: bool, clock: real, trace: seq<Event>)
      modifies this
      ensures var o := Execute(old(View()), now);
              && done == o.done && clock == o.clock && trace == o.trace
              && View() == After(old(View()), o)
    {
      clock, trace := now, [];
      if expire.Some? && clock > expire.value {
        return true, clock, trace;
      }
      trace := [GotoPreset(clock, preset)];
      clock := clock + SEEK_TIME;
      var remaining := interval - (clock - lastTime);
      if remaining > 0.0 {
        clock := clock + remaining;
      }
      assert clock == Settled(interval, lastTime, now + SEEK_TIME);
      var shots;
      done, clock, shots := Shoot(clock);
      trace := trace + shots;
    }

    /**
      The shot loop of `run` (scheduler.py, lines 40-48), entered at `start`: the
      result, the callbacks and the new fields are those of `Shots`.
     */
    method Shoot(start: real) returns (done: bool, clock: real, shots: seq<Event>)
      modifies this
      ensures var o := Shots(interval, old(number), old(lastTime), start);
              && done == o.done && clock == o.clock && shots == o.trace
              && number == o.number && lastTime == o.lastTime
    {
      clock, shots := start, [];
      ghost var spec := Shots(interval, number, lastTime, clock);
      while number > 0
        invariant var o := Shots(interval, number, lastTime, clock);
                  spec == o.(trace := shots + o.trace)
        decreases number
      {
        if interval <= SEEK_TIME {
          ShotsStep(interval, number, lastTime, clock, shots);
        }
        lastTime := clock;
        shots := shots + [Deliver(clock)];
        number := number - 1;
        if interval <= SEEK_TIME {
          clock := clock + interval;
        } else {
          return false, clock, shots;
        }
      }
      done := true;
    }
  }

  /** The earlier scheduler (scheduler.py, lines 50-92), with its queue of requests. */
  class Scheduler {
    /** The `(action, priority)` pairs handed to `queue.append`, oldest first; no ordering is modelled. */
    var queue: seq<(SnapshotAction, int)>

    constructor ()
      ensures queue == []
    {
      queue := [];
    }

    /** Queues a single snapshot, then starts the worker. */
    method Snapshot(priority: int, preset: int, expire: Option<real>)
      modifies this
      ensures |queue| == |old(queue)| + 1 && queue[..|old(queue)|] == old(queue)
      ensures queue[|queue| - 1].1 == priority && fresh(queue[|queue| - 1].0)
      ensures queue[|queue| - 1].0.View() == Action(preset, 1, 0.0, expire, 0.0)
    {
      var action := new SnapshotAction(preset, 1, 0.0, expire);
      queue := queue + [(action, priority)];
      ScheduleThread();
    }

    /** Queues a series of `number` shots `period` seconds apart, then starts the worker. */
    method Interval(priority: int, preset: int, number: int, period: real, expire: Option<real>)
      requires period >= 0.0
      modifies this
      ensures |queue| == |old(queue)| + 1 && queue[..|old(queue)|] == old(queue)
      ensures queue[|queue| - 1].1 == priority && fresh(queue[|queue| - 1].0)
      ensures queue[|queue| - 1].0.View() == Action(preset, number, period, expire, 0.0)
    {
      var action := new SnapshotAction(preset, number, period, expire);
      queue := queue + [(action, priority)];
      ScheduleThread();
    }

    /** An empty stub in the source: it starts nothing and leaves the queue as it is. */
    method ScheduleThread()
      ensures queue == old(queue)
    {
    }
  }
}
