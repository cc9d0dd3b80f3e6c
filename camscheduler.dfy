/**
  The camera action scheduler (camscheduler.py): a snapshot action that resumes
  itself across scheduling passes, and the enqueue surface of the scheduler.

  Time is explicit. `time.time()` at the start of a run is the parameter `now`,
  `time.sleep(d)` advances the run's clock by d, and camera commands and
  callbacks take no time. What the camera and the callback are asked to do is
  recorded as a trace of timestamped events.
 */
module CamScheduler {
  import opened Common

  /** Seconds the camera needs to settle after moving to a preset (camscheduler.py, line 11). */
  const SEEK_TIME: real := 20.0

  datatype Event<U> =
    | GotoPreset(at: real, preset: int)
      /** `callback(image, preset, final, userdata)`; the image bytes are not modelled. */
    | Deliver(at: real, preset: int, final: bool, userdata: U)

  /** The fields of a SnapshotAction, as a value. */
  datatype Action<U> = Action(preset: int, number: int, interval: real, expire: Option<real>,
                              userdata: U, nextTime: real)

  /** What one run does: whether to re-queue, the new fields, the clock when it returns, and the events. */
  datatype Outcome<U> = Outcome(more: bool, number: int, nextTime: real, clock: real, trace: seq<Event<U>>)

  predicate Expired(expire: Option<real>, now: real)
  {
    expire.Some? && now > expire.value
  }

  /** Not due yet: more than SEEK_TIME before the next scheduled shot. */
  predicate Snoozing(nextTime: real, now: real)
  {
    now < nextTime - SEEK_TIME
  }

  /**
    The shot loop of `run` (camscheduler.py, lines 61-69), entered at `clock`:
    each pass delivers a shot and counts it off; a short interval is slept through,
    a long one ends the run with the next due time recorded.
   */
  function Shots<U>(preset: int, interval: real, userdata: U, number: int, nextTime: real, clock: real): (o: Outcome<U>)
    ensures number <= 0 ==> !o.more && o.number == number && o.nextTime == nextTime && o.trace == []
    ensures number > 0 ==> 0 <= o.number < number && |o.trace| == number - o.number
    ensures number > 0 ==> (o.more <==> interval > SEEK_TIME) && (!o.more ==> o.number == 0)
    decreases number
  {
    if number <= 0 then Outcome(false, number, nextTime, clock, [])
    else
      var shot := Deliver(clock, preset, number == 1, userdata);
      if interval <= SEEK_TIME then
        var rest := Shots(preset, interval, userdata, number - 1, nextTime, clock + interval);
        rest.(trace := [shot] + rest.trace)
      else
        Outcome(true, number - 1, clock + interval - SEEK_TIME, clock, [shot])
  }

  /**
    One pass of the shot loop with a short interval keeps the loop's outcome: the
    shot moves from the rest of the loop to the events already made.
   */
  lemma ShotsStep<U>(preset: int, interval: real, userdata: U, number: int, nextTime: real, clock: real,
                     made: seq<Event<U>>)
    requires number > 0 && interval <= SEEK_TIME && |made| >= 1
    ensures var o := Shots(preset, interval, userdata, number, nextTime, clock);
            var rest := Shots(preset, interval, userdata, number - 1, nextTime, clock + interval);
            o.(trace := made[1..] + o.trace)
              == rest.(trace := (made + [Deliver(clock, preset, number == 1, userdata)])[1..] + rest.trace)
  {
    var rest := Shots(preset, interval, userdata, number - 1, nextTime, clock + interval);
    AppendShift(made, Deliver(clock, preset, number == 1, userdata), rest.trace);
  }

  /** One call of `SnapshotAction.run` at time `now` (camscheduler.py, lines 50-69). */
  function Execute<U>(a: Action<U>, now: real): (o: Outcome<U>)
    ensures o.trace == [] <==> Expired(a.expire, now) || Snoozing(a.nextTime, now)
  {
    if Expired(a.expire, now) then Outcome(false, a.number, a.nextTime, now, [])
    else if Snoozing(a.nextTime, now) then Outcome(true, a.number, a.nextTime, now, [])
    else
      var o := Shots(a.preset, a.interval, a.userdata, a.number, a.nextTime, now + SEEK_TIME);
      o.(trace := [GotoPreset(now, a.preset)] + o.trace)
  }

  /** The action after a run: only `number` and `nextTime` change. */
  function After<U>(a: Action<U>, o: Outcome<U>): Action<U>
  {
    a.(number := o.number, nextTime := o.nextTime)
  }

  /** The final-image flags of the deliveries in a trace, in order. */
  function Flags<U>(trace: seq<Event<U>>): seq<bool>
  {
    if trace == [] then []
    else if trace[0].Deliver? then [trace[0].final] + Flags(trace[1..])
    else Flags(trace[1..])
  }

  /** The flags of the shots that count `number` down from n to m: only the shot taking it from 1 to 0 is final. */
  function Countdown(n: int, m: int): (flags: seq<bool>)
    ensures |flags| == if n <= m then 0 else n - m
    ensures forall k :: 0 <= k < |flags| ==> (flags[k] <==> n - k == 1)
    decreases n - m
  {
    if n <= m then [] else [n == 1] + Countdown(n - 1, m)
  }

  // ---------------------------------------------------------------- lemmas

  /** An expired action is dropped: no camera command, no callback, fields unchanged. */
  lemma ExecuteExpired<U>(a: Action<U>, now: real)
    requires Expired(a.expire, now)
    ensures var o := Execute(a, now);
            !o.more && o.trace == [] && After(a, o) == a && o.clock == now
  {
  }

  /** An action not yet due is re-queued untouched. */
  lemma ExecuteSnoozed<U>(a: Action<U>, now: real)
    requires !Expired(a.expire, now) && Snoozing(a.nextTime, now)
    ensures var o := Execute(a, now);
            o.more && o.trace == [] && After(a, o) == a && o.clock == now
  {
  }

  /** A fresh action (`nextTime = 0.0`) is never snoozed at a non-negative time. */
  lemma FreshNeverSnoozed(now: real)
    requires now >= 0.0
    ensures !Snoozing(0.0, now)
  {
  }

  /**
    Every event is a callback at `preset` with `userdata`, and the final-image flag
    is set on the k-th one exactly when `number - k` is 1.
   */
  ghost predicate CountingDeliveries<U>(trace: seq<Event<U>>, preset: int, userdata: U, number: int)
  {
    forall k :: 0 <= k < |trace| ==>
      trace[k].Deliver? && trace[k].preset == preset && trace[k].userdata == userdata
      && (trace[k].final <==> number - k == 1)
  }

  /**
    The shot loop only makes callbacks, at the action's preset with its userdata,
    and sets the final-image flag exactly on the shot that takes `number` from 1 to 0.
   */
  lemma {:induction false} ShotsDeliveries<U>(preset: int, interval: real, userdata: U, number: int, nextTime: real, clock: real)
    ensures CountingDeliveries(Shots(preset, interval, userdata, number, nextTime, clock).trace, preset, userdata, number)
    decreases number
  {
    if number > 0 && interval <= SEEK_TIME {
      ShotsDeliveries(preset, interval, userdata, number - 1, nextTime, clock + interval);
      var o := Shots(preset, interval, userdata, number, nextTime, clock);
      var rest := Shots(preset, interval, userdata, number - 1, nextTime, clock + interval);
      assert o.trace == [Deliver(clock, preset, number == 1, userdata)] + rest.trace;
      forall k | 1 <= k < |o.trace|
        ensures o.trace[k] == rest.trace[k - 1]
      {
      }
    }
  }

  /**
    Timing of the shot loop: the first shot is taken on entry, each later one
    `interval` after the previous; a run that takes every shot ends `interval`
    after the last one, and a run that yields records the next due time as
    `interval - SEEK_TIME` after its shot.
   */
  lemma {:induction false} ShotsTiming<U>(preset: int, interval: real, userdata: U, number: int, nextTime: real, clock: real)
    ensures var o := Shots(preset, interval, userdata, number, nextTime, clock);
            && (|o.trace| > 0 ==> o.trace[0].at == clock)
            && (forall k :: 0 < k < |o.trace| ==> o.trace[k].at == o.trace[k - 1].at + interval)
            && (!o.more && |o.trace| > 0 ==> o.clock == o.trace[|o.trace| - 1].at + interval)
            && (!o.more ==> o.nextTime == nextTime)
            && (o.more ==> o.clock == clock && o.nextTime == clock + interval - SEEK_TIME)
            && (interval >= 0.0 ==> forall k :: 0 <= k < |o.trace| ==> o.trace[k].at >= clock)
    decreases number
  {
    if number > 0 && interval <= SEEK_TIME {
      ShotsTiming(preset, interval, userdata, number - 1, nextTime, clock + interval);
      var rest := Shots(preset, interval, userdata, number - 1, nextTime, clock + interval);
      if |rest.trace| == 0 {
        assert rest.clock == clock + interval;
      }
    }
  }

  /** The flags of the shot loop count `number` down to where the run stops. */
  lemma {:induction false} ShotsFlags<U>(preset: int, interval: real, userdata: U, number: int, nextTime: real, clock: real)
    ensures var o := Shots(preset, interval, userdata, number, nextTime, clock);
            Flags(o.trace) == Countdown(number, o.number)
    decreases number
  {
    var o := Shots(preset, interval, userdata, number, nextTime, clock);
    if number > 0 {
      if interval <= SEEK_TIME {
        ShotsFlags(preset, interval, userdata, number - 1, nextTime, clock + interval);
      }
      assert o.trace[1..] == Shots(preset, interval, userdata, number - 1, nextTime, clock + interval).trace
          || o.trace[1..] == [];
    }
  }

  /**
    A due run first moves to the preset, then waits SEEK_TIME: every callback
    comes at least SEEK_TIME after the move. Each callback counts `number` down
    by one, and it never goes below 0.
   */
  lemma ExecuteDue<U>(a: Action<U>, now: real)
    requires !Expired(a.expire, now) && !Snoozing(a.nextTime, now)
    requires a.interval >= 0.0 && a.number >= 0
    ensures var o := Execute(a, now);
            && o.trace[0] == GotoPreset(now, a.preset)
            && (forall k :: 1 <= k < |o.trace| ==> o.trace[k].Deliver? && o.trace[k].at >= now + SEEK_TIME)
            && 0 <= o.number <= a.number && |o.trace| - 1 == a.number - o.number
  {
    var clock := now + SEEK_TIME;
    var s := Shots(a.preset, a.interval, a.userdata, a.number, a.nextTime, clock);
    ShotsDeliveries(a.preset, a.interval, a.userdata, a.number, a.nextTime, clock);
    ShotsTiming(a.preset, a.interval, a.userdata, a.number, a.nextTime, clock);
    var o := Execute(a, now);
    assert o.trace == [GotoPreset(now, a.preset)] + s.trace;
    assert forall k :: 1 <= k < |o.trace| ==> o.trace[k] == s.trace[k - 1];
  }

  /** A due run with a long interval delivers one shot and is re-queued, even when that shot was the last. */
  lemma ExecuteYields<U>(a: Action<U>, now: real)
    requires !Expired(a.expire, now) && !Snoozing(a.nextTime, now)
    requires a.interval > SEEK_TIME && a.number > 0
    ensures var o := Execute(a, now);
            && o.more && o.number == a.number - 1
            && o.trace == [GotoPreset(now, a.preset),
                           Deliver(now + SEEK_TIME, a.preset, a.number == 1, a.userdata)]
            && o.nextTime == now + SEEK_TIME + a.interval - SEEK_TIME
  {
  }

  /**
    A due run with a short interval delivers every remaining shot, sleeping
    `interval` after each, and asks to be removed.
   */
  lemma ExecuteCompletes<U>(a: Action<U>, now: real)
    requires !Expired(a.expire, now) && !Snoozing(a.nextTime, now)
    requires a.interval <= SEEK_TIME && a.number > 0
    ensures var o := Execute(a, now);
            && !o.more && o.number == 0 && |o.trace| == a.number + 1
            && o.trace[1].at == now + SEEK_TIME
            && o.clock == o.trace[|o.trace| - 1].at + a.interval
            && (forall k :: 1 < k < |o.trace| ==> o.trace[k].at == o.trace[k - 1].at + a.interval)
  {
    var clock := now + SEEK_TIME;
    var s := Shots(a.preset, a.interval, a.userdata, a.number, a.nextTime, clock);
    ShotsTiming(a.preset, a.interval, a.userdata, a.number, a.nextTime, clock);
    var o := Execute(a, now);
    assert o.trace == [GotoPreset(now, a.preset)] + s.trace;
    assert forall k :: 1 <= k < |o.trace| ==> o.trace[k] == s.trace[k - 1];
  }

  /** An action re-queued after its last shot makes one more move to its preset, then is removed. */
  lemma ExhaustedOnlyMoves<U>(a: Action<U>, now: real)
    requires !Expired(a.expire, now) && !Snoozing(a.nextTime, now) && a.number == 0
    ensures var o := Execute(a, now);
            !o.more && o.trace == [GotoPreset(now, a.preset)] && o.clock == now + SEEK_TIME
  {
  }

  /** The flags of one run count `number` down from its old to its new value. */
  lemma ExecuteFlags<U>(a: Action<U>, now: real)
    ensures var o := Execute(a, now);
            Flags(o.trace) == Countdown(a.number, o.number)
  {
    var o := Execute(a, now);
    if !Expired(a.expire, now) && !Snoozing(a.nextTime, now) {
      ShotsFlags(a.preset, a.interval, a.userdata, a.number, a.nextTime, now + SEEK_TIME);
      assert o.trace[1..] == Shots(a.preset, a.interval, a.userdata, a.number, a.nextTime, now + SEEK_TIME).trace;
    }
  }

  /**
    The single snapshot that `FoscamScheduler.snapshot` queues, once due and not
    expired: a move, then exactly one callback, flagged final, with the caller's
    userdata; then it asks to be removed.
   */
  lemma SnapshotFirstRun<U>(preset: int, expire: Option<real>, userdata: U, now: real)
    requires now >= 0.0 && !Expired(expire, now)
    ensures Execute(Action(preset, 1, 0.0, expire, userdata, 0.0), now)
         == Outcome(false, 0, 0.0, now + SEEK_TIME,
                    [GotoPreset(now, preset), Deliver(now + SEEK_TIME, preset, true, userdata)])
  {
  }

  // ------------------------------------------------------ repeated runs

  /**
    The snooze test as evidently intended: an action waits until its next time,
    which line 67 already sets SEEK_TIME ahead of the next shot. The code's test
    (line 56) subtracts SEEK_TIME once more; in that window this one snoozes.
   */
  function ExecuteIntended<U>(a: Action<U>, now: real): (o: Outcome<U>)
    ensures o.trace == [] <==> Expired(a.expire, now) || now < a.nextTime
  {
    if !Expired(a.expire, now) && now < a.nextTime then Outcome(true, a.number, a.nextTime, now, [])
    else Execute(a, now)
  }

  /** One scheduling pass: `run` as written, or with the intended snooze test. */
  function Pass<U>(a: Action<U>, now: real, intended: bool): Outcome<U>
  {
    if intended then ExecuteIntended(a, now) else Execute(a, now)
  }

  /**
    The action run at each of the times in `pops`, re-queued after each run that
    asks for it: the action afterwards, whether it is still queued, and all events.
   */
  function RunRepeatedly<U>(a: Action<U>, pops: seq<real>, intended: bool): (Action<U>, bool, seq<Event<U>>)
    decreases |pops|
  {
    if pops == [] then (a, true, [])
    else
      var o := Pass(a, pops[0], intended);
      if !o.more then (After(a, o), false, o.trace)
      else
        var (b, queued, rest) := RunRepeatedly(After(a, o), pops[1..], intended);
        (b, queued, o.trace + rest)
  }

  lemma {:induction false} FlagsConcat<U>(s: seq<Event<U>>, t: seq<Event<U>>)
    ensures Flags(s + t) == Flags(s) + Flags(t)
  {
    if s == [] {
      assert s + t == t;
    } else {
      assert (s + t)[0] == s[0] && (s + t)[1..] == s[1..] + t;
      FlagsConcat(s[1..], t);
    }
  }

  lemma CountdownConcat(n: int, m: int, p: int)
    requires n >= m >= p
    ensures Countdown(n, m) + Countdown(m, p) == Countdown(n, p)
  {
  }

  /**
    However often the action is resumed, with either snooze test, its callbacks count `number` down one
    by one, never below 0, with the final flag on the shot that reaches 0 and on
    no other; an action without expiry that is no longer queued has delivered
    every shot.
   */
  lemma {:induction false} RepeatedRunsCountDown<U>(a: Action<U>, pops: seq<real>, intended: bool)
    requires a.number >= 0
    ensures var (b, queued, trace) := RunRepeatedly(a, pops, intended);
            && 0 <= b.number <= a.number
            && Flags(trace) == Countdown(a.number, b.number)
            && (!queued && a.expire.None? ==> b.number == 0)
    decreases |pops|
  {
    if pops != [] {
      var o := Pass(a, pops[0], intended);
      ExecuteFlags(a, pops[0]);
      if o.more {
        RepeatedRunsCountDown(After(a, o), pops[1..], intended);
        var (b, queued, rest) := RunRepeatedly(After(a, o), pops[1..], intended);
        FlagsConcat(o.trace, rest);
        CountdownConcat(a.number, o.number, b.number);
      }
    }
  }

  // ------------------------------------------------------ shot spacing

  /** The times of the callbacks in a trace, in order. */
  function ShotTimes<U>(trace: seq<Event<U>>): seq<real>
  {
    if trace == [] then []
    else if trace[0].Deliver? then [trace[0].at] + ShotTimes(trace[1..])
    else ShotTimes(trace[1..])
  }

  /**
    The least spacing of a series: `interval` as the docstrings promise
    (camscheduler.py, lines 38 and 98), and SEEK_TIME less as written.
   */
  function Gap(interval: real, intended: bool): real
  {
    if intended then interval else interval - SEEK_TIME
  }

  /** The next time is no earlier than `interval - SEEK_TIME` after the latest shot. */
  predicate NextAfterShot<U>(times: seq<real>, a: Action<U>)
  {
    times != [] ==> times[|times| - 1] + a.interval - SEEK_TIME <= a.nextTime
  }

  lemma {:induction false} ShotTimesConcat<U>(s: seq<Event<U>>, t: seq<Event<U>>)
    ensures ShotTimes(s + t) == ShotTimes(s) + ShotTimes(t)
  {
    if s == [] {
      assert s + t == t;
    } else {
      assert (s + t)[0] == s[0] && (s + t)[1..] == s[1..] + t;
      ShotTimesConcat(s[1..], t);
    }
  }

  /** The shot times of the loop: the first at entry, the others `interval` apart. */
  lemma {:induction false} ShotsShotTimes<U>(preset: int, interval: real, userdata: U, number: int, nextTime: real, clock: real)
    ensures var o := Shots(preset, interval, userdata, number, nextTime, clock);
            var t := ShotTimes(o.trace);
            && Spaced(t, interval)
            && (t != [] ==> t[0] == clock)
            && (o.more ==> t == [clock])
    decreases number
  {
    if number > 0 && interval <= SEEK_TIME {
      ShotsShotTimes(preset, interval, userdata, number - 1, nextTime, clock + interval);
      var o := Shots(preset, interval, userdata, number, nextTime, clock);
      var rest := Shots(preset, interval, userdata, number - 1, nextTime, clock + interval);
      assert o.trace == [Deliver(clock, preset, number == 1, userdata)] + rest.trace;
      assert o.trace[1..] == rest.trace;
      var r := ShotTimes(rest.trace);
      assert ShotTimes(o.trace) == [clock] + r;
      forall k | 0 < k < |[clock] + r|
        ensures ([clock] + r)[k - 1] + interval <= ([clock] + r)[k]
      {
        if k > 1 {
          assert ([clock] + r)[k - 1] == r[k - 2] && ([clock] + r)[k] == r[k - 1];
        }
      }
    }
  }

  /**
    The shots of a due run: the first SEEK_TIME after the move, the others
    `interval` apart; a run that is re-queued took one shot, and its next time is
    `interval - SEEK_TIME` after it.
   */
  lemma ExecuteShotTimes<U>(a: Action<U>, now: real)
    requires !Expired(a.expire, now) && !Snoozing(a.nextTime, now)
    ensures var o := Execute(a, now);
            var t := ShotTimes(o.trace);
            && Spaced(t, a.interval)
            && (t != [] ==> t[0] == now + SEEK_TIME)
            && (o.more ==> t == [now + SEEK_TIME] && o.nextTime == now + SEEK_TIME + a.interval - SEEK_TIME)
  {
    var clock := now + SEEK_TIME;
    var s := Shots(a.preset, a.interval, a.userdata, a.number, a.nextTime, clock);
    var o := Execute(a, now);
    assert o.trace[1..] == s.trace;
    assert ShotTimes(o.trace) == ShotTimes(s.trace);
    ShotsShotTimes(a.preset, a.interval, a.userdata, a.number, a.nextTime, clock);
  }

  /**
    One pass keeps a history of shots spaced by the gap, as long as the action's
    next time is set after the latest shot; a pass that re-queues the action leaves
    its next time set after its own shot.
   */
  lemma PassSpacing<U>(a: Action<U>, now: real, intended: bool, h: seq<real>)
    requires Spaced(h, Gap(a.interval, intended)) && NextAfterShot(h, a)
    ensures var o := Pass(a, now, intended);
            && Spaced(h + ShotTimes(o.trace), Gap(a.interval, intended))
            && (o.more ==> NextAfterShot(h + ShotTimes(o.trace), After(a, o)))
  {
    var o := Pass(a, now, intended);
    if o.trace == [] {
      assert h + ShotTimes(o.trace) == h;
    } else {
      assert o == Execute(a, now);
      ExecuteShotTimes(a, now);
      var t := ShotTimes(o.trace);
      assert Spaced(t, Gap(a.interval, intended));
      SpacedConcat(h, t, Gap(a.interval, intended));
      if o.more {
        assert (h + t)[|h + t| - 1] == now + SEEK_TIME;
      }
    }
  }

  /**
    However the passes of one series are timed, its shots, within a pass and
    across passes, are at least `Gap(interval, intended)` apart.
   */
  lemma {:induction false} RepeatedRunsSpacing<U>(a: Action<U>, pops: seq<real>, intended: bool, h: seq<real>)
    requires Spaced(h, Gap(a.interval, intended)) && NextAfterShot(h, a)
    ensures Spaced(h + ShotTimes(RunRepeatedly(a, pops, intended).2), Gap(a.interval, intended))
    decreases |pops|
  {
    if pops != [] {
      var o := Pass(a, pops[0], intended);
      PassSpacing(a, pops[0], intended, h);
      if o.more {
        var h1 := h + ShotTimes(o.trace);
        var rest := RunRepeatedly(After(a, o), pops[1..], intended).2;
        RepeatedRunsSpacing(After(a, o), pops[1..], intended, h1);
        assert RunRepeatedly(a, pops, intended).2 == o.trace + rest;
        ShotTimesConcat(o.trace, rest);
        assert h + ShotTimes(o.trace + rest) == h1 + ShotTimes(rest);
      } else {
        assert RunRepeatedly(a, pops, intended).2 == o.trace;
      }
    }
  }

  /**
    As written, the shots of a series are `interval - SEEK_TIME` apart at least,
    within a run and across runs, whenever the scheduler pops it.
   */
  lemma SeriesSpacedAsWritten<U>(a: Action<U>, pops: seq<real>)
    ensures Spaced(ShotTimes(RunRepeatedly(a, pops, false).2), a.interval - SEEK_TIME)
  {
    RepeatedRunsSpacing(a, pops, false, []);
    assert [] + ShotTimes(RunRepeatedly(a, pops, false).2) == ShotTimes(RunRepeatedly(a, pops, false).2);
  }

  /**
    The bound is reached, with each pass popped no earlier than the previous one
    returned: a series 50 s apart, popped at 0 and at 30, shoots at 20 and 50; one
    30 s apart, popped at 0 and again when its first run returns, at 20 and 40.
   */
  lemma SeriesTooCloseAsWritten()
    ensures ShotTimes(RunRepeatedly(Action(7, 2, 50.0, None, 0, 0.0), [0.0, 30.0], false).2) == [20.0, 50.0]
    ensures var t := ShotTimes(RunRepeatedly(Action(7, 2, 50.0, None, 0, 0.0), [0.0, 30.0], false).2);
            t[1] - t[0] == 50.0 - SEEK_TIME
    ensures ShotTimes(RunRepeatedly(Action(7, 2, 30.0, None, 0, 0.0), [0.0, 20.0], false).2) == [20.0, 40.0]
  {
    SeriesExample(50.0, 30.0);
    SeriesExample(30.0, 20.0);
  }

  /** Two passes of a two-shot series with a long interval, as written. */
  lemma SeriesExample(interval: real, second: real)
    requires interval > SEEK_TIME && second >= 20.0 + interval - 2.0 * SEEK_TIME
    ensures ShotTimes(RunRepeatedly(Action(7, 2, interval, None, 0, 0.0), [0.0, second], false).2)
         == [20.0, second + SEEK_TIME]
  {
    var a := Action(7, 2, interval, None, 0, 0.0);
    var o := Execute(a, 0.0);
    assert o == Outcome(true, 1, 20.0 + interval - SEEK_TIME, 20.0, [GotoPreset(0.0, 7), Deliver(20.0, 7, false, 0)]);
    var o2 := Execute(After(a, o), second);
    assert o2.trace == [GotoPreset(second, 7), Deliver(second + SEEK_TIME, 7, true, 0)];
    assert [0.0, second][1..] == [second];
    assert RunRepeatedly(After(a, o), [second], false).2 == o2.trace;
    assert RunRepeatedly(a, [0.0, second], false).2 == o.trace + o2.trace;
    ShotTimesConcat(o.trace, o2.trace);
    assert ShotTimes(o.trace) == [20.0];
    assert ShotTimes(o2.trace) == [second + SEEK_TIME];
  }

  /** With the intended snooze test the shots of a series are at least `interval` apart. */
  lemma SeriesSpacedIntended<U>(a: Action<U>, pops: seq<real>)
    ensures Spaced(ShotTimes(RunRepeatedly(a, pops, true).2), a.interval)
  {
    RepeatedRunsSpacing(a, pops, true, []);
    assert [] + ShotTimes(RunRepeatedly(a, pops, true).2) == ShotTimes(RunRepeatedly(a, pops, true).2);
  }

  /**
    With the intended snooze test, the series 50 s apart snoozes at 30 and, popped
    again at 50, shoots at 20 and 70.
   */
  lemma SeriesExampleIntended()
    ensures ShotTimes(RunRepeatedly(Action(7, 2, 50.0, None, 0, 0.0), [0.0, 30.0, 50.0], true).2) == [20.0, 70.0]
  {
  }

  // ------------------------------------------------------------ classes

  class SnapshotAction<U> {
    const preset: int
    var number: int
    const interval: real
    const expire: Option<real>
    const userdata: U
    var nextTime: real

    function View(): Action<U>
      reads this
    {
      Action(preset, number, interval, expire, userdata, nextTime)
    }

    /** camscheduler.py, lines 31-48; `time.sleep` refuses a negative interval. */
    constructor (preset: int, number: int, interval: real, expire: Option<real>, userdata: U)
      requires interval >= 0.0
      ensures View() == Action(preset, number, interval, expire, userdata, 0.0)
    {
      this.preset := preset;
      this.number := number;
      this.interval := interval;
      this.expire := expire;
      this.userdata := userdata;
      this.nextTime := 0.0;
    }

    /**
      One scheduling pass at time `now`. Returns true when the action is to be
      re-queued and false when it is to be removed, the clock when it returns,
      and the camera commands and callbacks it made.
     */
    method Run(now: real) returns (more: bool, clock: real, trace: seq<Event<U>>)
      modifies this
      ensures var o := Execute(old(View()), now);
              && more == o.more && clock == o.clock && trace == o.trace
              && View() == After(old(View()), o)
    {
      clock, trace := now, [];
      if expire.Some? && clock > expire.value {
        return false, clock, trace;
      } else if clock < nextTime - SEEK_TIME {
        return true, clock, trace;
      }
      trace := [GotoPreset(clock, preset)];
      clock := clock + SEEK_TIME;
      ghost var spec := Shots(preset, interval, userdata, number, nextTime, clock);
      assert Execute(old(View()), now) == spec.(trace := trace + spec.trace);
      while number > 0
        invariant nextTime == old(nextTime)
        invariant |trace| >= 1 && trace[0] == GotoPreset(now, preset)
        invariant var o := Shots(preset, interval, userdata, number, nextTime, clock);
                  spec == o.(trace := trace[1..] + o.trace)
        decreases number
      {
        if interval <= SEEK_TIME {
          ShotsStep(preset, interval, userdata, number, nextTime, clock, trace);
        }
        trace := trace + [Deliver(clock, preset, number == 1, userdata)];
        number := number - 1;
        if interval <= SEEK_TIME {
          clock := clock + interval;
        } else {
          nextTime := clock + interval - SEEK_TIME;
          return true, clock, trace;
        }
      }
      more := false;
    }
  }

  /** The scheduler of one camera (camscheduler.py, lines 73-105), with its pending requests. */
  class FoscamScheduler<U> {
    /** The camera's `defaultPreset`. */
    const defaultPreset: int
    /** The `(priority, action)` pairs handed to `append`, oldest first; no ordering is modelled. */
    var pending: seq<(int, SnapshotAction<U>)>

    /** The intended constructor: line 77 omits the camera that `Scheduler.__init__` requires. */
    constructor (defaultPreset: int)
      ensures this.defaultPreset == defaultPreset && pending == []
    {
      this.defaultPreset := defaultPreset;
      pending := [];
    }

    /** Queues a single snapshot: one shot, no interval, due at once. */
    method Snapshot(priority: int, preset: int, expire: Option<real>, userdata: U)
      modifies this
      ensures |pending| == |old(pending)| + 1 && pending[..|old(pending)|] == old(pending)
      ensures pending[|pending| - 1].0 == priority && fresh(pending[|pending| - 1].1)
      ensures pending[|pending| - 1].1.View() == Action(preset, 1, 0.0, expire, userdata, 0.0)
    {
      var action := new SnapshotAction(preset, 1, 0.0, expire, userdata);
      pending := pending + [(priority, action)];
    }

    /** Queues a series of `number` shots `period` seconds apart; every argument is passed through. */
    method Interval(priority: int, preset: int, number: int, period: real, expire: Option<real>, userdata: U)
      requires period >= 0.0
      modifies this
      ensures |pending| == |old(pending)| + 1 && pending[..|old(pending)|] == old(pending)
      ensures pending[|pending| - 1].0 == priority && fresh(pending[|pending| - 1].1)
      ensures pending[|pending| - 1].1.View() == Action(preset, number, period, expire, userdata, 0.0)
    {
      var action := new SnapshotAction(preset, number, period, expire, userdata);
      pending := pending + [(priority, action)];
    }

    /** With nothing left to do, the camera is sent to its default preset. */
    method QueueDone(now: real) returns (command: Event<U>)
      ensures command == GotoPreset(now, defaultPreset)
    {
      command := GotoPreset(now, defaultPreset);
    }
  }
}
