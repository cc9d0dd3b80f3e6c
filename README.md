# Foscam camera scheduler: a Dafny model

This project models the core of a small driver for Foscam pan/tilt IP cameras.
That core is the part that decides when the camera takes pictures for its callers.
It is written in Python and has three files:

- `camscheduler.py` (module `CamScheduler`): a `SnapshotAction` takes one or more
  pictures at a camera preset and resumes itself across scheduling passes. Its
  `run` either drops the action (it has expired), snoozes it (it is not due
  within `SEEK_TIME` = 20 s), or moves the camera to the preset, waits
  `SEEK_TIME`, and takes pictures. When the interval is short, it sleeps through
  the interval and takes every remaining picture. When the interval is long, it
  records the next due time and yields back to the scheduler.
  `FoscamScheduler.snapshot` / `interval` queue such actions at a priority, and
  `queueDone` parks the camera at its default preset.
- `scheduler.py` (module `LegacyScheduler`): an earlier version of the same
  action. Here `SEEK_TIME` is 10 s, `true` from `run` means "done", and every
  run that has not expired moves the camera. Before its first picture a run waits until `interval`
  has passed since the previous picture (`lastTime`). Its `Scheduler.snapshot` /
  `interval` append `(action, priority)` and call `scheduleThread`.
- `control.py` (module `Control`, with module `PyDict` for Python's dict): the
  query-string join `dict2url`, and the argument map that
  `FoscamControl.control` builds before its HTTP request.

Time is explicit. `time.time()` at the start of a run is the parameter `now`.
`time.sleep(d)` advances the run's clock by `d`. Camera commands and callbacks
take no time. What a run asks of the camera and the callback is recorded as a
trace of timestamped events: `GotoPreset(at, preset)` and `Deliver(at, …)`.
Each `Run` method is a class method that updates the action's fields in place.
It is proved equal to a specification function, `Execute`. `Execute` is built
on `Shots`, a recursive function that follows the `while` loop pass by pass.
The lemmas then state what the source promises about `Execute`, about one run
and about a sequence of runs (`RunRepeatedly`). `RunRepeatedly` is not in the
source. It drives one action the way the scheduler's requeue rule would: run
it, and run it again while `run` asks for that. In CamScheduler it takes a flag
that chooses between the snooze test as written and the corrected one of the
Findings table.

Where the code departs from its own docstrings, or does less than they
describe, the model follows the code:

- In camscheduler.py, `run` returns `true` for "re-queue" and `false` for
  "remove" (lines 55, 57, 68, 69). Its own doc comment (lines 51-53) says the
  opposite.
- An action whose count reaches 0 is not always removed. With an
  interval over `SEEK_TIME`, camscheduler.py re-queues it after its last picture
  (line 68). Its next due run makes one more preset move and a `SEEK_TIME` wait,
  with no callback (`ExhaustedOnlyMoves`).
- In scheduler.py the same holds, and the extra run costs more. A series whose
  interval exceeds `SEEK_TIME` reports not done after its last picture
  (line 47). Its next run moves the camera, blocks the worker until `interval`
  after the last picture, delivers nothing and reports done (`ExecuteWaits`).
  For example, a two-picture series with interval 3600 popped at 1000, 3610 and
  7210 shoots at 3600 and 7200, then makes a third move at 7210 and blocks until
  10800.
- No count is checked: `snapshot` and `interval` (camscheduler.py:80-101) pass
  every count through. A count of 0 or less makes a due run move the camera and
  stop.
- The docstrings describe a priority queue and a processing thread
  (scheduler.py:51-54, 64-66 and 87). In the code `PriorityQueue` and
  `self.append` are not defined, and `scheduleThread` /
  `processQueue` are empty. The model keeps the pending requests as a plain
  sequence, in the order they were appended.

Five obvious slips in the source are modelled as intended:

- `callbakc` is read as `callback`. The callback itself is represented by the
  `Deliver` events.
- The unbound `expire` in scheduler.py (lines 34 and 83) is read as the action's
  own expiry, which is a parameter of `Interval`.
- The interval in scheduler.py must be a number.
- In scheduler.py an expiry of `None` is read as "never expires", as its
  docstring (line 70) says and as camscheduler.py:54 tests it. Under Python 2
  the comparison at line 34 drops every such action. The class's `Run` uses
  the intended test (`Expired`). `LegacyScheduler.ExecuteAsWritten` is the test
  as written, and the Findings table gives the consequence.
- `FoscamScheduler.__init__` calls `scheduler.Scheduler.__init__(self)`
  (camscheduler.py:77) without the `foscam` argument that scheduler.py:57
  requires, so constructing a `FoscamScheduler` raises `TypeError` as written.
  `CamScheduler.FoscamScheduler.constructor` is the evidently intended one: it
  keeps the camera's default preset and starts with nothing pending.

## Model

| member | source | states |
|---|---|---|
| `CamScheduler.Shots` | camscheduler.py:61-69 | from a positive count, the loop delivers between one and all of the remaining shots and counts each off; it asks to be re-queued exactly when the interval exceeds SEEK_TIME, and otherwise ends with the count at 0; a count of 0 or less delivers nothing |
| `CamScheduler.Execute` | camscheduler.py:50-69 | a run makes no camera command or callback exactly when the action is expired or not yet due |
| `CamScheduler.Countdown` | camscheduler.py:62 | counting down from n to m gives n - m flags, and the k-th is set exactly when n - k is 1 (the shot taking the count from 1 to 0) |
| `CamScheduler.ExecuteExpired` | camscheduler.py:54-55 | an expired action is removed with no command or callback, and `number`/`nextTime` unchanged |
| `CamScheduler.ExecuteSnoozed` | camscheduler.py:56-57 | an action more than SEEK_TIME before its next time is re-queued with an empty trace and unchanged fields |
| `CamScheduler.FreshNeverSnoozed` | camscheduler.py:48-57 | a fresh action (`nextTime = 0.0`) is never snoozed at a non-negative time |
| `CamScheduler.ShotsDeliveries` | camscheduler.py:61-63 | every event of the loop is a callback with the action's preset and userdata, and its final flag is set exactly on the shot that takes the count from 1 to 0 |
| `CamScheduler.ShotsTiming` | camscheduler.py:61-67 | the first shot is at loop entry, each later one `interval` after the previous one; a completed run ends `interval` after its last shot; a yielding run sets `nextTime = now + interval - SEEK_TIME`; shot times never precede entry when the interval is non-negative |
| `CamScheduler.ShotsFlags` | camscheduler.py:61-63 | the final flags of the loop's callbacks are the countdown from the old count to the new one |
| `CamScheduler.ExecuteDue` | camscheduler.py:58-63 | a due run first moves to the preset, every callback comes at least SEEK_TIME after the move, and the count drops by exactly the number of callbacks without going below 0 |
| `CamScheduler.ExecuteYields` | camscheduler.py:64-68 | with interval over SEEK_TIME a due run delivers one shot, sets the next time to `interval - SEEK_TIME` after it, and is re-queued even when the count became 0 |
| `CamScheduler.ExecuteCompletes` | camscheduler.py:64-69 | with interval at most SEEK_TIME a due run delivers every remaining shot, the first SEEK_TIME after the move and each next `interval` later, sleeps `interval` after the last, and asks for removal |
| `CamScheduler.ExhaustedOnlyMoves` | camscheduler.py:58-69 | a due action whose count is already 0 moves to its preset, waits SEEK_TIME, delivers nothing and asks for removal |
| `CamScheduler.ExecuteFlags` | camscheduler.py:50-69 | the final flags of one run are the countdown from the old count to the new one |
| `CamScheduler.SnapshotFirstRun` | camscheduler.py:80-90 | the action queued by `snapshot`, when due and not expired, makes one move and exactly one callback flagged final with the caller's userdata, then asks for removal |
| `CamScheduler.ExecuteIntended` | camscheduler.py:54-57 | the corrected pass of the Findings table makes no camera command or callback exactly when the action is expired or its next time has not come |
| `CamScheduler.ShotsShotTimes` | camscheduler.py:61-68 | the loop's shots are taken at entry and then `interval` apart, and a loop that yields took exactly one shot, at entry |
| `CamScheduler.ExecuteShotTimes` | camscheduler.py:58-68 | a due run's shots are `interval` apart, the first SEEK_TIME after the move; a run that re-queues took one shot and set its next time to `interval - SEEK_TIME` after it |
| `CamScheduler.PassSpacing` | camscheduler.py:50-69 | one pass, as written or corrected, keeps a history of shots spaced by the gap (`interval - SEEK_TIME` as written, `interval` corrected) while the next time is set at least `interval - SEEK_TIME` after the latest shot; a pass that re-queues leaves it so |
| `CamScheduler.RepeatedRunsSpacing` | camscheduler.py:50-69 | over any sequence of passes, whatever their times, consecutive shots within and across passes are at least the gap apart |
| `CamScheduler.SeriesSpacedAsWritten` | camscheduler.py:56-67 | as written, consecutive shots of a series are at least `interval - SEEK_TIME` apart, from its first run on |
| `CamScheduler.SeriesExample` | camscheduler.py:56-67 | as written, a two-shot series with interval over SEEK_TIME popped at 0 and again at any time the snooze test lets through shoots at 20 and SEEK_TIME after the second pop |
| `CamScheduler.SeriesTooCloseAsWritten` | camscheduler.py:56-67 | the bound is reached: interval 50, pops at 0 and 30 give shots at 20 and 50; interval 30, pops at 0 and 20 give shots at 20 and 40 |
| `CamScheduler.SeriesSpacedIntended` | camscheduler.py:56-67 | with the corrected snooze test, consecutive shots of a series are at least `interval` apart, as the docstrings at lines 38 and 98 promise |
| `CamScheduler.SeriesExampleIntended` | camscheduler.py:56-67 | with the corrected snooze test, the interval-50 series snoozes at 30 and shoots at 20 and 70 |
| `CamScheduler.RepeatedRunsCountDown` | camscheduler.py:50-69 | with either snooze test, over any sequence of resumed runs the count stays between 0 and its start, the callbacks' final flags are exactly the countdown, and an action without expiry that is no longer queued has delivered every shot |
| `CamScheduler.SnapshotAction.constructor` | camscheduler.py:31-48 | the fields take the given values, and `nextTime` starts at 0.0 |
| `CamScheduler.SnapshotAction.Run` | camscheduler.py:50-69 | the returned flag, clock and events, and the new `number` and `nextTime`, are those of `Execute` on the old fields; nothing else changes |
| `CamScheduler.FoscamScheduler.constructor` | camscheduler.py:76-78 | nothing is pending at the start |
| `CamScheduler.FoscamScheduler.Snapshot` | camscheduler.py:80-90 | appends exactly one new `(priority, action)` with count 1, interval 0.0, `nextTime` 0.0 and the given preset, expiry and userdata; earlier entries are unchanged |
| `CamScheduler.FoscamScheduler.Interval` | camscheduler.py:92-101 | appends exactly one new `(priority, action)` whose count, period, expiry and userdata are passed through unchanged |
| `CamScheduler.FoscamScheduler.QueueDone` | camscheduler.py:103-105 | the camera is sent to its default preset |
| `LegacyScheduler.Settled` | scheduler.py:38-39 | after the wait the clock is no earlier than before it and no earlier than `interval` after the previous shot; the wait ends at one of those two times |
| `LegacyScheduler.Shots` | scheduler.py:40-48 | from a positive count, the loop delivers between one and all of the remaining shots and counts each off; it reports done exactly when the interval is at most SEEK_TIME, and then the count is 0; a count of 0 or less is done with nothing delivered |
| `LegacyScheduler.Execute` | scheduler.py:30-48 | a run makes no camera command or callback exactly when the action is expired |
| `LegacyScheduler.ExecuteExpired` | scheduler.py:34 | an expired action reports done with no command or callback and unchanged fields |
| `LegacyScheduler.ExecuteWaits` | scheduler.py:36-40 | a live run first moves to the preset; with shots left, its first shot comes at least SEEK_TIME after the move and at least `interval` after `lastTime`; with none left it waits until the later of those two times, delivers nothing and reports done with its fields unchanged |
| `LegacyScheduler.ExecuteOneShot` | scheduler.py:44-47 | with interval over SEEK_TIME a run takes exactly one shot, records its time in `lastTime`, and reports not done even when the count became 0 |
| `LegacyScheduler.ExecuteAllShots` | scheduler.py:44-48 | with interval at most SEEK_TIME a run takes every remaining shot and reports done |
| `LegacyScheduler.ShotsSpacing` | scheduler.py:40-45 | shots of the loop, appended to a history spaced by `interval` whose last shot is at least `interval` before loop entry, keep it spaced; `lastTime` ends at the latest shot |
| `LegacyScheduler.ExecuteSpacing` | scheduler.py:30-48 | one run keeps the history of shot times spaced by `interval` with `lastTime` at its latest shot, and the count drops by exactly one per callback |
| `LegacyScheduler.RepeatedRunsSpaced` | scheduler.py:38-45 | over any sequence of runs, whatever their start times, consecutive shots within and across runs are at least `interval` apart, and the count drops by one per shot without going below 0 |
| `LegacyScheduler.ShotsAlwaysSpaced` | scheduler.py:38-45 | from any starting state, every pair of consecutive shots of an action is at least `interval` apart |
| `LegacyScheduler.ExecuteAsWritten` | scheduler.py:30-48 | with the expiry test as Python 2 evaluates it, a run makes no camera command or callback exactly when the action has no expiry or is past it |
| `LegacyScheduler.NoExpiryDroppedAsWritten` | scheduler.py:34 | as written, every run of an action without expiry reports done with no command or callback and unchanged fields, so the snapshot queued without expiry is never delivered, where the corrected run would deliver a shot |
| `LegacyScheduler.SnapshotWithoutExpiryServed` | scheduler.py:72 | with no expiry meaning "never expires", the single snapshot queued without expiry is served on its first run: a move, one callback SEEK_TIME later, done |
| `LegacyScheduler.SnapshotAction.constructor` | scheduler.py:13-28 | the fields take the given values, and `lastTime` starts at 0.0 |
| `LegacyScheduler.SnapshotAction.Run` | scheduler.py:30-48 | the returned flag, clock and events, and the new `number` and `lastTime`, are those of `Execute` on the old fields; nothing else changes |
| `LegacyScheduler.SnapshotAction.Shoot` | scheduler.py:40-48 | the shot loop's flag, clock and callbacks, and the new `number` and `lastTime`, are those of `Shots` from the loop's entry |
| `LegacyScheduler.Scheduler.constructor` | scheduler.py:57-60 | the queue starts empty |
| `LegacyScheduler.Scheduler.Snapshot` | scheduler.py:62-73 | appends exactly one new `(action, priority)` with count 1 and the given preset and expiry; earlier entries are unchanged |
| `LegacyScheduler.Scheduler.Interval` | scheduler.py:75-84 | appends exactly one new `(action, priority)` whose count, period and expiry are passed through unchanged |
| `LegacyScheduler.Scheduler.ScheduleThread` | scheduler.py:86-88 | an empty stub: the queue is left as it was |
| `PyDict.Put` | control.py:26-27 | after `d[k] = v`, k maps to v (`PutLookup` and `PutKeys` state the rest) |
| `PyDict.Update` | control.py:28 | after `d.update(e)` the last entry of e is in effect (`UpdateLookup` states the rest) |
| `PyDict.PutLookup` | control.py:26-27 | after `d[k] = v`, k maps to v and every other key keeps its value |
| `PyDict.PutKeys` | control.py:26-27 | `d[k] = v` keeps the key order when k is present and appends k otherwise |
| `PyDict.UpdateLookup` | control.py:28 | after `d.update(e)` the keys stay distinct, every key of e maps to its value in e (overriding d), and every other key keeps its value in d |
| `PyDict.UpdatePair` | control.py:28 | `d.update(e)` with two entries assigns the first, then the second |
| `PyDict.UpdateAbsentPair` | control.py:28 | updating with two different keys that d lacks appends both entries in order, and the keys stay distinct |
| `Control.Dict2Url` | control.py:13-14 | the url is empty exactly when the dict is |
| `Control.Dict2UrlEmpty` | control.py:13-14 | `dict2url` of an empty dict is the empty string |
| `Control.Dict2UrlSegments` | control.py:14 | with no `&` in keys or values, the url of n >= 1 entries has exactly n - 1 `&` and splits on `&` into the n `key=value` segments in iteration order |
| `Control.PairRoundTrip` | control.py:14 | a `key=value` segment splits at its first `=` back into key and value when the key has no `=` |
| `Control.Dict2UrlRoundTrip` | control.py:13-14 | with no `&` in keys or values and no `=` in keys, reading the url back gives the original entries in order |
| `Control.Dict2UrlLength` | control.py:14 | the url's length is the sum of `len(key) + len(value) + 1` over the entries, plus n - 1 |
| `Control.IntString` | control.py:25-27 | `str` of an integer is non-empty, made of decimal digits after a `-` exactly when it is negative |
| `Control.NatStringValue` | control.py:25-27 | the decimal digits of `str(n)` for n >= 0 read back as n, and begin with `0` only for 0 |
| `Control.IntStringValue` | control.py:25-27 | `str(n)` read back as a decimal numeral is n, with no leading zero after the optional `-` |
| `Control.BaseArgs` | control.py:25-27 | before the merge `command` maps to `str(command)`, and there is one entry each for `command`, a truthy `onestep` and a given `degree` (`BaseArgsKeys` and `BaseArgsLookup` state the rest) |
| `Control.BaseArgsKeys` | control.py:25-27 | before the merge the keys are `command`, then `onestep` if it is truthy, then `degree` if it is given |
| `Control.BaseArgsLookup` | control.py:25-27 | before the merge, `command` maps to `str(command)`, `onestep` to `'1'` exactly when truthy, `degree` to `str(degree)` exactly when given, and nothing else is present |
| `Control.BaseArgsFresh` | control.py:25-28 | before the merge the keys are distinct and none is `user` or `pwd` |
| `Control.WithAuth` | control.py:28 | merging the credentials into a dict without `user`/`pwd` appends them in order and keeps keys distinct |
| `Control.ArgsFacts` | control.py:25-28 | the merged argument map has distinct keys in the order `command`, `onestep`?, `degree`?, `user`, `pwd`; the credentials give `user` and `pwd`, and every other key keeps its value from before the merge |
| `Control.ArgsLookup` | control.py:25-28 | after the merge `user` and `pwd` map to the credentials, `command` to `str(command)`, `onestep` to `'1'` exactly when truthy, `degree` to `str(degree)` exactly when given, and no other key is present |
| `Control.AuthLookup` | control.py:21 | the credentials map `user` and `pwd` to the given values and hold nothing else |
| `Control.FoscamControl.constructor` | control.py:18-21 | the url is kept and the credentials are `{'user': user, 'pwd': password}` |
| `Control.FoscamControl.ControlArgs` | control.py:23-28 | the argument map always holds `command`; it holds `onestep` (`'1'`) exactly when `onestep` is truthy and `degree` exactly when it is given; it ends with the credentials; no other key is present and keys are distinct |

## Left out

- HTTP: `urllib.urlopen`, reading and printing responses, and the image fetch
  of `FoscamControl.snapshot` are network I/O. They are left out.
- The request at control.py:29 formats the dict's `repr` into the URL, not
  `dict2url`. The model stops at the argument map and does not connect the two.
- `Control.FoscamControl.constructor` takes the password as a string. With a
  `None` password, control.py:20 raises `TypeError` while building the prompt:
  `'Password for %s@%s>' % user` has two placeholders and one argument, so
  `getpass` is never reached. That path, the one testbench.py:21 takes, is not
  modelled.
- `Control.FoscamControl.ControlArgs` takes `onestep` as a boolean for Python
  truthiness, and `command`/`degree` as integers whose `str` is their decimal
  form.
- Wall-clock time and `time.sleep` become an explicit real-valued clock.
  Floating point is not modelled. Camera commands and callbacks take no time.
- Faults from the camera or the callback (exceptions during a run) are not
  modelled.
- Threads, the worker loop, the priority queue and its ordering, and the idle
  hook are left out. `scheduleThread` and `processQueue` are empty, and
  `PriorityQueue` and `self.append` are not defined in the source. Enqueueing
  appends to a plain sequence. Nothing in the code calls `queueDone`.
- Image bytes and the bodies of callbacks are opaque. A callback is a `Deliver`
  event, and the stored callback, camera object and `cam` fields are not kept.
- The `CameraAction` base class is an abstract stub whose `run` only raises.
- testbench.py (interactive hardware tests) is not part of this model.
- foscamqtt.py (a docstring only) is not part of this model.
- `CamScheduler.SnapshotAction.constructor` requires a non-negative interval,
  because `time.sleep` raises on a negative one. The model does not capture
  that failure mode, which would come after the first shot.
- `CamScheduler.FoscamScheduler.Interval` requires a non-negative period, for
  the same reason.
- `LegacyScheduler.SnapshotAction.constructor` requires the interval to be a
  non-negative number, for the same reason.
- `LegacyScheduler.Scheduler.Interval` requires a non-negative period, and takes
  the expiry as a parameter in place of the unbound name at scheduler.py:83.
- `PyDict.PutKeys`: the key order it states is insertion order, which Python
  3.7 and later guarantee. This code targets Python 2, whose dicts iterate in
  an unspecified hash order. The model fixes insertion order. No modelled
  operation reads that order: its one consumer, the `repr` at control.py:29,
  is left out.
- `PyDict.UpdateAbsentPair`: its "appends both entries in order" clause
  assumes insertion order, as above. Under Python 2's hash order the merged
  argument map of `control` need not iterate `user` and `pwd` last.
- `Control.WithAuth`: its key-order clause assumes insertion order, as above.
- `Control.ArgsFacts`: its key-order clause assumes insertion order, as above.
- `Control.FoscamControl.ControlArgs`: its key-order clause (credentials last)
  assumes insertion order, as above. Its lookups and distinct keys hold in any
  order.
- `CamScheduler.SnapshotAction.Run` keeps the snooze test of line 56 as
  written. The corrected test of the Findings table is used by the spacing
  lemmas, through the flag of `RunRepeatedly`, and not by the class.
- `LegacyScheduler.Scheduler.Snapshot` builds its action with interval 0.0. The
  source leaves the default `None`, and the subtraction at scheduler.py:38
  cannot use `None`.

## Findings

| source | as written | input that shows it | evidently intended | confidence | as-written member | corrected member |
|---|---|---|---|---|---|---|
| scheduler.py:34 | `time.time() > expire`, read as the action's expiry; under Python 2, which this code targets (control.py:30 uses the `print` statement), `None` orders below every number, so the test is true whenever no expiry was given | `Scheduler.snapshot(priority, preset, callback)` with the default `expire=None`: its first run reports done before `goto_preset`, and the callback is never invoked | `None` means "no expiration" (docstring at scheduler.py:70); camscheduler.py:54 adds the `is not None` guard | medium, not executed | `LegacyScheduler.NoExpiryDroppedAsWritten` | `LegacyScheduler.SnapshotWithoutExpiryServed` |
| camscheduler.py:56-67 | `nextTime` is set to the shot time plus `interval - SEEK_TIME` (line 67), and the snooze test lets the action run from `nextTime - SEEK_TIME` on (line 56): SEEK_TIME is taken off twice, so the next shot can come `interval - SEEK_TIME` after the last | `interval(priority, preset, callback, 2, 50)` popped at 0 and at 30, after its first run has returned at 20: shots at 20 and 50, 30 s apart | shots at least `interval` apart, as the docstrings say ("interval between snapshots", line 38; "seconds between pictures", line 98); the corrected pass snoozes until `nextTime`. Dropping the `- SEEK_TIME` of line 67 instead gives the same shot times | medium, not executed | `CamScheduler.SeriesTooCloseAsWritten` | `CamScheduler.SeriesSpacedIntended` |
