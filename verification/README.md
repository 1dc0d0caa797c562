# Stopwatch, countdown timer and alarm: a verified model

This project models the time-keeping core of a small Tk desktop utility with three tabs. Each tab is modelled as its own state machine.

- **Stopwatch** (`StopwatchFrame`) counts up. Start resumes from the time already accumulated. A periodic update shows `MM:SS.cc`. Lap records the text on display. Reset clears the time and the laps.
- **Countdown timer** (`TimerFrame`) reads hours, minutes and seconds from three entries. It counts down one second per tick, showing `HH:MM:SS`. At zero it stops and raises "Time's up!".
- **Alarm** (`AlarmFrame`) reads a time of day and arms itself for the next occurrence of that time. A once-a-second check raises "Wake up!" when the target is reached.

Each component is an immutable `State` record with pure transition functions. Operations that read the clock take an integer `now`:

- the stopwatch clock counts centiseconds;
- the alarm clock counts seconds, with days of exactly 86400 seconds.

Tk's `after`/`after_cancel` become an explicit scheduler per component (module `Scheduler`). The scheduler holds the set of pending callback handles and a counter for fresh ones. A callback runs only while its handle is pending. The alerts (message box and bell) are counted in an `alerts` field.

Modules, one file each:

| file | module | what |
|---|---|---|
| opt.dfy | `Opt` | `Option`, for attributes that start as `None` |
| fields.dfy | `Fields` | an entry is `Empty`, `Num(n)` or `Bad`, after what Python's `int()` makes of it |
| scheduler.dfy | `Scheduler` | pending handles of scheduled callbacks |
| display.dfy | `Display` | decimal digits, Python's `{:02d}`, the `HH:MM:SS` and `MM:SS.cc` texts and their readers |
| stopwatch.dfy | `Stopwatch` | `StopwatchFrame.update/start/stop/lap/reset` |
| countdown.dfy | `Countdown` | `TimerFrame.start/countdown/pause/reset` |
| alarm.dfy | `Alarm` | `AlarmFrame.set_alarm/check_alarm/cancel_alarm` |

Each component also has an `Event` type and a `Run` function over any sequence of button presses and scheduler callbacks. `Run` carries the component's reachable-state invariant `Inv`.

Where the documented behaviour of the tool and its code disagree, the model follows the code:

- A countdown Start whose total is zero or negative is refused. By then, however, `total_seconds` has already been overwritten with that total (timer.py:124, 129-131). It is not "left unchanged".
- Cancel Alarm works in every state, not only when armed (timer.py:236-241).
- Hours, minutes or seconds outside a valid time of day are not silently accepted. `datetime.replace` raises an error that the handler does not catch (timer.py:212). This is modelled as the outcome `OutOfRange`, with the state unchanged.
- Setting the alarm while it is armed starts a second check loop, and the first is not cancelled (timer.py:220, 230). So an alarm component can have more than one pending callback. `Alarm.SetWhileArmedAddsLoop` shows this.
- Pause followed by Start does not resume the countdown. Start reads the entries again (timer.py:121-124).
- While the countdown runs, the label shows one second more than `total_seconds`. Each tick shows the remaining time and only then takes the second off (timer.py:141, 148).
- Stop does not read the clock again. The stopwatch keeps the elapsed time of its last update (timer.py:41, 55-60).

## Model

| member | source | states |
|---|---|---|
| Fields.Read | timer.py:121 | An entry gives a number exactly when it is not unreadable: an empty entry gives 0, a numeral gives its value |
| Fields.ReadThree | timer.py:121-125 | Three entries give numbers exactly when none is unreadable; an empty entry counts as 0 |
| Scheduler.After | timer.py:46 | Scheduling adds exactly one handle, which is fresh, to the pending set and keeps the handles valid |
| Scheduler.Remove | timer.py:59 | A cancelled or completed handle leaves the pending set and nothing else does |
| Display.Decimal | timer.py:66 | Python's decimal rendering: digits only, no leading zero except for 0, one digit exactly below 10 |
| Display.ValueOfDecimal | timer.py:66 | The decimal rendering of n reads back as n |
| Display.Pad2 | timer.py:45 | `{:02d}`: a non-negative number becomes digits that read back as it, exactly two of them below 100; a negative one becomes a sign followed by its digits; from 10 up it is exactly the plain decimal text, with no leading zero |
| Display.SplitHms | timer.py:138-140 | hours*3600 + minutes*60 + seconds equals the count, with minutes and seconds below 60 |
| Display.SplitHmsUnique | timer.py:138-140 | This is the only split with minutes and seconds below 60 |
| Display.HmsText | timer.py:138-141 | The `HH:MM:SS` text reads back as exactly the count of seconds it was made from, has the canonical layout (hours in at least two digits with no leading zero beyond two, minutes and seconds below 60), and is 8 characters wide exactly below 100 hours |
| Display.DigitsAreDecimal | timer.py:141 | A digit string with no leading zero, or the single digit 0, is Python's decimal text of its value |
| Display.DigitsArePad2 | timer.py:141 | A digit string of at least two characters, zero-padded only up to two, is the `{:02d}` text of its value |
| Display.CanonicalIsClockText | timer.py:141 | A text with the canonical clock layout is the clock text of the values of its three groups |
| Display.HmsTextExactly | timer.py:138-141 | A text is the countdown text of r exactly when it has the canonical layout and reads back as r, so no other text, such as "00:60:00" or "0100:00:00", stands for r |
| Display.SplitCentis | timer.py:42-44 | Minutes and seconds floor the elapsed time to a whole second below 60; centiseconds are truncated toward zero, lie in 0..99 for a non-negative time and in -99..0 for a negative one, and make the split exact when the time is non-negative |
| Display.CentisText | timer.py:42-45 | The `MM:SS.cc` text of a non-negative elapsed time reads back as exactly that time |
| Display.SplitCentisUnique | timer.py:42-44 | For a non-negative elapsed time, the split is the only one with seconds below 60 and centiseconds below 100 |
| Display.CentisTextFields | timer.py:42-45 | The stopwatch text of a non-negative elapsed time has the canonical layout: minutes in at least two digits with no leading zero beyond two, seconds below 60, centiseconds below 100 |
| Display.CentisTextExactly | timer.py:42-45 | A text is the stopwatch text of a non-negative elapsed time c exactly when it has the canonical layout and reads back as c, so "00:60.00" does not stand for 6000 |
| Display.ZeroCentisText | timer.py:74 | The stopwatch's reset text "00:00.00" is the text of zero elapsed time |
| Display.ZeroHmsText | timer.py:161 | The countdown's reset text "00:00:00" is the text of zero seconds |
| Stopwatch.Init | timer.py:32-36 | The new stopwatch is stopped at zero with no laps, and satisfies the invariant |
| Stopwatch.Update | timer.py:38-46 | Stopped: nothing changes. Running: elapsed is now minus the start reference, the display shows it, and exactly one fresh update is scheduled |
| Stopwatch.Fire | timer.py:38-46 | A handle that is not pending changes nothing. A pending handle while stopped is only used up. A pending handle while running sets elapsed to now minus the start reference, shows it, and replaces itself with exactly one fresh pending update, keeping laps and start reference |
| Stopwatch.Start | timer.py:48-53 | Ignored while running. Otherwise it runs from a reference chosen so that the elapsed time is kept, shows that time, and schedules one update |
| Stopwatch.CancelUpdate | timer.py:58-60 | The held handle, if any, is cancelled and forgotten; nothing else changes |
| Stopwatch.Stop | timer.py:55-60 | Ignored while stopped. Otherwise: stopped, no handle held, the held update's handle removed from the pending set, and elapsed time, display, laps, lap list and start reference unchanged |
| Stopwatch.Lap | timer.py:62-66 | Ignored while stopped. Otherwise it appends the text on display to the laps and lists it under the next lap number; nothing else changes |
| Stopwatch.Reset | timer.py:68-76 | From any state: stopped, no handle held, elapsed 0, no laps, empty list, display "00:00.00", start reference kept. A held update is removed from the pending set; with none held the scheduler is untouched; from a state satisfying the invariant nothing is left pending |
| Stopwatch.LapKeepsInv | timer.py:62-66 | Lap keeps the lap list numbered 1, 2, ... in step with the recorded laps |
| Stopwatch.StepKeepsInv | timer.py:38-76 | Every operation and callback preserves the invariant: one pending update exactly while running, the display is the text of the elapsed time, and the list shows the laps |
| Stopwatch.Run | timer.py:38-76 | Any sequence of presses and callbacks from a reachable state reaches a state that satisfies the invariant |
| Stopwatch.ResumeAccumulates | timer.py:48-53 | Restarted at t0 and updated at t, the elapsed time is the earlier elapsed time plus t - t0 |
| Stopwatch.UpdatesDoNotAccumulate | timer.py:38-41 | Two updates in a row leave the same elapsed time and display as the second one alone |
| Stopwatch.Replay | timer.py:38-60 | After any series of start, update, stop sessions, the elapsed time is the earlier one plus the sum of the sessions' measured spans, and the stopwatch is stopped |
| Stopwatch.LapsNumbered | timer.py:62-66 | The k-th recorded lap is listed as "Lap k: " followed by its text |
| Stopwatch.OneAndAHalfSeconds | timer.py:38-60 | Started at any time and stopped after an update 1.5 s later, the display is "00:01.50" |
| Stopwatch.CentisTextOf150 | timer.py:42-45 | 150 centiseconds are shown as "00:01.50" |
| Countdown.Init | timer.py:114-116 | The new timer is stopped at total 0 with no alert, and satisfies the invariant |
| Countdown.Countdown | timer.py:136-149 | Only acts while running with a non-negative total. At 0 it shows 0, stops, raises one alert and schedules nothing. Above 0 it shows the total, takes exactly one second off and schedules one fresh tick |
| Countdown.Fire | timer.py:136-149 | A handle that is not pending changes nothing. A pending tick on a stopped timer is only used up. At total 0 it stops, shows 0 and raises exactly one alert, leaving nothing new pending. Above 0 it shows the total, takes exactly one second off and replaces itself with one fresh tick. An alert is raised exactly in the zero case |
| Countdown.Start | timer.py:118-134 | Ignored while running. An unreadable entry is reported and changes nothing. A non-positive total is reported after overwriting the total. A positive total starts the countdown, shows it, and leaves one second less with one tick pending |
| Countdown.Pause | timer.py:151-156 | Ignored while stopped. Otherwise it stops and cancels the held tick, keeping total, label and alerts |
| Countdown.Reset | timer.py:158-161 | From any state: stopped, total 0, label 0, alerts kept; a running timer's held tick is cancelled and its handle cleared, and a stopped timer's scheduler is untouched |
| Countdown.ZeroLabel | timer.py:158-161 | The label reads "00:00:00" at start-up, after Reset, and whenever it shows zero |
| Countdown.StartKeepsInv | timer.py:118-134 | Start preserves the invariant |
| Countdown.FireKeepsInv | timer.py:136-149 | A tick preserves the invariant |
| Countdown.StepKeepsInv | timer.py:118-161 | Every operation and tick preserves the invariant: while running, the total is non-negative, exactly one tick is pending, and the label shows total + 1; while stopped, nothing is pending |
| Countdown.Run | timer.py:118-161 | Any sequence of presses and ticks from a reachable state keeps the invariant and never lowers the alert count |
| Countdown.TicksCountDown | timer.py:143-149 | After n ticks, with n at most the total, the timer still runs with exactly n seconds less and no new alert |
| Countdown.StoppedIgnoresTicks | timer.py:143-146 | A stopped timer has nothing pending, so ticks change nothing |
| Countdown.TicksReachZero | timer.py:137-149 | The tick after the last counted second stops the timer at 0 with exactly one alert and nothing pending, and it stays so |
| Countdown.ThreeSeconds | timer.py:118-149 | Set to 0 h 0 min 3 s, the timer still runs after two ticks and raises its one alert, stopped at 0, on the third |
| Countdown.StartExamples | timer.py:118-131 | Entries "", "0", "5" start and show 5 seconds; an unreadable hours entry changes nothing; all entries empty is refused as a zero duration |
| Countdown.StartAfterPauseRereadsEntries | timer.py:118-124 | Start after Pause restarts from the entries, not from what was left |
| Alarm.InRange | timer.py:212 | The fields `now.replace` accepts are exactly those of some second of one day, in the hour/minute/second split of that second |
| Alarm.BannerText | timer.py:219 | "No alarm set" exactly when no alarm is shown. Otherwise it is "Alarm set for " followed by a time in the canonical `HH:MM:SS` layout that reads back as the clock the alarm is set for, which HmsTextExactly shows is that clock's text |
| Alarm.Target | timer.py:211-215 | The target is strictly after now, at most one day later, and has the entered time of day. It falls today exactly when that time is later than now's time of day, and tomorrow otherwise |
| Alarm.CheckAlarm | timer.py:222-230 | Disarmed: nothing happens. Once now reaches the target: one alert, disarmed, label cleared, nothing scheduled. Before it: one fresh check is scheduled and nothing else changes |
| Alarm.Fire | timer.py:230 | A check raises an alert exactly when its handle is pending, the alarm is armed and the target has been reached, and never more than one |
| Alarm.SetAlarm | timer.py:202-220 | An unreadable entry is reported and changes nothing. An out-of-range time changes nothing. A valid time arms the alarm for its next occurrence, shows it, raises no alert, and adds one pending check |
| Alarm.Cancel | timer.py:236-241 | From any state: disarmed, label cleared, and the held check handle cancelled; the target and the alerts are kept |
| Alarm.Init | timer.py:198-200 | The new alarm is disarmed with no alert, and satisfies the invariant |
| Alarm.StepKeepsInv | timer.py:202-241 | Every operation and check preserves the invariant: an armed alarm has a target, shows its time of day and has a check pending; a disarmed one shows "no alarm" |
| Alarm.Run | timer.py:202-241 | Any sequence of presses and checks from a reachable state keeps the invariant and never lowers the alert count |
| Alarm.DisarmedIsSilent | timer.py:222-223 | From a disarmed alarm, any leftover checks raise no alert, keep it disarmed, and use up their handles without scheduling more |
| Alarm.CancelSilences | timer.py:236-241 | After Cancel Alarm no check raises an alert, including checks of a loop the cancellation missed |
| Alarm.FiresOnce | timer.py:225-229 | Once the target is reached, the next check raises exactly one alert and disarms, and no later check raises another |
| Alarm.CheckBeforeTarget | timer.py:230 | Before the target, a check stays armed, keeps the target, and swaps its own handle for one fresh pending check |
| Alarm.SetAlarmTarget | timer.py:211-219 | For an in-range time, the alarm arms with a target in (now, now + one day], today exactly when the time is later than now's time of day, and the label shows the entered HH:MM:SS |
| Alarm.SetWhileArmedAddsLoop | timer.py:217-220 | Setting while armed leaves the earlier check pending next to the new one, so there is one more pending check |

## Left out

- Widget construction, layout, message boxes and the bell are left out. They are presentation. An alert is the increment of an `alerts` count, and an input error is an outcome value.
- `TimeApp` and `mainloop` are left out. They only wire the three tabs into a window.
- Python's `int()` lexical rules (whitespace, signs, underscores) are left out. An entry is abstracted to `Empty`, `Num(n)` or `Bad`.
- The floating-point clock of `time.time()` is left out. The stopwatch reads an integer centisecond clock. The float rounding of `(e - int(e)) * 100`, which can show one centisecond less, is not modelled.
- Display.SplitCentis: works on whole centiseconds. It therefore does not state the float truncation effects of the source's `int(...)` conversions.
- Time zones and daylight saving time are left out. The alarm's days are exactly 86400 seconds long and start at multiples of 86400. Sub-second precision of `datetime.now()` is dropped. Because the target has zero microseconds, the floor of the real clock compares the same way with it.
- Alarm.FiresOnce: assumes that each check runs to completion before the next callback. In the source, `check_alarm` calls `trigger_alarm` (timer.py:226), which opens a modal message box (timer.py:233), before `alarm_set = False` runs (timer.py:227), and Tk keeps running `after` callbacks while that box is open. With two check loops (timer.py:220, 230), the second loop's check can run while the first box is open, still see the alarm armed, and raise a second "Wake up!". The model does not state this case.
- Stopwatch.Start: reads the clock once, both for the start reference and for the first update. The source reads `time.time()` at timer.py:52 and again at timer.py:40, so the first text it shows can exceed the kept elapsed time by the gap between the two readings. The model's "elapsed time kept and shown" is exact only for one reading.
- Alarm.SetAlarm: reads the clock once, for both the target and the first check. The source's `check_alarm` reads it again microseconds later. With the second reading the first check could in principle already fire, and the model does not state that case.
- The delays passed to `after` (10 ms, 1000 ms) are not modelled. Each tick is a scheduler event that runs one pending handle, and the clock reading comes with the event.
