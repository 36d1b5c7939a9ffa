# Pomodoro timer: the interval state machine and its time text

This project models the `PomodoroTimer` React component of a single-screen
Pomodoro countdown timer. It also proves properties of that model. The
component has two parts, and the model has both:

- **The interval state machine.** The component state holds `intervalType`
  (work or break), `workTime`, `breakTime`, `time` (seconds left), `isRunning`
  and `timer` (the handle of the host's `setInterval`). It is changed by
  start, stop, reset, the one-second tick, the interval switch, the two
  duration fields and the two "Set Work/Break Time" buttons.
- **The duration text.** `parseTimeToSeconds` reads `"M:S"` text
  permissively. `formatTime` / `formatTimeInput` write seconds as zero-padded
  `MM:SS`.

Modules:

- `Wrappers` (`wrappers.dfy`): `Option`. It stands for `NaN` / `null`.
- `TimeText` (`time_text.dfy`): the text functions. JavaScript's `parseInt`,
  `split`, `toString`, `padStart`, `Math.floor` and `%` are written out on
  unbounded integers.
- `TimeTextExamples` (`time_text_examples.dfy`): worked values of the text
  functions.
- `TimerModel` (`timer_model.dfy`): the component state as a value `Timer`,
  with one transition function per handler. It proves the properties of the
  state machine.
- `Pomodoro` (`pomodoro.dfy`): the component as a class. Its fields are the
  state fields, and its methods update them in place. Each method is specified
  by the matching `TimerModel` transition.
- `Notifier` (`notifier.dfy`): the completion cue of `playTimerCompleteSound`.
  It models the closure counter `playCount` and the `ended` listener.

The host timer is abstract. `timer` is the stored handle. `live` is the set of
handles whose interval the host still fires. `nextHandle` is the handle the
next `setInterval` returns. "A ticker is live" means `live` is non-empty, and
this is kept apart from `isRunning`. Each handler is one atomic state update.
The tick's functional updater and the `setState` it issues count as one step.
`completions` counts the calls of `playTimerCompleteSound`.

What the code does that a reader may not expect:

- **A completed interval stalls the timer.** `tick` clears the interval, and
  `switchInterval` sets `isRunning` to true without starting a new interval.
  After a completion `isRunning` is true while no ticker is live, and
  `startTimer` does nothing. Only stop (or reset) followed by start sets it
  going again (`TimerModel.CompletionStalls`). So `isRunning` does not mean a
  ticker is live. The invariant that holds is one way only: a live ticker
  implies `isRunning`.
- **A full interval takes one tick more than its length.** The switch happens
  when `time - 1 < 0`. A running interval with `T` seconds left shows `00:00`
  after `T` ticks and switches on tick `T + 1` (`TimerModel.IntervalCompletes`).
- **Negative times are not rejected.** `parseTimeToSeconds` accepts a minus
  sign. `formatTime` of a negative number uses JavaScript's floor and truncated
  remainder (`-5` shows as `-1:-5`). Unless the time is a whole number of
  minutes, that text reads back 60 seconds lower
  (`TimeText.NegativeTimeReadsBackLower`); `-60` shows as `-1:00` and reads
  back as itself (`TimeText.NegativeWholeMinutesRoundTrip`).

## Model

| member | source | states |
|---|---|---|
| `TimeText.NatToStringDigits` | src/PomodoroTimer.js:146 | for `n` below 1e21, `n.toString()` is a non-empty digit string denoting `n`; it starts with `0` only for 0; it has one digit iff `n < 10` and at most two iff `n < 100` |
| `TimeText.NatToString` | src/PomodoroTimer.js:146 | no contract of its own; see `NatToStringDigits`, `FormatShape` |
| `TimeText.IntToString` | src/PomodoroTimer.js:146 | no contract of its own: `toString` of a negative number is a minus sign before its magnitude; see `FormatNegativeSmall` |
| `TimeText.Pad2` | src/PomodoroTimer.js:146 | `padStart(2, '0')` has length 2, or the length of `s` when that is longer |
| `TimeText.Pad2Shape` | src/PomodoroTimer.js:146 | the padded text ends with `s` and has only zeros before it |
| `TimeText.PadDigits` | src/PomodoroTimer.js:146 | padding a digit string with zeros keeps its value |
| `TimeText.MinutesPart` | src/PomodoroTimer.js:144 | `Math.floor(t / 60)` is the `m` with `60m <= t < 60m + 60` |
| `TimeText.SecondsPart` | src/PomodoroTimer.js:145 | JavaScript's `t % 60` lies strictly between -60 and 60, has the sign of `t`, and differs from `t` by a multiple of 60 |
| `TimeText.FormatTime` | src/PomodoroTimer.js:143-147 | the rendered time is at least five characters long |
| `TimeText.FormatTimeInput` | src/PomodoroTimer.js:149-153 | `formatTimeInput` gives the same text as `formatTime` for every input |
| `TimeText.FormatNonNegative` | src/PomodoroTimer.js:143-147 | for `t >= 0` the text is `pad2(t / 60) ":" pad2(t % 60)` |
| `TimeText.FormatShape` | src/PomodoroTimer.js:143-147 | for `t >= 0` the text is a minutes field, `:`, and a seconds field of exactly two digits; the fields denote `t / 60` and `t % 60`; the length is 5 iff `t < 6000` |
| `TimeText.FormatFixedWidth` | src/PomodoroTimer.js:143-147 | below 6000 seconds the text is exactly the five characters `M M : S S` of the two-digit minutes and seconds |
| `TimeText.Split` | src/PomodoroTimer.js:93 | `split(":")` gives at least one part, and no part holds the separator |
| `TimeText.SplitJoin` | src/PomodoroTimer.js:93 | joining the parts of a split with the separator gives back the text |
| `TimeText.SplitNoSeparator` | src/PomodoroTimer.js:93 | text without the separator splits into itself alone |
| `TimeText.SplitAtFirst` | src/PomodoroTimer.js:93 | the split of `a ":" b` is `a` followed by the split of `b` |
| `TimeText.TrimStart` | src/PomodoroTimer.js:93 | no contract of its own; see `TrimStartShape`, `ParseIntSkipsSpace` |
| `TimeText.TrimStartShape` | src/PomodoroTimer.js:93 | `parseInt` drops exactly the leading white space: the rest is a suffix that does not start with white space |
| `TimeText.LeadingDigits` | src/PomodoroTimer.js:93 | the length of the longest all-digit prefix |
| `TimeText.ParseDigits` | src/PomodoroTimer.js:93 | no leading digit gives NaN; otherwise a non-negative value |
| `TimeText.ParseInt` | src/PomodoroTimer.js:93 | no contract of its own; see `ParseIntOfDigits`, `ParseIntDigitPrefix`, `ParseIntNegative`, `ParseIntNaN`, `ParseIntNegativeNeedsMinus` |
| `TimeText.ParseIntNegativeNeedsMinus` | src/PomodoroTimer.js:93 | `parseInt(s, 10)` is negative only if `s` holds a minus sign |
| `TimeText.ParseIntOfDigits` | src/PomodoroTimer.js:93 | a non-empty digit string parses to its value |
| `TimeText.ParseIntSkipsSpace` | src/PomodoroTimer.js:93 | leading white space does not change the result |
| `TimeText.ParseIntDigitPrefix` | src/PomodoroTimer.js:93 | the digits at the front are read and whatever follows them is ignored |
| `TimeText.ParseIntNegative` | src/PomodoroTimer.js:93 | a minus sign before digits negates their value |
| `TimeText.ParseIntNaN` | src/PomodoroTimer.js:93 | with no digit after white space and an optional sign the result is NaN |
| `TimeText.OrZero` | src/PomodoroTimer.js:94-95 | no contract of its own: the or-zero default turns NaN into 0 and keeps every number; see `ParseTwoFields`, `ParseSingleField` |
| `TimeText.ParseTimeToSeconds` | src/PomodoroTimer.js:92-97 | no contract of its own; see `ParseTwoFields`, `ParseIgnoresExtraFields`, `ParseSingleField`, `ParseNonNegative`, `RoundTrip` |
| `TimeText.ParseTwoFields` | src/PomodoroTimer.js:92-97 | `a ":" b` reads as `(parseInt(a) or 0) * 60 + (parseInt(b) or 0)` |
| `TimeText.ParseIgnoresExtraFields` | src/PomodoroTimer.js:92-97 | fields after the second do not change the result |
| `TimeText.ParseSingleField` | src/PomodoroTimer.js:92-97 | a single field is read as minutes |
| `TimeText.ParseNonNegative` | src/PomodoroTimer.js:92-97 | text without a minus sign never yields a negative duration |
| `TimeText.ParseDigitFields` | src/PomodoroTimer.js:92-97 | two digit fields read as `minutes * 60 + seconds` |
| `TimeText.RoundTrip` | src/PomodoroTimer.js:92-97 | for `t >= 0`, parsing `formatTime(t)` gives `t` back |
| `TimeText.ParseNegativeFieldPair` | src/PomodoroTimer.js:92-97 | `-M:-S` with digit fields `M` and `S` reads as `-60 * M - S` |
| `TimeText.NegativeWholeMinutesRoundTrip` | src/PomodoroTimer.js:92-97 | a negative whole number of minutes `-60k` shows as `-k:00` and reads back as itself |
| `TimeText.FormatNegativeFields` | src/PomodoroTimer.js:143-147 | a negative time that is not a whole number of minutes shows as `-` minutes rounded down, `:`, `-` seconds: both fields negative |
| `TimeText.NegativeTimeReadsBackLower` | src/PomodoroTimer.js:92-97 | every negative time that is not a whole number of minutes reads back exactly 60 seconds lower |
| `TimeTextExamples.FormatZero` | src/PomodoroTimer.js:143-147 | `formatTime(0)` is `00:00` |
| `TimeTextExamples.FormatSeconds` | src/PomodoroTimer.js:143-147 | `formatTime(59)` is `00:59` |
| `TimeTextExamples.FormatMinuteAndSecond` | src/PomodoroTimer.js:143-147 | `formatTime(61)` is `01:01` |
| `TimeTextExamples.FormatDefaultBreak` | src/PomodoroTimer.js:143-147 | `formatTime(300)` is `05:00` |
| `TimeTextExamples.FormatDefaultWork` | src/PomodoroTimer.js:143-147 | `formatTime(1500)` is `25:00` |
| `TimeTextExamples.FormatWide` | src/PomodoroTimer.js:143-147 | 100 minutes widen the minutes field: `100:00` |
| `TimeTextExamples.FormatNegative` | src/PomodoroTimer.js:143-147 | `formatTime(-5)` is `-1:-5` |
| `TimeTextExamples.FormatNegativeSmall` | src/PomodoroTimer.js:143-147 | a time between -59 and -1 renders as `-1:-` followed by its magnitude |
| `TimeTextExamples.ParseDefaultWork` | src/PomodoroTimer.js:92-97 | `"25:00"` reads as 1500 |
| `TimeTextExamples.ParseShortFields` | src/PomodoroTimer.js:92-97 | `"5:0"` reads as 300 |
| `TimeTextExamples.ParseEmpty` | src/PomodoroTimer.js:92-97 | `""` reads as 0 |
| `TimeTextExamples.ParseMinutesOnly` | src/PomodoroTimer.js:92-97 | `"10"` reads as 600 |
| `TimeTextExamples.ParseMinusOne` | src/PomodoroTimer.js:93 | `parseInt("-1")` is -1 |
| `TimeTextExamples.NegativeTimeDoesNotRoundTrip` | src/PomodoroTimer.js:143-147 | `formatTime(-5)` reads back as -65, not -5 |
| `TimerModel.Initial` | src/PomodoroTimer.js:8-16 | no contract of its own; see `InitialValid`, `FirstPomodoro` |
| `TimerModel.Start` | src/PomodoroTimer.js:21-25 | no contract of its own; see `StartWhileRunning`, `StartWhileStopped`, `StartTwice` |
| `TimerModel.Stop` | src/PomodoroTimer.js:26-29 | no contract of its own; see `StopIsPause`, `StopTwice`, `StartThenStop` |
| `TimerModel.Reset` | src/PomodoroTimer.js:30-38 | no contract of its own; see `ResetFromAnyState` |
| `TimerModel.Switch` | src/PomodoroTimer.js:39-45 | no contract of its own; see `OtherTwice`, `TickCompletes` |
| `TimerModel.Tick` | src/PomodoroTimer.js:46-58 | no contract of its own; see `TickCountsDown`, `TickCompletes`, `IntervalCompletes`, `CompletionStalls` |
| `TimerModel.WorkTimeChange` | src/PomodoroTimer.js:74-81 | no contract of its own; see `WorkTimeChangeEffect`, `WorkFieldStable` |
| `TimerModel.BreakTimeChange` | src/PomodoroTimer.js:83-90 | no contract of its own; see `BreakTimeChangeEffect`, `BreakFieldStable` |
| `TimerModel.SelectWork` | src/PomodoroTimer.js:125 | no contract of its own; see `SelectEffect` |
| `TimerModel.SelectBreak` | src/PomodoroTimer.js:136 | no contract of its own; see `SelectEffect` |
| `TimerModel.InitialValid` | src/PomodoroTimer.js:6-17 | the initial state keeps the ticker invariant, has no live ticker, and has the time within range (`InRange`) |
| `TimerModel.AtMostOneTicker` | src/PomodoroTimer.js:21-29 | under the invariant at most one interval is live, and a live one is the stored handle |
| `TimerModel.TransitionsKeepValid` | src/PomodoroTimer.js:21-90 | every handler keeps the ticker invariant |
| `TimerModel.StartWhileRunning` | src/PomodoroTimer.js:22 | `startTimer` while running changes nothing |
| `TimerModel.StartWhileStopped` | src/PomodoroTimer.js:21-25 | `startTimer` while stopped sets `isRunning` and makes exactly one new handle live and stored; the countdown and durations are unchanged |
| `TimerModel.StartTwice` | src/PomodoroTimer.js:21-25 | from a stopped timer, pressing start twice is the same as once: one live interval |
| `TimerModel.StopIsPause` | src/PomodoroTimer.js:26-29 | `stopTimer` releases the interval and clears `isRunning`; `time`, `intervalType` and both durations are unchanged |
| `TimerModel.StartThenStop` | src/PomodoroTimer.js:21-29 | start then stop gives back the state before, except the used-up handle |
| `TimerModel.StopTwice` | src/PomodoroTimer.js:26-29 | stop is idempotent |
| `TimerModel.ResetFromAnyState` | src/PomodoroTimer.js:30-38 | from any state: work, `time = workTime`, not running, no live ticker, durations kept; reset is idempotent |
| `TimerModel.OtherTwice` | src/PomodoroTimer.js:41 | the flip changes the kind, and flipping twice restores it |
| `TimerModel.TickCountsDown` | src/PomodoroTimer.js:46-56 | with `time >= 1` a tick decrements `time` and changes nothing else |
| `TimerModel.TickCompletes` | src/PomodoroTimer.js:39-56 | with `time <= 0` a tick flips the kind, loads its duration, adds one completion, leaves `isRunning` true and no ticker live |
| `TimerModel.TickNegativeOnlyFromDuration` | src/PomodoroTimer.js:46-56 | a tick commits a negative time only when it switches to a negative configured duration |
| `TimerModel.CountDown` | src/PomodoroTimer.js:46-56 | `n <= time` ticks subtract `n` from `time` and change nothing else |
| `TimerModel.CountDownThenOne` | src/PomodoroTimer.js:46-56 | `n + 1` ticks are `n` countdown ticks followed by one more |
| `TimerModel.IntervalCompletes` | src/PomodoroTimer.js:39-56 | with `T` seconds left, `T` ticks reach `00:00` of the same kind, and tick `T + 1` switches with one completion |
| `TimerModel.CompletionStalls` | src/PomodoroTimer.js:21-56 | after a completion the timer says it is running, start does nothing, no tick arrives; stop then start makes a ticker live again |
| `TimerModel.FirstPomodoro` | src/PomodoroTimer.js:8-16 | from the initial state, start and 1500 ticks show `00:00` of work; tick 1501 gives a 300-second break and one completion |
| `TimerModel.WorkTimeChangeEffect` | src/PomodoroTimer.js:74-81 | the parsed text is stored in `workTime`, and in `time` only during work; `isRunning`, the ticker and the other fields are unchanged |
| `TimerModel.BreakTimeChangeEffect` | src/PomodoroTimer.js:83-90 | the parsed text is stored in `breakTime`, and in `time` only during break; `isRunning`, the ticker and the other fields are unchanged |
| `TimerModel.WorkFieldStable` | src/PomodoroTimer.js:119-123 | for a non-negative `workTime`, feeding back the text the work field shows keeps every field, except that during work `time` restarts at `workTime` |
| `TimerModel.BreakFieldStable` | src/PomodoroTimer.js:130-134 | for a non-negative `breakTime`, feeding back the text the break field shows keeps every field, except that during break `time` restarts at `breakTime` |
| `TimerModel.SelectEffect` | src/PomodoroTimer.js:125-136 | each button sets its kind and that kind's duration and nothing else; pressing twice equals once |
| `TimerModel.TransitionsKeepInRange` | src/PomodoroTimer.js:21-90 | with non-negative durations, `0 <= time <= current duration` is kept by every handler, by the interval switch, and by an edit whose text reads non-negative |
| `TimerModel.EditWithoutMinusKeepsInRange` | src/PomodoroTimer.js:74-97 | an edit whose text has no minus sign keeps the time in range |
| `Notifier.Started` | src/PomodoroTimer.js:60-61 | no contract of its own; see `StartedReachable`, `CuePlaysThreeTimes` |
| `Notifier.OnEnded` | src/PomodoroTimer.js:62-70 | no contract of its own; see `OnEndedReachable`, `CuePlaysThreeTimes` |
| `Notifier.AfterEnded` | src/PomodoroTimer.js:62-71 | no contract of its own; see `AfterEndedReachable`, `CuePlaysThreeTimes` |
| `Notifier.StartedReachable` | src/PomodoroTimer.js:59-72 | a new cue is in a reachable state |
| `Notifier.OnEndedReachable` | src/PomodoroTimer.js:62-70 | an `ended` event keeps the cue reachable, and it is never played more than three times |
| `Notifier.AfterEndedReachable` | src/PomodoroTimer.js:59-73 | any number of `ended` events keeps the cue reachable with at most three plays |
| `Notifier.CuePlaysThreeTimes` | src/PomodoroTimer.js:59-73 | after `n` endings the sound has played `n + 1` times while `n < 3`; from the third ending on it has played three times and the listener is detached |
| `Notifier.CompletionCue.constructor` | src/PomodoroTimer.js:60-72 | a new cue: counter 0, one play, listener attached |
| `Notifier.CompletionCue.Ended` | src/PomodoroTimer.js:62-70 | the listener updates the cue as `OnEnded` does and keeps it reachable with at most three plays |
| `Pomodoro.PomodoroTimer.constructor` | src/PomodoroTimer.js:6-17 | the initial state: work, 1500 and 300 seconds, not running, no handle |
| `Pomodoro.PomodoroTimer.StartTimer` | src/PomodoroTimer.js:21-25 | the new state is `Start` of the old one, and the ticker invariant is kept |
| `Pomodoro.PomodoroTimer.StopTimer` | src/PomodoroTimer.js:26-29 | the new state is `Stop` of the old one, and the ticker invariant is kept |
| `Pomodoro.PomodoroTimer.ResetTimer` | src/PomodoroTimer.js:30-38 | the new state is `Reset` of the old one, and the ticker invariant is kept |
| `Pomodoro.PomodoroTimer.SwitchInterval` | src/PomodoroTimer.js:39-45 | the new state is `Switch` of the old one, and the ticker invariant is kept |
| `Pomodoro.PomodoroTimer.Tick` | src/PomodoroTimer.js:46-58 | the new state is `Tick` of the old one; a new completion cue is returned exactly when the interval completes |
| `Pomodoro.PomodoroTimer.HandleWorkTimeChange` | src/PomodoroTimer.js:74-81 | the new state is `WorkTimeChange` of the old one and the text |
| `Pomodoro.PomodoroTimer.HandleBreakTimeChange` | src/PomodoroTimer.js:83-90 | the new state is `BreakTimeChange` of the old one and the text |
| `Pomodoro.PomodoroTimer.SetWorkTime` | src/PomodoroTimer.js:125 | the new state is `SelectWork` of the old one |
| `Pomodoro.PomodoroTimer.SetBreakTime` | src/PomodoroTimer.js:136 | the new state is `SelectBreak` of the old one |

## Left out

- `render` and the JSX, apart from the two button handlers and the values of the duration fields. This is presentation only.
- `src/App.js` only mounts the component and holds no logic. src/App.js is not part of this model.
- `componentWillUnmount` and the real `setInterval` / `clearInterval` timing. These are host timer I/O. Intervals are handles in the `live` set, and the host's firing is the `Tick` method, which may be called only while a ticker is live.
- The `Audio` object and the sound asset. These are browser calls. A play is counted as `plays` in `Notifier`, and a completion is counted as `completions` in the timer state.
- The `isTimerComplete` field. It is written but never read.
- React's batching and asynchronous `setState`. Each handler is one atomic update, and `this.state` is read as the committed state before the handler.
- JavaScript numbers are IEEE doubles; the model uses unbounded integers throughout: the state fields `time`, `workTime` and `breakTime`, the tick's `time - 1`, `minutes * 60 + seconds`, `Math.floor` in `MinutesPart`, and `toString` in `NatToString` and `FormatTime`. Values beyond 2^53 (rounding), at or above 1e21 (where `toString` switches to exponent form, so the text is no longer a plain digit string) and infinite values (a duration whose value reaches about 1.8e308 becomes `Infinity`; for the minutes field, which is multiplied by 60, this happens from about 3e306; the tick never counts `Infinity` down, and it shows as `Infinity:NaN`) are not modelled.
- `TimerModel.WorkFieldStable`: is proved for a non-negative `workTime` only; a negative duration that is not a whole number of minutes shows as text such as `-1:-5`, which reads back 60 seconds lower (`TimeText.NegativeTimeReadsBackLower`).
- `TimerModel.BreakFieldStable`: is proved for a non-negative `breakTime` only, for the same reason.
- `TimeText.ParseInt`: does not model the IEEE double result of `parseInt`. Integers are unbounded, so numbers beyond 2^53 are not rounded, and `-0` is the integer 0.
- `TimeText.ParseInt`: does not model the other radix forms; only base 10 is used by the component.
