/**
 * The interval state machine of the `PomodoroTimer` component as values: the
 * component's state together with the part of the host's interval timers it
 * touches, and one function per handler. Each React handler is one atomic
 * state update; the tick updater and the `setState` it issues are one step.
 */
module TimerModel {
  import opened Wrappers
  import TimeText

  datatype IntervalType = Work | Break

  /** A handle returned by the host's `setInterval`. */
  type Handle = nat

  /**
   * `timer`, `intervalType`, `workTime`, `breakTime`, `time` and `isRunning` are
   * the component's state fields (`timer` is `null` or the last handle stored).
   * `live` holds the handles whose interval the host still fires, and
   * `nextHandle` is the handle the host hands out next. `completions` counts
   * the calls of `playTimerCompleteSound`.
   */
  datatype Timer = Timer(
    timer: Option<Handle>,
    live: set<Handle>,
    nextHandle: Handle,
    intervalType: IntervalType,
    workTime: int,
    breakTime: int,
    time: int,
    isRunning: bool,
    completions: nat)

  /** The state set up by the constructor: work, 25:00 and 05:00, not running. */
  function Initial(): Timer
  {
    Timer(None, {}, 0, Work, 1500, 300, 1500, false, 0)
  }

  function Handles(h: Option<Handle>): set<Handle>
  {
    if h.Some? then {h.value} else {}
  }

  /** `clearInterval(h)`: a null or already cleared handle changes nothing. */
  function ClearInterval(live: set<Handle>, h: Option<Handle>): set<Handle>
  {
    live - Handles(h)
  }

  /** The configured duration of an interval kind. */
  function Duration(s: Timer, kind: IntervalType): int
  {
    if kind == Work then s.workTime else s.breakTime
  }

  function Other(kind: IntervalType): IntervalType
  {
    if kind == Work then Break else Work
  }

  /** A ticker is live: the host still fires the tick handler. */
  predicate TickerLive(s: Timer)
  {
    s.live != {}
  }

  /**
   * What every handler keeps: only the stored handle can be live, a live
   * ticker means the component says it is running, a stopped component holds
   * no handle, and every handle was handed out before.
   */
  predicate Valid(s: Timer)
  {
    && s.live <= Handles(s.timer)
    && (TickerLive(s) ==> s.isRunning)
    && (!s.isRunning ==> s.timer == None)
    && (forall h :: h in Handles(s.timer) ==> h < s.nextHandle)
  }

  // ---------------------------------------------------------------------------
  // Transitions

  /** `startTimer` */
  function Start(s: Timer): Timer
  {
    if s.isRunning then s
    else
      var h := s.nextHandle;
      s.(timer := Some(h), live := s.live + {h}, nextHandle := h + 1, isRunning := true)
  }

  /** `stopTimer` */
  function Stop(s: Timer): Timer
  {
    s.(live := ClearInterval(s.live, s.timer), timer := None, isRunning := false)
  }

  /** `resetTimer`: `stopTimer`, then back to a stopped work interval. */
  function Reset(s: Timer): Timer
  {
    Stop(s).(intervalType := Work, time := s.workTime, isRunning := false)
  }

  /** `switchInterval` */
  function Switch(s: Timer): Timer
  {
    var intervalType := Other(s.intervalType);
    s.(intervalType := intervalType, time := Duration(s, intervalType), isRunning := true)
  }

  /** `tick`: count down, or, once the time would drop below zero, clear the
      stored interval, switch and play the completion cue. */
  function Tick(s: Timer): Timer
  {
    var time := s.time - 1;
    if time < 0 then
      Switch(s.(live := ClearInterval(s.live, s.timer))).(completions := s.completions + 1)
    else
      s.(time := time)
  }

  /** `handleWorkTimeChange` */
  function WorkTimeChange(s: Timer, value: string): Timer
  {
    var timeInSeconds := TimeText.ParseTimeToSeconds(value);
    if s.intervalType == Work then s.(workTime := timeInSeconds, time := timeInSeconds)
    else s.(workTime := timeInSeconds)
  }

  /** `handleBreakTimeChange` */
  function BreakTimeChange(s: Timer, value: string): Timer
  {
    var timeInSeconds := TimeText.ParseTimeToSeconds(value);
    if s.intervalType == Break then s.(breakTime := timeInSeconds, time := timeInSeconds)
    else s.(breakTime := timeInSeconds)
  }

  /** The "Set Work Time" button. */
  function SelectWork(s: Timer): Timer
  {
    s.(intervalType := Work, time := s.workTime)
  }

  /** The "Set Break Time" button. */
  function SelectBreak(s: Timer): Timer
  {
    s.(intervalType := Break, time := s.breakTime)
  }

  /** The state after the host has fired up to `n` ticks; the host fires
      only while a ticker is live. */
  function Ticks(s: Timer, n: nat): Timer
    decreases n
  {
    if n == 0 || !TickerLive(s) then s else Ticks(Tick(s), n - 1)
  }

  // ---------------------------------------------------------------------------
  // The invariant

  lemma InitialValid()
    ensures Valid(Initial()) && !TickerLive(Initial())
    ensures InRange(Initial())
  {
  }

  /** Only one interval is ever live, and it is the stored one. */
  lemma AtMostOneTicker(s: Timer)
    requires Valid(s)
    ensures |s.live| <= 1
    ensures TickerLive(s) ==> s.timer.Some? && s.live == {s.timer.value}
  {
    if s.timer.Some? {
      var h := s.timer.value;
      if h in s.live {
        assert s.live == {h};
      } else {
        assert s.live == {};
      }
    } else {
      assert s.live == {};
    }
  }

  lemma TransitionsKeepValid(s: Timer, value: string)
    requires Valid(s)
    ensures Valid(Start(s)) && Valid(Stop(s)) && Valid(Reset(s))
    ensures Valid(Switch(s)) && Valid(Tick(s))
    ensures Valid(WorkTimeChange(s, value)) && Valid(BreakTimeChange(s, value))
    ensures Valid(SelectWork(s)) && Valid(SelectBreak(s))
  {
  }

  // ---------------------------------------------------------------------------
  // Start and stop

  /** Starting a running timer does nothing. */
  lemma StartWhileRunning(s: Timer)
    requires s.isRunning
    ensures Start(s) == s
  {
  }

  /** Starting a stopped timer acquires exactly one new interval, stores its
      handle, and changes nothing else. */
  lemma StartWhileStopped(s: Timer)
    requires Valid(s) && !s.isRunning
    ensures var r := Start(s);
      && r.isRunning && r.timer.Some? && r.timer.value !in s.live
      && r.live == {r.timer.value} && |r.live| == 1
      && r.intervalType == s.intervalType && r.time == s.time
      && r.workTime == s.workTime && r.breakTime == s.breakTime
      && r.completions == s.completions
  {
  }

  /** Pressing start twice leaves one interval running, as pressing it once does. */
  lemma StartTwice(s: Timer)
    requires Valid(s) && !s.isRunning
    ensures Start(Start(s)) == Start(s)
    ensures |Start(Start(s)).live| == 1
  {
    StartWhileStopped(s);
  }

  /** Stopping is a pause: the interval is released and nothing about the
      countdown changes. */
  lemma StopIsPause(s: Timer)
    requires Valid(s)
    ensures var r := Stop(s);
      && !r.isRunning && r.timer == None && !TickerLive(r)
      && r.intervalType == s.intervalType && r.time == s.time
      && r.workTime == s.workTime && r.breakTime == s.breakTime
      && r.completions == s.completions
  {
    AtMostOneTicker(s);
  }

  /** Start followed by stop gives back the state before, apart from the
      handle the host has used up. */
  lemma StartThenStop(s: Timer)
    requires Valid(s) && !s.isRunning
    ensures Stop(Start(s)) == s.(nextHandle := s.nextHandle + 1)
  {
  }

  lemma StopTwice(s: Timer)
    ensures Stop(Stop(s)) == Stop(s)
  {
  }

  /** Reset from any state: a stopped work interval at the full work duration,
      with both durations kept. */
  lemma ResetFromAnyState(s: Timer)
    requires Valid(s)
    ensures var r := Reset(s);
      && r.intervalType == Work && r.time == s.workTime
      && !r.isRunning && r.timer == None && !TickerLive(r)
      && r.workTime == s.workTime && r.breakTime == s.breakTime
      && r.completions == s.completions
    ensures Reset(Reset(s)) == Reset(s)
  {
    StopIsPause(s);
  }

  // ---------------------------------------------------------------------------
  // Ticks

  lemma OtherTwice(kind: IntervalType)
    ensures Other(Other(kind)) == kind && Other(kind) != kind
  {
  }

  /** A tick with time left only counts down. */
  lemma TickCountsDown(s: Timer)
    requires s.time >= 1
    ensures Tick(s) == s.(time := s.time - 1)
  {
  }

  /** A tick at zero (or below) completes the interval: the other kind starts
      at its configured duration, one cue is played, the component still says
      it is running, but the stored interval has been cleared and the handle
      is kept. */
  lemma TickCompletes(s: Timer)
    requires Valid(s) && s.time <= 0
    ensures var r := Tick(s);
      && r.intervalType == Other(s.intervalType)
      && r.time == Duration(s, r.intervalType)
      && r.completions == s.completions + 1
      && r.isRunning && !TickerLive(r) && r.timer == s.timer
      && r.workTime == s.workTime && r.breakTime == s.breakTime
  {
    AtMostOneTicker(s);
  }

  /** A tick commits a negative time only by switching to an interval whose
      configured duration is negative. */
  lemma TickNegativeOnlyFromDuration(s: Timer)
    ensures Tick(s).time < 0 ==>
      Tick(s).intervalType == Other(s.intervalType) && Tick(s).time == Duration(s, Tick(s).intervalType)
  {
  }

  /** Counting down `n` seconds takes `n` ticks and touches nothing but `time`. */
  lemma {:induction false} CountDown(s: Timer, n: nat)
    requires TickerLive(s) && n <= s.time
    ensures Ticks(s, n) == s.(time := s.time - n)
    decreases n
  {
    if n > 0 {
      TickCountsDown(s);
      CountDown(Tick(s), n - 1);
    }
  }

  /** A running interval with `time` seconds left completes on tick number
      `time + 1`: the display shows 00:00 for one tick before the switch. */
  lemma {:induction false} IntervalCompletes(s: Timer)
    requires Valid(s) && TickerLive(s) && s.time >= 0
    ensures var r := Ticks(s, s.time + 1);
      && r.intervalType == Other(s.intervalType)
      && r.time == Duration(s, r.intervalType)
      && r.completions == s.completions + 1
      && r.isRunning && !TickerLive(r)
    ensures Ticks(s, s.time).time == 0 && Ticks(s, s.time).intervalType == s.intervalType
  {
    var z := s.(time := 0);
    CountDown(s, s.time);
    TickCompletes(z);
    assert Ticks(z, 1) == Ticks(Tick(z), 0);
    CountDownThenOne(s, s.time);
  }

  lemma {:induction false} CountDownThenOne(s: Timer, n: nat)
    requires TickerLive(s) && n <= s.time
    ensures Ticks(s, n + 1) == Ticks(s.(time := s.time - n), 1)
    decreases n
  {
    if n > 0 {
      TickCountsDown(s);
      CountDownThenOne(Tick(s), n - 1);
    }
  }

  /**
   * After a completion the timer is stuck: it says it is running, so start
   * does nothing, but no interval is live, so no tick ever arrives. Only stop
   * (or reset) followed by start sets it going again.
   */
  lemma CompletionStalls(s: Timer, n: nat)
    requires Valid(s) && s.time <= 0
    ensures var r := Tick(s);
      && r.isRunning && !TickerLive(r)
      && Start(r) == r
      && Ticks(r, n) == r
      && TickerLive(Start(Stop(r)))
  {
    TickCompletes(s);
  }

  /** From the state the constructor sets up, pressing start and letting 1500
      ticks pass reaches 00:00 of the work interval; the next tick switches to
      a five minute break and plays one cue. */
  lemma FirstPomodoro()
    ensures Ticks(Start(Initial()), 1500).intervalType == Work
    ensures Ticks(Start(Initial()), 1500).time == 0
    ensures Ticks(Start(Initial()), 1501).intervalType == Break
    ensures Ticks(Start(Initial()), 1501).time == 300
    ensures Ticks(Start(Initial()), 1501).completions == 1
  {
    IntervalCompletes(Start(Initial()));
  }

  // ---------------------------------------------------------------------------
  // Changing and selecting durations

  /** Editing the work duration stores the parsed value, and restarts the
      countdown from it only while the work interval is shown. */
  lemma WorkTimeChangeEffect(s: Timer, value: string)
    ensures var r := WorkTimeChange(s, value);
      && r.workTime == TimeText.ParseTimeToSeconds(value)
      && r.time == (if s.intervalType == Work then r.workTime else s.time)
      && r.breakTime == s.breakTime && r.intervalType == s.intervalType
      && r.isRunning == s.isRunning && r.timer == s.timer && r.live == s.live
      && r.nextHandle == s.nextHandle && r.completions == s.completions
  {
  }

  lemma BreakTimeChangeEffect(s: Timer, value: string)
    ensures var r := BreakTimeChange(s, value);
      && r.breakTime == TimeText.ParseTimeToSeconds(value)
      && r.time == (if s.intervalType == Break then r.breakTime else s.time)
      && r.workTime == s.workTime && r.intervalType == s.intervalType
      && r.isRunning == s.isRunning && r.timer == s.timer && r.live == s.live
      && r.nextHandle == s.nextHandle && r.completions == s.completions
  {
  }

  /** Feeding back the text the work field shows keeps every duration; during
      work it also restarts the countdown at the full duration. */
  lemma WorkFieldStable(s: Timer)
    requires s.workTime >= 0
    ensures WorkTimeChange(s, TimeText.FormatTimeInput(s.workTime))
            == if s.intervalType == Work then s.(time := s.workTime) else s
  {
    TimeText.RoundTrip(s.workTime);
  }

  lemma BreakFieldStable(s: Timer)
    requires s.breakTime >= 0
    ensures BreakTimeChange(s, TimeText.FormatTimeInput(s.breakTime))
            == if s.intervalType == Break then s.(time := s.breakTime) else s
  {
    TimeText.RoundTrip(s.breakTime);
  }

  /** The two buttons select a kind and load its duration, and nothing else. */
  lemma SelectEffect(s: Timer)
    ensures SelectWork(s) == s.(intervalType := Work, time := Duration(s, Work))
    ensures SelectBreak(s) == s.(intervalType := Break, time := Duration(s, Break))
    ensures SelectWork(SelectWork(s)) == SelectWork(s)
    ensures SelectBreak(SelectBreak(s)) == SelectBreak(s)
  {
  }

  // ---------------------------------------------------------------------------
  // Time stays within the current interval

  /** Both durations are non-negative and the time left lies between zero and
      the duration of the current interval. */
  predicate InRange(s: Timer)
  {
    && s.workTime >= 0 && s.breakTime >= 0
    && 0 <= s.time <= Duration(s, s.intervalType)
  }

  /** Every handler keeps the time within the current interval, as long as
      the duration text typed in reads as a non-negative number. */
  lemma TransitionsKeepInRange(s: Timer, value: string)
    requires InRange(s)
    ensures InRange(Start(s)) && InRange(Stop(s)) && InRange(Reset(s)) && InRange(Tick(s))
    ensures InRange(Switch(s)) && InRange(SelectWork(s)) && InRange(SelectBreak(s))
    ensures TimeText.ParseTimeToSeconds(value) >= 0 ==>
      InRange(WorkTimeChange(s, value)) && InRange(BreakTimeChange(s, value))
  {
  }

  /** Text without a minus sign keeps the time within range. */
  lemma EditWithoutMinusKeepsInRange(s: Timer, value: string)
    requires InRange(s) && '-' !in value
    ensures InRange(WorkTimeChange(s, value)) && InRange(BreakTimeChange(s, value))
  {
    TimeText.ParseNonNegative(value);
    TransitionsKeepInRange(s, value);
  }
}
