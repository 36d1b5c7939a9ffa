/**
 * The `PomodoroTimer` component as an object: its state fields, the host's
 * live intervals and the completion counter are fields of one class, and each
 * handler updates them in place. Every method is specified by the matching
 * transition of TimerModel, whose properties are proved there.
 */
module Pomodoro {
  import opened Wrappers
  import opened TimerModel
  import Notifier
  import TimeText

  class PomodoroTimer {
    var timer: Option<Handle>
    var live: set<Handle>
    var nextHandle: Handle
    var intervalType: IntervalType
    var workTime: int
    var breakTime: int
    var time: int
    var isRunning: bool
    var completions: nat

    function State(): Timer
      reads this
    {
      Timer(timer, live, nextHandle, intervalType, workTime, breakTime, time, isRunning, completions)
    }

    predicate Valid()
      reads this
    {
      TimerModel.Valid(State())
    }

    /** `constructor`: work interval of 25:00, break of 05:00, not running. */
    constructor ()
      ensures Valid() && State() == Initial()
    {
      timer := None;
      live := {};
      nextHandle := 0;
      intervalType := Work;
      workTime := 1500;
      breakTime := 300;
      time := 1500;
      isRunning := false;
      completions := 0;
    }

    /** `startTimer`: nothing while running, otherwise one new interval. */
    method StartTimer()
      requires Valid()
      modifies this
      ensures Valid() && State() == Start(old(State()))
    {
      if isRunning {
        return;
      }
      var h := nextHandle;
      nextHandle := nextHandle + 1;
      live := live + {h};
      timer := Some(h);
      isRunning := true;
    }

    /** `stopTimer`: clear the stored interval and forget its handle. */
    method StopTimer()
      requires Valid()
      modifies this
      ensures Valid() && State() == Stop(old(State()))
    {
      live := ClearInterval(live, timer);
      timer := None;
      isRunning := false;
    }

    /** `resetTimer` */
    method ResetTimer()
      requires Valid()
      modifies this
      ensures Valid() && State() == Reset(old(State()))
    {
      StopTimer();
      intervalType := Work;
      time := workTime;
      isRunning := false;
    }

    /** `switchInterval`: the other kind at its duration, marked running; no
        interval is started. */
    method SwitchInterval()
      requires Valid()
      modifies this
      ensures Valid() && State() == Switch(old(State()))
    {
      intervalType := if intervalType == Work then Break else Work;
      time := if intervalType == Work then workTime else breakTime;
      isRunning := true;
    }

    /** `tick`, as the host calls it through a live interval. On completion it
        returns the cue `playTimerCompleteSound` creates. */
    method Tick() returns (cue: Notifier.CompletionCue?)
      requires Valid() && TickerLive(State())
      modifies this
      ensures Valid() && State() == TimerModel.Tick(old(State()))
      ensures (cue != null) == (old(time) <= 0)
      ensures cue != null ==> fresh(cue) && cue.State() == Notifier.Started()
    {
      var t := time - 1;
      if t < 0 {
        live := ClearInterval(live, timer);
        SwitchInterval();
        completions := completions + 1;
        cue := new Notifier.CompletionCue();
      } else {
        time := t;
        cue := null;
      }
    }

    /** `handleWorkTimeChange` with the text now in the work field. */
    method HandleWorkTimeChange(value: string)
      requires Valid()
      modifies this
      ensures Valid() && State() == WorkTimeChange(old(State()), value)
    {
      var timeInSeconds := TimeText.ParseTimeToSeconds(value);
      workTime := timeInSeconds;
      if intervalType == Work {
        time := timeInSeconds;
      }
    }

    /** `handleBreakTimeChange` with the text now in the break field. */
    method HandleBreakTimeChange(value: string)
      requires Valid()
      modifies this
      ensures Valid() && State() == BreakTimeChange(old(State()), value)
    {
      var timeInSeconds := TimeText.ParseTimeToSeconds(value);
      breakTime := timeInSeconds;
      if intervalType == Break {
        time := timeInSeconds;
      }
    }

    /** The "Set Work Time" button. */
    method SetWorkTime()
      requires Valid()
      modifies this
      ensures Valid() && State() == SelectWork(old(State()))
    {
      intervalType := Work;
      time := workTime;
    }

    /** The "Set Break Time" button. */
    method SetBreakTime()
      requires Valid()
      modifies this
      ensures Valid() && State() == SelectBreak(old(State()))
    {
      intervalType := Break;
      time := breakTime;
    }
  }
}
