/**
 * The completion cue played by `playTimerCompleteSound`: one `Audio` object, a
 * closure counter `playCount` and an `ended` listener that replays the sound.
 * The sound itself is not modelled; a play is counted each time `audio.play()`
 * is called, and the listener is a flag that says whether it is still attached.
 */
module Notifier {

  /** One cue: the closure counter, the number of `audio.play()` calls so far,
      and whether the `ended` listener is still attached. */
  datatype Cue = Cue(playCount: int, plays: nat, listening: bool)

  /** A new cue: `playCount = 0`, listener attached, first `audio.play()`. */
  function Started(): Cue
  {
    Cue(0, 1, true)
  }

  /** The listener's reaction to one `ended` event. The counter is bumped once
      before the test and once more after each replay. */
  function OnEnded(c: Cue): Cue
  {
    var playCount := c.playCount + 1;
    if playCount <= 3 then Cue(playCount + 1, c.plays + 1, c.listening)
    else Cue(playCount, c.plays, false)
  }

  /** The cue after `n` more `ended` events; once the listener is detached the
      events no longer reach it. */
  function AfterEnded(c: Cue, n: nat): Cue
    decreases n
  {
    if n == 0 || !c.listening then c else AfterEnded(OnEnded(c), n - 1)
  }

  /** The states a cue passes through: two increments per replay while
      listening, and 5 once the listener has let go after the third play. */
  predicate Reachable(c: Cue)
  {
    if c.listening then 1 <= c.plays <= 3 && c.playCount == 2 * (c.plays - 1)
    else c.plays == 3 && c.playCount == 5
  }

  lemma StartedReachable()
    ensures Reachable(Started())
  {
  }

  /** An `ended` event keeps the cue within its reachable states, so the sound
      is never played more than three times. */
  lemma OnEndedReachable(c: Cue)
    requires Reachable(c) && c.listening
    ensures Reachable(OnEnded(c))
    ensures OnEnded(c).plays <= 3
  {
  }

  lemma {:induction false} AfterEndedReachable(c: Cue, n: nat)
    requires Reachable(c)
    ensures Reachable(AfterEnded(c, n)) && AfterEnded(c, n).plays <= 3
    decreases n
  {
    if n > 0 && c.listening {
      OnEndedReachable(c);
      AfterEndedReachable(OnEnded(c), n - 1);
    }
  }

  /** One play plus two replays: after `n` endings of a new cue the sound has
      been played `n + 1` times while `n < 3`, and from the third ending on the
      listener is detached after exactly three plays. */
  lemma {:induction false} CuePlaysThreeTimes(n: nat)
    ensures AfterEnded(Started(), n) ==
      if n < 3 then Cue(2 * n, n + 1, true) else Cue(5, 3, false)
  {
    var c1 := OnEnded(Started());
    var c2 := OnEnded(c1);
    var c3 := OnEnded(c2);
    assert c1 == Cue(2, 2, true) && c2 == Cue(4, 3, true) && c3 == Cue(5, 3, false);
    if n >= 3 {
      assert AfterEnded(Started(), n) == AfterEnded(c1, n - 1);
      assert AfterEnded(c1, n - 1) == AfterEnded(c2, n - 2);
      assert AfterEnded(c2, n - 2) == AfterEnded(c3, n - 3);
    } else if n == 2 {
      assert AfterEnded(Started(), 2) == AfterEnded(c1, 1);
      assert AfterEnded(c1, 1) == AfterEnded(c2, 0);
    } else if n == 1 {
      assert AfterEnded(Started(), 1) == AfterEnded(c1, 0);
    }
  }

  /** The cue object that `playTimerCompleteSound` creates. */
  class CompletionCue {
    var playCount: int
    var plays: nat
    var listening: bool

    function State(): Cue
      reads this
    {
      Cue(playCount, plays, listening)
    }

    /** `new Audio(...)`, `let playCount = 0`, `addEventListener('ended', ...)`,
        `audio.play()`. */
    constructor ()
      ensures State() == Started()
    {
      playCount := 0;
      plays := 1;
      listening := true;
    }

    /** The `ended` listener `playSound`; only an attached listener is called. */
    method Ended()
      requires listening
      modifies this
      ensures State() == OnEnded(old(State()))
      ensures Reachable(old(State())) ==> Reachable(State()) && plays <= 3
    {
      if Reachable(State()) {
        OnEndedReachable(State());
      }
      playCount := playCount + 1;
      if playCount <= 3 {
        plays := plays + 1;
        playCount := playCount + 1;
      } else {
        listening := false;
      }
    }
  }
}
