/**
 * The state machine of the countdown game in components/CountdownGame.tsx: the component's
 * state hooks and refs, the START/STOP handler, the "Try Again" handler, the 10 ms interval
 * callback and the duration slider's handler.
 *
 * `Game` is the value of the whole state and the `After…` functions are its transitions;
 * the class `CountdownGame` holds the same state in mutable fields and its methods update
 * them step by step, each proved to perform the corresponding transition. The clock
 * (`Date.now()`) is the `now` parameter of the operations that read it.
 */
module Countdown {
  import opened Wrappers
  import Scoring

  /** The slider's `minimumValue`, `maximumValue` and `step`, in seconds. */
  const MinDuration := 5
  const MaxDuration := 60
  const DurationStep := 5

  /** A run ends by itself once the clock is this many milliseconds past the target. */
  const AutoStopAt := -5000

  /** A duration the slider can produce: 5, 10, …, 60 seconds. */
  predicate ValidDuration(seconds: int) {
    MinDuration <= seconds <= MaxDuration && seconds % DurationStep == 0
  }

  /** The slider offers exactly twelve durations. */
  lemma SliderValues(seconds: int)
    ensures ValidDuration(seconds) <==> seconds in [5, 10, 15, 20, 25, 30, 35, 40, 45, 50, 55, 60]
  {
  }

  /**
   * The component's state. `target` is `targetTimeRef.current`, the instant at which the
   * countdown reaches zero. `closureTimeLeft` is the `timeLeft` that the running interval
   * callback closed over when it was created at the start of the run; the callback never
   * sees a later value.
   */
  datatype Game = Game(
    duration: int,
    timeLeft: int,
    isRunning: bool,
    isVisible: bool,
    finalTime: Option<int>,
    target: Option<int>,
    closureTimeLeft: Option<int>)

  /** The state the hooks and refs start with: 5 s, 5000 ms left, idle, timer shown. */
  function Initial(): (g: Game)
    ensures Inv(g) && g.timeLeft == g.duration * 1000
  {
    Game(5, 5000, false, true, None, None, None)
  }

  /**
   * What the component keeps true at all times: the timer is hidden exactly while running;
   * a run in progress has no final time, and it has a target and an interval callback; the
   * duration is one the slider allows.
   */
  ghost predicate Inv(g: Game) {
    && g.isVisible == !g.isRunning
    && (g.isRunning ==> g.finalTime.None? && g.target.Some? && g.closureTimeLeft.Some?)
    && ValidDuration(g.duration)
  }

  /**
   * START: running, timer hidden, no final time; `timeLeft` is refilled from the duration
   * only if it is exactly zero. The effect that follows the re-render fixes the target
   * from that `timeLeft` and creates the interval callback over it.
   */
  function AfterStart(g: Game, now: int): (h: Game)
    ensures Inv(g) ==> Inv(h)
  {
    var left := if g.timeLeft == 0 then g.duration * 1000 else g.timeLeft;
    g.(timeLeft := left, isRunning := true, isVisible := false, finalTime := None,
       target := Some(now + left), closureTimeLeft := Some(left))
  }

  /** STOP: not running, timer shown, and the final time is the `timeLeft` of the last tick. */
  function AfterStop(g: Game): (h: Game)
    ensures Inv(g) ==> Inv(h)
  {
    g.(isRunning := false, isVisible := true, finalTime := Some(g.timeLeft))
  }

  /** The START/STOP button's handler: start when idle, stop when running. */
  function AfterPress(g: Game, now: int): (h: Game)
    ensures Inv(g) ==> Inv(h)
  {
    if !g.isRunning then AfterStart(g, now) else AfterStop(g)
  }

  /**
   * One firing of the interval callback: `timeLeft` becomes the distance from `now` to the
   * target; at 5 s past the target the run ends, and the final time is the callback's
   * captured `timeLeft`, not the distance it has just computed. No callback is active
   * while the game is not running, so then nothing changes.
   */
  function AfterTick(g: Game, now: int): (h: Game)
    ensures Inv(g) ==> Inv(h)
  {
    if !g.isRunning then g
    else match g.target
      case None => g
      case Some(target) =>
        var remaining := target - now;
        if remaining <= AutoStopAt then
          g.(timeLeft := remaining, isRunning := false, isVisible := true, finalTime := g.closureTimeLeft)
        else
          g.(timeLeft := remaining)
  }

  /** "Try Again": back to the full duration, not running, timer shown, no final time. */
  function AfterReset(g: Game): (h: Game)
    ensures Inv(g) ==> Inv(h)
  {
    g.(timeLeft := g.duration * 1000, isRunning := false, isVisible := true, finalTime := None)
  }

  /**
   * The slider's change handler. The slider is disabled while running, so then nothing
   * happens; otherwise the duration and `timeLeft` take the new value and the final time
   * is cleared.
   */
  function AfterSetDuration(g: Game, seconds: int): (h: Game)
    requires ValidDuration(seconds)
    ensures Inv(g) ==> Inv(h)
  {
    if g.isRunning then g
    else g.(duration := seconds, timeLeft := seconds * 1000, finalTime := None)
  }

  /** The START/STOP button is rendered while running or while there is no final time. */
  predicate StartStopShown(g: Game) {
    g.isRunning || g.finalTime.None?
  }

  /** The "Try Again" button is rendered when idle with a `timeLeft` other than the full duration. */
  predicate ResetShown(g: Game) {
    !g.isRunning && g.timeLeft != g.duration * 1000
  }

  /** The three phases a reader of the state can tell apart. */
  datatype Phase = Idle | Running | Stopped

  function PhaseOf(g: Game): Phase {
    if g.isRunning then Running else if g.finalTime.Some? then Stopped else Idle
  }

  /** Everything the user and the clock can do to the component. */
  datatype Event = Press(now: int) | Tick(now: int) | Reset | SlideTo(seconds: int)

  predicate ValidEvent(e: Event) {
    e.SlideTo? ==> ValidDuration(e.seconds)
  }

  function Next(g: Game, e: Event): Game
    requires ValidEvent(e)
  {
    match e
    case Press(now) => AfterPress(g, now)
    case Tick(now) => AfterTick(g, now)
    case Reset => AfterReset(g)
    case SlideTo(seconds) => AfterSetDuration(g, seconds)
  }

  /** The state after a sequence of events, in order. */
  function Run(g: Game, es: seq<Event>): Game
    requires forall i :: 0 <= i < |es| ==> ValidEvent(es[i])
    decreases |es|
  {
    if es == [] then g else Run(Next(g, es[0]), es[1..])
  }

  lemma InitialInv()
    ensures Inv(Initial())
    ensures PhaseOf(Initial()) == Idle && StartStopShown(Initial()) && !ResetShown(Initial())
  {
  }

  /** Every transition keeps the invariant. */
  lemma NextPreservesInv(g: Game, e: Event)
    requires Inv(g) && ValidEvent(e)
    ensures Inv(Next(g, e))
  {
  }

  /** Every state the component can reach satisfies the invariant. */
  lemma {:induction false} RunPreservesInv(g: Game, es: seq<Event>)
    requires Inv(g)
    requires forall i :: 0 <= i < |es| ==> ValidEvent(es[i])
    ensures Inv(Run(g, es))
    decreases |es|
  {
    if es != [] {
      NextPreservesInv(g, es[0]);
      RunPreservesInv(Next(g, es[0]), es[1..]);
    }
  }

  lemma ReachableInv(es: seq<Event>)
    requires forall i :: 0 <= i < |es| ==> ValidEvent(es[i])
    ensures Inv(Run(Initial(), es))
  {
    InitialInv();
    RunPreservesInv(Initial(), es);
  }

  /**
   * Starting refills an exhausted `timeLeft` from the duration and otherwise keeps it; the
   * target lies that far after `now`; the run has no final time and hides the timer.
   */
  lemma StartFixesTarget(g: Game, now: int)
    requires !g.isRunning
    ensures var h := AfterPress(g, now);
      && h.isRunning && !h.isVisible && h.finalTime.None?
      && (g.timeLeft == 0 ==> h.timeLeft == g.duration * 1000)
      && (g.timeLeft != 0 ==> h.timeLeft == g.timeLeft)
      && h.target == Some(now + h.timeLeft)
      && h.closureTimeLeft == Some(h.timeLeft)
      && h.duration == g.duration
  {
  }

  /**
   * However many callbacks fire, and whenever they fire, `timeLeft` while running is the
   * distance from the latest firing to the target: it is measured on the clock, not by
   * counting ticks.
   */
  lemma {:induction false} TicksMeasureClock(g: Game, es: seq<Event>)
    requires Inv(g) && g.isRunning && |es| > 0
    requires forall i :: 0 <= i < |es| ==> es[i].Tick? && g.target.value - es[i].now > AutoStopAt
    ensures Run(g, es) == g.(timeLeft := g.target.value - es[|es| - 1].now)
    decreases |es|
  {
    var h := Next(g, es[0]);
    assert h == g.(timeLeft := g.target.value - es[0].now);
    if |es| > 1 {
      TicksMeasureClock(h, es[1..]);
    }
  }

  /**
   * The first callback at 5 s or more past the target ends the run: the timer shows again,
   * `timeLeft` holds the overshoot, and the final time is the `timeLeft` captured when the
   * run started.
   */
  lemma AutoStop(g: Game, now: int)
    requires Inv(g) && g.isRunning && g.target.value - now <= AutoStopAt
    ensures AfterTick(g, now)
      == g.(timeLeft := g.target.value - now, isRunning := false, isVisible := true,
            finalTime := g.closureTimeLeft)
    ensures var h := AfterTick(g, now);
      && !h.isRunning && h.isVisible
      && h.timeLeft == g.target.value - now
      && h.finalTime == g.closureTimeLeft
      && h.duration == g.duration
  {
  }

  /** A callback before the boundary only moves `timeLeft`. */
  lemma TickBeforeBoundary(g: Game, now: int)
    requires Inv(g) && g.isRunning && g.target.value - now > AutoStopAt
    ensures AfterTick(g, now) == g.(timeLeft := g.target.value - now)
  {
  }

  /** No callback is active outside a run: a tick then changes nothing. */
  lemma TickWhenIdle(g: Game, now: int)
    requires !g.isRunning
    ensures AfterTick(g, now) == g
  {
  }

  /** Running two sequences of events one after the other is running their concatenation. */
  lemma {:induction false} RunAppend(g: Game, a: seq<Event>, b: seq<Event>)
    requires forall i :: 0 <= i < |a| ==> ValidEvent(a[i])
    requires forall i :: 0 <= i < |b| ==> ValidEvent(b[i])
    ensures forall i :: 0 <= i < |a + b| ==> ValidEvent((a + b)[i])
    ensures Run(g, a + b) == Run(Run(g, a), b)
    decreases |a|
  {
    if a == [] {
      assert a + b == b;
    } else {
      assert (a + b)[0] == a[0] && (a + b)[1..] == a[1..] + b;
      RunAppend(Next(g, a[0]), a[1..], b);
    }
  }

  /**
   * Any run that times out, after any number of callbacks before the boundary, ends with
   * the `timeLeft` fixed at START as its final time; `timeLeft` itself holds the overshoot
   * of the last callback.
   */
  lemma AutoStopAfterTicks(g: Game, t0: int, es: seq<Event>, t1: int)
    requires Inv(g) && !g.isRunning
    requires forall i :: 0 <= i < |es| ==>
      es[i].Tick? && t0 + AfterStart(g, t0).timeLeft - es[i].now > AutoStopAt
    requires t0 + AfterStart(g, t0).timeLeft - t1 <= AutoStopAt
    ensures forall i :: 0 <= i < |es + [Tick(t1)]| ==> ValidEvent((es + [Tick(t1)])[i])
    ensures var left := AfterStart(g, t0).timeLeft;
      var h := Run(AfterPress(g, t0), es + [Tick(t1)]);
      && !h.isRunning && h.isVisible
      && h.timeLeft == t0 + left - t1
      && h.finalTime == Some(left)
      && h.duration == g.duration
  {
    var s := AfterPress(g, t0);
    StartFixesTarget(g, t0);
    NextPreservesInv(g, Press(t0));
    RunAppend(s, es, [Tick(t1)]);
    var m := Run(s, es);
    if es != [] {
      TicksMeasureClock(s, es);
    }
    assert m.isRunning && m.target == s.target && m.closureTimeLeft == s.closureTimeLeft && Inv(m);
    assert Run(m, [Tick(t1)]) == Run(AfterTick(m, t1), []);
    AutoStop(m, t1);
  }

  /**
   * A run of `d` seconds started from a full `timeLeft` and left to time out, whatever
   * callbacks fire before the boundary, stops with the full duration, not the overshoot,
   * as final time; the verdict is therefore "Timed Out" for 5 s and "Keep trying!" for
   * every longer duration.
   */
  lemma TimedOutRun(g: Game, t0: int, es: seq<Event>, t1: int)
    requires Inv(g) && !g.isRunning && g.timeLeft == g.duration * 1000
    requires forall i :: 0 <= i < |es| ==>
      es[i].Tick? && t0 + g.duration * 1000 - es[i].now > AutoStopAt
    requires t1 - t0 >= g.duration * 1000 - AutoStopAt
    ensures forall i :: 0 <= i < |es + [Tick(t1)]| ==> ValidEvent((es + [Tick(t1)])[i])
    ensures var h := Run(AfterPress(g, t0), es + [Tick(t1)]);
      && !h.isRunning
      && h.timeLeft == g.duration * 1000 - (t1 - t0)
      && h.finalTime == Some(g.duration * 1000)
      && Scoring.ResultMessage(h.finalTime)
         == (if g.duration == MinDuration then Scoring.TimedOut else Scoring.KeepTrying)
  {
    AutoStopAfterTicks(g, t0, es, t1);
  }

  /**
   * STOP records the last tick's `timeLeft` as the final time and leaves `timeLeft` and the
   * duration as they were; the START/STOP button then disappears and a verdict is shown.
   */
  lemma StopRecordsTimeLeft(g: Game, now: int)
    requires Inv(g) && g.isRunning
    ensures AfterPress(g, now) == g.(isRunning := false, isVisible := true, finalTime := Some(g.timeLeft))
    ensures var h := AfterPress(g, now);
      && !h.isRunning && h.isVisible
      && h.finalTime == Some(g.timeLeft)
      && h.timeLeft == g.timeLeft && h.duration == g.duration
      && PhaseOf(h) == Stopped && !StartStopShown(h)
      && Scoring.ResultMessage(h.finalTime) != ""
  {
  }

  /**
   * "Try Again" brings back the full duration with no final time; doing it twice is doing
   * it once; afterwards START is offered and "Try Again" is not.
   */
  lemma ResetIdempotent(g: Game)
    ensures AfterReset(g)
      == g.(timeLeft := g.duration * 1000, isRunning := false, isVisible := true, finalTime := None)
    ensures AfterReset(AfterReset(g)) == AfterReset(g)
    ensures var h := AfterReset(g);
      && h.timeLeft == g.duration * 1000 && h.duration == g.duration
      && PhaseOf(h) == Idle && StartStopShown(h) && !ResetShown(h)
  {
  }

  /**
   * The slider changes nothing while running; otherwise it sets the duration, fills
   * `timeLeft` from it and clears the final time, leaving the game idle.
   */
  lemma SetDurationGated(g: Game, seconds: int)
    requires ValidDuration(seconds)
    ensures g.isRunning ==> AfterSetDuration(g, seconds) == g
    ensures !g.isRunning ==>
      (AfterSetDuration(g, seconds) == g.(duration := seconds, timeLeft := seconds * 1000, finalTime := None))
    ensures !g.isRunning ==> var h := AfterSetDuration(g, seconds);
      && h.duration == seconds && h.timeLeft == seconds * 1000
      && h.finalTime.None? && PhaseOf(h) == Idle && !ResetShown(h)
  {
  }

  /** While running, STOP is always on screen. */
  lemma RunningShowsStop(g: Game)
    requires g.isRunning
    ensures StartStopShown(g) && !ResetShown(g) && PhaseOf(g) == Running
  {
  }

  /** The component's state in mutable fields, one per hook or ref. */
  class CountdownGame {
    var duration: int
    var timeLeft: int
    var isRunning: bool
    var isVisible: bool
    var finalTime: Option<int>
    var targetTime: Option<int>
    var closureTimeLeft: Option<int>

    function State(): Game
      reads this
    {
      Game(duration, timeLeft, isRunning, isVisible, finalTime, targetTime, closureTimeLeft)
    }

    ghost predicate Valid()
      reads this
    {
      Inv(State())
    }

    constructor ()
      ensures State() == Initial() && Valid()
    {
      duration, timeLeft := 5, 5000;
      isRunning, isVisible := false, true;
      finalTime, targetTime, closureTimeLeft := None, None, None;
    }

    /** `handlePress`. */
    method Press(now: int)
      requires Valid()
      modifies this
      ensures Valid() && State() == AfterPress(old(State()), now)
    {
      if !isRunning {
        Start(now);
      } else {
        Stop();
      }
    }

    /** The START branch of `handlePress`, then the effect that fixes the target. */
    method Start(now: int)
      requires Valid() && !isRunning
      modifies this
      ensures Valid() && State() == AfterStart(old(State()), now)
    {
      isRunning := true;
      isVisible := false;
      finalTime := None;
      if timeLeft == 0 {
        timeLeft := duration * 1000;
      }
      targetTime := Some(now + timeLeft);
      closureTimeLeft := Some(timeLeft);
    }

    /** The STOP branch of `handlePress`. */
    method Stop()
      requires Valid() && isRunning
      modifies this
      ensures Valid() && State() == AfterStop(old(State()))
    {
      isRunning := false;
      isVisible := true;
      finalTime := Some(timeLeft);
    }

    /** One firing of the interval callback; none fires outside a run. */
    method Tick(now: int)
      requires Valid()
      modifies this
      ensures Valid() && State() == AfterTick(old(State()), now)
    {
      if isRunning {
        var remaining := targetTime.value - now;
        timeLeft := remaining;
        if remaining <= AutoStopAt {
          isRunning := false;
          isVisible := true;
          finalTime := closureTimeLeft;
        }
      }
    }

    /** `handleReset`. */
    method Reset()
      requires Valid()
      modifies this
      ensures Valid() && State() == AfterReset(old(State()))
    {
      timeLeft := duration * 1000;
      isRunning := false;
      isVisible := true;
      finalTime := None;
    }

    /** The slider's `onValueChange`, which the slider only calls when enabled (not running). */
    method SetDuration(seconds: int)
      requires Valid() && ValidDuration(seconds)
      modifies this
      ensures Valid() && State() == AfterSetDuration(old(State()), seconds)
    {
      if !isRunning {
        duration := seconds;
        timeLeft := seconds * 1000;
        finalTime := None;
      }
    }
  }
}
