/**
 * `getResultMessage` of components/CountdownGame.tsx: the verdict shown under the stopped
 * timer, chosen from the signed `finalTime` (milliseconds left on the clock when the run
 * stopped; negative once the target has passed). The thresholds are tried in order on the
 * raw signed value, so every late stop falls into the second tier.
 */
module Scoring {
  import opened Wrappers

  const Perfect := "PERFECT! You hit 00:00!"
  const Amazing := "Amazing, so close!"
  const Great := "Great job!"
  const Good := "Good attempt!"
  const TimedOut := "Timed Out. Better luck next time!"
  const KeepTrying := "Keep trying!"

  /** `getResultMessage()`: the empty string while there is no final time. */
  function ResultMessage(finalTime: Option<int>): (msg: string)
    ensures msg == "" <==> finalTime.None?
  {
    match finalTime
    case None => ""
    case Some(t) =>
      if t == 0 then Perfect
      else if t <= 100 then Amazing
      else if t <= 500 then Great
      else if t <= 1000 then Good
      else if t <= 5000 then TimedOut
      else KeepTrying
  }

  /** The verdicts, best first. */
  const Tiers := [Perfect, Amazing, Great, Good, TimedOut, KeepTrying]

  /** The position of a verdict in `Tiers`; the empty message ranks after all of them. */
  function Rank(msg: string): (k: nat)
    ensures k <= |Tiers|
    ensures k < |Tiers| ==> Tiers[k] == msg
  {
    if msg == Perfect then 0
    else if msg == Amazing then 1
    else if msg == Great then 2
    else if msg == Good then 3
    else if msg == TimedOut then 4
    else if msg == KeepTrying then 5
    else 6
  }

  /** The message is empty exactly when there is no final time, and otherwise one of the six verdicts. */
  lemma ResultMessageDefined(finalTime: Option<int>)
    ensures ResultMessage(finalTime) == "" <==> finalTime.None?
    ensures finalTime.Some? ==> ResultMessage(finalTime) in Tiers
  {
  }

  /** Each verdict as an interval of final times (the first two tiers split around zero). */
  lemma ResultMessageIntervals(t: int)
    ensures ResultMessage(Some(t)) == Perfect <==> t == 0
    ensures ResultMessage(Some(t)) == Amazing <==> t < 0 || 0 < t <= 100
    ensures ResultMessage(Some(t)) == Great <==> 100 < t <= 500
    ensures ResultMessage(Some(t)) == Good <==> 500 < t <= 1000
    ensures ResultMessage(Some(t)) == TimedOut <==> 1000 < t <= 5000
    ensures ResultMessage(Some(t)) == KeepTrying <==> 5000 < t
  {
  }

  /** Stopping earlier (more time left) never earns a better verdict than stopping later but still before zero. */
  lemma {:induction false} ResultMessageMonotone(a: int, b: int)
    requires 0 < a <= b
    ensures Rank(ResultMessage(Some(a))) <= Rank(ResultMessage(Some(b)))
  {
    ResultMessageIntervals(a);
    ResultMessageIntervals(b);
  }

  /**
   * Every stop after the target, however late, is "Amazing": the tiers look at the signed
   * value, not at its distance from zero.
   */
  lemma LateStopIsAmazing(t: int)
    requires t < 0
    ensures ResultMessage(Some(t)) == Amazing
    ensures ResultMessage(Some(-t)) != Amazing || -t <= 100
  {
  }
}
