# Countdown game engine

This project models, in Dafny, the countdown challenge of the mini game hub
(`components/CountdownGame.tsx`). The player picks a duration of 5 to 60 seconds and presses
START. The timer is then hidden while it counts down, and the player tries to press STOP
exactly at zero. The core has three parts:

- **`formatTime`** (`time_display.dfy`, module `TimeDisplay`). It turns signed milliseconds
  into the "S:CC" timer text. JavaScript's truncating `%`, `Math.ceil`, `Math.floor`,
  `String` and `padStart(2, '0')` are written out over Dafny's Euclidean arithmetic
  (`TruncRem`, `CeilDiv`, and `NatToString`/`PadStart2` in `js_text.dfy`). `DisplayValue`
  is its partner: it reads a display back as signed hundredths of a second, and the round
  trip is proved for every integer.
- **`getResultMessage`** (`scoring.dfy`, module `Scoring`). It picks the verdict from the
  signed final time, with thresholds tried in source order.
- **The state machine** (`countdown.dfy`, module `Countdown`). The state is the component's
  hooks and refs (`duration`, `timeLeft`, `isRunning`, `isVisible`, `finalTime`,
  `targetTimeRef`), plus the `timeLeft` that the interval callback captured when the run
  started.
  - `Game` holds the whole state as a value, and `AfterStart`, `AfterStop`, `AfterPress`,
    `AfterTick`, `AfterReset` and `AfterSetDuration` are its transitions.
  - The class `CountdownGame` holds the same state in fields. Its methods (`Press`, `Start`,
    `Stop`, `Tick`, `Reset`, `SetDuration`) update those fields one assignment at a time,
    and each is proved to perform its transition and to keep the invariant `Inv`.
  - `Date.now()` is the `now` parameter.
  - The two button conditions are `StartStopShown` and `ResetShown`.

Some of the code's behaviour differs from what a reader of the game would expect. The model
follows the code in each case:

- A run that times out records as final time the `timeLeft` captured when the run started
  (the interval callback's stale closure, line 32). It does not record the overshoot that
  triggered the stop. `Countdown.TimedOutRun` shows the result: a timed-out 5 s run scores
  "Timed Out", and a longer run scores "Keep trying!".
- STOP records the `timeLeft` of the last tick (line 57). It does not read the clock again.
- `formatTime(-1234)` is "-1:24": negative hundredths are rounded away from zero. A reader
  would expect "-1:23", which is what the corrected `FormatTimeFixed` produces.
- Every negative final time (a stop after zero, however late) scores "Amazing, so close!"
  (`Scoring.LateStopIsAmazing`). The model reproduces this as written.

## Model

| member | source | states |
|---|---|---|
| `JsText.NatToString` | components/CountdownGame.tsx:88 | `String(n)` of a non-negative integer is a non-empty string of digits, one digit long exactly below 10, with a leading '0' only for 0 |
| `JsText.IntToString` | components/CountdownGame.tsx:88 | `String(i)` of a non-negative integer is a non-empty string of digits that reads back as `i` and starts with '0' only when it is exactly "0"; of a negative integer it is '-' followed by such a numeral of `-i`, whose first digit is not '0' |
| `JsText.PadStart2` | components/CountdownGame.tsx:91 | `padStart(2, '0')` leaves a string of two or more characters unchanged, and otherwise puts zeros in front until it is two long; `ParseNatPadStart2` and `PadStart2Width` give the value and width of a padded numeral |
| `JsText.ParseNatToString` | components/CountdownGame.tsx:88 | the decimal numeral that `String` writes reads back as the same number |
| `JsText.ParseNatPadStart2` | components/CountdownGame.tsx:91 | `padStart(2, '0')` keeps a numeral all digits and of the same value |
| `JsText.PadStart2Width` | components/CountdownGame.tsx:91 | a padded numeral is exactly two characters long if and only if the number is below 100 |
| `TimeDisplay.TruncRem` | components/CountdownGame.tsx:77 | JavaScript's `a % b` for `b > 0` lies in [0, b) for `a >= 0` and in (-b, 0] for `a < 0`, and differs from `a` by a multiple of `b`, which together determine it |
| `TimeDisplay.CeilDiv` | components/CountdownGame.tsx:76 | `Math.ceil(a / b)` is the least `q` with `a <= b*q` |
| `TimeDisplay.TotalSeconds` | components/CountdownGame.tsx:76-80 | the `totalSeconds` of `formatTime` is the whole seconds of `ms` rounded toward zero: `floor(ms/1000)` when `ms >= 0`, `ceil(ms/1000)` when `ms < 0` |
| `TimeDisplay.Centis` | components/CountdownGame.tsx:77-80 | the hundredths field is at most 100; `CentisArithmetic` fixes its value (whole seconds × 100 plus the signed hundredths is `ms / 10`), and `CentisRange` says exactly when it reaches 100 |
| `TimeDisplay.SecondsStr` | components/CountdownGame.tsx:84-89 | the text before the colon is at least two characters; `SecondsStrShape` gives its digits and value, `FormatTimeNegativeSeconds` the literal "-0" and the unpadded negative seconds |
| `TimeDisplay.FormatTime` | components/CountdownGame.tsx:71-92 | `formatTime` as written; characterised by `FormatTimeRoundTrip`, `FormatTimeTwoByTwo`, `FormatTimeNegativeSeconds`, `FormatTimeCentisWidth` and the example lemmas |
| `TimeDisplay.FormatTimeRoundTrip` | components/CountdownGame.tsx:71-92 | for every integer `ms`, the display reads back (seconds × 100 + hundredths, signed) as `ms` in hundredths rounded toward minus infinity |
| `TimeDisplay.FormatTimeTwoByTwo` | components/CountdownGame.tsx:79-91 | for 0 ≤ ms < 100000 the display is "SS:CC", with two digits of `floor(ms/1000)` and two digits of `floor((ms%1000)/10)` |
| `TimeDisplay.FormatTimeNegativeSeconds` | components/CountdownGame.tsx:75-89 | a negative time starts with '-'; within the first second past zero it starts "-0:"; from -1000 on it starts with '-', then the seconds rounded toward zero with no zero padding, then ':' |
| `TimeDisplay.CentisRange` | components/CountdownGame.tsx:77 | the hundredths are at most 100, and exactly 100 if and only if `ms < 0` and `ms % 1000 <= -991` |
| `TimeDisplay.FormatTimeCentisWidth` | components/CountdownGame.tsx:77-91 | the display ends with ':' and two digits if and only if there is no such overflow; with the overflow it ends in ":100" |
| `TimeDisplay.FormatTimeAtTarget` | components/CountdownGame.tsx:71-92 | 0 ms displays as "00:00" |
| `TimeDisplay.FormatTimeBeforeTarget` | components/CountdownGame.tsx:79-91 | 1234 ms displays as "01:23" |
| `TimeDisplay.FormatTimeFullDuration` | components/CountdownGame.tsx:79-91 | 5000 ms, the shortest duration, displays as "05:00" |
| `TimeDisplay.FormatTimeHalfSecondPast` | components/CountdownGame.tsx:75-91 | -500 ms displays as "-0:50" |
| `TimeDisplay.FormatTimeOneSecondPast` | components/CountdownGame.tsx:75-91 | -1000 ms displays as "-1:00" |
| `TimeDisplay.FormatTimePastTarget` | components/CountdownGame.tsx:75-91 | -1234 ms displays as "-1:24", the hundredths rounded away from zero |
| `TimeDisplay.FormatTimeOverflowExample` | components/CountdownGame.tsx:77 | -995 ms displays as "-0:100" |
| `TimeDisplay.FixedCentis` | components/CountdownGame.tsx:77 | the intended hundredths, `floor(abs(ms % 1000) / 10)`, are always below 100 |
| `TimeDisplay.FormatTimeFixed` | components/CountdownGame.tsx:71-92 | `formatTime` with two-digit hundredths; characterised by `FormatTimeFixedWidth`, `FormatTimeFixedRoundTrip` and `FormatTimeFixedAgrees` |
| `TimeDisplay.FormatTimeFixedWidth` | components/CountdownGame.tsx:77-91 | the corrected display always ends with ':' and exactly two digits |
| `TimeDisplay.FormatTimeFixedRoundTrip` | components/CountdownGame.tsx:71-92 | the corrected display reads back as `ms` in hundredths rounded toward zero |
| `TimeDisplay.FormatTimeFixedAgrees` | components/CountdownGame.tsx:75-80 | the correction changes the display if and only if `ms < 0` and the truncated remainder is not a whole hundredth |
| `Scoring.ResultMessage` | components/CountdownGame.tsx:94-102 | `getResultMessage()` is empty if and only if there is no final time; `ResultMessageIntervals` gives the exact set of final times for each verdict |
| `Scoring.ResultMessageDefined` | components/CountdownGame.tsx:94-102 | the message is empty if and only if there is no final time; otherwise it is one of the six verdicts |
| `Scoring.ResultMessageIntervals` | components/CountdownGame.tsx:94-102 | each verdict holds exactly on its interval of signed final times: 0; below 0 or (0, 100]; (100, 500]; (500, 1000]; (1000, 5000]; above 5000 |
| `Scoring.ResultMessageMonotone` | components/CountdownGame.tsx:97-101 | among stops before zero, stopping earlier never ranks better |
| `Scoring.LateStopIsAmazing` | components/CountdownGame.tsx:97 | every negative final time scores "Amazing, so close!", while its mirror image above 100 does not |
| `Countdown.ValidDuration` | components/CountdownGame.tsx:116-118 | the values the slider produces: 5 to 60 seconds in steps of 5; `SliderValues` lists them |
| `Countdown.SliderValues` | components/CountdownGame.tsx:116-118 | the durations the slider produces (minimum 5, maximum 60, step 5) are exactly 5, 10, …, 60 seconds; `ValidDuration` is that set |
| `Countdown.Initial` | components/CountdownGame.tsx:7-11 | the hook defaults (5 s, 5000 ms left, idle, timer shown, no final time) satisfy the invariant, with the full duration left |
| `Countdown.AfterStart` | components/CountdownGame.tsx:16-52 | START then the effect keep the invariant; `StartFixesTarget` gives the new state, including the target and the captured `timeLeft` |
| `Countdown.AfterStop` | components/CountdownGame.tsx:53-58 | STOP keeps the invariant; `StopRecordsTimeLeft` gives the recorded final time |
| `Countdown.AfterPress` | components/CountdownGame.tsx:44-59 | `handlePress` keeps the invariant; it starts when idle and stops when running (`StartFixesTarget`, `StopRecordsTimeLeft`) |
| `Countdown.AfterTick` | components/CountdownGame.tsx:21-33 | the interval callback keeps the invariant; `TickBeforeBoundary`, `AutoStop`, `TickWhenIdle` and `TicksMeasureClock` give its effect |
| `Countdown.AfterReset` | components/CountdownGame.tsx:61-69 | `handleReset` keeps the invariant; `ResetIdempotent` gives its effect |
| `Countdown.AfterSetDuration` | components/CountdownGame.tsx:142-146 | the slider handler, gated by the disabled slider, keeps the invariant; `SetDurationGated` gives its effect |
| `Countdown.InitialInv` | components/CountdownGame.tsx:7-11 | the initial state satisfies the invariant, is idle, shows START and hides "Try Again" |
| `Countdown.NextPreservesInv` | components/CountdownGame.tsx:16-69 | every transition keeps: timer visible exactly when not running; a run has no final time, a target and a callback; the duration is a slider value |
| `Countdown.RunPreservesInv` | components/CountdownGame.tsx:16-69 | any sequence of presses, ticks, resets and slider moves keeps the invariant |
| `Countdown.ReachableInv` | components/CountdownGame.tsx:7-69 | every state reachable from the initial one satisfies the invariant |
| `Countdown.StartFixesTarget` | components/CountdownGame.tsx:16-52 | START sets running, hides the timer and clears the final time; it refills `timeLeft` from the duration only if it was 0; the target is `now` plus that `timeLeft`, and the callback captures that same `timeLeft` |
| `Countdown.TicksMeasureClock` | components/CountdownGame.tsx:21-25 | after any sequence of ticks before the boundary, `timeLeft` is the target minus the time of the last tick, whatever the number and spacing of the ticks |
| `Countdown.AutoStop` | components/CountdownGame.tsx:27-33 | a tick at 5 s or more past the target stops the run and shows the timer; `timeLeft` holds the overshoot; the final time is the `timeLeft` captured at the start; the target, the captured value and the duration are unchanged |
| `Countdown.TickBeforeBoundary` | components/CountdownGame.tsx:22-25 | a tick before the boundary changes only `timeLeft`, to the target minus `now` |
| `Countdown.TickWhenIdle` | components/CountdownGame.tsx:16-17 | a tick outside a run changes nothing |
| `Countdown.AutoStopAfterTicks` | components/CountdownGame.tsx:16-33 | after START and any number of callbacks before the boundary, the callback that crosses it stops the run, `timeLeft` holds that callback's overshoot, and the final time is the `timeLeft` fixed at START |
| `Countdown.TimedOutRun` | components/CountdownGame.tsx:16-33 | a run started from the full duration that times out, after any callbacks before the boundary, ends with the full duration as final time, so the verdict is "Timed Out" for 5 s and "Keep trying!" otherwise |
| `Countdown.StopRecordsTimeLeft` | components/CountdownGame.tsx:53-58 | STOP makes the final time the last tick's `timeLeft` and changes nothing else but running and visibility; START/STOP is then hidden and a non-empty verdict is shown |
| `Countdown.ResetIdempotent` | components/CountdownGame.tsx:61-69 | reset gives the full duration, idle, timer shown and no final time, and changes nothing else; reset twice equals reset once; afterwards START is shown and "Try Again" is not |
| `Countdown.SetDurationGated` | components/CountdownGame.tsx:142-146 | the slider changes nothing while running; otherwise it sets the duration and `timeLeft` to match, clears the final time and changes nothing else |
| `Countdown.RunningShowsStop` | components/CountdownGame.tsx:161-176 | while running, the START/STOP button is shown and "Try Again" is not |
| `Countdown.StartStopShown` | components/CountdownGame.tsx:161 | the START/STOP button is rendered if and only if running or no final time; `RunningShowsStop`, `StopRecordsTimeLeft`, `ResetIdempotent` and `InitialInv` say when it is |
| `Countdown.ResetShown` | components/CountdownGame.tsx:172 | "Try Again" is rendered if and only if not running and `timeLeft` differs from the full duration; `RunningShowsStop`, `ResetIdempotent` and `SetDurationGated` say when it is not |
| `Countdown.CountdownGame.constructor` | components/CountdownGame.tsx:7-14 | the fields start as the initial state, which satisfies the invariant |
| `Countdown.CountdownGame.Press` | components/CountdownGame.tsx:44-59 | `handlePress` performs `AfterPress` on the fields and keeps the invariant |
| `Countdown.CountdownGame.Start` | components/CountdownGame.tsx:44-52 | the START branch followed by the effect performs `AfterStart` |
| `Countdown.CountdownGame.Stop` | components/CountdownGame.tsx:53-58 | the STOP branch performs `AfterStop` |
| `Countdown.CountdownGame.Tick` | components/CountdownGame.tsx:21-34 | the interval callback performs `AfterTick` and keeps the invariant |
| `Countdown.CountdownGame.Reset` | components/CountdownGame.tsx:61-69 | `handleReset` performs `AfterReset` and keeps the invariant |
| `Countdown.CountdownGame.SetDuration` | components/CountdownGame.tsx:142-146 | the slider handler performs `AfterSetDuration` and keeps the invariant |

## Left out

- Rendering is not modelled: the JSX layout, styles, the `Slider` and `StepMarker` widgets, the hidden-timer text and the "Back to Home" navigation callback. The two button conditions are modelled as predicates.
- components/About.tsx is not part of this model. It holds static text and a navigation button.
- `setInterval`/`clearInterval` scheduling is not modelled. A tick is an explicit event at any time `now`, the 10 ms period is not fixed, and no callback is active outside a run. The model does not capture a callback that fires after STOP or "Try Again" but before the effect's cleanup clears the interval.
- React's batching of state updates is not modelled. A handler's updates, and for START the effect that follows, apply together as one transition.
- `intervalRef` and `startTimeRef` are not modelled. The first is the timer handle. The second only feeds the target computation.
- JavaScript numbers are modelled as integers. Clock values and `timeLeft` are whole milliseconds. `ms / 1000` and `(ms % 1000) / 10` are fractional doubles in JavaScript (for example -99.5), but for every safe integer `ms` their `Math.floor` and `Math.ceil` equal the exact integer results used here. The model does not cover values beyond the safe-integer range.
- Countdown.CountdownGame.SetDuration: requires a slider value (5..60 in steps of 5) rather than modelling how the slider snaps its input, because the handler is only ever called by the slider.

## Findings

| source | as written | input that shows it | evidently intended | confidence | as-written member | corrected member |
|---|---|---|---|---|---|---|
| components/CountdownGame.tsx:77 | for negative `ms`, the hundredths are `Math.abs(Math.floor((ms % 1000) / 10))`. `Math.floor` rounds the negative quotient away from zero, so a remainder of -999..-991 gives 100, a three-digit field | `formatTime(-995)` gives "-0:100" (`FormatTimeOverflowExample`); `FormatTimeCentisWidth` characterises every such input | hundredths cut toward zero, `Math.floor(Math.abs(ms % 1000) / 10)`, always two digits | high (not executed) | `TimeDisplay.FormatTime` | `TimeDisplay.FormatTimeFixed` |
