# Focus tree: growth and countdown model

A Dafny model of the logic of the "focus tree" widget in `src/script.js`.
A button starts a focus session of some minutes. A one-second interval
counts the session down. A session that runs to the end credits its minutes
to a tree that grows through four stages: Seed, Seedling, Sapling and Tree.
The stages need 30, 60, 120 and 15 minutes. Passing the Tree stage
completes a tree, increments the tree count and restarts at the Seed.
Hiding the page cancels a running session, and its minutes are lost.

Modules:

- `Growth` (`growth.dfy`): the persisted counters `(treeLevel, progressMinutes,
  treeCount)`, the threshold table, the completion step, and the clamped
  index of the "next stage" preview icon.
- `Persistence` (`persistence.dfy`): loading the counters from a decoded
  stored record, with the missing-`treeCount` default.
- `Clock` (`clock.dfy`): the `M:SS` clock text, built from JavaScript's
  integer-to-decimal conversion and `padStart`, plus a parser that is its
  exact inverse.
- `Countdown` (`countdown.dfy`): the widget as a state machine. Its events
  are `Press(minutes)`, `Tick` and `VisibilityChange(hidden)`. `Run` folds a
  sequence of events.
- `Wrappers` (`wrappers.dfy`): `Option`.

Behaviour worth knowing, all proved:

- Completion rolls over one stage at most. `CompleteCreditsMinutes` shows
  that each session adds exactly its minutes to the position in the cycle.
  The one exception is the session that completes the cycle: the minutes
  past the Tree threshold are dropped.
- The stage invariant "progress stays below the current threshold" does not
  hold for long sessions. `LongSessionOvershoots` shows that 120 minutes on a
  fresh tree leave 90 minutes in the 60-minute Seedling stage.
  `CompleteKeepsBelowThreshold` shows the invariant holds when the session is
  no longer than the threshold of the stage it may move into. Whether more
  than one rollover was intended is open, so this is not listed as a defect.
- Completing a session stops the interval but leaves the visibility
  listener attached (`src/script.js:74-77`); only `cancelTimer` removes it
  (`src/script.js:137`). `HiddenAfterCompletion` shows the effect: hiding
  the page after a completed session runs the cancel path again. That
  replaces the completion message and leaves the counters alone.
- A zero-minute session completes on its first tick, because the check is
  `remainingTime <= 0` after the decrement (`SessionTicks`).
- A level outside the table has no threshold. JavaScript's
  `sum >= undefined` is false, so `Complete` then only adds the minutes
  (its last ensures). It needs no precondition.

## Model

| member | source | states |
|---|---|---|
| Growth.Threshold | src/script.js:14 | a threshold exists exactly for levels 0 to 3, and it is positive |
| Growth.Complete | src/script.js:79-91 | below the threshold only progress grows; reaching it below the Tree stage moves up one level and spends one threshold; reaching it at the Tree stage gives `(0, 0, count + 1)`; the level moves by one step or wraps to 0; the count grows by at most one; valid counters stay valid; a level with no threshold only gains the minutes |
| Growth.CompleteCreditsMinutes | src/script.js:79-91 | a completion adds exactly `d` minutes to the position in the cycle and keeps the count, unless it reaches the Tree threshold, which completes the cycle and drops the surplus |
| Growth.CompleteKeepsBelowThreshold | src/script.js:80-91 | progress stays below the current threshold when the session is no longer than the threshold of the stage it may move into |
| Growth.LongSessionOvershoots | src/script.js:82-84 | the single-step rollover leaves 90 minutes in the 60-minute Seedling stage after a 120-minute session on a fresh tree |
| Growth.SeedToSapling | src/script.js:79-84 | from a fresh tree, 30 minutes then 60 minutes give `(1, 0, 0)` and then `(2, 0, 0)` |
| Growth.TreeCompletesCycle | src/script.js:83-91 | `(3, 0, 2)` with a 15-minute session gives `(0, 0, 3)` |
| Growth.NextIconIndex | src/script.js:37-38 | the preview index lies inside the five-entry icon table for every level from -1 up; it is the next level below the last entry, and the last entry from there on |
| Growth.PreviewMatchesCompletion | src/script.js:12 | the preview icon is the icon of the level that a stage-passing completion leads to, including the Seed after the Tree |
| Persistence.Load | src/script.js:5-10 | no stored record gives a fresh tree; a stored record keeps its level and progress; a missing tree count reads as 0 and a present one is kept |
| Persistence.Save | src/script.js:55 | the saved record carries a tree count, and loading it gives back the same counters |
| Persistence.LoadLegacyRecord | src/script.js:10 | a record with level 1, progress 10 and no tree count loads as `(1, 10, 0)` |
| Clock.DecimalString | src/script.js:128 | the decimal text of a number is canonical: digits only, no leading zero; it has one digit exactly below 10 and at most two below 100 |
| Clock.ValueOfDecimal | src/script.js:128 | the decimal text of `n` denotes `n` |
| Clock.DecimalOfValue | src/script.js:128 | every canonical numeral is the decimal text of the number it denotes |
| Clock.PadStart | src/script.js:128 | the result has the requested width, or the input's if longer; it ends with the input and is fill characters before it |
| Clock.SecondsField | src/script.js:127-128 | the padded seconds of any value below 100 are exactly two digits: the tens and the units |
| Clock.FormatClock | src/script.js:125-128 | the clock text has at least four characters and a colon third from the end |
| Clock.FormatHasFields | src/script.js:126-128 | the clock text of `r` is canonical minutes `r / 60`, a colon, and two digits denoting `r % 60 < 60` |
| Clock.ParseFormat | src/script.js:125-128 | reading the clock text of `r` back gives `r` |
| Clock.FormatParse | src/script.js:125-128 | every text the parser accepts is the clock text of the number it reads |
| Countdown.DisplayText | src/script.js:125-128 | a shown remaining time reads back as that number of seconds; a message is shown as is |
| Countdown.Boot | src/script.js:28-29 | the page starts with the loaded counters, no countdown and no listener |
| Countdown.Start | src/script.js:59-64 | starting keeps the counters, restarts the countdown at `minutes * 60` seconds, shows that time and attaches the listener |
| Countdown.StartDiscards | src/script.js:60-61 | starting depends on the previous widget only through its counters, so a running session is forgotten |
| Countdown.OnTick | src/script.js:67-101 | with no countdown nothing happens; a tick with more than one second left counts down, shows the new remaining time and keeps the counters; the last tick credits the session once, stops the countdown and shows the completion message; the listener is not touched |
| Countdown.Cancel | src/script.js:132-138 | cancelling keeps the counters, stops the countdown, detaches the listener and shows the cancel message |
| Countdown.OnVisibilityChange | src/script.js:141-143 | a visibility change never changes the counters; hiding the page with the listener attached cancels and shows the cancel message; anything else changes nothing |
| Countdown.Step | src/script.js:146-151 | each event reaches its handler: only a tick can change the counters, a press starts the pressed duration with the listener attached, and a shown page or a tick with no countdown changes nothing |
| Countdown.SessionTicks | src/script.js:61-74 | a session of `m` minutes needs `m * 60` ticks, and at least one |
| Countdown.StepInvariant | src/script.js:59-143 | every event keeps the level in range, progress and count non-negative, and a running countdown between 0 and its full length with the listener attached and its remaining time on the clock |
| Countdown.RunInvariant | src/script.js:59-143 | the same invariant holds after any sequence of events |
| Countdown.GrowthOnlyOnCompletion | src/script.js:74-92 | the counters change only on a tick with at most one second left, and then by one completion of that session's duration |
| Countdown.CountdownTicks | src/script.js:67-102 | before the session's last tick, `k` ticks leave `r - k` seconds and the counters alone; from the last tick on the widget is idle with the session credited exactly once |
| Countdown.Session | src/script.js:59-102 | after a press and `k` ticks the session is still running with nothing credited, or, from `SessionTicks` ticks on, idle with the session credited once |
| Countdown.RestartCreditsOnlyNewSession | src/script.js:60-61 | restarting part-way through a session credits only the new session when it completes |
| Countdown.HiddenAfterCompletion | src/script.js:74-77 | after a completed session the listener is still attached; hiding the page then shows the cancel message and keeps the credited counters |
| Countdown.TreeCountMonotone | src/script.js:86-91 | the tree count never decreases over any sequence of events |
| Countdown.FreshTreeScenario | src/script.js:79-84 | a full 30-minute then a full 60-minute session from a fresh tree end at `(2, 0, 0)` |
| Countdown.TreeStageScenario | src/script.js:83-91 | a full 15-minute session at `(3, 0, 2)` ends at `(0, 0, 3)` |

## Left out

- Rendering: icon, stage name, progress text and tree-count writes to the page (`updateUI`). These are display side effects. Only the preview-icon index is modelled.
- Both percentage bars, including the `+ 0.5` nudge and the `min(…, 100)` cap in `updateTimerProgress`. They are floating-point display arithmetic and change no state.
- `localStorage` access and JSON encoding. `Load` takes the decoded record, or none. A stored value that decodes to something falsy other than "no record" is not distinguished. Records missing `treeLevel` or `progressMinutes` are not modelled; the code gives them no default either.
- Interval and event-loop timing: `setInterval`/`clearInterval` become `Tick` events delivered only while a countdown runs, and the visibility listener becomes the `listening` flag.
- Reading a button's `data-time` with `parseInt`. The duration is a natural number parameter, since the page markup is not part of this model.
- Number precision: every counter, duration and second count is an exact integer. JavaScript numbers are doubles, so above `Number.MAX_SAFE_INTEGER` (2^53 - 1) `remainingTime -= 1` and `progressMinutes += duration` can round. The model assumes all values stay at or below that bound, which realistic sessions do by many orders of magnitude.
- Clock.DecimalString: matches `Number.prototype.toString` only up to `Number.MAX_SAFE_INTEGER`; above it JavaScript prints the shortest round-tripping digits (and exponent notation from 10^21), which the model does not reproduce.
