# IELTS Ace: exam timer and saved-content store

This project models the two pieces of the IELTS Ace web application that hold
logic of their own:

- The **exam countdown timer** (`ExamTimer` component). It formats a number of
  seconds as `MM:SS`. It keeps two state cells, `timeLeft` and `isActive`, which
  four transitions update: an interval firing, the effect that stops the timer
  at zero, the pause/run toggle and the reset button. These live in the modules
  `TimeFormat` (`time_format.dfy`) and `Timer` (`exam_timer.dfy`). The component
  is the class `Timer.ExamTimer`, with one method per transition. Each method is
  tied to a pure transition function on `TimerState`, and the lemmas about whole
  runs are stated on those functions.
- The **saved-content store** (`SavedContentProvider` / `useSavedContent`). It
  holds an ordered list of saved questions and essays keyed by `id`. It supports
  append, remove-by-id (a filter) and an id membership test. This is the module
  `SavedStore` (`saved_content.dfy`). The class `SavedStore.SavedContentProvider`
  has a `seq` field, and its methods are specified by the pure functions
  `Without` (the filter) and `HasId` (the `some` query).

The application's LLM prompt flows are not part of this model: they only call
an external generator and return its output. The same holds for the
authentication and the UI markup.

Modelling choices:

- JavaScript numbers are modelled as `int`. `timeLeft` may go negative only if
  a caller passes a negative `initialTime`, and the model keeps that case.
- `formatTime` follows the JavaScript operators exactly. `Math.floor(s / 60)`
  is Dafny's `/`, which is the floor for a positive divisor. `s % 60` is
  `JsRemainder`, which truncates toward zero. `String(n)` writes a `-` before
  negative numbers. `padStart(2, '0')` pads but never truncates.
- The effect at `src/components/exam-timer.tsx:19-33` is split into two parts.
  `Tick` is one firing of the interval it starts. `Settle` is the re-run of its
  branches on the new `[isActive, timeLeft]`, which stops the timer at zero.
  `Timer.Step` is a user-visible event followed by that re-run.
- `initialTime` is a prop. The writing page passes 1200 or 2400 depending on
  the selected task, so it can change while the timer stays mounted.
  `useState(initialTime)` reads it only on mounting, and `resetTimer` reads its
  current value. The class keeps the current prop in a field, and
  `ReceiveProps` models a re-render with a new value. Its invariant bounds
  `timeLeft` by the largest prop seen so far, not by the current one.

## Model

| member | source | states |
|---|---|---|
| `TimeFormat.Digits` | src/components/exam-timer.tsx:49 | `String(n)` of a non-negative number is a non-empty digit string that reads back as `n` |
| `TimeFormat.NumberToString` | src/components/exam-timer.tsx:49 | `String(n)` is all digits exactly when `n >= 0`, and then reads back as `n`; otherwise it is `-` followed by digits that read back as `-n` |
| `TimeFormat.DigitsCanonical` | src/components/exam-timer.tsx:49 | `String(n)` has no leading zero: its first character is `0` iff `n == 0` |
| `TimeFormat.JsRemainder` | src/components/exam-timer.tsx:48 | `seconds % 60` lies strictly between -60 and 60 and takes the sign of the dividend; its magnitude is the remainder of the magnitude |
| `TimeFormat.PadStart` | src/components/exam-timer.tsx:49 | `padStart` reaches length `max(len, width)` |
| `TimeFormat.PadStartShape` | src/components/exam-timer.tsx:49 | `padStart` keeps the whole string as a suffix (never truncates) and puts only the pad character in front of it |
| `TimeFormat.Pad2` | src/components/exam-timer.tsx:49 | `padStart(2, '0')` has length `max(len, 2)`; a string of two or more characters is returned as it is, and a shorter one starts with `0` |
| `TimeFormat.ZeroPadKeepsValue` | src/components/exam-timer.tsx:49 | padding a digit string to two keeps it all digits and does not change the number it reads as |
| `TimeFormat.FormatTime` | src/components/exam-timer.tsx:46-50 | the display is at least five characters long, for every integer input |
| `TimeFormat.DigitsWidth` | src/components/exam-timer.tsx:49 | a number has one digit iff it is below 10, two iff it is in 10..99, and three or more iff it is at least 100 |
| `TimeFormat.Pad2Value` | src/components/exam-timer.tsx:49 | a number below 100, padded to two, is exactly two digits that read back as that number |
| `TimeFormat.FormatTimeShape` | src/components/exam-timer.tsx:46-50 | for `s >= 0` the display is `pad2(s / 60) + ":" + pad2(s % 60)`; the part after the colon is exactly two digits |
| `TimeFormat.FormatTimeRoundTrip` | src/components/exam-timer.tsx:47-49 | reading the minutes and seconds back gives `minutes * 60 + seconds == s` for every `s >= 0` |
| `TimeFormat.FormatTimeInjective` | src/components/exam-timer.tsx:46-50 | two different non-negative counts never show the same display |
| `TimeFormat.FormatTimeWidth` | src/components/exam-timer.tsx:49 | the display is five characters iff `s < 6000`; from 100 minutes on, the minutes are printed in full (three or more digits) |
| `TimeFormat.FormatTimeZero` | src/components/exam-timer.tsx:46-50 | zero seconds show `00:00` |
| `TimeFormat.FormatTimeNegative` | src/components/exam-timer.tsx:47-49 | for every `s < 0` the display is `-`, the digits of `-floor(s / 60)`, a colon, and then `00` when `s` is a multiple of 60, else `-` and the digits of `(-s) % 60`; the pad never applies to a negative part |
| `TimeFormat.NegativeSeconds` | src/components/exam-timer.tsx:48-49 | for `s < 0` the seconds part is `00` on a whole minute (JavaScript's `-0` prints as `0`) and otherwise `-` and the digits of the remainder's magnitude |
| `TimeFormat.FormatTimeNegativeExamples` | src/components/exam-timer.tsx:46-50 | -5 shows `-1:-5` and -60 shows `-1:00` |
| `Timer.Initial` | src/components/exam-timer.tsx:16-17 | on mount `timeLeft == initialTime` and the timer is running |
| `Timer.Ticked` | src/components/exam-timer.tsx:21-24 | a tick lowers `timeLeft` iff the timer is active with time above zero, and then by exactly one; it never goes below zero from a non-negative value, and it leaves `isActive` alone |
| `Timer.Settled` | src/components/exam-timer.tsx:25-29 | the effect keeps `timeLeft`; afterwards the timer is active iff it was active and `timeLeft != 0` (auto-stop at zero) |
| `Timer.Toggled` | src/components/exam-timer.tsx:35-39 | toggle flips `isActive` iff `timeLeft > 0` and never changes `timeLeft` |
| `Timer.ResetTo` | src/components/exam-timer.tsx:41-44 | reset gives `timeLeft == initialTime` and paused, from any state |
| `Timer.Step` | src/components/exam-timer.tsx:19-44 | after any event and the effect, a timer at zero is paused; a firing lowers `timeLeft` iff the timer runs with time above zero; no event but reset takes off more than one second, toggling takes none, and reset gives `(initialTime, paused)` |
| `Timer.Run` | src/components/exam-timer.tsx:19-44 | after at least one event a timer at zero is paused; with no reset among the events, at most one second comes off per event and `timeLeft` never rises |
| `Timer.Ticks` | src/components/exam-timer.tsx:21-29 | `n` firings take off at most `n` seconds, never cross zero from above, and never start a paused timer |
| `Timer.TicksIsRun` | src/components/exam-timer.tsx:21-29 | `n` firings are the run of `n` interval events |
| `Timer.StepKeepsInvariant` | src/components/exam-timer.tsx:19-44 | every event followed by the effect keeps `0 <= timeLeft <= initialTime` and leaves no running timer at zero |
| `Timer.RunKeepsInvariant` | src/components/exam-timer.tsx:19-44 | with the prop held fixed, every sequence of events from a bounded state keeps `0 <= timeLeft <= initialTime`; after at least one event, a timer at zero is paused |
| `Timer.CountDown` | src/components/exam-timer.tsx:21-28 | a running timer with `k > 0` seconds left, after `n <= k` firings, shows `k - n`; it is still running iff `n < k`, so it is stopped exactly at zero |
| `Timer.TicksIdle` | src/components/exam-timer.tsx:21-29 | a paused timer, including one stopped at zero, is unchanged by any number of firings |
| `Timer.ToggleTwice` | src/components/exam-timer.tsx:35-39 | toggling twice restores the state; at zero or below, toggle is a no-op |
| `Timer.ExamTimer.constructor` | src/components/exam-timer.tsx:15-17 | the component starts with `timeLeft == initialTime` and `isActive` |
| `Timer.ExamTimer.ReceiveProps` | src/components/exam-timer.tsx:15-17 | a new `initialTime` prop changes neither state cell; the bound on `timeLeft` is kept against the largest prop seen |
| `Timer.ExamTimer.Tick` | src/components/exam-timer.tsx:21-24 | the interval callback sets the fields to `Ticked` of the old state and keeps the bounds invariant |
| `Timer.ExamTimer.Settle` | src/components/exam-timer.tsx:25-29 | the effect's re-run sets the fields to `Settled` of the old state: `isActive` becomes false at zero |
| `Timer.ExamTimer.ToggleTimer` | src/components/exam-timer.tsx:35-39 | `toggleTimer` sets the fields to `Toggled` of the old state |
| `Timer.ExamTimer.ResetTimer` | src/components/exam-timer.tsx:41-44 | `resetTimer` sets `timeLeft` to the current `initialTime` prop and `isActive := false` |
| `Timer.ExamTimer.IsTimeUp` | src/components/exam-timer.tsx:52-74 | time is up iff `timeLeft == 0`; then the display shows `00:00` and `toggleTimer` would change nothing, which agrees with the button being disabled |
| `Timer.ExamTimer.Display` | src/components/exam-timer.tsx:66 | the rendered text reads back as `timeLeft` whenever `timeLeft >= 0` |
| `SavedStore.HasId` | src/hooks/use-saved-content.tsx:52 | `some(item => item.id === id)` is true iff some index holds an item with that id |
| `SavedStore.Without` | src/hooks/use-saved-content.tsx:48 | the filter keeps exactly the items whose id differs, and is never longer than its input |
| `SavedStore.WithoutAppend` | src/hooks/use-saved-content.tsx:48 | the filter distributes over concatenation, so the kept items keep their relative order |
| `SavedStore.WithoutRemovesId` | src/hooks/use-saved-content.tsx:47-53 | after removal, `isSaved(id)` is false |
| `SavedStore.WithoutAbsent` | src/hooks/use-saved-content.tsx:48 | removing an absent id leaves the list unchanged |
| `SavedStore.WithoutIdempotent` | src/hooks/use-saved-content.tsx:48 | removing the same id twice is the same as removing it once |
| `SavedStore.CountIdAppend` | src/hooks/use-saved-content.tsx:44 | appending adds one occurrence of the item's id and none of any other id (no de-duplication) |
| `SavedStore.WithoutLength` | src/hooks/use-saved-content.tsx:48 | removal shortens the list by exactly the number of items with that id, so by at least one when the id is present |
| `SavedStore.WithoutCommutes` | src/hooks/use-saved-content.tsx:48 | removing two ids gives the same list in either order |
| `SavedStore.AddThenRemove` | src/hooks/use-saved-content.tsx:43-49 | saving an item and then removing its id leaves what removing the id alone leaves |
| `SavedStore.SavedContentProvider.constructor` | src/hooks/use-saved-content.tsx:18 | the store starts as the empty list |
| `SavedStore.SavedContentProvider.AddSavedItem` | src/hooks/use-saved-content.tsx:43-45 | the list becomes `old + [item]`: one longer, earlier items unchanged, the id now saved, its count up by one even if it was already present |
| `SavedStore.SavedContentProvider.RemoveSavedItem` | src/hooks/use-saved-content.tsx:47-49 | the list becomes `Without(old, id)`: the id is no longer saved, every item with another id stays, and an absent id changes nothing |
| `SavedStore.SavedContentProvider.IsSaved` | src/hooks/use-saved-content.tsx:51-53 | the answer is true iff some saved item has that id; the list is not modified |

## Left out

- Wall-clock timing: `setInterval`, the 1000 ms period, the effect cleanup and `clearInterval` (src/components/exam-timer.tsx:19-33). One interval firing is one abstract `Tick`. The model does not capture a callback that fires between a state change and the effect's cleanup.
- JSX rendering of the timer and its buttons (src/components/exam-timer.tsx:54-91). Only the rendered text (`Display`) and `isTimeUp` are modelled. The disabled toggle button at zero is covered by `IsTimeUp`, which states that a toggle at zero changes nothing.
- Prop changes in the pure run model: `Timer.Run`, `Timer.StepKeepsInvariant` and `Timer.RunKeepsInvariant` take one fixed `initialTime`. A prop that changes mid-run is modelled only in the class, by `ExamTimer.ReceiveProps`, where the invariant bounds `timeLeft` by the largest prop seen.
- Fractional and non-finite JavaScript numbers for `initialTime`: all callers pass whole seconds (3600, 1200, 2400).
- Loading and saving through `localStorage` with `JSON.parse`/`JSON.stringify`, and the error logging around them (src/hooks/use-saved-content.tsx:21-41). This is browser I/O. The model's store is the in-memory list only.
- The React context plumbing and the `useSavedContent` guard that throws outside a provider (src/hooks/use-saved-content.tsx:55-70).
- The payloads of saved items: the generated question, the optional topic, difficulty and passage, and the essay feedback (src/lib/types.ts:4-23). The store only ever reads `id`, so these are plain or opaque strings in `SavedContent`.
- The LLM prompt flows under `src/ai/flows/`, authentication, Firebase set-up, the sidebar and header markup and `src/ai/dev.ts`. They have no logic of the repository's own: they call an external model or SDK, or only render markup.
