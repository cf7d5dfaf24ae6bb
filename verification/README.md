# TaskTimer countdown — a Dafny model

TaskTimer is a menu-bar countdown timer. Its logic lives in two places:

- `TimerModel` (TaskTimer/TimerModel.swift) holds `totalSeconds`, `remainingSeconds` and
  `isTimerRunning`. It offers `setTime`, `startTimer`, `pauseTimer` and `cancelTimer`.
  A once-a-second subscription counts down and cancels itself at zero. `timerString`
  derives the `MM:SS` display.
- `TimerView` (TaskTimer/ContentView.swift) keeps an `editableTime` text buffer behind the
  duration field. It has a text binding that ignores edits while the timer runs, and
  `commitTimerValue`, which parses `MM:SS` text into `setTime`. It also has the Play/Pause
  and Cancel buttons and an `onReceive` refresh that reloads the buffer once the timer has
  stopped at zero.

The model is functional. `TimerModel.Timer` is an immutable record, and every command is a
pure function from one record to the next. The tick subscription is an explicit `Tick`
transition. It is delivered only while `isTimerRunning` holds, because `startTimer`
subscribes when it sets the flag and `pauseTimer`/`cancelTimer` cancel the subscription
when they clear it. `TimerView.View` pairs the timer with the text buffer. Each gesture,
and each tick followed by the refresh it triggers, is a pure transition of that pair.

The Foundation string operations the parser relies on are modelled in module `Text`:
- `split(separator:)` with its defaults, which drop empty pieces;
- `trimmingCharacters(in: .whitespaces)`, meaning Unicode category Zs plus TAB;
- `Int(String)`, which takes an optional sign and then ASCII digits;
- the `%02d` conversion of `String(format:)`.

Swift's `/` and `%` round toward zero, and `TimerModel.TruncDiv`/`TruncRem` model that.
As a result, `timerString` is defined for every integer, even though reachable states
never hold a negative count.

Files: `wrappers.dfy` (`Option`), `text.dfy` (module `Text`), `timer_model.dfy` (module
`TimerModel`), `timer_view.dfy` (module `TimerView`), `timer_examples.dfy` (module
`TimerExamples`: families of concrete inputs and a full run of the popover).

Two facts about the code are worth stating up front:

- The tick decrements only while the count is positive, and cancels on the first tick
  that finds it at zero. A countdown from `R` seconds therefore shows `00:00` while still
  running for one tick and stops on tick `R + 1`; a five-second countdown stops on tick six
  (`TimerModel.Expiry`, `TimerModel.FiveSecondCountdown`).
- `totalSeconds` and `remainingSeconds` are plain `Int`s. That they never go negative, and
  that the remaining time never exceeds the total, is proved as an invariant
  (`TimerModel.ReachableValid`, `TimerView.ReachableViewValid`).

## Model

| member | source | states |
|---|---|---|
| `Text.NatToDigits` | TaskTimer/TimerModel.swift:30 | the decimal spelling has no leading zero, is one digit exactly below 10 and at most two below 100, and its digits spell `n` back |
| `Text.LeadingZero` | TaskTimer/ContentView.swift:109-110 | a leading `0` does not change the value a digit string is read as |
| `Text.Pad2` | TaskTimer/TimerModel.swift:30 | `%02d` is at least two characters, all digits with value `n` for `n >= 0`, a minus sign then the digits of `-n` otherwise, and exactly two digits iff `0 <= n < 100`; there is no padding zero beyond that: it starts with a non-zero digit for `n >= 10`, and the digits after a minus sign start with a non-zero digit |
| `Text.ParseInt` | TaskTimer/ContentView.swift:109-110 | `Int(String)` succeeds iff the text is an optional sign followed by one or more digits; a leading `-` gives minus the value of the digits after it, a leading `+` or no sign gives their value |
| `Text.ParsePad2` | TaskTimer/ContentView.swift:109-110 | whatever `%02d` prints for any integer, `Int(String)` reads back as that integer |
| `Text.TrimStart` | TaskTimer/ContentView.swift:109-110 | the result is a suffix of the input, everything dropped is whitespace, and it does not start with whitespace |
| `Text.TrimEnd` | TaskTimer/ContentView.swift:109-110 | the result is a prefix of the input, everything dropped is whitespace, and it does not end with whitespace |
| `Text.Trim` | TaskTimer/ContentView.swift:109-110 | the trimmed text is a contiguous slice of the input with only whitespace before and after it, neither starts nor ends with whitespace, and is the input itself when that has no whitespace |
| `Text.TrimKeeps` | TaskTimer/ContentView.swift:109-110 | every non-whitespace character of the input survives trimming |
| `Text.TrimIdempotent` | TaskTimer/ContentView.swift:109-110 | trimming twice equals trimming once |
| `Text.TrimPadded` | TaskTimer/ContentView.swift:109-110 | blanks around a run that starts and ends with a non-blank are exactly what trimming removes |
| `Text.TrimBlank` | TaskTimer/ContentView.swift:109-110 | a run of blanks trims to the empty string |
| `Text.SplitFrom` | TaskTimer/ContentView.swift:107 | every piece is non-empty and separator-free, the pieces concatenate to the piece already begun plus the rest with separators deleted, and there is one piece per maximal separator-free run (counting the piece already begun) |
| `Text.Split` | TaskTimer/ContentView.swift:107 | every piece is non-empty and separator-free, the pieces concatenate to the input with all separators deleted, and their number is the number of maximal separator-free runs of the input |
| `Text.SplitJoinRuns` | TaskTimer/ContentView.swift:107 | any non-empty separator-free pieces laid out between separator runs (at least one separator between two pieces, any number before the first and after the last) split back into exactly those pieces |
| `Text.SplitFromRun` | TaskTimer/ContentView.swift:107 | a separator-free run joins the piece being built |
| `Text.SplitNoSeparator` | TaskTimer/ContentView.swift:107 | text without the separator splits into itself, or into no pieces when empty |
| `Text.SplitPair` | TaskTimer/ContentView.swift:107 | two non-empty separator-free runs around one separator split back into exactly those two runs |
| `Text.SplitFromSkips` | TaskTimer/ContentView.swift:107 | separators before any piece has begun produce no piece |
| `Text.SplitFromEnds` | TaskTimer/ContentView.swift:107 | any non-empty separator run closes the current piece without producing empty pieces |
| `Text.SplitPairPadded` | TaskTimer/ContentView.swift:107 | extra separators before, between and after two runs do not change the two pieces |
| `Text.SplitTriple` | TaskTimer/ContentView.swift:107 | three runs joined by separators split into three pieces |
| `TimerModel.TruncDiv` | TaskTimer/TimerModel.swift:28 | Swift's `/` agrees with floor division on non-negative counts and never gives a positive quotient for a negative one |
| `TimerModel.TruncRem` | TaskTimer/TimerModel.swift:29 | quotient times 60 plus remainder gives the count back, and the remainder lies strictly between -60 and 60 and has the sign of the count |
| `TimerModel.TimerString` | TaskTimer/TimerModel.swift:27-31 | for a non-negative count: a minutes field of at least two digits that starts with `0` only when it has exactly two, a colon, and a two-digit seconds field below 60, with minutes*60 + seconds equal to the count; exactly five characters iff the count is below 6000 (no hour rollover) |
| `TimerModel.TimerStringOfCount` | TaskTimer/TimerModel.swift:27-31 | for `r >= 0` the display is `pad2(r / 60) + ":" + pad2(r % 60)`, with the seconds in 0..59 |
| `TimerModel.TimerStringZero` | TaskTimer/TimerModel.swift:68 | a zero count displays `00:00` |
| `TimerModel.SetTime` | TaskTimer/TimerModel.swift:34-37 | total is `minutes*60 + seconds` when that is non-negative and 0 otherwise, remaining equals total, and the running flag is untouched |
| `TimerModel.Start` | TaskTimer/TimerModel.swift:40-43 | afterwards the timer runs with both counts unchanged (resume, not reset); already running means no change |
| `TimerModel.Pause` | TaskTimer/TimerModel.swift:58-63 | afterwards the timer is stopped with both counts unchanged; already stopped means no change |
| `TimerModel.Cancel` | TaskTimer/TimerModel.swift:65-69 | afterwards the timer is stopped with remaining 0 and the total kept |
| `TimerModel.Tick` | TaskTimer/TimerModel.swift:49-54 | with time left the count drops by exactly one and nothing else changes; at zero or below the tick has the cancel effect; the count is never negative afterwards |
| `TimerModel.StartThenPause` | TaskTimer/TimerModel.swift:40-63 | starting then pausing a stopped timer returns the same state |
| `TimerModel.PauseThenStart` | TaskTimer/TimerModel.swift:40-63 | pausing then starting a running timer resumes at the paused count, not at the total |
| `TimerModel.CancelIdempotent` | TaskTimer/TimerModel.swift:65-69 | cancelling twice equals cancelling once |
| `TimerModel.ApplyPreservesValid` | TaskTimer/TimerModel.swift:34-69 | every command keeps `0 <= remainingSeconds <= totalSeconds` |
| `TimerModel.RunPreservesValid` | TaskTimer/TimerModel.swift:34-69 | any command sequence keeps `0 <= remainingSeconds <= totalSeconds` |
| `TimerModel.ReachableValid` | TaskTimer/TimerModel.swift:16-22 | from the initial `0, 0, false` state no command sequence makes a count negative or the remaining time exceed the total |
| `TimerModel.TicksCountDown` | TaskTimer/TimerModel.swift:49-50 | `n` ticks on a running timer with `R >= n` seconds left give `R - n`, still running, total kept |
| `TimerModel.TicksWhileStopped` | TaskTimer/TimerModel.swift:58-69 | once stopped the subscription is gone, so ticks change nothing |
| `TimerModel.TicksSplit` | TaskTimer/TimerModel.swift:44-55 | ticking `a` then `b` times equals ticking `a + b` times |
| `TimerModel.Expiry` | TaskTimer/TimerModel.swift:49-54 | from `R` seconds left the timer still runs at zero after `R` ticks, stops on tick `R + 1` with the total kept, and stays stopped |
| `TimerModel.FiveSecondCountdown` | TaskTimer/TimerModel.swift:34-54 | `setTime(0, 5)` then start: running at `00:00` after five ticks, stopped after six |
| `TimerView.Appear` | TaskTimer/ContentView.swift:66-68 | on appearing, running or not, the buffer is loaded with the current display string, which for a non-negative count parses back to its minutes and seconds; the field shows that string and the timer is untouched |
| `TimerView.AppearThenSubmit` | TaskTimer/ContentView.swift:55-57 | submitting right after appearing, running or not, keeps the buffer and sets the total to the remaining count |
| `TimerView.Displayed` | TaskTimer/ContentView.swift:44-46 | while stopped the field shows the buffer; while running it shows exactly `timerString`, which for a non-negative count parses back to the remaining minutes and seconds |
| `TimerView.Edit` | TaskTimer/ContentView.swift:47-51 | the setter stores the typed text only while stopped, drops it while running, and never touches the timer |
| `TimerView.EditThenDisplay` | TaskTimer/ContentView.swift:43-51 | while stopped the field shows back exactly what was typed |
| `TimerView.EditWhileRunning` | TaskTimer/ContentView.swift:43-51 | while running, typing changes nothing and the field keeps showing the live display string |
| `TimerView.ParseMinSec` | TaskTimer/ContentView.swift:107-110 | text is accepted only when it has exactly two maximal colon-free runs, and hence at least one colon. For text of the shape `a:b` with colon-free, non-empty `a` and `b`, `ParseFields` and `RejectFields` decide it completely; `ParseIgnoresExtraColons` extends this to extra colons, and `RejectRunLayout` rejects every other run count |
| `TimerView.ParseFields` | TaskTimer/ContentView.swift:107-110 | `a:b` with colon-free, non-empty pieces that read as integers `m` and `s` after trimming (optional sign included) is accepted as `(m, s)` |
| `TimerView.RejectFields` | TaskTimer/ContentView.swift:107-110 | `a:b` with colon-free, non-empty pieces is rejected when either piece, minutes or seconds, is not an integer literal after trimming |
| `TimerView.ParseFormatted` | TaskTimer/ContentView.swift:107-110 | any pair of integers printed as `%02d:%02d` parses back to that pair |
| `TimerView.ParseTimerString` | TaskTimer/ContentView.swift:107-110 | the display string of any count `r >= 0` parses to `(r / 60, r % 60)` |
| `TimerView.Commit` | TaskTimer/ContentView.swift:106-116 | rejected text leaves the timer and the buffer unchanged; accepted text calls `setTime` with the parsed pair and rewrites the buffer as the new display string; the running flag is never changed |
| `TimerView.CommitRoundTrip` | TaskTimer/ContentView.swift:106-112 | committing `timerString(r)` for any `r >= 0` sets remaining and total to `r` and leaves the buffer as it was |
| `TimerView.CommitIdempotent` | TaskTimer/ContentView.swift:106-116 | committing a second time changes nothing, because the buffer is already normalised |
| `TimerView.Refresh` | TaskTimer/ContentView.swift:69-73 | stopped at zero, the buffer is reloaded with `00:00`; otherwise nothing changes |
| `TimerView.PlayPause` | TaskTimer/ContentView.swift:77-87 | Pause stops the timer, keeps the counts and keeps the displayed text; Play starts from the committed state, and from the previous remaining time with the buffer untouched when the text does not parse |
| `TimerView.CancelPressed` | TaskTimer/ContentView.swift:89-93 | Cancel stops the timer, zeroes the count, keeps the total and shows `00:00` |
| `TimerView.TickView` | TaskTimer/ContentView.swift:69-73 | a tick with time left leaves the buffer alone; the expiring tick stops the timer and the field reads `00:00` |
| `TimerView.Handle` | TaskTimer/ContentView.swift:55-57 | submitting the field runs `commitTimerValue`; a tick while stopped changes nothing; appearing, typing and submitting never change the running flag; every event keeps `0 <= remainingSeconds <= totalSeconds` |
| `TimerView.HandlePreservesValid` | TaskTimer/ContentView.swift:43-93 | every gesture or tick keeps `0 <= remainingSeconds <= totalSeconds` |
| `TimerView.ReachableViewValid` | TaskTimer/ContentView.swift:43-93 | any sequence of gestures and ticks keeps `0 <= remainingSeconds <= totalSeconds` |
| `TimerView.ReachableFromLaunch` | TaskTimer/ContentView.swift:35-37 | from launch (`0, 0, false` and an empty buffer) no sequence of gestures and ticks breaks the count invariant, and the first appearance shows `00:00` |
| `TimerView.ViewExpiry` | TaskTimer/ContentView.swift:69-73 | from `R` seconds left the buffer is kept for `R` ticks, and tick `R + 1` stops the timer with the field reading `00:00` |
| `TimerExamples.ParseSingleDigits` | TaskTimer/ContentView.swift:107-110 | `d1:d2` with single digits parses to those digit values |
| `TimerExamples.TimerStringSingleDigits` | TaskTimer/TimerModel.swift:27-31 | single-digit minutes and seconds display zero-padded as `0d1:0d2` |
| `TimerExamples.CommitSingleDigits` | TaskTimer/ContentView.swift:106-112 | committing `d1:d2` sets `d1*60 + d2` seconds and rewrites the field as `0d1:0d2` |
| `TimerExamples.CommitOneFive` | TaskTimer/ContentView.swift:111-112 | `1:5` sets 65 seconds and is normalised to `01:05` |
| `TimerExamples.CommitFormatted` | TaskTimer/ContentView.swift:106-111 | committing `%02d:%02d` of any pair, negatives included, sets the time exactly as `setTime` with that pair |
| `TimerExamples.ParseIgnoresBlanks` | TaskTimer/ContentView.swift:109-110 | spaces and tabs around either number do not change the outcome |
| `TimerExamples.ParseIgnoresExtraColons` | TaskTimer/ContentView.swift:107 | extra colons before, between or after the numbers do not change the outcome |
| `TimerExamples.RejectThreePieces` | TaskTimer/ContentView.swift:108 | three colon-separated pieces are rejected |
| `TimerExamples.RejectRunLayout` | TaskTimer/ContentView.swift:107-108 | any layout of colon-free runs other than exactly two, whatever the colons between them, is rejected |
| `TimerExamples.RejectOneDoubleTwoThree` | TaskTimer/ContentView.swift:107-108 | `1::2:3` is rejected: three runs, although one gap is a double colon |
| `TimerExamples.RejectNoColon` | TaskTimer/ContentView.swift:108 | text without a colon is rejected |
| `TimerExamples.RejectForeignCharacter` | TaskTimer/ContentView.swift:109 | a minutes piece containing a character that is neither blank, sign nor digit is rejected |
| `TimerExamples.RejectBlankPiece` | TaskTimer/ContentView.swift:109 | a minutes piece of blanks only is rejected |
| `TimerExamples.RejectOneTwoThree` | TaskTimer/ContentView.swift:108 | `1:2:3` is rejected |
| `TimerExamples.PlusSignDigits` | TaskTimer/ContentView.swift:109-110 | `+d1:d2` with single digits is accepted as the two digit values, because `Int(String)` takes a leading plus |
| `TimerExamples.RejectForeignSeconds` | TaskTimer/ContentView.swift:110 | `d:c` with a seconds character that is not a blank, sign or digit is rejected |
| `TimerExamples.AcceptPlusSign` | TaskTimer/ContentView.swift:109-110 | `+1:5` is accepted as `(1, 5)` |
| `TimerExamples.RejectLetterSeconds` | TaskTimer/ContentView.swift:110 | `5:x` is rejected |
| `TimerExamples.RejectLetterMinutes` | TaskTimer/ContentView.swift:109 | `a:05` is rejected |
| `TimerExamples.RejectBlankMinutes` | TaskTimer/ContentView.swift:109 | ` :05` is rejected |
| `TimerExamples.RejectSecondsOnly` | TaskTimer/ContentView.swift:108 | `90` is rejected |
| `TimerExamples.PlayThenRunOut` | TaskTimer/ContentView.swift:82-86 | Play on a parseable field with duration `R >= 0` runs from `R` with the field normalised, is still running at zero after `R` ticks, and on tick `R + 1` stops with the field reading `00:00` |

## Left out

- TaskTimer/Item.swift: an unused persistence record with a timestamp and no logic.
- SwiftUI scene and layout: the menu-bar label, fonts, frames and hit testing. The label
  shows `timerString`, which is `TimerModel.TimerString`.
- Focus handling: dropping focus when the timer starts (TaskTimer/ContentView.swift:58-62).
  It changes no state the model tracks.
- The Quit button (TaskTimer/ContentView.swift:97-99). It ends the process.
- The `print` on invalid input (TaskTimer/ContentView.swift:114). It is console output only,
  and `TimerView.Commit` leaves the state unchanged on that path.
- Scheduling: `Timer.publish` cadence, the run loop and the `[weak self]` capture
  (TaskTimer/TimerModel.swift:44-47). These are replaced by explicit tick transitions,
  delivered only while the timer runs.
- `@Published` change propagation: modelled only as "apply the refresh after each
  transition that assigns `remainingSeconds`". `@Published` emits before it stores the new
  value. In every valid state (`TimerView.ReachableViewValid`), whenever the refresh fires,
  either the count was already zero or an explicit buffer assignment follows, so using the
  state after the transition gives the same buffer. `TimerView.TickView` also accepts a
  negative count, which no reachable state holds; there it writes `00:00` where the
  refresh would have read the old negative count.
- `TimerModel.SetTime`: `minutes * 60 + seconds` is unbounded here, so Swift's overflow trap
  on 64-bit `Int` is not modelled.
- `Text.ParseInt`: unbounded, so `Int(String)` returning `nil` on out-of-range digit strings
  is not modelled.
- `Text.Pad2`: integers are unbounded, so the effect of `%d` on values outside 32 bits is
  not modelled.
- Swift strings are sequences of grapheme clusters, but the model uses sequences of Unicode
  scalars. A combining mark directly after a colon or a blank would be grouped differently.
