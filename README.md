# Typing test: a verified model of the test engine, history and text generator

This project models the core of a browser typing-speed test in Dafny and proves
what it promises:

- **the test engine** (`js/test.js`, modules `Metrics` and `TestSession`): the
  single test session with its countdown, input, per-second speed samples and
  final result. The session is a class whose methods change its fields as the
  engine does: start, stop, one tick per second, input changes and the
  finish that computes speed, accuracy and consistency.
- **the history** (`js/storage.js`, module `Storage`): saving a result in front
  of the stored list, reading the list back with its fallbacks, ordering it
  newest first, and the personal bests per duration.
- **the text generator** (`js/texts.js`, module `Texts`): the in-place
  Fisher–Yates shuffle of passage numbers and the loop that joins passages with
  single spaces until the text is long enough.
- **the display rules of the controller** (`js/app.js`, module `App`): how
  each passage character is marked against the input, the `m:ss` countdown
  label, the readable duration text and the fallback for the chosen duration.

The larger-of-two helper that the history and the text generator share
(`Math.max`, and keeping the higher best) is defined once, in module `Numbers`.

Things outside the program become parameters:
- The clock: `nowMs`, in milliseconds since the epoch.
- The random generator: a stream `random: nat -> Fraction` of values in [0, 1).
- The stock passages: any non-empty list of non-empty strings.
- What the storage key holds: the `Stored` value that parsing it yields.
- Whether the storage write succeeds: a flag.

The callbacks of the engine are made observable: the ghost log `tickReports`
holds every value passed to the per-second callback. `Tick` returns the
result handed to the completion callback.

Numbers are exact. Speeds, accuracies and the variance are `real`, and
integers are unbounded. `Math.round(x * 10) / 10` is `Floor(10x + 1/2) / 10`.
The consistency figure is the standard deviation rounded to one decimal. It is
computed exactly, with no square root. It is the non-negative integer `k` with
`400 v < (2k + 1)^2` and, when `k > 0`, `(2k - 1)^2 <= 400 v`, divided by 10. `ConsistencyIsRoundedDeviation`
proves that this equals the rounding of any non-negative `s` with `s * s = v`.

## Model

| member | source | states |
|---|---|---|
| Metrics.GetAccuracyCounts | js/test.js:40-47 | the counting loop returns `total` = input length and `correct` = number of positions where input and passage agree, with `correct <= total` |
| Metrics.CorrectCountWithinPassage | js/test.js:43-45 | positions beyond the passage never count, so the count is at most the passage length and ignores input past the passage |
| Metrics.AllCorrectIffPrefix | js/test.js:43-45 | every typed character is correct exactly when the input is a prefix of the passage |
| Metrics.NoneCorrectIffNoMatch | js/test.js:43-45 | the count is zero exactly when no typed position matches the passage |
| Metrics.Wpm | js/test.js:130 | speed is characters/5 words per duration/60 minutes, i.e. `w * d = 12 * chars` for a positive duration, 0 otherwise, never negative, independent of correctness |
| Metrics.Accuracy | js/test.js:131 | accuracy lies in [0, 100]; it is 100 exactly when something was typed and all of it is correct, and 0 exactly when nothing was typed or nothing is correct |
| Metrics.RoundTenth | js/test.js:138-140 | rounding to one decimal moves a value by at most half a tenth and gives a whole number of tenths |
| Metrics.RoundTenthInRange | js/test.js:139 | rounding a percentage keeps it in [0, 100] |
| Metrics.RoundTenthOfTenth | js/test.js:138-140 | a value that already is a whole number of tenths is left unchanged by rounding |
| Metrics.Variance | js/test.js:26-30 | the population variance (dividing by n, 0 for no samples) is never negative |
| Metrics.VarianceZeroIffConstant | js/test.js:26-31 | the variance is zero exactly when all samples are equal |
| Metrics.Consistency | js/test.js:132 | the consistency figure is never negative |
| Metrics.ConsistencyIsRoundedDeviation | js/test.js:26-32 | consistency equals the standard deviation (any `s >= 0` with `s * s` = variance) rounded to one decimal as at line 140 |
| Metrics.ConstantIsPerfectlyConsistent | js/test.js:26-32 | identical samples give consistency 0 |
| Metrics.FinalResult | js/test.js:134-144 | the result literal: accuracy in [0, 100], non-negative speed and consistency, the characters typed, the duration as both `duration` and `timeSelected`, and the samples |
| Metrics.FinalResultFigures | js/test.js:125-147 | every result has accuracy in [0, 100], 100 for a non-empty correct prefix, 0 when nothing matches, non-negative speed and consistency, and carries the characters typed and a copy of the samples |
| Metrics.SixtyWordsPerMinute | js/test.js:130 | 300 characters in 60 seconds is 60 words per minute |
| TestSession.Session.constructor | js/test.js:7-19 | the initial state: nothing running, all counters zero, no start time |
| TestSession.Session.Stop | js/test.js:81-86 | the timer is off afterwards; a running test is aborted, anything else is unchanged, so a second stop does nothing |
| TestSession.Session.Start | js/test.js:57-76 | any previous test is stopped; remaining = duration, input and samples empty, counter zero, current second recorded, timer on, and the per-second callback has been told the full duration once |
| TestSession.Session.Tick | js/test.js:91-107 | a tick decrements the remaining time by one, appends exactly one sample `charsThisSecond * 12`, resets the counter, records the second and reports; it finishes exactly when the remaining time reaches zero, with the timer off and one sample per second of the duration; samples stay non-negative multiples of 12 and `|wpmData| = duration - remaining` |
| TestSession.Session.SetInput | js/test.js:113-120 | the input is always replaced; the counter grows by the length gained only when the input grew and the second is the one last recorded, otherwise it is unchanged |
| TestSession.Session.Finish | js/test.js:125-147 | stops the timer and returns the result computed from the duration, passage, input and samples |
| TestSession.Session.RemainingSeconds | js/test.js:153-155 | remaining seconds plus samples taken make the duration; with a positive duration the countdown stays between 0 and the duration, aborted tests included, and a finished test has none left |
| TestSession.Session.PassageAndInput | js/test.js:161-163 | returns the session's passage and current input |
| TestSession.Session.IsRunning | js/test.js:169-171 | true exactly while a test is counting down |
| Storage.HistoryRaw | js/storage.js:46-55 | the stored array, or the empty list when nothing is stored, the text does not parse or the value is not an array |
| Storage.MakeRecord | js/storage.js:26-35 | a submission with identifier, date and samples present is stored exactly as given: the record converts back to that submission |
| Storage.MakeRecordCopies | js/storage.js:26-35 | the record copies duration, speed, accuracy, consistency, characters typed and any identifier, date and samples given; a missing identifier or date becomes the current time, missing samples the empty list |
| Storage.HistoryStore.Save | js/storage.js:23-41 | the new record goes in front of the stored list; a failed write leaves the storage as it was and raises nothing |
| Storage.SaveKeepsHistory | js/storage.js:36 | after a save the history is one longer, starts with the new record and keeps the earlier records unchanged and in order |
| Storage.InsertByDate | js/storage.js:63-67 | inserting adds exactly the one record: the result is one longer, holds the old records plus the new one as a multiset, and starts with the new record or the old first one |
| Storage.InsertKeepsNewestFirst | js/storage.js:63-67 | inserting into a newest-first list keeps it newest first |
| Storage.SortNewestFirst | js/storage.js:63-67 | the sort returns a permutation of its input ordered by date, newest first |
| Storage.GetHistory | js/storage.js:61-68 | the history shown is a permutation of the stored list, newest first |
| Storage.GetPersonalBests | js/storage.js:74-88 | the loop computes the fold of the records, with an entry for exactly the durations that occur |
| Storage.BestsKeys | js/storage.js:78-82 | there is an entry for a duration exactly when some record has it |
| Storage.BestsBound | js/storage.js:81-84 | each best is at least zero and at least every speed and accuracy recorded for its duration |
| Storage.BestsAttained | js/storage.js:81-84 | each best is zero or the value of some record of its duration, so it is the maximum of zero and those values |
| Texts.MinChars | js/texts.js:49 | the length target is `max(15000, (d / 60) * 120 * 5)`, with 600 seconds when no duration is given, and at least 15000 |
| Texts.Pick | js/texts.js:54 | the swap position drawn for position `i` lies in [0, i] |
| Texts.SwapKeepsPermutation | js/texts.js:55 | swapping two entries of a permutation of 0 .. n-1 gives a permutation |
| Texts.ShuffleDownPermutes | js/texts.js:53-56 | a shuffle pass only reorders: same length, same multiset |
| Texts.ShuffleDownKeepsPermutation | js/texts.js:53-56 | after a shuffle pass the indices are still a permutation of 0 .. n-1 |
| Texts.Shuffle | js/texts.js:53-56 | the in-place loop leaves the array as the shuffle of its old contents and uses one random value per position from the last down to the second |
| Texts.JoinSnoc | js/texts.js:58 | appending a passage adds it after one space, or alone when the text is empty |
| Texts.JoinEmptyIff | js/texts.js:58 | with non-empty passages the text is empty only before the first passage, so no leading space is ever added |
| Texts.AppendPass | js/texts.js:57-60 | one pass appends at least one passage, in shuffled order, and stops early only when the text has reached the target |
| Texts.GetRandomPassage | js/texts.js:48-63 | the text is at least the target long and shorter than target + 1 + the longest passage; it is a single-space join of passages, in passes where every pass but the last covers all passages and no pass repeats one; the loop terminates |
| App.RenderPassageHighlight | js/app.js:92-106 | the loop builds exactly the highlighted passage, one span per character |
| App.HighlightRule | js/app.js:95-103 | span i shows passage[i]; it is correct exactly when typed and equal, incorrect exactly when typed and different; the cursor is exactly at the input length and exists exactly when the input is shorter than the passage |
| App.CorrectSpansAreCorrectCount | js/app.js:99-100 | the display marks as correct exactly as many characters as the engine counts for accuracy |
| App.ParseInt | js/app.js:62 | `parseInt(s, 10)` is `NaN` exactly when no digit follows the optional sign |
| App.IntToStringRoundTrip | js/app.js:62 | parsing the decimal text of an integer gives that integer back |
| App.SelectedDuration | js/app.js:62 | the chosen duration is never 0: the parsed value, or 60 when the text is not a number or is zero |
| App.SelectedDurationOfText | js/app.js:62 | a menu value holding the text of a non-zero duration selects exactly that duration |
| App.JsRem60 | js/app.js:73 | JavaScript's `% 60`: below 60 in size, with the sign of the dividend, and differing from it by a multiple of 60 |
| App.PadStart2 | js/app.js:73 | padding to two characters adds only leading zeros and keeps the text at its end |
| App.TimerLabel | js/app.js:73 | for a non-negative countdown the label is the whole minutes in decimal, a colon, and the tens and units digits of the seconds within the minute |
| App.TimerLabelRoundTrip | js/app.js:73 | for a non-negative countdown the label is minutes, a colon and two digits, and reads back as the remaining seconds (the same label is built at line 125) |
| App.FormatDurationAsWritten | js/app.js:55-59 | as written: under a minute the text ends in "s"; from a minute on, hours included, it ends in " min" |
| App.FormatDuration | js/app.js:55-59 | with the hour branch labelled in hours: "s" under a minute, " min" under an hour, " h" from an hour on |
| App.FormatDurationRoundTrip | js/app.js:55-59 | with the hour branch labelled in hours, every duration text reads back as its number of seconds |
| App.FormatDurationAsWrittenMislabelsHours | js/app.js:58 | as written, 3600 seconds is shown as "1 min", which reads as 60 seconds |
| App.FormatDurationAgreesBelowAnHour | js/app.js:55-57 | below an hour the corrected text is the text as written |

## Left out

- Floating point: all figures are exact reals and unbounded integers. The model does not capture IEEE rounding, `NaN`, or the loss of precision of `parseInt` beyond 2^53.
- `Math.sqrt` is not modelled. Consistency is computed exactly as the nearest tenth of the square root. `ConsistencyIsRoundedDeviation` ties it to the rounded square root.
- The clock: each operation reads the time once, as `nowMs`. The separate `Date.now()` and `new Date()` reads at js/test.js:65 and 69, at js/test.js:93 and 136 (the second read by `Tick` and the result date set in `finish`), and at js/storage.js:27-28 are merged into that one value.
- Dates as ISO text and their parsing in the sort comparator: dates are millisecond timestamps, so an unparseable date (a `NaN` comparison) is not modelled.
- Storage.SortNewestFirst: the contract does not state stability (records with equal dates keep their stored order), although the insertion does keep them in order.
- Storage as JSON in `localStorage`: the stored value is modelled by what parsing yields. Array elements are taken to be well-formed records. Durations are map keys as numbers, not as JavaScript property strings.
- `setInterval` and `clearInterval`: the timer is the flag `timerActive`, and ticks are calls of `Tick`.
- TestSession.Session.Tick: requires a running timer, because only the interval timer calls it.
- The callbacks are not called as functions. Their arguments are the ghost log `tickReports` and the value `Tick` returns.
- `Math.random`: the generator is the stream parameter `random`.
- Texts.GetRandomPassage: the contract does not say which passages each pass holds, only that it is duplicate-free and complete except for the last pass. The order comes from `Shuffle`, whose contract states it.
- The stock passage texts in js/texts.js:6-37 are not modelled. Any non-empty list of non-empty passages is accepted.
- App.FormatDurationRoundTrip: only for durations that are whole numbers in their unit. The decimal text of fractional values, such as 90 seconds giving "1.5 min", is not modelled.
- `parseInt` skipping leading white space is not modelled.
- Text is a sequence of Unicode characters (`string` is `seq<char>`), while JavaScript's `.length` and `[i]` count UTF-16 code units (js/test.js:42-44, 114-118 and 129; js/app.js:95-100). For characters outside the Basic Multilingual Plane, such as emoji, the model counts one where the source counts two. Input lengths, the characters typed and the speed derived from them, the growth credited per second, the accuracy counts and the highlight spans therefore differ for such text.
- The `console.error` message logged when a save fails (js/storage.js:39) is not modelled. Only the swallowed failure is: the storage keeps its old value and nothing is raised.
- The page: elements, screens, focus handling, the confirmation dialog, event wiring, the fields of the controller's own state object, the reports screen and the chart (js/chart.js) are presentation and are not modelled.

## Findings

| source | as written | input that shows it | evidently intended | confidence | as-written member | corrected member |
|---|---|---|---|---|---|---|
| js/app.js:58 | durations of an hour or more are shown as their number of hours followed by "min" | 3600 seconds gives "1 min" | the hour count labelled in hours, for example "1 h", so that every duration text reads back as its seconds (proved in App.FormatDurationRoundTrip) | medium; not executed; the durations listed on the reports screen (js/app.js:153) are all below an hour, so the branch shows only for longer durations | App.FormatDurationAsWrittenMislabelsHours | App.FormatDuration |
