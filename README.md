# CBT exam runner — a verified model of its session logic

The exam runner is a single-page React app (`public/App.jsx`). It loads a question bank from
CSV text. It shuffles the bank with Fisher–Yates and runs a timed multiple-choice test. The
test in progress lives in `localStorage`, which holds the bank, deadline, answers and current
index, so a reload resumes it. The submitted result lives in `sessionStorage`. This project
models the non-UI part of that file in Dafny and proves what it promises.

Modules, one per file:

- `Wrappers` (`wrappers.dfy`): the `Option` type, used for absent storage keys and lines that
  are no question.
- `Text` (`text.dfy`): the few string functions the app calls.
  - `trim`, with the full ECMAScript whitespace set.
  - `toLowerCase`, for ASCII letters.
  - `includes`, `split` on one character, `join`.
  - decimal rendering and `padStart`.
- `Questions` (`questions.dfy`): the question record, its ids, unique ids.
- `Shuffle` (`shuffle.dfy`): `shuffleArray`, in place on an `array`.
  - The random draws are passed in as `picks`.
  - It is proved against the loop's specification function `Shuffled`, and against an
    independent recursive definition `FisherYates`.
- `Loader` (`loader.dfy`): all of the CSV loader.
  - the quote-aware comma split (a comma separates when an even number of `"` follows it);
  - `clean`;
  - the correct-answer key mapping;
  - the `q-<line>` ids;
  - the `forEach` loop.
- `Merge` (`merge.dfy`): how freshly loaded questions are merged into a running test.
- `Scoring` (`scoring.dfy`): what `handleSubmit` computes, and what the result view shows.
  - `handleSubmit`: score, total, percentage, time taken, attempted count.
  - result view: tier and counts.
- `Clock` (`clock.dfy`): the countdown expression, `formatTime` and `formatDuration`.
- `Exam` (`session.dfy`): the two browser stores as maps over a `Key` datatype. It also holds
  the class `Session`.
  - `Session` holds the React state and the two stores.
  - Its constructor is the mount: the lazy initialisers plus the index-persisting effect.
  - Its methods are the handlers, the mount effect's load and the timer tick.

Modelling conventions:

- Time is a `now: int` parameter in milliseconds.
- Randomness is a list of draws `picks`. `picks[k]` is below the number of cells still
  unshuffled at step `k` (`ValidPicks`).
- Stored values are already decoded (`Stored`). A key holding another kind of value reads as
  absent.
- `Math.ceil((end - now) / 1000)` is computed exactly on integers.
- `Math.round` of the percentage is exact round-half-up.
- `%` in `formatDuration` is JavaScript's truncating remainder.

## Model

| member | source | states |
|---|---|---|
| Shuffle.ShuffleArray | public/App.jsx:24-32 | shuffles `a` in place. The new contents are `Shuffled` of the old ones and a permutation of them (same multiset). It returns the same array it was given. |
| Shuffle.SwapCells | public/App.jsx:29 | the destructuring swap exchanges cells `i` and `j` and keeps every other cell |
| Shuffle.SwapSpec | public/App.jsx:29 | an exchange trades the two cells' elements and keeps every other |
| Shuffle.SwapPermutes | public/App.jsx:29 | an exchange keeps the multiset of elements |
| Shuffle.ShuffleStepsPermutes | public/App.jsx:26-30 | after any number of turns of the loop the array is a permutation of the input |
| Shuffle.ShuffledIsPermutation | public/App.jsx:24-32 | the shuffled list has the input's length and the input's multiset |
| Shuffle.FisherYates | public/App.jsx:24-32 | reference definition, recursive and independent of the loop: the last cell gets the first draw, the rest is shuffled recursively; it keeps the length |
| Shuffle.ShuffleStepsSplit | public/App.jsx:26-30 | after `k >= 1` turns the last cell holds what the first turn put there, and the prefix is the remaining turns applied to the prefix |
| Shuffle.ShuffledIsFisherYates | public/App.jsx:24-32 | the loop computes exactly the reference definition |
| Shuffle.FisherYatesInjective | public/App.jsx:24-32 | on distinct elements, different draws give different orders |
| Shuffle.ShuffledInjective | public/App.jsx:24-32 | the same statement for the loop: every draw sequence gives its own order |
| Text.TrimStartSpec | public/App.jsx:120 | `trimStart` keeps the suffix that begins at the first non-whitespace character; everything dropped is whitespace |
| Text.TrimEndSpec | public/App.jsx:120 | `trimEnd` keeps the prefix that ends at the last non-whitespace character; everything dropped is whitespace |
| Text.TrimSpec | public/App.jsx:120 | `trim` returns a slice of its input that neither starts nor ends with whitespace, and only whitespace is dropped |
| Text.TrimUnchanged | public/App.jsx:120 | a string without whitespace at either end is returned unchanged |
| Text.TrimIdempotent | public/App.jsx:120 | trimming twice is trimming once |
| Text.ToLower | public/App.jsx:121 | `toLowerCase` keeps the length and lowers each character |
| Text.ToLowerIdempotent | public/App.jsx:121 | lowering twice is lowering once |
| Text.Contains | public/App.jsx:123-127 | `includes` holds iff the pattern occurs at some position |
| Text.JoinSplitOn | public/App.jsx:115 | joining the pieces of a split gives back the text |
| Text.SplitOnPiecesFree | public/App.jsx:115 | no piece of a split contains the separator |
| Text.NatToString | public/App.jsx:134 | the decimal rendering of a number is a non-empty digit string without a leading zero |
| Text.DigitsValueOfNatToString | public/App.jsx:134 | reading the rendering back gives the number |
| Text.NatToStringInjective | public/App.jsx:134 | different numbers render differently |
| Text.PadStart | public/App.jsx:307 | `padStart` fills on the left up to the width and keeps the string as the suffix |
| Loader.Fields | public/App.jsx:118 | definition of the lookahead split `split(/,(?=(?:(?:[^"]*"){2})*[^"]*$)/)`; it always yields at least one field. What it computes is stated by `JoinFields`, `FieldsCons`, `FieldsAppend` and `FieldsOfJoin` below |
| Loader.EvenQuotesConcat | public/App.jsx:118 | the parity of quote counts adds up over concatenation |
| Loader.NoQuotesEven | public/App.jsx:118 | a string without quotes has an even number of them |
| Loader.JoinFields | public/App.jsx:118 | joining the split fields with commas gives back the line |
| Loader.FieldsWithoutQuotes | public/App.jsx:118 | on a line without quotes the regex split is the plain split on `,` |
| Loader.FieldsCons | public/App.jsx:118 | a leading comma separates exactly when an even number of quotes follows it; otherwise it joins the first field |
| Loader.FieldsAppend | public/App.jsx:118 | a comma followed by an even number of quotes cuts the line into two independently split halves |
| Loader.FieldsNoSeparator | public/App.jsx:118 | a line without any separating comma is one field |
| Loader.QuotedFieldQuotes | public/App.jsx:118 | a quoted field without inner quotes holds an even number of quotes |
| Loader.QuotedFieldWhole | public/App.jsx:118 | a quoted field is never split, even at the commas inside it |
| Loader.CsvFieldQuotes | public/App.jsx:118 | a well-formed CSV field has an even number of quotes and splits into itself |
| Loader.JoinedCsvFieldsQuotes | public/App.jsx:118 | well-formed fields joined with commas hold an even number of quotes |
| Loader.FieldsOfJoin | public/App.jsx:118 | round trip: well-formed fields joined with commas split back into exactly those fields |
| Loader.StripQuotes | public/App.jsx:120 | `replace(/^"\|"$/g, '')` drops a leading quote and a trailing quote, each on its own: both for a quoted field, only the first or last character when one end is quoted (a lone `"` becomes empty), nothing for an unquoted field |
| Loader.Clean | public/App.jsx:120 | definition of `clean`: `StripQuotes`, then `Trim`. See the rows of those two |
| Loader.CorrectKey | public/App.jsx:121-128 | `a`–`d` map to their option key. An indicator containing `option` takes the first of a–d it contains, and stays unchanged iff it contains none. Anything else becomes `optionA`. The result is an option key or the indicator itself. |
| Loader.KeyOf | public/App.jsx:121-128 | definition: the sixth field, cleaned and lower-cased, mapped by `CorrectKey` (see its row) |
| Loader.IdForInjective | public/App.jsx:134 | different lines get different ids |
| Loader.ParseLine | public/App.jsx:117-141 | a line yields a record iff it is not the header and qualifies (at least 6 fields and a non-empty cleaned first field); the record's id is `q-<line>` and its text is non-empty |
| Loader.ParseRow | public/App.jsx:117-141 | a row written from well-formed fields loads into exactly the record of those fields, cleaned |
| Loader.LineResults | public/App.jsx:117 | one parse result per line, each the parse of that line at its index |
| Loader.KeptAt | public/App.jsx:117-141 | the positions of the kept records: one per record, increasing, in range |
| Loader.KeptAtPositions | public/App.jsx:117-141 | the `k`-th kept record is the one at the `k`-th kept position |
| Loader.KeptAtComplete | public/App.jsx:117-141 | every position holding a record is kept |
| Loader.KeptIdsAlike | public/App.jsx:131-141 | results with records at the same positions and the same ids keep the same id list |
| Loader.Sources | public/App.jsx:117-141 | the lines that yield records: one per record, increasing, in range |
| Loader.RecordsAtSources | public/App.jsx:117-141 | the `k`-th record is exactly what its source line parses to, and no source line is the header |
| Loader.SourcesComplete | public/App.jsx:117-141 | a line is a source iff it is after the header and qualifies |
| Loader.RecordIds | public/App.jsx:134 | each record's id is `q-` and the index of its line, so ids follow line order |
| Loader.RecordIdsUnique | public/App.jsx:134 | loaded ids are unique and none is `q-0` |
| Loader.StableIds | public/App.jsx:129-134 | texts whose lines qualify alike (in particular the same text twice) give the same ids in the same order |
| Loader.ParseBank | public/App.jsx:115-144 | definition of the loaded bank: the records of the lines of `split('\n')`. See `SourcesComplete`, `RecordsAtSources`, `ParseBankIds` and `LoadQuestions` |
| Loader.ParseBankIds | public/App.jsx:115-144 | a loaded bank has unique ids, non-empty texts and no header record |
| Loader.LoadQuestions | public/App.jsx:115-144 | the `forEach` loop builds exactly `ParseBank(text)` |
| Merge.MergeRunning | public/App.jsx:146-167 | definition of the merge while a test runs: the updated running list followed by the brand-new questions. See `MergeKeepsPositions`, `MergeAppendsUnseen`, `MergeDropsNothing`, `MergeKeepsUnique` and `MergeIdempotent` |
| Merge.Lookup | public/App.jsx:153 | the `Map` lookup finds a question iff the id is loaded. The one found carries that id. With unique loaded ids it is the only one. |
| Merge.UpdateContent | public/App.jsx:157-160 | the update keeps the length and replaces each question by its updated version |
| Merge.BrandNew | public/App.jsx:164-165 | the filter keeps exactly the loaded questions whose ids are not already present |
| Merge.BrandNewSubsequence | public/App.jsx:164-165 | the filter keeps loaded order |
| Merge.UpdateKeepsIds | public/App.jsx:157-160 | updating content keeps every id in place |
| Merge.MergeKeepsPositions | public/App.jsx:146-170 | the first `\|current\|` entries have the current ids in order. Their content is the loaded question's when the id is loaded, and is unchanged otherwise. |
| Merge.MergeAppendsUnseen | public/App.jsx:164-167 | the remaining entries are the loaded questions with unseen ids, in loaded order |
| Merge.MergeDropsNothing | public/App.jsx:146-170 | the current ids stay a prefix and every loaded id is present |
| Merge.LoadedIdKept | public/App.jsx:164-167 | a loaded id is in the updated part or in the appended part |
| Merge.MergeEmptyFresh | public/App.jsx:146-170 | merging no records leaves the list untouched |
| Merge.MergeKeepsUnique | public/App.jsx:146-170 | merging keeps ids unique |
| Merge.BrandNewUnique | public/App.jsx:164-165 | the filtered list has unique ids when the loaded list does |
| Merge.MergeIdempotent | public/App.jsx:146-170 | merging the same bank a second time changes nothing |
| Scoring.CorrectCount | public/App.jsx:248-250 | the number of correct answers is at most the number of questions |
| Scoring.RawScore | public/App.jsx:247-250 | the `forEach` counts exactly the correctly answered questions |
| Scoring.Percentage | public/App.jsx:253 | definition: the rounded share of 100 when the total is positive, else 0. See `RoundHalfUp`, `PercentageBounds` and `ResultPercentage` |
| Scoring.RoundHalfUp | public/App.jsx:253 | exact `Math.round(num/den)`: the unique integer within half a unit below or exactly half above |
| Scoring.RoundHalfUpUnique | public/App.jsx:253 | that integer is unique |
| Scoring.RoundHalfUpScale | public/App.jsx:253 | scaling score and total by the marks does not change the rounded ratio |
| Scoring.PercentageBounds | public/App.jsx:253 | a score between 0 and the total gives a percentage between 0 and 100 |
| Scoring.ResultOf | public/App.jsx:247-277 | definition of the result record `handleSubmit` stores. See `ResultBounds`, `ResultPercentage`, `ScoringExample` and `SubmittedCounts` |
| Scoring.TimeTaken | public/App.jsx:258-264 | time taken is capped above by the duration. Without a stored deadline it is the full duration. Otherwise it is `now - (end - duration)` while that is below the duration. |
| Scoring.ResultBounds | public/App.jsx:247-253 | score is correct answers times marks, total is questions times marks, `0 <= score <= total` and `0 <= percentage <= 100` |
| Scoring.ResultPercentage | public/App.jsx:252-253 | the percentage is 0 for an empty test, else the rounded share of correct answers, whatever the marks |
| Scoring.ScoringExample | public/App.jsx:247-266 | four 2-mark questions with three correct: score 6, total 8, 75 percent, 3 attempted |
| Scoring.TierOf | public/App.jsx:578-602 | definition of the result tier. `TierMonotone` pins its thresholds and its monotonicity |
| Scoring.TierMonotone | public/App.jsx:578-602 | FAIL below 40, PASS below 70, DISTINCTION otherwise; a higher percentage never earns a lower tier |
| Scoring.CountsOf | public/App.jsx:604-609 | correct, wrong and skipped add up to the total |
| Scoring.IdSetMembers | public/App.jsx:249 | an id is in the id set iff some question carries it |
| Scoring.IdSetSize | public/App.jsx:249 | a list has no more distinct ids than questions |
| Scoring.CorrectCountAnswered | public/App.jsx:249 | with unique ids, each correct answer is a distinct answered question of the list |
| Scoring.CorrectAtMostAttempted | public/App.jsx:247-256 | with unique ids, correct answers are at most the answered ones |
| Scoring.SubmittedCounts | public/App.jsx:604-609 | with unique ids and answers only to questions of the test, `0 <= correct <= attempted <= total` and neither wrong nor skipped is negative |
| Scoring.DuplicateIdsOvercount | public/App.jsx:604-607 | with a duplicated id one answer counts twice and the view shows `wrong = -1` |
| Scoring.SummaryOf | public/App.jsx:575-609 | the result screen shows the tier of the stored percentage, the question count, the correct count, the stored attempted count, `wrong = attempted - correct` and `skipped = total - attempted` |
| Clock.SecondsLeft | public/App.jsx:199 | `ceil((end - now) / 1000)`: the least `r` with `end - now <= 1000 r` |
| Clock.SecondsLeftMonotone | public/App.jsx:195-207 | the seconds left never grow as `now` grows |
| Clock.SecondsLeftPositive | public/App.jsx:199-204 | time is left (no submit) exactly while the deadline lies ahead |
| Clock.InitialTimeLeft | public/App.jsx:96-103 | 0 without a deadline; otherwise the seconds left, floored at 0; positive iff the deadline lies ahead |
| Clock.FormatTime | public/App.jsx:303-308 | definition of `formatTime`. `FormatTimeReadsBack` states what it yields |
| Clock.SecondsPadded | public/App.jsx:307 | the seconds of a minute pad to two digits that read back as those seconds |
| Clock.ClockFace | public/App.jsx:307 | minutes, a colon and two digits form a clock face with those fields |
| Clock.FormatTimeReadsBack | public/App.jsx:303-308 | `formatTime` yields a clock face. Its seconds are below 60. The minutes times 60 plus the seconds give the count, or 0 for a negative count. The minutes have no leading zero. |
| Clock.ZeroFace | public/App.jsx:304 | the face `"0:00"` reads as zero minutes and zero seconds |
| Clock.FormatDuration | public/App.jsx:310-315 | definition of `formatDuration`. `FormatDurationParts` and `FormatDurationNegative` state what it yields |
| Clock.SecondsOfMinute | public/App.jsx:313 | JavaScript's `seconds % 60`: below 60 in size, congruent to the seconds, with the dividend's sign |
| Clock.FormatDurationParts | public/App.jsx:310-315 | for a non-negative span the minutes and seconds shown recombine to the whole seconds, seconds below 60 |
| Clock.FormatDurationNegative | public/App.jsx:310-315 | `formatDuration(-1500)` is `"-1m -2s"`: floored minutes beside a truncated remainder |
| Exam.NameInjective | public/App.jsx:56-91 | the storage key names are pairwise distinct |
| Exam.NumberAt | public/App.jsx:97-98 | reading a stored number: present iff the key is set to a number |
| Exam.AnswersAt | public/App.jsx:91 | reading the stored answers: present iff the key is set to an answer map |
| Exam.BankAt | public/App.jsx:56 | reading the stored bank: present iff the key is set to a bank |
| Exam.ReportAt | public/App.jsx:566-571 | reading the stored result: present iff the key is set to a result |
| Exam.InitialView | public/App.jsx:61-74 | the view is the test iff a stored deadline lies strictly ahead; otherwise the result iff one is stored; else the welcome screen |
| Exam.StartedStoreReads | public/App.jsx:222-229 | what `startTest` stores reads back as the new bank, the deadline, empty answers and index 0, and every other key keeps its presence and its value |
| Exam.StartedPersists | public/App.jsx:222-229 | the store after `startTest` holds the new test |
| Exam.ResumeAfterStart | public/App.jsx:217-237 | a reload after `startTest` resumes the test while the deadline lies ahead, and shows the welcome screen otherwise |
| Exam.ResumeAfterSubmit | public/App.jsx:278-285 | a reload after submitting shows the result |
| Exam.ResumeAfterExit | public/App.jsx:289-296 | a reload after exiting shows the welcome screen |
| Exam.ClearedStoreKeepsBank | public/App.jsx:281-292 | submitting or exiting forgets deadline, answers and index but keeps the bank |
| Exam.PersistsBank | public/App.jsx:170-175 | storing a new bank keeps the rest of a persisted test |
| Exam.PersistsAnswers | public/App.jsx:242 | storing new answers keeps the rest of a persisted test |
| Exam.PersistsIndex | public/App.jsx:182-187 | storing a new index keeps the rest of a persisted test |
| Exam.ReloadResumes | public/App.jsx:54-103 | a reload before the deadline restores the same view, question order, answers and index |
| Exam.Step | public/App.jsx:542-551 | Previous, Next and the palette keep an index that names a question within `[0, n-1]`. Each moves as its button does; a disabled button changes nothing. |
| Exam.NavigateInRange | public/App.jsx:542-551 | any sequence of presses keeps the index within bounds |
| Exam.NextReachesLast | public/App.jsx:549-551 | pressing Next `k` times advances by `k` and stops at the last question |
| Exam.ShuffledCopy | public/App.jsx:222 | `shuffleArray([...questions])` on a fresh array yields `Shuffled` of the list |
| Exam.NewBank | public/App.jsx:146-175 | while a test runs the loaded bank is merged into the running list, otherwise it is shuffled |
| Exam.Session.constructor | public/App.jsx:54-187 | the mount runs the initialisers, persists the index while in the test view, and sets up the mount and timer closures |
| Exam.Session.LoadBank | public/App.jsx:146-176 | no records change nothing. Otherwise a test visible at mount gets the merge into the mount-time list, any other view gets a fresh shuffle. The list is stored, and the store keeps the running test. |
| Exam.Session.StartTest | public/App.jsx:217-237 | on an empty bank nothing changes. Otherwise: a fresh shuffle, deadline `now + duration`, empty answers, index 0, stored result removed, test view, and a store that holds the new test. |
| Exam.Session.SelectAnswer | public/App.jsx:239-243 | only `answers[qId]` changes, and the store follows it |
| Exam.Session.Move | public/App.jsx:542-551 | in the test view the index takes one step and is stored; nothing else changes |
| Exam.Session.SubmitWith | public/App.jsx:245-286 | the result of the given questions and answers is stored for the tab. Deadline, answers and index are removed. The view becomes the result. |
| Exam.Session.Submit | public/App.jsx:245-286 | the Submit button scores the current questions and answers |
| Exam.Session.Tick | public/App.jsx:193-207 | outside the test view, or without a deadline, nothing happens. Otherwise, with time left, it shows the seconds left. At or past the deadline it shows 0 and submits the current answers. |
| Exam.Session.TickAsWritten | public/App.jsx:190-213 | the same, but at the deadline it submits what the timer's closure captured |
| Exam.Session.Exit | public/App.jsx:289-296 | all four session keys are removed and the welcome screen is shown |
| Exam.Session.ShowResult | public/App.jsx:565-609 | without a stored result the result view turns to welcome; with one it shows the tier and counts of that result |
| Exam.ShuffledSingle | public/App.jsx:24-32 | shuffling one question leaves it as it is |
| Exam.OneQuestionScores | public/App.jsx:247-253 | a one-question, two-mark test scores 2 iff its answer is correct |
| Exam.StartOneQuestion | public/App.jsx:217-237 | a fresh browser with one stored question, after Start Test, is in the test view with a 20-minute deadline and no answers |
| Exam.ExpiryScoreAsWritten | public/App.jsx:190-213 | as written, a correctly answered one-question test that runs out scores 0 |
| Exam.ExpiryScoreCorrected | public/App.jsx:190-213 | with the corrected tick the same test scores 2 |

## Left out

- JSX rendering, CSS, icons, the mobile menu and the guest-id badge are user interface.
- The guest id (lines 77–83) is not modelled. Its initialiser draws on `Math.random` and
  writes `cbt_guestId` to `localStorage` (line 81); that write is not part of the modelled
  store, and the constructor changes only the index key.
- `fetch`, the Promise chain and `console.log` (lines 112–113, 179) are I/O.
  - The CSV text is an input of `Exam.Session.LoadBank`.
  - The fetch delivers its text once; the model lets `LoadBank` be called once or more and
    always uses the mount-time closure.
  - A failed fetch is the same as never calling it.
- `setInterval`/`clearInterval` scheduling (lines 209–212) is concurrency and is not modelled.
  - Each tick is one call of `Exam.Session.Tick` or `Exam.Session.TickAsWritten` with its own
    `now`.
  - The immediate first tick after entering the test view is a separate call; the constructor
    and `StartTest` make no tick themselves.
  - React's batching of state updates is taken as given: a handler's updates all land before
    the next render.
- The timer effect reads `cbt_endTime` once, when it starts (line 193). The model reads it at
  each tick. While the test view is up only another browser tab could change that key, and
  other tabs are not modelled.
- `Math.random` is replaced by the `picks` draws. Only permutation, agreement with the
  reference definition and injectivity of the draws are proved, not the uniformity of the
  distribution.
- The percentage's floating-point evaluation (line 253) is modelled as exact rounding. IEEE
  round-off moves some values that sit exactly at a half. For example, 29 correct of 200
  two-mark questions gives `(58/400)*100 = 14.499999999999998` in JavaScript, which
  `Math.round` makes 14, while `Scoring.RoundHalfUp` gives 15.
- Several `Date.now()` calls inside one handler are collapsed into one `now`. The
  `completedAt` timestamp shares that value.
- `Date`/`toLocaleTimeString` formatting of the completion time (lines 612–619) depends on
  locale and time zone.
- `parseInt`, `JSON.parse` and the configuration defaults (lines 43–58, 85–93) are not
  modelled.
  - Stored values are typed `Stored` values.
  - Duration and marks are constructor parameters, without their `cbt_duration`/`cbt_marks`
    defaults of 20 and 2.
  - A value of the wrong kind reads as absent, whereas JSON text of another shape would reach
    the app as is.
- `alert` only informs the user; the empty-bank `startTest` is modelled as "nothing changes".
- `window.confirm` gates the Submit button (line 411). `Session.Submit` models a confirmed
  press; a cancelled press changes nothing and is not modelled as a call.
- `toLowerCase` lowers ASCII letters only; other Unicode case mappings are not modelled.
- The `attemptedCount ?? ...` and `timeTakenMs || 0` fallbacks of the result view (lines
  607, 610) apply to results stored by other versions. The model stores complete results, so
  it always reads the stored analytics.
- The per-question review list of the result view is display only.
- `Scoring.ResultBounds` and `Scoring.ResultPercentage` assume positive marks per question.
  With negative marks the bound `0 <= score <= total` does not hold. The default is 2.
- `Scoring.SubmittedCounts` assumes unique question ids and answers only to questions of the
  test. `Scoring.DuplicateIdsOvercount` shows what happens otherwise.
- Where the app's documented behaviour and its code differ, the model follows the code:
  - A deadline already past at cold start does not submit anything; the view is simply the
    result or the welcome screen (line 64).
  - `timeTakenMs` is capped only from above (line 264).

## Findings

| source | as written | input that shows it | evidently intended | confidence | as-written member | corrected member |
|---|---|---|---|---|---|---|
| public/App.jsx:190-213 | The timer effect depends only on `[view]`. The `handleSubmit` its interval calls is therefore the one of the render that entered the test view. When time runs out it scores the questions and answers of that moment: none after Start Test. | A fresh browser with one question. Start Test, then answer the question correctly, then let the 20 minutes run out. The stored result has score 0. | Auto-submit at the deadline scores the answers given so far: score 2 here. | not executed | Exam.ExpiryScoreAsWritten (via Exam.Session.TickAsWritten) | Exam.ExpiryScoreCorrected (via Exam.Session.Tick) |
