# Exam app model

A Dafny model of a small browser quiz app for a course on scientific writing.
A candidate enters a name and a collegiate number on the login screen. From
there they either sit the OFFICIAL exam, which is allowed once per number and
proctored by a tab-switch watchdog, or a password-protected PRACTICE exam that
can be restarted. Each exam shows a shuffled copy of a ten-question bank
against a 90-second-per-question clock. Every finished exam is appended to a
results list in the browser's local storage. An administrator, behind a
second password, can search that list and wipe it.

The model follows the program's structure:

- `Types` holds the records: question, choice, user, exam result, and the modes.
- `Strings` models `trim`, `startsWith`, `includes`, decimal rendering and `padStart`.
- `Shuffle` models the random-comparator sort as a sequence of exchanges.
- `Questions` holds the shipped bank and its well-formedness.
- `TimeFormat` is the `mm:ss` clock.
- `Quiz` is the exam session: every event is a pure transition that returns the new session and the `onFinish` call it made, if any.
- `Storage` models `localStorage`: the decoded results list plus string items.
- `App` is the mode machine and the result emission.
- `AdminPanel` is the search and wipe.
- `Exam` composes the session with the app and the shipped bank.

Time, randomness and storage failures are inputs:

- a clock tick is an event;
- the order the shuffle settles on is a sequence of exchanges;
- the date of a result is a string parameter;
- a throwing storage write is a `Fault` value.

`toLowerCase` is a function parameter. The bank and the two passwords form a `Build` parameter, and `App.Shipped` holds the deployed values; `Exam.ShippedQuizScores` states what they give.

## Model

| member | source | states |
|---|---|---|
| Shuffle.Shuffled | App.tsx:19-21 | the shuffled copy has the same length and the same elements with the same multiplicities as the bank, whatever exchanges the sort performed |
| Shuffle.ShuffledKeepsMembers | App.tsx:19-21 | an element occurs in the shuffled copy exactly when it occurs in the input |
| Shuffle.Swap | App.tsx:20 | one exchange swaps two positions, leaves every other position alone and keeps the multiset |
| Questions.BankShape | data/questions.ts:3-114 | the bank has ten questions with ids 1..10 in order; each offers choices A, B, C, D in that order; the correct ids are C, D, A, D, C, C, B, A, A, A |
| Questions.BankWellFormed | data/questions.ts:3-114 | question ids are pairwise distinct, choice ids are distinct within each question, and each correct id names exactly one choice |
| Questions.DistinctIdsCountOne | data/questions.ts:7-13 | with distinct choice ids, an id carried by a choice is carried by exactly one |
| Quiz.Start | components/Quiz.tsx:13-19 | a new session is on the first question with no answers, no marks, no dialog, not submitted, and 90 seconds per question on the clock |
| Quiz.Score | components/Quiz.tsx:43-51 | the reported score is the integer nearest to 100·K/N, halves rounded up (2N·r − N ≤ 200·K < 2N·r + N), and lies in 0..100 |
| Quiz.Hit | components/Quiz.tsx:46 | a question with no stored answer is never counted as correct, since its entry reads as `undefined` |
| Quiz.CountCorrect | components/Quiz.tsx:45-49 | the count never exceeds the number of questions; it is all of them exactly when every question holds its correct id, and zero exactly when none does |
| Quiz.ComputeScore | components/Quiz.tsx:43-51 | accumulating 100/N per correct answer and rounding once with `Math.round` gives exactly `Score` |
| Quiz.RoundOfPercentage | components/Quiz.tsx:51 | `Math.round` of the exact percentage 100·K/N is the integer score |
| Quiz.MathRound | components/Quiz.tsx:51 | `Math.round` returns the integer within half of its argument, halves upwards |
| Quiz.ScoreExtremes | components/Quiz.tsx:43-51 | all questions correct scores 100 and none correct scores 0 |
| Quiz.CountCorrectPermutation | components/Quiz.tsx:45-49 | the number of correct answers does not depend on the order of the questions |
| Quiz.CountCorrectConcat | components/Quiz.tsx:45-49 | counting over two concatenated lists adds the counts |
| Quiz.FinishExam | components/Quiz.tsx:34-52 | the first call seals the session, closes the dialog and reports the score of the answers held at that moment with those answers; any later call changes nothing and reports nothing |
| Quiz.TickTimer | components/Quiz.tsx:75-90 | above one second a tick takes exactly one second off and reports nothing; at one second or less the clock shows zero and the exam finishes; after submission the cleared interval no longer ticks |
| Quiz.HandleVisibility | components/Quiz.tsx:60-72 | a finish happens exactly for an OFFICIAL exam whose page becomes hidden before submission; otherwise nothing changes |
| Quiz.SelectOption | components/Quiz.tsx:98-103 | the current question's answer becomes the chosen option, overwriting any earlier one; every other answer and every other field stays; answer keys stay among the quiz's ids |
| Quiz.SelectOverwrites | components/Quiz.tsx:98-103 | choosing twice for the same question keeps only the second choice |
| Quiz.ToggleMark | components/Quiz.tsx:92-96 | the id is marked afterwards exactly when it was not before, no other mark changes, no mark is repeated, and a new mark goes to the end |
| Quiz.Remove | components/Quiz.tsx:94 | filtering keeps exactly the other ids and introduces no repetition |
| Quiz.RemoveConcat | components/Quiz.tsx:94 | removal distributes over concatenation and keeps every other id in place, so the remaining marks stay in their original order |
| Quiz.ToggleTwice | components/Quiz.tsx:92-96 | toggling twice restores the set of marks without repetitions, and the very same list when the id was not marked |
| Quiz.ToggleTwiceMovesToEnd | components/Quiz.tsx:92-96 | a re-added mark moves to the end, so toggling twice can reorder the list: [1, 2] becomes [2, 1] |
| Quiz.NavigationClamps | components/Quiz.tsx:364-384 | previous and next keep the index on a question, stay put at the first and last question, and undo each other away from the ends |
| Quiz.PreviousIndex | components/Quiz.tsx:364 | "previous" never moves forward, moves back by at most one, and stands still only on the first question |
| Quiz.NextIndex | components/Quiz.tsx:384 | "next" always lands on a question; from a question it moves forward by at most one and stands still only on the last |
| Quiz.ProgressBounded | components/Quiz.tsx:111 | the progress percentage stays between 0 and 100, because answers are only recorded under the quiz's ids |
| Quiz.Progress | components/Quiz.tsx:111 | the progress bar is never negative, is zero exactly when nothing is answered, and is full once there are as many answers as questions |
| Quiz.FormatTime | components/Quiz.tsx:105-109 | the display is at least five characters with a colon before the two seconds digits |
| Quiz.FormatTimeLength | components/Quiz.tsx:105-109 | the display is exactly five characters exactly when the time is below 6000 seconds |
| Quiz.FormatTimeRoundTrip | components/Quiz.tsx:105-109 | reading the display back gives minutes m and seconds sec with sec < 60 and 60·m + sec equal to the time shown |
| TimeFormat.Pad2 | components/Quiz.tsx:108 | a zero-padded field is all digits, reads back as its number, and is exactly two characters below 100 |
| TimeFormat.Clock | components/Quiz.tsx:108 | the two padded fields sit either side of the colon; the clock is five characters exactly when the minutes are below 100 |
| TimeFormat.ClockRoundTrip | components/Quiz.tsx:108 | reading a clock back gives the minutes and seconds it was made from |
| Strings.DecimalRoundTrip | components/Quiz.tsx:108 | a number's decimal rendering reads back as the number |
| Strings.LeadingZeros | components/Quiz.tsx:108 | zero padding does not change the value read back |
| Quiz.Step | components/Quiz.tsx:34-109 | every event keeps the session valid; submission is never undone; an `onFinish` call happens exactly when the event submits the session, reports the score of the answers held at that moment, and comes only from confirm, tick or the watchdog |
| Quiz.Run | components/Quiz.tsx:34-90 | whatever the events and whichever trigger comes first, a session makes at most one `onFinish` call; it makes one exactly when it ends up submitted; each reported score is the score of the reported answers |
| Quiz.TicksCountDown | components/Quiz.tsx:77-84 | before the last second each tick takes exactly one second off and reports nothing |
| Quiz.TimerExpires | components/Quiz.tsx:77-84 | with t seconds left, t ticks finish the exam with the clock at zero and exactly one report of the answers held |
| Quiz.FinishClickDoesNotSubmit | components/Quiz.tsx:55-57 | the finish button only opens the confirmation dialog and cancel only closes it; neither submits |
| Quiz.ConfirmNeedsDialog | components/Quiz.tsx:116-150 | the confirm button exists only inside the dialog: with the dialog closed it does nothing, and opening the dialog then confirming finishes the exam |
| Quiz.RacingTriggersReportOnce | components/Quiz.tsx:34-37 | once confirm, timeout or the watchdog has finished the exam, no later event reports anything |
| Strings.TrimStart | App.tsx:33 | leading whitespace is dropped: the result is a suffix, everything dropped is whitespace, and the result does not start with whitespace |
| Strings.TrimEnd | App.tsx:33 | trailing whitespace is dropped: the result is a prefix, everything dropped is whitespace, and the result does not end with whitespace |
| Strings.BlankIffAllWhitespace | App.tsx:33 | a field fails the blank check exactly when every character of it is whitespace |
| Strings.TrimIsInnerPiece | App.tsx:33 | trimming keeps the piece of the field between a leading and a trailing whitespace run, and that piece neither starts nor ends with whitespace |
| Strings.IsBlank | App.tsx:33 | an empty field is blank and a field starting with a visible character is not |
| Strings.Includes | components/AdminPanel.tsx:33-36 | a search term longer than the field is never found |
| Strings.IncludesIffOccurs | components/AdminPanel.tsx:33-36 | the search finds a term exactly when the term occurs at some position of the field |
| Strings.IncludesEmpty | components/AdminPanel.tsx:33-36 | the empty term is found in every field |
| Strings.PadStart | components/Quiz.tsx:108 | padding yields at least the requested width, ends with the original string, and fills only the front |
| Strings.ToDecimal | components/Quiz.tsx:108 | a number renders as a non-empty string of digits, of one digit exactly below 10 and of two exactly from 10 to 99 |
| App.StartQuiz | App.tsx:72-75 | the quiz screen opens with some order of the bank; nothing else changes |
| App.Initial | App.tsx:10-16 | the app opens on the login screen with an empty user, no password, no notice, the bank in its shipped order and the store as found |
| App.Record | App.tsx:84-90 | the appended record carries the name and number as typed, the reported score, the date and the type of the exam |
| App.Enabled | App.tsx:106-174 | a control can be used only on the screen that renders it; results reach the app only while the quiz screen is mounted |
| App.OfficialResultOnlyLogsOut | components/Result.tsx:90-97 | after an OFFICIAL exam the result screen offers only the logout, because restart is rendered for PRACTICE only |
| App.StartLogin | App.tsx:23-50 | every branch clears the password and keeps the user and the store. ADMIN goes straight to the administrator's screen without checks. A blank name or number only sets the notice. OFFICIAL for a registered number only sets the notice; otherwise it starts an OFFICIAL quiz. Any other kind with both fields filled goes to the practice instructions |
| App.LoginStartsOnlyAllowedOfficial | App.tsx:33-45 | from the login screen a quiz starts exactly for OFFICIAL with both fields filled and a number not on the registry |
| App.VerifyPassword | App.tsx:52-70 | the result is true exactly when the typed password equals the admin secret on the administrator's screen, or the practice secret elsewhere. A wrong password only sets the matching notice. A right practice password starts the quiz; a right admin password changes nothing |
| App.FinishQuiz | App.tsx:77-102 | the score and the result screen are set whatever happens to storage. Unless the results write throws, exactly one record is appended after the earlier ones. No key other than this number's registry key changes, and a practice exam never touches the registry |
| App.FinishMarksRegistry | App.tsx:95-97 | after a finish a number is on the registry exactly when it was before, or it is this exam's number, the exam was OFFICIAL and both writes went through |
| App.OfficialRetakeRefused | App.tsx:38-43 | after an OFFICIAL finish with both writes through, an OFFICIAL login with the same number is refused with the already-taken notice and nothing else changes |
| App.PaddedNumberIsAnotherKey | App.tsx:33-45 | with "123" on the registry, the number typed as "123 " passes both checks and starts a new OFFICIAL exam |
| App.Dispatch | App.tsx:23-174 | only the login screen and the result logout change the user; only a finished exam or a confirmed wipe changes the store |
| App.LogoutsReturnToLogin | App.tsx:122-174 | logging out of the result screen returns to login with an empty user, so the next login needs both fields again; logging out of the panel returns to login and clears the password; cancel on a password screen only returns to login; storage is never touched |
| App.RestartRetakesPractice | App.tsx:173 | restart after a practice exam starts a new practice quiz for the same candidate on a fresh order of the bank, asking no password and leaving storage alone |
| App.InitialInv | App.tsx:10-16 | the first screen satisfies the app invariant |
| App.DispatchKeepsInv | App.tsx:23-174 | every enabled event keeps the invariant. The questions are some order of the bank. The instructions, quiz and result screens are only reached with both fields filled. The instructions screen is reached only for practice. An OFFICIAL quiz never runs for a number on the registry |
| App.RunKeepsInv | App.tsx:23-174 | the invariant holds after any sequence of interactions |
| App.DispatchKeepsRegistry | App.tsx:77-174 | only a confirmed wipe can take a number off the registry |
| App.NoSecondOfficialAttempt | App.tsx:38-45 | once a number is on the registry, no interactions without a confirmed wipe ever run an OFFICIAL quiz for it again |
| App.PanelNeedsSecret | App.tsx:106-129 | with a non-empty admin secret, the panel appears only by typing that secret into the administrator's password box |
| App.AdminSubmitOnlyWarns | App.tsx:53-123 | the enter button of the administrator's form only sets the wrong-password notice, since the form is only shown while the password is wrong |
| App.PracticeNeedsSecret | App.tsx:61-68 | from the practice instructions the quiz starts exactly when the practice secret was typed, and then as a practice exam |
| Storage.TakenKey | App.tsx:40-96 | the registry key is the prefix `exam_taken_` followed by the number as typed, and is never the results key |
| Storage.TakenKeyInjective | App.tsx:40-96 | different numbers have different registry keys |
| Storage.HasTaken | App.tsx:40 | a number counts as having sat the exam only if its key is set, and the mark the app writes always counts |
| Storage.StoredResults | App.tsx:92 | an absent results key reads as the empty list |
| AdminPanel.Load | components/AdminPanel.tsx:13-18 | the panel shows the stored list, or an empty list when nothing is stored, with an empty search term |
| AdminPanel.Filtered | components/AdminPanel.tsx:33-36 | a record is shown exactly when it is stored and its lowercased name contains the lowercased term or its number contains the term as typed |
| AdminPanel.Matches | components/AdminPanel.tsx:33-36 | a term typed as part of the number always matches, and so does a term that lowercases to nothing |
| AdminPanel.FilteredConcat | components/AdminPanel.tsx:33-36 | filtering distributes over concatenation, so the rows shown keep the stored order |
| AdminPanel.FilteredSingleton | components/AdminPanel.tsx:33-36 | a single record is shown exactly when it matches |
| AdminPanel.EmptyTermKeepsAll | components/AdminPanel.tsx:33-36 | an empty search term shows every record in order |
| AdminPanel.NameMatchIgnoresCase | components/AdminPanel.tsx:34 | two names that lowercase alike are found by the same terms |
| AdminPanel.NumberMatchIsCaseSensitive | components/AdminPanel.tsx:34-35 | the term "ab" finds the name "ABEL" but not the number "AB12" |
| AdminPanel.ClearStore | components/AdminPanel.tsx:22-28 | the results key and every `exam_taken_` key are removed; every other key is kept with its value |
| AdminPanel.Clear | components/AdminPanel.tsx:20-31 | a declined confirmation changes neither store nor list; a confirmed one wipes the store and empties the list shown |
| AdminPanel.ClearAgreesWithLoad | components/AdminPanel.tsx:13-31 | after a confirmed wipe the list on screen is what a fresh mount would load from the wiped store: nothing |
| AdminPanel.ClearKeepsOnlyOthers | components/AdminPanel.tsx:22-28 | the keys left after a wipe are exactly the keys that are not wiped |
| AdminPanel.ClearAllowsRetake | components/AdminPanel.tsx:23-28 | after a wipe no number is on the registry and the stored list reads as empty |
| AdminPanel.ClearIdempotent | components/AdminPanel.tsx:20-31 | wiping twice is the same as wiping once |
| Exam.TenQuestionsScoreExactly | components/Quiz.tsx:43-51 | on ten questions the score is exactly ten per correct answer, with no rounding |
| Exam.ReorderedTenScore | components/Quiz.tsx:43-51 | any order of a ten-question bank scores ten per correct answer of the bank: a multiple of 10 in 0..100 |
| Exam.ShuffledBankScore | data/questions.ts:3-114 | the shuffled shipped bank scores ten points per correct answer, always a multiple of 10 between 0 and 100 |
| Exam.ShuffledBankClock | components/Quiz.tsx:17 | the shipped bank gets a 900-second clock in every order |
| Exam.AnswerKeyScoresFull | data/questions.ts:13-112 | following the answer key scores 100 and answering nothing scores 0, in every order |
| Exam.SessionRecordsOnce | App.tsx:77-102 | end to end, under any storage fault: a submitted session leaves the app on the result screen with the score of the answers it reported; the stored list grows by exactly one record, this exam's, when the session was submitted and the results write goes through, and is untouched otherwise; a session never submitted leaves the app as it was |
| Exam.FinishEach | App.tsx:77-102 | handing every `onFinish` call straight to `handleFinishQuiz` appends one record per call when the results write goes through, and leaves the store untouched when it throws |
| Exam.QuizReportsOnceUnguarded | components/Quiz.tsx:34-37 | with no screen gate at all and under any storage fault, the stored list grows by one exactly when the session was submitted and the results write goes through, because the quiz calls `onFinish` at most once |
| Exam.PanelShowsNewRecord | components/AdminPanel.tsx:13-18 | unless the results write throws, a finished exam appears last on the panel the next time it is mounted |
| Exam.ShippedQuizScores | data/questions.ts:3-114 | in the shipped build the running quiz has ten questions, a 900-second clock and ten points per correct answer of the bank, whatever the shuffle |

## Left out

- Presentation is left out: JSX layout, styles, icons, the sidebar and mobile overlay, and the results table markup.
- `components/Result.tsx` is modelled only through its two buttons. The restart button is rendered for a PRACTICE exam only (components/Result.tsx:90) and the logout button always, which `App.Enabled` encodes. The page's pass mark and certificate export are left out.
- `handleFinishQuiz` has no mode check of its own (App.tsx:77). `App.Enabled` delivers `QuizFinished` only on the quiz screen, standing for the quiz component being unmounted once the mode changes. `Exam.QuizReportsOnceUnguarded` shows that the quiz's own single-shot guard already limits an exam to one record without that gate.
- Parsing is left out. `JSON.parse` and `JSON.stringify` are not modelled; storage holds the decoded list. A stored list that fails to parse makes `handleFinishQuiz` throw before writing, which is covered by `ResultsWriteFails`. The panel's own parse is unguarded (components/AdminPanel.tsx:16), so a malformed list there crashes the panel, which the model does not represent. The truthiness test at components/AdminPanel.tsx:15 is modelled as "the key is present", since a list encoded as JSON is never the empty string.
- Floating point is left out. `ComputeScore` accumulates in exact reals and `Progress` is an exact real. For the shipped ten questions each step adds exactly 10, which binary floating point represents exactly, so the real model matches the program there.
- The React machinery is left out: `setInterval`/`clearInterval`, effects, refs and re-render timing. They become discrete `Tick` and `VisibilityChange` events delivered one at a time to a single-threaded state, and a submitted session receives no further ticks because `finishExam` clears the interval.
- `Math.random` is left out. The shuffle's exchanges are a parameter, so only "some permutation" is claimed, not its distribution.
- `alert`, `confirm`, `document.hidden`, `new Date().toISOString()` and `console.error` are inputs: the alert has no effect on state, `confirm` is a boolean, hidden is a boolean, the date is a string and the logged error is dropped.
- AdminPanel.Matches: `toLowerCase` is a function parameter, not Unicode case mapping. `AdminPanel.AsciiLower` is an ASCII stand-in used only by the concrete example `AdminPanel.NumberMatchIsCaseSensitive`.
- The literal passwords are fields of `App.Build`; `App.Shipped` fixes them and the shipped bank.
- The `QuizState` interface in `types.ts` is declared but unused by the code, so it has no counterpart.
- Selecting, marking and navigating after submission are not guarded, as in the code; the session ends because the app leaves the quiz screen.
- Events carry no timing. Two triggers landing in the same render are modelled as two events in some order, which the single-shot guard makes report the same result. The sessions they leave can still differ: the clock reads 0 after a final tick and keeps its last second when the watchdog finishes first.
