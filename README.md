# Number Recall: a verified model of the game's logic

Number Recall is a short-term-memory exercise. It shows a random digit string for a
few seconds, asks the user to type or say it back, and scores the attempt. A
session has a configured number of rounds and ends with a summary of the results.

This project models the logic of the game in Dafny and proves properties of it:

- `Types` (`types.dfy`): the seven phases, the settings and the round result record.
- `App` (`app.dfy`): the target generator and the session controller. The
  controller is a class `Game`. Its fields are the controller's state: phase,
  settings, round, target, results and countdown. It has one method per event:
  start, countdown step, display timeout, recall timeout, submit, result timeout
  (advance) and reset. Its invariant `Valid()` ties the number of results to the
  round counter. Every method preserves it.
- `GameOverScreen` (`game_over_screen.dfy`): the summary statistics. The count,
  the percentage and a reference definition of the best streak are functions. The
  best-streak loop is a method proved equal to that reference, and proved to be
  the length of a longest run of correct answers.
- `ResultFeedback` (`result_feedback.dfy`): the per-digit comparison that the
  feedback view shows for a wrong answer.
- `SpeechRecognition` (`speech_recognition.dfy`): the filter that keeps only the
  digits of a recognised transcript.

Randomness is a parameter. Each `Math.floor(Math.random() * 10)` becomes the next
element of a caller-supplied sequence `draws` of values 0..9. Each timer becomes
the controller method that runs when it fires. A timer exists only in the phase
that scheduled it, so that phase is the method's precondition. Submission requires
the input phase, because the input form is shown only then (App.tsx:134-135).

## Model

| member | source | states |
|---|---|---|
| `App.DigitChar` | App.tsx:14 | a draw 0..9 appended to a string renders as one ASCII digit character |
| `App.DigitCharInverse` | App.tsx:14 | draws and digit characters correspond one to one: value of the character is the draw, and every digit character is the character of its value |
| `App.GenerateRandomNumber` | App.tsx:10-17 | empty string for digits <= 0; otherwise exactly `digits` characters, all '0'..'9', the i-th being the i-th draw |
| `App.Game.constructor` | App.tsx:48-53 | initial state: setup phase, default settings 7/3/10/0, round 1, empty target, no results, countdown 3; the invariant holds |
| `App.Game.StartGame` | App.tsx:67-74 | settings stored, round 1, results empty, countdown 3, phase countdown, a target of the configured length built from the draws |
| `App.Game.CountdownStep` | App.tsx:102-107 | while the countdown is positive it drops by exactly 1 and the phase stays; at 0 the phase becomes showing-number; nothing else changes and the countdown never goes negative |
| `App.Game.DisplayTimeout` | App.tsx:108-110 | showing-number moves to recall-delay and nothing else changes |
| `App.Game.RecallTimeout` | App.tsx:111-112 | recall-delay moves to awaiting-input and nothing else changes |
| `App.Game.HandleInputSubmit` | App.tsx:76-83 | exactly one result is appended, earlier results unchanged, scored correct iff the input equals the target; phase becomes showing-result |
| `App.Game.AdvanceRound` | App.tsx:85-94 | at or past the last round: game over with round and target unchanged; otherwise round + 1, countdown 3, a new target of the configured length, phase countdown; results unchanged either way |
| `App.Game.ResetGame` | App.tsx:96-98 | only the phase changes, to setup; round and results are kept until the next start |
| `App.GameOverHasAllRounds` | App.tsx:85-94 | a session that reaches game over holds exactly `rounds` results, and the summary counts that many rounds |
| `App.TwoRoundSession` | App.tsx:67-115 | a 4-digit, 2-round session runs two full countdown-to-result cycles, one result per cycle, and ends in game over with exactly those two results |
| `App.PlayRound` | App.tsx:100-112 | countdown 3, 2, 1, 0, display, recall and one submission lead to showing-result with one more result |
| `GameOverScreen.CountCorrect` | components/GameOverScreen.tsx:20 | the number of correct results is at most the total; it is 0 iff none is correct and the total iff all are |
| `GameOverScreen.Percentage` | components/GameOverScreen.tsx:21 | 0 for an empty session (no division by zero); otherwise the integer nearest to 100 * correct / total, halves up; within 0..100, 0 when none correct, 100 when all correct |
| `GameOverScreen.PercentageFacts` | components/GameOverScreen.tsx:21 | the rounded quotient satisfies the nearest-integer condition, lies in 0..100, and is 0 or 100 at the extremes |
| `GameOverScreen.UniqueQuotient` | components/GameOverScreen.tsx:21 | at most one integer satisfies the nearest-integer condition |
| `GameOverScreen.TrailingRun` | components/GameOverScreen.tsx:25-31 | the run of correct results that ends the list is no longer than the list |
| `GameOverScreen.TrailingRunIsMaximal` | components/GameOverScreen.tsx:25-33 | the trailing run is a run of correct results and every run that ends the list is at most that long |
| `GameOverScreen.LongestRunIsUpperBound` | components/GameOverScreen.tsx:23-33 | every run of consecutive correct results, including one that ends the list, is at most the best streak |
| `GameOverScreen.LongestRunIsAttained` | components/GameOverScreen.tsx:23-33 | some run of consecutive correct results is exactly as long as the best streak |
| `GameOverScreen.RunCountsCorrect` | components/GameOverScreen.tsx:20 | a run of correct results is no longer than the correct count |
| `GameOverScreen.LongestRunBounds` | components/GameOverScreen.tsx:23-33 | best streak <= correct count; 0 when nothing is correct; the whole session when everything is |
| `GameOverScreen.LongestStreak` | components/GameOverScreen.tsx:23-33 | the loop's result equals the reference best streak, bounds every run of correct results and is attained by one |
| `GameOverScreen.ComputeStats` | components/GameOverScreen.tsx:18-36 | total is the number of results, correct <= total, percentage <= 100, streak <= correct, and the whole equals the reference statistics |
| `GameOverScreen.StatsExample` | components/GameOverScreen.tsx:19-33 | T,T,F,T,T,T,F gives total 7, correct 5, percentage 71, streak 3 |
| `GameOverScreen.StatsEmpty` | components/GameOverScreen.tsx:19-33 | no results give total 0, correct 0, percentage 0, streak 0 |
| `ResultFeedback.PadEnd` | components/ResultFeedback.tsx:48 | the padded input has length max(input, target), starts with the input and is spaces after it |
| `ResultFeedback.Render` | components/ResultFeedback.tsx:23-34 | the "Correct!" verdict is shown iff the result is marked correct; only otherwise is there a per-digit comparison |
| `ResultFeedback.InputLine` | components/ResultFeedback.tsx:48-49 | one mark per position of the input padded to the target's length, so max(input, target) marks; each glyph is the padded character through `Glyph` (a space becomes ␣), marked correct iff the position is inside the target and the padded character equals the target's there |
| `ResultFeedback.InputLineMarks` | components/ResultFeedback.tsx:48-49 | the input line has length max(input, target); position i is marked correct iff the padded input equals the target there; positions past the target are never correct; input characters are shown through `Glyph`: every space, typed or padding, as ␣ and every other character as itself |
| `ResultFeedback.PaddingNeverCorrect` | components/ResultFeedback.tsx:48-49 | a padding position is shown as the open-box glyph and, against an all-digit target, is marked incorrect |
| `ResultFeedback.CountMarkedAtMostTarget` | components/ResultFeedback.tsx:48-49 | at most as many positions are marked correct as the target has characters |
| `ResultFeedback.AllMarkedIffEqual` | components/ResultFeedback.tsx:48-49 | for a target without spaces, every position is marked correct iff the input equals the target |
| `ResultFeedback.CorrectLineIsTarget` | components/ResultFeedback.tsx:43 | the "Correct:" line shows exactly the target's characters in order, and the input line is at least as long |
| `SpeechRecognition.DigitsOnly` | hooks/useSpeechRecognition.ts:67 | the filtered transcript holds only '0'..'9' and is no longer than the transcript |
| `SpeechRecognition.DigitsOnlyAppend` | hooks/useSpeechRecognition.ts:67 | filtering a concatenation concatenates the filtered parts |
| `SpeechRecognition.DigitsOnlyIsSubsequence` | hooks/useSpeechRecognition.ts:67 | the filtered transcript is a subsequence of the transcript: its characters keep their original order |
| `SpeechRecognition.DigitsOnlyOccurrences` | hooks/useSpeechRecognition.ts:67 | each digit occurs as often in the output as in the transcript and no other character occurs, so with the subsequence property the output is exactly the transcript's digits in order |
| `SpeechRecognition.DigitsOnlyKeepsDigitStrings` | hooks/useSpeechRecognition.ts:67 | an all-digit string is unchanged by the filter |
| `SpeechRecognition.DigitsOnlyIdempotent` | hooks/useSpeechRecognition.ts:67 | filtering twice is filtering once |
| `SpeechRecognition.DigitsOnlyLengthPreserved` | hooks/useSpeechRecognition.ts:67 | the output is as long as the transcript iff the transcript is all digits |
| `SpeechRecognition.DigitsOnlyEmpty` | hooks/useSpeechRecognition.ts:67 | the output is empty iff the transcript contains no digit |
| `SpeechRecognition.DigitsOnlyExample` | hooks/useSpeechRecognition.ts:67 | "four 5 six-7" filters to "57" |

## Left out

- Timers, their durations and their cancellation (App.tsx:100-122): each firing is a method call. Wall-clock time, `displayTime` and `recallDelay` play no part in the transitions. The settings still carry them as reals.
- `Math.random()` (App.tsx:14): modelled as the caller-supplied `draws` sequence of values 0..9. Uniformity is not modelled.
- Speech synthesis (`speak`, App.tsx:57-65, 109, 118-120), the sound cues (`playSound`, App.tsx:78-80, hooks/useSound.ts) and the sound toggle (App.tsx:54, 153): audio output only. `HandleInputSubmit` returns the correctness flag that selects the cue.
- The speech-recognition hook's lifecycle, refs and error logging (hooks/useSpeechRecognition.ts:28-90): only the digit filter at line 67 is modelled.
- The setup form and the input form (components/SetupScreen.tsx, components/InputForm.tsx): view code. Their slider ranges are not preconditions. The controller is modelled for any integer digit and round settings. A non-positive digit count gives an empty target. A non-positive round count still plays one round (`RoundLimit`).
- Once-per-phase submission: `handleInputSubmit` has no phase guard (App.tsx:76-83), and the spoken path submits after a 300 ms delay (components/InputForm.tsx:18). `HandleInputSubmit` requires the input phase instead. The model makes no claim about a late second submission.
- Reset in the middle of a round: the source calls `resetGame` only from the summary screen (App.tsx:139). `ResetGame` is modelled from any phase and clears nothing, as the source does.
- GameOverScreen.Percentage: modelled as exact integer rounding, halves up. The source divides in floating point, multiplies by 100 and calls `toFixed(0)`, which returns a string (the empty-session case returns the number 0; both display as "0%"). For at most 25 rounds every tie is a fraction with a power-of-two denominator, so the floating-point result is exact and agrees with the model. Beyond that the model does not capture floating-point error.
- Fractional settings: `digits` and `rounds` are JavaScript numbers in the source (types.ts:13,15) and integers here. A fractional digit count would make the loop of App.tsx:13 build the next whole number of characters, and a fractional round count would move the `>=` test of App.tsx:86 to the next whole round; the model expresses neither. The sliders produce only whole numbers (components/SetupScreen.tsx:54,66).
- String lengths and indices: strings are sequences of Unicode scalar values here, while `padEnd`, `.length`, `split('')` and indexing in the source count UTF-16 code units (components/ResultFeedback.tsx:43,48-49). The two agree on digit strings, which is what the input form's `[0-9]*` pattern and the transcript filter deliver, but not on characters outside the Basic Multilingual Plane.
- JSX rendering: the `Feedback` datatype stands for what the feedback view displays. Layout, classes and animation are not modelled.
