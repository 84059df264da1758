/** The records shared by the controller and the views of the number-recall game. */
module Types {

  /** The seven phases of a session, in the order a round visits them. */
  datatype GameState =
    | Setup
    | Countdown
    | ShowingNumber
    | RecallDelay
    | AwaitingInput
    | ShowingResult
    | GameOver

  /** The phases during which a round is in progress and not yet scored. */
  predicate InRound(g: GameState)
  {
    g.Countdown? || g.ShowingNumber? || g.RecallDelay? || g.AwaitingInput?
  }

  /** Session settings. The two durations are seconds; only "the timer fired"
      matters to the transitions, so they are carried but never inspected. */
  datatype GameSettings = GameSettings(digits: int, displayTime: real, rounds: int, recallDelay: real)

  /** The settings the controller holds before the first session starts. */
  const DefaultSettings := GameSettings(7, 3.0, 10, 0.0)

  /** The outcome of one round: the target, what the user submitted, and whether they match. */
  datatype RoundResult = RoundResult(correctNumber: string, userInput: string, isCorrect: bool)

  /** A result is well formed when its flag is exact string equality of input and target. */
  predicate WellScored(r: RoundResult)
  {
    r.isCorrect == (r.userInput == r.correctNumber)
  }

  /** The character class `\d` of a JavaScript regular expression: ASCII '0'..'9' only. */
  predicate IsAsciiDigit(c: char)
  {
    '0' <= c <= '9'
  }

  predicate AllDigits(s: string)
  {
    forall i :: 0 <= i < |s| ==> IsAsciiDigit(s[i])
  }
}
