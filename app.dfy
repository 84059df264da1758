/** The session controller of the game: the random target generator and the
    state machine that takes a session from setup through its rounds to the summary. */
module App {
  import opened Types
  import GameOverScreen

  /** One draw of the random source, `Math.floor(Math.random() * 10)`. */
  type Digit = d: int | 0 <= d <= 9

  /** The decimal character of a draw, as `+=` on a string renders the number. */
  function DigitChar(d: Digit): (c: char)
    ensures IsAsciiDigit(c)
  {
    ('0' as int + d) as char
  }

  /** The value of a decimal digit character. */
  function DigitValue(c: char): int
  {
    c as int - '0' as int
  }

  /** Digit characters and draws are in one-to-one correspondence. */
  lemma DigitCharInverse(d: Digit, c: char)
    ensures DigitValue(DigitChar(d)) == d
    ensures IsAsciiDigit(c) ==> 0 <= DigitValue(c) <= 9 && DigitChar(DigitValue(c)) == c
  {
  }

  /** How many characters a target has: the digit setting, or none when it is not positive. */
  function TargetLength(settings: GameSettings): nat
  {
    if settings.digits <= 0 then 0 else settings.digits
  }

  /** How many rounds a session plays: the round setting, but at least the first round,
      because the end of a round is only checked after it has been played. */
  function RoundLimit(settings: GameSettings): int
  {
    if settings.rounds >= 1 then settings.rounds else 1
  }

  /** Builds a target of `digits` characters, one per draw of the random source,
      which is supplied as `draws`. */
  method GenerateRandomNumber(digits: int, draws: seq<Digit>) returns (num: string)
    requires digits <= |draws|
    ensures digits <= 0 ==> num == ""
    ensures digits > 0 ==> |num| == digits
    ensures AllDigits(num)
    ensures forall i :: 0 <= i < |num| ==> num[i] == DigitChar(draws[i]) && DigitValue(num[i]) == draws[i]
  {
    if digits <= 0 {
      return "";
    }
    num := "";
    var i := 0;
    while i < digits
      invariant 0 <= i <= digits
      invariant |num| == i
      invariant forall k :: 0 <= k < i ==> num[k] == DigitChar(draws[k])
    {
      num := num + [DigitChar(draws[i])];
      i := i + 1;
    }
    forall k | 0 <= k < |num| ensures DigitValue(num[k]) == draws[k] {
      DigitCharInverse(draws[k], num[k]);
    }
  }

  /** The controller's state and the events that change it. Each timer of the
      source becomes a method called when that timer fires; the timer only exists
      in its own phase, which is therefore each method's precondition. */
  class Game {
    var gameState: GameState
    var settings: GameSettings
    var currentRound: int
    var currentNumber: string
    var results: seq<RoundResult>
    var countdown: int

    /** The session invariant: one result per finished round, a target of the
        configured length while a round is played, every result scored by exact
        equality, and a countdown between 3 and 0 that is 0 once it has run out. */
    ghost predicate Valid()
      reads this
    {
      && 0 <= countdown <= 3
      && (!gameState.Setup? && !gameState.Countdown? ==> countdown == 0)
      && (InRound(gameState) ==>
            1 <= currentRound <= RoundLimit(settings) && |results| == currentRound - 1)
      && (InRound(gameState) || gameState.ShowingResult? ==>
            |currentNumber| == TargetLength(settings) && AllDigits(currentNumber))
      && (gameState.ShowingResult? ==>
            1 <= currentRound <= RoundLimit(settings) && |results| == currentRound
            && results[|results| - 1].correctNumber == currentNumber)
      && (gameState.GameOver? ==> currentRound == RoundLimit(settings) && |results| == currentRound)
      && (forall i :: 0 <= i < |results| ==> WellScored(results[i]))
    }

    /** The state before any session: the setup screen with the default settings. */
    constructor ()
      ensures Valid()
      ensures gameState == Setup && settings == DefaultSettings
      ensures currentRound == 1 && currentNumber == "" && results == [] && countdown == 3
    {
      gameState := Setup;
      settings := DefaultSettings;
      currentRound := 1;
      currentNumber := "";
      results := [];
      countdown := 3;
    }

    /** `startGame`: a fresh session at round 1 with no results, a full countdown and a new target. */
    method StartGame(newSettings: GameSettings, draws: seq<Digit>)
      requires newSettings.digits <= |draws|
      modifies this
      ensures Valid()
      ensures settings == newSettings && currentRound == 1 && results == []
      ensures countdown == 3 && gameState == Countdown
      ensures |currentNumber| == TargetLength(newSettings)
      ensures forall i :: 0 <= i < |currentNumber| ==> currentNumber[i] == DigitChar(draws[i])
    {
      settings := newSettings;
      currentRound := 1;
      results := [];
      countdown := 3;
      currentNumber := GenerateRandomNumber(newSettings.digits, draws);
      gameState := Countdown;
    }

    /** The timer effect during the countdown: while the count is positive its timer
        takes one off; at 0 the target is shown. */
    method CountdownStep()
      requires Valid() && gameState == Countdown
      modifies this
      ensures Valid()
      ensures old(countdown) > 0 ==> gameState == Countdown && countdown == old(countdown) - 1
      ensures old(countdown) == 0 ==> gameState == ShowingNumber && countdown == 0
      ensures settings == old(settings) && currentRound == old(currentRound)
      ensures currentNumber == old(currentNumber) && results == old(results)
    {
      if countdown > 0 {
        countdown := countdown - 1;
      } else {
        gameState := ShowingNumber;
      }
    }

    /** The display timer fires: the target is hidden for the recall delay. */
    method DisplayTimeout()
      requires Valid() && gameState == ShowingNumber
      modifies this
      ensures Valid()
      ensures gameState == RecallDelay
      ensures settings == old(settings) && currentRound == old(currentRound) && countdown == old(countdown)
      ensures currentNumber == old(currentNumber) && results == old(results)
    {
      gameState := RecallDelay;
    }

    /** The recall-delay timer fires: the input form is shown. */
    method RecallTimeout()
      requires Valid() && gameState == RecallDelay
      modifies this
      ensures Valid()
      ensures gameState == AwaitingInput
      ensures settings == old(settings) && currentRound == old(currentRound) && countdown == old(countdown)
      ensures currentNumber == old(currentNumber) && results == old(results)
    {
      gameState := AwaitingInput;
    }

    /** `handleInputSubmit`: scores the input by exact equality with the target, appends
        one result and shows it. The input form, the only source of submissions, is
        shown only while input is awaited. */
    method HandleInputSubmit(userInput: string) returns (isCorrect: bool)
      requires Valid() && gameState == AwaitingInput
      modifies this
      ensures Valid()
      ensures isCorrect <==> userInput == old(currentNumber)
      ensures results == old(results) + [RoundResult(old(currentNumber), userInput, isCorrect)]
      ensures gameState == ShowingResult
      ensures settings == old(settings) && currentRound == old(currentRound) && countdown == old(countdown)
      ensures currentNumber == old(currentNumber)
    {
      isCorrect := userInput == currentNumber;
      results := results + [RoundResult(currentNumber, userInput, isCorrect)];
      gameState := ShowingResult;
    }

    /** `advanceRound`, run when the result timer fires: the session ends after its last
        round; otherwise the next round starts with a full countdown and a new target. */
    method AdvanceRound(draws: seq<Digit>)
      requires Valid() && gameState == ShowingResult
      requires currentRound < settings.rounds ==> settings.digits <= |draws|
      modifies this
      ensures Valid()
      ensures settings == old(settings) && results == old(results)
      ensures old(currentRound) >= settings.rounds ==>
                gameState == GameOver && currentRound == old(currentRound)
                && currentNumber == old(currentNumber) && countdown == old(countdown)
      ensures old(currentRound) < settings.rounds ==>
                gameState == Countdown && currentRound == old(currentRound) + 1 && countdown == 3
                && |currentNumber| == TargetLength(settings)
                && forall i :: 0 <= i < |currentNumber| ==> currentNumber[i] == DigitChar(draws[i])
    {
      if currentRound >= settings.rounds {
        gameState := GameOver;
      } else {
        currentRound := currentRound + 1;
        currentNumber := GenerateRandomNumber(settings.digits, draws);
        countdown := 3;
        gameState := Countdown;
      }
    }

    /** `resetGame`: back to the setup screen. Round and results stay as they are until
        the next session starts. */
    method ResetGame()
      requires Valid()
      modifies this
      ensures Valid()
      ensures gameState == Setup
      ensures settings == old(settings) && currentRound == old(currentRound) && countdown == old(countdown)
      ensures currentNumber == old(currentNumber) && results == old(results)
    {
      gameState := Setup;
    }
  }

  /** A finished session holds one result per configured round, and the summary
      screen counts exactly those rounds. */
  lemma GameOverHasAllRounds(g: Game)
    requires g.Valid() && g.gameState == GameOver && g.settings.rounds >= 1
    ensures |g.results| == g.settings.rounds
    ensures GameOverScreen.StatsOf(g.results).totalRounds == g.settings.rounds
  {
  }

  /** A two-round session of four digits: two full cycles from countdown to result,
      one result per cycle, then the summary. */
  method TwoRoundSession() returns (finalState: GameState, outcomes: seq<RoundResult>)
    ensures finalState == GameOver
    ensures outcomes == [RoundResult("1234", "1234", true), RoundResult("5678", "5600", false)]
  {
    var g := new Game();
    g.StartGame(GameSettings(4, 1.0, 2, 0.0), [1, 2, 3, 4]);
    assert g.currentNumber == "1234";
    PlayRound(g, "1234");
    assert |g.results| == 1;
    g.AdvanceRound([5, 6, 7, 8]);
    assert g.gameState == Countdown && g.currentRound == 2;
    assert g.currentNumber == "5678";
    PlayRound(g, "5600");
    assert |g.results| == 2;
    g.AdvanceRound([]);
    finalState, outcomes := g.gameState, g.results;
  }

  /** Drives one round from a full countdown to its shown result. */
  method PlayRound(g: Game, userInput: string)
    requires g.Valid() && g.gameState == Countdown && g.countdown == 3
    modifies g
    ensures g.Valid() && g.gameState == ShowingResult
    ensures g.results == old(g.results) + [RoundResult(old(g.currentNumber), userInput, userInput == old(g.currentNumber))]
    ensures g.settings == old(g.settings) && g.currentRound == old(g.currentRound)
    ensures g.currentNumber == old(g.currentNumber)
  {
    g.CountdownStep();
    g.CountdownStep();
    g.CountdownStep();
    g.CountdownStep();
    g.DisplayTimeout();
    g.RecallTimeout();
    var _ := g.HandleInputSubmit(userInput);
  }
}
