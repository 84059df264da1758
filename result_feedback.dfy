/** What the feedback view shows after a round: a verdict, and for a wrong
    answer the target next to the user's input marked digit by digit. */
module ResultFeedback {
  import opened Types

  /** The glyph that stands in for a padding space ("open box", U+2423). */
  const OpenBox: char := '\U{2423}'

  /** `s.padEnd(n, ' ')`: `s` followed by spaces up to length `n`; `s` itself when it is already that long. */
  function PadEnd(s: string, n: int): (r: string)
    ensures |r| == if |s| >= n then |s| else n
    ensures r[..|s|] == s
    ensures forall i :: |s| <= i < |r| ==> r[i] == ' '
  {
    if |s| >= n then s else s + seq(n - |s|, _ => ' ')
  }

  /** One rendered character of the input line: the glyph shown and whether it is marked correct. */
  datatype DigitMark = DigitMark(glyph: char, isCorrect: bool)

  /** What the view renders for one round result. */
  datatype Feedback =
    | CorrectVerdict
    | IncorrectVerdict(correctLine: string, inputLine: seq<DigitMark>)

  /** A space, typed or padding, is shown as the open-box glyph; every other character as itself. */
  function Glyph(c: char): char
  {
    if c == ' ' then OpenBox else c
  }

  /** The input line: the input padded to the target's length, each position marked
      correct when it holds the target's character at that position (there is none
      past the target's end). */
  function InputLine(userInput: string, correctNumber: string): (marks: seq<DigitMark>)
    ensures |marks| == if |userInput| >= |correctNumber| then |userInput| else |correctNumber|
  {
    var padded := PadEnd(userInput, |correctNumber|);
    seq(|padded|, i requires 0 <= i < |padded| =>
      DigitMark(Glyph(padded[i]), i < |correctNumber| && padded[i] == correctNumber[i]))
  }

  /** The view: the "Correct!" verdict, or the target line and the marked input line. */
  function Render(result: RoundResult): (f: Feedback)
    ensures result.isCorrect <==> f.CorrectVerdict?
  {
    if result.isCorrect then CorrectVerdict
    else IncorrectVerdict(result.correctNumber, InputLine(result.userInput, result.correctNumber))
  }

  /** The number of marks shown as correct. */
  function CountMarked(marks: seq<DigitMark>): nat
  {
    if marks == [] then 0 else (if marks[0].isCorrect then 1 else 0) + CountMarked(marks[1..])
  }

  /** The input line is as long as the longer of input and target; position i is marked
      correct exactly when the padded input and the target agree there, so nothing
      past the target's end is ever marked correct. */
  lemma InputLineMarks(userInput: string, correctNumber: string, i: int)
    requires 0 <= i < |InputLine(userInput, correctNumber)|
    ensures |InputLine(userInput, correctNumber)| == if |userInput| >= |correctNumber| then |userInput| else |correctNumber|
    ensures InputLine(userInput, correctNumber)[i].isCorrect <==>
              i < |correctNumber| && PadEnd(userInput, |correctNumber|)[i] == correctNumber[i]
    ensures i >= |correctNumber| ==> !InputLine(userInput, correctNumber)[i].isCorrect
    ensures i < |userInput| ==> InputLine(userInput, correctNumber)[i].glyph == Glyph(userInput[i])
  {
  }

  /** Positions past the end of the input are padding: they show the open box and,
      against an all-digit target, are never marked correct. */
  lemma PaddingNeverCorrect(userInput: string, correctNumber: string, i: int)
    requires AllDigits(correctNumber)
    requires |userInput| <= i < |InputLine(userInput, correctNumber)|
    ensures InputLine(userInput, correctNumber)[i].glyph == OpenBox
    ensures !InputLine(userInput, correctNumber)[i].isCorrect
  {
    assert PadEnd(userInput, |correctNumber|)[i] == ' ';
  }

  /** Marks of a concatenation add up. */
  lemma {:induction false} CountMarkedAppend(a: seq<DigitMark>, b: seq<DigitMark>)
    ensures CountMarked(a + b) == CountMarked(a) + CountMarked(b)
  {
    if a == [] {
      assert a + b == b;
    } else {
      assert (a + b)[1..] == a[1..] + b;
      CountMarkedAppend(a[1..], b);
    }
  }

  /** A line in which no mark is correct counts zero. */
  lemma {:induction false} CountMarkedNone(marks: seq<DigitMark>)
    requires forall i :: 0 <= i < |marks| ==> !marks[i].isCorrect
    ensures CountMarked(marks) == 0
  {
    if marks != [] {
      CountMarkedNone(marks[1..]);
    }
  }

  /** At most one mark per target character is correct. */
  lemma CountMarkedAtMostTarget(userInput: string, correctNumber: string)
    ensures CountMarked(InputLine(userInput, correctNumber)) <= |correctNumber|
  {
    var marks := InputLine(userInput, correctNumber);
    var n := |correctNumber|;
    assert marks == marks[..n] + marks[n..];
    CountMarkedAppend(marks[..n], marks[n..]);
    CountMarkedBound(marks[..n]);
    CountMarkedNone(marks[n..]);
  }

  /** No line counts more correct marks than it has marks. */
  lemma {:induction false} CountMarkedBound(marks: seq<DigitMark>)
    ensures CountMarked(marks) <= |marks|
  {
    if marks != [] {
      CountMarkedBound(marks[1..]);
    }
  }

  /** For a target without spaces (every generated target is one), the input line is
      marked correct throughout exactly when the input equals the target, in which
      case the round was scored correct. */
  lemma AllMarkedIffEqual(userInput: string, correctNumber: string)
    requires forall i :: 0 <= i < |correctNumber| ==> correctNumber[i] != ' '
    ensures (forall i :: 0 <= i < |InputLine(userInput, correctNumber)| ==> InputLine(userInput, correctNumber)[i].isCorrect)
              <==> userInput == correctNumber
  {
    var marks := InputLine(userInput, correctNumber);
    var padded := PadEnd(userInput, |correctNumber|);
    if |userInput| != |correctNumber| {
      // the first position where one of the two has run out is marked incorrect
      var k := if |userInput| > |correctNumber| then |correctNumber| else |userInput|;
      assert k < |padded|;
      assert k >= |userInput| ==> padded[k] == ' ';
      assert !marks[k].isCorrect;
    } else {
      assert padded == userInput;
      if forall i :: 0 <= i < |marks| ==> marks[i].isCorrect {
        forall i | 0 <= i < |userInput| ensures userInput[i] == correctNumber[i] {
          assert marks[i].isCorrect;
        }
      }
    }
  }

  /** The "Correct:" line shows exactly the target's characters, in order. */
  lemma CorrectLineIsTarget(result: RoundResult)
    requires !result.isCorrect
    ensures Render(result).correctLine == result.correctNumber
    ensures |Render(result).inputLine| >= |result.correctNumber|
  {
  }
}
