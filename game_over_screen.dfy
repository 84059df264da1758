/** The statistics shown at the end of a session, computed from the round results. */
module GameOverScreen {
  import opened Types

  /** The four numbers on the summary screen. */
  datatype Stats = Stats(totalRounds: nat, correctAnswers: nat, percentage: nat, longestStreak: nat)

  /** `results.filter(r => r.isCorrect).length`. */
  function CountCorrect(results: seq<RoundResult>): (n: nat)
    ensures n <= |results|
    ensures n == 0 <==> forall i :: 0 <= i < |results| ==> !results[i].isCorrect
    ensures n == |results| <==> forall i :: 0 <= i < |results| ==> results[i].isCorrect
  {
    if results == [] then 0
    else
      var rest := CountCorrect(results[1..]);
      assert forall i :: 1 <= i < |results| ==> results[i] == results[1..][i - 1];
      (if results[0].isCorrect then 1 else 0) + rest
  }

  /** The accuracy: 0 for an empty session, otherwise 100 * correct / total rounded to the
      nearest integer, halves up. */
  function Percentage(correct: nat, total: nat): (p: nat)
    requires correct <= total
    ensures total == 0 ==> p == 0
    ensures total > 0 ==> 2 * total * p <= 200 * correct + total < 2 * total * p + 2 * total
    ensures p <= 100
    ensures correct == 0 ==> p == 0
    ensures 0 < total == correct ==> p == 100
  {
    if total == 0 then 0
    else
      var p := (200 * correct + total) / (2 * total);
      PercentageFacts(correct, total, p);
      p
  }

  /** The rounding condition pins the percentage down; 0, 100 and the bound follow. */
  lemma PercentageFacts(correct: nat, total: nat, p: nat)
    requires correct <= total && total > 0
    requires p == (200 * correct + total) / (2 * total)
    ensures 2 * total * p <= 200 * correct + total < 2 * total * p + 2 * total
    ensures p <= 100
    ensures correct == 0 ==> p == 0
    ensures correct == total ==> p == 100
  {
    var x := 200 * correct + total;
    DivBounds(x, 2 * total, p);
    if p > 100 {
      MulMono(2 * total, 101, p);
    }
    if correct == 0 {
      UniqueQuotient(total, x, p, 0);
    }
    if correct == total {
      UniqueQuotient(total, x, p, 100);
    }
  }

  lemma DivBounds(x: nat, d: nat, q: nat)
    requires d > 0 && q == x / d
    ensures d * q <= x < d * q + d
  {
  }

  lemma MulMono(k: nat, a: nat, b: nat)
    requires a <= b
    ensures k * a <= k * b
  {
  }

  /** At most one quotient satisfies the rounding condition. */
  lemma UniqueQuotient(t: nat, x: nat, p: nat, q: nat)
    requires t > 0
    requires 2 * t * p <= x < 2 * t * p + 2 * t
    requires 2 * t * q <= x < 2 * t * q + 2 * t
    ensures p == q
  {
    if p < q {
      MulMono(2 * t, p + 1, q);
    } else if q < p {
      MulMono(2 * t, q + 1, p);
    }
  }

  /** The length of the run of correct results that ends the list. */
  function TrailingRun(results: seq<RoundResult>): (n: nat)
    ensures n <= |results|
  {
    if results == [] || !results[|results| - 1].isCorrect then 0
    else TrailingRun(results[..|results| - 1]) + 1
  }

  /** Reference definition of the best streak: the longest trailing run of any prefix. */
  function LongestRun(results: seq<RoundResult>): (n: nat)
  {
    if results == [] then 0
    else
      var before := LongestRun(results[..|results| - 1]);
      var here := TrailingRun(results);
      if before >= here then before else here
  }

  /** Positions i..j-1 are all correct: a run of correct answers. */
  ghost predicate IsRun(results: seq<RoundResult>, i: int, j: int)
  {
    0 <= i <= j <= |results| && forall k :: i <= k < j ==> results[k].isCorrect
  }

  /** The trailing run is a run, and every run that ends the list is no longer than it. */
  lemma {:induction false} TrailingRunIsMaximal(results: seq<RoundResult>, i: int)
    requires IsRun(results, i, |results|)
    ensures |results| - i <= TrailingRun(results)
    ensures IsRun(results, |results| - TrailingRun(results), |results|)
    decreases |results|
  {
    if results != [] && results[|results| - 1].isCorrect {
      var init := results[..|results| - 1];
      if i < |results| {
        TrailingRunIsMaximal(init, i);
      } else {
        TrailingRunIsMaximal(init, |init|);
      }
    } else if results != [] {
      assert i == |results|;
    }
  }

  /** Every run of correct answers is at most LongestRun long. */
  lemma {:induction false} LongestRunIsUpperBound(results: seq<RoundResult>, i: int, j: int)
    requires IsRun(results, i, j)
    ensures j - i <= LongestRun(results)
    decreases |results|
  {
    if results != [] {
      var init := results[..|results| - 1];
      if j == |results| {
        TrailingRunIsMaximal(results, i);
      } else {
        assert IsRun(init, i, j);
        LongestRunIsUpperBound(init, i, j);
      }
    }
  }

  /** Some run of correct answers is exactly LongestRun long. */
  lemma {:induction false} LongestRunIsAttained(results: seq<RoundResult>)
    ensures exists i, j :: IsRun(results, i, j) && j - i == LongestRun(results)
    decreases |results|
  {
    if results == [] {
      assert IsRun(results, 0, 0);
    } else {
      var init := results[..|results| - 1];
      TrailingRunIsMaximal(results, |results|);
      if LongestRun(init) >= TrailingRun(results) {
        LongestRunIsAttained(init);
        var i, j :| IsRun(init, i, j) && j - i == LongestRun(init);
        assert IsRun(results, i, j);
      } else {
        assert IsRun(results, |results| - LongestRun(results), |results|);
      }
    }
  }

  /** The best streak never exceeds the number of correct answers, is 0 when nothing is
      correct, and is the whole session when everything is. */
  lemma LongestRunBounds(results: seq<RoundResult>)
    ensures LongestRun(results) <= CountCorrect(results)
    ensures CountCorrect(results) == 0 ==> LongestRun(results) == 0
    ensures CountCorrect(results) == |results| ==> LongestRun(results) == |results|
  {
    LongestRunIsAttained(results);
    var i, j :| IsRun(results, i, j) && j - i == LongestRun(results);
    RunCountsCorrect(results, i, j);
    if CountCorrect(results) == |results| {
      assert IsRun(results, 0, |results|);
      LongestRunIsUpperBound(results, 0, |results|);
    }
  }

  /** A run of correct answers contributes its whole length to the correct count. */
  lemma {:induction false} RunCountsCorrect(results: seq<RoundResult>, i: int, j: int)
    requires IsRun(results, i, j)
    ensures j - i <= CountCorrect(results)
    decreases |results|
  {
    if i < j {
      assert results[0].isCorrect || i > 0;
      if i == 0 {
        assert IsRun(results[1..], 0, j - 1);
        RunCountsCorrect(results[1..], 0, j - 1);
      } else {
        assert IsRun(results[1..], i - 1, j - 1);
        RunCountsCorrect(results[1..], i - 1, j - 1);
      }
    }
  }

  /** The summary as a value: the reference the computation is checked against. */
  function StatsOf(results: seq<RoundResult>): Stats
  {
    var correct := CountCorrect(results);
    Stats(|results|, correct, Percentage(correct, |results|), LongestRun(results))
  }

  /** The best-streak loop: a run counter reset by every wrong answer, with the best
      seen so far updated at each reset and once more after the last result. */
  method LongestStreak(results: seq<RoundResult>) returns (longestStreak: nat)
    ensures longestStreak == LongestRun(results)
    ensures forall i, j :: IsRun(results, i, j) ==> j - i <= longestStreak
    ensures exists i, j :: IsRun(results, i, j) && j - i == longestStreak
  {
    longestStreak := 0;
    var currentStreak: nat := 0;
    var k := 0;
    while k < |results|
      invariant 0 <= k <= |results|
      invariant currentStreak == TrailingRun(results[..k])
      invariant longestStreak <= LongestRun(results[..k])
      invariant LongestRun(results[..k]) == if longestStreak >= currentStreak then longestStreak else currentStreak
    {
      assert results[..k + 1][..k] == results[..k];
      if results[k].isCorrect {
        currentStreak := currentStreak + 1;
      } else {
        longestStreak := if longestStreak >= currentStreak then longestStreak else currentStreak;
        currentStreak := 0;
      }
      k := k + 1;
    }
    longestStreak := if longestStreak >= currentStreak then longestStreak else currentStreak;
    assert results[..k] == results;
    forall i, j | IsRun(results, i, j) ensures j - i <= longestStreak {
      LongestRunIsUpperBound(results, i, j);
    }
    LongestRunIsAttained(results);
  }

  /** The `stats` computation of the summary screen. It takes the results by value
      and so cannot change them. */
  method ComputeStats(results: seq<RoundResult>) returns (stats: Stats)
    ensures stats == StatsOf(results)
    ensures stats.totalRounds == |results|
    ensures stats.correctAnswers <= stats.totalRounds && stats.percentage <= 100
    ensures stats.longestStreak <= stats.correctAnswers
  {
    var totalRounds := |results|;
    var correctAnswers := CountCorrect(results);
    var percentage := if totalRounds > 0 then Percentage(correctAnswers, totalRounds) else 0;
    var longestStreak := LongestStreak(results);
    LongestRunBounds(results);
    stats := Stats(totalRounds, correctAnswers, percentage, longestStreak);
  }

  /** A result of the given correctness; the strings do not enter the statistics. */
  function Outcome(isCorrect: bool): RoundResult
  {
    RoundResult("", "", isCorrect)
  }

  /** Worked example: T,T,F,T,T,T,F gives 7 rounds, 5 correct, 71% and a best streak of 3. */
  lemma StatsExample()
    ensures StatsOf([Outcome(true), Outcome(true), Outcome(false), Outcome(true),
                     Outcome(true), Outcome(true), Outcome(false)]) == Stats(7, 5, 71, 3)
  {
    var t, f := Outcome(true), Outcome(false);
    var rs := [t, t, f, t, t, t, f];
    // correct answers, counted from the back
    assert [f][1..] == [];
    assert [t, f][1..] == [f];
    assert [t, t, f][1..] == [t, f];
    assert [t, t, t, f][1..] == [t, t, f];
    assert [f, t, t, t, f][1..] == [t, t, t, f];
    assert [t, f, t, t, t, f][1..] == [f, t, t, t, f];
    assert rs[1..] == [t, f, t, t, t, f];
    assert CountCorrect([f]) == 0;
    assert CountCorrect([t, f]) == 1;
    assert CountCorrect([t, t, f]) == 2;
    assert CountCorrect([t, t, t, f]) == 3;
    assert CountCorrect([f, t, t, t, f]) == 3;
    assert CountCorrect([t, f, t, t, t, f]) == 4;
    assert CountCorrect(rs) == 5;
    // runs, prefix by prefix
    assert [t, t][..1] == [t];
    assert [t, t, f][..2] == [t, t];
    assert [t, t, f, t][..3] == [t, t, f];
    assert [t, t, f, t, t][..4] == [t, t, f, t];
    assert [t, t, f, t, t, t][..5] == [t, t, f, t, t];
    assert rs[..6] == [t, t, f, t, t, t];
    assert TrailingRun([t]) == 1 && LongestRun([t]) == 1;
    assert TrailingRun([t, t]) == 2 && LongestRun([t, t]) == 2;
    assert TrailingRun([t, t, f]) == 0 && LongestRun([t, t, f]) == 2;
    assert TrailingRun([t, t, f, t]) == 1 && LongestRun([t, t, f, t]) == 2;
    assert TrailingRun([t, t, f, t, t]) == 2 && LongestRun([t, t, f, t, t]) == 2;
    assert TrailingRun([t, t, f, t, t, t]) == 3 && LongestRun([t, t, f, t, t, t]) == 3;
    assert LongestRun(rs) == 3;
    assert Percentage(5, 7) == 71;
  }

  /** Worked example: an empty session shows zeros throughout. */
  lemma StatsEmpty()
    ensures StatsOf([]) == Stats(0, 0, 0, 0)
  {
  }
}
