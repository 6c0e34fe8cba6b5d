/**
 * The hint engine: a guess scored against the solution, position by
 * position, after both are upper-cased (`Guess::hints`, `Guess::matches`).
 */
module Guesses {
  import opened Text

  datatype Hint = Correct | Incorrect | Misplaced

  /** A guess is the word as typed; case is only ignored when it is scored. */
  type Guess = string

  function Min(a: nat, b: nat): nat { if a <= b then a else b }

  /**
   * The hints of `guess` against `solution`: the two upper-cased words are
   * zipped, so there is one hint per position both of them have.
   */
  function Hints(guess: Guess, solution: string): (hints: seq<Hint>)
    ensures |hints| == Min(|guess|, |solution|)
  {
    var value := Upper(guess);
    var sol := Upper(solution);
    seq(Min(|value|, |sol|), i requires 0 <= i < Min(|value|, |sol|) =>
      if value[i] == sol[i] then Correct
      else if value[i] in sol then Misplaced
      else Incorrect)
  }

  /** Whether the guess is the solution, ignoring case. */
  predicate Matches(guess: Guess, solution: string)
    ensures Matches(guess, solution) ==> |guess| == |solution|
  {
    Upper(guess) == Upper(solution)
  }

  /** Position i is Correct exactly when the letters there agree up to case. */
  lemma HintCorrect(guess: Guess, solution: string, i: nat)
    requires i < Min(|guess|, |solution|)
    ensures Hints(guess, solution)[i] == Correct <==> UpperChar(guess[i]) == UpperChar(solution[i])
  {
  }

  /**
   * Position i is Misplaced exactly when the letters there differ and the
   * solution holds the guessed letter anywhere, and Incorrect otherwise.
   */
  lemma HintMisplacedOrIncorrect(guess: Guess, solution: string, i: nat)
    requires i < Min(|guess|, |solution|)
    ensures Hints(guess, solution)[i] == Misplaced <==>
      UpperChar(guess[i]) != UpperChar(solution[i]) &&
      exists j :: 0 <= j < |solution| && UpperChar(solution[j]) == UpperChar(guess[i])
    ensures Hints(guess, solution)[i] == Incorrect <==>
      forall j :: 0 <= j < |solution| ==> UpperChar(solution[j]) != UpperChar(guess[i])
  {
    var sol := Upper(solution);
    var a := UpperChar(guess[i]);
    if a in sol {
      var j :| 0 <= j < |sol| && sol[j] == a;
      assert UpperChar(solution[j]) == a;
    } else {
      forall j | 0 <= j < |solution| ensures UpperChar(solution[j]) != a {
        assert sol[j] == UpperChar(solution[j]);
      }
    }
  }

  /** The hints do not depend on the case either word is typed in. */
  lemma HintsIgnoreCase(g1: Guess, g2: Guess, s1: string, s2: string)
    requires Upper(g1) == Upper(g2) && Upper(s1) == Upper(s2)
    ensures Hints(g1, s1) == Hints(g2, s2)
  {
    assert |g1| == |Upper(g1)| == |g2|;
    assert |s1| == |Upper(s1)| == |s2|;
  }

  /** A guess matches exactly when it is as long as the solution and every hint is Correct. */
  lemma MatchesIffAllCorrect(guess: Guess, solution: string)
    ensures Matches(guess, solution) <==>
      |guess| == |solution| && forall i :: 0 <= i < |guess| ==> Hints(guess, solution)[i] == Correct
  {
    if |guess| == |solution| && forall i :: 0 <= i < |guess| ==> Hints(guess, solution)[i] == Correct {
      forall i | 0 <= i < |guess| ensures Upper(guess)[i] == Upper(solution)[i] {
        HintCorrect(guess, solution, i);
      }
    }
  }

  /**
   * Letter counts are not tracked: guessing "EERIE" against "CRANE" scores
   * every E Misplaced although the solution holds a single E.
   */
  lemma RepeatedLetterScoresTwice()
    ensures Hints("EERIE", "CRANE") == [Misplaced, Misplaced, Misplaced, Incorrect, Correct]
  {
    var h := Hints("EERIE", "CRANE");
    assert Upper("EERIE") == "EERIE";
    assert Upper("CRANE") == "CRANE";
    assert 'E' in "CRANE" && 'R' in "CRANE" && 'I' !in "CRANE";
  }

  lemma CrateAgainstCrane()
    ensures Hints("CRATE", "CRANE") == [Correct, Correct, Correct, Incorrect, Correct]
  {
    assert Upper("CRATE") == "CRATE";
    assert Upper("CRANE") == "CRANE";
    assert 'T' !in "CRANE";
  }

  lemma ReactAgainstCrane()
    ensures Hints("react", "CRANE") == [Misplaced, Misplaced, Correct, Misplaced, Incorrect]
  {
    assert Upper("react") == "REACT";
    assert Upper("CRANE") == "CRANE";
    assert 'R' in "CRANE" && 'E' in "CRANE" && 'C' in "CRANE" && 'T' !in "CRANE";
  }
}
