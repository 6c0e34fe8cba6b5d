/**
 * One puzzle attempt (`Game` in ui/src/state/game.rs): the state rule that
 * `Game::update` applies, and the shareable summary `Game::to_share`.
 */
module Games {
  import opened Text
  import opened Guesses

  datatype State = Running | Win | Loss

  /** `id` 0 marks a game whose puzzle is not known yet; such a game is never stored. */
  datatype Game = Game(id: nat, solution: string, guesses: seq<Guess>, current: Guess, state: State)

  datatype GameAction = SetSolution(id: nat, solution: string) | SetCurrent(current: Guess) | AddGuess

  const MaxTries: nat := 6

  function Tries(g: Game): nat { |g.guesses| }

  /** The game `Game::new` builds before `update`: everything default except the solution. */
  function Fresh(solution: string): (f: Game)
    ensures Consistent(f) && Tries(f) == 0
  {
    Game(0, solution, [], [], Running)
  }

  /** The state `update` derives from the guesses and the solution alone. */
  function NextState(guesses: seq<Guess>, solution: string): (st: State)
    ensures st != Running ==> guesses != []
    ensures st == Loss ==> |guesses| >= MaxTries
  {
    if guesses == [] then Running
    else if Matches(guesses[|guesses| - 1], solution) then Win
    else if |guesses| >= MaxTries then Loss
    else Running
  }

  /**
   * The pure part of `update`: the state recomputed, every other field kept.
   * Win means the last guess matches; Loss means it does not and all tries
   * are used; Running is everything else, the empty game included.
   */
  function Recompute(g: Game): (r: Game)
    ensures r.(state := g.state) == g
    ensures r.state == Win <==> g.guesses != [] && Matches(g.guesses[|g.guesses| - 1], g.solution)
    ensures r.state == Loss <==> r.state != Win && Tries(g) >= MaxTries
    ensures r.state == Running <==> r.state != Win && Tries(g) < MaxTries
  {
    g.(state := NextState(g.guesses, g.solution))
  }

  /** A game whose state is the one `update` would give it. */
  predicate Consistent(g: Game) {
    g.state == NextState(g.guesses, g.solution)
  }

  /** Recomputing twice is recomputing once, and the result is consistent. */
  lemma RecomputeIdempotent(g: Game)
    ensures Recompute(Recompute(g)) == Recompute(g)
    ensures Consistent(Recompute(g))
  {
  }

  /** The state depends on the guesses and the solution, and on nothing else. */
  lemma StateOnlyFromGuesses(g1: Game, g2: Game)
    requires g1.guesses == g2.guesses && g1.solution == g2.solution
    ensures Recompute(g1).state == Recompute(g2).state
  {
  }

  /** A consistent running game has a try left; a won game has at least one guess. */
  lemma ConsistentBounds(g: Game)
    requires Consistent(g)
    ensures g.state == Running ==> Tries(g) < MaxTries
    ensures g.state == Win ==> Tries(g) >= 1
    ensures g.state == Loss ==> Tries(g) >= MaxTries
  {
  }

  /** Six guesses that all miss end in a Loss. */
  lemma SixMissesLose(g: Game)
    requires Tries(g) == MaxTries
    requires forall i :: 0 <= i < Tries(g) ==> !Matches(g.guesses[i], g.solution)
    ensures Recompute(g).state == Loss
  {
    assert !Matches(g.guesses[|g.guesses| - 1], g.solution);
  }

  // ---------------------------------------------------------------------
  // Share text

  function Glyph(h: Hint): char {
    match h
    case Correct => '\U{1F7E9}'
    case Incorrect => '\U{2B1B}'
    case Misplaced => '\U{1F7E7}'
  }

  /** One glyph per hint. */
  function GlyphRow(hints: seq<Hint>): string {
    seq(|hints|, i requires 0 <= i < |hints| => Glyph(hints[i]))
  }

  function UnGlyph(c: char): Hint {
    if c == '\U{1F7E9}' then Correct else if c == '\U{1F7E7}' then Misplaced else Incorrect
  }

  /** Reads a glyph row back as hints. */
  function DecodeRow(row: string): (hints: seq<Hint>)
    ensures |hints| == |row|
  {
    seq(|row|, i requires 0 <= i < |row| => UnGlyph(row[i]))
  }

  /** The glyph row of each guess, in guess order. */
  function ShareRows(g: Game): (rows: seq<string>)
    ensures |rows| == Tries(g)
  {
    seq(|g.guesses|, i requires 0 <= i < |g.guesses| => GlyphRow(Hints(g.guesses[i], g.solution)))
  }

  function ShareHeader(g: Game): string {
    "Nerdle " + Decimal(Tries(g)) + "/6"
  }

  /** `to_share`: a header with the number of tries, a blank line, then one glyph line per guess. */
  function ToShare(g: Game): string {
    ShareHeader(g) + "\n\n" + Terminated(ShareRows(g), "\n")
  }

  lemma DecodeGlyphRow(hints: seq<Hint>)
    ensures DecodeRow(GlyphRow(hints)) == hints
  {
  }

  /** The header is one line that does not end in '\r'. */
  lemma HeaderIsOneLine(g: Game)
    ensures forall k :: 0 <= k < |ShareHeader(g)| ==> ShareHeader(g)[k] != '\n'
    ensures !EndsWithCR(ShareHeader(g))
  {
    var header := ShareHeader(g);
    var digits := Decimal(Tries(g));
    assert header == "Nerdle " + digits + "/6";
    assert header[|header| - 1] == '6';
    forall k | 0 <= k < |header| ensures header[k] != '\n' {
      if 7 <= k < 7 + |digits| {
        assert header[k] == digits[k - 7];
      }
    }
  }

  /** The glyph rows hold no newline and do not end in '\r'. */
  lemma RowsAreLines(g: Game)
    ensures forall j, k :: 0 <= j < |ShareRows(g)| && 0 <= k < |ShareRows(g)[j]| ==> ShareRows(g)[j][k] != '\n'
    ensures forall j :: 0 <= j < |ShareRows(g)| ==> !EndsWithCR(ShareRows(g)[j])
  {
  }

  /** The share text is the header, an empty line and the rows, each terminated by a newline. */
  lemma ShareIsTerminated(g: Game)
    ensures ToShare(g) == Terminated([ShareHeader(g), ""] + ShareRows(g), "\n")
  {
    var header := ShareHeader(g);
    assert Terminated([header, ""], "\n") == header + "\n\n" by {
      assert [header, ""][1..] == [""];
      assert [""][1..] == [];
      assert Terminated([""], "\n") == "\n";
    }
    TerminatedAppend([header, ""], ShareRows(g), "\n");
  }

  /**
   * The share text splits into the header line, an empty line and one line
   * per guess, and each of those lines reads back as that guess's hints.
   */
  lemma ShareLines(g: Game)
    ensures Lines(ToShare(g)) == [ShareHeader(g), ""] + ShareRows(g)
    ensures forall i :: 0 <= i < Tries(g) ==>
      DecodeRow(Lines(ToShare(g))[i + 2]) == Hints(g.guesses[i], g.solution)
  {
    var ls := [ShareHeader(g), ""] + ShareRows(g);
    HeaderIsOneLine(g);
    RowsAreLines(g);
    ShareIsTerminated(g);
    assert forall j :: 2 <= j < |ls| ==> ls[j] == ShareRows(g)[j - 2];
    LinesOfTerminated(ls);
    forall i | 0 <= i < Tries(g)
      ensures DecodeRow(Lines(ToShare(g))[i + 2]) == Hints(g.guesses[i], g.solution)
    {
      DecodeGlyphRow(Hints(g.guesses[i], g.solution));
    }
  }

  lemma ShareStartsWithHeader(g: Game)
    ensures ToShare(g)[..|ShareHeader(g)| + 2] == ShareHeader(g) + "\n\n"
  {
  }
}
