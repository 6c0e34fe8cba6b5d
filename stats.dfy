/**
 * The statistics `History` derives from the stored games, in id order
 * (`played`, `histogram`, `streak`, `max_streak` in ui/src/state/game.rs).
 */
module Stats {
  import opened Options
  import opened Games
  import Storage
  import opened Text
  import opened Guesses

  /** `History::new`: the stored games, sorted by id. */
  method LoadHistory(store: Storage.Store) returns (games: seq<Game>)
    requires store.Valid()
    ensures Storage.SortedById(games)
    ensures |games| == |store.games|
    ensures forall id :: id in store.games ==> store.games[id] in games
    ensures forall g :: g in games ==> g.id in store.games && store.games[g.id] == g
  {
    games := store.GetGames();
  }

  function Last(games: seq<Game>): Game
    requires games != []
  {
    games[|games| - 1]
  }

  function Init(games: seq<Game>): seq<Game>
    requires games != []
  {
    games[..|games| - 1]
  }

  /** `played`: the games with at least one guess. */
  function Played(games: seq<Game>): (n: nat)
    ensures n <= |games|
  {
    if games == [] then 0 else Played(Init(games)) + (if Tries(Last(games)) > 0 then 1 else 0)
  }

  function Wins(games: seq<Game>): (n: nat)
    ensures n <= |games|
  {
    if games == [] then 0 else Wins(Init(games)) + (if Last(games).state == Win then 1 else 0)
  }

  /** The won games that took exactly `tries` guesses. */
  function WinsWithTries(games: seq<Game>, tries: nat): (n: nat)
    ensures n <= Wins(games)
  {
    if games == [] then 0
    else WinsWithTries(Init(games), tries) + (if Last(games).state == Win && Tries(Last(games)) == tries then 1 else 0)
  }

  /**
   * `histogram`: slot k counts the wins in k tries. A win with more than
   * six tries indexes past the seven slots, which panics in the source:
   * that is `None` here.
   */
  method Histogram(games: seq<Game>) returns (h: Option<seq<nat>>)
    ensures h.None? <==> exists i :: 0 <= i < |games| && games[i].state == Win && Tries(games[i]) > MaxTries
    ensures h.Some? ==> |h.value| == MaxTries + 1
    ensures h.Some? ==> forall k :: 0 <= k <= MaxTries ==> h.value[k] == WinsWithTries(games, k)
  {
    var hist := new nat[MaxTries + 1](_ => 0);
    var i := 0;
    while i < |games|
      invariant 0 <= i <= |games|
      invariant forall j :: 0 <= j < i && games[j].state == Win ==> Tries(games[j]) <= MaxTries
      invariant forall k :: 0 <= k <= MaxTries ==> hist[k] == WinsWithTries(games[..i], k)
    {
      var game := games[i];
      forall k | 0 <= k <= MaxTries {
        CountStep(games, i, k);
      }
      if game.state == Win {
        var tries := Tries(game);
        if tries > MaxTries {
          return None;
        }
        hist[tries] := hist[tries] + 1;
      }
      i := i + 1;
    }
    assert games[..|games|] == games;
    return Some(hist[..]);
  }

  /** Scanning one more game adds one to the slot of its tries if it is a win. */
  lemma CountStep(games: seq<Game>, i: nat, tries: nat)
    requires i < |games|
    ensures WinsWithTries(games[..i + 1], tries) ==
      WinsWithTries(games[..i], tries) + (if games[i].state == Win && Tries(games[i]) == tries then 1 else 0)
  {
    assert Init(games[..i + 1]) == games[..i];
  }

  function Sum(s: seq<nat>): nat {
    if s == [] then 0 else Sum(s[..|s| - 1]) + s[|s| - 1]
  }

  lemma SumOfSeven(h: seq<nat>)
    requires |h| == 7
    ensures Sum(h) == h[0] + h[1] + h[2] + h[3] + h[4] + h[5] + h[6]
  {
    assert h[..6][..5] == h[..5];
    assert h[..5][..4] == h[..4];
    assert h[..4][..3] == h[..3];
    assert h[..3][..2] == h[..2];
    assert h[..2][..1] == h[..1];
    assert h[..1][..0] == [];
    assert Sum(h[..1]) == h[0];
    assert Sum(h[..2]) == h[0] + h[1];
    assert Sum(h[..3]) == h[0] + h[1] + h[2];
    assert Sum(h[..4]) == h[0] + h[1] + h[2] + h[3];
    assert Sum(h[..5]) == h[0] + h[1] + h[2] + h[3] + h[4];
    assert Sum(h[..6]) == h[0] + h[1] + h[2] + h[3] + h[4] + h[5];
  }

  /** Each win is counted in exactly one slot, so the slots add up to the number of wins. */
  lemma {:induction false} TriesSlotsAddUp(games: seq<Game>)
    requires forall i :: 0 <= i < |games| && games[i].state == Win ==> Tries(games[i]) <= MaxTries
    ensures WinsWithTries(games, 0) + WinsWithTries(games, 1) + WinsWithTries(games, 2) + WinsWithTries(games, 3)
      + WinsWithTries(games, 4) + WinsWithTries(games, 5) + WinsWithTries(games, 6) == Wins(games)
  {
    if games != [] {
      TriesSlotsAddUp(Init(games));
      assert Last(games) == games[|games| - 1];
    }
  }

  /** The histogram's slots add up to the number of won games. */
  lemma HistogramSum(games: seq<Game>, h: seq<nat>)
    requires forall i :: 0 <= i < |games| && games[i].state == Win ==> Tries(games[i]) <= MaxTries
    requires |h| == MaxTries + 1 && forall k :: 0 <= k <= MaxTries ==> h[k] == WinsWithTries(games, k)
    ensures Sum(h) == Wins(games)
  {
    TriesSlotsAddUp(games);
    SumOfSeven(h);
  }

  /** Slot 0 stays empty for consistent games: a win needs a guess. */
  lemma {:induction false} NoWinWithoutGuess(games: seq<Game>)
    requires forall i :: 0 <= i < |games| ==> Consistent(games[i])
    ensures WinsWithTries(games, 0) == 0
    ensures Wins(games) <= Played(games)
  {
    if games != [] {
      NoWinWithoutGuess(Init(games));
      ConsistentBounds(Last(games));
    }
  }

  /** Only wins enter the histogram; every game with a guess counts as played. */
  lemma {:induction false} AppendGame(games: seq<Game>, g: Game, tries: nat)
    ensures g.state != Win ==> WinsWithTries(games + [g], tries) == WinsWithTries(games, tries)
    ensures g.state != Win ==> Wins(games + [g]) == Wins(games)
    ensures Played(games + [g]) == Played(games) + (if Tries(g) > 0 then 1 else 0)
  {
    assert Init(games + [g]) == games;
  }

  // ---------------------------------------------------------------------
  // Streaks

  predicate AllWins(games: seq<Game>) {
    forall k :: 0 <= k < |games| ==> games[k].state == Win
  }

  /** A run of wins followed by one more win is a run of wins. */
  lemma WinsExtend(games: seq<Game>, n: nat)
    requires games != [] && n < |games| && Last(games).state == Win
    requires AllWins(Init(games)[|games| - 1 - n..])
    ensures AllWins(games[|games| - (n + 1)..])
  {
    var run := games[|games| - (n + 1)..];
    forall k | 0 <= k < |run| ensures run[k].state == Win {
      if k < n {
        assert run[k] == Init(games)[|games| - 1 - n..][k];
      }
    }
  }

  /** `streak`: the number of wins counted back from the last game, up to the first game that is not a win. */
  function Streak(games: seq<Game>): (n: nat)
    ensures n <= |games|
  {
    if games == [] || Last(games).state != Win then 0 else Streak(Init(games)) + 1
  }

  /** The streak is the trailing run of wins: the last n games are wins, and the game before them is not. */
  lemma {:induction false} StreakIsTrailingRun(games: seq<Game>)
    ensures AllWins(games[|games| - Streak(games)..])
    ensures Streak(games) < |games| ==> games[|games| - 1 - Streak(games)].state != Win
  {
    if games != [] && Last(games).state == Win {
      var n := Streak(Init(games));
      StreakIsTrailingRun(Init(games));
      WinsExtend(games, n);
      if n + 1 < |games| {
        assert games[|games| - 1 - (n + 1)] == Init(games)[|Init(games)| - 1 - n];
      }
    }
  }

  /** The longest run of wins: for every prefix, the run that ends there. */
  function LongestRun(games: seq<Game>): (n: nat)
    ensures Streak(games) <= n <= |games|
  {
    if games == [] then 0
    else
      var before := LongestRun(Init(games));
      if before < Streak(games) then Streak(games) else before
  }

  /** `max_streak`: scan the games, counting the run of wins and keeping its maximum. */
  method MaxStreak(games: seq<Game>) returns (maxStreak: nat)
    ensures maxStreak == LongestRun(games)
  {
    maxStreak := 0;
    var streak := 0;
    var i := 0;
    while i < |games|
      invariant 0 <= i <= |games|
      invariant streak == Streak(games[..i])
      invariant maxStreak == LongestRun(games[..i])
    {
      RunStep(games, i);
      if games[i].state == Win {
        streak := streak + 1;
        maxStreak := if maxStreak < streak then streak else maxStreak;
      } else {
        streak := 0;
      }
      i := i + 1;
    }
    assert games[..|games|] == games;
  }

  /** How the trailing run and the longest run change when one more game is scanned. */
  lemma RunStep(games: seq<Game>, i: nat)
    requires i < |games|
    ensures Streak(games[..i + 1]) == if games[i].state == Win then Streak(games[..i]) + 1 else 0
    ensures LongestRun(games[..i + 1]) ==
      if LongestRun(games[..i]) < Streak(games[..i + 1]) then Streak(games[..i + 1]) else LongestRun(games[..i])
  {
    var p := games[..i + 1];
    assert Init(p) == games[..i];
    assert Last(p) == games[i];
  }

  /** A run of wins that ends with the last game is no longer than the trailing run. */
  lemma {:induction false} TrailingRunBound(games: seq<Game>, i: nat)
    requires i <= |games| && AllWins(games[i..])
    ensures |games| - i <= Streak(games)
  {
    if i < |games| {
      assert Last(games) == games[i..][|games| - 1 - i];
      assert Init(games)[i..] == games[i..][..|games| - 1 - i];
      TrailingRunBound(Init(games), i);
    }
  }

  lemma {:induction false} RunAtMostLongest(games: seq<Game>, i: nat, j: nat)
    requires i <= j <= |games| && AllWins(games[i..j])
    ensures j - i <= LongestRun(games)
  {
    if j == |games| {
      assert games[i..] == games[i..j];
      TrailingRunBound(games, i);
    } else {
      var init := Init(games);
      assert init[i..j] == games[i..j];
      assert AllWins(init[i..j]);
      RunAtMostLongest(init, i, j);
      assert LongestRun(init) <= LongestRun(games);
    }
  }

  lemma {:induction false} LongestRunAttained(games: seq<Game>) returns (i: nat)
    ensures i + LongestRun(games) <= |games| && AllWins(games[i..i + LongestRun(games)])
  {
    var n := LongestRun(games);
    if games == [] {
      i := 0;
    } else if n == Streak(games) {
      i := |games| - n;
      StreakIsTrailingRun(games);
      assert games[i..i + n] == games[|games| - n..];
    } else {
      i := LongestRunAttained(Init(games));
      assert games[i..i + n] == Init(games)[i..i + n];
    }
  }

  /** No window of consecutive wins is longer than `LongestRun`. */
  lemma NoLongerRun(games: seq<Game>)
    ensures forall i, j :: 0 <= i <= j <= |games| && AllWins(games[i..j]) ==> j - i <= LongestRun(games)
  {
    forall i, j | 0 <= i <= j <= |games| && AllWins(games[i..j]) ensures j - i <= LongestRun(games) {
      RunAtMostLongest(games, i, j);
    }
  }

  /** Some window of consecutive wins is exactly `LongestRun` long. */
  lemma LongestRunExists(games: seq<Game>)
    ensures exists i, j :: 0 <= i <= j <= |games| && j - i == LongestRun(games) && AllWins(games[i..j])
  {
    var i := LongestRunAttained(games);
    var j := i + LongestRun(games);
    assert 0 <= i <= j <= |games| && j - i == LongestRun(games) && AllWins(games[i..j]);
  }

  /** `max_streak` is the longest run: no window of wins is longer, and some window is that long. */
  lemma LongestRunIsLongest(games: seq<Game>)
    ensures forall i, j :: 0 <= i <= j <= |games| && AllWins(games[i..j]) ==> j - i <= LongestRun(games)
    ensures exists i, j :: 0 <= i <= j <= |games| && j - i == LongestRun(games) && AllWins(games[i..j])
  {
    NoLongerRun(games);
    LongestRunExists(games);
  }

  /** The current streak never exceeds the longest one, which never exceeds the number of games. */
  lemma StreakBounds(games: seq<Game>)
    ensures Streak(games) <= LongestRun(games) <= |games|
  {
  }

  // ---------------------------------------------------------------------
  // A worked history: three wins, a loss, then two wins.

  /** A stored game as `update` leaves it: won at the first try, or lost after six misses. */
  function Sample(id: nat, won: bool): (g: Game)
    ensures Consistent(g)
  {
    if won then Game(id, "CRANE", ["CRANE"], [], Win)
    else
      var miss := "CRATE";
      assert !Matches(miss, "CRANE") by {
        assert Upper(miss)[3] == 'T';
        assert Upper("CRANE")[3] == 'N';
      }
      Game(id, "CRANE", [miss, miss, miss, miss, miss, miss], [], Loss)
  }

  lemma ThreeWinsLossTwoWins()
    ensures var games := [Sample(1, true), Sample(2, true), Sample(3, true), Sample(4, false), Sample(5, true), Sample(6, true)];
      Streak(games) == 2 && LongestRun(games) == 3 && Played(games) == 6 && Wins(games) == 5
  {
    var games := [Sample(1, true), Sample(2, true), Sample(3, true), Sample(4, false), Sample(5, true), Sample(6, true)];
    assert Init(games) == games[..5];
    assert Init(games[..5]) == games[..4];
    assert Init(games[..4]) == games[..3];
    assert Init(games[..3]) == games[..2];
    assert Init(games[..2]) == games[..1];
    assert Init(games[..1]) == [];
  }
}
