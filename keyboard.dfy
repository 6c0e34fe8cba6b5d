/**
 * The colouring of the on-screen keyboard (`KeyboardState::from` and the
 * key lookup in `KeyboardInput`, ui/src/components/keyboard.rs).
 */
module Keyboard {
  import opened Guesses
  import opened Games

  datatype KeyState = Unused | Incorrect | Correct | Misplaced

  /** Keys are one-character strings, as `char::into::<String>` makes them. */
  type KeyboardState = map<string, KeyState>

  function StateOf(h: Hint): KeyState {
    match h
    case Incorrect => KeyState.Incorrect
    case Correct => KeyState.Correct
    case Misplaced => KeyState.Misplaced
  }

  datatype Entry = Entry(key: string, state: KeyState)

  /** The writes one guess makes: its characters as typed, zipped with its hints. */
  function GuessEntries(guess: Guess, solution: string): (es: seq<Entry>)
    ensures |es| == Min(|guess|, |solution|)
  {
    var hints := Hints(guess, solution);
    seq(Min(|guess|, |hints|), i requires 0 <= i < Min(|guess|, |hints|) => Entry([guess[i]], StateOf(hints[i])))
  }

  /** The writes of all guesses, guess after guess, left to right within each. */
  function Entries(guesses: seq<Guess>, solution: string): seq<Entry> {
    if guesses == [] then []
    else Entries(guesses[..|guesses| - 1], solution) + GuessEntries(guesses[|guesses| - 1], solution)
  }

  /** The map after making the writes in order, each one replacing what the key held. */
  function Apply(es: seq<Entry>): KeyboardState {
    if es == [] then map[] else Apply(es[..|es| - 1])[es[|es| - 1].key := es[|es| - 1].state]
  }

  lemma ApplyOneMore(es: seq<Entry>, more: seq<Entry>, j: nat)
    requires j < |more|
    ensures Apply(es + more[..j + 1]) == Apply(es + more[..j])[more[j].key := more[j].state]
  {
    assert (es + more[..j + 1])[..|es| + j] == es + more[..j];
  }

  lemma EntriesOneMore(guesses: seq<Guess>, solution: string, i: nat)
    requires i < |guesses|
    ensures Entries(guesses[..i + 1], solution) == Entries(guesses[..i], solution) + GuessEntries(guesses[i], solution)
  {
    assert guesses[..i + 1][..i] == guesses[..i];
  }

  lemma GuessEntryAt(guess: Guess, solution: string, j: nat)
    requires j < Min(|guess|, |solution|)
    ensures GuessEntries(guess, solution)[j] == Entry([guess[j]], StateOf(Hints(guess, solution)[j]))
  {
  }

  /** `KeyboardState::from`: one map insertion per (character, hint) pair of every guess. */
  method FromGame(game: Game) returns (state: KeyboardState)
    ensures state == Apply(Entries(game.guesses, game.solution))
  {
    state := map[];
    var i := 0;
    while i < |game.guesses|
      invariant 0 <= i <= |game.guesses|
      invariant state == Apply(Entries(game.guesses[..i], game.solution))
    {
      state := InsertGuess(state, Entries(game.guesses[..i], game.solution), game.guesses[i], game.solution);
      EntriesOneMore(game.guesses, game.solution, i);
      i := i + 1;
    }
    assert game.guesses[..|game.guesses|] == game.guesses;
  }

  /** The inner loop of `KeyboardState::from`: the insertions one guess makes. */
  method InsertGuess(state: KeyboardState, ghost before: seq<Entry>, guess: Guess, solution: string)
    returns (state': KeyboardState)
    requires state == Apply(before)
    ensures state' == Apply(before + GuessEntries(guess, solution))
  {
    var hints := Hints(guess, solution);
    ghost var writes := GuessEntries(guess, solution);
    state' := state;
    var j := 0;
    assert before + writes[..0] == before;
    while j < Min(|guess|, |hints|)
      invariant 0 <= j <= Min(|guess|, |hints|)
      invariant state' == Apply(before + writes[..j])
    {
      var key := [guess[j]];
      match hints[j] {
        case Incorrect => state' := state'[key := KeyState.Incorrect];
        case Correct => state' := state'[key := KeyState.Correct];
        case Misplaced => state' := state'[key := KeyState.Misplaced];
      }
      GuessEntryAt(guess, solution, j);
      ApplyOneMore(before, writes, j);
      j := j + 1;
    }
    assert writes[..j] == writes;
  }

  /** The state `KeyboardInput` shows for a glyph: `Unused` when the map has no entry. */
  function Lookup(state: KeyboardState, glyph: string): (st: KeyState)
    ensures st != Unused ==> glyph in state
    ensures glyph in state ==> st == state[glyph]
  {
    if glyph in state then state[glyph] else Unused
  }

  /** A key has an entry exactly when some write names it. */
  lemma {:induction false} WrittenKeys(es: seq<Entry>, key: string)
    ensures key in Apply(es) <==> exists i :: 0 <= i < |es| && es[i].key == key
  {
    if es != [] {
      var init := es[..|es| - 1];
      WrittenKeys(init, key);
      if exists i :: 0 <= i < |init| && init[i].key == key {
        var i :| 0 <= i < |init| && init[i].key == key;
        assert es[i] == init[i];
      }
      if exists i :: 0 <= i < |es| && es[i].key == key {
        var i :| 0 <= i < |es| && es[i].key == key;
        if i < |init| {
          assert init[i] == es[i];
        }
      }
    }
  }

  /**
   * Last write wins: a key has an entry exactly when some write names it,
   * and the entry is the state of the last write that names it.
   */
  lemma {:induction false} LastWriteWins(es: seq<Entry>, key: string)
    ensures key in Apply(es) <==> exists i :: 0 <= i < |es| && es[i].key == key
    ensures key in Apply(es) ==>
      exists i :: 0 <= i < |es| && es[i].key == key && Apply(es)[key] == es[i].state &&
        forall j :: i < j < |es| ==> es[j].key != key
  {
    WrittenKeys(es, key);
    if es != [] {
      var n := |es| - 1;
      var init := es[..n];
      if es[n].key == key {
        assert Apply(es)[key] == es[n].state;
      } else if key in Apply(es) {
        LastWriteWins(init, key);
        var i :| 0 <= i < |init| && init[i].key == key && Apply(init)[key] == init[i].state
          && forall j :: i < j < |init| ==> init[j].key != key;
        assert es[i] == init[i];
        forall j | i < j < |es| ensures es[j].key != key {
          if j < n {
            assert es[j] == init[j];
          }
        }
      }
    }
  }

  /**
   * Writes made later win over earlier ones: after `a` and then `b`, a key
   * `b` writes holds what `b` gave it, and any other key what `a` gave it.
   */
  /** What a key shows: the state of the last write naming it, or Unused when no write names it. */
  lemma LookupShowsLastWrite(es: seq<Entry>, glyph: string)
    ensures (forall i :: 0 <= i < |es| ==> es[i].key != glyph) ==> Lookup(Apply(es), glyph) == Unused
    ensures (exists i :: 0 <= i < |es| && es[i].key == glyph) ==>
      exists i :: 0 <= i < |es| && es[i].key == glyph && Lookup(Apply(es), glyph) == es[i].state &&
        forall j :: i < j < |es| ==> es[j].key != glyph
  {
    LastWriteWins(es, glyph);
  }

  lemma {:induction false} LaterWritesWin(a: seq<Entry>, b: seq<Entry>, key: string)
    ensures key in Apply(b) ==> key in Apply(a + b) && Apply(a + b)[key] == Apply(b)[key]
    ensures key !in Apply(b) ==> (key in Apply(a + b) <==> key in Apply(a))
    ensures key !in Apply(b) && key in Apply(a) ==> Apply(a + b)[key] == Apply(a)[key]
  {
    if b == [] {
      assert a + b == a;
    } else {
      var init := b[..|b| - 1];
      LaterWritesWin(a, init, key);
      assert (a + b)[..|a + b| - 1] == a + init;
    }
  }

  /** The writes of one guess are the pairs (character typed at i, state of hint i). */
  lemma GuessEntriesMembers(g: Guess, solution: string, e: Entry)
    ensures e in GuessEntries(g, solution) <==>
      exists i :: 0 <= i < Min(|g|, |solution|) && e == Entry([g[i]], StateOf(Hints(g, solution)[i]))
  {
    var es := GuessEntries(g, solution);
    if e in es {
      var i :| 0 <= i < |es| && es[i] == e;
    }
    if exists i :: 0 <= i < Min(|g|, |solution|) && e == Entry([g[i]], StateOf(Hints(g, solution)[i])) {
      var i :| 0 <= i < Min(|g|, |solution|) && e == Entry([g[i]], StateOf(Hints(g, solution)[i]));
      assert es[i] == e;
    }
  }

  /** Every write is (character typed at i, state of hint i) for some guess and some i below both lengths. */
  lemma {:induction false} EntriesSound(guesses: seq<Guess>, solution: string, e: Entry)
    requires e in Entries(guesses, solution)
    ensures exists g, i :: g in guesses && 0 <= i < Min(|g|, |solution|) && e == Entry([g[i]], StateOf(Hints(g, solution)[i]))
  {
    var init := guesses[..|guesses| - 1];
    var last := guesses[|guesses| - 1];
    assert guesses == init + [last];
    if e in GuessEntries(last, solution) {
      GuessEntriesMembers(last, solution, e);
      var i :| 0 <= i < Min(|last|, |solution|) && e == Entry([last[i]], StateOf(Hints(last, solution)[i]));
      assert last in guesses;
    } else {
      EntriesSound(init, solution, e);
      var g, i :| g in init && 0 <= i < Min(|g|, |solution|) && e == Entry([g[i]], StateOf(Hints(g, solution)[i]));
      assert g in guesses;
    }
  }

  /** Every position below both lengths of every guess makes its write. */
  lemma {:induction false} EntriesComplete(guesses: seq<Guess>, solution: string, j: nat, i: nat)
    requires j < |guesses| && i < Min(|guesses[j]|, |solution|)
    ensures Entry([guesses[j][i]], StateOf(Hints(guesses[j], solution)[i])) in Entries(guesses, solution)
  {
    var init := guesses[..|guesses| - 1];
    var e := Entry([guesses[j][i]], StateOf(Hints(guesses[j], solution)[i]));
    if j == |guesses| - 1 {
      GuessEntriesMembers(guesses[j], solution, e);
    } else {
      assert init[j] == guesses[j];
      EntriesComplete(init, solution, j, i);
    }
  }

  /** A game without guesses colours no key. */
  lemma EmptyGameAllUnused(game: Game, glyph: string)
    requires game.guesses == []
    ensures Lookup(Apply(Entries(game.guesses, game.solution)), glyph) == Unused
  {
  }

  /** Only one-character glyphs can be coloured: "ENTER" and "BKSP" always look up as `Unused`. */
  lemma {:induction false} OnlySingleCharacterKeys(guesses: seq<Guess>, solution: string, glyph: string)
    requires |glyph| != 1
    ensures Lookup(Apply(Entries(guesses, solution)), glyph) == Unused
  {
    LastWriteWins(Entries(guesses, solution), glyph);
    if glyph in Apply(Entries(guesses, solution)) {
      var i :| 0 <= i < |Entries(guesses, solution)| && Entries(guesses, solution)[i].key == glyph;
      EntriesSound(guesses, solution, Entries(guesses, solution)[i]);
    }
  }

  /**
   * Keys keep the case they were typed in: a character that no guess holds
   * looks up as `Unused`, even when its other case was typed and scored.
   */
  lemma {:induction false} UntypedCharacterUnused(guesses: seq<Guess>, solution: string, c: char)
    requires forall g, i :: g in guesses && 0 <= i < |g| ==> g[i] != c
    ensures Lookup(Apply(Entries(guesses, solution)), [c]) == Unused
  {
    var es := Entries(guesses, solution);
    WrittenKeys(es, [c]);
    if [c] in Apply(es) {
      var i :| 0 <= i < |es| && es[i].key == [c];
      EntriesSound(guesses, solution, es[i]);
      assert false;
    }
  }
}
