/**
 * The key handler of the game component (`on_input` in
 * ui/src/components/game.rs): it decides, from the game, the key pressed
 * and the wordlist, which action to dispatch, if any.
 */
module Session {
  import opened Options
  import opened Games
  import opened Dictionary
  import Storage

  /** What the handler does to the CSS class of the game element. */
  datatype ClassChange = KeepClass | SetClass(name: string)

  datatype Response = Response(action: Option<GameAction>, gameClass: ClassChange)

  const NotAWord: string := "error-not-a-word"

  /** `String::pop`: the word without its last character; the empty word stays empty. */
  function Pop(w: string): string {
    if w == [] then [] else w[..|w| - 1]
  }

  /** The handler's decision rule. */
  function OnKey(game: Game, key: string, list: Wordlist): Response {
    if game.state != Running then Response(None, KeepClass)
    else if key == "BKSP" then Response(Some(SetCurrent(Pop(game.current))), SetClass(""))
    else if key == "ENTER" then
      if Contains(list, game.current) then Response(Some(AddGuess), SetClass(""))
      else Response(None, SetClass(NotAWord))
    else if |game.current| < |game.solution| then Response(Some(SetCurrent(game.current + key)), SetClass(""))
    else Response(None, SetClass(""))
  }

  /** `on_input`: edits a copy of the current word and dispatches at most one action. */
  method OnInput(game: Game, key: string, list: Wordlist) returns (action: Option<GameAction>, gameClass: ClassChange)
    ensures Response(action, gameClass) == OnKey(game, key, list)
  {
    action, gameClass := None, KeepClass;
    if game.state != Running {
      return;
    }
    gameClass := SetClass("");
    var word := game.current;
    if key == "BKSP" {
      if word != [] {
        word := word[..|word| - 1];
      }
      action := Some(SetCurrent(word));
    } else if key == "ENTER" {
      if Contains(list, word) {
        action := Some(AddGuess);
      } else {
        gameClass := SetClass(NotAWord);
      }
    } else if |word| < |game.solution| {
      word := word + key;
      action := Some(SetCurrent(word));
    }
  }

  /** The game after the dispatched action, if any, has gone through the reducer. */
  function Dispatch(m: map<nat, Game>, game: Game, r: Response): Game {
    match r.action
    case None => game
    case Some(a) => Storage.Step(m, game, a)
  }

  /** The keys the on-screen keyboard emits: letters, "ENTER" and "BKSP". */
  predicate IsKeyGlyph(key: string) {
    |key| == 1 || key == "ENTER" || key == "BKSP"
  }

  /** What holds of a game driven by the handler: its state is up to date, at most six guesses, the current word fits the solution. */
  predicate SessionInvariant(game: Game) {
    Consistent(game) && Tries(game) <= MaxTries && |game.current| <= |game.solution|
  }

  /** A game that is not running ignores every key. */
  lemma RunningGate(m: map<nat, Game>, game: Game, key: string, list: Wordlist)
    requires game.state != Running
    ensures OnKey(game, key, list).action == None
    ensures Dispatch(m, game, OnKey(game, key, list)) == game
  {
  }

  /** Backspace sets the current word to itself without its last character. */
  lemma BackspaceDropsLast(game: Game, list: Wordlist)
    requires game.state == Running
    ensures OnKey(game, "BKSP", list).action == Some(SetCurrent(Pop(game.current)))
    ensures game.current != [] ==> game.current == Pop(game.current) + [game.current[|game.current| - 1]]
    ensures game.current == [] ==> Pop(game.current) == []
  {
  }

  /** Enter submits exactly the listed words; an unlisted word costs no try and is flagged. */
  lemma EnterNeedsListedWord(m: map<nat, Game>, game: Game, list: Wordlist)
    requires game.state == Running
    ensures OnKey(game, "ENTER", list).action == Some(AddGuess) <==> Contains(list, game.current)
    ensures !Contains(list, game.current) ==>
      OnKey(game, "ENTER", list).gameClass == SetClass(NotAWord) &&
      Dispatch(m, game, OnKey(game, "ENTER", list)) == game
    ensures Contains(list, game.current) ==>
      Dispatch(m, game, OnKey(game, "ENTER", list)).guesses == game.guesses + [game.current]
  {
  }

  /** Any other key is appended only while the current word is shorter than the solution. */
  lemma OtherKeyAppends(game: Game, key: string, list: Wordlist)
    requires game.state == Running && key != "BKSP" && key != "ENTER"
    ensures OnKey(game, key, list).action.Some? <==> |game.current| < |game.solution|
    ensures OnKey(game, key, list).action.Some? ==>
      OnKey(game, key, list).action == Some(SetCurrent(game.current + key))
  {
  }

  /**
   * One key press keeps the session invariant: the state stays consistent,
   * no sixth-plus guess is ever submitted, and the current word never
   * grows past the solution's length.
   */
  lemma InputKeepsInvariant(m: map<nat, Game>, game: Game, key: string, list: Wordlist)
    requires SessionInvariant(game) && IsKeyGlyph(key)
    ensures SessionInvariant(Dispatch(m, game, OnKey(game, key, list)))
  {
    var r := OnKey(game, key, list);
    if r.action.Some? {
      ConsistentBounds(game);
      Storage.StepConsistent(m, game, r.action.value);
    }
  }
}
