# Nerdle, modelled in Dafny

Nerdle is a Wordle clone in Rust and Yew. The player has six tries to
guess the day's word. Each guess is scored letter by letter:

- Correct: the right letter in the right place.
- Misplaced: the letter is somewhere else in the word.
- Incorrect: the letter is not in the word.

Games are kept in the browser's key-value store under keys `game:<id>`. Statistics come from the stored games. This project models the game engine and the three pieces around it:

- **Guesses** (`guess.dfy`): the hint engine. Both words are upper-cased and zipped. Repeated letters are not counted against the solution's letters.
- **Games** (`game.dfy`): the game record, the state rule `update` applies, and the share text.
- **Storage** (`store.dfy`): the store, as a class `Store` holding a map from id to game and the order in which the store lists its keys. It covers `save`, `restore`, `update`, `Game::new`, the reducer (`reduce`), `get_keys` and `get_games`.
- **Stats** (`stats.dfy`): `History` with `played`, `histogram`, `streak` and `max_streak`.
- **Keyboard** (`keyboard.dfy`): the colouring of the on-screen keyboard. It folds the hints into a last-write-wins map.
- **Dictionary** (`wordlist.dfy`): `Wordlist::new` (the datatype constructor), `contains`, and reading a wordlist from text.
- **Session** (`session.dfy`): the key handler `on_input` of the game component.
- **Text** (`text.dfy`): ASCII case mapping, decimal numerals for the store keys, and Rust's `str::lines` splitting.
- **Options** (`option.dfy`): the `Option` type.

The form follows the source:

- Functions model expressions. Methods with loops model the source's loops (`get_keys`, `get_games`, `histogram`, `max_streak`, `KeyboardState::from`). The method `Session.OnInput` models the callback `on_input`, which edits a local copy of the current word.
- Each method is proved against a specification function.
- The lemmas state what those functions promise.

`Game::tries` is `Games.Tries`, the number of guesses.

## Model

| member | source | states |
|---|---|---|
| Guesses.Hints | ui/src/state/game.rs:48-65 | There is one hint per position both words have: the length is the minimum of the two lengths. |
| Guesses.HintCorrect | ui/src/state/game.rs:50-57 | Position i is Correct exactly when the upper-cased letters at i are equal. |
| Guesses.HintMisplacedOrIncorrect | ui/src/state/game.rs:58-62 | Position i is Misplaced exactly when the letters differ and the upper-cased solution holds the guessed letter somewhere. It is Incorrect exactly when the solution holds it nowhere. |
| Guesses.HintsIgnoreCase | ui/src/state/game.rs:50-51 | Hints depend only on the upper-cased words. |
| Guesses.MatchesIffAllCorrect | ui/src/state/game.rs:40-42 | A guess matches exactly when it has the solution's length and every hint is Correct. |
| Guesses.Matches | ui/src/state/game.rs:40-42 | `matches`: the upper-cased words are equal (definition). Its contract states that a match needs a guess of the solution's length; Guesses.MatchesIffAllCorrect ties it to the hints. |
| Guesses.RepeatedLetterScoresTwice | ui/src/state/game.rs:58-59 | EERIE against CRANE scores both E's Misplaced although CRANE has one E: letter counts are not tracked. |
| Guesses.CrateAgainstCrane | ui/src/state/game.rs:48-65 | CRATE against CRANE is Correct in every position except T, which is Incorrect. |
| Guesses.ReactAgainstCrane | ui/src/state/game.rs:48-65 | A lower-case guess is scored as upper-case: "react" against CRANE is M, M, C, M, I. |
| Games.Recompute | ui/src/state/game.rs:173-196 | Only the state changes. Win iff the last guess matches. Loss iff it does not match and six tries are used. Running otherwise, including when there are no guesses. |
| Games.Tries | ui/src/state/game.rs:169-171 | `tries`: the number of guesses (definition, no contract of its own). Its bounds are in Games.ConsistentBounds and Session.InputKeepsInvariant. |
| Games.Fresh | ui/src/state/game.rs:144-148 | The game `Game::new` builds before `update`. It is already consistent (its state is the recomputed one) and has no tries. |
| Games.NextState | ui/src/state/game.rs:180-195 | The state `update` computes. A state other than Running needs at least one guess; Loss needs six. The full rule is stated by Games.Recompute. |
| Games.RecomputeIdempotent | ui/src/state/game.rs:173-199 | Updating twice equals updating once, and the result is consistent. |
| Games.StateOnlyFromGuesses | ui/src/state/game.rs:178-195 | Two games with the same guesses and solution get the same state. |
| Games.ConsistentBounds | ui/src/state/game.rs:174-195 | A consistent Running game has fewer than six tries. A won game has at least one guess. A lost game has at least six. |
| Games.SixMissesLose | ui/src/state/game.rs:184-189 | Six guesses that all miss give Loss. |
| Games.DecodeGlyphRow | ui/src/state/game.rs:209-216 | A glyph row reads back as the hints it was built from. |
| Games.Glyph | ui/src/state/game.rs:211-215 | The emoji for a hint: U+1F7E9 for Correct, U+2B1B for Incorrect, U+1F7E7 for Misplaced (definition, no contract of its own). Games.DecodeGlyphRow shows that a row of these glyphs reads back as its hints. |
| Games.ShareLines | ui/src/state/game.rs:201-221 | The share text splits into the header `Nerdle <tries>/6`, an empty line, then one line per guess. Each guess's line decodes to that guess's hints. |
| Games.ShareStartsWithHeader | ui/src/state/game.rs:202 | The share text starts with the header followed by two newlines. |
| Games.ToShare | ui/src/state/game.rs:201-221 | `to_share` (definition, no contract of its own). What the text holds is stated by Games.ShareLines and Games.ShareStartsWithHeader. |
| Storage.ParseGameKeyIff | ui/src/state/game.rs:153 | A key parses to id exactly when it is `game:<id>`. |
| Storage.GameKeyInjective | ui/src/state/game.rs:165 | Distinct ids get distinct keys. |
| Storage.GameKey | ui/src/state/game.rs:165 | The key starts with `game:` and goes on with a decimal numeral. Storage.ParseGameKeyIff reads the id back; Storage.GameKeyInjective keeps distinct ids apart. |
| Storage.SaveTo | ui/src/state/game.rs:161-167 | Id 0 leaves the map unchanged. Any other id stores the whole game under its id. Every other record is kept. |
| Storage.RestoreAfterSave | ui/src/state/game.rs:152-159 | Restoring right after a save gives back the saved game, whole. |
| Storage.RestoreWithoutRecord | ui/src/state/game.rs:155-158 | Without a stored record, restore returns the game unchanged. |
| Storage.RestoreFrom | ui/src/state/game.rs:152-159 | `restore` gives back either the game itself or one of the stored records. Which one is stated by Storage.RestoreAfterSave and Storage.RestoreWithoutRecord. |
| Storage.FreshIsNotStored | ui/src/state/game.rs:144-150 | `Game::new` gives a Running game with no guesses and id 0, and saving it stores nothing. |
| Storage.UpdateTwiceStoresSame | ui/src/state/game.rs:173-199 | Updating and saving twice leaves the same store as doing it once. |
| Storage.StepAddGuess | ui/src/state/game.rs:241-252 | AddGuess appends the current word to the guesses: one more try, current word cleared, id and solution kept, state recomputed. |
| Storage.StepSetCurrent | ui/src/state/game.rs:237-240 | SetCurrent replaces the current word and recomputes the state; nothing else changes. |
| Storage.StepSetSolution | ui/src/state/game.rs:229-236 | Without a stored record, SetSolution keeps the guesses and the current word under the new id and solution. With one, the stored record replaces the game. |
| Storage.StepConsistent | ui/src/state/game.rs:227-253 | Every action leaves a game whose state is the recomputed one. |
| Storage.Step | ui/src/state/game.rs:227-253 | The reducer's result (definition, no contract of its own). Each action's result is stated by Storage.StepAddGuess, Storage.StepSetCurrent and Storage.StepSetSolution, and Storage.StepConsistent shows every result is consistent. |
| Storage.WithPrefixMembers | ui/src/state/game.rs:91-97 | A key is listed exactly when it is a store key starting with the prefix. |
| Storage.WithPrefix | ui/src/state/game.rs:91-97 | The listing is no longer than the store's keys. Which keys it holds is stated by Storage.WithPrefixMembers. |
| Storage.GameKeysAllListed | ui/src/state/game.rs:103 | Every game key starts with `game:`, so listing by that prefix lists them all, in order. |
| Storage.InsertById | ui/src/state/game.rs:111 | Inserting one game gives one more element, and exactly that game is added. |
| Storage.InsertSorted | ui/src/state/game.rs:111 | Inserting into a sequence sorted by id keeps it sorted. |
| Storage.SortById | ui/src/state/game.rs:111 | The result is sorted by id and is a permutation of the input. |
| Storage.SortedLoad | ui/src/state/game.rs:104-111 | Sorting the loaded records gives exactly the stored games, each once. |
| Storage.Store.Save | ui/src/state/game.rs:161-167 | The new map is `SaveTo` of the old one. A key not stored before is listed after the existing keys. |
| Storage.Store.Update | ui/src/state/game.rs:173-199 | Returns the recomputed game and saves it. |
| Storage.Store.New | ui/src/state/game.rs:144-150 | Returns the fresh Running game; the store is unchanged. |
| Storage.Store.Reduce | ui/src/state/game.rs:227-254 | Returns the reducer's game as specified by `Step`, and saves it. |
| Storage.Store.GetKeys | ui/src/state/game.rs:87-100 | Returns the store's keys that start with the prefix, in store order. |
| Storage.Store.GetGames | ui/src/state/game.rs:102-113 | Returns every stored game exactly once, sorted by id. |
| Stats.LoadHistory | ui/src/state/game.rs:262-266 | The history is the stored games, sorted by id. |
| Stats.Played | ui/src/state/game.rs:269-271 | Counts the games with Tries > 0 (definition). Its contract states n ≤ \|games\|. Further facts are in Stats.AppendGame and Stats.NoWinWithoutGuess. |
| Stats.Histogram | ui/src/state/game.rs:274-281 | Panics (None) exactly when some win has more than six tries. Otherwise there are seven slots, and slot k counts the wins with k tries. |
| Stats.HistogramSum | ui/src/state/game.rs:274-281 | When no win has more than six tries, the slots add up to the number of wins. |
| Stats.TriesSlotsAddUp | ui/src/state/game.rs:276-279 | Each win falls into exactly one of the seven slots. |
| Stats.NoWinWithoutGuess | ui/src/state/game.rs:269-279 | For consistent games slot 0 is empty and no more games are won than played. |
| Stats.AppendGame | ui/src/state/game.rs:270-276 | A game that is not a win adds nothing to the histogram or the win count. `played` grows by one exactly for a game with at least one try. |
| Stats.StreakIsTrailingRun | ui/src/state/game.rs:284-289 | The last n games are all wins, and the game before them, if any, is not. |
| Stats.Streak | ui/src/state/game.rs:284-289 | Counts the trailing wins (definition). Its contract states n ≤ \|games\|. Stats.StreakIsTrailingRun shows it is exactly the trailing run of wins. |
| Stats.MaxStreak | ui/src/state/game.rs:292-304 | The loop returns the longest run of consecutive wins. |
| Stats.LongestRunIsLongest | ui/src/state/game.rs:292-304 | No window of consecutive wins is longer than the result, and some window has exactly that length. |
| Stats.StreakBounds | ui/src/state/game.rs:284-304 | streak ≤ max streak ≤ number of games. |
| Stats.ThreeWinsLossTwoWins | ui/src/state/game.rs:269-304 | Three wins, then a loss after six misses, then two wins. The statistics are streak 2, max streak 3, 6 played and 5 wins. Every sample game is consistent with `update`. |
| Keyboard.FromGame | ui/src/components/keyboard.rs:56-84 | The nested loops build the map that applying every (typed character, hint) write in order gives. |
| Keyboard.InsertGuess | ui/src/components/keyboard.rs:64-79 | One guess's insertions extend the fold by that guess's writes. |
| Keyboard.LastWriteWins | ui/src/components/keyboard.rs:66-78 | A character has an entry exactly when some write names it. The entry is the state of the last such write. |
| Keyboard.LaterWritesWin | ui/src/components/keyboard.rs:63-80 | A later guess's writes override an earlier one's; keys it does not write keep their earlier entry. |
| Keyboard.GuessEntriesMembers | ui/src/components/keyboard.rs:64-66 | One guess writes exactly the pairs (character typed at i, state of hint i), for i below both lengths. |
| Keyboard.StateOf | ui/src/components/keyboard.rs:68-77 | The key state for a hint: each hint maps to the key state of the same name (definition, no contract of its own). Keyboard.GuessEntriesMembers states that a guess writes StateOf of each hint. |
| Keyboard.EntriesSound | ui/src/components/keyboard.rs:63-66 | Every write is (character typed at i, state of hint i) for some guess and some position i below both lengths. |
| Keyboard.EntriesComplete | ui/src/components/keyboard.rs:63-66 | Every position below both lengths of every guess makes its write. |
| Keyboard.EmptyGameAllUnused | ui/src/components/keyboard.rs:116 | With no guesses every key looks up as Unused. |
| Keyboard.Lookup | ui/src/components/keyboard.rs:116 | A glyph with an entry shows that entry's state, as `state.get(&glyph).cloned()` gives it. A state other than Unused comes only from an entry, so a glyph with no entry gets the default Unused. |
| Keyboard.LookupShowsLastWrite | ui/src/components/keyboard.rs:116 | A key no write names looks up as Unused. A key some write names looks up as the state of the last write naming it. |
| Keyboard.OnlySingleCharacterKeys | ui/src/components/keyboard.rs:66-77 | Keys are single characters, so ENTER and BKSP always look up as Unused. |
| Keyboard.UntypedCharacterUnused | ui/src/components/keyboard.rs:66-77 | Keys keep the typed case: a character no guess holds looks up as Unused, even when its other case was typed. |
| Dictionary.ContainsIgnoresCase | ui/src/state/wordlist.rs:18-21 | Two queries equal after lower-casing get the same answer. |
| Dictionary.ContainsLowered | ui/src/state/wordlist.rs:18-21 | contains(w) == contains(lower(w)). |
| Dictionary.Contains | ui/src/state/wordlist.rs:18-21 | `contains`: the lower-cased query is one of the stored words (definition, no contract of its own). Its properties are stated by Dictionary.ContainsIgnoresCase, Dictionary.ContainsLowered, Dictionary.MixedCaseEntryNeverMatches and Dictionary.UpperEntryUnreachable. |
| Dictionary.MixedCaseEntryNeverMatches | ui/src/state/wordlist.rs:18-21 | A matched entry never has an upper-case letter. |
| Dictionary.UpperEntryUnreachable | ui/src/state/wordlist.rs:18-21 | The list ["Crane"] contains no query at all. |
| Dictionary.FromTerminatedText | ui/src/state/wordlist.rs:24-29 | Words each followed by a newline are read back verbatim and in order. |
| Dictionary.FromCrlfText | ui/src/state/wordlist.rs:24-29 | With CRLF line endings the '\r' goes and the words are read back. |
| Dictionary.FromTextJoin | ui/src/state/wordlist.rs:24-29 | For text without '\r' and without a final newline, joining the words with newlines gives the text back. |
| Dictionary.FromTextWordsHaveNoNewline | ui/src/state/wordlist.rs:26 | No word holds a newline. |
| Dictionary.FromTextTrailingNewline | ui/src/state/wordlist.rs:26 | A final newline adds no empty word. |
| Dictionary.FromText | ui/src/state/wordlist.rs:24-29 | `From<String>`: the words are the text's lines (definition, no contract of its own). What they are is stated by Dictionary.FromTerminatedText, Dictionary.FromCrlfText, Dictionary.FromTextJoin, Dictionary.FromTextWordsHaveNoNewline and Dictionary.FromTextTrailingNewline. |
| Session.OnInput | ui/src/components/game.rs:22-48 | The callback's action and class change are those of the decision rule `OnKey`. |
| Session.OnKey | ui/src/components/game.rs:22-48 | The handler's decision rule (definition, no contract of its own). Its branches are stated by Session.RunningGate, Session.BackspaceDropsLast, Session.EnterNeedsListedWord and Session.OtherKeyAppends. |
| Session.RunningGate | ui/src/components/game.rs:23-25 | A game that is not Running dispatches nothing, whatever the key. |
| Session.BackspaceDropsLast | ui/src/components/game.rs:30-33 | BKSP dispatches SetCurrent with the last character removed. An empty word is sent unchanged. |
| Session.Pop | ui/src/components/game.rs:31 | `String::pop`: the word without its last character, and the empty word stays empty (definition, no contract of its own). Session.BackspaceDropsLast states both cases. |
| Session.EnterNeedsListedWord | ui/src/components/game.rs:34-40 | ENTER dispatches AddGuess exactly when the wordlist contains the word. Otherwise it flags `error-not-a-word` and the game, tries included, is unchanged. |
| Session.OtherKeyAppends | ui/src/components/game.rs:41-46 | Any other key is appended and dispatched only while the word is shorter than the solution. |
| Session.InputKeepsInvariant | ui/src/components/game.rs:22-48 | With one-character keys, a key press keeps three things: the game's state is the recomputed one, there are at most six tries, and the current word is no longer than the solution. |
| Text.LinesOfTerminated | ui/src/state/wordlist.rs:26 | Splitting newline-terminated lines, none ending in '\r', gives the lines back. |
| Text.JoinLines | ui/src/state/wordlist.rs:26 | Lines joined by newline reproduce a text without '\r' and without a final newline. |
| Text.Lines | ui/src/state/wordlist.rs:26 | Rust's `str::lines` (definition, no contract of its own). Text.LinesOfTerminated and Text.JoinLines state what it returns, and Dictionary.FromTextWordsHaveNoNewline shows no line holds a newline. |
| Text.NumeralDecimal | ui/src/state/game.rs:153 | A numeral's value printed in decimal is that numeral. |
| Text.DecimalValue | ui/src/state/game.rs:153 | The decimal digits of n read back as n. |
| Text.Decimal | ui/src/state/game.rs:153 | The result is a numeral: digits only, no leading zero. Text.DecimalValue reads it back as n. |
| Text.Upper | ui/src/state/game.rs:50-51 | `to_uppercase` on ASCII: the same length, and each character is upper-cased in place. |
| Text.Lower | ui/src/state/wordlist.rs:19 | `to_lowercase` on ASCII: the same length, and each character is lower-cased in place. |

## Left out

- Serialization: serde, the JSON encoding in LocalStorage and its round trips are a foreign library. The store is an in-memory map of game records. The panics when a record fails to read or write (`unwrap` at ui/src/state/game.rs:107, `expect` at :166) are not modelled.
- The store holds only game records. Keys of other kinds, and `store.key(i)` returning none, are not modelled. Nor are the panics when the browser's Storage API fails (`store.length().unwrap()` at ui/src/state/game.rs:89, `store.key(i).unwrap()` at :92). A newly written key is listed after the existing ones; a browser's real enumeration order is not specified.
- Yew plumbing is not modelled: components, hooks, context, `use_effect_with`, `GameStateProvider`, `use_game_context`, `WordlistProvider`, `use_wordlist` and `Game::default` as the reducer's initial state. The files ui/src/main.rs, ui/src/task.rs (async spawning) and ui/src/debug.rs (logging) are not part of this model either.
- Network and clock: ui/src/api.rs (fetching the wordlist and the day's word) and the date from chrono are left out. The wordlist and the solution are parameters.
- Rendering is left out: ui/src/components/guessboard.rs (layout, floating-point histogram percentages, the clipboard and alert). So are `to_css_class` on `Hint` and `State`, and `KeyboardKey`'s class names. The game class change of `on_input` is kept as `Session.ClassChange`.
- Guesses.Hints: only ASCII letters are case-mapped. Rust's full Unicode `to_uppercase` can change a string's length; this model does not cover that.
- Dictionary.Contains: only ASCII letters are lower-cased, for the same reason.
- Session.OnKey: lengths count characters. Rust's `String::len` counts UTF-8 bytes. The two agree on ASCII words only.
- Storage.GameKey: ids are unbounded naturals. The source's `u32` bound is not modelled; no operation of the core does arithmetic on ids.
- Stats.Histogram: the source's panic on a win with more than six tries is the result None.
- Text.Lines: it follows Rust's `str::lines`. A "\r" is dropped only directly before a "\n". A final line without a newline keeps a trailing "\r".
