/**
 * Persistence of games (`save`, `restore`, `update`, `get_keys`, `get_games`
 * in ui/src/state/game.rs) and the reducer (`Reducible::reduce`).
 *
 * The browser's key-value store is a `Store` object: the stored games by id,
 * and the order in which the store enumerates its keys. The key of game `id`
 * is the string "game:<id>".
 */
module Storage {
  import opened Options
  import opened Text
  import opened Guesses
  import opened Games

  const GamePrefix: string := "game:"

  /** `format!("game:{}", id)` */
  function GameKey(id: nat): (k: string)
    ensures GamePrefix <= k && IsNumeral(k[|GamePrefix|..])
  {
    GamePrefix + Decimal(id)
  }

  /** The id a key names, if it has the form "game:<id>". */
  function ParseGameKey(key: string): Option<nat> {
    if GamePrefix <= key && IsNumeral(key[|GamePrefix|..]) then Some(DigitsValue(key[|GamePrefix|..])) else None
  }

  /** A key names id exactly when it is that id's key: keys and ids are in one-to-one correspondence. */
  lemma ParseGameKeyIff(key: string, id: nat)
    ensures ParseGameKey(key) == Some(id) <==> key == GameKey(id)
  {
    var digits := Decimal(id);
    assert GameKey(id)[|GamePrefix|..] == digits;
    DecimalValue(id);
    if ParseGameKey(key) == Some(id) {
      var rest := key[|GamePrefix|..];
      NumeralDecimal(rest);
      assert key == GamePrefix + rest;
    }
  }

  lemma GameKeyInjective(a: nat, b: nat)
    ensures GameKey(a) == GameKey(b) ==> a == b
  {
    if GameKey(a) == GameKey(b) {
      assert Decimal(a) == GameKey(a)[|GamePrefix|..];
      assert Decimal(b) == GameKey(b)[|GamePrefix|..];
      DecimalInjective(a, b);
    }
  }

  // ---------------------------------------------------------------------
  // The store as a map from id to game

  /** `save`: a game with id 0 is not stored; any other overwrites the record under its id. */
  function SaveTo(m: map<nat, Game>, g: Game): (r: map<nat, Game>)
    ensures g.id == 0 ==> r == m
    ensures g.id != 0 ==> r.Keys == m.Keys + {g.id} && r[g.id] == g
    ensures forall id :: id in m && id != g.id ==> id in r && r[id] == m[id]
  {
    if g.id == 0 then m else m[g.id := g]
  }

  /** `restore`: the stored record under the game's id replaces the game, if there is one. */
  function RestoreFrom(m: map<nat, Game>, g: Game): (r: Game)
    ensures r == g || r in m.Values
  {
    if g.id in m then m[g.id] else g
  }

  /** What restoring finds right after saving: the saved game, whole. */
  lemma RestoreAfterSave(m: map<nat, Game>, g: Game, probe: Game)
    requires g.id != 0 && probe.id == g.id
    ensures RestoreFrom(SaveTo(m, g), probe) == g
  {
  }

  /** Restoring a game whose id has no record gives the game back unchanged. */
  lemma RestoreWithoutRecord(m: map<nat, Game>, g: Game)
    requires g.id !in m
    ensures RestoreFrom(m, g) == g
  {
  }

  /** `Game::new` stores nothing: its id is 0. */
  lemma FreshIsNotStored(m: map<nat, Game>, solution: string)
    ensures Recompute(Fresh(solution)) == Fresh(solution)
    ensures SaveTo(m, Recompute(Fresh(solution))) == m
  {
  }

  /** Running `update` twice persists the same record as running it once. */
  lemma UpdateTwiceStoresSame(m: map<nat, Game>, g: Game)
    ensures SaveTo(SaveTo(m, Recompute(g)), Recompute(Recompute(g))) == SaveTo(m, Recompute(g))
  {
    RecomputeIdempotent(g);
  }

  /** The game `reduce` returns, before it is saved. */
  function Step(m: map<nat, Game>, g: Game, action: GameAction): Game {
    Recompute(
      match action
      case SetSolution(id, solution) => RestoreFrom(m, g.(id := id, solution := solution))
      case SetCurrent(current) => g.(current := current)
      case AddGuess => g.(guesses := g.guesses + [g.current], current := []))
  }

  /** `AddGuess` appends the current word as one more guess and clears the current word. */
  lemma StepAddGuess(m: map<nat, Game>, g: Game)
    ensures var r := Step(m, g, AddGuess);
      && r.guesses == g.guesses + [g.current]
      && Tries(r) == Tries(g) + 1
      && r.current == []
      && r.id == g.id && r.solution == g.solution
      && Consistent(r)
  {
  }

  /** `SetCurrent` replaces the current word; besides it only the recomputed state changes. */
  lemma StepSetCurrent(m: map<nat, Game>, g: Game, current: Guess)
    ensures Step(m, g, SetCurrent(current)) == g.(current := current, state := NextState(g.guesses, g.solution))
  {
  }

  /**
   * `SetSolution` without a stored record keeps the guesses and the current
   * word under the new id and solution; with one, the record replaces the game.
   */
  lemma StepSetSolution(m: map<nat, Game>, g: Game, id: nat, solution: string)
    ensures id !in m ==>
      Step(m, g, SetSolution(id, solution)) == Recompute(Game(id, solution, g.guesses, g.current, g.state))
    ensures id in m ==>
      Step(m, g, SetSolution(id, solution)) == Recompute(m[id])
  {
  }

  /** Every transition leaves a consistent game. */
  lemma StepConsistent(m: map<nat, Game>, g: Game, action: GameAction)
    ensures Consistent(Step(m, g, action))
  {
  }

  // ---------------------------------------------------------------------
  // Keys

  function StoreKeys(order: seq<nat>): (keys: seq<string>)
    ensures |keys| == |order|
  {
    seq(|order|, i requires 0 <= i < |order| => GameKey(order[i]))
  }

  /** The keys that start with the prefix, in the order given. */
  function WithPrefix(keys: seq<string>, prefix: string): (ks: seq<string>)
    ensures |ks| <= |keys|
  {
    if keys == [] then []
    else
      var last := keys[|keys| - 1];
      WithPrefix(keys[..|keys| - 1], prefix) + (if prefix <= last then [last] else [])
  }

  /** A key is listed exactly when it is a key of the store that starts with the prefix. */
  lemma {:induction false} WithPrefixMembers(keys: seq<string>, prefix: string)
    ensures forall k :: k in WithPrefix(keys, prefix) <==> k in keys && prefix <= k
  {
    if keys != [] {
      var init := keys[..|keys| - 1];
      WithPrefixMembers(init, prefix);
      assert keys == init + [keys[|keys| - 1]];
    }
  }

  /** Every key of the store starts with "game:", so listing by that prefix lists them all. */
  lemma {:induction false} GameKeysAllListed(order: seq<nat>)
    ensures WithPrefix(StoreKeys(order), GamePrefix) == StoreKeys(order)
  {
    if order != [] {
      var init := order[..|order| - 1];
      assert StoreKeys(order)[..|order| - 1] == StoreKeys(init);
      GameKeysAllListed(init);
      assert StoreKeys(order) == StoreKeys(init) + [GameKey(order[|order| - 1])];
    }
  }

  // ---------------------------------------------------------------------
  // Sorting by id (`sort_by_key`)

  predicate SortedById(s: seq<Game>) {
    forall i, j :: 0 <= i < j < |s| ==> s[i].id <= s[j].id
  }

  /** A game no later than the head of a sorted sequence can go in front of it. */
  lemma SortedCons(g: Game, s: seq<Game>)
    requires SortedById(s) && (s == [] || g.id <= s[0].id)
    ensures SortedById([g] + s)
  {
    var r := [g] + s;
    forall i, j | 0 <= i < j < |r| ensures r[i].id <= r[j].id {
      assert r[j] == s[j - 1];
      if i == 0 {
        if j > 1 {
          assert s[0].id <= s[j - 1].id;
        }
      } else {
        assert r[i] == s[i - 1];
      }
    }
  }

  /** One step of insertion sort: `g` goes in front of the first game with an id no smaller. */
  function InsertById(g: Game, s: seq<Game>): (r: seq<Game>)
    ensures |r| == |s| + 1
    ensures multiset(r) == multiset(s) + multiset{g}
  {
    if s == [] || g.id <= s[0].id then
      [g] + s
    else
      assert s == [s[0]] + s[1..];
      [s[0]] + InsertById(g, s[1..])
  }

  /** Inserting into a sequence sorted by id keeps it sorted. */
  lemma {:induction false} InsertSorted(g: Game, s: seq<Game>)
    requires SortedById(s)
    ensures SortedById(InsertById(g, s))
    ensures InsertById(g, s)[0] == g || (s != [] && InsertById(g, s)[0] == s[0])
  {
    if s == [] || g.id <= s[0].id {
      SortedCons(g, s);
    } else {
      assert SortedById(s[1..]) by {
        forall i, j | 0 <= i < j < |s| - 1 ensures s[1..][i].id <= s[1..][j].id {
          assert s[1..][i] == s[i + 1] && s[1..][j] == s[j + 1];
        }
      }
      InsertSorted(g, s[1..]);
      assert |s| > 1 ==> s[0].id <= s[1].id;
      SortedCons(s[0], InsertById(g, s[1..]));
    }
  }

  /** Insertion sort by id (`sort_by_key`): sorted, and a permutation of the input. */
  function SortById(s: seq<Game>): (r: seq<Game>)
    ensures SortedById(r)
    ensures multiset(r) == multiset(s)
  {
    if s == [] then []
    else
      assert s == [s[0]] + s[1..];
      var rest := SortById(s[1..]);
      InsertSorted(s[0], rest);
      InsertById(s[0], rest)
  }

  function Elements(s: seq<nat>): set<nat> {
    set x | x in s
  }

  lemma {:induction false} DistinctCardinality(s: seq<nat>)
    requires forall i, j :: 0 <= i < j < |s| ==> s[i] != s[j]
    ensures |Elements(s)| == |s|
  {
    if s != [] {
      var init, last := s[..|s| - 1], s[|s| - 1];
      DistinctCardinality(init);
      assert last !in Elements(init);
      assert s == init + [last];
      assert Elements(s) == Elements(init) + {last};
    }
  }

  /** Loading the record of every listed id, in listing order. */
  predicate LoadedInOrder(m: map<nat, Game>, order: seq<nat>, loaded: seq<Game>) {
    && (forall k :: 0 <= k < |order| ==> order[k] in m)
    && |loaded| == |order|
    && (forall k :: 0 <= k < |order| ==> loaded[k] == m[order[k]])
  }

  lemma LoadedStep(m: map<nat, Game>, order: seq<nat>, loaded: seq<Game>, i: nat)
    requires i < |order| && order[i] in m
    requires LoadedInOrder(m, order[..i], loaded)
    ensures LoadedInOrder(m, order[..i + 1], loaded + [m[order[i]]])
  {
    assert forall k :: 0 <= k < i ==> order[..i + 1][k] == order[..i][k];
  }

  lemma LoadedCount(m: map<nat, Game>, order: seq<nat>, loaded: seq<Game>)
    requires forall i, j :: 0 <= i < j < |order| ==> order[i] != order[j]
    requires forall id :: id in m <==> id in order
    requires LoadedInOrder(m, order, loaded)
    ensures |SortById(loaded)| == |m|
  {
    DistinctCardinality(order);
    assert m.Keys == Elements(order);
    assert |SortById(loaded)| == |multiset(SortById(loaded))| == |loaded|;
  }

  lemma LoadedHasAll(m: map<nat, Game>, order: seq<nat>, loaded: seq<Game>, id: nat)
    requires forall id :: id in m <==> id in order
    requires LoadedInOrder(m, order, loaded)
    requires id in m
    ensures m[id] in SortById(loaded)
  {
    var k :| 0 <= k < |order| && order[k] == id;
    assert loaded[k] in multiset(loaded);
    assert m[id] in multiset(SortById(loaded));
  }

  lemma LoadedAreRecords(m: map<nat, Game>, order: seq<nat>, loaded: seq<Game>, g: Game)
    requires forall id :: id in m ==> m[id].id == id
    requires LoadedInOrder(m, order, loaded)
    requires g in SortById(loaded)
    ensures g.id in m && m[g.id] == g
  {
    assert g in multiset(SortById(loaded));
    assert g in multiset(loaded);
    var k :| 0 <= k < |loaded| && loaded[k] == g;
  }

  /** What sorting the loaded records gives, for a store in which every id names its own record. */
  lemma SortedLoad(m: map<nat, Game>, order: seq<nat>, loaded: seq<Game>)
    requires forall i, j :: 0 <= i < j < |order| ==> order[i] != order[j]
    requires forall id :: id in m <==> id in order
    requires forall id :: id in m ==> m[id].id == id
    requires LoadedInOrder(m, order, loaded)
    ensures |SortById(loaded)| == |m|
    ensures forall id :: id in m ==> m[id] in SortById(loaded)
    ensures forall g :: g in SortById(loaded) ==> g.id in m && m[g.id] == g
  {
    LoadedCount(m, order, loaded);
    forall id | id in m ensures m[id] in SortById(loaded) {
      LoadedHasAll(m, order, loaded, id);
    }
    forall g | g in SortById(loaded) ensures g.id in m && m[g.id] == g {
      LoadedAreRecords(m, order, loaded, g);
    }
  }

  // ---------------------------------------------------------------------

  class Store {
    /** The stored games; `games[id]` is the record under key `GameKey(id)`. */
    var games: map<nat, Game>
    /** The ids of the stored keys, in the order the store enumerates them. */
    var order: seq<nat>

    ghost predicate Valid()
      reads this
    {
      && (forall i, j :: 0 <= i < j < |order| ==> order[i] != order[j])
      && (forall id :: id in games <==> id in order)
      && 0 !in games
      && (forall id :: id in games ==> games[id].id == id)
    }

    constructor ()
      ensures Valid() && games == map[] && order == []
    {
      games := map[];
      order := [];
    }

    /** `save`: newly written keys are enumerated after the existing ones. */
    method Save(g: Game)
      requires Valid()
      modifies this
      ensures Valid()
      ensures games == SaveTo(old(games), g)
      ensures order == if g.id == 0 || g.id in old(games) then old(order) else old(order) + [g.id]
    {
      if g.id == 0 {
        return;
      }
      if g.id !in games {
        order := order + [g.id];
      }
      games := games[g.id := g];
    }

    /** `update`: recompute the state, then save. */
    method Update(g: Game) returns (r: Game)
      requires Valid()
      modifies this
      ensures Valid()
      ensures r == Recompute(g)
      ensures games == SaveTo(old(games), r)
      ensures order == if r.id == 0 || r.id in old(games) then old(order) else old(order) + [r.id]
    {
      r := Recompute(g);
      Save(r);
    }

    /** `Game::new`: a fresh running game for the solution; the store is not touched. */
    method New(solution: string) returns (g: Game)
      requires Valid()
      modifies this
      ensures Valid()
      ensures g == Fresh(solution) && g.state == Running
      ensures games == old(games) && order == old(order)
    {
      g := Update(Fresh(solution));
    }

    /** `reduce`: apply the action, recompute, save. */
    method Reduce(g: Game, action: GameAction) returns (r: Game)
      requires Valid()
      modifies this
      ensures Valid()
      ensures r == Step(old(games), g, action)
      ensures games == SaveTo(old(games), r)
      ensures order == if r.id == 0 || r.id in old(games) then old(order) else old(order) + [r.id]
    {
      var next: Game;
      match action {
        case SetSolution(id, solution) =>
          next := RestoreFrom(games, g.(id := id, solution := solution));
        case SetCurrent(current) =>
          next := g.(current := current);
        case AddGuess =>
          var guesses := g.guesses + [g.current];
          next := g.(guesses := guesses, current := []);
      }
      r := Update(next);
    }

    /** `get_keys`: the store's keys that start with the prefix, in enumeration order. */
    method GetKeys(prefix: string) returns (keys: seq<string>)
      ensures keys == WithPrefix(StoreKeys(order), prefix)
    {
      keys := [];
      var i := 0;
      while i < |order|
        invariant 0 <= i <= |order|
        invariant keys == WithPrefix(StoreKeys(order)[..i], prefix)
      {
        var key := GameKey(order[i]);
        assert StoreKeys(order)[..i + 1][..i] == StoreKeys(order)[..i];
        if prefix <= key {
          keys := keys + [key];
        }
        i := i + 1;
      }
      assert StoreKeys(order)[..|order|] == StoreKeys(order);
    }

    /** `get_games`: every stored game, sorted by id. */
    method GetGames() returns (result: seq<Game>)
      requires Valid()
      ensures SortedById(result)
      ensures |result| == |games|
      ensures forall id :: id in games ==> games[id] in result
      ensures forall g :: g in result ==> g.id in games && games[g.id] == g
    {
      var keys := GetKeys(GamePrefix);
      GameKeysAllListed(order);
      var loaded: seq<Game> := [];
      var i := 0;
      while i < |keys|
        invariant 0 <= i <= |keys|
        invariant LoadedInOrder(games, order[..i], loaded)
      {
        assert keys[i] == GameKey(order[i]);
        ParseGameKeyIff(keys[i], order[i]);
        var id := ParseGameKey(keys[i]).value;
        LoadedStep(games, order, loaded, i);
        loaded := loaded + [games[id]];
        i := i + 1;
      }
      assert order[..|order|] == order;
      result := SortById(loaded);
      SortedLoad(games, order, loaded);
    }
  }
}
