/** Caching of the search. The game decorates its search with a cache keyed
    by the game object and the mover, not by the board: `PlayerCache` and
    `CachedMinimax` model that cache for one game, so the key is the mover
    alone. `MemoMinimax` is the cache keyed by board contents and mover,
    which returns exactly what the uncached search returns. */
module Cache {
  import opened Board
  import Search

  /** The game's cache: one score per mover, for the whole life of the game. */
  type PlayerCache = map<Players, int>

  /** The search as the game runs it: a mover already in the cache gets the
      cached score whatever the board; otherwise the score is computed as in
      `Search.Minimax`, the children threading the cache from left to right,
      and recorded under the mover unless a child search recorded the mover
      first, in which case that earlier entry stays. */
  function CachedMinimax(b: Board, player: Players, cache: PlayerCache): (r: (int, PlayerCache))
    ensures player in r.1
    ensures forall p :: p in cache ==> p in r.1 && r.1[p] == cache[p]
    decreases |Empties(b)|, if player == Empty then 1 else 0, 1, 0
  {
    if player in cache then (cache[player], cache)
    else
      var winner := Winner(b);
      if winner == XWon then (-1, cache[player := -1])
      else if winner == OWon then (1, cache[player := 1])
      else if IsFull(b) then (0, cache[player := 0])
      else
        EmptiesSpec(b);
        FullIffNoEmpties(b);
        var (moves, after) := CachedScores(b, player, Empties(b), cache);
        var score := Search.Best(player, moves);
        (score, if player in after then after else after[player := score])
  }

  /** The scores of the placements on `positions`, each child search using
      the cache as the previous one left it. */
  function CachedScores(b: Board, player: Players, positions: seq<Pos>, cache: PlayerCache): (r: (seq<int>, PlayerCache))
    requires forall i :: 0 <= i < |positions| ==> b[positions[i]] == Empty
    ensures |r.0| == |positions|
    ensures forall p :: p in cache ==> p in r.1 && r.1[p] == cache[p]
    decreases |Empties(b)|, if player == Empty then 1 else 0, 0, |positions|
  {
    if positions == [] then ([], cache)
    else
      PlaceShrinks(b, positions[0], player);
      var (first, next) := CachedMinimax(b[positions[0] := player], Opponent(player), cache);
      var (rest, after) := CachedScores(b, player, positions[1..], next);
      ([first] + rest, after)
  }

  /** Once the mover has a cached score, every board gets that score. */
  lemma CachedScoreIgnoresBoard(b: Board, c: Board, player: Players, cache: PlayerCache)
    requires player in cache
    ensures CachedMinimax(b, player, cache).0 == CachedMinimax(c, player, cache).0 == cache[player]
  {
  }

  /** The computer's move as the game runs it: the first empty cell with the
      largest cached-search score after placing O there, and the cache the
      searches leave. */
  function CachedAiMove(b: Board, cache: PlayerCache): (r: (Pos, PlayerCache))
    requires !IsFull(b)
    ensures b[r.0] == Empty
    ensures X in r.1
  {
    EmptiesSpec(b);
    FullIffNoEmpties(b);
    var positions := Empties(b);
    var (moves, after) := CachedScores(b, O, positions, cache);
    CachedScoresRecordX(b, positions, cache);
    (positions[Search.ArgMax(moves)], after)
  }

  /** Scoring at least one placement of O records a score under X. */
  lemma CachedScoresRecordX(b: Board, positions: seq<Pos>, cache: PlayerCache)
    requires forall i :: 0 <= i < |positions| ==> b[positions[i]] == Empty
    requires positions != []
    ensures X in CachedScores(b, O, positions, cache).1
  {
  }

  /** With X already cached, every placement of O scores the cached value and
      the cache stays as it is. */
  lemma {:induction false} CachedScoresWhenXCached(b: Board, positions: seq<Pos>, cache: PlayerCache)
    requires forall i :: 0 <= i < |positions| ==> b[positions[i]] == Empty
    requires X in cache
    ensures CachedScores(b, O, positions, cache).1 == cache
    ensures forall k :: 0 <= k < |positions| ==> CachedScores(b, O, positions, cache).0[k] == cache[X]
    decreases |positions|
  {
    if positions != [] {
      CachedScoresWhenXCached(b, positions[1..], cache);
    }
  }

  /** Once a game has searched with X to move, which its first computer move
      does, every later computer move is the first empty cell in key order. */
  lemma CachedAiMoveTakesFirstEmpty(b: Board, cache: PlayerCache)
    requires !IsFull(b) && X in cache
    ensures Empties(b) != [] && CachedAiMove(b, cache).0 == Empties(b)[0]
    ensures CachedAiMove(b, cache).1 == cache
  {
    EmptiesSpec(b);
    FullIffNoEmpties(b);
    var positions := Empties(b);
    CachedScoresWhenXCached(b, positions, cache);
    FirstOfEqualScores(CachedScores(b, O, positions, cache).0);
  }

  /** Among equal scores the first one is kept. */
  lemma FirstOfEqualScores(s: seq<int>)
    requires |s| > 0
    requires forall k :: 0 <= k < |s| ==> s[k] == s[0]
    ensures Search.ArgMax(s) == 0
  {
  }

  /** The cache the search means to keep: scores keyed by board contents and mover. */
  type Memo = map<(Board, Players), int>

  /** Every entry holds the uncached search's score of its board and mover. */
  ghost predicate Sound(memo: Memo) {
    forall key :: key in memo ==> memo[key] == Search.Minimax(key.0, key.1)
  }

  /** The search with a cache keyed by board contents and mover: it returns
      the uncached search's score and keeps the cache sound. */
  function MemoMinimax(b: Board, player: Players, memo: Memo): (r: (int, Memo))
    requires Sound(memo)
    ensures r.0 == Search.Minimax(b, player)
    ensures Sound(r.1) && (b, player) in r.1
    decreases |Empties(b)|, if player == Empty then 1 else 0, 1, 0
  {
    if (b, player) in memo then (memo[(b, player)], memo)
    else
      var winner := Winner(b);
      if winner == XWon then (-1, memo[(b, player) := -1])
      else if winner == OWon then (1, memo[(b, player) := 1])
      else if IsFull(b) then (0, memo[(b, player) := 0])
      else
        Search.MinimaxOpen(b, player);
        var (moves, after) := MemoScores(b, player, Empties(b), memo);
        var score := Search.Best(player, moves);
        (score, after[(b, player) := score])
  }

  /** The scores of the placements on `positions` through the sound cache. */
  function MemoScores(b: Board, player: Players, positions: seq<Pos>, memo: Memo): (r: (seq<int>, Memo))
    requires forall i :: 0 <= i < |positions| ==> b[positions[i]] == Empty
    requires Sound(memo)
    ensures r.0 == Search.Scores(b, player, positions)
    ensures Sound(r.1)
    decreases |Empties(b)|, if player == Empty then 1 else 0, 0, |positions|
  {
    if positions == [] then ([], memo)
    else
      PlaceShrinks(b, positions[0], player);
      var (first, next) := MemoMinimax(b[positions[0] := player], Opponent(player), memo);
      var (rest, after) := MemoScores(b, player, positions[1..], next);
      ([first] + rest, after)
  }

  /** With an empty cache, the board below with O to move scores +1 as the
      game runs it, but -1 by the search it means to cache: placing O on
      "11" wins for O and caches +1 under X, so the reply search after O on
      "20" reads +1 from the cache, while there X would complete the
      "10" "11" "12" line. */
  const StaleExample: Board := [X, X, O, O, Empty, O, X, X, Empty]

  lemma StaleCacheExample()
    ensures CachedMinimax(StaleExample, O, map[]).0 == 1
    ensures Search.Minimax(StaleExample, O) == -1
  {
    CachedExample();
    UncachedExample();
  }

  /** The example board is open, with "11" and "20" empty. */
  lemma ExampleIsOpen()
    ensures Empties(StaleExample) == [4, 8]
    ensures Winner(StaleExample) == NoWinner
  {
    var b := StaleExample;
    assert EmptiesFrom(b, 9) == [];
    assert EmptiesFrom(b, 8) == [8];
    assert EmptiesFrom(b, 5) == [8];
    assert EmptiesFrom(b, 4) == [4, 8];
    assert !IsFull(b) by { assert b[4] == Empty; }
    assert WinnerFrom(b, 8) == NoWinner;
    assert WinnerFrom(b, 4) == NoWinner;
  }

  /** O on "11" completes O's "01" "11" "21" line. */
  lemma ExampleOWins()
    ensures Winner(StaleExample[4 := O]) == OWon
  {
    var winO := StaleExample[4 := O];
    assert Completes(winO, 4, O);
    assert WinnerFrom(winO, 3) == OWon;
  }

  /** O on "20" leaves only "11" open, where X completes "10" "11" "12". */
  lemma ExampleXReplies()
    ensures Empties(StaleExample[8 := O]) == [4]
    ensures Winner(StaleExample[8 := O]) == NoWinner
    ensures Winner(StaleExample[8 := O][4 := X]) == XWon
  {
    var afterO := StaleExample[8 := O];
    assert EmptiesFrom(afterO, 5) == [];
    assert EmptiesFrom(afterO, 4) == [4];
    assert !IsFull(afterO) by { assert afterO[4] == Empty; }
    assert WinnerFrom(afterO, 8) == NoWinner;
    assert WinnerFrom(afterO, 4) == NoWinner;
    assert Completes(afterO[4 := X], 1, X);
  }

  lemma CachedExample()
    ensures CachedMinimax(StaleExample, O, map[]).0 == 1
  {
    var b := StaleExample;
    ExampleIsOpen();
    ExampleOWins();
    ExampleXReplies();
    var cached := map[X := 1];
    assert CachedMinimax(b[4 := O], X, map[]) == (1, cached);
    assert CachedMinimax(b[8 := O], X, cached) == (1, cached);
    assert [8][1..] == [] && [4, 8][1..] == [8];
    assert CachedScores(b, O, [], cached) == ([], cached);
    assert b[[8][0] := O] == b[8 := O];
    assert CachedScores(b, O, [8], cached).1 == cached;
    assert CachedScores(b, O, [8], cached).0 == [1];
    assert b[[4, 8][0] := O] == b[4 := O];
    assert CachedScores(b, O, [4, 8], map[]).1 == cached;
    assert CachedScores(b, O, [4, 8], map[]).0 == [1, 1];
  }

  lemma UncachedExample()
    ensures Search.Minimax(StaleExample, O) == -1
  {
    var b := StaleExample;
    ExampleIsOpen();
    ExampleOWins();
    ExampleXReplies();
    var afterO := b[8 := O];
    assert Search.Minimax(b[4 := O], X) == 1;
    assert Search.Scores(afterO, X, [4]) == [-1];
    assert Search.Minimax(afterO, X) == -1;
    assert Search.Scores(b, O, [4, 8]) == [1, -1];
  }
}
