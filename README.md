# Tic-tac-toe against a minimax computer player, in Dafny

This project models the game class `AITicTacToeGame` of a small Python
tic-tac-toe program. A human plays X and the computer plays O. The computer
picks its move with an exhaustive minimax search. The search places marks on
the game's own board and then resets them.

The model has two layers.

- **Values** (`board.dfy`, `search.dfy`). The cell contents are the datatype
  `Players` (`X | O | Empty`). The board is a sequence of nine cells. Position
  `i` is the index of its key in the dictionary's key order "22", "12", "02",
  "01", "11", "21", "00", "10", "20". Every enumeration of the board follows
  this order. `Empties`, `IsFull` and `Winner` are the game's queries.
  `Winner` returns `XWon`, `OWon`, `Full` or `NoWinner`. These stand for the
  game's `Players.X`, `Players.O`, the sentinel `1` and `None`.
  `Search.Minimax(b, player)` is the search as a recursive function, and
  `Search.AiChoice(b)` is the computer's cell.
- **The game object** (`game.dfy`). The class `AITicTacToeGame` holds the
  board as an array of nine cells. Its methods `Minimax`, `AiMove` and `Play`
  change that array in place, as the game does. Each method is proved to
  compute the matching function of the value layer. The two search methods
  are also proved to leave the board exactly as they found it.

The search's roles are modelled as the game has them. A board won by X scores
-1 and one won by O scores +1. Yet X takes the largest child score and O the
smallest. The computer then takes the largest score after placing O. Nothing
in the model claims that the search plays well.

`Minimax` does not exclude `Empty` as the mover. Placing `Empty` leaves the
board unchanged, and the child searches then have X to move
(`Search.MinimaxWithEmptyMover`). The recursion terminates on the pair
(number of empty cells, 1 if the mover is `Empty` else 0).

The game caches its search with `functools.lru_cache`. That cache is keyed by
the game object and the mover, not by the board. `cache.dfy` models that
cache, shows what it does wrong, and gives the board-keyed cache that returns
the search's own scores (see Findings).

## Model

| member | source | states |
|---|---|---|
| Board.KeyIndex | main.py:20-30 | a key maps to a position holding that key; no position means the key is not one of the nine |
| Board.KeyIndexOf | main.py:20-30 | the nine keys are distinct, so each key names exactly its own position |
| Board.Opponent | main.py:54 | the next mover is never the empty mark and differs from the current one; it is O exactly when X has just moved |
| Board.Empties | main.py:33-34 | the empty positions in key order; its properties are `Board.EmptiesSpec` |
| Board.EmptiesSpec | main.py:33-34 | the empty positions are exactly the empty cells, each once, in key order |
| Board.IsFull | main.py:36-37 | no cell is empty |
| Board.FullIffNoEmpties | main.py:36-37 | the board is full exactly when there is no empty position |
| Board.PlaceShrinks | main.py:52-54 | placing a mark on an empty cell leaves one empty cell fewer; placing `Empty` changes nothing (the search's termination measure) |
| Board.LinesMatchKeys | main.py:92-101 | the eight lines, by position, are the game's eight key triples in the same order |
| Board.Winner | main.py:91-107 | the winner check; what it reports is stated by `Board.WinnerSpec` |
| Board.WinnerSpec | main.py:91-107 | the winner check reports the mark of the first won line in line order, `Full` when no line is won and the board is full, `NoWinner` otherwise; each as an if-and-only-if |
| Board.WinnerOfOneSidedBoard | main.py:102-106 | a board with a line of one mark and none of the other is won by that mark |
| Search.ArgMax | main.py:75 | `max` over the moves picks an index with no larger score, and every earlier score is strictly smaller (first maximum) |
| Search.ArgMin | main.py:61 | `min` over the moves picks an index with no smaller score, and every earlier score is strictly larger (first minimum) |
| Search.Minimax | main.py:39-63 | every score is -1, 0 or +1 |
| Search.Scores | main.py:52-56 | one score per tried position, each in -1..1 |
| Search.Best | main.py:58-63 | the kept score is one of the moves' scores, no smaller than any when X moves and no larger than any otherwise |
| Search.ScoresAt | main.py:52-56 | the k-th score is the search's score after placing the mover on the k-th position, with the opponent to move |
| Search.ScoresSnoc | main.py:52-55 | trying one more position appends its score at the end of the list of moves |
| Search.MinimaxOnFinishedBoard | main.py:41-47 | first won line X's gives -1, O's gives +1, no won line and full gives 0, whoever moves |
| Search.MinimaxOfOpenBoard | main.py:49-63 | on an open board the score is one of the child scores on an empty cell, and it is the largest when X moves and the smallest otherwise |
| Search.MinimaxWithEmptyMover | main.py:54 | with `Empty` as mover, an open board scores what it scores with X to move |
| Search.AiChoice | main.py:65-76 | the computer's cell is empty |
| Search.AiChoiceIsFirstBest | main.py:65-76 | no empty cell has a larger score after placing O there, and every empty cell before the chosen one in key order has a strictly smaller score |
| Game.PlayResult | main.py:109-118 | the board after a human move, or the error it raises; stated by `Game.PlayRejects` and `Game.PlayAccepts` |
| Game.PlayRejects | main.py:109-113 | refused as invalid exactly when the key is not one of the nine; refused as occupied exactly when the key names a taken cell |
| Game.PlayAccepts | main.py:115-118 | a move on an empty cell is accepted and puts X there; if the board is then not full, O goes on the computer's cell, which is a different cell that was empty; no other cell changes |
| Game.PlayKeepsTurns | main.py:115-118 | from a board with as many X as O, an accepted move leaves them equal, or X one ahead when the human's X fills the board |
| Game.AITicTacToeGame.constructor | main.py:19-30 | a new game has nine empty cells |
| Game.AITicTacToeGame.Minimax | main.py:39-63 | the in-place search returns `Search.Minimax` of the board it was given and restores every cell |
| Game.AITicTacToeGame.AiMove | main.py:65-76 | the in-place move search returns `Search.AiChoice` of the board and restores every cell |
| Game.AITicTacToeGame.Play | main.py:109-118 | on a refused move the board is unchanged and the error is reported; otherwise the board becomes the one `PlayResult` describes |
| Cache.CachedMinimax | main.py:39-63 | the search with the game's cache keyed by the mover: the mover always ends up cached, and entries already cached are never changed |
| Cache.CachedScores | main.py:52-56 | the cached child searches give one score per position and never change an existing entry |
| Cache.CachedAiMove | main.py:65-76 | the computer's move with the game's cache is an empty cell, and it leaves X cached |
| Cache.CachedScoresWhenXCached | main.py:69-73 | with X cached, every placement of O scores the cached value and the cache stays the same |
| Cache.CachedAiMoveTakesFirstEmpty | main.py:65-76 | with X cached, which holds after the first computer move, the computer takes the first empty cell in key order |
| Cache.StaleCacheExample | main.py:39-63 | on the board X X O O _ O X X _ (key order) with O to move and an empty cache, the cached search gives +1 where the uncached search gives -1 |
| Cache.MemoMinimax | main.py:39-63 | the search with a cache keyed by board contents and mover returns exactly `Search.Minimax` and keeps every cache entry equal to the uncached score |
| Cache.MemoScores | main.py:52-56 | through that cache the child searches return exactly `Search.Scores` |

## Left out

- `print_board` and the driver loop at the end of the file: console input and output. The driver's `check_winner` call is `Board.Winner`.
- The exception class's message strings. The two errors of `play` are the constructors `InvalidPosition` and `Occupied` of `Game.PlayError`.
- The display strings "X", "O" and "" of `Players`.
- The unused `_current_turn` field and the `get_board` accessor. `Cells()` gives the board's contents.
- Game.AITicTacToeGame.Minimax: does not model the `lru_cache` decorator. It is the uncached search. The cache is modelled separately in `cache.dfy`.
- Game.AITicTacToeGame.AiMove: does not model the cache either. The computer's cell is the one the uncached search picks, `Search.AiChoice`. With the game's cache the cell can differ already on the first computer move, because the search under the first placement records a score for X that the later placements then read.
- Game.AITicTacToeGame.Play: the computer's reply is the cell the uncached search picks, not the one the game's cached search picks.
- Search.AiChoice: is the choice of the uncached search. The choice with the game's cache is `Cache.CachedAiMove`.
- Game.PlayResult: the computer's reply is `Search.AiChoice`, the uncached search's cell, not the cached one.
- Game.AITicTacToeGame.AiMove: requires a board that is not full. On a full board the game's `max` over an empty list raises an error, and `play` never calls it then.
- The cache's size bound (128 entries) and its eviction: one game uses at most three keys, so nothing is ever evicted.
- Positions are indices 0..8 rather than the two-character keys. `Board.KeyIndex` and `Board.KeyIndexOf` connect the two.

## Findings

| source | as written | input that shows it | evidently intended | confidence | as-written member | corrected member |
|---|---|---|---|---|---|---|
| main.py:39-40 | `_minimax` is cached by `lru_cache` on `(self, player)`, so within one game a mover's first recorded score is returned for every later board | board X X O O _ O X X _ in key order ("11" and "20" empty), O to move, empty cache: +1 instead of -1; within a computer move every placement after the first reads the score that the first one's search recorded for X, and once X is cached, from the second computer move on, the computer always takes the first empty cell in key order | a cache keyed by the board contents and the mover, which returns the uncached score | not executed | Cache.StaleCacheExample | Cache.MemoMinimax |

The corrected cache returns exactly `Search.Minimax`. The game class uses that
uncached search, so the rest of the model has the intended scores.
