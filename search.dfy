/** The game-tree search, as values: the minimax score of a board for a
    mover, and the computer's choice of cell.

    Roles are as the game has them: a completed X line scores -1 and a
    completed O line +1, yet X takes the largest child score and O the
    smallest. Nothing here claims that the search plays well. */
module Search {
  import opened Board

  /** The index of the first largest element: what `max` over the list of
      moves returns, since it keeps the current best unless a later one is
      strictly larger. */
  function ArgMax(s: seq<int>): (k: nat)
    requires |s| > 0
    ensures k < |s|
    ensures forall j :: 0 <= j < |s| ==> s[j] <= s[k]
    ensures forall j :: 0 <= j < k ==> s[j] < s[k]
  {
    if |s| == 1 then 0
    else
      var k := ArgMax(s[..|s| - 1]);
      if s[|s| - 1] > s[k] then |s| - 1 else k
  }

  /** The index of the first smallest element, as `min` over the list of moves picks it. */
  function ArgMin(s: seq<int>): (k: nat)
    requires |s| > 0
    ensures k < |s|
    ensures forall j :: 0 <= j < |s| ==> s[k] <= s[j]
    ensures forall j :: 0 <= j < k ==> s[k] < s[j]
  {
    if |s| == 1 then 0
    else
      var k := ArgMin(s[..|s| - 1]);
      if s[|s| - 1] < s[k] then |s| - 1 else k
  }

  /** The score of board `b` with `player` to move. A board won by X scores
      -1, one won by O scores +1 and a full board 0; otherwise the score is
      the largest child score when X moves and the smallest when anyone else
      does, each child placing the mover's mark on one empty cell.
      The mover Empty is not excluded: "placing" it leaves the board as it
      is, and the child search then has X to move. */
  function Minimax(b: Board, player: Players): (r: int)
    ensures -1 <= r <= 1
    decreases |Empties(b)|, if player == Empty then 1 else 0, 1, 0
  {
    var winner := Winner(b);
    if winner == XWon then -1
    else if winner == OWon then 1
    else if IsFull(b) then 0
    else
      EmptiesSpec(b);
      FullIffNoEmpties(b);
      Best(player, Scores(b, player, Empties(b)))
  }

  /** The score the mover keeps from its list of moves: the first largest for X,
      the first smallest for anyone else. */
  function Best(player: Players, moves: seq<int>): (r: int)
    requires |moves| > 0
    ensures r in moves
    ensures player == X ==> forall k :: 0 <= k < |moves| ==> moves[k] <= r
    ensures player != X ==> forall k :: 0 <= k < |moves| ==> r <= moves[k]
  {
    if player == X then moves[ArgMax(moves)] else moves[ArgMin(moves)]
  }

  /** A board that neither player has won and that has an empty cell left
      is scored from its moves. */
  lemma MinimaxOpen(b: Board, player: Players)
    requires Winner(b) != XWon && Winner(b) != OWon && !IsFull(b)
    ensures Empties(b) != []
    ensures forall k :: 0 <= k < |Empties(b)| ==> b[Empties(b)[k]] == Empty
    ensures Minimax(b, player) == Best(player, Scores(b, player, Empties(b)))
  {
    WinnerSpec(b);
    FullIffNoEmpties(b);
    EmptiesSpec(b);
  }

  /** The scores of placing `player`'s mark on each of `positions` in turn,
      each scored with the opponent to move. */
  function Scores(b: Board, player: Players, positions: seq<Pos>): (r: seq<int>)
    requires forall i :: 0 <= i < |positions| ==> b[positions[i]] == Empty
    ensures |r| == |positions|
    ensures forall k :: 0 <= k < |r| ==> -1 <= r[k] <= 1
    decreases |Empties(b)|, if player == Empty then 1 else 0, 0, |positions|
  {
    if positions == [] then []
    else
      PlaceShrinks(b, positions[0], player);
      [Minimax(b[positions[0] := player], Opponent(player))] + Scores(b, player, positions[1..])
  }

  /** The k-th score is the search's score of the k-th placement. */
  lemma {:induction false} ScoresAt(b: Board, player: Players, positions: seq<Pos>, k: nat)
    requires forall i :: 0 <= i < |positions| ==> b[positions[i]] == Empty
    requires k < |positions|
    ensures Scores(b, player, positions)[k] == Minimax(b[positions[k] := player], Opponent(player))
    decreases k
  {
    if k > 0 {
      ScoresAt(b, player, positions[1..], k - 1);
    }
  }

  /** Scoring one more position appends that position's score. */
  lemma {:induction false} ScoresSnoc(b: Board, player: Players, positions: seq<Pos>, n: nat)
    requires forall i :: 0 <= i < |positions| ==> b[positions[i]] == Empty
    requires n < |positions|
    ensures Scores(b, player, positions[..n + 1])
         == Scores(b, player, positions[..n]) + [Minimax(b[positions[n] := player], Opponent(player))]
    decreases n
  {
    if n > 0 {
      ScoresSnoc(b, player, positions[1..], n - 1);
      assert positions[1..][..n] == positions[..n + 1][1..];
      assert positions[1..][..n - 1] == positions[..n][1..];
    }
  }

  /** A board with no won line and no empty cell left scores 0; one whose
      first won line is X's scores -1, and one whose first won line is O's
      scores +1, whoever is to move. */
  lemma MinimaxOnFinishedBoard(b: Board, player: Players)
    ensures (exists k :: FirstComplete(b, k) && Completes(b, k, X)) ==> Minimax(b, player) == -1
    ensures (exists k :: FirstComplete(b, k) && Completes(b, k, O)) ==> Minimax(b, player) == 1
    ensures NoLine(b) && IsFull(b) ==> Minimax(b, player) == 0
  {
    WinnerSpec(b);
  }

  /** On a board still in play the score is that of one of the placements
      on an empty cell, and it is the largest of them when X moves and the
      smallest otherwise. */
  lemma MinimaxOfOpenBoard(b: Board, player: Players)
    requires NoLine(b) && !IsFull(b)
    ensures exists i: Pos :: b[i] == Empty && Minimax(b, player) == Minimax(b[i := player], Opponent(player))
    ensures player == X ==>
      forall i: Pos :: b[i] == Empty ==> Minimax(b[i := player], Opponent(player)) <= Minimax(b, player)
    ensures player != X ==>
      forall i: Pos :: b[i] == Empty ==> Minimax(b, player) <= Minimax(b[i := player], Opponent(player))
  {
    assert Winner(b) == NoWinner by { WinnerSpec(b); }
    MinimaxIsAChildScore(b, player);
    forall i: Pos | b[i] == Empty
      ensures player == X ==> Minimax(b[i := player], Opponent(player)) <= Minimax(b, player)
      ensures player != X ==> Minimax(b, player) <= Minimax(b[i := player], Opponent(player))
    {
      MinimaxBoundsChildScore(b, player, i);
    }
  }

  lemma MinimaxIsAChildScore(b: Board, player: Players)
    requires Winner(b) == NoWinner
    ensures exists i: Pos :: b[i] == Empty && Minimax(b, player) == Minimax(b[i := player], Opponent(player))
  {
    MinimaxOpen(b, player);
    EmptiesSpec(b);
    var positions := Empties(b);
    var moves := Scores(b, player, positions);
    var best := if player == X then ArgMax(moves) else ArgMin(moves);
    assert Minimax(b, player) == moves[best];
    ScoresAt(b, player, positions, best);
  }

  lemma MinimaxBoundsChildScore(b: Board, player: Players, i: Pos)
    requires Winner(b) == NoWinner
    requires b[i] == Empty
    ensures player == X ==> Minimax(b[i := player], Opponent(player)) <= Minimax(b, player)
    ensures player != X ==> Minimax(b, player) <= Minimax(b[i := player], Opponent(player))
  {
    MinimaxOpen(b, player);
    EmptiesSpec(b);
    var positions := Empties(b);
    assert i in positions;
    var k :| 0 <= k < |positions| && positions[k] == i;
    ScoresAt(b, player, positions, k);
  }

  /** With the empty mark as mover, an open board scores what it scores with X to move. */
  lemma MinimaxWithEmptyMover(b: Board)
    requires NoLine(b) && !IsFull(b)
    ensures Minimax(b, Empty) == Minimax(b, X)
  {
    MinimaxOfOpenBoard(b, Empty);
    var i: Pos :| b[i] == Empty && Minimax(b, Empty) == Minimax(b[i := Empty], X);
    assert b[i := Empty] == b;
  }

  /** The computer's cell: the first empty position, in key order, whose
      score after placing O there, with X to move, is the largest. */
  function AiChoice(b: Board): (pos: Pos)
    requires !IsFull(b)
    ensures b[pos] == Empty
  {
    EmptiesSpec(b);
    FullIffNoEmpties(b);
    var positions := Empties(b);
    positions[ArgMax(Scores(b, O, positions))]
  }

  /** No empty cell scores more than the computer's cell, and every
      empty cell before it in key order scores strictly less. */
  lemma AiChoiceIsFirstBest(b: Board)
    requires !IsFull(b)
    ensures forall i: Pos :: b[i] == Empty ==> Minimax(b[i := O], X) <= Minimax(b[AiChoice(b) := O], X)
    ensures forall i: Pos :: b[i] == Empty && i < AiChoice(b) ==> Minimax(b[i := O], X) < Minimax(b[AiChoice(b) := O], X)
  {
    forall i: Pos | b[i] == Empty
      ensures Minimax(b[i := O], X) <= Minimax(b[AiChoice(b) := O], X)
      ensures i < AiChoice(b) ==> Minimax(b[i := O], X) < Minimax(b[AiChoice(b) := O], X)
    {
      AiChoiceBeats(b, i);
      if i < AiChoice(b) {
        AiChoiceBeatsEarlier(b, i);
      }
    }
  }

  lemma AiChoiceBeats(b: Board, i: Pos)
    requires !IsFull(b) && b[i] == Empty
    ensures Minimax(b[i := O], X) <= Minimax(b[AiChoice(b) := O], X)
  {
    FullIffNoEmpties(b);
    EmptiesSpec(b);
    var positions := Empties(b);
    var moves := Scores(b, O, positions);
    var best := ArgMax(moves);
    assert AiChoice(b) == positions[best];
    ScoresAt(b, O, positions, best);
    assert i in positions;
    var k :| 0 <= k < |positions| && positions[k] == i;
    ScoresAt(b, O, positions, k);
  }

  lemma AiChoiceBeatsEarlier(b: Board, i: Pos)
    requires !IsFull(b) && b[i] == Empty && i < AiChoice(b)
    ensures Minimax(b[i := O], X) < Minimax(b[AiChoice(b) := O], X)
  {
    FullIffNoEmpties(b);
    EmptiesSpec(b);
    var positions := Empties(b);
    var moves := Scores(b, O, positions);
    var best := ArgMax(moves);
    assert AiChoice(b) == positions[best];
    ScoresAt(b, O, positions, best);
    assert i in positions;
    var k :| 0 <= k < |positions| && positions[k] == i;
    assert k < best;
    ScoresAt(b, O, positions, k);
  }
}
