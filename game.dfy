/** The game object: a board changed in place by the human's move, the
    computer's reply and the hypothetical placements of the search, which
    are undone before each search returns. */
module Game {
  import opened Board
  import Search

  /** Why a human move is refused: the key is not one of the nine keys, or
      its cell is taken. */
  datatype PlayError = InvalidPosition | Occupied

  datatype Result<+T> = Ok(value: T) | Err(error: PlayError)

  /** What a call of `Play` reports: the move was made, or it was refused. */
  datatype Status = Accepted | Rejected(error: PlayError)

  /** The board after the human plays `key` on `b`: X on that cell and, if
      the board is not then full, O on the computer's cell, with no winner
      check in between. */
  function PlayResult(b: Board, key: string): Result<Board> {
    match KeyIndex(key)
    case None => Err(InvalidPosition)
    case Some(i) =>
      if b[i] != Empty then Err(Occupied)
      else
        var afterHuman := b[i := X];
        if IsFull(afterHuman) then Ok(afterHuman)
        else Ok(afterHuman[Search.AiChoice(afterHuman) := O])
  }

  /** A move is refused as invalid exactly when its key is not one of the
      nine keys, and as occupied exactly when its key names a taken cell. */
  lemma PlayRejects(b: Board, key: string)
    ensures PlayResult(b, key) == Err(InvalidPosition) <==> key !in Keys
    ensures PlayResult(b, key) == Err(Occupied) <==> exists i: Pos :: Keys[i] == key && b[i] != Empty
  {
    if i: Pos :| Keys[i] == key {
      KeyIndexOf(i);
    }
  }

  /** A move on an empty cell is accepted. It puts X on that cell; if the
      board is not then full, O goes on one other cell that was empty, the
      computer's choice; no other cell changes. */
  lemma PlayAccepts(b: Board, i: Pos)
    requires b[i] == Empty
    ensures PlayResult(b, Keys[i]).Ok?
    ensures PlayResult(b, Keys[i]).value[i] == X
    ensures IsFull(b[i := X]) ==>
      forall m: Pos :: m != i ==> PlayResult(b, Keys[i]).value[m] == b[m]
    ensures !IsFull(b[i := X]) ==>
      var j := Search.AiChoice(b[i := X]);
      j != i && b[j] == Empty && PlayResult(b, Keys[i]).value[j] == O &&
      forall m: Pos :: m != i && m != j ==> PlayResult(b, Keys[i]).value[m] == b[m]
  {
    KeyIndexOf(i);
  }

  /** The number of cells holding `mark`. */
  function Count(b: seq<Players>, mark: Players): nat {
    multiset(b)[mark]
  }

  /** Starting from a board where both players have placed the same number
      of marks, an accepted move keeps the numbers equal, except when the
      human's mark fills the board, which leaves X one ahead. */
  lemma PlayKeepsTurns(b: Board, key: string)
    requires Count(b, X) == Count(b, O)
    requires PlayResult(b, key).Ok?
    ensures KeyIndex(key).Some?
    ensures IsFull(b[KeyIndex(key).value := X]) ==>
      Count(PlayResult(b, key).value, X) == Count(PlayResult(b, key).value, O) + 1
    ensures !IsFull(b[KeyIndex(key).value := X]) ==>
      Count(PlayResult(b, key).value, X) == Count(PlayResult(b, key).value, O)
  {
    var i := KeyIndex(key).value;
    var afterHuman := b[i := X];
    assert multiset(afterHuman) == multiset(b) - multiset{Empty} + multiset{X};
    if !IsFull(afterHuman) {
      var j := Search.AiChoice(afterHuman);
      assert multiset(afterHuman[j := O]) == multiset(afterHuman) - multiset{Empty} + multiset{O};
    }
  }

  class AITicTacToeGame {
    /** The nine cells, indexed by position. */
    var board: array<Players>

    ghost predicate Valid()
      reads this
    {
      board.Length == 9
    }

    /** The board's contents. */
    function Cells(): Board
      reads this, board
      requires Valid()
    {
      board[..]
    }

    /** A new game starts with every cell empty. */
    constructor ()
      ensures Valid() && fresh(board)
      ensures Cells() == EmptyBoard
    {
      board := new Players[9](_ => Empty);
    }

    /** The search: scores the board for `player` by trying each empty cell
      in key order, recursing with the opponent and resetting the cell, and
      leaves the board as it found it. */
    method Minimax(player: Players) returns (score: int)
      requires Valid()
      modifies board
      ensures Cells() == old(Cells())
      ensures score == Search.Minimax(old(Cells()), player)
      decreases |Empties(Cells())|, if player == Empty then 1 else 0
    {
      var start := board[..];
      var winner := Winner(start);
      if winner == XWon {
        return -1;
      } else if winner == OWon {
        return 1;
      } else if IsFull(start) {
        return 0;
      }
      EmptiesSpec(start);
      var positions := Empties(start);
      var moves: seq<int> := [];
      var i := 0;
      while i < |positions|
        invariant 0 <= i <= |positions|
        invariant board[..] == start
        invariant moves == Search.Scores(start, player, positions[..i])
      {
        var pos := positions[i];
        board[pos] := player;
        PlaceShrinks(start, pos, player);
        assert board[..] == start[pos := player];
        var s := Minimax(Opponent(player));
        Search.ScoresSnoc(start, player, positions, i);
        moves := moves + [s];
        board[pos] := Empty;
        assert board[..] == start;
        i := i + 1;
      }
      assert positions[..i] == positions;
      Search.MinimaxOpen(start, player);
      if player == X {
        score := moves[Search.ArgMax(moves)];
      } else {
        score := moves[Search.ArgMin(moves)];
      }
    }

    /** The computer's move: scores placing O on each empty cell, resetting
      each, and returns the first cell with the largest score; the board is
      left as it was found. */
    method AiMove() returns (pos: Pos)
      requires Valid() && !IsFull(Cells())
      modifies board
      ensures Cells() == old(Cells())
      ensures pos == Search.AiChoice(old(Cells()))
    {
      var start := board[..];
      EmptiesSpec(start);
      FullIffNoEmpties(start);
      var positions := Empties(start);
      var moves: seq<int> := [];
      var i := 0;
      while i < |positions|
        invariant 0 <= i <= |positions|
        invariant board[..] == start
        invariant moves == Search.Scores(start, O, positions[..i])
      {
        var p := positions[i];
        board[p] := O;
        assert board[..] == start[p := O];
        var s := Minimax(X);
        Search.ScoresSnoc(start, O, positions, i);
        moves := moves + [s];
        board[p] := Empty;
        assert board[..] == start;
        i := i + 1;
      }
      assert positions[..i] == positions;
      pos := positions[Search.ArgMax(moves)];
    }

    /** The human plays `key`: refused, with the board untouched, when the
      key is not one of the nine or its cell is taken; otherwise X goes
      there and, unless the board is then full, the computer's O follows. */
    method Play(key: string) returns (status: Status)
      requires Valid()
      modifies board
      ensures match PlayResult(old(Cells()), key)
        case Ok(after) => status == Accepted && Cells() == after
        case Err(e) => status == Rejected(e) && Cells() == old(Cells())
    {
      var index := KeyIndex(key);
      if index.None? {
        return Rejected(InvalidPosition);
      }
      var i := index.value;
      if board[i] != Empty {
        return Rejected(Occupied);
      }
      board[i] := X;
      if !IsFull(board[..]) {
        var reply := AiMove();
        board[reply] := O;
      }
      return Accepted;
    }
  }
}
