/** The tic-tac-toe board: its cells, the fixed enumeration order of its nine
    positions, and the queries derived from its contents (the empty positions,
    fullness and the winner). */
module Board {

  /** What a cell holds, and the mark a player places. */
  datatype Players = X | O | Empty

  datatype Option<+T> = None | Some(value: T)

  /** A position is the index of its key in `Keys`. */
  type Pos = i: nat | i < 9

  /** One cell per key of `Keys`, in that order. */
  type Board = b: seq<Players> | |b| == 9
    witness [Empty, Empty, Empty, Empty, Empty, Empty, Empty, Empty, Empty]

  /** The board's keys, "column row", in the order the game's dictionary was
      filled; every enumeration of the board follows this order. */
  const Keys: seq<string> := ["22", "12", "02", "01", "11", "21", "00", "10", "20"]

  const EmptyBoard: Board := [Empty, Empty, Empty, Empty, Empty, Empty, Empty, Empty, Empty]

  /** The mark of the player who moves after `player`. */
  function Opponent(player: Players): (r: Players)
    ensures r != Empty && r != player
    ensures player == X <==> r == O
  {
    if player == X then O else X
  }

  /** The position named by `key`, or None when `key` is not one of the nine keys. */
  function KeyIndex(key: string): (r: Option<Pos>)
    ensures r.Some? ==> Keys[r.value] == key
    ensures r.None? <==> key !in Keys
  {
    FindKey(key, 0)
  }

  function FindKey(key: string, from: nat): (r: Option<Pos>)
    requires from <= 9
    ensures r.Some? ==> from <= r.value && Keys[r.value] == key
    ensures r.None? <==> forall i :: from <= i < 9 ==> Keys[i] != key
    decreases 9 - from
  {
    if from == 9 then None
    else if Keys[from] == key then Some(from)
    else FindKey(key, from + 1)
  }

  /** No two positions share a key, so a key names exactly one position. */
  lemma KeyIndexOf(i: Pos)
    ensures KeyIndex(Keys[i]) == Some(i)
  {
    assert forall j, k :: 0 <= j < k < 9 ==> Keys[j] != Keys[k] by {
      forall j, k | 0 <= j < k < 9 ensures Keys[j] != Keys[k] {
        assert Keys[j][0] != Keys[k][0] || Keys[j][1] != Keys[k][1];
      }
    }
  }

  /** The empty positions from `from` on, in key order. */
  function EmptiesFrom(b: Board, from: nat): seq<Pos>
    requires from <= 9
    decreases 9 - from
  {
    if from == 9 then []
    else if b[from] == Empty then [from] + EmptiesFrom(b, from + 1)
    else EmptiesFrom(b, from + 1)
  }

  /** The empty positions of the board. */
  function Empties(b: Board): seq<Pos> {
    EmptiesFrom(b, 0)
  }

  lemma {:induction false} EmptiesFromSpec(b: Board, from: nat)
    requires from <= 9
    ensures forall i: Pos :: i in EmptiesFrom(b, from) <==> from <= i && b[i] == Empty
    ensures forall j, k :: 0 <= j < k < |EmptiesFrom(b, from)| ==> EmptiesFrom(b, from)[j] < EmptiesFrom(b, from)[k]
    decreases 9 - from
  {
    if from < 9 {
      EmptiesFromSpec(b, from + 1);
      var rest := EmptiesFrom(b, from + 1);
      assert forall k :: 0 <= k < |rest| ==> rest[k] in rest;
    }
  }

  /** The empty positions are exactly the empty cells, each once, in key order. */
  lemma EmptiesSpec(b: Board)
    ensures forall i: Pos :: i in Empties(b) <==> b[i] == Empty
    ensures forall j, k :: 0 <= j < k < |Empties(b)| ==> Empties(b)[j] < Empties(b)[k]
  {
    EmptiesFromSpec(b, 0);
  }

  /** No cell is empty. */
  predicate IsFull(b: Board) {
    forall i: Pos :: b[i] != Empty
  }

  /** The board is full exactly when it has no empty position. */
  lemma FullIffNoEmpties(b: Board)
    ensures IsFull(b) <==> Empties(b) == []
  {
    EmptiesSpec(b);
    if !IsFull(b) {
      var i: Pos :| b[i] == Empty;
      assert i in Empties(b);
    }
  }

  /** Placing a mark on an empty cell leaves one empty position fewer, and
      "placing" the empty mark changes nothing. */
  lemma {:induction false} PlaceShrinks(b: Board, pos: Pos, mark: Players)
    requires b[pos] == Empty
    ensures mark != Empty ==> |Empties(b[pos := mark])| == |Empties(b)| - 1
    ensures mark == Empty ==> b[pos := mark] == b
  {
    if mark != Empty {
      PlaceShrinksFrom(b, pos, mark, 0);
    }
  }

  lemma {:induction false} PlaceShrinksFrom(b: Board, pos: Pos, mark: Players, from: nat)
    requires b[pos] == Empty && mark != Empty && from <= 9
    ensures |EmptiesFrom(b[pos := mark], from)| == |EmptiesFrom(b, from)| - (if from <= pos then 1 else 0)
    decreases 9 - from
  {
    if from < 9 {
      PlaceShrinksFrom(b, pos, mark, from + 1);
    }
  }

  /** The game's eight lines, by key: three columns, three rows, two diagonals. */
  const LineKeys: seq<seq<string>> := [
    ["00", "01", "02"], ["10", "11", "12"], ["20", "21", "22"],
    ["00", "10", "20"], ["01", "11", "21"], ["02", "12", "22"],
    ["00", "11", "22"], ["02", "11", "20"]
  ]

  /** The same eight lines, by position, in the same order. */
  const Lines: seq<seq<Pos>> := [
    [6, 3, 2], [7, 4, 1], [8, 5, 0],
    [6, 7, 8], [3, 4, 5], [2, 1, 0],
    [6, 4, 0], [2, 4, 8]
  ]

  /** Each position of `Lines` is the position of the matching key of `LineKeys`. */
  lemma LinesMatchKeys()
    ensures |Lines| == |LineKeys| == 8
    ensures forall k, j :: 0 <= k < 8 && 0 <= j < 3 ==>
      |Lines[k]| == |LineKeys[k]| == 3 && KeyIndex(LineKeys[k][j]) == Some(Lines[k][j])
  {
    forall k, j | 0 <= k < 8 && 0 <= j < 3
      ensures |Lines[k]| == |LineKeys[k]| == 3 && KeyIndex(LineKeys[k][j]) == Some(Lines[k][j])
    {
      assert Keys[Lines[k][j]] == LineKeys[k][j];
      KeyIndexOf(Lines[k][j]);
    }
  }

  /** Line `k` is filled with `mark`. */
  predicate Completes(b: Board, k: nat, mark: Players)
    requires k < 8
  {
    b[Lines[k][0]] == mark && b[Lines[k][1]] == mark && b[Lines[k][2]] == mark
  }

  /** Line `k` is won by one of the players. */
  predicate Complete(b: Board, k: nat)
    requires k < 8
  {
    Completes(b, k, X) || Completes(b, k, O)
  }

  /** Line `k` is the first won line in line order. */
  predicate FirstComplete(b: Board, k: nat)
  {
    k < 8 && Complete(b, k) && forall j :: 0 <= j < k ==> !Complete(b, j)
  }

  /** No line is won. */
  predicate NoLine(b: Board) {
    forall k :: 0 <= k < 8 ==> !Complete(b, k)
  }

  /** What the winner check reports: a player's mark, the full-board sentinel, or nothing. */
  datatype Outcome = XWon | OWon | Full | NoWinner

  /** Scans the lines from `k` on, X before O within each line, and
      reports the mark of the first won line. */
  function WinnerFrom(b: Board, k: nat): Outcome
    requires k <= 8
    decreases 8 - k
  {
    if k == 8 then (if IsFull(b) then Full else NoWinner)
    else if Completes(b, k, X) then XWon
    else if Completes(b, k, O) then OWon
    else WinnerFrom(b, k + 1)
  }

  function Winner(b: Board): Outcome {
    WinnerFrom(b, 0)
  }

  lemma {:induction false} WinnerFromSpec(b: Board, k: nat)
    requires k <= 8
    requires forall j :: 0 <= j < k ==> !Complete(b, j)
    ensures WinnerFrom(b, k) == XWon <==> exists i :: FirstComplete(b, i) && Completes(b, i, X)
    ensures WinnerFrom(b, k) == OWon <==> exists i :: FirstComplete(b, i) && Completes(b, i, O)
    ensures WinnerFrom(b, k) == Full <==> NoLine(b) && IsFull(b)
    ensures WinnerFrom(b, k) == NoWinner <==> NoLine(b) && !IsFull(b)
    decreases 8 - k
  {
    if k == 8 {
    } else if Complete(b, k) {
      assert FirstComplete(b, k);
    } else {
      WinnerFromSpec(b, k + 1);
    }
  }

  /** The winner check reports the mark of the first won line in line order,
      the full-board sentinel when no line is won and the board is full, and
      nothing otherwise. */
  lemma WinnerSpec(b: Board)
    ensures Winner(b) == XWon <==> exists k :: FirstComplete(b, k) && Completes(b, k, X)
    ensures Winner(b) == OWon <==> exists k :: FirstComplete(b, k) && Completes(b, k, O)
    ensures Winner(b) == Full <==> NoLine(b) && IsFull(b)
    ensures Winner(b) == NoWinner <==> NoLine(b) && !IsFull(b)
  {
    WinnerFromSpec(b, 0);
  }

  /** A board with a line of one mark and no line of the other is won by that mark. */
  lemma WinnerOfOneSidedBoard(b: Board, mark: Players)
    requires mark != Empty
    requires exists k :: 0 <= k < 8 && Completes(b, k, mark)
    requires forall k :: 0 <= k < 8 ==> !Completes(b, k, Opponent(mark))
    ensures Winner(b) == (if mark == X then XWon else OWon)
  {
    WinnerSpec(b);
    var k :| 0 <= k < 8 && Completes(b, k, mark);
    var first := FirstOf(b, k);
    assert Completes(b, first, mark) by {
      assert !Completes(b, first, Opponent(mark));
    }
  }

  /** The first won line, given that line `k` is won. */
  lemma {:induction false} FirstOf(b: Board, k: nat) returns (first: nat)
    requires k < 8 && Complete(b, k)
    ensures first <= k && FirstComplete(b, first)
    decreases k
  {
    if exists j :: 0 <= j < k && Complete(b, j) {
      var j :| 0 <= j < k && Complete(b, j);
      first := FirstOf(b, j);
    } else {
      first := k;
    }
  }
}
