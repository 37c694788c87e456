/** The carver of `createBoard`: clones the solved grid and zeroes as many
    distinct non-zero cells as the difficulty asks for. The cells still non-zero
    afterwards are the puzzle's fixed clues. */
module Carver {
  import opened Grid

  /** The difficulty switch: how many cells to zero. */
  function CellsToRemove(difficulty: string): (n: nat)
    ensures 35 <= n <= 55
  {
    match difficulty
    case "easy" => 35
    case "medium" => 45
    case "hard" => 55
    case _ => 40
  }

  /** The removal table: harder levels zero more cells, so fewer clues remain
      (46, 36 and 26 of 81); an unrecognised level removes 40. */
  lemma RemovalTable(other: string)
    requires other !in {"easy", "medium", "hard"}
    ensures CellsToRemove("easy") == 35 && 81 - CellsToRemove("easy") == 46
    ensures CellsToRemove("medium") == 45 && 81 - CellsToRemove("medium") == 36
    ensures CellsToRemove("hard") == 55 && 81 - CellsToRemove("hard") == 26
    ensures CellsToRemove(other) == 40
    ensures CellsToRemove("easy") < CellsToRemove("medium") < CellsToRemove("hard")
  {
  }

  /** The removal loop: each round zeroes one cell that is still non-zero. The
      source draws random cells until it hits a non-zero one; here any non-zero
      cell may be chosen. */
  method RemoveCells(solution: Board, count: nat) returns (board: Board)
    requires IsGrid(solution)
    requires count <= |NonZeros(solution)|
    ensures IsGrid(board)
    ensures NonZeros(board) <= NonZeros(solution)
    ensures |NonZeros(board)| == |NonZeros(solution)| - count
    ensures Agrees(board, solution)
  {
    board := solution;
    var i := 0;
    while i < count
      invariant 0 <= i <= count
      invariant IsGrid(board)
      invariant NonZeros(board) <= NonZeros(solution)
      invariant |NonZeros(board)| == |NonZeros(solution)| - i
      invariant Agrees(board, solution)
    {
      var cell :| cell in NonZeros(board);
      ClearMovesCell(board, cell.row, cell.col);
      board := Set(board, cell.row, cell.col, 0);
      i := i + 1;
    }
  }

  /** Fills every empty cell of `board` from `solution`. */
  function Restore(board: Board, solution: Board): (b: Board)
    requires IsGrid(board) && IsGrid(solution)
    ensures IsGrid(b)
    ensures forall r, c :: 0 <= r < 9 && 0 <= c < 9 ==>
      b[r][c] == (if board[r][c] == 0 then solution[r][c] else board[r][c])
  {
    seq(9, r requires 0 <= r < 9 => seq(9, c requires 0 <= c < 9 =>
      if board[r][c] == 0 then solution[r][c] else board[r][c]))
  }

  /** Filling the zeros of a board that agrees with the solution restores the solution. */
  lemma RestoreRoundTrip(board: Board, solution: Board)
    requires IsGrid(board) && IsGrid(solution)
    ensures Restore(board, solution) == solution <==> Agrees(board, solution)
  {
    var b := Restore(board, solution);
    if Agrees(board, solution) {
      forall r | 0 <= r < 9
        ensures b[r] == solution[r]
      {
      }
    } else {
      var r, c :| 0 <= r < 9 && 0 <= c < 9 && board[r][c] != 0 && board[r][c] != solution[r][c];
      assert b[r][c] != solution[r][c];
    }
  }

  /** `createBoard`'s carving step: clone the solution, zero `CellsToRemove(difficulty)`
      cells. From a full solution exactly that many cells end up empty, every clue
      equals the solution, and filling the zeros from the solution gives it back. */
  method Carve(solution: Board, difficulty: string) returns (board: Board)
    requires IsGrid(solution)
    requires CellsToRemove(difficulty) <= |NonZeros(solution)|
    ensures IsGrid(board)
    ensures Agrees(board, solution)
    ensures Restore(board, solution) == solution
    ensures NonZeros(board) <= NonZeros(solution)
    ensures |NonZeros(board)| == |NonZeros(solution)| - CellsToRemove(difficulty)
    ensures Full(solution) ==> |Empties(board)| == CellsToRemove(difficulty)
    ensures Full(solution) ==> |NonZeros(board)| == 81 - CellsToRemove(difficulty)
  {
    board := RemoveCells(solution, CellsToRemove(difficulty));
    RestoreRoundTrip(board, solution);
    FullCount(solution);
    PartitionCount(board);
  }
}
