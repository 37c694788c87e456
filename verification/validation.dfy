/** The validation engine: compares the player's board with the retained
    solution, cell by cell (`isSolved`) and block by block
    (`checkSubgridCompletion`). */
module Validation {
  import opened Grid
  import opened Rules

  /** Every cell is filled and equals the solution. */
  predicate Solved(board: Board, solution: Board)
    requires IsGrid(board) && IsGrid(solution)
  {
    forall r, c :: 0 <= r < 9 && 0 <= c < 9 ==> board[r][c] != 0 && board[r][c] == solution[r][c]
  }

  /** No cell of the block with corner (br, bc) is empty. */
  predicate BlockFull(board: Board, br: int, bc: int)
    requires IsGrid(board) && IsBlockCorner(br, bc)
  {
    forall r, c :: br <= r < br + 3 && bc <= c < bc + 3 ==> board[r][c] != 0
  }

  /** Every cell of the block with corner (br, bc) equals the solution. */
  predicate BlockMatches(board: Board, solution: Board, br: int, bc: int)
    requires IsGrid(board) && IsGrid(solution) && IsBlockCorner(br, bc)
  {
    forall r, c :: br <= r < br + 3 && bc <= c < bc + 3 ==> board[r][c] == solution[r][c]
  }

  /** The block is complete and correct: the condition for the block message. */
  predicate BlockSolved(board: Board, solution: Board, br: int, bc: int)
    requires IsGrid(board) && IsGrid(solution) && IsBlockCorner(br, bc)
  {
    BlockFull(board, br, bc) && BlockMatches(board, solution, br, bc)
  }

  /** `isSolved`: scans the board in row-major order and stops at the first cell
      that is empty or differs from the solution. */
  method IsSolved(board: Board, solution: Board) returns (ok: bool)
    requires IsGrid(board) && IsGrid(solution)
    ensures ok <==> Solved(board, solution)
  {
    var r := 0;
    while r < 9
      invariant 0 <= r <= 9
      invariant forall r', c :: 0 <= r' < r && 0 <= c < 9 ==>
        board[r'][c] != 0 && board[r'][c] == solution[r'][c]
    {
      var c := 0;
      while c < 9
        invariant 0 <= c <= 9
        invariant forall c' :: 0 <= c' < c ==> board[r][c'] != 0 && board[r][c'] == solution[r][c']
      {
        if board[r][c] == 0 || board[r][c] != solution[r][c] {
          return false;
        }
        c := c + 1;
      }
      r := r + 1;
    }
    return true;
  }

  /** One block of `checkSubgridCompletion`. The scan stops at the first empty
      cell, so `correct` speaks for the whole block only when `complete` holds;
      the message depends on the two together. */
  method CheckBlock(board: Board, solution: Board, startRow: int, startCol: int)
    returns (complete: bool, correct: bool)
    requires IsGrid(board) && IsGrid(solution) && IsBlockCorner(startRow, startCol)
    ensures complete <==> BlockFull(board, startRow, startCol)
    ensures complete ==> (correct <==> BlockMatches(board, solution, startRow, startCol))
    ensures complete && correct <==> BlockSolved(board, solution, startRow, startCol)
  {
    complete := true;
    correct := true;
    var r := 0;
    while r < 3
      invariant 0 <= r <= 3
      invariant complete
      invariant forall r', c :: startRow <= r' < startRow + r && startCol <= c < startCol + 3 ==> board[r'][c] != 0
      invariant correct <==> forall r', c :: startRow <= r' < startRow + r && startCol <= c < startCol + 3 ==>
        board[r'][c] == solution[r'][c]
    {
      var row := startRow + r;
      ghost var correctAbove := correct;
      var c := 0;
      while c < 3
        invariant 0 <= c <= 3
        invariant complete
        invariant forall c' :: startCol <= c' < startCol + c ==> board[row][c'] != 0
        invariant correct <==> correctAbove && forall c' :: startCol <= c' < startCol + c ==> board[row][c'] == solution[row][c']
      {
        var cellValue := board[row][startCol + c];
        if cellValue == 0 {
          complete := false;
          break;
        }
        if cellValue != solution[row][startCol + c] {
          correct := false;
        }
        c := c + 1;
      }
      if !complete {
        assert board[row][startCol + c] == 0;
        return;
      }
      r := r + 1;
    }
  }

  /** `checkSubgridCompletion`: checks all nine blocks and reports the corners of
      those that are complete and correct (the source shows one message for them). */
  method CheckSubgridCompletion(board: Board, solution: Board) returns (done: set<Cell>)
    requires IsGrid(board) && IsGrid(solution)
    ensures forall cell :: cell in done <==>
      IsBlockCorner(cell.row, cell.col) && BlockSolved(board, solution, cell.row, cell.col)
  {
    done := {};
    var startRow := 0;
    while startRow < 9
      invariant startRow in {0, 3, 6, 9}
      invariant forall cell :: cell in done <==>
        IsBlockCorner(cell.row, cell.col) && cell.row < startRow && BlockSolved(board, solution, cell.row, cell.col)
    {
      var startCol := 0;
      while startCol < 9
        invariant startCol in {0, 3, 6, 9}
        invariant forall cell :: cell in done <==>
          IsBlockCorner(cell.row, cell.col) &&
          (cell.row < startRow || (cell.row == startRow && cell.col < startCol)) &&
          BlockSolved(board, solution, cell.row, cell.col)
      {
        var complete, correct := CheckBlock(board, solution, startRow, startCol);
        if complete && correct {
          done := done + {Cell(startRow, startCol)};
        }
        startCol := startCol + 3;
      }
      startRow := startRow + 3;
    }
  }

  /** Against a full solution, "solved" means "equal to the solution". */
  lemma SolvedIffEqual(board: Board, solution: Board)
    requires IsGrid(board) && IsGrid(solution) && Full(solution)
    ensures Solved(board, solution) <==> board == solution
  {
    if Solved(board, solution) {
      forall r | 0 <= r < 9
        ensures board[r] == solution[r]
      {
      }
    }
  }

  /** While every filled cell agrees with a full solution, the board is solved
      exactly when no cell is empty: it is not solved before the last cell is filled. */
  lemma SolvedIffNoEmpties(board: Board, solution: Board)
    requires IsGrid(board) && IsGrid(solution) && Full(solution)
    requires Agrees(board, solution)
    ensures Solved(board, solution) <==> Empties(board) == {}
  {
    FullCount(board);
  }

  /** Filling an empty cell with its solution value keeps the agreement and
      leaves one empty cell fewer. */
  lemma FillOneCell(board: Board, solution: Board, r: int, c: int)
    requires IsGrid(board) && IsGrid(solution) && Full(solution)
    requires Agrees(board, solution) && ValidIndex(r) && ValidIndex(c) && board[r][c] == 0
    ensures Agrees(Set(board, r, c, solution[r][c]), solution)
    ensures |Empties(Set(board, r, c, solution[r][c]))| == |Empties(board)| - 1
  {
    PlaceShrinksEmpties(board, r, c, solution[r][c]);
  }

  /** A board equal to a full solution except for one wrong value is not solved,
      and writing the right value back solves it. */
  lemma OneWrongCell(solution: Board, r: int, c: int, v: int)
    requires IsGrid(solution) && Full(solution) && ValidIndex(r) && ValidIndex(c)
    requires v != solution[r][c]
    ensures !Solved(Set(solution, r, c, v), solution)
    ensures Solved(Set(Set(solution, r, c, v), r, c, solution[r][c]), solution)
  {
    SetUndo(solution, r, c, v);
  }

  /** The board is solved exactly when all nine blocks are complete and correct. */
  lemma SolvedIffAllBlocks(board: Board, solution: Board)
    requires IsGrid(board) && IsGrid(solution)
    ensures Solved(board, solution) <==>
      forall br, bc :: IsBlockCorner(br, bc) ==> BlockSolved(board, solution, br, bc)
  {
    if forall br, bc :: IsBlockCorner(br, bc) ==> BlockSolved(board, solution, br, bc) {
      forall r, c | 0 <= r < 9 && 0 <= c < 9
        ensures board[r][c] != 0 && board[r][c] == solution[r][c]
      {
        assert BlockSolved(board, solution, BlockStart(r), BlockStart(c));
      }
    }
  }
}
