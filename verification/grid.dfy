/** The 9×9 Sudoku grid shared by the generator, the carver and the validation
    engine. A cell holds 0 when it is empty and a digit 1..9 otherwise; rows and
    columns are numbered 0..8. */
module Grid {

  type Board = seq<seq<int>>

  /** A cell position (row, col). */
  datatype Cell = Cell(row: int, col: int)

  predicate ValidIndex(i: int) {
    0 <= i < 9
  }

  predicate ValidCell(cell: Cell) {
    ValidIndex(cell.row) && ValidIndex(cell.col)
  }

  /** The board has the 9×9 shape every operation relies on. */
  predicate IsGrid(b: Board) {
    |b| == 9 && forall r :: 0 <= r < |b| ==> |b[r]| == 9
  }

  /** Every cell holds 0 (empty) or a digit. */
  predicate InRange(b: Board)
    requires IsGrid(b)
  {
    forall r, c :: 0 <= r < 9 && 0 <= c < 9 ==> 0 <= b[r][c] <= 9
  }

  /** No cell is empty. */
  predicate Full(b: Board)
    requires IsGrid(b)
  {
    forall r, c :: 0 <= r < 9 && 0 <= c < 9 ==> b[r][c] != 0
  }

  /** Every non-zero cell of `b` holds the value `solution` has there. */
  predicate Agrees(b: Board, solution: Board)
    requires IsGrid(b) && IsGrid(solution)
  {
    forall r, c :: 0 <= r < 9 && 0 <= c < 9 && b[r][c] != 0 ==> b[r][c] == solution[r][c]
  }

  /** `b'` keeps every non-zero cell of `b`. */
  predicate Extends(b: Board, b': Board)
    requires IsGrid(b) && IsGrid(b')
  {
    forall r, c :: 0 <= r < 9 && 0 <= c < 9 && b[r][c] != 0 ==> b'[r][c] == b[r][c]
  }

  /** The board `board[row][col] = v` leaves behind. */
  function Set(b: Board, row: int, col: int, v: int): (b': Board)
    requires IsGrid(b) && ValidIndex(row) && ValidIndex(col)
    ensures IsGrid(b')
    ensures b'[row][col] == v
    ensures forall r, c :: 0 <= r < 9 && 0 <= c < 9 && (r != row || c != col) ==> b'[r][c] == b[r][c]
  {
    b[row := b[row][col := v]]
  }

  /** The all-zero grid the generator starts from. */
  function EmptyBoard(): (b: Board)
    ensures IsGrid(b)
    ensures forall r, c :: 0 <= r < 9 && 0 <= c < 9 ==> b[r][c] == 0
  {
    seq(9, _ => seq(9, _ => 0))
  }

  function AllCells(): set<Cell> {
    set r, c | 0 <= r < 9 && 0 <= c < 9 :: Cell(r, c)
  }

  /** The empty cells of `b`. */
  function Empties(b: Board): set<Cell>
    requires IsGrid(b)
  {
    set r, c | 0 <= r < 9 && 0 <= c < 9 && b[r][c] == 0 :: Cell(r, c)
  }

  /** The non-zero cells of `b`; after carving these are the fixed clues. */
  function NonZeros(b: Board): set<Cell>
    requires IsGrid(b)
  {
    set r, c | 0 <= r < 9 && 0 <= c < 9 && b[r][c] != 0 :: Cell(r, c)
  }

  /** The first `k` cells in row-major order. */
  function CellsBelow(k: nat): set<Cell> {
    set i | 0 <= i < k :: Cell(i / 9, i % 9)
  }

  lemma {:induction false} CellsBelowCount(k: nat)
    ensures |CellsBelow(k)| == k
  {
    if k > 0 {
      CellsBelowCount(k - 1);
      var last := Cell((k - 1) / 9, (k - 1) % 9);
      assert CellsBelow(k) == CellsBelow(k - 1) + {last};
    }
  }

  /** The grid has 81 cells. */
  lemma AllCellsCount()
    ensures |AllCells()| == 81
  {
    assert AllCells() == CellsBelow(81) by {
      forall cell | cell in AllCells()
        ensures cell in CellsBelow(81)
      {
        var i := 9 * cell.row + cell.col;
        assert i / 9 == cell.row && i % 9 == cell.col;
      }
    }
    CellsBelowCount(81);
  }

  /** Every cell is either empty or non-zero, so the two sets split the 81 cells. */
  lemma PartitionCount(b: Board)
    requires IsGrid(b)
    ensures Empties(b) * NonZeros(b) == {}
    ensures |Empties(b)| + |NonZeros(b)| == 81
  {
    assert Empties(b) + NonZeros(b) == AllCells();
    AllCellsCount();
  }

  /** A full board has no empty cell and all 81 cells non-zero. */
  lemma FullCount(b: Board)
    requires IsGrid(b)
    ensures Full(b) <==> Empties(b) == {}
    ensures Full(b) ==> |NonZeros(b)| == 81
  {
    if !Full(b) {
      var r, c :| 0 <= r < 9 && 0 <= c < 9 && b[r][c] == 0;
      assert Cell(r, c) in Empties(b);
    }
    PartitionCount(b);
  }

  /** Writing a digit into an empty cell removes exactly that cell from the empties. */
  lemma PlaceShrinksEmpties(b: Board, row: int, col: int, v: int)
    requires IsGrid(b) && ValidIndex(row) && ValidIndex(col)
    requires b[row][col] == 0 && v != 0
    ensures Cell(row, col) in Empties(b)
    ensures Empties(Set(b, row, col, v)) == Empties(b) - {Cell(row, col)}
  {
  }

  /** Zeroing a non-zero cell moves exactly that cell from the non-zeros to the empties. */
  lemma ClearMovesCell(b: Board, row: int, col: int)
    requires IsGrid(b) && ValidIndex(row) && ValidIndex(col)
    requires b[row][col] != 0
    ensures Cell(row, col) in NonZeros(b)
    ensures NonZeros(Set(b, row, col, 0)) == NonZeros(b) - {Cell(row, col)}
    ensures Empties(Set(b, row, col, 0)) == Empties(b) + {Cell(row, col)}
  {
  }

  /** Writing a cell and then writing its old value back gives the board back. */
  lemma SetUndo(b: Board, row: int, col: int, v: int)
    requires IsGrid(b) && ValidIndex(row) && ValidIndex(col)
    ensures Set(Set(b, row, col, v), row, col, b[row][col]) == b
  {
    var b' := Set(Set(b, row, col, v), row, col, b[row][col]);
    forall r | 0 <= r < 9
      ensures b'[r] == b[r]
    {
    }
  }
}
