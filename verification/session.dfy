/** One game: the player's board, the retained solution, the fixed clues and the
    selected cell, with the operations the page's event handlers perform on them
    (new game, cell selection with related-cell highlighting, number entry). */
module Session {
  import opened Grid
  import opened Rules
  import opened Generator
  import opened Carver
  import opened Validation

  datatype Option<T> = None | Some(value: T)

  /** What the message area shows after a number button is pressed. */
  datatype Feedback =
    | Ignored          // no cell selected, or the selected cell is a clue
    | Incorrect        // "wrong number": the value stays on the board
    | Cleared          // right value, nothing completed
    | SubgridComplete  // right value and some block is complete and correct
    | PuzzleSolved     // right value and the whole board equals the solution

  /** The selected cell element: its position, and whether it was rendered as a
      clue (its `fixed` class) when its board was drawn. */
  datatype Selection = Selection(cell: Cell, isFixed: bool)

  datatype Game = Game(board: Board, solution: Board, fixed: set<Cell>, selected: Option<Selection>)

  predicate WellFormed(g: Game) {
    IsGrid(g.board) && IsGrid(g.solution) &&
    (g.selected.Some? ==> ValidCell(g.selected.value.cell))
  }

  /** The selected element, if any, was drawn for this game: its clue flag says
      whether its cell is one of this game's clues. */
  predicate SelectionMatches(g: Game) {
    g.selected.Some? ==> (g.selected.value.isFixed <==> g.selected.value.cell in g.fixed)
  }

  /** The game invariant: the solution is full, every clue sits on the board with
      the solution's value, and the selection belongs to this game. */
  predicate Consistent(g: Game) {
    WellFormed(g) && Full(g.solution) &&
    (forall cell :: cell in g.fixed ==>
      ValidCell(cell) && g.board[cell.row][cell.col] != 0 &&
      g.board[cell.row][cell.col] == g.solution[cell.row][cell.col]) &&
    SelectionMatches(g)
  }

  /** A number button writes only when an element is selected and it is not a clue. */
  predicate Editable(g: Game) {
    g.selected.Some? && !g.selected.value.isFixed
  }

  /** The board change of a number entry: the digit goes into the selected cell
      when it is editable; nothing else changes. In a consistent game no clue is
      ever written. */
  function Entered(g: Game, num: int): (g': Game)
    requires WellFormed(g)
    ensures WellFormed(g')
    ensures g'.solution == g.solution && g'.fixed == g.fixed && g'.selected == g.selected
    ensures !Editable(g) ==> g'.board == g.board
    ensures Editable(g) ==> g'.board[g.selected.value.cell.row][g.selected.value.cell.col] == num
    ensures forall r, c :: 0 <= r < 9 && 0 <= c < 9 && (!Editable(g) || Cell(r, c) != g.selected.value.cell) ==>
      g'.board[r][c] == g.board[r][c]
    ensures Consistent(g) ==> Consistent(g')
    ensures SelectionMatches(g) ==> forall cell :: cell in g.fixed && ValidCell(cell) ==>
      g'.board[cell.row][cell.col] == g.board[cell.row][cell.col]
  {
    if Editable(g) then
      g.(board := Set(g.board, g.selected.value.cell.row, g.selected.value.cell.col, num))
    else
      g
  }

  /** The selection change of a click: the clicked cell's element becomes the
      selection, carrying this game's clue flag for it. */
  function Selected(g: Game, cell: Cell): (g': Game)
    requires WellFormed(g) && ValidCell(cell)
    ensures WellFormed(g') && SelectionMatches(g')
    ensures g'.board == g.board && g'.solution == g.solution && g'.fixed == g.fixed
    ensures g'.selected.Some? && g'.selected.value.cell == cell
  {
    g.(selected := Some(Selection(cell, cell in g.fixed)))
  }

  /** A player action: a click on a cell, or a press of a number button. */
  datatype Action = Pick(cell: Cell) | Press(num: int)

  predicate ValidActions(actions: seq<Action>) {
    forall i :: 0 <= i < |actions| && actions[i].Pick? ==> ValidCell(actions[i].cell)
  }

  /** The board after a run of clicks and number presses. Once the selection
      belongs to the game, no action changes a clue. */
  function Play(g: Game, actions: seq<Action>): (g': Game)
    requires WellFormed(g) && ValidActions(actions)
    ensures WellFormed(g') && g'.solution == g.solution && g'.fixed == g.fixed
    ensures SelectionMatches(g) ==> SelectionMatches(g')
    ensures SelectionMatches(g) ==> forall cell :: cell in g.fixed && ValidCell(cell) ==>
      g'.board[cell.row][cell.col] == g.board[cell.row][cell.col]
    decreases |actions|
  {
    if actions == [] then g
    else
      var next := match actions[0]
        case Pick(cell) => Selected(g, cell)
        case Press(num) => Entered(g, num);
      Play(next, actions[1..])
  }

  /** `createBoard` as intended: generate a solution, carve it, mark the cells
      still non-zero as fixed (as `renderBoard` does) and start with no selection.
      When the search does not fill the grid the source's removal loop never ends;
      the model reports None. */
  method NewGame(difficulty: string, rng: Rng, k: nat) returns (g: Option<Game>, k': nat)
    requires ValidRng(rng)
    ensures g.Some? ==> Consistent(g.value) && g.value.selected.None?
    ensures g.Some? ==> IsSolution(g.value.solution)
    ensures g.Some? ==> g.value.fixed == NonZeros(g.value.board)
    ensures g.Some? ==> |g.value.fixed| == 81 - CellsToRemove(difficulty)
    ensures g.Some? ==> |Empties(g.value.board)| == CellsToRemove(difficulty)
    ensures g.Some? ==> Restore(g.value.board, g.value.solution) == g.value.solution
  {
    var solution;
    solution, k' := GenerateSolved(rng, k);
    if !Full(solution) {
      return None, k';
    }
    FullCount(solution);
    var board := Carve(solution, difficulty);
    g := Some(Game(board, solution, NonZeros(board), None));
  }

  /** `createBoard` as written: the new board is drawn, but `selectedCell` still
      refers to the element selected in the previous game, with that game's clue
      flag. Consistency survives only when that flag happens to match the new game. */
  method NewGameKeepingSelection(selection: Option<Selection>, difficulty: string, rng: Rng, k: nat)
    returns (g: Option<Game>, k': nat)
    requires ValidRng(rng)
    requires selection.Some? ==> ValidCell(selection.value.cell)
    ensures g.Some? ==> WellFormed(g.value) && g.value.selected == selection
    ensures g.Some? ==> Full(g.value.solution) && IsSolution(g.value.solution)
    ensures g.Some? ==> g.value.fixed == NonZeros(g.value.board)
    ensures g.Some? ==> |g.value.fixed| == 81 - CellsToRemove(difficulty)
    ensures g.Some? ==> Restore(g.value.board, g.value.solution) == g.value.solution
    ensures g.Some? ==> forall cell :: cell in g.value.fixed ==>
      ValidCell(cell) && g.value.board[cell.row][cell.col] == g.value.solution[cell.row][cell.col]
    ensures g.Some? ==> (Consistent(g.value) <==>
      (selection.Some? ==> (selection.value.isFixed <==> selection.value.cell in g.value.fixed)))
  {
    var started;
    started, k' := NewGame(difficulty, rng, k);
    if started.None? {
      return None, k';
    }
    g := Some(started.value.(selected := selection));
  }

  /** With the previous game's element still selected, a cell that is a clue in
      the new game but was editable in the old one accepts a wrong digit: the clue
      is overwritten and the board is not solved. */
  lemma StaleSelectionOverwritesClue(g: Game, cell: Cell, num: int)
    requires WellFormed(g) && Full(g.solution) && ValidCell(cell) && cell in g.fixed
    requires g.board[cell.row][cell.col] == g.solution[cell.row][cell.col]
    requires g.selected == Some(Selection(cell, false))
    requires num != g.solution[cell.row][cell.col]
    ensures Entered(g, num).board[cell.row][cell.col] == num
    ensures !Consistent(Entered(g, num))
    ensures !Solved(Entered(g, num).board, g.solution)
  {
  }

  /** The overwritten clue becomes permanent as soon as the player clicks any cell:
      from then on no run of clicks and number presses changes it, so the board is
      never solved again. */
  lemma StaleOverwriteIsPermanent(g: Game, cell: Cell, num: int, click: Cell, actions: seq<Action>)
    requires WellFormed(g) && Full(g.solution) && ValidCell(cell) && cell in g.fixed
    requires g.board[cell.row][cell.col] == g.solution[cell.row][cell.col]
    requires g.selected == Some(Selection(cell, false))
    requires num != g.solution[cell.row][cell.col]
    requires ValidCell(click) && ValidActions(actions)
    ensures Play(Selected(Entered(g, num), click), actions).board[cell.row][cell.col] == num
    ensures !Solved(Play(Selected(Entered(g, num), click), actions).board, g.solution)
  {
    StaleSelectionOverwritesClue(g, cell, num);
    var after := Play(Selected(Entered(g, num), click), actions);
    assert after.board[cell.row][cell.col] != g.solution[cell.row][cell.col];
  }

  /** `selectCell` with `highlightRelatedCells`: any cell may be selected, but only
      a cell that is not a clue gets its row, column and block highlighted. */
  method SelectCell(g: Game, cell: Cell) returns (g': Game, highlighted: set<Cell>)
    requires WellFormed(g) && ValidCell(cell)
    ensures WellFormed(g')
    ensures g'.selected == Some(Selection(cell, cell in g.fixed))
    ensures g'.board == g.board && g'.solution == g.solution && g'.fixed == g.fixed
    ensures Consistent(g) ==> Consistent(g')
    ensures cell in g.fixed ==> highlighted == {}
    ensures cell !in g.fixed ==> forall other :: other in highlighted <==>
      ValidCell(other) && Related(cell.row, cell.col, other.row, other.col)
  {
    g' := Selected(g, cell);
    highlighted := {};
    if cell !in g.fixed {
      highlighted := RelatedCells(cell.row, cell.col);
    }
  }

  /** The scan of `highlightRelatedCells`: every cell sharing the row, the column
      or the block of (row, col). */
  method RelatedCells(row: int, col: int) returns (related: set<Cell>)
    requires ValidIndex(row) && ValidIndex(col)
    ensures forall other :: other in related <==>
      ValidCell(other) && Related(row, col, other.row, other.col)
  {
    var startRow := BlockStart(row);
    var startCol := BlockStart(col);
    related := {};
    var r := 0;
    while r < 9
      invariant 0 <= r <= 9
      invariant forall other :: other in related <==>
        ValidCell(other) && other.row < r && Related(row, col, other.row, other.col)
    {
      var c := 0;
      while c < 9
        invariant 0 <= c <= 9
        invariant forall other :: other in related <==>
          ValidCell(other) && (other.row < r || (other.row == r && other.col < c)) &&
          Related(row, col, other.row, other.col)
      {
        if r == row || c == col || (BlockStart(r) == startRow && BlockStart(c) == startCol) {
          related := related + {Cell(r, c)};
        }
        c := c + 1;
      }
      r := r + 1;
    }
  }

  /** The number-button handler: on an editable cell it writes `num`, flags it
      when it differs from the solution (without undoing it), and otherwise
      reports a solved board or a completed block. */
  method EnterNumber(g: Game, num: int) returns (g': Game, fb: Feedback)
    requires WellFormed(g)
    ensures g' == Entered(g, num)
    ensures !Editable(g) ==> g' == g
    ensures fb == Ignored <==> !Editable(g)
    ensures fb == Incorrect <==>
      Editable(g) && num != g.solution[g.selected.value.cell.row][g.selected.value.cell.col]
    ensures fb == PuzzleSolved <==>
      Editable(g) && num == g.solution[g.selected.value.cell.row][g.selected.value.cell.col] &&
      Solved(g'.board, g.solution)
    ensures fb == SubgridComplete <==>
      Editable(g) && num == g.solution[g.selected.value.cell.row][g.selected.value.cell.col] &&
      !Solved(g'.board, g.solution) &&
      exists br, bc :: IsBlockCorner(br, bc) && BlockSolved(g'.board, g.solution, br, bc)
    ensures fb == Cleared <==>
      Editable(g) && num == g.solution[g.selected.value.cell.row][g.selected.value.cell.col] &&
      !Solved(g'.board, g.solution) &&
      !exists br, bc :: IsBlockCorner(br, bc) && BlockSolved(g'.board, g.solution, br, bc)
    ensures Consistent(g) ==> Consistent(g')
  {
    g' := Entered(g, num);
    if !Editable(g) {
      return g', Ignored;
    }
    var cell := g.selected.value.cell;
    if num != g.solution[cell.row][cell.col] {
      return g', Incorrect;
    }
    var solved := IsSolved(g'.board, g'.solution);
    if solved {
      return g', PuzzleSolved;
    }
    var done := CheckSubgridCompletion(g'.board, g'.solution);
    if done != {} {
      ghost var corner :| corner in done;
      assert BlockSolved(g'.board, g.solution, corner.row, corner.col);
      fb := SubgridComplete;
    } else {
      forall br, bc | IsBlockCorner(br, bc)
        ensures !BlockSolved(g'.board, g.solution, br, bc)
      {
        assert Cell(br, bc) !in done;
      }
      fb := Cleared;
    }
  }
}
