/** The generator: a randomized depth-first backtracking search that fills an
    empty grid cell by cell in row-major order, trying the digits of each cell in
    a shuffled order and undoing a placement when the search below it fails.

    `Math.random()` is an oracle `rng` read at a cursor `k`: the i-th draw is
    `rng(k + i)`, always in [0, 1). Each operation returns the cursor it leaves. */
module Generator {
  import opened Grid
  import opened Rules

  type Rng = nat -> real

  ghost predicate ValidRng(rng: Rng) {
    forall k: nat :: 0.0 <= rng(k) < 1.0
  }

  /** A draw in [0, 1) scaled by `i + 1` stays in [0, i + 1). */
  lemma {:induction false} ScaledDrawBelow(x: real, i: nat)
    requires 0.0 <= x < 1.0
    ensures 0.0 <= x * (i + 1) as real < (i + 1) as real
  {
    if i > 0 {
      ScaledDrawBelow(x, i - 1);
      assert x * (i + 1) as real == x * i as real + x;
    }
  }

  /** `Math.floor(x * (i + 1))` for a draw `x` in [0, 1): the Fisher–Yates swap partner. */
  function SwapIndex(x: real, i: nat): (j: nat)
    requires 0.0 <= x < 1.0
    ensures j <= i
  {
    ScaledDrawBelow(x, i);
    (x * (i + 1) as real).Floor
  }

  /** Fisher–Yates shuffle, walking `i` down from the last index to 1 and
      swapping position `i` with a drawn position in [0, i]. */
  method Shuffle(a: seq<int>, rng: Rng, k: nat) returns (s: seq<int>, k': nat)
    requires ValidRng(rng)
    ensures |s| == |a|
    ensures multiset(s) == multiset(a)
    ensures k' == k + (if |a| > 0 then |a| - 1 else 0)
  {
    s := a;
    k' := k;
    var i := |a| - 1;
    while i > 0
      invariant -1 <= i < |a| && (|a| > 0 ==> 0 <= i)
      invariant |s| == |a|
      invariant multiset(s) == multiset(a)
      invariant k' + i == k + |a| - 1
    {
      var j := SwapIndex(rng(k'), i);
      s := s[i := s[j]][j := s[i]];
      k' := k' + 1;
      i := i - 1;
    }
  }

  /** The digits the shuffle starts from at every empty cell. */
  const Digits: seq<int> := [1, 2, 3, 4, 5, 6, 7, 8, 9]

  /** `solveSudoku`: finds the first empty cell in row-major order and tries to
      fill it; with no empty cell left the board is solved. */
  method Solve(b: Board, rng: Rng, k: nat) returns (ok: bool, b': Board, k': nat)
    requires IsGrid(b) && ValidRng(rng)
    ensures IsGrid(b')
    ensures ok ==> Full(b') && Extends(b, b')
    ensures ok && NoConflicts(b) ==> NoConflicts(b')
    ensures InRange(b) ==> InRange(b')
    ensures !ok ==> b' == b
    decreases Empties(b), 1
  {
    var row := 0;
    while row < 9
      invariant 0 <= row <= 9
      invariant forall r, c :: 0 <= r < row && 0 <= c < 9 ==> b[r][c] != 0
    {
      var col := 0;
      while col < 9
        invariant 0 <= col <= 9
        invariant forall c :: 0 <= c < col ==> b[row][c] != 0
      {
        if b[row][col] == 0 {
          ok, b', k' := FillCell(b, row, col, rng, k);
          return;
        }
        col := col + 1;
      }
      row := row + 1;
    }
    return true, b, k;
  }

  /** The candidate loop of `solveSudoku` at the empty cell (row, col): each
      shuffled digit the placement check accepts is written, the search recurses,
      and on failure the cell is reset to 0 before the next digit is tried. */
  method FillCell(b: Board, row: int, col: int, rng: Rng, k: nat) returns (ok: bool, b': Board, k': nat)
    requires IsGrid(b) && ValidRng(rng) && ValidIndex(row) && ValidIndex(col)
    requires b[row][col] == 0
    ensures IsGrid(b')
    ensures ok ==> Full(b') && Extends(b, b')
    ensures ok && NoConflicts(b) ==> NoConflicts(b')
    ensures InRange(b) ==> InRange(b')
    ensures !ok ==> b' == b
    decreases Empties(b), 0
  {
    var numbers;
    numbers, k' := Shuffle(Digits, rng, k);
    b' := b;
    var i := 0;
    while i < |numbers|
      invariant 0 <= i <= |numbers|
      invariant b' == b
    {
      var num := numbers[i];
      assert num in multiset(Digits);
      var valid := IsValid(b', row, col, num);
      if valid {
        b' := Set(b', row, col, num);
        PlaceShrinksEmpties(b, row, col, num);
        var solved;
        solved, b', k' := Solve(b', rng, k');
        if solved {
          if NoConflicts(b) {
            PlaceKeepsNoConflicts(b, row, col, num);
          }
          return true, b', k';
        }
        assert b' == Set(b, row, col, num);
        SetUndo(b, row, col, num);
        b' := Set(b', row, col, 0);
      }
      i := i + 1;
    }
    ok := false;
  }

  /** `generateSolvedSudoku`: runs the search on an all-zero grid and returns the
      grid whatever the search reported. Without a proof that the search always
      succeeds, the result is either a Sudoku solution or the untouched empty grid. */
  method GenerateSolved(rng: Rng, k: nat) returns (b: Board, k': nat)
    requires ValidRng(rng)
    ensures IsGrid(b) && InRange(b) && NoConflicts(b)
    ensures Full(b) ==> IsSolution(b)
    ensures Full(b) || b == EmptyBoard()
  {
    var empty := EmptyBoard();
    var ok;
    ok, b, k' := Solve(empty, rng, k);
    if Full(b) {
      FullConflictFreeIsSolution(b);
    }
  }
}
