/** The Sudoku placement rule: a digit may not repeat in a row, a column or a
    3×3 block. Holds the placement check `isValid`, the related-cell relation
    the UI highlights, and what a conflict-free full grid looks like. */
module Rules {
  import opened Grid

  /** Top row (or left column) of the block containing index `i`: `floor(i / 3) * 3`. */
  function BlockStart(i: int): (s: int)
    requires 0 <= i
    ensures s % 3 == 0 && s <= i < s + 3
  {
    (i / 3) * 3
  }

  /** `(br, bc)` is the top-left cell of one of the nine blocks. */
  predicate IsBlockCorner(br: int, bc: int) {
    br in {0, 3, 6} && bc in {0, 3, 6}
  }

  predicate InRow(b: Board, row: int, n: int)
    requires IsGrid(b) && ValidIndex(row)
  {
    exists c :: 0 <= c < 9 && b[row][c] == n
  }

  predicate InCol(b: Board, col: int, n: int)
    requires IsGrid(b) && ValidIndex(col)
  {
    exists r :: 0 <= r < 9 && b[r][col] == n
  }

  predicate InBlock(b: Board, br: int, bc: int, n: int)
    requires IsGrid(b) && 0 <= br <= 6 && 0 <= bc <= 6
  {
    exists r, c :: br <= r < br + 3 && bc <= c < bc + 3 && b[r][c] == n
  }

  /** `n` occurs neither in the row, nor in the column, nor in the block of (row, col). */
  predicate CanPlace(b: Board, row: int, col: int, n: int)
    requires IsGrid(b) && ValidIndex(row) && ValidIndex(col)
  {
    !InRow(b, row, n) && !InCol(b, col, n) && !InBlock(b, BlockStart(row), BlockStart(col), n)
  }

  /** (r1, c1) and (r2, c2) share a row, a column or a block. */
  predicate Related(r1: int, c1: int, r2: int, c2: int)
    requires 0 <= r1 && 0 <= c1 && 0 <= r2 && 0 <= c2
  {
    r1 == r2 || c1 == c2 || (BlockStart(r1) == BlockStart(r2) && BlockStart(c1) == BlockStart(c2))
  }

  /** No digit occurs twice among cells that share a row, a column or a block. */
  predicate NoConflicts(b: Board)
    requires IsGrid(b)
  {
    forall r1, c1, r2, c2 ::
      0 <= r1 < 9 && 0 <= c1 < 9 && 0 <= r2 < 9 && 0 <= c2 < 9 &&
      (r1 != r2 || c1 != c2) && Related(r1, c1, r2, c2) && b[r1][c1] != 0
      ==> b[r1][c1] != b[r2][c2]
  }

  /** The placement check: scans the row and the column together, then the block. */
  method IsValid(b: Board, row: int, col: int, num: int) returns (ok: bool)
    requires IsGrid(b) && ValidIndex(row) && ValidIndex(col)
    ensures ok <==> CanPlace(b, row, col, num)
  {
    var i := 0;
    while i < 9
      invariant 0 <= i <= 9
      invariant forall k :: 0 <= k < i ==> b[row][k] != num && b[k][col] != num
    {
      if b[row][i] == num || b[i][col] == num {
        return false;
      }
      i := i + 1;
    }
    var startRow := BlockStart(row);
    var startCol := BlockStart(col);
    i := 0;
    while i < 3
      invariant 0 <= i <= 3
      invariant forall r, c :: startRow <= r < startRow + i && startCol <= c < startCol + 3 ==> b[r][c] != num
    {
      var r := startRow + i;
      var j := 0;
      while j < 3
        invariant 0 <= j <= 3
        invariant forall c :: startCol <= c < startCol + j ==> b[r][c] != num
      {
        if b[r][startCol + j] == num {
          return false;
        }
        j := j + 1;
      }
      i := i + 1;
    }
    return true;
  }

  lemma RelatedReflexive(r: int, c: int)
    requires 0 <= r && 0 <= c
    ensures Related(r, c, r, c)
  {
  }

  lemma RelatedSymmetric(r1: int, c1: int, r2: int, c2: int)
    requires 0 <= r1 && 0 <= c1 && 0 <= r2 && 0 <= c2
    ensures Related(r1, c1, r2, c2) <==> Related(r2, c2, r1, c1)
  {
  }

  /** The placement check is exactly "no related cell already holds `n`". */
  lemma CanPlaceIffNoRelatedHolds(b: Board, row: int, col: int, n: int)
    requires IsGrid(b) && ValidIndex(row) && ValidIndex(col)
    ensures CanPlace(b, row, col, n) <==>
      forall r, c :: 0 <= r < 9 && 0 <= c < 9 && Related(row, col, r, c) ==> b[r][c] != n
  {
    var br, bc := BlockStart(row), BlockStart(col);
    if CanPlace(b, row, col, n) {
      forall r, c | 0 <= r < 9 && 0 <= c < 9 && Related(row, col, r, c)
        ensures b[r][c] != n
      {
      }
    } else if InBlock(b, br, bc, n) {
      var r, c :| br <= r < br + 3 && bc <= c < bc + 3 && b[r][c] == n;
      assert Related(row, col, r, c);
    } else if InRow(b, row, n) {
      var c :| 0 <= c < 9 && b[row][c] == n;
      assert Related(row, col, row, c);
    } else {
      var r :| 0 <= r < 9 && b[r][col] == n;
      assert Related(row, col, r, col);
    }
  }

  /** On a conflict-free board, writing a digit into an empty cell keeps the board
      conflict-free exactly when the placement check accepts the digit. */
  lemma PlaceKeepsNoConflicts(b: Board, row: int, col: int, n: int)
    requires IsGrid(b) && ValidIndex(row) && ValidIndex(col)
    requires NoConflicts(b) && b[row][col] == 0 && n != 0
    ensures NoConflicts(Set(b, row, col, n)) <==> CanPlace(b, row, col, n)
  {
    var b' := Set(b, row, col, n);
    CanPlaceIffNoRelatedHolds(b, row, col, n);
    if CanPlace(b, row, col, n) {
      forall r1, c1, r2, c2 |
        0 <= r1 < 9 && 0 <= c1 < 9 && 0 <= r2 < 9 && 0 <= c2 < 9 &&
        (r1 != r2 || c1 != c2) && Related(r1, c1, r2, c2) && b'[r1][c1] != 0
        ensures b'[r1][c1] != b'[r2][c2]
      {
        RelatedSymmetric(r1, c1, r2, c2);
      }
    } else {
      var r, c :| 0 <= r < 9 && 0 <= c < 9 && Related(row, col, r, c) && b[r][c] == n;
      assert (r, c) != (row, col);
      assert b'[row][col] == b'[r][c];
    }
  }

  /** The nine values of a row, a column or a block, in scan order. */
  function Row(b: Board, r: int): (s: seq<int>)
    requires IsGrid(b) && ValidIndex(r)
    ensures |s| == 9 && forall c :: 0 <= c < 9 ==> s[c] == b[r][c]
  {
    b[r]
  }

  function Col(b: Board, c: int): (s: seq<int>)
    requires IsGrid(b) && ValidIndex(c)
    ensures |s| == 9 && forall r :: 0 <= r < 9 ==> s[r] == b[r][c]
  {
    seq(9, r requires 0 <= r < 9 => b[r][c])
  }

  function Block(b: Board, br: int, bc: int): (s: seq<int>)
    requires IsGrid(b) && IsBlockCorner(br, bc)
    ensures |s| == 9 && forall k :: 0 <= k < 9 ==> s[k] == b[br + k / 3][bc + k % 3]
  {
    seq(9, k requires 0 <= k < 9 => b[br + k / 3][bc + k % 3])
  }

  predicate Distinct(s: seq<int>) {
    forall i, j :: 0 <= i < j < |s| ==> s[i] != s[j]
  }

  /** `s` holds each digit 1..9 exactly once. */
  predicate PermutationOfDigits(s: seq<int>) {
    |s| == 9 && Distinct(s) && (forall n :: 1 <= n <= 9 ==> n in s) &&
    (forall i :: 0 <= i < |s| ==> 1 <= s[i] <= 9)
  }

  /** Every row, column and block is a permutation of 1..9. */
  predicate IsSolution(b: Board)
    requires IsGrid(b)
  {
    (forall r :: 0 <= r < 9 ==> PermutationOfDigits(Row(b, r))) &&
    (forall c :: 0 <= c < 9 ==> PermutationOfDigits(Col(b, c))) &&
    (forall br, bc :: br in {0, 3, 6} && bc in {0, 3, 6} ==> PermutationOfDigits(Block(b, br, bc)))
  }

  /** A sequence of distinct members of `S` is no longer than `S` is large. */
  lemma {:induction false} Pigeonhole(s: seq<int>, S: set<int>)
    requires forall i :: 0 <= i < |s| ==> s[i] in S
    requires Distinct(s)
    ensures |s| <= |S|
  {
    if |s| > 0 {
      var rest := S - {s[0]};
      forall i | 0 <= i < |s[1..]|
        ensures s[1..][i] in rest
      {
        assert s[1..][i] == s[i + 1];
      }
      Pigeonhole(s[1..], rest);
    }
  }

  /** Nine distinct digits are all nine digits. */
  lemma AllDigitsPresent(s: seq<int>)
    requires |s| == 9 && Distinct(s)
    requires forall i :: 0 <= i < |s| ==> 1 <= s[i] <= 9
    ensures forall n :: 1 <= n <= 9 ==> n in s
  {
    forall n | 1 <= n <= 9
      ensures n in s
    {
      if n !in s {
        var rest := {1, 2, 3, 4, 5, 6, 7, 8, 9} - {n};
        assert |rest| == 8;
        Pigeonhole(s, rest);
      }
    }
  }

  /** In a full, conflict-free grid of digits every row is a permutation of 1..9. */
  lemma RowsArePermutations(b: Board, r: int)
    requires IsGrid(b) && InRange(b) && Full(b) && NoConflicts(b) && ValidIndex(r)
    ensures PermutationOfDigits(Row(b, r))
  {
    var s := Row(b, r);
    forall i, j | 0 <= i < j < 9
      ensures s[i] != s[j]
    {
      assert Related(r, i, r, j);
    }
    AllDigitsPresent(s);
  }

  lemma ColsArePermutations(b: Board, c: int)
    requires IsGrid(b) && InRange(b) && Full(b) && NoConflicts(b) && ValidIndex(c)
    ensures PermutationOfDigits(Col(b, c))
  {
    var s := Col(b, c);
    forall i, j | 0 <= i < j < 9
      ensures s[i] != s[j]
    {
      assert Related(i, c, j, c);
    }
    AllDigitsPresent(s);
  }

  /** The k-th cell of a block lies in that block, and distinct k give distinct cells. */
  lemma BlockCellsRelated(br: int, bc: int, i: int, j: int)
    requires IsBlockCorner(br, bc) && 0 <= i < j < 9
    ensures var r1, c1, r2, c2 := br + i / 3, bc + i % 3, br + j / 3, bc + j % 3;
      0 <= r1 < 9 && 0 <= c1 < 9 && 0 <= r2 < 9 && 0 <= c2 < 9 &&
      (r1 != r2 || c1 != c2) && Related(r1, c1, r2, c2)
  {
    assert i == 3 * (i / 3) + i % 3 && j == 3 * (j / 3) + j % 3;
    assert BlockStart(br + i / 3) == br && BlockStart(br + j / 3) == br;
    assert BlockStart(bc + i % 3) == bc && BlockStart(bc + j % 3) == bc;
  }

  lemma BlocksArePermutations(b: Board, br: int, bc: int)
    requires IsGrid(b) && InRange(b) && Full(b) && NoConflicts(b) && IsBlockCorner(br, bc)
    ensures PermutationOfDigits(Block(b, br, bc))
  {
    var s := Block(b, br, bc);
    forall i, j | 0 <= i < j < 9
      ensures s[i] != s[j]
    {
      BlockCellsRelated(br, bc, i, j);
    }
    AllDigitsPresent(s);
  }

  /** A full, conflict-free grid of digits is a Sudoku solution. */
  lemma FullConflictFreeIsSolution(b: Board)
    requires IsGrid(b) && InRange(b) && Full(b) && NoConflicts(b)
    ensures IsSolution(b)
  {
    forall r | 0 <= r < 9
      ensures PermutationOfDigits(Row(b, r))
    {
      RowsArePermutations(b, r);
    }
    forall c | 0 <= c < 9
      ensures PermutationOfDigits(Col(b, c))
    {
      ColsArePermutations(b, c);
    }
    forall br, bc | br in {0, 3, 6} && bc in {0, 3, 6}
      ensures PermutationOfDigits(Block(b, br, bc))
    {
      BlocksArePermutations(b, br, bc);
    }
  }
}
