/** The puzzle grid: nine rows of nine cells, 0 marking an empty cell and
    1..9 a digit, together with the row-major cell order the search follows
    and the row/column/block relation the rules are stated over. */
module Grid {

  datatype Option<T> = None | Some(value: T)

  /** A value-level picture of the grid, row by row. */
  type Board = seq<seq<int>>

  predicate InRange(r: int, c: int) {
    0 <= r < 9 && 0 <= c < 9
  }

  /** Nine rows of nine cells, each 0 (empty) or a digit 1..9. */
  predicate IsBoard(b: Board) {
    |b| == 9 && forall i :: 0 <= i < 9 ==> |b[i]| == 9 && forall j :: 0 <= j < 9 ==> 0 <= b[i][j] <= 9
  }

  /** Position of a cell in row-major order. */
  function Pos(r: int, c: int): (p: int) {
    9 * r + c
  }

  /** The cell after (r, c) in row-major order: the next column, or the
      first column of the next row after column 8. */
  function Next(r: int, c: int): (n: (int, int))
    requires InRange(r, c)
    ensures Pos(r, c) < 80 ==> InRange(n.0, n.1) && Pos(n.0, n.1) == Pos(r, c) + 1
    ensures Pos(r, c) == 80 ==> !InRange(n.0, n.1)
  {
    if c + 1 == 9 then (r + 1, 0) else (r, c + 1)
  }

  /** The board with cell (r, c) holding v and every other cell as before. */
  function Set(b: Board, r: int, c: int, v: int): (s: Board)
    requires IsBoard(b) && InRange(r, c) && 0 <= v <= 9
    ensures IsBoard(s) && s[r][c] == v
  {
    b[r := b[r][c := v]]
  }

  /** Set changes no cell but (r, c). */
  lemma SetFrame(b: Board, r: int, c: int, v: int)
    requires IsBoard(b) && InRange(r, c) && 0 <= v <= 9
    ensures forall i, j :: InRange(i, j) && (i != r || j != c) ==> Set(b, r, c, v)[i][j] == b[i][j]
  {
  }

  /** Writing a digit into an empty cell and then 0 again gives back the
      board. */
  lemma SetUndo(b: Board, r: int, c: int, v: int)
    requires IsBoard(b) && InRange(r, c) && b[r][c] == 0 && 0 <= v <= 9
    ensures Set(Set(b, r, c, v), r, c, 0) == b
  {
    SetFrame(b, r, c, v);
    SetFrame(Set(b, r, c, v), r, c, 0);
    BoardsEqual(Set(Set(b, r, c, v), r, c, 0), b);
  }

  /** (k, l) lies in the row, the column or the 3x3 block of (r, c);
      the block is the one selected by (r / 3, c / 3). */
  predicate SameUnit(r: int, c: int, k: int, l: int) {
    k == r || l == c || (k / 3 == r / 3 && l / 3 == c / 3)
  }

  /** (k, l) is another cell that shares a unit with (r, c). */
  predicate Peer(r: int, c: int, k: int, l: int) {
    SameUnit(r, c, k, l) && (k != r || l != c)
  }

  /** No peer of (i, j) holds the same value as (i, j). */
  ghost predicate NoConflictAt(b: Board, i: int, j: int)
    requires IsBoard(b) && InRange(i, j)
  {
    forall k, l :: InRange(k, l) && Peer(i, j, k, l) ==> b[k][l] != b[i][j]
  }

  /** The filled cells respect the rules: no digit repeats in a row,
      a column or a block. */
  ghost predicate Consistent(b: Board)
    requires IsBoard(b)
  {
    forall i, j :: InRange(i, j) && b[i][j] != 0 ==> NoConflictAt(b, i, j)
  }

  /** Every cell holds a digit. */
  ghost predicate Full(b: Board)
    requires IsBoard(b)
  {
    forall i, j :: InRange(i, j) ==> b[i][j] != 0
  }

  /** s is a solved grid that keeps every given of b. */
  ghost predicate Completes(s: Board, b: Board)
    requires IsBoard(b)
  {
    IsBoard(s) && Full(s) && Consistent(s)
    && forall i, j :: InRange(i, j) && b[i][j] != 0 ==> s[i][j] == b[i][j]
  }

  /** The grid as the program holds it, a mutable 9x9 matrix of 0..9. */
  ghost predicate IsGrid(g: array2<int>)
    reads g
  {
    g.Length0 == 9 && g.Length1 == 9 && IsBoard(Contents(g))
  }

  /** The current contents of the mutable grid as a board. */
  ghost function Contents(g: array2<int>): (b: Board)
    reads g
    requires g.Length0 == 9 && g.Length1 == 9
    ensures |b| == 9 && forall i :: 0 <= i < 9 ==> |b[i]| == 9
    ensures forall i, j :: InRange(i, j) ==> b[i][j] == g[i, j]
  {
    seq(9, i reads g requires 0 <= i < 9 => seq(9, j reads g requires 0 <= j < 9 => g[i, j]))
  }

  /** Two boards that agree cell by cell are equal. */
  lemma BoardsEqual(a: Board, b: Board)
    requires |a| == 9 && |b| == 9
    requires forall i :: 0 <= i < 9 ==> |a[i]| == 9 && |b[i]| == 9
    requires forall i, j :: InRange(i, j) ==> a[i][j] == b[i][j]
    ensures a == b
  {
    forall i | 0 <= i < 9
      ensures a[i] == b[i]
    {
      assert forall j :: 0 <= j < 9 ==> a[i][j] == b[i][j];
    }
  }

  /** Writes v into cell (r, c) of the grid: its contents become those
      of Set, every other cell keeping its value. */
  method Write(g: array2<int>, r: int, c: int, v: int)
    requires IsGrid(g) && InRange(r, c) && 0 <= v <= 9
    modifies g
    ensures IsGrid(g) && Contents(g) == Set(old(Contents(g)), r, c, v)
  {
    g[r, c] := v;
    SetFrame(old(Contents(g)), r, c, v);
    BoardsEqual(Contents(g), Set(old(Contents(g)), r, c, v));
  }
}
