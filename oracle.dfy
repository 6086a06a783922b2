/** The validity check: may a digit be written at a cell without repeating
    a digit already present in that cell's row, column or 3x3 block? */
module Oracle {
  import opened Grid

  /** The three scans of the check, as one condition: v does not occur in
      row r (the target cell included), nor in column c, nor in any cell
      whose (row / 3, column / 3) is (r / 3, c / 3). */
  predicate IsValid(b: Board, r: int, c: int, v: int): (ok: bool)
    requires IsBoard(b) && InRange(r, c)
  {
    v !in b[r]
    && (forall i :: 0 <= i < 9 ==> b[i][c] != v)
    && (forall i, j :: 0 <= i < 9 && 0 <= j < 9 && i / 3 == r / 3 && j / 3 == c / 3 ==> b[i][j] != v)
  }

  /** The check accepts v exactly when no cell sharing a unit with (r, c),
      the cell itself included, holds v. */
  lemma IsValidExactly(b: Board, r: int, c: int, v: int)
    requires IsBoard(b) && InRange(r, c)
    ensures IsValid(b, r, c, v) <==> forall k, l :: InRange(k, l) && SameUnit(r, c, k, l) ==> b[k][l] != v
  {
    if IsValid(b, r, c, v) {
      forall k, l | InRange(k, l) && SameUnit(r, c, k, l)
        ensures b[k][l] != v
      {
        if k == r {
          assert b[r][l] in b[r];
        }
      }
    } else if v in b[r] {
      var l :| 0 <= l < 9 && b[r][l] == v;
      assert SameUnit(r, c, r, l);
    }
  }

  /** An occurrence of v in the row, the column or the block of (r, c)
      makes the check reject v there. */
  lemma IsValidRejects(b: Board, r: int, c: int, v: int, k: int, l: int)
    requires IsBoard(b) && InRange(r, c) && InRange(k, l)
    requires b[k][l] == v
    requires k == r || l == c || (k / 3 == r / 3 && l / 3 == c / 3)
    ensures !IsValid(b, r, c, v)
  {
    IsValidExactly(b, r, c, v);
  }

  /** The check as the program runs it on the mutable grid: a scan of the
      row, then of the column, then of all 81 cells keeping those of the
      block, returning false at the first occurrence of value. It only
      reads the grid. */
  method CheckValid(g: array2<int>, r: int, c: int, value: int) returns (ok: bool)
    requires IsGrid(g) && InRange(r, c)
    ensures ok == IsValid(Contents(g), r, c, value)
  {
    ghost var b := Contents(g);
    for column := 0 to 9
      invariant forall j :: 0 <= j < column ==> g[r, j] != value
    {
      if g[r, column] == value {
        assert b[r][column] in b[r];
        return false;
      }
    }
    for row := 0 to 9
      invariant forall i :: 0 <= i < row ==> g[i, c] != value
    {
      if value == g[row, c] {
        return false;
      }
    }
    var squareRow, squareColumn := r / 3, c / 3;
    for row := 0 to 9
      invariant forall i, j :: 0 <= i < row && 0 <= j < 9 && i / 3 == squareRow && j / 3 == squareColumn ==> g[i, j] != value
    {
      for column := 0 to 9
        invariant forall j :: 0 <= j < column && row / 3 == squareRow && j / 3 == squareColumn ==> g[row, j] != value
      {
        if row / 3 == squareRow && column / 3 == squareColumn {
          if g[row, column] == value {
            return false;
          }
        }
      }
    }
    return true;
  }
}
