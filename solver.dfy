/** The backtracking solver: a depth-first search over the cells in
    row-major order that fills each empty cell with the first digit 1..9
    the validity check accepts, recurses on the next cell, and resets the
    cell to empty when the recursion fails. */
module Solver {
  import opened Grid
  import opened Oracle

  /** The search as a function of the board it starts from: the board the
      solver leaves behind when it succeeds from (r, c), or None when it
      fails. Filled cells are passed over without any check; the search
      succeeds when it gets past cell (8, 8). */
  function Search(b: Board, r: int, c: int): (o: Option<Board>)
    requires IsBoard(b) && InRange(r, c)
    decreases 81 - Pos(r, c), 11
  {
    if b[r][c] == 0 then TryFrom(b, r, c, 1)
    else if r == 8 && c == 8 then Some(b)
    else Search(b, Next(r, c).0, Next(r, c).1)
  }

  /** The candidate loop at the empty cell (r, c), from digit v on: the
      first digit whose attempt succeeds wins. */
  function TryFrom(b: Board, r: int, c: int, v: int): (o: Option<Board>)
    requires IsBoard(b) && InRange(r, c) && b[r][c] == 0 && 1 <= v <= 10
    decreases 81 - Pos(r, c), 10 - v, 1
  {
    if v == 10 then None
    else if Attempt(b, r, c, v).Some? then Attempt(b, r, c, v)
    else TryFrom(b, r, c, v + 1)
  }

  /** One pass of the candidate loop with digit v at the empty cell (r, c):
      a digit the check rejects fails; an accepted digit at the last cell
      succeeds at once; otherwise the outcome is that of the search from
      the next cell with v in place. */
  function Attempt(b: Board, r: int, c: int, v: int): (o: Option<Board>)
    requires IsBoard(b) && InRange(r, c) && b[r][c] == 0 && 1 <= v <= 9
    decreases 81 - Pos(r, c), 10 - v, 0
  {
    if !IsValid(b, r, c, v) then None
    else if r == 8 && c == 8 then Some(Set(b, r, c, v))
    else Search(Set(b, r, c, v), Next(r, c).0, Next(r, c).1)
  }

  /** Cells before position p and filled cells of b keep their value in s. */
  ghost predicate KeepsFixed(b: Board, s: Board, p: int)
    requires IsBoard(b) && IsBoard(s)
  {
    forall i, j :: InRange(i, j) && (Pos(i, j) < p || b[i][j] != 0) ==> s[i][j] == b[i][j]
  }

  /** Every cell at or after position p holds a digit. */
  ghost predicate FilledFrom(s: Board, p: int)
    requires IsBoard(s)
  {
    forall i, j :: InRange(i, j) && p <= Pos(i, j) ==> s[i][j] != 0
  }

  /** Every cell at or after position p that b left empty holds, in s, a
      digit that no peer repeats. */
  ghost predicate PlacedWithoutConflict(b: Board, s: Board, p: int)
    requires IsBoard(b) && IsBoard(s)
  {
    forall i, j :: InRange(i, j) && p <= Pos(i, j) && b[i][j] == 0 ==> NoConflictAt(s, i, j)
  }

  /** What a successful search from position p does to b. */
  ghost predicate Extends(b: Board, s: Board, p: int)
    requires IsBoard(b)
  {
    IsBoard(s) && KeepsFixed(b, s, p) && FilledFrom(s, p) && PlacedWithoutConflict(b, s, p)
  }

  /** A successful search keeps the givens and the cells before its start,
      fills every cell from its start on, and places only digits that
      conflict with no other cell of the final grid. */
  lemma {:induction false} SearchExtends(b: Board, r: int, c: int)
    requires IsBoard(b) && InRange(r, c)
    ensures Search(b, r, c).Some? ==> Extends(b, Search(b, r, c).value, Pos(r, c))
    decreases 81 - Pos(r, c), 11
  {
    if b[r][c] == 0 {
      TryFromExtends(b, r, c, 1);
    } else if r == 8 && c == 8 {
      SkipLastExtends(b);
    } else {
      var (nr, nc) := Next(r, c);
      SearchExtends(b, nr, nc);
      if Search(b, nr, nc).Some? {
        SkipExtends(b, r, c, Search(b, nr, nc).value);
      }
    }
  }

  /** Passing over a filled last cell succeeds with the board unchanged. */
  lemma SkipLastExtends(b: Board)
    requires IsBoard(b) && b[8][8] != 0
    ensures Extends(b, b, Pos(8, 8))
  {
    forall i, j | InRange(i, j) && Pos(8, 8) <= Pos(i, j)
      ensures b[i][j] != 0
    {
      assert i == 8 && j == 8;
    }
  }

  /** Passing over a filled cell (r, c) keeps what the search from the next
      cell establishes. */
  lemma SkipExtends(b: Board, r: int, c: int, s: Board)
    requires IsBoard(b) && InRange(r, c) && Pos(r, c) < 80 && b[r][c] != 0
    requires Extends(b, s, Pos(r, c) + 1)
    ensures Extends(b, s, Pos(r, c))
  {
    forall i, j | InRange(i, j) && Pos(i, j) == Pos(r, c)
      ensures i == r && j == c
    {
    }
  }

  /** SearchExtends for the candidate loop; the digit left at (r, c) is at
      least v. */
  lemma {:induction false} TryFromExtends(b: Board, r: int, c: int, v: int)
    requires IsBoard(b) && InRange(r, c) && b[r][c] == 0 && 1 <= v <= 10
    ensures TryFrom(b, r, c, v).Some? ==>
      Extends(b, TryFrom(b, r, c, v).value, Pos(r, c)) && TryFrom(b, r, c, v).value[r][c] >= v
    decreases 81 - Pos(r, c), 10 - v, 1
  {
    if v < 10 {
      AttemptExtends(b, r, c, v);
      if Attempt(b, r, c, v).None? {
        TryFromExtends(b, r, c, v + 1);
      }
    }
  }

  /** A successful attempt with digit v leaves v at (r, c) and is a
      successful search from (r, c). */
  lemma {:induction false} AttemptExtends(b: Board, r: int, c: int, v: int)
    requires IsBoard(b) && InRange(r, c) && b[r][c] == 0 && 1 <= v <= 9
    ensures Attempt(b, r, c, v).Some? ==>
      Extends(b, Attempt(b, r, c, v).value, Pos(r, c)) && Attempt(b, r, c, v).value[r][c] == v
    decreases 81 - Pos(r, c), 10 - v, 0
  {
    if !IsValid(b, r, c, v) {
    } else if r == 8 && c == 8 {
      LastPlacementExtends(b, v);
    } else {
      var b' := Set(b, r, c, v);
      var (nr, nc) := Next(r, c);
      SearchExtends(b', nr, nc);
      if Search(b', nr, nc).Some? {
        PlacementExtends(b, r, c, v, Search(b', nr, nc).value);
      }
    }
  }

  /** An accepted digit at the last cell completes the search from there. */
  lemma LastPlacementExtends(b: Board, v: int)
    requires IsBoard(b) && b[8][8] == 0 && 1 <= v <= 9 && IsValid(b, 8, 8, v)
    ensures Extends(b, Set(b, 8, 8, v), Pos(8, 8))
  {
    var s := Set(b, 8, 8, v);
    SetFrame(b, 8, 8, v);
    IsValidExactly(b, 8, 8, v);
    forall k, l | InRange(k, l) && Peer(8, 8, k, l)
      ensures s[k][l] != s[8][8]
    {
      assert SameUnit(8, 8, k, l);
    }
    assert NoConflictAt(s, 8, 8);
  }

  /** An accepted digit at (r, c) followed by a successful search from the
      next cell is a successful search from (r, c). */
  lemma PlacementExtends(b: Board, r: int, c: int, v: int, s: Board)
    requires IsBoard(b) && InRange(r, c) && Pos(r, c) < 80 && b[r][c] == 0
    requires 1 <= v <= 9 && IsValid(b, r, c, v)
    requires Extends(Set(b, r, c, v), s, Pos(r, c) + 1)
    ensures Extends(b, s, Pos(r, c)) && s[r][c] == v
  {
    var b' := Set(b, r, c, v);
    SetFrame(b, r, c, v);
    var p := Pos(r, c);
    assert s[r][c] == v;
    forall i, j | InRange(i, j) && (Pos(i, j) < p || b[i][j] != 0)
      ensures s[i][j] == b[i][j]
    {
      assert b'[i][j] == b[i][j];
    }
    forall i, j | InRange(i, j) && p <= Pos(i, j)
      ensures s[i][j] != 0
    {
      if Pos(i, j) == p {
        assert i == r && j == c;
      }
    }
    IsValidExactly(b, r, c, v);
    forall k, l | InRange(k, l) && Peer(r, c, k, l)
      ensures s[k][l] != s[r][c]
    {
      assert SameUnit(r, c, k, l);
      if b[k][l] == 0 && p < Pos(k, l) {
        assert b'[k][l] == 0;
        assert NoConflictAt(s, k, l);
        assert Peer(k, l, r, c);
      } else if b[k][l] == 0 {
        assert Pos(k, l) < p;
      }
    }
    forall i, j | InRange(i, j) && p <= Pos(i, j) && b[i][j] == 0
      ensures NoConflictAt(s, i, j)
    {
      if Pos(i, j) != p {
        assert b'[i][j] == 0;
      } else {
        assert i == r && j == c;
      }
    }
  }

  /** The solver as the program runs it: it writes tentative digits into the
      grid in place and resets them to 0 when the recursion fails. It leaves
      behind exactly what Search describes and restores the grid when it
      fails; when it succeeds it has kept every given and every cell before
      (r, c), filled every cell from (r, c) on, and placed only digits that
      conflict with no other cell. */
  method Solve(g: array2<int>, r: int, c: int) returns (solved: bool)
    requires IsGrid(g) && InRange(r, c)
    modifies g
    decreases 81 - Pos(r, c)
    ensures IsGrid(g)
    ensures solved ==> Search(old(Contents(g)), r, c) == Some(Contents(g))
    ensures !solved ==> Search(old(Contents(g)), r, c) == None && Contents(g) == old(Contents(g))
    ensures solved ==> Extends(old(Contents(g)), Contents(g), Pos(r, c))
  {
    ghost var b := Contents(g);
    SearchExtends(b, r, c);
    var nextR, nextC := r, c + 1;
    if nextC == 9 {
      nextR, nextC := r + 1, 0;
    }
    if g[r, c] == 0 {
      for value := 1 to 10
        invariant IsGrid(g) && Contents(g) == b
        invariant TryFrom(b, r, c, value) == Search(b, r, c)
      {
        var valid := CheckValid(g, r, c, value);
        if valid {
          Write(g, r, c, value);
          if r == 8 && c == 8 {
            return true;
          }
          var result := Solve(g, nextR, nextC);
          if !result {
            Write(g, r, c, 0);
            SetUndo(b, r, c, value);
          } else {
            return result;
          }
        }
      }
      return false;
    } else {
      if r == 8 && c == 8 {
        return true;
      }
      solved := Solve(g, nextR, nextC);
    }
  }
}
