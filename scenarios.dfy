/** Concrete grids: the check on a grid holding a single 5, and the search
    on the empty grid, which always finds some solved grid. */
module Scenarios {
  import opened Grid
  import opened Oracle
  import opened Solver
  import opened Correctness

  /** The grid with every cell empty. */
  function Empty(): (b: Board)
    ensures IsBoard(b) && forall i, j :: InRange(i, j) ==> b[i][j] == 0
  {
    seq(9, i => seq(9, j => 0))
  }

  /** A 5 at (0, 0) rules out 5 in row 0, in column 0 and in the top-left
      block (shown at one cell of each), and nowhere else: 5 is accepted at
      every cell sharing no unit with (0, 0). */
  lemma SingleFiveExample()
    ensures var b := Set(Empty(), 0, 0, 5);
      !IsValid(b, 0, 3, 5) && !IsValid(b, 3, 0, 5) && !IsValid(b, 1, 1, 5) && IsValid(b, 4, 4, 5)
    ensures var b := Set(Empty(), 0, 0, 5);
      forall k, l :: InRange(k, l) && !SameUnit(0, 0, k, l) ==> IsValid(b, k, l, 5)
  {
    var b := Set(Empty(), 0, 0, 5);
    SetFrame(Empty(), 0, 0, 5);
    IsValidRejects(b, 0, 3, 5, 0, 0);
    IsValidRejects(b, 3, 0, 5, 0, 0);
    IsValidRejects(b, 1, 1, 5, 0, 0);
    forall k, l | InRange(k, l) && !SameUnit(0, 0, k, l)
      ensures IsValid(b, k, l, 5)
    {
      IsValidExactly(b, k, l, 5);
    }
  }

  /** The row offset of a cell's digit in the pattern below: a
      permutation of 0..8. */
  function Shift(i: int): (k: int) {
    3 * (i % 3) + i / 3
  }

  /** A solved grid given by a formula: row i is 1..9 rotated by Shift(i). */
  function Pattern(): (s: Board)
    ensures |s| == 9 && forall i :: 0 <= i < 9 ==> |s[i]| == 9
    ensures forall i, j :: InRange(i, j) ==> s[i][j] == (Shift(i) + j) % 9 + 1
  {
    seq(9, i => seq(9, j => (Shift(i) + j) % 9 + 1))
  }

  /** Two numbers less than nine apart and distinct leave distinct
      remainders modulo nine. */
  lemma ModNineDistinct(m: int, n: int)
    requires 0 <= m && 0 <= n && m != n && -9 < m - n < 9
    ensures m % 9 != n % 9
  {
  }

  /** Two peers get different digits in the pattern. */
  lemma PatternPeersDiffer(i: int, j: int, k: int, l: int)
    requires InRange(i, j) && InRange(k, l) && Peer(i, j, k, l)
    ensures (Shift(i) + j) % 9 != (Shift(k) + l) % 9
  {
    if i != k && j == l {
      assert Shift(i) != Shift(k);
    } else if i != k {
      assert i / 3 == k / 3 && j / 3 == l / 3;
      assert Shift(i) - Shift(k) == 3 * (i % 3 - k % 3);
      assert (Shift(i) + j) - (Shift(k) + l) == 3 * (i % 3 - k % 3) + (j % 3 - l % 3);
    }
    ModNineDistinct(Shift(i) + j, Shift(k) + l);
  }

  lemma PatternSolved()
    ensures Completes(Pattern(), Empty())
  {
    var s := Pattern();
    forall i, j | InRange(i, j)
      ensures NoConflictAt(s, i, j)
    {
      forall k, l | InRange(k, l) && Peer(i, j, k, l)
        ensures s[k][l] != s[i][j]
      {
        PatternPeersDiffer(i, j, k, l);
      }
    }
  }

  /** On the empty grid the search succeeds from (0, 0) and leaves a
      solved grid behind. */
  lemma EmptyGridSolved()
    ensures Search(Empty(), 0, 0).Some?
    ensures Completes(Search(Empty(), 0, 0).value, Empty())
  {
    PatternSolved();
    SolvesFromStart(Empty());
  }
}
