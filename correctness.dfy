/** What the search promises: the candidate order it follows, that it
    finds a solution whenever one exists, that what it finds is a solution,
    and how it behaves on grids with no empty cell. */
module Correctness {
  import opened Grid
  import opened Oracle
  import opened Solver

  /** The digit a successful search leaves at an empty cell (r, c) is the
      smallest accepted digit whose placement lets the rest of the search
      succeed: every smaller accepted digit led to a failed search. */
  lemma FirstSuccessKept(b: Board, r: int, c: int)
    requires IsBoard(b) && InRange(r, c) && b[r][c] == 0 && Search(b, r, c).Some?
    ensures var s := Search(b, r, c).value;
      IsBoard(s) && 1 <= s[r][c] <= 9 && IsValid(b, r, c, s[r][c])
      && (Pos(r, c) < 80 ==> Search(Set(b, r, c, s[r][c]), Next(r, c).0, Next(r, c).1) == Some(s))
      && (forall w :: 1 <= w < s[r][c] && IsValid(b, r, c, w) ==>
            Pos(r, c) < 80 && Search(Set(b, r, c, w), Next(r, c).0, Next(r, c).1) == None)
  {
    TryFromFirstSuccess(b, r, c, 1);
  }

  lemma {:induction false} TryFromFirstSuccess(b: Board, r: int, c: int, u: int)
    requires IsBoard(b) && InRange(r, c) && b[r][c] == 0 && 1 <= u <= 10 && TryFrom(b, r, c, u).Some?
    ensures var s := TryFrom(b, r, c, u).value;
      IsBoard(s) && u <= s[r][c] <= 9 && IsValid(b, r, c, s[r][c])
      && (Pos(r, c) < 80 ==> Search(Set(b, r, c, s[r][c]), Next(r, c).0, Next(r, c).1) == Some(s))
      && (forall w :: u <= w < s[r][c] && IsValid(b, r, c, w) ==>
            Pos(r, c) < 80 && Search(Set(b, r, c, w), Next(r, c).0, Next(r, c).1) == None)
    decreases 10 - u
  {
    if Attempt(b, r, c, u).None? {
      TryFromFirstSuccess(b, r, c, u + 1);
    } else if r == 8 && c == 8 {
    } else {
      var b' := Set(b, r, c, u);
      SearchExtends(b', Next(r, c).0, Next(r, c).1);
      assert Search(b', Next(r, c).0, Next(r, c).1).value[r][c] == b'[r][c];
    }
  }

  /** A failed search at an empty cell (r, c) tried every accepted digit
      there, and each one led to a failed search. */
  lemma {:induction false} TryFromExhausts(b: Board, r: int, c: int, u: int)
    requires IsBoard(b) && InRange(r, c) && b[r][c] == 0 && 1 <= u <= 10 && TryFrom(b, r, c, u).None?
    ensures forall w :: u <= w <= 9 && IsValid(b, r, c, w) ==>
      Pos(r, c) < 80 && Search(Set(b, r, c, w), Next(r, c).0, Next(r, c).1) == None
    decreases 10 - u
  {
    if u < 10 {
      assert Attempt(b, r, c, u).None?;
      TryFromExhausts(b, r, c, u + 1);
    }
  }

  /** The digit of a solved grid at a cell its givens leave empty is one
      the check accepts there. */
  lemma CompletionDigitValid(b: Board, r: int, c: int, s: Board)
    requires IsBoard(b) && InRange(r, c) && b[r][c] == 0 && Completes(s, b)
    ensures IsValid(b, r, c, s[r][c])
  {
    var w := s[r][c];
    forall k, l | InRange(k, l) && SameUnit(r, c, k, l)
      ensures b[k][l] != w
    {
      if (k != r || l != c) && b[k][l] != 0 {
        assert NoConflictAt(s, r, c);
        assert Peer(r, c, k, l);
      }
    }
    IsValidExactly(b, r, c, w);
  }

  /** Whenever some solved grid keeps the givens of b, the search from any
      cell succeeds: it never misses a solution. */
  lemma {:induction false} SearchFindsCompletion(b: Board, r: int, c: int, s: Board)
    requires IsBoard(b) && InRange(r, c) && Completes(s, b)
    ensures Search(b, r, c).Some?
    decreases 81 - Pos(r, c), 11
  {
    if b[r][c] == 0 {
      TryFromFindsCompletion(b, r, c, 1, s);
    } else if r == 8 && c == 8 {
    } else {
      SearchFindsCompletion(b, Next(r, c).0, Next(r, c).1, s);
    }
  }

  lemma {:induction false} TryFromFindsCompletion(b: Board, r: int, c: int, v: int, s: Board)
    requires IsBoard(b) && InRange(r, c) && b[r][c] == 0 && Completes(s, b) && 1 <= v <= s[r][c]
    ensures TryFrom(b, r, c, v).Some?
    decreases 81 - Pos(r, c), 10 - v
  {
    if v == s[r][c] {
      CompletionDigitValid(b, r, c, s);
      if r != 8 || c != 8 {
        var b' := Set(b, r, c, v);
        SetFrame(b, r, c, v);
        assert Completes(s, b');
        SearchFindsCompletion(b', Next(r, c).0, Next(r, c).1, s);
      }
      assert Attempt(b, r, c, v).Some?;
    } else if Attempt(b, r, c, v).None? {
      TryFromFindsCompletion(b, r, c, v + 1, s);
    }
  }

  /** The search started at (0, 0), as the program starts it, succeeds
      whenever the puzzle has a solution; and when the givens do not
      conflict with each other, what it leaves behind is a solution that
      keeps every given. */
  lemma SolvesFromStart(b: Board)
    requires IsBoard(b)
    ensures (exists s :: Completes(s, b)) ==> Search(b, 0, 0).Some?
    ensures Consistent(b) && Search(b, 0, 0).Some? ==> Completes(Search(b, 0, 0).value, b)
  {
    if s :| Completes(s, b) {
      SearchFindsCompletion(b, 0, 0, s);
    }
    SearchExtends(b, 0, 0);
    if Consistent(b) && Search(b, 0, 0).Some? {
      var s := Search(b, 0, 0).value;
      forall i, j | InRange(i, j) && s[i][j] != 0
        ensures NoConflictAt(s, i, j)
      {
        if b[i][j] != 0 {
          forall k, l | InRange(k, l) && Peer(i, j, k, l)
            ensures s[k][l] != s[i][j]
          {
            if b[k][l] != 0 {
              assert NoConflictAt(b, i, j);
            } else {
              assert NoConflictAt(s, k, l);
              assert Peer(k, l, i, j);
            }
          }
        }
      }
    }
  }

  /** On a grid with no empty cell the search succeeds from any cell and
      changes nothing. */
  lemma {:induction false} FullGridUnchanged(b: Board, r: int, c: int)
    requires IsBoard(b) && InRange(r, c) && Full(b)
    ensures Search(b, r, c) == Some(b)
    decreases 81 - Pos(r, c)
  {
    assert b[r][c] != 0;
    if !(r == 8 && c == 8) {
      FullGridUnchanged(b, Next(r, c).0, Next(r, c).1);
    }
  }

  /** Givens are never checked against each other: a grid with no empty
      cell whose digits all repeat is accepted as it stands. */
  lemma ConflictingFullGridAccepted()
    ensures var b := seq(9, i => seq(9, j => 5));
      IsBoard(b) && !Consistent(b) && Search(b, 0, 0) == Some(b)
  {
    var b := seq(9, i => seq(9, j => 5));
    assert Peer(0, 0, 0, 1);
    assert !NoConflictAt(b, 0, 0);
    FullGridUnchanged(b, 0, 0);
  }
}
