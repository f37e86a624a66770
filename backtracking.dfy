/** Depth-first N-Queens search with three occupancy arrays (columns,
    row+col diagonals, row-col+n-1 diagonals) that always mirror the partial
    board, as in algorithms/backtracking.py. */
module Backtracking {
  import opened Queens

  /** Length of each diagonal array: Python's `[False] * (2 * n - 1)`, which
      is empty for n = 0. */
  function DiagCount(n: nat): nat
  {
    if n == 0 then 0 else 2 * n - 1
  }

  /** Index of the diagonal through (row, col) on which row + col is constant. */
  function UpDiagonal(n: nat, row: int, col: int): (d: nat)
    requires 0 <= row < n && 0 <= col < n
    ensures d < DiagCount(n)
  {
    row + col
  }

  /** Index of the diagonal through (row, col) on which row - col is constant. */
  function DownDiagonal(n: nat, row: int, col: int): (d: nat)
    requires 0 <= row < n && 0 <= col < n
    ensures d < DiagCount(n)
  {
    row - col + n - 1
  }

  /** Some queen of the board lies on up-diagonal d. */
  ghost predicate OnUp(board: seq<int>, d: int)
  {
    exists r :: 0 <= r < |board| && r + board[r] == d
  }

  /** Some queen of the board lies on down-diagonal d. */
  ghost predicate OnDown(n: int, board: seq<int>, d: int)
  {
    exists r :: 0 <= r < |board| && r - board[r] + n - 1 == d
  }

  lemma OnUpAppend(board: seq<int>, col: int, d: int)
    ensures OnUp(board + [col], d) <==> OnUp(board, d) || d == |board| + col
  {
    var b := board + [col];
    if OnUp(b, d) && d != |board| + col {
      var r :| 0 <= r < |b| && r + b[r] == d;
      assert r < |board| && r + board[r] == d;
    }
    if OnUp(board, d) {
      var r :| 0 <= r < |board| && r + board[r] == d;
      assert r + b[r] == d;
    }
    if d == |board| + col {
      assert |board| + b[|board|] == d;
    }
  }

  lemma OnDownAppend(n: int, board: seq<int>, col: int, d: int)
    ensures OnDown(n, board + [col], d) <==> OnDown(n, board, d) || d == |board| - col + n - 1
  {
    var b := board + [col];
    if OnDown(n, b, d) && d != |board| - col + n - 1 {
      var r :| 0 <= r < |b| && r - b[r] + n - 1 == d;
      assert r < |board| && r - board[r] + n - 1 == d;
    }
    if OnDown(n, board, d) {
      var r :| 0 <= r < |board| && r - board[r] + n - 1 == d;
      assert r - b[r] + n - 1 == d;
    }
    if d == |board| - col + n - 1 {
      assert |board| - b[|board|] + n - 1 == d;
    }
  }

  /** A new queen in the next row attacks an earlier one exactly when its
      column or one of its two diagonals is already taken. */
  lemma {:induction false} NextQueenSafe(n: int, board: seq<int>, col: int)
    requires PairwiseSafe(board)
    ensures PairwiseSafe(board + [col]) <==>
      col !in board && !OnUp(board, |board| + col) && !OnDown(n, board, |board| - col + n - 1)
  {
    var b := board + [col];
    var row := |board|;
    if PairwiseSafe(b) {
      forall r | 0 <= r < row
        ensures board[r] != col && r + board[r] != row + col && r - board[r] != row - col
      {
        assert NonAttacking(b, r, row);
      }
    }
    if col !in board && !OnUp(board, row + col) && !OnDown(n, board, row - col + n - 1) {
      forall i, j | 0 <= i < j < |b| ensures NonAttacking(b, i, j) {
        if j < row {
          assert NonAttacking(board, i, j);
        } else {
          assert board[i] != col;
          assert i + board[i] != row + col;
          assert i - board[i] + n - 1 != row - col + n - 1;
        }
      }
    }
  }

  /** The least solution through column col of the next row is the least
      extending the board when no solution uses an earlier column there. */
  lemma LeastThroughColumn(n: int, p: seq<int>, col: int, sol: seq<int>)
    requires |p| < n && IsSolution(n, sol) && p + [col] <= sol
    requires forall s :: IsSolution(n, s) && p + [col] <= s ==> LexLeq(sol, s)
    requires forall s :: IsSolution(n, s) && p <= s ==> s[|p|] >= col
    ensures forall s :: IsSolution(n, s) && p <= s ==> LexLeq(sol, s)
  {
    forall s | IsSolution(n, s) && p <= s ensures LexLeq(sol, s) {
      if s[|p|] == col {
        assert p + [col] <= s;
      } else {
        LexAfterColumn(sol, s, p);
      }
    }
  }

  /** A column that is blocked, or through which no solution extends the
      board, is ruled out for the next row. */
  lemma NextColumn(n: int, p: seq<int>, col: int)
    requires |p| < n
    requires forall s :: IsSolution(n, s) && p <= s ==> s[|p|] >= col
    requires !PairwiseSafe(p + [col]) || forall s :: IsSolution(n, s) ==> !(p + [col] <= s)
    ensures forall s :: IsSolution(n, s) && p <= s ==> s[|p|] >= col + 1
  {
    forall s | IsSolution(n, s) && p <= s ensures s[|p|] != col {
      if s[|p|] == col {
        assert p + [col] <= s;
        PrefixSafe(p + [col], s);
      }
    }
  }

  /** The state of one search: the closure of `solve_n_queens_bt`. */
  class BitsetSearch {
    const n: nat
    const cols: array<bool>
    const diag1: array<bool>
    const diag2: array<bool>
    var board: seq<int>
    var solution: seq<int>

    /** The three arrays mirror the partial board exactly, and the partial
        board is a non-attacking placement of its first rows. */
    ghost predicate Valid()
      reads this, cols, diag1, diag2
    {
      && cols.Length == n && diag1.Length == DiagCount(n) && diag2.Length == DiagCount(n)
      && cols != diag1 && cols != diag2 && diag1 != diag2
      && |board| <= n && InBoard(n, board) && PairwiseSafe(board)
      && (forall c :: 0 <= c < n ==> (cols[c] <==> c in board))
      && (forall d :: 0 <= d < DiagCount(n) ==> (diag1[d] <==> OnUp(board, d)))
      && (forall d :: 0 <= d < DiagCount(n) ==> (diag2[d] <==> OnDown(n, board, d)))
    }

    constructor (n: nat)
      ensures Valid() && this.n == n && board == [] && solution == []
      ensures fresh(cols) && fresh(diag1) && fresh(diag2)
    {
      this.n := n;
      cols := new bool[n](_ => false);
      diag1 := new bool[DiagCount(n)](_ => false);
      diag2 := new bool[DiagCount(n)](_ => false);
      board := [];
      solution := [];
    }

    /** The test of the `continue` branch: column col of the next row is
        skipped exactly when a queen there would attack an earlier one. */
    method Blocked(col: int) returns (blocked: bool)
      requires Valid() && |board| < n && 0 <= col < n
      ensures blocked <==> !PairwiseSafe(board + [col])
    {
      var row := |board|;
      blocked := cols[col] || diag1[UpDiagonal(n, row, col)] || diag2[DownDiagonal(n, row, col)];
      NextQueenSafe(n, board, col);
    }

    /** Marks the column and both diagonals of (row, col) and appends col. */
    method PlaceQueen(col: int)
      requires Valid() && |board| < n && 0 <= col < n && PairwiseSafe(board + [col])
      modifies this, cols, diag1, diag2
      ensures Valid() && board == old(board) + [col] && solution == old(solution)
      ensures cols[..] == old(cols[..])[col := true]
      ensures diag1[..] == old(diag1[..])[UpDiagonal(n, |old(board)|, col) := true]
      ensures diag2[..] == old(diag2[..])[DownDiagonal(n, |old(board)|, col) := true]
    {
      var row := |board|;
      cols[col] := true;
      diag1[UpDiagonal(n, row, col)] := true;
      diag2[DownDiagonal(n, row, col)] := true;
      ghost var b := board;
      board := board + [col];
      forall d | 0 <= d < DiagCount(n) ensures diag1[d] <==> OnUp(board, d) {
        OnUpAppend(b, col, d);
      }
      forall d | 0 <= d < DiagCount(n) ensures diag2[d] <==> OnDown(n, board, d) {
        OnDownAppend(n, b, col, d);
      }
    }

    /** Pops the last queen and clears its column and diagonals. */
    method RemoveQueen(col: int)
      requires Valid() && 0 < |board| && board[|board| - 1] == col
      modifies this, cols, diag1, diag2
      ensures Valid() && board == old(board)[..|old(board)| - 1] && solution == old(solution)
      ensures cols[..] == old(cols[..])[col := false]
      ensures diag1[..] == old(diag1[..])[UpDiagonal(n, |old(board)| - 1, col) := false]
      ensures diag2[..] == old(diag2[..])[DownDiagonal(n, |old(board)| - 1, col) := false]
    {
      var row := |board| - 1;
      var b := board[..row];
      assert board == b + [col];
      PrefixSafe(b, board);
      NextQueenSafe(n, b, col);
      cols[col] := false;
      diag1[UpDiagonal(n, row, col)] := false;
      diag2[DownDiagonal(n, row, col)] := false;
      forall d | 0 <= d < DiagCount(n) ensures diag1[d] <==> OnUp(b, d) {
        OnUpAppend(b, col, d);
      }
      forall d | 0 <= d < DiagCount(n) ensures diag2[d] <==> OnDown(n, b, d) {
        OnDownAppend(n, b, col, d);
      }
      board := b;
    }

    /** `backtrack(row)`: on success the solution is the lexicographically
        least full placement extending the board; on failure there is no
        such placement and every piece of state is as it was. */
    method Backtrack(row: nat) returns (found: bool)
      requires Valid() && row == |board| && solution == []
      modifies this, cols, diag1, diag2
      decreases n - row
      ensures Valid()
      ensures found ==> solution == board && IsSolution(n, solution) && old(board) <= solution
      ensures found ==> forall s :: IsSolution(n, s) && old(board) <= s ==> LexLeq(solution, s)
      ensures !found ==> board == old(board) && solution == []
      ensures !found ==> cols[..] == old(cols[..]) && diag1[..] == old(diag1[..]) && diag2[..] == old(diag2[..])
      ensures !found ==> forall s :: IsSolution(n, s) ==> !(old(board) <= s)
    {
      if row == n {
        solution := solution + board;
        forall s | IsSolution(n, s) && board <= s ensures LexLeq(solution, s) {
          assert s == board;
        }
        return true;
      }
      ghost var board0, cols0, up0, down0 := board, cols[..], diag1[..], diag2[..];
      var col := 0;
      while col < n
        invariant 0 <= col <= n
        invariant Valid() && board == board0 && solution == []
        invariant cols[..] == cols0 && diag1[..] == up0 && diag2[..] == down0
        invariant forall s :: IsSolution(n, s) && board0 <= s ==> s[row] >= col
      {
        var blocked := Blocked(col);
        if !blocked {
          PlaceQueen(col);
          found := Backtrack(row + 1);
          if found {
            LeastThroughColumn(n, board0, col, solution);
            return true;
          }
          RemoveQueen(col);
          assert board == board0;
        }
        NextColumn(n, board0, col);
        col := col + 1;
      }
      found := false;
      forall s | IsSolution(n, s) ensures !(board0 <= s) {
      }
    }
  }

  /** `solve_n_queens_bt(n)`: the lexicographically least solution, or None
      when there is none, and also for n = 0, whose empty solution the source
      reports as None, and for negative n, where every list is empty and the
      first call fails at once. */
  method SolveBt(n: int) returns (r: Option<seq<int>>)
    ensures r.Some? ==> IsSolution(n, r.value)
    ensures r.Some? ==> forall s :: IsSolution(n, s) ==> LexLeq(r.value, s)
    ensures r.None? <==> n <= 0 || forall s :: !IsSolution(n, s)
    ensures n == 2 || n == 3 ==> r.None?
  {
    SmallBoards();
    if n < 0 {
      return None;
    }
    var search := new BitsetSearch(n);
    var found := search.Backtrack(0);
    if search.solution != [] {
      r := Some(search.solution);
    } else {
      r := None;
    }
    if found && n > 0 {
      assert |search.solution| == n;
    }
    if !found {
      forall s | IsSolution(n, s) ensures false {
      }
    }
  }
}
