/** The problem shared by the three solvers: a board is a sequence of column
    indices, one per row, and it is a solution when no two queens share a
    column or a diagonal. */
module Queens {

  datatype Option<T> = None | Some(value: T)

  function Abs(x: int): nat
  {
    if x < 0 then -x else x
  }

  /** The queens of rows i < j share neither a column nor a diagonal. */
  predicate NonAttacking(b: seq<int>, i: int, j: int)
    requires 0 <= i < j < |b|
  {
    b[i] != b[j] && Abs(b[i] - b[j]) != j - i
  }

  predicate InBoard(n: int, b: seq<int>)
  {
    forall i :: 0 <= i < |b| ==> 0 <= b[i] < n
  }

  predicate PairwiseSafe(b: seq<int>)
  {
    forall i, j :: 0 <= i < j < |b| ==> NonAttacking(b, i, j)
  }

  /** A full placement of n non-attacking queens. */
  predicate IsSolution(n: int, b: seq<int>)
  {
    |b| == n && InBoard(n, b) && PairwiseSafe(b)
  }

  /** a comes strictly before b in lexicographic order. */
  predicate LexLess(a: seq<int>, b: seq<int>)
  {
    exists k :: 0 <= k < |a| && k < |b| && a[..k] == b[..k] && a[k] < b[k]
  }

  predicate LexLeq(a: seq<int>, b: seq<int>)
  {
    a == b || LexLess(a, b)
  }

  lemma {:induction false} PrefixSafe(p: seq<int>, s: seq<int>)
    requires p <= s && PairwiseSafe(s)
    ensures PairwiseSafe(p)
  {
    forall i, j | 0 <= i < j < |p| ensures NonAttacking(p, i, j) {
      assert NonAttacking(s, i, j);
    }
  }

  /** The solution that agrees with a prefix and then puts its next queen
      further right is lexicographically larger than one that puts it
      further left. */
  lemma LexAfterColumn(sol: seq<int>, s: seq<int>, p: seq<int>)
    requires p <= sol && p <= s && |p| < |sol| && |p| < |s|
    requires sol[|p|] < s[|p|]
    ensures LexLess(sol, s)
  {
    var k := |p|;
    assert sol[..k] == p == s[..k];
  }

  /** Two or three queens on a board of that width always attack each other. */
  lemma {:induction false} TooSmallToSolve(s: seq<int>)
    requires |s| == 2 || |s| == 3
    requires InBoard(|s|, s)
    ensures !PairwiseSafe(s)
  {
    if |s| == 2 {
      assert !NonAttacking(s, 0, 1);
    } else {
      assert !NonAttacking(s, 0, 1) || !NonAttacking(s, 1, 2) || !NonAttacking(s, 0, 2);
    }
  }

  /** No board of size 2 or 3 is a solution; sizes 1, 4 and 8 have one. */
  lemma {:induction false} SmallBoards()
    ensures forall s :: !IsSolution(2, s)
    ensures forall s :: !IsSolution(3, s)
    ensures IsSolution(1, [0])
    ensures IsSolution(4, [1, 3, 0, 2])
    ensures IsSolution(8, [0, 4, 7, 5, 2, 6, 1, 3])
  {
    forall s | (|s| == 2 || |s| == 3) && InBoard(|s|, s) ensures !PairwiseSafe(s) {
      TooSmallToSolve(s);
    }
    var e := [0, 4, 7, 5, 2, 6, 1, 3];
    assert PairwiseSafe(e) by {
      forall i, j | 0 <= i < j < 8 ensures NonAttacking(e, i, j) {
      }
    }
  }

  /** The column indices 0, 1, ..., n-1 in order. */
  function Iota(n: nat): (r: seq<int>)
    ensures |r| == n
  {
    if n == 0 then [] else Iota(n - 1) + [n - 1]
  }

  /** b holds every column of an n-board exactly once. */
  predicate IsPermutation(b: seq<int>, n: nat)
  {
    multiset(b) == multiset(Iota(n))
  }

  lemma {:induction false} IotaCount(n: nat, v: int)
    ensures multiset(Iota(n))[v] == if 0 <= v < n then 1 else 0
  {
    if n > 0 {
      IotaCount(n - 1, v);
      assert Iota(n) == Iota(n - 1) + [n - 1];
    }
  }

  lemma TwiceCounted(b: seq<int>, i: int, j: int)
    requires 0 <= i < j < |b| && b[i] == b[j]
    ensures multiset(b)[b[i]] >= 2
  {
    assert b == b[..i] + [b[i]] + b[i + 1..j] + [b[j]] + b[j + 1..];
  }

  /** A permutation of [0, n) has length n, values in [0, n) and no
      repeated column. */
  lemma PermutationFacts(b: seq<int>, n: nat)
    requires IsPermutation(b, n)
    ensures |b| == n && InBoard(n, b)
    ensures forall i, j :: 0 <= i < j < |b| ==> b[i] != b[j]
  {
    assert |b| == |multiset(b)| == |multiset(Iota(n))| == n;
    forall i | 0 <= i < |b| ensures 0 <= b[i] < n {
      assert b[i] in multiset(b);
      IotaCount(n, b[i]);
    }
    forall i, j | 0 <= i < j < |b| ensures b[i] != b[j] {
      if b[i] == b[j] {
        TwiceCounted(b, i, j);
        IotaCount(n, b[i]);
      }
    }
  }

  /** The position of the first smallest element: what Python's `min` with a
      key and torch's `argmax` of negated values return. */
  function FirstArgMin(xs: seq<int>): (k: nat)
    requires |xs| > 0
    ensures k < |xs|
    ensures forall i :: 0 <= i < |xs| ==> xs[k] <= xs[i]
    ensures forall i :: 0 <= i < k ==> xs[k] < xs[i]
  {
    if |xs| == 1 then 0
    else
      var k := FirstArgMin(xs[..|xs| - 1]);
      if xs[|xs| - 1] < xs[k] then |xs| - 1 else k
  }
}
