/** The constraint solver of main.py: arc-consistency (AC-3) pruning of the
    row -> set-of-columns domains, then depth-first search that picks the row
    with the fewest remaining values and tries its values in ascending order. */
module Mac {
  import opened Queens

  type Domains = map<int, set<int>>
  type Arc = (int, int)

  /** `is_consistent`: queens at (xi, vi) and (xj, vj) share no column and
      no diagonal. */
  predicate IsConsistent(xi: int, vi: int, xj: int, vj: int)
  {
    if vi == vj then false
    else if Abs(xi - xj) == Abs(vi - vj) then false
    else true
  }

  /** The constraint does not care which of the two queens comes first. */
  lemma ConsistentSymmetric(xi: int, vi: int, xj: int, vj: int)
    ensures IsConsistent(xi, vi, xj, vj) <==> IsConsistent(xj, vj, xi, vi)
    ensures !IsConsistent(xi, vi, xj, vj) <==> vi == vj || Abs(xi - xj) == Abs(vi - vj)
  {
  }

  /** The pairwise constraint is the board's non-attacking condition. */
  lemma ConsistentIsNonAttacking(b: seq<int>, i: int, j: int)
    requires 0 <= i < j < |b|
    ensures IsConsistent(i, b[i], j, b[j]) <==> NonAttacking(b, i, j)
  {
  }

  /** The rows (and the columns) of an n-board. */
  function Range(n: int): (r: set<int>)
    ensures forall k :: k in r <==> 0 <= k < n
  {
    if n <= 0 then {} else Range(n - 1) + {n - 1}
  }

  lemma {:induction false} RangeSize(n: nat)
    ensures |Range(n)| == n
  {
    if n > 0 {
      RangeSize(n - 1);
    }
  }

  lemma SubsetSize(a: set<int>, b: set<int>)
    requires a <= b
    ensures |b| == |a| + |b - a|
  {
    assert b == a + (b - a);
  }

  /** `{i: set(range(n)) for i in range(n)}`. */
  function FullDomains(n: nat): (d: Domains)
    ensures d.Keys == Range(n)
    ensures forall k :: k in d ==> d[k] == Range(n)
  {
    map k | k in Range(n) :: Range(n)
  }

  /** The domain map has the rows as keys and only columns as values. */
  ghost predicate WellShaped(n: nat, d: Domains)
  {
    d.Keys == Range(n) && forall k, v :: k in d && v in d[k] ==> 0 <= v < n
  }

  /** Some value of dj is consistent with vi: the `any(...)` of `revise`. */
  predicate HasSupport(xi: int, vi: int, xj: int, dj: set<int>)
  {
    exists vj :: vj in dj && IsConsistent(xi, vi, xj, vj)
  }

  /** The values of domains[xi] that `revise` keeps. */
  ghost function Revised(d: Domains, xi: int, xj: int): set<int>
    requires xi in d && xj in d
  {
    set vi | vi in d[xi] && HasSupport(xi, vi, xj, d[xj])
  }

  /** Arc (xi, xj) is consistent: every value of xi has a support in xj. */
  ghost predicate ArcConsistent(d: Domains, xi: int, xj: int)
    requires xi in d && xj in d
  {
    forall vi :: vi in d[xi] ==> HasSupport(xi, vi, xj, d[xj])
  }

  /** Every row of board s takes a value of its domain. */
  ghost predicate WithinDomains(d: Domains, s: seq<int>)
  {
    forall k :: 0 <= k < |s| ==> k in d && s[k] in d[k]
  }

  /** Revising never removes the value of a solution that lies within the
      domains: that value is supported by the solution's own value. */
  lemma ReviseKeepsSolutions(n: nat, d: Domains, xi: int, xj: int, s: seq<int>)
    requires xi in d && xj in d && 0 <= xi < n && 0 <= xj < n && xi != xj
    requires IsSolution(n, s) && WithinDomains(d, s)
    ensures WithinDomains(d[xi := Revised(d, xi, xj)], s)
  {
    if xi < xj {
      assert NonAttacking(s, xi, xj);
    } else {
      assert NonAttacking(s, xj, xi);
    }
    assert IsConsistent(xi, s[xi], xj, s[xj]);
    assert s[xi] in Revised(d, xi, xj);
  }

  /** After revising (xi, xj) that arc is consistent, and every arc that was
      consistent still is, except the arcs (k, xi) with k != xj when
      domains[xi] shrank; (xj, xi) survives because the constraint is
      symmetric. */
  lemma {:induction false} ReviseKeepsArcs(n: nat, d: Domains, xi: int, xj: int)
    requires WellShaped(n, d) && 0 <= xi < n && 0 <= xj < n && xi != xj
    ensures ArcConsistent(d[xi := Revised(d, xi, xj)], xi, xj)
    ensures forall i, j ::
      (0 <= i < n && 0 <= j < n && i != j && ArcConsistent(d, i, j) &&
       (j != xi || i == xj || Revised(d, xi, xj) == d[xi]))
      ==> ArcConsistent(d[xi := Revised(d, xi, xj)], i, j)
  {
    var r := Revised(d, xi, xj);
    var d' := d[xi := r];
    forall vi | vi in d'[xi] ensures HasSupport(xi, vi, xj, d'[xj]) {
      assert d'[xj] == d[xj];
    }
    forall i, j | 0 <= i < n && 0 <= j < n && i != j && ArcConsistent(d, i, j) &&
      (j != xi || i == xj || r == d[xi])
      ensures ArcConsistent(d', i, j)
    {
      forall v | v in d'[i] ensures HasSupport(i, v, j, d'[j]) {
        assert v in d[i];
        var w :| w in d[j] && IsConsistent(i, v, j, w);
        if j == xi && i == xj && r != d[xi] {
          ConsistentSymmetric(i, v, j, w);
          assert w in r;
        }
      }
    }
  }

  /** One turn of the AC-3 loop keeps "every arc off the queue is
      consistent": the popped arc becomes consistent, and when xi's domain
      shrank the arcs (k, xi) that might have lost support are back on the
      queue. */
  lemma {:induction false} RequeueKeepsArcs(n: nat, d: Domains, xi: int, xj: int, q0: seq<Arc>, q: seq<Arc>)
    requires WellShaped(n, d) && 0 <= xi < n && 0 <= xj < n && xi != xj
    requires q0 != [] && q0[0] == (xi, xj)
    requires forall i, j :: 0 <= i < n && 0 <= j < n && i != j && (i, j) !in q0 ==> ArcConsistent(d, i, j)
    requires q == if Revised(d, xi, xj) == d[xi] then q0[1..] else q0[1..] + Requeued(xi, xj, n)
    ensures forall i, j :: 0 <= i < n && 0 <= j < n && i != j && (i, j) !in q ==>
      ArcConsistent(d[xi := Revised(d, xi, xj)], i, j)
  {
    ReviseKeepsArcs(n, d, xi, xj);
    forall i, j | 0 <= i < n && 0 <= j < n && i != j && (i, j) !in q
      ensures ArcConsistent(d[xi := Revised(d, xi, xj)], i, j)
    {
      if (i, j) != (xi, xj) {
        assert q0 == [q0[0]] + q0[1..];
        assert (i, j) !in q0[1..];
        assert (i, j) !in q0;
      }
    }
  }

  /** Every domain of d is a subset of the one in d0. */
  ghost predicate Shrunk(d0: Domains, d: Domains)
  {
    forall k :: k in d ==> k in d0 && d[k] <= d0[k]
  }

  /** No solution lying within d0 was pruned from d. */
  ghost predicate Sound(n: nat, d0: Domains, d: Domains)
  {
    forall s :: IsSolution(n, s) && WithinDomains(d0, s) ==> WithinDomains(d, s)
  }

  /** What holds at the top of the `while queue` loop: domains only shrank
      from d0 and stay non-empty, nothing sound was pruned, the queue holds
      arcs of the board and every arc off the queue is consistent. */
  ghost predicate QueueInvariant(n: nat, d0: Domains, d: Domains, queue: seq<Arc>)
  {
    && WellShaped(n, d) && Shrunk(d0, d) && Sound(n, d0, d)
    && (forall k :: k in d ==> d[k] != {})
    && (forall a :: a in queue ==> 0 <= a.0 < n && 0 <= a.1 < n && a.0 != a.1)
    && (forall i, j :: 0 <= i < n && 0 <= j < n && i != j && (i, j) !in queue ==> ArcConsistent(d, i, j))
  }

  /** Revising one arc keeps the domains well shaped, shrinking and sound. */
  lemma ReviseKeepsShape(n: nat, d0: Domains, d: Domains, xi: int, xj: int)
    requires WellShaped(n, d) && Shrunk(d0, d) && Sound(n, d0, d)
    requires 0 <= xi < n && 0 <= xj < n && xi != xj
    ensures WellShaped(n, d[xi := Revised(d, xi, xj)])
    ensures Shrunk(d0, d[xi := Revised(d, xi, xj)])
    ensures Sound(n, d0, d[xi := Revised(d, xi, xj)])
  {
    forall s | IsSolution(n, s) && WithinDomains(d0, s)
      ensures WithinDomains(d[xi := Revised(d, xi, xj)], s)
    {
      ReviseKeepsSolutions(n, d, xi, xj, s);
    }
  }

  /** A turn of the loop that does not empty a domain re-establishes the
      loop invariant for the new queue. */
  lemma ArcStepKeepsInvariant(n: nat, d0: Domains, d: Domains, xi: int, xj: int, queue: seq<Arc>, rest: seq<Arc>)
    requires queue != [] && queue[0] == (xi, xj) && QueueInvariant(n, d0, d, queue)
    requires Revised(d, xi, xj) != {}
    requires rest == if Revised(d, xi, xj) == d[xi] then queue[1..] else queue[1..] + Requeued(xi, xj, n)
    ensures QueueInvariant(n, d0, d[xi := Revised(d, xi, xj)], rest)
  {
    assert queue[0] in queue;
    ReviseKeepsShape(n, d0, d, xi, xj);
    RequeueKeepsArcs(n, d, xi, xj, queue, rest);
    forall a | a in rest ensures 0 <= a.0 < n && 0 <= a.1 < n && a.0 != a.1 {
      if a in queue[1..] {
        assert a in queue;
      }
    }
  }

  /** Sum of the domain sizes of rows 0..k-1: the measure that makes AC-3
      terminate. */
  ghost function TotalSize(d: Domains, k: nat): nat
    requires forall i :: 0 <= i < k ==> i in d
  {
    if k == 0 then 0 else TotalSize(d, k - 1) + |d[k - 1]|
  }

  /** Replacing one domain by a strict subset decreases the total. */
  lemma {:induction false} ShrinkTotal(d: Domains, xi: int, s: set<int>, k: nat)
    requires forall i :: 0 <= i < k ==> i in d
    requires xi in d && s < d[xi]
    ensures xi < k && 0 <= xi ==> TotalSize(d[xi := s], k) < TotalSize(d, k)
    ensures !(0 <= xi < k) ==> TotalSize(d[xi := s], k) == TotalSize(d, k)
  {
    if k > 0 {
      ShrinkTotal(d, xi, s, k - 1);
      if xi == k - 1 {
        SubsetSize(s, d[xi]);
        assert s != d[xi];
      }
    }
  }

  /** Row i's arcs (i, j) for j in [j0, n), j != i. */
  function RowArcs(n: nat, i: int, j0: nat): (arcs: seq<Arc>)
    decreases n - j0
    ensures forall a :: a in arcs <==> a.0 == i && j0 <= a.1 < n && a.1 != i
  {
    if j0 >= n then [] else (if i != j0 then [(i, j0)] else []) + RowArcs(n, i, j0 + 1)
  }

  /** `[(i, j) for i in range(i0, n) for j in range(n) if i != j]`. */
  function ArcsFrom(n: nat, i0: nat): (arcs: seq<Arc>)
    decreases n - i0
    ensures forall a :: a in arcs <==> i0 <= a.0 < n && 0 <= a.1 < n && a.0 != a.1
  {
    if i0 >= n then [] else RowArcs(n, i0, 0) + ArcsFrom(n, i0 + 1)
  }

  /** The arcs (k, xi), k in [0, m), k not in {xi, xj}, in the order the
      re-enqueueing loop appends them. */
  function Requeued(xi: int, xj: int, m: nat): (arcs: seq<Arc>)
    ensures forall a :: a in arcs <==> a.1 == xi && 0 <= a.0 < m && a.0 != xi && a.0 != xj
  {
    if m == 0 then []
    else Requeued(xi, xj, m - 1) + (if m - 1 != xi && m - 1 != xj then [(m - 1, xi)] else [])
  }

  /** The `for xk in range(n)` loop that appends the arcs (xk, xi). */
  method Requeue(n: nat, queue: seq<Arc>, xi: int, xj: int) returns (q: seq<Arc>)
    ensures q == queue + Requeued(xi, xj, n)
  {
    q := queue;
    for xk := 0 to n
      invariant q == queue + Requeued(xi, xj, xk)
    {
      if xk != xi && xk != xj {
        q := q + [(xk, xi)];
      }
    }
  }

  /** Every pair of distinct assigned rows is consistent. */
  ghost predicate ConsistentAssignment(e: map<int, int>)
  {
    forall i, j :: i in e && j in e && i != j ==> IsConsistent(i, e[i], j, e[j])
  }

  /** Every assigned row carries a value of its domain. */
  ghost predicate AssignedWithin(d: Domains, e: map<int, int>)
  {
    forall k :: k in e ==> k in d && e[k] in d[k]
  }

  /** e agrees with a on every row a assigns. */
  ghost predicate Extends(e: map<int, int>, a: map<int, int>)
  {
    forall k :: k in a ==> k in e && e[k] == a[k]
  }

  /** A full consistent assignment drawn from the domains. */
  ghost predicate FullIn(n: nat, d: Domains, e: map<int, int>)
  {
    e.Keys == Range(n) && AssignedWithin(d, e) && ConsistentAssignment(e)
  }

  ghost function AsBoard(e: map<int, int>, n: nat): (b: seq<int>)
    requires Range(n) <= e.Keys
    ensures |b| == n && forall k :: 0 <= k < n ==> b[k] == e[k]
  {
    seq(n, k requires 0 <= k < n => e[k])
  }

  ghost function AsMap(s: seq<int>): (e: map<int, int>)
    ensures e.Keys == Range(|s|) && forall k :: 0 <= k < |s| ==> e[k] == s[k]
  {
    map k | 0 <= k < |s| :: s[k]
  }

  /** A full consistent assignment over domains of columns is a solution. */
  lemma AssignmentIsSolution(n: nat, d: Domains, e: map<int, int>)
    requires WellShaped(n, d) && FullIn(n, d, e)
    ensures IsSolution(n, AsBoard(e, n))
  {
    var b := AsBoard(e, n);
    forall i | 0 <= i < n ensures 0 <= b[i] < n {
      assert i in Range(n);
      assert e[i] in d[i];
    }
    forall i, j | 0 <= i < j < n ensures NonAttacking(b, i, j) {
      assert i in Range(n) && j in Range(n);
      assert IsConsistent(i, e[i], j, e[j]);
    }
    assert InBoard(n, b);
    assert PairwiseSafe(b);
  }

  /** A solution lying within the domains is a full consistent assignment. */
  lemma SolutionIsAssignment(n: nat, d: Domains, s: seq<int>)
    requires IsSolution(n, s) && WithinDomains(d, s)
    ensures FullIn(n, d, AsMap(s))
  {
    var e := AsMap(s);
    forall i, j | i in e && j in e && i != j ensures IsConsistent(i, e[i], j, e[j]) {
      if i < j {
        assert NonAttacking(s, i, j);
      } else {
        assert NonAttacking(s, j, i);
      }
    }
  }

  /** The rows in [k, n) that `a` does not assign, in dictionary order. */
  function Unassigned(n: nat, a: map<int, int>, k: nat): (r: seq<int>)
    decreases n - k
    ensures forall v :: v in r <==> k <= v < n && v !in a
    ensures forall i :: 0 <= i < |r| ==> k <= r[i]
    ensures forall i, j :: 0 <= i < j < |r| ==> r[i] < r[j]
  {
    if k >= n then []
    else
      var tail := Unassigned(n, a, k + 1);
      assert forall i :: 0 <= i < |tail| ==> tail[i] in tail;
      (if k in a then [] else [k]) + tail
  }

  lemma UnassignedRows(n: nat, a: map<int, int>)
    requires exists k :: 0 <= k < n && k !in a
    ensures |Unassigned(n, a, 0)| > 0
    ensures forall i :: 0 <= i < |Unassigned(n, a, 0)| ==> 0 <= Unassigned(n, a, 0)[i] < n
  {
    var rows := Unassigned(n, a, 0);
    forall i | 0 <= i < |rows| ensures 0 <= rows[i] < n {
      assert rows[i] in rows;
    }
    var w :| 0 <= w < n && w !in a;
    assert w in rows;
  }

  /** The domain sizes of the given rows, in order: the keys `min` compares. */
  function DomainSizes(d: Domains, rows: seq<int>): (sizes: seq<int>)
    requires forall i :: 0 <= i < |rows| ==> rows[i] in d
    ensures |sizes| == |rows|
    ensures forall i :: 0 <= i < |rows| ==> sizes[i] == |d[rows[i]]|
  {
    if rows == [] then [] else [|d[rows[0]]|] + DomainSizes(d, rows[1..])
  }

  /** `select_unassigned_var`: an unassigned row with the fewest remaining
      values, the lowest such row on a tie. */
  function SelectUnassignedVar(n: nat, d: Domains, a: map<int, int>): (v: int)
    requires d.Keys == Range(n)
    requires exists k :: 0 <= k < n && k !in a
    ensures 0 <= v < n && v !in a
    ensures forall u :: 0 <= u < n && u !in a ==> |d[v]| <= |d[u]|
    ensures forall u :: 0 <= u < v && u !in a ==> |d[v]| < |d[u]|
  {
    var rows := Unassigned(n, a, 0);
    UnassignedRows(n, a);
    var sizes := DomainSizes(d, rows);
    var k := FirstArgMin(sizes);
    var v := rows[k];
    SelectFacts(n, d, a, rows, sizes, k, v);
    v
  }

  lemma SelectFacts(n: nat, d: Domains, a: map<int, int>, rows: seq<int>, sizes: seq<int>, k: nat, v: int)
    requires d.Keys == Range(n) && rows == Unassigned(n, a, 0)
    requires forall i :: 0 <= i < |rows| ==> 0 <= rows[i] < n
    requires |sizes| == |rows| && forall i :: 0 <= i < |rows| ==> sizes[i] == |d[rows[i]]|
    requires k < |sizes| && (forall i :: 0 <= i < |sizes| ==> sizes[k] <= sizes[i])
    requires forall i :: 0 <= i < k ==> sizes[k] < sizes[i]
    requires v == rows[k]
    ensures 0 <= v < n && v !in a
    ensures forall u :: 0 <= u < n && u !in a ==> |d[v]| <= |d[u]|
    ensures forall u :: 0 <= u < v && u !in a ==> |d[v]| < |d[u]|
  {
    assert rows[k] in rows;
    forall u | 0 <= u < n && u !in a
      ensures |d[v]| <= |d[u]| && (u < v ==> |d[v]| < |d[u]|)
    {
      assert u in rows;
      var i :| 0 <= i < |rows| && rows[i] == u;
      SelectedSizes(rows, sizes, k, i);
    }
  }

  lemma SelectedSizes(rows: seq<int>, sizes: seq<int>, k: nat, i: nat)
    requires forall i, j :: 0 <= i < j < |rows| ==> rows[i] < rows[j]
    requires |sizes| == |rows| && k < |sizes| && i < |sizes|
    requires forall j :: 0 <= j < |sizes| ==> sizes[k] <= sizes[j]
    requires forall j :: 0 <= j < k ==> sizes[k] < sizes[j]
    ensures sizes[k] <= sizes[i] && (rows[i] < rows[k] ==> sizes[k] < sizes[i])
  {
    if rows[i] < rows[k] {
      assert i < k;
    }
  }

  /** The `all(...)` test: value for row v is consistent with every
      assigned row. */
  predicate ConsistentWith(v: int, value: int, a: map<int, int>)
  {
    forall other :: other in a ==> IsConsistent(v, value, other, a[other])
  }

  /** Every full consistent assignment from d that extends a puts row v at
      column `value` or further right. */
  ghost predicate NoneBelow(n: nat, d: Domains, a: map<int, int>, v: int, value: int)
  {
    forall e :: FullIn(n, d, e) && Extends(e, a) ==> v in e && e[v] >= value
  }

  /** `len(assignment) == n` with every assigned row a row of the board:
      every row is assigned, so the assignment is full. */
  lemma FullyAssigned(n: nat, d: Domains, a: map<int, int>)
    requires WellShaped(n, d) && AssignedWithin(d, a) && ConsistentAssignment(a)
    requires |a| == n
    ensures FullIn(n, d, a)
  {
    RangeSize(n);
    SubsetSize(a.Keys, Range(n));
    assert Range(n) - a.Keys == {};
    forall k | k in Range(n) ensures k in a {
      assert k !in Range(n) - a.Keys;
    }
  }

  /** Fewer than n assigned rows leave an unassigned one. */
  /** An assignment of rows that covers every row has n entries. */
  lemma CoversAllRows(n: nat, a: map<int, int>)
    requires a.Keys <= Range(n)
    ensures (forall k :: 0 <= k < n ==> k in a) ==> |a| == n
  {
    if forall k :: 0 <= k < n ==> k in a {
      assert a.Keys == Range(n);
      RangeSize(n);
    }
  }

  lemma SomeUnassigned(n: nat, a: map<int, int>)
    requires a.Keys <= Range(n) && |a| != n
    ensures exists k :: 0 <= k < n && k !in a
  {
    CoversAllRows(n, a);
  }

  /** Giving row v a value of its domain that is consistent with every
      assigned row keeps the assignment consistent and within the domains. */
  lemma ExtendAssignment(n: nat, d: Domains, a: map<int, int>, v: int, value: int)
    requires AssignedWithin(d, a) && ConsistentAssignment(a)
    requires v in d && v !in a && value in d[v] && ConsistentWith(v, value, a)
    ensures AssignedWithin(d, a[v := value]) && ConsistentAssignment(a[v := value])
  {
    var a' := a[v := value];
    forall i, j | i in a' && j in a' && i != j ensures IsConsistent(i, a'[i], j, a'[j]) {
      if i == v {
        assert IsConsistent(v, value, j, a[j]);
      } else if j == v {
        assert IsConsistent(v, value, i, a[i]);
        ConsistentSymmetric(v, value, i, a[i]);
      }
    }
  }

  /** A value outside row v's domain is never the column of v. */
  lemma SkipAbsent(n: nat, d: Domains, a: map<int, int>, v: int, value: int)
    requires 0 <= v < n && v in d && NoneBelow(n, d, a, v, value) && value !in d[v]
    ensures NoneBelow(n, d, a, v, value + 1)
  {
    forall e | FullIn(n, d, e) && Extends(e, a) ensures v in e && e[v] >= value + 1 {
      assert e[v] in d[v];
    }
  }

  /** A value that conflicts with an assigned row is never the column of v. */
  lemma SkipInconsistent(n: nat, d: Domains, a: map<int, int>, v: int, value: int)
    requires 0 <= v < n && v !in a && NoneBelow(n, d, a, v, value) && !ConsistentWith(v, value, a)
    ensures NoneBelow(n, d, a, v, value + 1)
  {
    var other :| other in a && !IsConsistent(v, value, other, a[other]);
    forall e | FullIn(n, d, e) && Extends(e, a) ensures v in e && e[v] >= value + 1 {
      assert IsConsistent(v, e[v], other, e[other]);
    }
  }

  /** A value whose recursive search failed is never the column of v. */
  lemma SkipFailed(n: nat, d: Domains, a: map<int, int>, v: int, value: int)
    requires 0 <= v < n && NoneBelow(n, d, a, v, value)
    requires forall e :: FullIn(n, d, e) ==> !Extends(e, a[v := value])
    ensures NoneBelow(n, d, a, v, value + 1)
  {
    forall e | FullIn(n, d, e) && Extends(e, a) ensures v in e && e[v] >= value + 1 {
      assert Extends(e, a[v := e[v]]);
    }
  }

  /** No full assignment extending a gives row v a column at or beyond n,
      so once every column is ruled out there is none at all. */
  lemma NoneAtAll(n: nat, d: Domains, a: map<int, int>, v: int)
    requires WellShaped(n, d) && 0 <= v < n && NoneBelow(n, d, a, v, n)
    ensures forall e :: FullIn(n, d, e) ==> !Extends(e, a)
  {
    forall e | FullIn(n, d, e) ensures !Extends(e, a) {
      assert v in Range(n);
      assert e[v] in d[v];
    }
  }

  /** The solver's mutable state: the `domains` dictionary that `revise`
      shrinks in place and the `assignment` dictionary that `backtrack_mac`
      extends and undoes. */
  class MacSearch {
    const n: nat
    var domains: Domains
    var assignment: map<int, int>

    constructor (n: nat)
      ensures this.n == n && domains == FullDomains(n) && assignment == map[]
    {
      this.n := n;
      domains := FullDomains(n);
      assignment := map[];
    }

    /** `revise(domains, xi, xj)`: keeps exactly the values of xi that have
        a support in xj, and reports whether anything was removed. The
        values of domains[xi] are visited in ascending order, the order in
        which a set of small non-negative integers is iterated. */
    method Revise(xi: int, xj: int) returns (revised: bool)
      requires WellShaped(n, domains) && xi in domains && xj in domains
      modifies this
      ensures domains == old(domains)[xi := Revised(old(domains), xi, xj)]
      ensures revised <==> domains[xi] < old(domains)[xi]
      ensures !revised ==> domains == old(domains)
      ensures assignment == old(assignment)
    {
      revised := false;
      var toRemove: set<int> := {};
      ghost var removed := 0;
      for v := 0 to n
        invariant domains == old(domains) && assignment == old(assignment)
        invariant toRemove == set w | w in domains[xi] && w < v && !HasSupport(xi, w, xj, domains[xj])
        invariant revised ==> removed in toRemove
        invariant !revised ==> toRemove == {}
      {
        if v in domains[xi] && !HasSupport(xi, v, xj, domains[xj]) {
          toRemove := toRemove + {v};
          removed := v;
          revised := true;
        }
      }
      assert domains[xi] - toRemove == Revised(domains, xi, xj);
      if revised {
        assert removed !in domains[xi] - toRemove;
      } else {
        assert domains[xi] - toRemove == domains[xi];
      }
      domains := domains[xi := domains[xi] - toRemove];
    }

    /** One turn of the `while queue` loop: pops an arc, revises it, stops
        if xi's domain became empty, and otherwise re-enqueues the arcs
        (xk, xi) when xi's domain shrank. */
    method ProcessArc(ghost d0: Domains, queue: seq<Arc>) returns (rest: seq<Arc>, emptied: bool)
      requires queue != [] && QueueInvariant(n, d0, domains, queue)
      modifies this
      ensures assignment == old(assignment)
      ensures WellShaped(n, domains) && Shrunk(d0, domains) && Sound(n, d0, domains)
      ensures domains == old(domains)[queue[0].0 := Revised(old(domains), queue[0].0, queue[0].1)]
      ensures emptied <==> domains[queue[0].0] == {}
      ensures emptied ==> exists k :: k in domains && domains[k] == {}
      ensures !emptied ==>
        rest == if domains == old(domains) then queue[1..] else queue[1..] + Requeued(queue[0].0, queue[0].1, n)
      ensures !emptied ==> QueueInvariant(n, d0, domains, rest)
      ensures !emptied ==>
        TotalSize(domains, n) < TotalSize(old(domains), n) || (domains == old(domains) && rest == queue[1..])
    {
      var xi, xj := queue[0].0, queue[0].1;
      assert queue[0] in queue;
      ghost var before := domains;
      rest := queue[1..];
      ReviseKeepsShape(n, d0, before, xi, xj);
      var revised := Revise(xi, xj);
      emptied := false;
      if revised {
        if domains[xi] == {} {
          return rest, true;
        }
        assert domains == before[xi := domains[xi]];
        ShrinkTotal(before, xi, domains[xi], n);
        rest := Requeue(n, rest, xi, xj);
      }
      ArcStepKeepsInvariant(n, d0, before, xi, xj, queue, rest);
    }

    /** The `while queue` loop of `solve_n_queens_mac_optimized`: runs AC-3
        from the queue of all arcs. On success every arc is consistent and no
        domain is empty; on failure some domain is empty. Either way domains
        only shrank and no solution lying within them was pruned. */
    method Propagate() returns (consistent: bool)
      requires WellShaped(n, domains) && forall k :: k in domains ==> domains[k] != {}
      modifies this
      ensures WellShaped(n, domains) && assignment == old(assignment)
      ensures Shrunk(old(domains), domains) && Sound(n, old(domains), domains)
      ensures consistent ==> forall k :: k in domains ==> domains[k] != {}
      ensures consistent ==> forall i, j :: 0 <= i < n && 0 <= j < n && i != j ==> ArcConsistent(domains, i, j)
      ensures !consistent ==> exists k :: k in domains && domains[k] == {}
    {
      ghost var d0 := domains;
      var queue := ArcsFrom(n, 0);
      while queue != []
        invariant assignment == old(assignment)
        invariant QueueInvariant(n, d0, domains, queue)
        decreases TotalSize(domains, n), |queue|
      {
        var emptied;
        queue, emptied := ProcessArc(d0, queue);
        if emptied {
          return false;
        }
      }
      return true;
    }

    /** `backtrack_mac`: on success the assignment is a full consistent
        assignment drawn from the domains that extends the one on entry; on
        failure there is none and the assignment is as it was. */
    method BacktrackMac() returns (found: bool)
      requires WellShaped(n, domains) && AssignedWithin(domains, assignment)
      requires ConsistentAssignment(assignment)
      modifies this
      decreases domains.Keys - assignment.Keys, 1
      ensures domains == old(domains)
      ensures found ==> FullIn(n, domains, assignment) && Extends(assignment, old(assignment))
      ensures !found ==> assignment == old(assignment)
      ensures !found ==> forall e :: FullIn(n, domains, e) ==> !Extends(e, old(assignment))
    {
      if |assignment| == n {
        FullyAssigned(n, domains, assignment);
        return true;
      }
      assert assignment.Keys <= Range(n);
      SomeUnassigned(n, assignment);
      var v := SelectUnassignedVar(n, domains, assignment);
      ghost var a0 := assignment;
      for value := 0 to n
        invariant domains == old(domains) && assignment == a0
        invariant NoneBelow(n, domains, a0, v, value)
      {
        found := TryValue(v, value);
        if found {
          return true;
        }
      }
      NoneAtAll(n, domains, a0, v);
      return false;
    }

    /** One turn of the `for value in sorted(domains[var])` loop: when value
        is in var's domain and consistent with the assignment, assign it,
        search on, and undo the assignment if that fails. */
    method TryValue(v: int, value: int) returns (found: bool)
      requires WellShaped(n, domains) && AssignedWithin(domains, assignment)
      requires ConsistentAssignment(assignment)
      requires 0 <= v < n && v !in assignment
      requires NoneBelow(n, domains, assignment, v, value)
      modifies this
      decreases domains.Keys - assignment.Keys, 0
      ensures domains == old(domains)
      ensures found ==> FullIn(n, domains, assignment) && Extends(assignment, old(assignment))
      ensures found ==> v in assignment && assignment[v] == value && value in domains[v]
      ensures found ==> ConsistentWith(v, value, old(assignment))
      ensures !found ==> assignment == old(assignment)
      ensures !found ==> NoneBelow(n, domains, assignment, v, value + 1)
    {
      ghost var a0 := assignment;
      if value in domains[v] && ConsistentWith(v, value, assignment) {
        ExtendAssignment(n, domains, a0, v, value);
        assignment := assignment[v := value];
        assert v in domains.Keys - a0.Keys;
        found := BacktrackMac();
        if found {
          return true;
        }
        assert assignment - {v} == a0;
        assignment := assignment - {v};
        SkipFailed(n, domains, a0, v, value);
      } else if value in domains[v] {
        SkipInconsistent(n, domains, a0, v, value);
        found := false;
      } else {
        SkipAbsent(n, domains, a0, v, value);
        found := false;
      }
    }
  }

  /** Every solution lies within the initial domains. */
  lemma SolutionsWithinFull(n: nat)
    ensures forall s :: IsSolution(n, s) ==> WithinDomains(FullDomains(n), s)
  {
    forall s | IsSolution(n, s) ensures WithinDomains(FullDomains(n), s) {
      forall k | 0 <= k < |s| ensures k in FullDomains(n) && s[k] in FullDomains(n)[k] {
        assert k in Range(n);
      }
    }
  }

  /** Propagation that empties a domain without pruning any solution
      proves that there is no solution. */
  lemma EmptiedDomainNoSolution(n: nat, d: Domains)
    requires WellShaped(n, d) && Sound(n, FullDomains(n), d)
    requires exists k :: k in d && d[k] == {}
    ensures forall s :: !IsSolution(n, s)
  {
    var k :| k in d && d[k] == {};
    SolutionsWithinFull(n);
    forall s | IsSolution(n, s) ensures false {
    }
  }

  /** A search from the empty assignment that finds nothing over sound
      domains proves that there is no solution. */
  lemma FailedSearchNoSolution(n: nat, d: Domains)
    requires Sound(n, FullDomains(n), d)
    requires forall e :: FullIn(n, d, e) ==> !Extends(e, map[])
    ensures forall s :: !IsSolution(n, s)
  {
    SolutionsWithinFull(n);
    forall s | IsSolution(n, s) ensures false {
      SolutionIsAssignment(n, d, s);
    }
  }

  /** What `solve_n_queens_mac_optimized` can end with: the assignment
      dictionary, None, or the ValueError that `min` of an empty sequence
      raises. */
  datatype MacResult = Solved(assignment: map<int, int>) | NoSolution | MinOfEmpty

  /** `solve_n_queens_mac_optimized(n)`: a solution exactly when one exists;
      for negative n there are no rows, and `select_unassigned_var` fails on
      an empty list of unassigned rows. */
  method SolveMac(n: int) returns (r: MacResult)
    ensures r == MinOfEmpty <==> n < 0
    ensures n >= 0 ==> (r.Solved? <==> exists s :: IsSolution(n, s))
    ensures r.Solved? ==> r.assignment.Keys == Range(n) && IsSolution(n, AsBoard(r.assignment, n))
  {
    if n < 0 {
      return MinOfEmpty;
    }
    var search := new MacSearch(n);
    var consistent := search.Propagate();
    if !consistent {
      EmptiedDomainNoSolution(n, search.domains);
      return NoSolution;
    }
    ghost var d := search.domains;
    var found := search.BacktrackMac();
    if found {
      AssignmentIsSolution(n, d, search.assignment);
      r := Solved(search.assignment);
    } else {
      FailedSearchNoSolution(n, d);
      r := NoSolution;
    }
  }
}
