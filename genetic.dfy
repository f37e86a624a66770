/** The deterministic parts of the genetic solver in algorithms/genetic.py:
    the diagonal-conflict counter, order crossover, swap mutation and the
    stagnation logic of the generation loop. Every random choice (cut points,
    swap positions, the populations of each generation) is a parameter. */
module Genetic {
  import opened Queens

  /** The diagonal test of line 57 as written (`== (i - j)`, which no pair
      with i < j can meet) and as evidently intended (`== (j - i)`). */
  datatype DiagTest = AsWritten | Intended

  /** Rows i < j are counted as sharing a diagonal. */
  predicate SameDiagonal(test: DiagTest, b: seq<int>, i: int, j: int)
    requires 0 <= i < j < |b|
  {
    match test
    case AsWritten => Abs(b[i] - b[j]) == i - j
    case Intended => Abs(b[i] - b[j]) == j - i
  }

  /** The inner loop `for j in range(j0, n)` for a fixed row i. */
  function RowAttacks(test: DiagTest, b: seq<int>, i: int, j0: int): nat
    requires 0 <= i < j0 <= |b|
    decreases |b| - j0
  {
    if j0 == |b| then 0
    else (if SameDiagonal(test, b, i, j0) then 1 else 0) + RowAttacks(test, b, i, j0 + 1)
  }

  /** The outer loop `for i in range(i0, n)`. */
  function AttacksFrom(test: DiagTest, b: seq<int>, i0: int): nat
    requires 0 <= i0 <= |b|
    decreases |b| - i0
  {
    if i0 == |b| then 0 else RowAttacks(test, b, i0, i0 + 1) + AttacksFrom(test, b, i0 + 1)
  }

  /** The score `count_attacks_batch` gives one chromosome. */
  function Attacks(test: DiagTest, b: seq<int>): nat
  {
    AttacksFrom(test, b, 0)
  }

  /** `count_attacks_batch`: one score per chromosome, in batch order. */
  function CountAttacksBatch(test: DiagTest, batch: seq<seq<int>>): (scores: seq<int>)
    ensures |scores| == |batch|
    ensures forall k :: 0 <= k < |batch| ==> scores[k] == Attacks(test, batch[k])
  {
    if batch == [] then [] else [Attacks(test, batch[0])] + CountAttacksBatch(test, batch[1..])
  }

  lemma {:induction false} RowAttacksZero(test: DiagTest, b: seq<int>, i: int, j0: int)
    requires 0 <= i < j0 <= |b|
    decreases |b| - j0
    ensures RowAttacks(test, b, i, j0) == 0 <==> forall j :: j0 <= j < |b| ==> !SameDiagonal(test, b, i, j)
  {
    if j0 < |b| {
      RowAttacksZero(test, b, i, j0 + 1);
    }
  }

  lemma {:induction false} AttacksFromZero(test: DiagTest, b: seq<int>, i0: int)
    requires 0 <= i0 <= |b|
    decreases |b| - i0
    ensures AttacksFrom(test, b, i0) == 0 <==>
      forall i, j :: i0 <= i < j < |b| ==> !SameDiagonal(test, b, i, j)
  {
    if i0 < |b| {
      AttacksFromZero(test, b, i0 + 1);
      RowAttacksZero(test, b, i0, i0 + 1);
      if AttacksFrom(test, b, i0) == 0 {
        forall i, j | i0 <= i < j < |b| ensures !SameDiagonal(test, b, i, j) {
          if i == i0 {
            assert RowAttacks(test, b, i0, i0 + 1) == 0;
          }
        }
      }
    }
  }

  /** A chromosome scores 0 exactly when no pair of rows passes the test. */
  lemma AttacksZeroIff(test: DiagTest, b: seq<int>)
    ensures Attacks(test, b) == 0 <==> forall i, j :: 0 <= i < j < |b| ==> !SameDiagonal(test, b, i, j)
  {
    AttacksFromZero(test, b, 0);
  }

  lemma {:induction false} RowAttacksBound(test: DiagTest, b: seq<int>, i: int, j0: int)
    requires 0 <= i < j0 <= |b|
    decreases |b| - j0
    ensures RowAttacks(test, b, i, j0) <= |b| - j0
  {
    if j0 < |b| {
      RowAttacksBound(test, b, i, j0 + 1);
    }
  }

  lemma {:induction false} AttacksFromBound(test: DiagTest, b: seq<int>, i0: int)
    requires 0 <= i0 <= |b|
    decreases |b| - i0
    ensures 2 * AttacksFrom(test, b, i0) <= (|b| - i0) * (|b| - i0 - 1)
  {
    if i0 < |b| {
      AttacksFromBound(test, b, i0 + 1);
      RowAttacksBound(test, b, i0, i0 + 1);
      var m := |b| - i0;
      assert m * (m - 1) == 2 * (m - 1) + (m - 1) * (m - 2);
    }
  }

  /** The double loop visits n(n-1)/2 pairs, so no score exceeds that. */
  lemma AttacksBound(test: DiagTest, b: seq<int>)
    ensures 2 * Attacks(test, b) <= |b| * (|b| - 1)
  {
    AttacksFromBound(test, b, 0);
  }

  /** As written, the right-hand side i - j is negative, so every
      chromosome scores 0. */
  lemma AsWrittenNeverAttacks(b: seq<int>)
    ensures Attacks(AsWritten, b) == 0
  {
    AttacksZeroIff(AsWritten, b);
  }

  /** With the intended test, a permutation scores 0 exactly when it is a
      solution: its columns are distinct, so only diagonals can clash. */
  lemma IntendedZeroIffSolution(b: seq<int>, n: nat)
    requires IsPermutation(b, n)
    ensures Attacks(Intended, b) == 0 <==> IsSolution(n, b)
  {
    PermutationFacts(b, n);
    AttacksZeroIff(Intended, b);
    if Attacks(Intended, b) == 0 {
      forall i, j | 0 <= i < j < |b| ensures NonAttacking(b, i, j) {
        assert !SameDiagonal(Intended, b, i, j);
      }
    }
    if IsSolution(n, b) {
      forall i, j | 0 <= i < j < |b| ensures !SameDiagonal(Intended, b, i, j) {
        assert NonAttacking(b, i, j);
      }
    }
  }

  /** The board [0, 1] puts both queens on one diagonal: the intended test
      counts the clash, the test as written scores the board 0. */
  lemma AsWrittenMissesDiagonal()
    ensures IsPermutation([0, 1], 2) && !IsSolution(2, [0, 1])
    ensures Attacks(AsWritten, [0, 1]) == 0
    ensures Attacks(Intended, [0, 1]) == 1
  {
    assert Iota(2) == [0, 1];
    assert !NonAttacking([0, 1], 0, 1);
    AsWrittenNeverAttacks([0, 1]);
  }

  /** The placeholder `-1` that marks a position still to be filled. */
  const Hole: int := -1

  /** k placeholders in a row. */
  function HoleRun(k: nat): (r: seq<int>)
    ensures |r| == k && forall i :: 0 <= i < k ==> r[i] == Hole
  {
    if k == 0 then [] else HoleRun(k - 1) + [Hole]
  }

  /** The child after `child[start:end] = parent1[start:end]`. */
  function Template(p1: seq<int>, start: nat, end: nat): (t: seq<int>)
    requires start <= end <= |p1|
    ensures |t| == |p1|
    ensures forall k :: 0 <= k < |t| ==> t[k] == if start <= k < end then p1[k] else Hole
  {
    HoleRun(start) + p1[start..end] + HoleRun(|p1| - end)
  }

  /** `[x for x in parent2 if x not in child]`. */
  function FillValues(p2: seq<int>, child: seq<int>): (f: seq<int>)
    ensures forall x :: x in f <==> x in p2 && x !in child
  {
    if p2 == [] then []
    else (if p2[0] !in child then [p2[0]] else []) + FillValues(p2[1..], child)
  }

  /** The number of placeholders in t. */
  function Holes(t: seq<int>): nat
  {
    if t == [] then 0 else (if t[0] == Hole then 1 else 0) + Holes(t[1..])
  }

  /** The entries of t that are not placeholders, in order. */
  function Kept(t: seq<int>): seq<int>
  {
    if t == [] then [] else (if t[0] == Hole then [] else [t[0]]) + Kept(t[1..])
  }

  /** The entries of c at the positions where t has a placeholder. */
  function Picked(t: seq<int>, c: seq<int>): seq<int>
    requires |t| == |c|
  {
    if t == [] then [] else (if t[0] == Hole then [c[0]] else []) + Picked(t[1..], c[1..])
  }

  /** Prepends x to a filled child, keeping a failure a failure. */
  function Cons(x: int, o: Option<seq<int>>): Option<seq<int>>
  {
    if o.None? then None else Some([x] + o.value)
  }

  /** The `for i in range(n)` loop as a value: each placeholder, left to
      right, takes the next fill value; None is the IndexError raised when
      the fill values run out. */
  function Fill(t: seq<int>, f: seq<int>): (r: Option<seq<int>>)
    ensures r.Some? ==> |r.value| == |t|
  {
    if t == [] then Some([])
    else if t[0] != Hole then Cons(t[0], Fill(t[1..], f))
    else if f == [] then None
    else Cons(f[0], Fill(t[1..], f[1..]))
  }

  /** The child `crossover` builds from its parents and cut points. */
  function OrderCrossover(p1: seq<int>, p2: seq<int>, start: nat, end: nat): Option<seq<int>>
    requires start <= end <= |p1|
  {
    var t := Template(p1, start, end);
    Fill(t, FillValues(p2, t))
  }

  /** Filling succeeds exactly when there are enough fill values. */
  lemma {:induction false} FillSucceeds(t: seq<int>, f: seq<int>)
    ensures Fill(t, f).Some? <==> Holes(t) <= |f|
  {
    if t != [] {
      if t[0] != Hole {
        FillSucceeds(t[1..], f);
      } else if f != [] {
        FillSucceeds(t[1..], f[1..]);
      }
    }
  }

  /** A filled child has the template's length and keeps every entry that
      is not a placeholder. */
  lemma {:induction false} FillKeeps(t: seq<int>, f: seq<int>)
    requires Fill(t, f).Some?
    ensures |Fill(t, f).value| == |t|
    ensures forall k :: 0 <= k < |t| && t[k] != Hole ==> Fill(t, f).value[k] == t[k]
  {
    if t != [] {
      var f' := if t[0] != Hole then f else f[1..];
      FillKeeps(t[1..], f');
      var c := Fill(t, f).value;
      assert c[1..] == Fill(t[1..], f').value;
      forall k | 0 <= k < |t| && t[k] != Hole ensures c[k] == t[k] {
        if k > 0 {
          assert t[k] == t[1..][k - 1] && c[k] == c[1..][k - 1];
        }
      }
    }
  }

  /** The placeholders receive the first Holes(t) fill values, in order. */
  lemma {:induction false} FillPicks(t: seq<int>, f: seq<int>)
    requires Fill(t, f).Some?
    ensures |Fill(t, f).value| == |t| && Holes(t) <= |f|
    ensures Picked(t, Fill(t, f).value) == f[..Holes(t)]
  {
    FillKeeps(t, f);
    FillSucceeds(t, f);
    if t != [] {
      var c := Fill(t, f).value;
      if t[0] != Hole {
        FillPicks(t[1..], f);
        assert c[1..] == Fill(t[1..], f).value;
      } else {
        FillPicks(t[1..], f[1..]);
        assert c[1..] == Fill(t[1..], f[1..]).value;
        assert f[..Holes(t)] == [f[0]] + f[1..][..Holes(t[1..])];
      }
    }
  }

  /** A sequence that agrees with t wherever t has no placeholder consists
      of t's kept entries and of what it holds at the placeholders. */
  lemma {:induction false} KeptAndPicked(t: seq<int>, c: seq<int>)
    requires |t| == |c|
    requires forall k :: 0 <= k < |t| && t[k] != Hole ==> c[k] == t[k]
    ensures multiset(c) == multiset(Kept(t)) + multiset(Picked(t, c))
  {
    if t != [] {
      KeptAndPicked(t[1..], c[1..]);
      assert c == [c[0]] + c[1..];
    }
  }

  /** A filled child holds the template's kept entries and the fill values
      it used. */
  lemma FillMultiset(t: seq<int>, f: seq<int>)
    requires Fill(t, f).Some?
    ensures Holes(t) <= |f|
    ensures multiset(Fill(t, f).value) == multiset(Kept(t)) + multiset(f[..Holes(t)])
  {
    FillKeeps(t, f);
    FillPicks(t, f);
    KeptAndPicked(t, Fill(t, f).value);
  }

  lemma {:induction false} HolesAppend(a: seq<int>, b: seq<int>)
    ensures Holes(a + b) == Holes(a) + Holes(b)
    ensures Kept(a + b) == Kept(a) + Kept(b)
  {
    if a != [] {
      HolesAppend(a[1..], b);
      assert (a + b)[1..] == a[1..] + b;
    } else {
      assert a + b == b;
    }
  }

  lemma {:induction false} PickedAppend(a: seq<int>, b: seq<int>, c: seq<int>, d: seq<int>)
    requires |a| == |c| && |b| == |d|
    ensures Picked(a + b, c + d) == Picked(a, c) + Picked(b, d)
  {
    if a != [] {
      PickedAppend(a[1..], b, c[1..], d);
      assert (a + b)[1..] == a[1..] + b;
      assert (c + d)[1..] == c[1..] + d;
    } else {
      assert a + b == b && c + d == d;
    }
  }

  lemma {:induction false} HoleRunFacts(k: nat, c: seq<int>)
    requires |c| == k
    ensures Holes(HoleRun(k)) == k && Kept(HoleRun(k)) == [] && Picked(HoleRun(k), c) == c
  {
    if k > 0 {
      HoleRunFacts(k - 1, c[1..]);
      assert HoleRun(k)[1..] == HoleRun(k - 1);
    }
  }

  lemma {:induction false} NoHoleFacts(s: seq<int>, c: seq<int>)
    requires |c| == |s| && Hole !in s
    ensures Holes(s) == 0 && Kept(s) == s && Picked(s, c) == []
  {
    if s != [] {
      NoHoleFacts(s[1..], c[1..]);
    }
  }

  /** A segment without placeholders has none of its own. */
  lemma SegmentHasNoHole(p1: seq<int>, start: nat, end: nat)
    requires start <= end <= |p1| && Hole !in p1
    ensures Hole !in p1[start..end]
  {
    forall x | x in p1[start..end] ensures x != Hole {
      assert x in p1;
    }
  }

  /** For a parent without placeholders, the template's kept entries are
      the segment, and everything outside it is a placeholder. */
  lemma TemplateKept(p1: seq<int>, start: nat, end: nat)
    requires start <= end <= |p1| && Hole !in p1
    ensures Holes(Template(p1, start, end)) == |p1| - (end - start)
    ensures Kept(Template(p1, start, end)) == p1[start..end]
  {
    var a, seg, z := HoleRun(start), p1[start..end], HoleRun(|p1| - end);
    SegmentHasNoHole(p1, start, end);
    HoleRunFacts(start, a);
    HoleRunFacts(|p1| - end, z);
    NoHoleFacts(seg, seg);
    HolesAppend(a, seg);
    HolesAppend(a + seg, z);
  }

  /** Around a run without placeholders, the placeholders of two hole runs
      pick out what lies outside it. */
  lemma PickedHolesFirst(a: nat, seg: seq<int>, c1: seq<int>, c2: seq<int>)
    requires Hole !in seg && |c1| == a && |c2| == |seg|
    ensures Picked(HoleRun(a) + seg, c1 + c2) == c1
  {
    HoleRunFacts(a, c1);
    NoHoleFacts(seg, c2);
    PickedAppend(HoleRun(a), seg, c1, c2);
  }

  lemma PickedAround(a: nat, seg: seq<int>, z: nat, c: seq<int>)
    requires Hole !in seg && |c| == a + |seg| + z
    ensures Picked(HoleRun(a) + seg + HoleRun(z), c) == c[..a] + c[a + |seg|..]
  {
    var m := a + |seg|;
    var c12, c3 := c[..m], c[m..];
    assert c == c12 + c3;
    assert c12 == c[..a] + c[a..m];
    PickedHolesFirst(a, seg, c[..a], c[a..m]);
    HoleRunFacts(z, c3);
    PickedAppend(HoleRun(a) + seg, HoleRun(z), c12, c3);
  }

  /** The placeholders of the template are exactly the positions outside
      [start, end). */
  lemma TemplatePicked(p1: seq<int>, start: nat, end: nat, c: seq<int>)
    requires start <= end <= |p1| && Hole !in p1 && |c| == |p1|
    ensures Picked(Template(p1, start, end), c) == c[..start] + c[end..]
  {
    SegmentHasNoHole(p1, start, end);
    PickedAround(start, p1[start..end], |p1| - end, c);
  }

  lemma {:induction false} FillValuesCount(p2: seq<int>, child: seq<int>, v: int)
    ensures multiset(FillValues(p2, child))[v] == if v in child then 0 else multiset(p2)[v]
  {
    if p2 != [] {
      FillValuesCount(p2[1..], child, v);
      assert p2 == [p2[0]] + p2[1..];
    }
  }

  /** A segment of a permutation holds each of its values once. */
  lemma SegmentCount(p1: seq<int>, n: nat, start: nat, end: nat, v: int)
    requires IsPermutation(p1, n) && |p1| == n && start <= end <= n
    ensures multiset(p1[start..end])[v] == if v in p1[start..end] then 1 else 0
    ensures v in p1[start..end] ==> 0 <= v < n
  {
    PermutationFacts(p1, n);
    var seg := p1[start..end];
    assert p1 == p1[..start] + seg + p1[end..];
    IotaCount(n, v);
    if v in seg {
      assert v in p1;
    }
  }

  /** Outside the segment the template holds only placeholders, and some
      when the segment is not the whole board. */
  lemma TemplateMembers(p1: seq<int>, start: nat, end: nat, v: int)
    requires start <= end <= |p1| && end - start < |p1|
    ensures v in Template(p1, start, end) <==> v == Hole || v in p1[start..end]
  {
    var t := Template(p1, start, end);
    if v == Hole {
      if start > 0 {
        assert t[0] == Hole;
      } else {
        assert t[|p1| - 1] == Hole;
      }
    }
  }

  /** A permutation holds no placeholder. */
  lemma PermutationHasNoHole(p: seq<int>, n: nat)
    requires IsPermutation(p, n)
    ensures Hole !in p
  {
    PermutationFacts(p, n);
    forall x | x in p ensures x != Hole {
      var k :| 0 <= k < |p| && p[k] == x;
    }
  }

  lemma SegmentAndFillCount(p1: seq<int>, p2: seq<int>, n: nat, start: nat, end: nat, v: int)
    requires IsPermutation(p1, n) && IsPermutation(p2, n) && |p1| == n && start < end < n
    ensures multiset(p1[start..end])[v] + multiset(FillValues(p2, Template(p1, start, end)))[v]
      == multiset(Iota(n))[v]
  {
    TemplateMembers(p1, start, end, v);
    SegmentCount(p1, n, start, end, v);
    FillValuesCount(p2, Template(p1, start, end), v);
    IotaCount(n, v);
  }

  /** The segment of parent1 and the fill values from parent2 together hold
      every column once. */
  lemma SegmentAndFill(p1: seq<int>, p2: seq<int>, n: nat, start: nat, end: nat)
    requires IsPermutation(p1, n) && IsPermutation(p2, n) && |p1| == n && start < end < n
    ensures multiset(p1[start..end]) + multiset(FillValues(p2, Template(p1, start, end))) == multiset(Iota(n))
    ensures |FillValues(p2, Template(p1, start, end))| == n - (end - start)
  {
    var seg := multiset(p1[start..end]);
    var f := multiset(FillValues(p2, Template(p1, start, end)));
    forall v ensures (seg + f)[v] == multiset(Iota(n))[v] {
      SegmentAndFillCount(p1, p2, n, start, end, v);
    }
    assert seg + f == multiset(Iota(n));
    assert |seg + f| == |seg| + |f|;
  }

  /** Filling the template of a permutation's segment with exactly the
      missing columns gives a permutation that keeps the segment and holds
      the fill values, in order, around it. */
  lemma FillTemplate(p1: seq<int>, n: nat, start: nat, end: nat, f: seq<int>)
    requires IsPermutation(p1, n) && |p1| == n && start < end < n
    requires multiset(p1[start..end]) + multiset(f) == multiset(Iota(n))
    requires |f| == n - (end - start)
    ensures Fill(Template(p1, start, end), f).Some?
    ensures |Fill(Template(p1, start, end), f).value| == n
    ensures IsPermutation(Fill(Template(p1, start, end), f).value, n)
    ensures var c := Fill(Template(p1, start, end), f).value;
      c[..start] + c[end..] == f
  {
    PermutationHasNoHole(p1, n);
    var t := Template(p1, start, end);
    TemplateKept(p1, start, end);
    FillSucceeds(t, f);
    FillPicks(t, f);
    FillMultiset(t, f);
    assert f[..Holes(t)] == f;
    TemplatePicked(p1, start, end, Fill(t, f).value);
  }

  /** The filled template keeps the segment of parent1. */
  lemma FillKeepsSegment(p1: seq<int>, n: nat, start: nat, end: nat, f: seq<int>)
    requires IsPermutation(p1, n) && |p1| == n && start < end < n
    requires Fill(Template(p1, start, end), f).Some?
    ensures |Fill(Template(p1, start, end), f).value| == n
    ensures Fill(Template(p1, start, end), f).value[start..end] == p1[start..end]
  {
    PermutationHasNoHole(p1, n);
    var t := Template(p1, start, end);
    FillKeeps(t, f);
    var c := Fill(t, f).value;
    forall k | start <= k < end ensures c[k] == p1[k] {
      assert p1[k] in p1;
      assert t[k] == p1[k] != Hole;
    }
    assert c[start..end] == p1[start..end];
  }

  /** Crossing two permutations of [0, n) with cut points 0 <= start < end
      < n never runs out of fill values, and the child is a permutation that
      agrees with parent1 on [start, end) and holds, outside it, parent2's
      other values in parent2's order. */
  lemma CrossoverOfPermutations(p1: seq<int>, p2: seq<int>, n: nat, start: nat, end: nat)
    requires IsPermutation(p1, n) && IsPermutation(p2, n) && start < end < n
    ensures |p1| == n && OrderCrossover(p1, p2, start, end).Some?
    ensures |OrderCrossover(p1, p2, start, end).value| == n
    ensures |FillValues(p2, Template(p1, start, end))| == n - (end - start)
    ensures IsPermutation(OrderCrossover(p1, p2, start, end).value, n)
    ensures OrderCrossover(p1, p2, start, end).value[start..end] == p1[start..end]
    ensures var c := OrderCrossover(p1, p2, start, end).value;
      c[..start] + c[end..] == FillValues(p2, Template(p1, start, end))
  {
    PermutationFacts(p1, n);
    var f := FillValues(p2, Template(p1, start, end));
    SegmentAndFill(p1, p2, n, start, end);
    FillTemplate(p1, n, start, end, f);
    FillKeepsSegment(p1, n, start, end, f);
  }

  /** `crossover(parent1, parent2)` with the cut points drawn by
      `sorted(random.sample(range(n), 2))` passed in: the child is built in
      an array of placeholders, the segment is copied from parent1, and the
      placeholders are filled left to right from parent2's remaining values.
      None stands for the IndexError of running out of fill values. */
  method Crossover(p1: seq<int>, p2: seq<int>, n: nat, start: nat, end: nat) returns (child: Option<seq<int>>)
    requires |p1| == n && |p2| == n && start < end < n
    ensures child == OrderCrossover(p1, p2, start, end)
  {
    var c := new int[n](_ => Hole);
    for k := start to end
      invariant forall m :: 0 <= m < n ==> c[m] == if start <= m < k then p1[m] else Hole
    {
      c[k] := p1[k];
    }
    assert c[..] == Template(p1, start, end);
    var fill := FillValues(p2, c[..]);
    var ok := FillHoles(c, fill);
    child := if ok then Some(c[..]) else None;
  }

  /** The `for i in range(n)` loop of `crossover`: each placeholder of c,
      left to right, takes the next fill value; false is the IndexError of
      running out of them, with c then left part-filled. */
  method FillHoles(c: array<int>, fill: seq<int>) returns (ok: bool)
    modifies c
    ensures ok <==> Fill(old(c[..]), fill).Some?
    ensures ok ==> c[..] == Fill(old(c[..]), fill).value
  {
    ghost var t := c[..];
    var ptr := 0;
    assert c[..0] == [] && t[0..] == t && fill[0..] == fill;
    JoinNil(Fill(t, fill));
    for i := 0 to c.Length
      invariant ptr <= |fill|
      invariant c[i..] == t[i..]
      invariant Fill(t, fill) == Join(c[..i], Fill(t[i..], fill[ptr..]))
    {
      assert t[i..] == [t[i]] + t[i + 1..];
      if c[i] == Hole {
        if ptr >= |fill| {
          return false;
        }
        assert fill[ptr..] == [fill[ptr]] + fill[ptr + 1..];
        c[i] := fill[ptr];
        ptr := ptr + 1;
      }
      JoinCons(c[..i], c[i], Fill(t[i + 1..], fill[ptr..]));
      assert c[..i + 1] == c[..i] + [c[i]];
    }
    assert t[c.Length..] == [] && c[..c.Length] == c[..] && c[..] + [] == c[..];
    return true;
  }

  /** Appends a filled suffix to a prefix, keeping a failure a failure. */
  function Join(pre: seq<int>, o: Option<seq<int>>): Option<seq<int>>
  {
    if o.None? then None else Some(pre + o.value)
  }

  lemma JoinNil(o: Option<seq<int>>)
    ensures Join([], o) == o
  {
    if o.Some? {
      assert [] + o.value == o.value;
    }
  }

  lemma JoinCons(pre: seq<int>, x: int, o: Option<seq<int>>)
    ensures Join(pre, Cons(x, o)) == Join(pre + [x], o)
  {
    if o.Some? {
      assert pre + ([x] + o.value) == pre + [x] + o.value;
    }
  }

  /** `chromo[i], chromo[j] = chromo[j], chromo[i]` on a plain sequence. */
  function Swap(s: seq<int>, i: int, j: int): (r: seq<int>)
    requires 0 <= i < |s| && 0 <= j < |s|
    ensures |r| == |s| && r[i] == s[j] && r[j] == s[i]
    ensures forall k :: 0 <= k < |s| && k != i && k != j ==> r[k] == s[k]
  {
    s[i := s[j]][j := s[i]]
  }

  /** Swapping twice restores the chromosome. */
  lemma SwapTwice(s: seq<int>, i: int, j: int)
    requires 0 <= i < |s| && 0 <= j < |s|
    ensures Swap(Swap(s, i, j), i, j) == s
  {
  }

  /** A swap keeps the multiset of columns, so a permutation stays one. */
  lemma SwapKeepsPermutation(s: seq<int>, i: int, j: int, n: nat)
    requires 0 <= i < |s| && 0 <= j < |s|
    ensures multiset(Swap(s, i, j)) == multiset(s)
    ensures IsPermutation(s, n) ==> IsPermutation(Swap(s, i, j), n)
  {
    var t := s[i := s[j]];
    assert multiset(t) == multiset(s) - multiset{s[i]} + multiset{s[j]};
    assert multiset(t[j := s[i]]) == multiset(t) - multiset{t[j]} + multiset{s[i]};
  }

  /** `mutate`: exchanges two distinct positions of the chromosome in place. */
  method Mutate(chromo: array<int>, i: int, j: int)
    requires 0 <= i < chromo.Length && 0 <= j < chromo.Length && i != j
    modifies chromo
    ensures chromo[..] == Swap(old(chromo[..]), i, j)
  {
    chromo[i], chromo[j] := chromo[j], chromo[i];
  }

  // ---------------------------------------------------------------------
  // One generation: elite copies followed by bred children.

  /** The random choices that shape one generation: the population indices
      of the elite (the prefix of `fitness_scores.argsort(descending=True)`)
      and one breeding per remaining slot. */
  datatype Choices = Choices(elite: seq<nat>, breedings: seq<Breeding>)

  /** The population indices of the two parents drawn from the selected
      chromosomes, the cut points of the crossover and, when
      `random.random() < mutation_rate`, the two positions `mutate` swaps. */
  datatype Breeding = Breeding(parent1: nat, parent2: nat, start: nat, end: nat, mutation: Option<(nat, nat)>)

  /** Cut points come from `sorted(random.sample(range(n), 2))`, swap
      positions from `random.sample(range(n), 2)`. */
  predicate BreedingFits(n: nat, popSize: nat, b: Breeding)
  {
    && b.parent1 < popSize && b.parent2 < popSize
    && b.start < b.end < n
    && (b.mutation.Some? ==> b.mutation.value.0 < n && b.mutation.value.1 < n && b.mutation.value.0 != b.mutation.value.1)
  }

  /** The elite is taken first and breeding fills the population back up to
      its size. Parents are drawn by `random.sample(selected, 2)` from the
      `pop_size - elite_size` selected rows, which raises `ValueError` when
      exactly one row is selected; such choices do not fit. */
  predicate ChoicesFit(n: nat, popSize: nat, c: Choices)
  {
    && |c.elite| <= popSize && |c.breedings| == popSize - |c.elite|
    && |c.breedings| != 1
    && (forall k :: 0 <= k < |c.elite| ==> c.elite[k] < popSize)
    && (forall k :: 0 <= k < |c.breedings| ==> BreedingFits(n, popSize, c.breedings[k]))
  }

  predicate AllPermutations(n: nat, pop: seq<seq<int>>)
  {
    forall k :: 0 <= k < |pop| ==> IsPermutation(pop[k], n)
  }

  /** One child: the order crossover of its parents, then the optional swap.
      The parents are permutations, so the crossover never runs out of fill
      values. */
  function Child(n: nat, pop: seq<seq<int>>, b: Breeding): (c: seq<int>)
    requires AllPermutations(n, pop) && BreedingFits(n, |pop|, b)
    ensures |c| == n && IsPermutation(c, n)
  {
    CrossoverOfPermutations(pop[b.parent1], pop[b.parent2], n, b.start, b.end);
    var child := OrderCrossover(pop[b.parent1], pop[b.parent2], b.start, b.end).value;
    if b.mutation.None? then child
    else
      SwapKeepsPermutation(child, b.mutation.value.0, b.mutation.value.1, n);
      Swap(child, b.mutation.value.0, b.mutation.value.1)
  }

  /** `next_gen = [elite[i] for i in range(elite_size)]`. */
  function Elite(pop: seq<seq<int>>, idx: seq<nat>): (e: seq<seq<int>>)
    requires forall k :: 0 <= k < |idx| ==> idx[k] < |pop|
    ensures |e| == |idx| && forall k :: 0 <= k < |idx| ==> e[k] == pop[idx[k]]
  {
    if idx == [] then [] else Elite(pop, idx[..|idx| - 1]) + [pop[idx[|idx| - 1]]]
  }

  /** The children appended by the `while len(next_gen) < pop_size` loop. */
  function Children(n: nat, pop: seq<seq<int>>, bs: seq<Breeding>): (cs: seq<seq<int>>)
    requires AllPermutations(n, pop) && forall k :: 0 <= k < |bs| ==> BreedingFits(n, |pop|, bs[k])
    ensures |cs| == |bs| && AllPermutations(n, cs)
  {
    if bs == [] then [] else Children(n, pop, bs[..|bs| - 1]) + [Child(n, pop, bs[|bs| - 1])]
  }

  /** The next population keeps the size of the current one and, started
      from `torch.randperm` rows, consists of permutations only. */
  function NextPopulation(n: nat, pop: seq<seq<int>>, c: Choices): (next: seq<seq<int>>)
    requires AllPermutations(n, pop) && ChoicesFit(n, |pop|, c)
    ensures |next| == |pop| && AllPermutations(n, next)
  {
    Elite(pop, c.elite) + Children(n, pop, c.breedings)
  }

  /** The population of generation g. */
  function PopulationAt(n: nat, init: seq<seq<int>>, choices: seq<Choices>, g: nat): (pop: seq<seq<int>>)
    requires AllPermutations(n, init) && g <= |choices|
    requires forall k :: 0 <= k < |choices| ==> ChoicesFit(n, |init|, choices[k])
    ensures |pop| == |init| && AllPermutations(n, pop)
  {
    if g == 0 then init else NextPopulation(n, PopulationAt(n, init, choices, g - 1), choices[g - 1])
  }

  /** One pass of the `while len(next_gen) < pop_size` loop: crossover,
      then the in-place mutation when the breeding draws one. */
  method Breed(n: nat, population: seq<seq<int>>, b: Breeding) returns (chromo: seq<int>)
    requires AllPermutations(n, population) && BreedingFits(n, |population|, b)
    ensures chromo == Child(n, population, b)
  {
    CrossoverOfPermutations(population[b.parent1], population[b.parent2], n, b.start, b.end);
    var child := Crossover(population[b.parent1], population[b.parent2], n, b.start, b.end);
    var cv := child.value;
    var a := new int[n](i requires 0 <= i < n => cv[i]);
    assert a[..] == cv;
    if b.mutation.Some? {
      Mutate(a, b.mutation.value.0, b.mutation.value.1);
    }
    chromo := a[..];
  }

  /** Builds the next generation as lines 36-47 do: the elite rows first,
      then for each breeding a crossover child that is mutated in place
      when the breeding says so. */
  method NextGeneration(n: nat, population: seq<seq<int>>, c: Choices) returns (next: seq<seq<int>>)
    requires AllPermutations(n, population) && ChoicesFit(n, |population|, c)
    ensures next == NextPopulation(n, population, c)
  {
    var elite := [];
    for k := 0 to |c.elite|
      invariant elite == Elite(population, c.elite[..k])
    {
      assert c.elite[..k + 1][..k] == c.elite[..k];
      elite := elite + [population[c.elite[k]]];
    }
    assert c.elite[..|c.elite|] == c.elite;
    var bs := c.breedings;
    var children := [];
    for k := 0 to |bs|
      invariant children == Children(n, population, bs[..k])
    {
      var chromo := Breed(n, population, bs[k]);
      assert bs[..k + 1][..k] == bs[..k];
      children := children + [chromo];
    }
    assert bs[..|bs|] == bs;
    next := elite + children;
  }

  // ---------------------------------------------------------------------
  // The generation loop.

  /** The first chromosome with the fewest attacks: `torch.argmax` of the
      negated scores returns the first maximum. */
  function BestChromosome(test: DiagTest, pop: seq<seq<int>>): (c: seq<int>)
    requires |pop| > 0
    ensures c in pop
    ensures forall k :: 0 <= k < |pop| ==> Attacks(test, c) <= Attacks(test, pop[k])
  {
    var scores := CountAttacksBatch(test, pop);
    pop[FirstArgMin(scores)]
  }

  /** The smallest attack count in the population. */
  function BestAttacks(test: DiagTest, pop: seq<seq<int>>): (a: nat)
    requires |pop| > 0
    ensures exists k :: 0 <= k < |pop| && a == Attacks(test, pop[k])
    ensures forall k :: 0 <= k < |pop| ==> a <= Attacks(test, pop[k])
  {
    Attacks(test, BestChromosome(test, pop))
  }

  /** The best attack counts of generations 0, ..., k-1. */
  function Bests(test: DiagTest, n: nat, init: seq<seq<int>>, choices: seq<Choices>, k: nat): (bs: seq<int>)
    requires |init| > 0 && AllPermutations(n, init) && k <= |choices|
    requires forall i :: 0 <= i < |choices| ==> ChoicesFit(n, |init|, choices[i])
    ensures |bs| == k
  {
    if k == 0 then [] else Bests(test, n, init, choices, k - 1) + [BestAttacks(test, PopulationAt(n, init, choices, k - 1))]
  }

  /** Generation k strictly improves on every earlier one, which resets the
      stagnation counter (the first generation improves on infinity). */
  predicate IsRecord(bs: seq<int>, k: nat)
    requires k < |bs|
  {
    forall i :: 0 <= i < k ==> bs[k] < bs[i]
  }

  /** The latest record generation up to k. */
  function LastRecord(bs: seq<int>, k: nat): (r: nat)
    requires k < |bs|
    ensures r <= k && IsRecord(bs, r)
    ensures forall i :: r < i <= k ==> !IsRecord(bs, i)
  {
    if k == 0 || IsRecord(bs, k) then k else LastRecord(bs, k - 1)
  }

  /** The counter after generation k is k - LastRecord(bs, k), so the loop
      stops at a generation that is no record once that reaches the limit. */
  predicate StopsAt(bs: seq<int>, k: nat, limit: int)
    requires k < |bs|
  {
    !IsRecord(bs, k) && k - LastRecord(bs, k) >= limit
  }

  /** None of the generations in bs ends the loop. */
  predicate KeepsGoing(bs: seq<int>, limit: int)
  {
    forall i :: 0 <= i < |bs| ==> bs[i] != 0 && !StopsAt(bs, i, limit)
  }

  datatype GaOutcome = Found(chromosome: seq<int>, generation: nat) | Stagnated(generation: nat) | Exhausted

  /** The latest record holds the running minimum. */
  lemma {:induction false} LastRecordIsMin(bs: seq<int>, k: nat)
    requires k < |bs|
    ensures forall i :: 0 <= i <= k ==> bs[LastRecord(bs, k)] <= bs[i]
  {
    if k > 0 && !IsRecord(bs, k) {
      LastRecordIsMin(bs, k - 1);
      var i :| 0 <= i < k && bs[k] >= bs[i];
    }
  }

  /** Appending a generation leaves the verdicts on earlier ones alone. */
  lemma {:induction false} ExtendKeepsRecords(bs: seq<int>, b: int, k: nat)
    requires k < |bs|
    ensures IsRecord(bs + [b], k) == IsRecord(bs, k)
    ensures LastRecord(bs + [b], k) == LastRecord(bs, k)
  {
    assert forall i :: 0 <= i <= k ==> (bs + [b])[i] == bs[i];
    if k > 0 {
      ExtendKeepsRecords(bs, b, k - 1);
    }
  }

  lemma ExtendKeepsGoing(bs: seq<int>, b: int, limit: int)
    requires KeepsGoing(bs, limit) && b != 0 && !StopsAt(bs + [b], |bs|, limit)
    ensures KeepsGoing(bs + [b], limit)
  {
    forall i | 0 <= i < |bs| + 1 ensures (bs + [b])[i] != 0 && !StopsAt(bs + [b], i, limit) {
      if i < |bs| {
        ExtendKeepsRecords(bs, b, i);
      }
    }
  }

  /** The comparison `best_chromo_attacks < best_attacks` against the best
      so far decides the record, and the counter follows. */
  lemma RecordStep(bs: seq<int>, b: int)
    requires |bs| > 0
    ensures IsRecord(bs + [b], |bs|) <==> b < bs[LastRecord(bs, |bs| - 1)]
    ensures LastRecord(bs + [b], |bs|) == if b < bs[LastRecord(bs, |bs| - 1)] then |bs| else LastRecord(bs, |bs| - 1)
  {
    var k := |bs|;
    var m := LastRecord(bs, k - 1);
    LastRecordIsMin(bs, k - 1);
    ExtendKeepsRecords(bs, b, k - 1);
    if !IsRecord(bs + [b], k) {
      var i :| 0 <= i < k && (bs + [b])[k] >= (bs + [b])[i];
    }
    if b >= bs[m] {
      assert (bs + [b])[m] == bs[m];
    }
  }

  /** The best score so far and the stagnation counter after the
      generations of bs: None is the initial `float('inf')`. */
  predicate Tracks(bs: seq<int>, best: Option<int>, stagnation: int)
  {
    if bs == [] then best.None?
    else best == Some(bs[LastRecord(bs, |bs| - 1)]) && stagnation == |bs| - 1 - LastRecord(bs, |bs| - 1)
  }

  /** Lines 28-34 for a generation whose best chromosome has `attacks`
      attacks, none: a strict improvement on the best so far resets the
      counter, anything else increments it, and the loop stops once the
      counter reaches the limit. */
  method Track(ghost bs: seq<int>, best: Option<int>, stagnation: int, attacks: int, limit: int)
    returns (best': Option<int>, stagnation': int, stop: bool)
    requires Tracks(bs, best, stagnation) && KeepsGoing(bs, limit) && attacks != 0
    ensures stop <==> StopsAt(bs + [attacks], |bs|, limit)
    ensures !stop ==> Tracks(bs + [attacks], best', stagnation') && KeepsGoing(bs + [attacks], limit)
  {
    if bs != [] {
      RecordStep(bs, attacks);
    }
    if best.None? || attacks < best.value {
      best', stagnation', stop := Some(attacks), 0, false;
    } else {
      best', stagnation' := best, stagnation + 1;
      stop := stagnation' >= limit;
    }
    if !stop {
      ExtendKeepsGoing(bs, attacks, limit);
    }
  }

  /** Lines 20-23: score the population and take its first best
      chromosome. */
  method Score(test: DiagTest, n: nat, population: seq<seq<int>>) returns (chromo: seq<int>, attacks: int)
    requires |population| > 0 && AllPermutations(n, population)
    ensures chromo == BestChromosome(test, population) && attacks == BestAttacks(test, population)
    ensures IsPermutation(chromo, n)
    ensures test == Intended ==> (attacks == 0 <==> IsSolution(n, chromo))
    ensures test == AsWritten ==> chromo == population[0] && attacks == 0
  {
    var scores := CountAttacksBatch(test, population);
    var idx := FirstArgMin(scores);
    chromo := population[idx];
    attacks := scores[idx];
    if test == Intended {
      IntendedZeroIffSolution(chromo, n);
    } else {
      AsWrittenNeverAttacks(chromo);
      AsWrittenNeverAttacks(population[0]);
    }
  }

  /** `GeneticFastGPU.solve` with its random choices passed in: each
      generation is scored, the first best chromosome is returned when it
      has no attacks, a strict improvement resets the stagnation counter and
      anything else increments it until it reaches the limit. Found,
      Stagnated and Exhausted stand for the returned list, the `None` of
      line 34 and the `None` of line 49. */
  method Solve(test: DiagTest, n: nat, init: seq<seq<int>>, choices: seq<Choices>, generations: nat, stagnationLimit: int)
    returns (r: GaOutcome)
    requires |init| > 0 && AllPermutations(n, init) && generations <= |choices|
    requires forall i :: 0 <= i < |choices| ==> ChoicesFit(n, |init|, choices[i])
    ensures r.Found? ==>
      && r.generation < generations
      && r.chromosome == BestChromosome(test, PopulationAt(n, init, choices, r.generation))
      && Attacks(test, r.chromosome) == 0
      && KeepsGoing(Bests(test, n, init, choices, r.generation), stagnationLimit)
    ensures r.Stagnated? ==>
      && r.generation < generations
      && KeepsGoing(Bests(test, n, init, choices, r.generation), stagnationLimit)
      && BestAttacks(test, PopulationAt(n, init, choices, r.generation)) != 0
      && StopsAt(Bests(test, n, init, choices, r.generation + 1), r.generation, stagnationLimit)
    ensures r.Exhausted? ==> KeepsGoing(Bests(test, n, init, choices, generations), stagnationLimit)
    ensures r.Found? ==> IsPermutation(r.chromosome, n)
    ensures test == Intended && r.Found? ==> IsSolution(n, r.chromosome)
    ensures test == AsWritten && generations > 0 ==> r == Found(init[0], 0)
  {
    var population := init;
    var best: Option<int> := None;
    var stagnation := 0;
    ghost var bs: seq<int> := [];
    for gen := 0 to generations
      invariant population == PopulationAt(n, init, choices, gen)
      invariant bs == Bests(test, n, init, choices, gen)
      invariant KeepsGoing(bs, stagnationLimit)
      invariant Tracks(bs, best, stagnation)
      invariant test == AsWritten ==> gen == 0
    {
      var chromo, attacks := Score(test, n, population);
      ghost var bs' := bs + [attacks];
      assert bs' == Bests(test, n, init, choices, gen + 1);
      if attacks == 0 {
        return Found(chromo, gen);
      }
      var stop;
      best, stagnation, stop := Track(bs, best, stagnation, attacks, stagnationLimit);
      if stop {
        return Stagnated(gen);
      }
      population := NextGeneration(n, population, choices[gen]);
      bs := bs';
    }
    return Exhausted;
  }
}
