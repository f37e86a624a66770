# N-Queens solvers, modelled in Dafny

The repository places n queens on an n×n board with three independent
solvers. A board is a sequence of column indices, one per row. It is a
solution when no two queens share a column or a diagonal.

- `solve_n_queens_bt` (algorithms/backtracking.py) searches depth-first,
  row by row and column by column. Three boolean arrays mark the occupied
  columns, the row+col diagonals and the row−col+n−1 diagonals. They are
  set and cleared in lock-step with the partial board.
- `solve_n_queens_mac_optimized` (main.py) first runs AC-3 arc consistency
  on per-row domain sets, with `revise` and a work queue of arcs. It then
  runs a backtracking search (`backtrack_mac`) that picks the unassigned row
  with the smallest domain (`select_unassigned_var`).
- `GeneticFastGPU` (algorithms/genetic.py) evolves permutations. It uses a
  batched diagonal-conflict counter, order crossover, swap mutation, elitism
  and a stagnation counter that ends the run early.

The model has four modules:
- `Queens` (queens.dfy): the shared board predicates and permutation facts.
- `Backtracking` (backtracking.dfy): a class `BitsetSearch` over three
  `array<bool>` fields and the board.
- `Mac` (mac.dfy): a class `MacSearch` with a domain map and an assignment
  map. `Revise`, the AC-3 loop and the search update them in place.
- `Genetic` (genetic.dfy): the counter as functions; crossover and mutation
  on arrays; the generation loop as a method.

Proved results:
- The backtracking solver returns the lexicographically least solution, and
  `None` exactly when none exists or n ≤ 0.
- The MAC solver returns a valid assignment exactly when a solution exists.
- Crossover and mutation keep permutations.
- The stagnation logic returns a chromosome only at the first generation
  whose best chromosome has no attacks. It stops early only at the first
  generation where the stagnation count reaches the limit.

Behaviour of the code that the model keeps as it is:
- The backtracking solver fills rows in order and tries columns
  ascending, so the first solution it finds is the lexicographically
  least. `Backtracking.SolveBt` proves this.
- The genetic counter tests `== (i - j)`, which no pair with i < j can
  meet (see Findings).
- Board sizes below 1 are not rejected up front:
  - the backtracking solver returns `None` for n ≤ 0;
  - the MAC solver returns `{}` for n = 0;
  - for n < 0 the MAC solver's call to `min` on an empty list raises
    `ValueError`, modelled as `MinOfEmpty`.

## Model

| member | source | states |
|---|---|---|
| Queens.SmallBoards | algorithms/backtracking.py:21-24 | no board of size 2 or 3 is a solution; [0], [1,3,0,2] and [0,4,7,5,2,6,1,3] are solutions of sizes 1, 4 and 8 |
| Queens.PermutationFacts | algorithms/genetic.py:15 | a permutation of [0, n), as `torch.randperm` yields, has length n, columns in [0, n) and no repeated column |
| Queens.FirstArgMin | algorithms/genetic.py:20-21 | the returned position holds a minimum and every earlier position holds a strictly larger value, i.e. it is the first minimum `torch.argmax` of negated scores picks |
| Backtracking.UpDiagonal | algorithms/backtracking.py:13 | row + col is a valid index of the `2n-1` array for every row and column in [0, n) |
| Backtracking.DownDiagonal | algorithms/backtracking.py:13 | row − col + n − 1 is a valid index of the `2n-1` array for every row and column in [0, n) |
| Backtracking.OnUpAppend | algorithms/backtracking.py:15-16 | after appending a queen, a row+col diagonal is occupied iff it was before or it is the new queen's |
| Backtracking.OnDownAppend | algorithms/backtracking.py:15-16 | the same for the row−col+n−1 diagonals |
| Backtracking.NextQueenSafe | algorithms/backtracking.py:13-14 | a queen in the next row keeps the board non-attacking iff its column and both diagonals are free |
| Backtracking.LeastThroughColumn | algorithms/backtracking.py:12-18 | when no solution uses an earlier column in this row, the least solution through column col is the least solution extending the board |
| Backtracking.NextColumn | algorithms/backtracking.py:13-19 | a blocked column, or one whose recursive call failed, is used by no solution extending the board |
| Backtracking.BitsetSearch.Blocked | algorithms/backtracking.py:13-14 | the `continue` test holds iff placing the queen would attack an earlier one |
| Backtracking.BitsetSearch.PlaceQueen | algorithms/backtracking.py:15-16 | sets exactly the column and two diagonal cells, appends the column, and keeps the three arrays mirroring the board |
| Backtracking.BitsetSearch.RemoveQueen | algorithms/backtracking.py:19-20 | pops the last queen and clears exactly its three cells, keeping the mirroring invariant |
| Backtracking.BitsetSearch.Backtrack | algorithms/backtracking.py:8-21 | on True the solution is the lexicographically least full solution extending the board; on False the board and all three arrays are as on entry and no solution extends the board |
| Backtracking.SolveBt | algorithms/backtracking.py:1-24 | a returned board is the lexicographically least solution; None iff n ≤ 0 or no solution exists; None for n = 2 and 3 |
| Mac.ConsistentSymmetric | main.py:39-44 | `is_consistent` is symmetric in its two (row, value) pairs and fails iff the values are equal or the row and value distances agree |
| Mac.ConsistentIsNonAttacking | main.py:39-44 | for queens of a board, `is_consistent` holds iff they do not attack each other |
| Mac.Range | main.py:13 | `set(range(n))`: exactly the integers in [0, n) |
| Mac.RangeSize | main.py:13 | `set(range(n))` has n elements |
| Mac.FullDomains | main.py:13 | every row 0..n−1, and no other key, has the full column set as its domain |
| Mac.ArcsFrom | main.py:14 | the constraint list holds exactly the ordered pairs (i, j) of rows with i ≠ j |
| Mac.Requeued | main.py:22-24 | the arcs appended hold exactly the pairs (xk, xi) with xk a row other than xi and xj |
| Mac.Requeue | main.py:22-24 | the loop appends those arcs, in ascending xk, to the queue |
| Mac.ReviseKeepsSolutions | main.py:29-37 | revising never removes the value of a solution lying within the domains |
| Mac.ReviseKeepsArcs | main.py:29-37 | after revising (xi, xj) that arc is consistent, and every consistent arc stays consistent except arcs into xi from rows other than xj when xi's domain shrank |
| Mac.RequeueKeepsArcs | main.py:19-24 | after one pop and the re-queue, every arc not in the queue is consistent |
| Mac.ReviseKeepsShape | main.py:36 | revising keeps the domains well shaped, only shrinks them and keeps every solution within them |
| Mac.ArcStepKeepsInvariant | main.py:17-24 | one iteration of the `while queue` loop preserves the AC-3 invariant |
| Mac.ShrinkTotal | main.py:36 | removing values from one domain strictly lowers the total domain size, which bounds the loop |
| Mac.MacSearch.Revise | main.py:29-37 | domains[xi] becomes the set of its values with a support in domains[xj], nothing else changes, and the result is True iff the domain shrank |
| Mac.MacSearch.ProcessArc | main.py:18-24 | the new domains are the old ones with xi's domain replaced by its revision; `emptied` holds iff that domain is empty; otherwise the new queue is the tail, plus the arcs (xk, xi) when the domain shrank; the queue invariant is kept and total domain size or queue length decreases |
| Mac.MacSearch.Propagate | main.py:15-24 | when the queue empties every arc is consistent and no domain is empty; on failure some domain is empty; domains only shrink and keep every solution |
| Mac.EmptiedDomainNoSolution | main.py:20-21 | an emptied domain after propagation means no solution exists, so the early `return None` is sound |
| Mac.Unassigned | main.py:60 | the unassigned rows in the dictionary's key order (ascending), each exactly once |
| Mac.UnassignedRows | main.py:60 | with some row unassigned the list is non-empty and its rows lie in [0, n) |
| Mac.DomainSizes | main.py:61 | the `len(domains[var])` key of each listed row |
| Mac.SelectUnassignedVar | main.py:59-61 | the chosen row is unassigned, its domain is no larger than any unassigned row's, and strictly smaller than every lower-numbered unassigned row's (the first minimum `min` returns) |
| Mac.SelectFacts | main.py:59-61 | the first minimum of the domain sizes, read back as a row, has those properties |
| Mac.SelectedSizes | main.py:61 | the first minimum of the sizes is strictly below the sizes of all rows listed before it |
| Mac.CoversAllRows | main.py:47 | an assignment of rows that covers every row has n entries |
| Mac.SomeUnassigned | main.py:47-49 | when `len(assignment) != n` some row is unassigned, so `min` is not applied to an empty list |
| Mac.FullyAssigned | main.py:47-48 | a consistent assignment within the domains with n entries is a full assignment |
| Mac.AssignmentIsSolution | main.py:47-48 | a full consistent assignment read as a board is a solution |
| Mac.SolutionIsAssignment | main.py:47-48 | a solution within the domains, read as a dictionary, is a full consistent assignment |
| Mac.ExtendAssignment | main.py:51-52 | adding a value of the row's domain that passes the `all(...)` test keeps the assignment consistent and within the domains |
| Mac.SkipAbsent | main.py:50 | a value not in the row's domain extends to no full assignment |
| Mac.SkipInconsistent | main.py:51 | a value that fails the `all(...)` test extends to no full assignment |
| Mac.SkipFailed | main.py:53-56 | a value whose recursive call failed extends to no full assignment |
| Mac.NoneAtAll | main.py:50-57 | when every value of the chosen row is ruled out, no full assignment extends the assignment |
| Mac.MacSearch.TryValue | main.py:51-56 | on success row v holds `value`, which is in v's domain and consistent with the old assignment, and the full assignment extends the old one; on failure the assignment is restored and the value is ruled out |
| Mac.MacSearch.BacktrackMac | main.py:46-57 | on success the assignment is full, consistent and extends the old one; on failure it is restored and no full assignment extends it |
| Mac.SolutionsWithinFull | main.py:13 | every solution lies within the initial full domains |
| Mac.FailedSearchNoSolution | main.py:26-27 | a search that fails from the empty assignment after propagation means no solution exists |
| Mac.SolveMac | main.py:12-27 | ValueError iff n < 0; for n ≥ 0 a dictionary is returned iff a solution exists, and it is one |
| Genetic.CountAttacksBatch | algorithms/genetic.py:51-60 | one score per chromosome of the batch, in batch order, each the double-loop count of that chromosome |
| Genetic.AttacksZeroIff | algorithms/genetic.py:55-58 | a chromosome scores 0 iff no pair i < j passes the diagonal test |
| Genetic.AttacksBound | algorithms/genetic.py:55-58 | twice the count is at most n(n−1): the loops visit n(n−1)/2 pairs |
| Genetic.AsWrittenNeverAttacks | algorithms/genetic.py:57 | with the test as written every chromosome scores 0 |
| Genetic.IntendedZeroIffSolution | algorithms/genetic.py:57 | with the intended test a permutation scores 0 iff it is a solution |
| Genetic.AsWrittenMissesDiagonal | algorithms/genetic.py:57 | [0, 1] is a permutation and not a solution; the test as written scores it 0, the intended test 1 |
| Genetic.Template | algorithms/genetic.py:70-71 | the child holds parent1's values on [start, end) and -1 everywhere else |
| Genetic.FillValues | algorithms/genetic.py:72 | the fill list holds exactly parent2's values that are not in the child, in parent2's order |
| Genetic.FillSucceeds | algorithms/genetic.py:74-77 | the fill loop finishes without IndexError iff there are at least as many fill values as -1 entries |
| Genetic.FillKeeps | algorithms/genetic.py:74-77 | filling keeps the length and every entry that is not -1 |
| Genetic.FillPicks | algorithms/genetic.py:74-77 | the -1 positions receive the first fill values, left to right |
| Genetic.FillMultiset | algorithms/genetic.py:74-77 | the child holds the kept entries plus the fill values used |
| Genetic.SegmentAndFill | algorithms/genetic.py:71-72 | for permutation parents the segment and the fill list together hold each column once, and the fill list has n − (end − start) entries |
| Genetic.CrossoverOfPermutations | algorithms/genetic.py:68-78 | for permutation parents and start < end < n, `ptr` never overruns; the child is a permutation equal to parent1 on [start, end) and holding the fill list, in order, outside it |
| Genetic.Crossover | algorithms/genetic.py:68-78 | the array-built child equals the order crossover of the parents, None being the IndexError |
| Genetic.FillHoles | algorithms/genetic.py:73-77 | the in-place loop succeeds iff the fill list suffices and then leaves the filled child in the array |
| Genetic.Swap | algorithms/genetic.py:82 | positions i and j are exchanged and every other position is unchanged |
| Genetic.SwapTwice | algorithms/genetic.py:82 | swapping the same positions twice restores the chromosome |
| Genetic.SwapKeepsPermutation | algorithms/genetic.py:80-82 | a swap keeps the multiset of columns, so a permutation stays one |
| Genetic.Mutate | algorithms/genetic.py:80-82 | the array afterwards is the old one with positions i and j exchanged |
| Genetic.Child | algorithms/genetic.py:41-45 | a bred child of permutation parents, mutated or not, is a permutation of length n |
| Genetic.Elite | algorithms/genetic.py:36-39 | the elite rows are the population rows at the elite indices, in order |
| Genetic.Children | algorithms/genetic.py:40-45 | one child per breeding, each a permutation |
| Genetic.NextPopulation | algorithms/genetic.py:36-47 | the next population has the current size and consists of permutations |
| Genetic.PopulationAt | algorithms/genetic.py:15-47 | every generation's population keeps the initial size and consists of permutations |
| Genetic.Breed | algorithms/genetic.py:41-45 | crossover then an optional in-place swap produce the modelled child |
| Genetic.NextGeneration | algorithms/genetic.py:36-47 | the elite copies followed by the bred children form the modelled next population |
| Genetic.BestChromosome | algorithms/genetic.py:20-22 | the chosen chromosome belongs to the population and has no more attacks than any other |
| Genetic.BestAttacks | algorithms/genetic.py:20-23 | the best score is some chromosome's score and no larger than any chromosome's |
| Genetic.LastRecord | algorithms/genetic.py:28-32 | the latest generation up to k that strictly improved on all earlier ones; none after it did |
| Genetic.LastRecordIsMin | algorithms/genetic.py:28-30 | the latest strict improvement holds the running minimum, i.e. `best_attacks` |
| Genetic.RecordStep | algorithms/genetic.py:28-32 | `best_chromo_attacks < best_attacks` holds iff the generation is a strict improvement on all earlier ones, and the last improvement moves accordingly |
| Genetic.ExtendKeepsGoing | algorithms/genetic.py:25-34 | a generation that neither succeeds nor stops extends a run that has not ended |
| Genetic.Track | algorithms/genetic.py:28-34 | the loop stops iff the generation is not a strict improvement and the generations since the last one reach the limit; otherwise best and counter track the history |
| Genetic.Score | algorithms/genetic.py:20-23 | picks the first best chromosome and its score; as written that is always row 0 with score 0; with the intended test score 0 means a solution |
| Genetic.Solve | algorithms/genetic.py:14-49 | returns the first best chromosome of the first generation whose best has no attacks, provided no earlier generation stopped on stagnation; stops at the first generation where stagnation reaches the limit; otherwise runs out of generations; as written returns row 0 of the first population |

## Left out

- The tkinter interface, board drawing, entry parsing and the worker thread in main.py are not part of this model. They are presentation and concurrency around the solvers.
- Randomness is passed in as parameters:
  - `torch.randperm` gives the initial population;
  - `random.sample` gives the cut points, parents and swap positions;
  - `random.random` gives the choice to mutate;
  - `torch.multinomial` gives the parents through the `Choices`/`Breeding` values.
- Fitness-proportional `selection` and `elite_size = int(pop_size * elite_ratio)` are floating-point computations. The model takes the elite indices and the parent indices as parameters. It does not constrain the elite to be the best-scoring rows of `argsort`.
- torch tensors and devices are modelled as sequences. A chromosome is a `seq<int>`, a batch a sequence of them, and the float32 scores of algorithms/genetic.py:53,58 are modelled as unbounded integer counts. A count above 2^24 is no longer exact in float32. That is reachable with the corrected counter only for n ≥ 5794. As written every count is 0, which float32 holds exactly.
- Genetic.Mutate: models the intended exchange on a plain array. The tuple assignment at algorithms/genetic.py:82 acts on a torch tensor. Its effect depends on torch's view semantics, which are not visible here.
- Genetic.Solve: requires a non-empty initial population of permutations, as `torch.randperm` produces. With an empty population `torch.argmax` raises. Given permutations, the crossover's IndexError cannot arise inside the loop, so `Solve` has no outcome for it. `Crossover` alone models it as None.
- Genetic.Solve: distinguishes the two `None` results, stagnation (line 34) and an exhausted budget (line 49), as `Stagnated` and `Exhausted`.
- Genetic.ChoicesFit: rejects choices with exactly one breeding. Then `selected` holds a single row and `random.sample(selected, 2)` at algorithms/genetic.py:41 raises `ValueError`. Examples are `pop_size = 1`, or `pop_size = 2` with `elite_ratio = 0.5`. `Genetic.NextPopulation`, `Genetic.NextGeneration` and `Genetic.Solve` therefore have no outcome for that error.
- Mac.MacSearch.Revise: requires every domain value to be a column in [0, n). The method scans the columns in ascending order instead of iterating over the set. Both hold for every call the solver makes, and the result does not depend on the order.
- Mac.SelectUnassignedVar: requires the domain keys to be exactly the rows 0..n−1, which holds for every call, and some row to be unassigned. The source's `min` of an empty list is modelled in `Mac.SolveMac` as `MinOfEmpty`.
- The model does not prove that a solution exists for every n ≥ 4. The solvers' contracts characterise their `None` results by the absence of a solution. `Queens.SmallBoards` proves solutions for n = 1, 4 and 8.

## Findings

| source | as written | input that shows it | evidently intended | confidence | as-written member | corrected member |
|---|---|---|---|---|---|---|
| algorithms/genetic.py:57 | `(batch[:, i] - batch[:, j]).abs() == (i - j)` with j > i, so the right side is negative and no pair ever counts; every chromosome scores 0 and `solve` returns the first row of the random initial population at generation 0 | the chromosome [0, 1] of a 2-board: both queens share a diagonal, yet it scores 0 | compare with `(j - i)`, the row distance, so a permutation scores 0 exactly when it is a solution | not executed | Genetic.AsWrittenMissesDiagonal | Genetic.IntendedZeroIffSolution |
