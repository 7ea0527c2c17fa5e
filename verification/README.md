# Crossword constraint solver — a Dafny model

This project models the solving engine of a crossword generator: the
`CrosswordCreator` class of `generate.py` and the standalone
`enforce_node_consistency` of `p.py`. The engine has three stages.

1. It sets up a domain store that maps every slot (variable) of the grid to its
   candidate words.
2. It prunes the store with node consistency and with AC-3 arc consistency
   (Mackworth 1977), run over the letter-sharing constraints of crossing slots.
3. It runs a recursive backtracking search. The search picks variables by
   minimum remaining values with a domain-sharing tie-break, and orders words
   by a least-constraining-value score.

The puzzle itself (variables, word list, overlap table) is an immutable input,
`Puzzle.Crossword`. Its neighbour relation is derived from the overlap table.
The predicate `Puzzle.WellFormed` states what the engine relies on: every
overlap joins two distinct variables at indices inside both words, and is
recorded in both directions with the indices swapped.

Python exceptions are modelled as outcomes:

- node consistency on an empty domain gives `Failure(variable)`;
- `min` over no candidates gives `Raised(NoUnassignedVariable)`;
- an out-of-range character index in the consistency check gives
  `Raised(IndexOutOfRange)`, or `None` from `CheckConsistent`.

The search mutates one shared dictionary. The model passes the assignment
explicitly and returns it as each call leaves it, so the `None` that the undo
step writes is visible to the caller.

Files, one module each:

| file | module | models |
|---|---|---|
| `wrappers.dfy` | `Wrappers` | `Option`, `Result` |
| `collections.dfy` | `Collections` | injective maps, least elements, selection sort by key |
| `puzzle.dfy` | `Puzzle` | variables, words, overlaps, neighbours, the domain store |
| `node_consistency.dfy` | `NodeConsistency` | node consistency (`generate.py` and `p.py`) |
| `assignments.dfy` | `Assignments` | assignments, completeness, the consistency check, solutions |
| `arc_consistency.dfy` | `ArcConsistency` | `revise`, `get_arcs`, `ac3` |
| `heuristics.dfy` | `Heuristics` | `order_domain_values`, `select_unassigned_variable` |
| `search.dfy` | `Search` | `backtrack`, `solve`, and the corrected search |
| `undo_example.dfy` | `UndoExample` | the puzzle that exhibits the undo finding |

Three behaviours of the code are kept as written, where a reader of the
algorithm's description might expect otherwise:

- `solve` does not stop when AC-3 reports an emptied domain. It discards the
  verdict and searches anyway. This does no harm: the variable with the emptied
  domain is the first one the search selects, it has no word to try, and the
  search reports that no solution exists.
- The value-ordering score is the number of unassigned neighbours whose domain
  contains the candidate word itself: a domain's size minus its entries unequal
  to the word. It is not a count of unequal entries.
- The undo step writes `None` for the variable rather than removing it (see
  Findings).

## Model

| member | source | states |
|---|---|---|
| Puzzle.InitialDomains | generate.py:15-18 | The store starts with exactly one entry per variable of the puzzle, each holding the whole word list. |
| NodeConsistency.EnforceNodeConsistency | generate.py:98-108 | Succeeds exactly when every variable keeps some word of its length. On success the keys are unchanged, every domain is a subset of the old one, every word has its variable's length, and every word of the right length is kept. On failure the reported variable is a key with no word of its length. A store that is already node consistent with non-empty domains comes back unchanged. The standalone function in p.py (lines 5-10) is the same procedure on a caller's map and is modelled by this member too. |
| NodeConsistency.PrunedShrinks | p.py:6-7 | The pruned store has the same keys, subsets of the old domains, and only words of each variable's length. |
| NodeConsistency.PrunedIdempotent | p.py:7 | Pruning a pruned store gives the same store. |
| ArcConsistency.Revise | generate.py:111-140 | With no overlap entry (or `None`) the store is returned unchanged with `false`. Otherwise only x's domain can change, and it only loses words. Every word with a partner in y's domain at the overlap is kept, and every word left has one. The flag is true exactly when x's domain changed, which is exactly when the arc was not already consistent. |
| ArcConsistency.ReviseKeepsSolutions | generate.py:127-138 | A revision never removes a word that some solution drawn from the store uses. |
| ArcConsistency.ShrinkingCandidates | generate.py:173-175 | A revision that changes x's domain strictly shrinks the set of remaining (variable, word) pairs, which bounds the AC-3 loop. |
| ArcConsistency.GetArcs | generate.py:142-153 | The list holds exactly the pairs (x, y) with y a neighbour of x, each once. |
| ArcConsistency.Requeue | generate.py:177-180 | The old queue is kept as a prefix. Behind it, an arc (z, x) is appended exactly once for every neighbour z of x other than y, even when the arc is already queued, and nothing else is appended. |
| ArcConsistency.ReverseArcKept | generate.py:177-180 | Revising x against y cannot break the arc (y, x), which is why that arc is not queued again. |
| ArcConsistency.CoverageKept | generate.py:170-180 | One AC-3 step keeps every crossing arc either queued or arc consistent. |
| ArcConsistency.ArcStep | generate.py:170-180 | One round of the loop: domains only shrink and stay node consistent, and every solution is kept. Emptying x's domain stops the loop. Otherwise no non-empty domain becomes empty, coverage of the inconsistent arcs is kept, and either the remaining (variable, word) pairs strictly shrink or the store is unchanged and the queue is shorter. An arc-consistent store is left unchanged. |
| ArcConsistency.AC3 | generate.py:155-182 | Domains only shrink and stay node consistent. `false` is returned only with an emptied domain, in which case no solution exists. On `true` no domain that was non-empty has become empty. On `true` from the full arc list, or from a list covering every inconsistent arc, every crossing arc is arc consistent. Every solution drawn from the input store is still drawn from the output store. An already arc-consistent store is returned unchanged with `true`. |
| Collections.ValuesCount | generate.py:198-200 | A map has at most as many distinct values as keys, and exactly as many precisely when no two keys share a value, so the length comparison detects repeated values. |
| Assignments.CheckConsistent | generate.py:192-227 | Returns true exactly when the assignment is consistent: no repeated value (two `None`s count as a repeat), every word of its slot's length, and crossing words agreeing at the overlap. The index error can only occur when some word does not fit its slot. |
| Assignments.ConsistentFits | generate.py:206-208 | A consistent assignment holds only words of their slots' lengths. |
| Assignments.CompleteIffAllHeld | generate.py:185-190 | For an assignment without reset entries, `Assignments.AssignmentComplete` holds exactly when every variable of the puzzle is a key. |
| Assignments.ResetNeverCompletes | generate.py:185-190 | A variable of the puzzle held as `None` keeps every extension of the assignment incomplete. |
| Assignments.EmptyConsistent | generate.py:192-227 | The empty assignment is consistent. |
| Assignments.ConsistentRestricts | generate.py:198-227 | Dropping entries from a consistent assignment keeps it consistent. |
| Heuristics.ConflictTerm | generate.py:238-243 | One term of the conflict count (a neighbour's domain size minus the number of its words unequal to the value) is 1 when the domain contains the value and 0 otherwise. |
| Heuristics.ConflictCountCounts | generate.py:236-243 | The conflict count summed over a set of neighbours, as `Heuristics.ConflictCount` defines it term by term, is the number of those neighbours whose domain contains the value. |
| Heuristics.ScoreCountsConflicts | generate.py:236-243 | `Heuristics.Score`, the key the words are sorted by, equals the conflict count over the neighbours of the variable that are not keys of the assignment. |
| Collections.SortByKey | generate.py:246 | The result lists every element of the set exactly once, in non-decreasing order of the key. |
| Heuristics.OrderDomainValues | generate.py:229-246 | A permutation of the variable's domain, without repeats, non-decreasing in the number of unassigned neighbours whose domain holds the word. |
| Heuristics.SelectUnassignedVariable | generate.py:249-263 | Fails exactly when every variable of the store is a key of the assignment. Otherwise it returns a variable that is not a key, and no other such variable has a smaller domain, or an equal domain and a larger degree. The degree, `Heuristics.Degree`, is the number of other variables whose domain shares a word with the variable's (lines 259-260). |
| Search.Backtrack | generate.py:267-286 | A complete assignment is returned as it stands. A found assignment is complete, consistent (unless it is the input), extends the input, and takes new words from the domains. Every key the call adds holds `None` or a word of its domain. A failure leaves the input as it was or with a `None` entry. When every variable is a key but the assignment is not complete, `min` over no candidates raises. Node consistency and fitting lengths rule out the index error. Under those two conditions, an unassigned variable with an empty domain makes the call fail and leave the assignment unchanged: minimum remaining values selects a variable with an empty domain, and it has no word to try. |
| Search.TryWords | generate.py:279-286 | The same promises for the loop over the ordered words. When every word makes the assignment inconsistent, the loop reports failure and leaves the variable reset to `None`. |
| Search.TryWord | generate.py:280-285 | One trial: every other entry is kept. A failed trial leaves the variable at `None`. An inconsistent trial fails without searching further. A consistent trial is handed to the recursive search, so when every variable is then a key without the assignment being complete, the trial raises. |
| Search.SearchBelowReset | generate.py:267-285 | A search started from an assignment in which a variable of the puzzle is reset to `None` never reports a solution, and the entry stays `None`. |
| Search.FoundBelow | generate.py:282-284 | A solution found below a trial keeps every entry of the loop's starting assignment. |
| Search.NoFitNoSolution | generate.py:103-108 | A variable with no word of its length rules out every solution. |
| Search.SolutionWidens | generate.py:94-96 | A solution drawn from the pruned store is a solution over the word list. |
| Search.Propagate | generate.py:94-95 | Node consistency fails exactly when some variable has no word of its length, and then no solution exists. Otherwise the store is node consistent with subsets of the word list and keeps every solution. An emptied domain means no solution. A puzzle that is already consistent keeps its initial store. |
| Search.Solve | generate.py:90-96 | The error from node consistency occurs exactly when some variable has no word of its length. The index error never occurs. A returned assignment is a solution drawn from the final store. When AC-3 emptied a domain, the outcome is "no solution", exactly as if the AC-3 verdict had been acted on. |
| Search.BacktrackCorrected | generate.py:267-286 | The search with the undo deleting the key: the same soundness promises as the search as written. A failure leaves the assignment exactly as it was. Without reset entries `min` never raises. Whenever a solution drawn from the store extends the input, a solution is found. |
| Search.TryWordsCorrected | generate.py:279-286 | The corrected loop finds a solution whenever one extends the assignment, because the solution's word for the variable is in the list. |
| Search.TryWordCorrected | generate.py:280-285 | One corrected trial: a failure returns the assignment unchanged, and a trial that a known solution extends succeeds. |
| Search.SolveCorrected | generate.py:90-96 | With the corrected search the solver is complete: whenever the puzzle has a solution over its word list, one is returned, and what is returned is such a solution. |
| UndoExample.FirstChoiceRejected | generate.py:198-225 | In the example, with B holding "aa", every word for C is rejected. |
| UndoExample.ExampleSettled | generate.py:98-182 | The example's initial store is node and arc consistent, so propagation leaves it unchanged. |
| UndoExample.FirstOrderTies | generate.py:229-246 | In the example every word scores 1 for B from the empty assignment, so every order of the three words, including one that tries "aa" first, meets the ordering's contract. |
| UndoExample.SecondChoiceConsistent | generate.py:192-227 | In the example, {B: "bc", C: None} passes the consistency check. |
| UndoExample.ExampleSolvable | generate.py:185-227 | {B: "bc", C: "cb"} solves the example. |
| UndoExample.FailedDescent | generate.py:279-285 | In the example, the loop over C's words below B = "aa" rejects every word and leaves {B: "aa", C: None}. |
| UndoExample.ResetBlocksSearch | generate.py:276-285 | The as-written run on the example: after the failed descent below B = "aa" leaves C at `None`, the trial B = "bc" raises `NoUnassignedVariable`. |
| UndoExample.CorrectedSolves | generate.py:90-96 | The corrected solver returns a solution of the example. |

## Left out

- Rendering (`letter_grid`, `print`, `save`) and the command line (`main`):
  terminal and image output, fonts and floating-point layout.
- The `crossword` module (grid parsing, slot geometry, the overlap table, the
  word file) is not part of this model. A puzzle is an abstract input
  constrained by `WellFormed`. Neighbours are taken to be the other variables
  with an overlap entry that is not `None`.
- Python's set and dictionary iteration order. Every choice the source makes by
  iterating (which variable is pruned first, tie-breaks in the heuristics, the
  order of the consistency check) is an unspecified choice. The contracts hold
  for every such choice.
- The messages of the raised exceptions; only which error occurs is modelled.
- NodeConsistency.EnforceNodeConsistency: on failure the caller's map is left
  partly pruned in the source. The model returns only the failing variable,
  because the solver does not use the store after the error.
- Assignments.CheckConsistent: whether a too-short neighbour word raises or
  returns false depends on the order of the checks. The contract says only
  that the error cannot occur when every word fits its slot.
- Search.Backtrack: which solution is found, and whether one is found at all,
  depends on the iteration order and on the undo finding. The contract states
  soundness and the failure on an empty domain, not completeness.
- Search.Solve: does not promise a solution when one exists, because the
  search as written can miss it (see Findings).

## Findings

| source | as written | input that shows it | evidently intended | confidence | as-written member | corrected member |
|---|---|---|---|---|---|---|
| generate.py:285 | A failed trial is undone with `assignment[var] = None`. The variable stays a key. Variable selection then treats it as assigned, completeness treats it as unassigned, and two such entries are repeated values. Once a call that tried at least one word fails, its variable stays a `None` key, and no later frame writes that variable again. From then on no call anywhere in the search can return a solution; the search ends in failure or raises from `min([])`. | Slots B (across) and C (down), with letter 1 of B equal to letter 0 of C; words {"aa", "bc", "cb"}. Propagation removes nothing, and all three words score the same for B. If "aa" is tried first, every word for C is rejected and C is left as `None`. B = "bc" is then consistent, and the next call raises because no variable is left to select. Yet {B: "bc", C: "cb"} is a solution. | Delete the variable's entry on undo (`del assignment[var]`), so that a failed trial leaves the assignment unchanged and the search is complete. | not executed | UndoExample.ResetBlocksSearch | Search.SolveCorrected |
