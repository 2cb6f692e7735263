# Strategic manipulation in college topic admission: a Dafny model

The repository studies a topic-admission problem. Students rank topics `1 .. nTopics` (lower is
better). An assignment gives each student one topic, and every topic must take between one and
two students. Solvers choose an assignment that minimises either the total or the largest
dissatisfaction. The core of the repository is a game of strategic manipulation in
`manipulate.py`. Students take turns in index order. Each one in turn re-solves the instance for
every strict ranking it could declare, and commits the declaration that makes its *true*
dissatisfaction strictly smaller. Next to the game sit the two brute-force solvers
(`sum/brut.py`, `minmax/brut.py`) and the min-max solver `minmax/flow.py`. The flow solver
binary-searches a threshold over a two-slots-per-topic flow network.

The project has these modules:

- `Wrappers` (`wrappers.dfy`): `Option`, `Result` and `Outcome`. Python exceptions become `Failure` values.
- `Seqs` (`seqs.dfy`): small sequence helpers: `Prepend`, `Without`, `Range`, `Factorial` and `NoDuplicates`, and the lexicographic order `LexLess` with `Sorted` and their lemmas.
- `Preferences` (`preferences.dfy`): the preference table.
  - Types: `Table`, `map<(int, int), int>`, with `Declaration` for one student's row.
  - `student_dissatisfaction`, `total_dissatisfaction` and `updated_preferences`.
- `Declarations` (`declarations.dfy`):
  - `itertools.permutations` in its output order;
  - `get_possible_student_preferences` as `Candidates`.
- `Manipulation` (`manipulate.dfy`):
  - the `GameState` class, whose `declared` field is rebound in place;
  - the best response of one student as a function (`BestResponse`, `Step`);
  - `Manipulator.manipulate` as the imperative method `Manipulate`, proved to perform `Step`;
  - the fixed-round driver as functions (`RoundFrom`, `Play`) and as the imperative method `SimulateGame`.
- `Enumeration` (`enumeration.dfy`):
  - `itertools.product(range(nTopics), repeat=nStudents)` in its lexicographic order;
  - the `topic_counts` loop and the capacity filter;
  - `RunningMin`, the strict running minimum that both brute-force solvers share.
- `SumBrut` (`sum_brut.dfy`) and `MinMaxBrut` (`minmax_brut.dfy`): each has:
  - `solve` as an imperative method;
  - the function `SolveResult` it is proved to compute;
  - the optimality, feasibility and tie-breaking lemmas about that function.
- `MinMaxFlow` (`minmax_flow.dfy`):
  - the cost matrix in an `array2`;
  - `is_feasible`, with networkx's maximum flow as an oracle parameter;
  - the slot-to-topic extraction;
  - the binary search of `solve_with_flow`.

The assignment solver of the game is a parameter: a deterministic function from the dimensions and
the declared table to an assignment, or `None` when it raises.

## Model

| member | source | states |
|---|---|---|
| Preferences.StudentDissatisfaction | manipulate.py:13-15 | Definition: the true rank of the topic `studentId` is assigned, `None` where Python raises, that is `IndexError` for a missing position and `KeyError` for a missing pair. TotalDefined and the `Manipulation` lemmas state what follows from it. |
| Preferences.TotalDissatisfaction | manipulate.py:17-18 | Definition: the sum of the dissatisfactions of students `0..nStudents-1`, `None` as soon as one lookup raises. TotalDefined states exactly when it is defined. |
| Preferences.TotalDefined | manipulate.py:13-18 | The total dissatisfaction is defined exactly when each of the `nStudents` per-student lookups `preferences[i, assignment[i]]` succeeds; otherwise the sum raises. |
| Preferences.UpdatedPreferences | manipulate.py:20-23 | Definition: the dict union `preferences \| update`, with `update` mapping `(studentId, t)` to the change's rank of `t`. Its keys and ranks are stated by UpdatedPreferencesSpec and UpdatedRows. |
| Preferences.UpdatedPreferencesSpec | manipulate.py:20-23 | The updated table's keys are the old keys plus `(studentId, t)` for every topic `t` of the change. Those pairs carry the change's ranks. Every other pair keeps its old rank. |
| Preferences.UpdatedRows | manipulate.py:20-23 | In the updated table, the changed student's row is its old row overwritten by the change. Every other student's row is exactly what it was. |
| Preferences.UpdateOverride | manipulate.py:20-23 | If a second update of the same student covers all topics of the first, doing both equals doing the second alone. |
| Preferences.UpdateKeepsKeys | manipulate.py:20-23 | On a table with every (student, topic) pair, an update by a full ranking of the topics leaves the key set unchanged. |
| Declarations.Permutations | manipulate.py:34 | Definition: `itertools.permutations(s)` in its output order, each element of `s` in position order followed by every permutation of the others. The lemmas below prove it sound, complete, repeat-free, counted by `\|s\|!` and sorted. |
| Declarations.PermutationsSound | manipulate.py:34 | Every sequence `Permutations(s)` produces is a rearrangement of `s`. |
| Declarations.PermutationsComplete | manipulate.py:34 | Every rearrangement of `s` is produced. |
| Declarations.PermutationsDistinct | manipulate.py:34 | For a sequence without repeats, no permutation is produced twice. |
| Declarations.PermutationsCount | manipulate.py:34 | Exactly `\|s\|!` permutations are produced. |
| Declarations.PermutationsSorted | manipulate.py:34 | For a strictly increasing `s`, such as `range(1, n + 1)`, the permutations come in strictly increasing lexicographic order. |
| Declarations.ToDeclarationRoundTrip | manipulate.py:35 | `dict(zip(range(n), p))` has domain `{0..n-1}`, and reading its ranks back in topic order gives `p`. |
| Declarations.Candidates | manipulate.py:32-35 | Definition: `dict(zip(range(nTopics), p))` for every permutation `p` of `1..nTopics`, in permutation order. The lemmas below state its count, shape, distinctness, completeness and order. |
| Declarations.CandidatesCount | manipulate.py:32-35 | There are `nTopics!` candidate declarations. |
| Declarations.CandidatesAreRankings | manipulate.py:32-35 | Each candidate has domain `{0..nTopics-1}`, and its ranks are a rearrangement of `1..nTopics`. |
| Declarations.CandidatesDistinct | manipulate.py:32-35 | The candidates are pairwise distinct. |
| Declarations.CandidatesComplete | manipulate.py:32-35 | Every strict ranking of the topics is among the candidates. |
| Declarations.RankingIsBijection | manipulate.py:32-35 | A ranking gives ranks in `1..nTopics`, and no two topics share a rank. |
| Declarations.CandidatesInOrder | manipulate.py:32-35 | An earlier candidate's ranks, read in topic order, are lexicographically smaller than a later candidate's. |
| Manipulation.GameState.constructor | manipulate.py:38-44 | The `GameState` dataclass: the solver, the true table, the declared table and the two dimensions are exactly the arguments. Only the declared table is a `var`; the others are constants of the object. |
| Manipulation.GameState.AsGame | manipulate.py:38-44 | Definition: the parts of the game state that no operation changes, bundled as a `Game` value for the functions that specify `Manipulate`. |
| Manipulation.Realised | manipulate.py:59-71 | Definition: the solver run on a declared table, then the student's true rank of its assigned topic; the solver's failure or a failed lookup is the error. StepNeverHurts and BestResponseFails state what follows from it. |
| Manipulation.Deviation | manipulate.py:59-66 | Definition: `compute_dissatisfaction(c)`: the true dissatisfaction of the student when it declares `c` and everybody else keeps the declared table. |
| Manipulation.Deviations | manipulate.py:75-76 | Definition: `compute_dissatisfaction` of every candidate in enumeration order, the values the loop scans. BestResponseCommits and CommitKeepsDeviations are stated with it. |
| Manipulation.Scan | manipulate.py:73-79 | The strict running minimum over the candidates' outcomes, starting from the baseline; a chosen index is a position of the outcomes. ScanSound and ScanExact state what it chooses. |
| Manipulation.ScanSound | manipulate.py:73-79 | The strict running minimum over the candidates' outcomes has three results. It fails exactly when some outcome fails. It keeps `None` only if no candidate beats the baseline. Otherwise it picks the first candidate reaching the minimum, and that minimum is strictly below the baseline. |
| Manipulation.ScanExact | manipulate.py:73-79 | Started from the baseline, the scan succeeds iff all candidates evaluate. It returns `None` iff none is strictly below the baseline. It returns `Some(k)` iff `k` is the first minimum strictly below the baseline. |
| Manipulation.FirstMinimumUnique | manipulate.py:75-79 | The first minimum below the baseline is unique, and when it exists some candidate improves. |
| Manipulation.BestResponse | manipulate.py:68-79 | The candidate the search commits, by its position in the enumeration, or `None`; a chosen position is a candidate's. The three lemmas below characterise it. |
| Manipulation.BestResponseFails | manipulate.py:59-79 | The search of `manipulate` (before its trace) raises exactly when the solver or a lookup fails, either for the baseline or for some candidate. |
| Manipulation.BestResponseKeeps | manipulate.py:73-82 | `bpreference` stays `None` exactly when no candidate gives a true dissatisfaction strictly below the baseline. |
| Manipulation.BestResponseCommits | manipulate.py:68-79 | The committed candidate is the first in enumeration order reaching the minimum over all candidates, and that minimum is strictly below the baseline. The converse holds too. |
| Manipulation.Trace | manipulate.py:84-101 | Definition: the lookups of the trace before and after the commit: the solver on the table, then the true rank of every student. It raises exactly when the solver fails or, by TotalDefined, some student's lookup fails. |
| Manipulation.Step | manipulate.py:68-101 | Definition: the table and the outcome one call of `manipulate` leaves. A failure in the search or the first trace keeps the table; a commit is followed by the second trace, whose failure keeps the new table. StepFails, StepChanges, StepNeverHurts and StepIdempotent state its properties. |
| Manipulation.StepFails | manipulate.py:59-101 | A call raises exactly when the search cannot evaluate everything, or when the first best candidate exists and the trace before or after its commit raises. |
| Manipulation.StepChanges | manipulate.py:82-95 | The table changes only by the commit of the first best candidate, after a trace that passed. |
| Manipulation.TraceDefined | manipulate.py:84-101 | When the true table ranks every pair and the solver places every student on an existing topic, the trace passes wherever the solver answers. |
| Manipulation.StepFailsExactly | manipulate.py:59-101 | For such a game a call raises exactly when the search cannot evaluate everything, and a raising call leaves the table as it was. |
| Manipulation.StepNeverHurts | manipulate.py:68-101 | After a step that returns, the student's true dissatisfaction is no worse than before. After a commit it is strictly better. |
| Manipulation.CommitKeepsDeviations | manipulate.py:59-95 | After a commit, every candidate's outcome for that student is what it was before the commit. |
| Manipulation.StepIdempotent | manipulate.py:68-101 | Right after a step, returned or raised, a second step for the same student, with nothing else changed, commits nothing. It returns when the first one returned or changed the table. |
| Manipulation.CandidatesSameTopics | manipulate.py:32-35 | Every candidate is defined on exactly the topics `0..nTopics-1`. |
| Manipulation.StepMoves | manipulate.py:82-101 | A step, returned or raised, either leaves the declared table as it is or lays one candidate over the student's row. |
| Manipulation.StepOfMoves | manipulate.py:48-107 | Every step of the game, for any student below `nStudents`, is such a move. |
| Manipulation.RoundFrom | manipulate.py:134-135 | Definition: students `s..nStudents-1` call `manipulate` in index order on the table each call leaves; the first raising call ends the round with its table and error. The rows and keys lemmas below are stated about it. |
| Manipulation.Play | manipulate.py:129-135 | Definition: `rounds` rounds in sequence, ending at the first raising call. The rows and keys lemmas below are stated about it. |
| Manipulation.MoveKeepsRow | manipulate.py:92-95 | A move preserves, for every student `s`, the fact that `s`'s row is either its initial row or that row overwritten by a candidate. |
| Manipulation.MovesKeepRows | manipulate.py:92-95 | A move preserves that fact for all students at once. |
| Manipulation.RoundKeepsRows | manipulate.py:134-135 | A round of moves preserves it, also when it ends with a raising call. |
| Manipulation.PlayKeepsRowsWith | manipulate.py:129-135 | Any number of rounds of moves preserve it. |
| Manipulation.PlayKeepsRows | manipulate.py:116-135 | Across all rounds of the game, and also when a call raises, each declared row is the initial row or the initial row overwritten by one enumerated ranking. |
| Manipulation.MovesKeepKeys | manipulate.py:92-95 | On a complete table, a move keeps the key set. |
| Manipulation.RoundKeepsKeys | manipulate.py:134-135 | On a complete table, a round of moves keeps the key set. |
| Manipulation.PlayKeepsKeysWith | manipulate.py:129-135 | On a complete table, any number of rounds of moves keep the key set. |
| Manipulation.PlayKeepsKeys | manipulate.py:116-135 | Starting from a complete table, the domain of the declared map never changes during the game, also when a call raises. |
| Manipulation.Manipulate | manipulate.py:48-107 | The method performs `Step` on the game state: `declared` becomes the table `Step` leaves and the outcome is `Step`'s. A failure in the search or before the commit keeps `declared`; a failure in the trace after the commit keeps the new table. The true table, the solver and the dimensions are constants of the object. |
| Manipulation.SimulateGame | manipulate.py:116-135 | The game state starts with both tables equal to `preferences`. The outcome and the final declared table are those of `Play` for `nRounds` rounds, with students in index order. The first raising call ends the game with its error and the table it left. |
| Enumeration.Product | sum/brut.py:10 | Definition: `itertools.product(range(nTopics), repeat=n)` in its output order. The lemmas below prove its members, count and lexicographic order. |
| Enumeration.ProductMembership | sum/brut.py:10 | An assignment is enumerated iff it has length `nStudents` and every entry is in `[0, nTopics)`. |
| Enumeration.ProductCount | sum/brut.py:10 | There are `nTopics^nStudents` assignments. |
| Enumeration.ProductSorted | sum/brut.py:10 | The assignments come in strictly increasing lexicographic order. |
| Enumeration.ProductEarlier | sum/brut.py:10 | An assignment lexicographically smaller than the `k`-th one is enumerated before position `k`. |
| Enumeration.CountTopics | sum/brut.py:11-13 | `topic_counts[t]` is the number of positions of the assignment holding `t`. |
| Enumeration.PassesFilter | sum/brut.py:11-16 | The filter accepts an assignment iff every topic is used at least once and at most twice. |
| Enumeration.FeasibleExists | sum/brut.py:10-16 | Some assignment passes the filter iff `nTopics <= nStudents <= 2 * nTopics`. |
| Enumeration.RunningMin | sum/brut.py:10-22 | The strict running minimum over the filtered entries from position `k` on; a chosen index is an entry's position. RunningMinSound states what it chooses. |
| Enumeration.RunningMinSound | sum/brut.py:10-22 | The strict running minimum over the filtered entries fails iff an evaluated entry fails. It is `None` only when no entry passed the filter. Otherwise it is the first entry reaching the minimum of all evaluated ones. |
| SumBrut.Total | sum/brut.py:18 | Definition: the sum of `preferences[i, a[i]]` over the students, that is `TotalDissatisfaction`, with `KeyError` at a missing pair. TotalDefined states when it is defined, and SearchFails and SearchFinds state what the search makes of it. |
| SumBrut.Search | sum/brut.py:7-22 | Definition: the running minimum of the totals over the admissible assignments in product order. The three lemmas below characterise it. |
| SumBrut.SearchFails | sum/brut.py:15-18 | The search raises `KeyError` exactly when some admissible assignment has a missing (student, topic) pair. |
| SumBrut.SearchEmpty | sum/brut.py:7-16 | No assignment is found exactly when `nTopics <= nStudents <= 2 * nTopics` does not hold. |
| SumBrut.SearchFinds | sum/brut.py:10-22 | The assignment found is admissible, and its total is the value returned. No admissible assignment has a smaller total. Every lexicographically earlier admissible assignment has a strictly larger total. |
| SumBrut.SolveResultSpec | sum/brut.py:3-24 | The result has length `nStudents`, entries in range and topic counts in `[1, 2]`. Its value is its total, at most the total of every admissible assignment, and ties go to the first assignment in product order. The solver fails with `KeyError` iff an admissible assignment lacks a pair. It fails at `list(None)` iff `nTopics <= nStudents <= 2 * nTopics` does not hold. |
| SumBrut.SolveResult | sum/brut.py:3-24 | Definition: the search's best assignment and total, `list(None)` failing when nothing was found. SolveResultSpec states its properties. |
| SumBrut.Solve | sum/brut.py:3-24 | The imperative loop, with its counting array, computes `SolveResult`. |
| MinMaxBrut.MaxDissatisfaction | minmax/brut.py:18 | `max` raises `ValueError` exactly when there are no students. Any other failure is a missing pair. |
| MinMaxBrut.MaxDissatisfactionSpec | minmax/brut.py:18 | `max` fails on a missing pair iff some lookup fails. On success it bounds every student's dissatisfaction and equals one of them. |
| MinMaxBrut.MaxBelowTotal | minmax/brut.py:18 | With non-negative ranks, the maximum is at most the total of `sum/brut.py:18`, and the total is at most `nStudents` times the maximum. |
| MinMaxBrut.Search | minmax/brut.py:7-22 | Definition: the running minimum of the maxima over the admissible assignments in product order. The three lemmas below characterise it. |
| MinMaxBrut.SearchFails | minmax/brut.py:15-18 | The search fails exactly when `max` fails for some admissible assignment. It is `ValueError` iff both dimensions are 0, and `KeyError` iff an admissible assignment lacks a pair. |
| MinMaxBrut.SearchEmpty | minmax/brut.py:7-16 | No assignment is found exactly when `nTopics <= nStudents <= 2 * nTopics` does not hold. |
| MinMaxBrut.SearchFinds | minmax/brut.py:10-22 | The assignment found is admissible, and its maximum is the value returned. No admissible assignment has a smaller maximum. Every lexicographically earlier admissible assignment has a strictly larger one. |
| MinMaxBrut.SolveResultSpec | minmax/brut.py:3-24 | The result is admissible, and its value is its maximum dissatisfaction, at most that of every admissible assignment; ties go to the first in product order. Each failure (empty `max`, missing pair, `list(None)`) happens exactly in its own case. |
| MinMaxBrut.SolveResult | minmax/brut.py:3-24 | Definition: the search's best assignment and maximum, `list(None)` failing when nothing was found. SolveResultSpec states its properties. |
| MinMaxBrut.Solve | minmax/brut.py:3-24 | The imperative loop, with its counting array, computes `SolveResult`. |
| MinMaxFlow.SlotCost | minmax/flow.py:8-10 | Definition: the cost of slot `j` for student `i`: the rank of topic `j` for the first `nTopics` slots, and the rank of topic `j - nTopics` plus `nTopics` for the others. BuildCostMatrix is proved to fill the matrix with it. |
| MinMaxFlow.BuildCostMatrix | minmax/flow.py:5-10 | The method raises `KeyError` iff some pair `(i, j)` with `i < nStudents`, `j < nTopics` is missing. Otherwise `cost[i][j] = pref[i,j]` and `cost[i][nTopics+j] = pref[i,j] + nTopics`, in a freshly allocated matrix. |
| MinMaxFlow.Edges | minmax/flow.py:24-27 | The student-to-slot edges at a threshold: one row per student and one column per slot, with an edge exactly when the slot's cost is at most the threshold. |
| MinMaxFlow.Demands | minmax/flow.py:35-44 | Definition: the items of the `demand` dict in insertion order: `1` for every topic, `0` for every slot, `-1` for every student, `nStudents` for the source and `-nTopics` for the sink. TotalDemand is proved from it. |
| MinMaxFlow.SumPositive | minmax/flow.py:49-54 | The loop over the demand items adds up exactly the positive demands (`PositiveDemand`). |
| MinMaxFlow.TotalDemand | minmax/flow.py:49-54 | The positive demands of the `demand` dict add up to `nStudents + nTopics`, proved from the dict's items. |
| MinMaxFlow.Feasible | minmax/flow.py:74 | Definition: the maximum flow on the threshold graph equals the total demand. FeasibleUpward and SolveWithFlow are stated with it. |
| MinMaxFlow.FirstUnit | minmax/flow.py:66-71 | The loop stops at the first slot carrying one unit of flow, if any. |
| MinMaxFlow.Extract | minmax/flow.py:63-71 | Slot `j` belongs to topic `j % nTopics` (line 31), so every extracted entry is `-1` or a topic in `[0, nTopics)`, one per student. |
| MinMaxFlow.IsFeasible | minmax/flow.py:12-74 | The result says the maximum flow on the threshold graph equals the total demand `nStudents + nTopics`. The assignments are those extracted from that flow. |
| MinMaxFlow.FeasibleUpward | minmax/flow.py:24-27 | Under the monotonicity hypothesis, feasibility at a threshold implies feasibility at every larger threshold. |
| MinMaxFlow.ExtractedWithinThreshold | minmax/flow.py:5-71 | If the flow uses only graph edges, each placed student's rank for its topic is at most the threshold. In the topic's second slot it is at most the threshold minus `nTopics`. |
| MinMaxFlow.MaxRank | minmax/flow.py:77 | `max(preferences.values())` of a non-empty table is a rank of the table, and no rank exceeds it. |
| MinMaxFlow.SolveWithFlow | minmax/flow.py:3-94 | The solver fails on a missing pair (`KeyError`) and on an empty table (`max`). Otherwise the answer is `-1` or in `[0, max + nTopics]`, a non-`-1` answer is feasible, and the assignments are those of the last oracle call at the answer. Under monotonicity the answer is the least feasible threshold of the range, and it is `-1` iff none is feasible. The loop terminates. |

## Left out

- Logging and file output are not modelled: the writes to `changes.txt` in `manipulate` and `simulate_game` (manipulate.py:81-107, 130-132), `save_preferences_table` (manipulate.py:138-160) and the `print` calls of `minmax/flow.py`. The lookups that feed the trace of `manipulate` (manipulate.py:84-101) are modelled, since they can raise before or after the commit; only the writes are left out, including any `OSError` from opening `changes.txt`. `save_preferences_table` reads the table with `get` and cannot raise on it.
- `LPSolver` and the `pulp` models (`sum/linear_programming.py`, `minmax/linear_programming.py`, and the root `linear_programming` module imported at manipulate.py:5) are abstracted. They become the `Solver` parameter, a deterministic function whose `None` result stands for the solver raising.
- The networkx graph and `nx.maximum_flow` (minmax/flow.py:12-59) are abstracted. They become the `MaxFlow` parameter: the flow value and per-student slot flows, a function of the dimensions and the student-to-slot edges. The other edges of the graph depend only on the dimensions.
- `binary_version.py`, `biparte_graph.py`, `utils.py`, `compare.py` and `drawings/draw_graph.py` are not part of this model. They are wrappers over foreign solvers, randomness and plotting.
- `SimulateGame` takes `nStudents` and `nTopics` as parameters in place of the constants 5 and 3 of manipulate.py:117-118. The default `n_rounds = 10` is the caller's choice of `nRounds`.
- The model follows the code where its description differs. The game runs a fixed number of rounds, with no convergence or cycle detection, and `manipulate` returns nothing (here only a `Pass`/`Fail` outcome standing for "returned" or "raised").
- `GameState` keeps the two tables rather than two `Preferences` wrappers. Nothing rebinds the true table, so it is a `const` of the class. That is how "the true preferences never change" is stated.
- Manipulation.SimulateGame: the game's invariants (keys preserved, rows from the candidates) are stated about `Play` in PlayKeepsKeys and PlayKeepsRows, not in the method's own ensures.
- Preferences.StudentDissatisfaction and Preferences.TotalDissatisfaction carry no ensures of their own; their properties are the lemmas TotalDefined and MaxDissatisfactionSpec.
- Enumeration.CountTopics requires every entry in `[0, nTopics)`, which holds for everything `itertools.product` yields. An out-of-range entry in Python would index past the list or wrap around from the end, and the model does not cover that.
- MinMaxFlow.SolveWithFlow: leastness and "`-1` iff none is feasible" rest on monotonicity of the oracle (`MonotoneOracle`), a hypothesis and not a proved fact about networkx.
- MinMaxFlow.ExtractedWithinThreshold assumes the oracle's flow uses only edges of the graph (`UsesEdges`).
- MinMaxFlow.SolveWithFlow: the answer is a threshold on penalised slot costs. The model does not prove it equals the true min-max dissatisfaction. ExtractedWithinThreshold only bounds each placed student's rank by it, and a placed student in a second slot by it minus `nTopics`. Read on its own terms, the graph of minmax/flow.py:19-58 saturates its demand at every threshold: `nStudents` units go super source, source, student, super sink, and `nTopics` units go super source, topic, sink, super sink, none of them through a slot. So networkx's `is_feasible` accepts every threshold, `solve_with_flow` answers 0, and with ranks of at least 1 no student is placed. The model's properties hold of that oracle too, since it is one instance of the `MaxFlow` parameter; they say nothing more about the threshold than the oracle does.
- MinMaxFlow.MaxRank walks the keys in an unspecified order; only the maximum it returns is modelled, which is independent of that order.
- Python integers are unbounded, as are Dafny's, so no wrap-around is modelled.
