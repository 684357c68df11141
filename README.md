# LST 2-approximation for unrelated parallel machines — a Dafny model

This project models the deterministic core of a Python implementation of the
Lenstra–Shmoys–Tardos 2-approximation for scheduling `n` jobs on `m` unrelated
machines. `P[i][j]` is the processing time of job `j` on machine `i`. These
parts are covered:

- **Rounding engine** (`BipartiteGraph.py`, module `Bipartite`).
  - Graph G has one node per machine and job, and an edge `(i, j)` iff the LP
    value `x[(i, j)] > 0`.
  - G's connected components are computed, then the pseudoforest check runs
    (no component has more edges than nodes).
  - Graph G' is G without its degree-1 jobs.
  - G' is matched component by component: a DFS tree matching, or a cycle
    matching that drops one cycle edge and then tree-matches.
- **Search controllers** (`SearchProcedure.py`, module `SearchProcedure`;
  `Procedure.py`, module `Procedure`).
  - The greedy upper bound.
  - Rounding of an LP solution with G'’s matching.
  - The 2-relaxed decision procedure.
  - The bisection over `[t // m, t]`.
  - The two files differ only in which accepted solution the bisection keeps.
- **Assignment arithmetic** (`RoundingTheorem.py`, `linear_programming.py`,
  `LP.py`; modules `RoundingTheorem`, `LinearProgramming`, `LP`).
  - The eligible variable keys and the constraint index sets `Mj(t)` / `Ji(t)`.
  - Dict-to-matrix conversion.
  - The 0/1-counted and the fractional makespans.
- **Set-based graph** (`Graph.py`, module `Graph`): its stack DFS, the
  component listing, and `is_tree_edge`.
- **Brute-force reference** (`brute_force.py`, module `BruteForce`):
  - every job order in `itertools.permutations` order;
  - load-aware list scheduling with lowest-index tie-breaking;
  - the first order of least makespan is kept.

Shared definitions live in `Common` (matrices, maxima, sums, `Option`, and a
`Result` whose `RecursionError` case stands for Python's recursion-limit
exception). Machine and job nodes and their `"m{i}"` / `"j{j}"` labels are in
`Nodes`.

The LP solver is a parameter `solve: Program -> Option<(real, map<Key, real>)>`.
Its input is the constraint program the code builds. Its output is the
objective together with the variable values, or `None` when the status is not
optimal. networkx's first simple cycle is a parameter
`firstCycle(component, edges)`. Connectivity and pseudoforests are defined
mathematically.

Where the code and its documentation disagree, the model follows the code:

- `SearchProcedure.binary_search_procedure` keeps the accepted solution of
  LARGEST makespan, the first such on ties (SearchProcedure.py:111-112). Its
  docstring promises the smallest.
- `Procedure.binary_search_procedure` never assigns `best_makespan`, so every
  acceptance replaces the kept solution: the LAST accepted solution is returned
  (Procedure.py:110-117). It has the smallest accepted deadline.
- `remove_single_degree_jobs` removes only job nodes of degree 1. Machines of
  degree 0 stay (BipartiteGraph.py:125-129).
- `match_cycle_component` as written cannot succeed on a cycle; see
  "## Findings".

## Model

| member | source | states |
|---|---|---|
| Nodes.DecimalRoundTrip | BipartiteGraph.py:61-65 | parsing the decimal digits written into a node label gives back the index |
| Nodes.LabelRoundTrip | BipartiteGraph.py:196-200 | `int(label[1:])` of `"m{i}"` / `"j{j}"` recovers the index, and the label starts with `j` exactly for job nodes |
| Nodes.LabelInjective | BipartiteGraph.py:59-65 | distinct machine/job nodes get distinct labels |
| Common.MaxInt | RoundingTheorem.py:143 | `max(completion_times)` is at least every load and equal to one of them |
| Common.MaxIntIsLeastUpperBound | RoundingTheorem.py:143 | a bound holds for every load iff it holds for their maximum |
| Common.MaxReal | linear_programming.py:97 | `max` of the fractional loads bounds every load and is attained |
| Common.Range | brute_force.py:22 | `range(k)` lists `0..k-1` in increasing order |
| Common.Filter | linear_programming.py:32-35 | the filter keeps exactly the members satisfying the test, and an increasing list stays increasing |
| Common.DistinctCardinality | BipartiteGraph.py:187-194 | a list has as many distinct elements as entries iff it has no repeat |
| Common.IncreasingUnique | linear_programming.py:32-35 | two increasing lists with the same members are equal |
| RoundingTheorem.EligibleKeys | RoundingTheorem.py:22 | the LP variables are exactly the pairs with `P[i][j] <= t`, row-major, without repeats |
| RoundingTheorem.JoinRows | RoundingTheorem.py:22 | appending a later machine's row to row-major keys keeps them row-major |
| RoundingTheorem.MachinesFor | RoundingTheorem.py:34-35 | the job-`j` constraint sums over exactly the machines with `P[i][j] <= t`, increasing |
| RoundingTheorem.JobsFor | RoundingTheorem.py:41-42 | the machine-`i` constraint sums over exactly the jobs with `P[i][j] <= t`, increasing |
| RoundingTheorem.BuildProgram | RoundingTheorem.py:34-51 | one assignment row per job over its eligible machines, one deadline row per machine with bound `di[i]` over its eligible jobs, one makespan row per machine over its eligible jobs |
| RoundingTheorem.LP | RoundingTheorem.py:4-61 | `None` iff the solver reports a non-optimal status; the solution's keys are exactly the eligible pairs |
| RoundingTheorem.IP | RoundingTheorem.py:64-123 | same as `LP` for the IP, whose deadline rows use `di[i] + t` (the helper `IpDeadlines` builds those bounds) |
| RoundingTheorem.ProgramUsesCreatedVariables | RoundingTheorem.py:22-51 | every variable a constraint mentions is one the program created |
| RoundingTheorem.CalculateMakespan | RoundingTheorem.py:127-144 | the result is at least every machine's 0/1-counted load and equal to one of them |
| RoundingTheorem.CountedLoadDependsOnAssignment | RoundingTheorem.py:139-140 | a machine's counted load depends only on which of its keys hold exactly 1; absent keys and fractions count nothing |
| RoundingTheorem.CountedLoadIsListedTotal | RoundingTheorem.py:186 | the counted load is the total time of the job list `print_schedule` selects, which holds the assigned jobs in increasing order |
| RoundingTheorem.AssignedJobs | RoundingTheorem.py:186 | the selected jobs are exactly those whose key is present with value 1, increasing |
| RoundingTheorem.CountedLoadBounds | RoundingTheorem.py:137-140 | for non-negative times a counted load lies between 0 and the machine's row total |
| RoundingTheorem.ConvertDecisionToArray | RoundingTheorem.py:147-160 | a fresh `m`×`n` array holding the value at present keys and 0 elsewhere; linear_programming.py:65-78 and `create_assignment_array` at LP.py:5-11 are the same loop |
| LinearProgramming.AllKeys | linear_programming.py:22 | the variables are every pair `(i, j)`, in row-major order |
| LinearProgramming.AllKeysExtendEligibleKeys | linear_programming.py:22 | every eligible key is a variable here, and every ineligible pair is one too |
| LinearProgramming.EligibleMachines | linear_programming.py:31-36 | the loop builds `Mj_t` equal to the machines with `P[i][j] <= t`, increasing; LP.py:46-51 is the same loop |
| LinearProgramming.EligibleJobs | linear_programming.py:39-44 | the loop builds `Ji_t` equal to the jobs with `P[i][j] <= t`, increasing; LP.py:54-59 is the same loop |
| LinearProgramming.BuildConstraints | linear_programming.py:31-51 | assignment rows over `Mj_t`, deadline rows over `Ji_t` with bound `di[i]`, and makespan rows over all jobs |
| LinearProgramming.ConstraintsAgreeWithRoundingTheorem | linear_programming.py:31-44 | the assignment and deadline rows coincide with RoundingTheorem.py's; only the makespan rows range over every job |
| LinearProgramming.ConstraintsUseCreatedVariables | linear_programming.py:22-51 | every variable the constraints mention exists |
| LinearProgramming.FullLP | linear_programming.py:4-61 | `None` iff the solver fails; a solution has a value for every pair |
| LinearProgramming.CalculateMakespan | linear_programming.py:81-98 | the result is at least every fractional load `sum_j x[i][j] * P[i][j]` and equal to one of them; `print_schedule` computes the same makespan at lines 133-140 |
| LinearProgramming.IntegralLoadIsCounted | linear_programming.py:94 | when every value is 0 or 1, the fractional load equals the 0/1-counted load |
| LinearProgramming.IntegralMakespanIsCounted | linear_programming.py:97 | when every value is 0 or 1, the fractional makespan equals the maximum counted load |
| LP.CalculateMakespan | LP.py:125-138 | reading every key, the result is at least every fractional load and equal to one |
| LP.SolutionHasEveryKey | LP.py:36 | LP.py's LP creates a variable for every pair, so its makespan reads every key safely |
| LP.EligibleKeysMissSomePair | LP.py:133 | a solution of RoundingTheorem.py's LP lacks a pair with `P[i][j] > t`, so LP.py's makespan would raise on it |
| Graph.Graph.constructor | Graph.py:2-16 | machine and job ids are the first and second halves of every key whatever its value; edges are exactly the keys with value > 0 |
| Graph.Graph.Dfs | Graph.py:33-50 | the component is empty if `start` was visited, else `start` plus every job id not yet visited; the visited set grows by exactly the component |
| Graph.DfsDone | Graph.py:43-50 | once the stack is empty, the component and visited set are the ones above |
| Graph.PopUnvisited | Graph.py:44-48 | visiting a node pushes every unvisited job id and strictly shrinks the unvisited part, so the loop ends |
| Graph.Graph.GetConnectedComponents | Graph.py:18-31 | components are non-empty and pairwise disjoint and cover every machine and job id (nothing if there is no machine); the first is one machine id plus every job id, the rest are singletons of machine ids that are not job ids |
| Graph.AppendComponent | Graph.py:26-29 | appending a new component keeps the list disjoint and well shaped |
| Graph.Graph.IsTreeEdge | Graph.py:73-99 | the result is always true: no other edge can equal the given one |
| Bipartite.AddNodes | BipartiteGraph.py:59-65 | the node loops add exactly `m0..m(m-1)` and `j0..j(n-1)` |
| Bipartite.AddEdges | BipartiteGraph.py:67-70 | the edge loop adds exactly the keys with value > 0 |
| Bipartite.BipartiteGraph.constructor | BipartiteGraph.py:39-78 | G has exactly those nodes and edges, lists its connected components, and `is_pseudoforest` holds iff G is a pseudoforest; the matching is empty |
| Bipartite.BipartiteGraph.ComponentOf | BipartiteGraph.py:93-98 | the component of a node is the least edge-closed node set containing it |
| Bipartite.BipartiteGraph.FindConnectedComponents | BipartiteGraph.py:93-98 | the stored list holds each connected component exactly once and covers every node |
| Bipartite.ComponentsMeet | BipartiteGraph.py:93-98 | two components are equal or disjoint |
| Bipartite.EveryComponentListed | BipartiteGraph.py:93-98 | every component of the graph occurs in the list |
| Bipartite.ExtendComponentList | BipartiteGraph.py:93-98 | adding the component of an uncovered node keeps a partial component list |
| Bipartite.ScanDone | BipartiteGraph.py:93-98 | a scan over every node yields a complete component list |
| Bipartite.UnionMembership | BipartiteGraph.py:93-98 | a node is covered iff some listed component contains it |
| Bipartite.BipartiteGraph.CheckPseudoforestProperty | BipartiteGraph.py:102-116 | the flag stays true iff G is a pseudoforest; any violation makes it false |
| Bipartite.PseudoforestTest | BipartiteGraph.py:107-112 | if every component has at most as many edges as nodes, so does G; the two tests together hold iff G is a pseudoforest |
| Bipartite.DisjointClosedCounts | BipartiteGraph.py:107-112 | node and edge counts of disjoint closed components add up |
| Bipartite.SumEdgeCountsBounded | BipartiteGraph.py:110-112 | per-component edge bounds add up to the global bound |
| Bipartite.RemoveJobs | BipartiteGraph.py:128-129 | removing the listed jobs leaves the other nodes and deletes exactly the edges at removed jobs |
| Bipartite.RemoveJobStep | BipartiteGraph.py:129 | removing one more job deletes exactly its edges |
| Bipartite.BipartiteGraph.RemoveSingleDegreeJobs | BipartiteGraph.py:120-129 | exactly the degree-1 jobs and their edges go; every machine and every other edge stays |
| Bipartite.RemovalKeepsGraph | BipartiteGraph.py:120-129 | removing jobs keeps the graph well formed and keeps every machine node |
| Bipartite.NoSingleDegreeJobRemains | BipartiteGraph.py:125-129 | no remaining job has degree 1, since a job's degree is unchanged by removing other jobs |
| Bipartite.NeighbourList | BipartiteGraph.py:172 | neighbours are listed in increasing index order and are exactly the adjacent nodes |
| Bipartite.AdjacentSymmetric | BipartiteGraph.py:172-181 | adjacency is symmetric |
| Bipartite.FirstOther | BipartiteGraph.py:172-176 | the chosen child is a neighbour other than the parent; none exists iff every neighbour is the parent |
| Bipartite.FirstOtherIsFirst | BipartiteGraph.py:172-176 | the chosen child is the first neighbour in list order that is not the parent |
| Bipartite.BipartiteGraph.Enter | BipartiteGraph.py:168-176 | entering `node` from `parent` adds it to the visited nodes with that parent; a job is matched to its first neighbour other than the parent, and the matched machines are exactly the dict's machines; the node is appended to the entry order and its parent edge to the tree edges; the search state is kept: entries are first children, no job twice, one tree edge per entered node after the root |
| Bipartite.EnterKeepsState | BipartiteGraph.py:168-176 | the entries stay first children, visited jobs stay matched, no job is matched twice, and the matched machines are the dict's machines |
| Bipartite.EnterDict | BipartiteGraph.py:174-175 | entering a new job extends the dict without repeating a job, and the matched-machine set grows by that job's machine |
| Bipartite.EnterOrder | BipartiteGraph.py:168-181 | appending the entered node keeps the entry order: the root alone has no parent, and every later node's parent was entered before it |
| Bipartite.EnterTreeEdges | BipartiteGraph.py:168-181 | entering a node adds exactly the edge from its parent, so there is still one tree edge per entered node after the root, each between a node and its parent |
| Bipartite.BipartiteGraph.Dfs | BipartiteGraph.py:168-181 | the search from `node` only adds nodes of the component, keeps every earlier parent entry and enters each new node from below `node`; one that ends normally leaves no edge from a newly visited node to an unvisited one; one that reaches an already visited node other than its parent, where the code's recursion without a visited set never ends, has found more edges among the visited nodes than tree edges |
| Bipartite.ChildSearched | BipartiteGraph.py:179-181 | the search below one neighbour keeps the earlier parent entries and enters nothing from above `node`; if it ended normally, one more neighbour is searched and the visited set stays closed beyond `node` |
| Bipartite.RevisitExtraEdge | BipartiteGraph.py:179-181 | reaching a visited node along an edge that joins neither it to its parent nor its parent to it gives an edge among the visited nodes that is not a tree edge |
| Bipartite.RevisitMeansNotTree | BipartiteGraph.py:179-181 | a search that finds more edges among its nodes than tree edges shows the component has at least as many edges as nodes, so it is not a tree |
| Bipartite.ComponentEdgesGrow | BipartiteGraph.py:243 | a connected component has at least `|c| - |s|` more edges than any non-empty part `s` of it |
| Bipartite.SearchedFromRoot | BipartiteGraph.py:167-184 | a closed search started at a job root, with a consistent entry order, is a complete search of the component: every node after the root was entered from an adjacent earlier one |
| Bipartite.SearchResult | BipartiteGraph.py:168-184 | after the search, every dict entry matches a component job to an adjacent component machine, entered from its DFS parent |
| Bipartite.TreeOutcome | BipartiteGraph.py:184-194 | after a closed search from a job root, the dict, entry order and parents describe a complete search of the component in which every visited job is matched to its first non-parent neighbour, and the reported success is `#matched machines == #dict entries == #jobs` |
| Bipartite.SuccessCounts | BipartiteGraph.py:187-194 | the count test holds iff the matching is injective on machines and covers every job of the component |
| Bipartite.BipartiteGraph.MatchTreeComponent | BipartiteGraph.py:141-202 | no job: `false` and nothing appended; otherwise the dict's pairs are appended as `(machine, job)` whether or not it succeeds; the dict comes from a complete DFS of the component from a job root, every job matched to its first non-parent neighbour; success means injective and covering; on a tree component the search always finishes (the model sets no recursion depth limit), and it succeeds there when the component has a job and every job has at least two edges |
| Bipartite.TreeSearchMatchesAll | BipartiteGraph.py:168-194 | on a tree component whose jobs all have at least two edges, a finished search matches every job, and no machine twice |
| Bipartite.ClosedFillsComponent | BipartiteGraph.py:179-184 | a closed, non-empty part of a component is the whole component, so a finished search has visited all of it |
| Bipartite.AllTreeEdges | BipartiteGraph.py:179-184 | a search that has visited every node of a tree went along every one of its edges |
| Bipartite.MatchedChild | BipartiteGraph.py:170-181 | when every edge is a tree edge, the machine a job is matched to (its first non-parent neighbour) was entered from that job |
| Bipartite.BranchingJobHasChild | BipartiteGraph.py:170-176 | a job with at least two edges has a neighbour other than its parent, so it gets matched |
| Bipartite.BipartiteGraph.AppendPairs | BipartiteGraph.py:196-200 | the dict's entries are appended in order as `(machine index, job index)` |
| Bipartite.ChunkAppended | BipartiteGraph.py:196-200 | the appended pairs are edges, their jobs lie in the component, and no job is appended twice |
| Bipartite.BipartiteGraph.MatchCycleComponent | BipartiteGraph.py:204-232 | `false` with nothing appended for an empty component, no cycle, or an odd first cycle; otherwise `true`, and the appended pairs are those of a complete tree matching of the root's part of the component without the cycle's first edge (dropping that edge can split the component when `firstCycle` returns a 2-cycle of `to_directed()`) |
| Bipartite.ClosedWalkIsEven | BipartiteGraph.py:219-220 | every closed walk of the bipartite graph has even length |
| Bipartite.WalkAlternates | BipartiteGraph.py:219-220 | a closed walk alternates between machines and jobs |
| Bipartite.BipartiteGraph.MatchComponent | BipartiteGraph.py:239-246 | a component with one edge fewer than nodes is tree-matched by a complete DFS, never stops with `RecursionError` when it is a tree (the model sets no recursion depth limit), succeeds when it is a tree with a job and every job has at least two edges, and reports success exactly when every job is matched and no machine twice; any other component is tree-matched without the first edge of its cycle, and reports success exactly when it is non-empty and its cycle non-empty and even; otherwise nothing is appended; the appended pairs are edges of the component, with no job twice |
| Bipartite.BipartiteGraph.MatchComponentAt | BipartiteGraph.py:239-246 | one round of matching_process on the k-th component: afterwards the first k + 1 components are matched as MatchComponent states, unless the round stops with `RecursionError`, which happens only when the graph has a component that is not a tree |
| Bipartite.NonTreeWitness | BipartiteGraph.py:239-246 | a listed component that is not a tree is a component of the graph that is not a tree |
| Bipartite.MatchingRound | BipartiteGraph.py:239-246 | one loop round appends the pairs of its component's dict: the per-component record grows by that component, and the appended pairs stay edges of the components so far, with no job twice |
| Bipartite.BipartiteGraph.MatchingProcess | BipartiteGraph.py:234-246 | appends, in component order, exactly the pairs of one matching round per component, each round tree- or cycle-matching its component as MatchComponent states; every appended pair is an edge of G' whose job is a node of G', and no job is appended twice; `RecursionError` only when some component of the graph is not a tree |
| Bipartite.BipartiteGraph.ReduceAndMatch | BipartiteGraph.py:81-89 | G' is G without the degree-1 jobs and their edges, its components are recomputed, the matching is the per-component rounds of MatchingProcess over them, and every matched pair is an edge where the LP value is positive, with no job matched twice; `RecursionError` only when some component of G' is not a tree |
| Bipartite.CycleStepAlwaysRaises | BipartiteGraph.py:219-227 | for every non-empty component with a cycle, the step as written raises |
| SearchProcedure.FastestAmongIsFirstFastest | SearchProcedure.py:35 | the scan returns a machine of least time among the first `k`, strictly faster than every earlier one |
| SearchProcedure.FastestMachineIsFirstFastest | SearchProcedure.py:35 | `argmin(P[:, j])` is the first machine of least processing time for job `j` |
| SearchProcedure.GreedySchedule | SearchProcedure.py:27-37 | the loop's result is the greedy makespan: the maximum load after each job is added to its fastest machine; Procedure.py:29-39 is the same function |
| SearchProcedure.GreedyLoadsStep | SearchProcedure.py:36 | adding job `j` raises only its fastest machine's load, by `P[i][j]` |
| SearchProcedure.GreedyTotal | SearchProcedure.py:34-36 | the greedy loads add up to the sum over jobs of their least processing time |
| SearchProcedure.GreedyLoadsGrow | SearchProcedure.py:34-36 | with non-negative times, loads only grow as jobs are added |
| SearchProcedure.JobBelowGreedy | SearchProcedure.py:35-37 | every job's least processing time is at most the greedy makespan |
| SearchProcedure.GreedyBounds | SearchProcedure.py:35-37 | the greedy makespan lies between every job's least time and the sum of least times |
| SearchProcedure.RoundedIsIntegral | SearchProcedure.py:56-60 | rounding keeps the keys, makes every value 0 or 1, and gives 1 exactly on matched keys and keys already at 1 |
| SearchProcedure.RoundedIdempotent | SearchProcedure.py:56-60 | rounding a rounded solution again changes nothing |
| SearchProcedure.Variables.Round | SearchProcedure.py:56-60 | the in-place loops leave the variables equal to the rounded solution; Procedure.py:59-63 is the same update |
| SearchProcedure.RoundLpSolution | SearchProcedure.py:40-62 | `None` iff G is not a pseudoforest, and then nothing changes; otherwise the returned G' has exactly the nodes and edges of G less its degree-1 jobs, lists their components, and its matching is the per-component matching over them, with support edges only and no job twice; the variables become the solution rounded with that matching; Procedure.py:42-65 has the same effect, since the copy at SearchProcedure.py:55 is shallow and shares the variables; `RecursionError` only when G is a pseudoforest and some component of G' is not a tree, and then nothing changes |
| SearchProcedure.ReduceBuilt | BipartiteGraph.py:81-89 | on the graph just built from an LP solution, reducing and matching leaves exactly the nodes and edges of G' for that solution; `RecursionError` only when some component of G' is not a tree; otherwise the components are listed and matched as ReduceAndMatch states, along the support and with no job twice |
| SearchProcedure.TwoRelaxedDecisionProcedure | SearchProcedure.py:65-92 | an infeasible LP or a non-pseudoforest support gives `None`; otherwise G'’s matching is a per-component matching of the support less its degree-1 jobs, lies along the support with no job twice, and `d` is accepted exactly when the LP solution rounded with that matching loads no machine beyond `2 * d`; an accepted schedule records that rounding, matching and counted makespan; `None` always means a rejected deadline, for a matching of that same kind; `RecursionError` only when the LP is feasible, its support is a pseudoforest and some component of G' is not a tree; Procedure.py:68-95 is the same procedure |
| SearchProcedure.BisectionShrinks | SearchProcedure.py:107-114 | every probed `d` lies in `[lower, upper)`, the bounds stay ordered, and each call shrinks the interval |
| SearchProcedure.AcceptedDeadlinesDecrease | SearchProcedure.py:109-110 | a later probe lies below every earlier accepted deadline |
| SearchProcedure.BoundsMeet | SearchProcedure.py:104-107 | `t // m == t` iff `t == 0` or `m == 1`, the cases where no decision is made |
| SearchProcedure.DivisionBelow | SearchProcedure.py:104 | the starting lower bound `t // m` lies in `[0, t]` |
| SearchProcedure.KeptLargestIsLargest | SearchProcedure.py:111-112 | the kept solution has the largest makespan among acceptances, the first on ties; nothing is kept iff nothing was accepted |
| SearchProcedure.SearchStep | SearchProcedure.py:108-114 | one loop iteration updates the bounds as the bisection does and keeps the replace rule |
| SearchProcedure.Probe | SearchProcedure.py:107-114 | one round asks the decision procedure at `(upper + lower) // 2`; the recorded call moves the bounds by the bisection's rule, stays inside the first bounds and is decided like every earlier call; `RecursionError` only when the decision procedure stops at that midpoint on a G' with a non-tree component; Procedure.py:112-119 runs the same round |
| SearchProcedure.StoppedAtMidpoint | SearchProcedure.py:107-114 | a search whose calls lead to an open interval, and whose decision procedure stops at its midpoint, has stopped there |
| SearchProcedure.DecidedEach | SearchProcedure.py:107-114 | the recorded calls are decided exactly when each of them is: a schedule only for an accepted deadline, `None` only for a rejected one |
| SearchProcedure.KeptLargestResult | SearchProcedure.py:109-112 | the kept solution is an accepted one of largest makespan |
| SearchProcedure.Bisect | SearchProcedure.py:107-114 | the loop performs a bisection from the given bounds, every call is a decision-procedure outcome, and the result is the kept-largest one; equal bounds give `None`; `RecursionError` only at the midpoint of the interval the recorded calls lead to, where G' has a non-tree component |
| SearchProcedure.BinarySearch | SearchProcedure.py:95-117 | bisects `[t // m, t]` from the greedy `t`; every recorded call is decided (a schedule only for an accepted deadline, `None` only for a rejected one); a result has `t` set, passed the decision procedure and has the largest makespan of all acceptances; `None` iff nothing was accepted, always when `t // m == t`; `RecursionError` only at the next midpoint of the recorded calls, where G' has a non-tree component |
| Procedure.KeptLastIsLast | Procedure.py:116-117 | the kept solution is the last accepted one; nothing is kept iff nothing was accepted |
| Procedure.KeptLastAtUpperBound | Procedure.py:114-117 | the last accepted deadline is the final upper bound |
| Procedure.KeptLastHasSmallestDeadline | Procedure.py:112-117 | the last accepted solution has the smallest accepted deadline |
| Procedure.KeptLastResult | Procedure.py:114-122 | the kept solution passed the decision procedure, with the final bound and the least accepted deadline |
| Procedure.Bisect | Procedure.py:112-119 | the loop performs a bisection from the given bounds and returns the last accepted solution; equal bounds give `None`; `RecursionError` only at the midpoint of the interval the recorded calls lead to, where G' has a non-tree component |
| Procedure.BinarySearch | Procedure.py:98-122 | every recorded call is decided (a schedule only for an accepted deadline, `None` only for a rejected one); a result has `t` set, passed the decision procedure, and its deadline is the final bound and the least accepted one; `None` iff nothing was accepted, always when `t // m == t`; `RecursionError` only at the next midpoint of the recorded calls, where G' has a non-tree component |
| BruteForce.Without | brute_force.py:22 | removing one entry leaves the rest of the multiset |
| BruteForce.PermutationsSound | brute_force.py:22 | every enumerated order rearranges the jobs |
| BruteForce.PermutationsComplete | brute_force.py:22-25 | every rearrangement of the jobs is enumerated |
| BruteForce.IdentityFirst | brute_force.py:22 | the first order enumerated is the identity |
| BruteForce.PermutationsAreOrders | brute_force.py:22-25 | every enumerated order lists each job exactly once |
| BruteForce.FirstLeastIsLeast | brute_force.py:32-37 | the strict comparison picks the first machine minimising `machine_times[i] + P[i][job]` |
| BruteForce.ChosenIsLeastLoaded | brute_force.py:32-37 | each job of an order goes to the first machine of least resulting time |
| BruteForce.LoadsStep | brute_force.py:41 | assigning a job raises only the chosen machine's time, by its processing time |
| BruteForce.ScheduleCells | brute_force.py:26-40 | schedule cell `[i][pos]` is 1 iff the job at position `pos` went to machine `i` |
| BruteForce.ScheduleColumns | brute_force.py:40 | each column, indexed by position in the order, holds exactly one 1 |
| BruteForce.MinMachine | brute_force.py:32-37 | the machine loop returns the first least-loaded choice, never `None` |
| BruteForce.ScheduleOrder | brute_force.py:26-44 | the loop builds that order's schedule and its makespan `max(machine_times)` |
| BruteForce.KeepFirstLeast | brute_force.py:25-49 | over a non-empty list of orders, it keeps the first order of least makespan with its schedule |
| BruteForce.KeepStep | brute_force.py:47-49 | one iteration replaces the best only on a strictly smaller makespan |
| BruteForce.BruteForceScheduling | brute_force.py:4-51 | the result is the first least-makespan schedule over all permutations, no worse than the identity order |
| BruteForce.BruteForceIsOptimal | brute_force.py:47-51 | the returned makespan is at most the makespan of every job order |

## Left out

- The PuLP/CBC solves are a parameter `solve`. The model keeps the constraint
  program and the variable keys and proves nothing about optimality or
  extreme points.
- LP values are Dafny `real`s, not floats. Only the `> 0` and `== 1` tests,
  sums and maxima are used. `int()` of the greedy's float maximum is exact
  for integer times.
- Printing, `print_graph_info`, `print_subgraph_info` and the matplotlib
  drawing are not modelled. The pure parts of `print_schedule` are:
  RoundingTheorem.py:186 and linear_programming.py:133-140.
- `find_connected_subgraphs` (BipartiteGraph.py:131-137) is not modelled. It
  stores views nobody reads; the matching iterates the components directly.
- `get_machine_nodes` / `get_job_nodes` are inlined as node-kind filters.
- `Graph.is_pseudoforest` (Graph.py:52-71) is not modelled. It unpacks integer
  node ids as edges, so it raises on any non-empty component.
- `round_decision` (linear_programming.py:101-108) and `print_LP_rounded`
  (LP.py:99-121) are not modelled: they use float `round()` and printing.
- The LP functions' solver calls are not modelled; only their keys and index
  sets are.
- The other files are outside this model: IP.py, BestSchedule.py,
  OptimalSchedule.py, approximate_polynomial_schedule.py, main.py, test.py,
  the testing/ scripts, SchedulingProblem.py (reduced to the `Schedule`
  record), and the CSV and data-generation files.
- networkx's `simple_cycles` is the parameter `firstCycle`. Its result is not
  assumed to be a cycle of the component. Bipartite.CycleStepAlwaysRaises
  needs that only as a hypothesis.
- Set and dict iteration orders that Python leaves to the implementation are
  arbitrary choices (`:|`) in the model:
  - the root of the tree DFS;
  - the order of components;
  - the order of `visited`/`job_nodes` pushes in Graph.py.
- Neighbour order is ascending index order. This is networkx's insertion order
  for the row-major keys.
- Bipartite.BipartiteGraph.Dfs: the search keeps the visited set the model
  needs to state its result. Where the code, which has none, would recurse
  around a cycle until Python's limit, the search stops at the first node it
  reaches again. Bipartite.BipartiteGraph.MatchTreeComponent reports that as
  `RecursionError`.
- Bipartite.BipartiteGraph.MatchTreeComponent: ignores Python's recursion
  depth limit (1000 frames by default). On a tree component deep enough to
  reach it, the code raises `RecursionError`; the model finishes the search
  and returns `Ok`. The same holds for MatchComponent, which the model lets
  finish on every tree component.
- Bipartite.DropFirstEdge: when the first two nodes of `firstCycle`'s cycle
  are not joined by an edge of the component, `remove_edge` would raise
  `NetworkXError`; the model keeps every edge instead. `simple_cycles` only
  returns real cycles, so this needs a `firstCycle` that is not one.
- Bipartite.BipartiteGraph.MatchCycleComponent: does not prove `Ok`. After
  the drop the component is a tree only when `firstCycle` returns a cycle
  of it, which the model does not assume; otherwise the search may stop
  with `RecursionError`, as the code's recursion would.
- Bipartite.BipartiteGraph.MatchingProcess: does not prove `Ok`, for the
  reason given for MatchCycleComponent. It proves that `RecursionError`
  comes only from a component that is not a tree.
- Bipartite.BipartiteGraph.ReduceAndMatch: does not prove `Ok`, for the same
  reason.
- SearchProcedure.RoundLpSolution: does not prove `Ok`, for the same reason.
- SearchProcedure.ReduceBuilt: does not prove `Ok`, for the same reason.
- SearchProcedure.TwoRelaxedDecisionProcedure: does not prove `Ok`, for the
  same reason.
- `BipartiteGraphG` / `BipartiteGraphG2` are not defined in the modelled
  files. They are modelled as the constructor (graph G and pseudoforest check)
  and Bipartite.BipartiteGraph.ReduceAndMatch (graph G' and its matching) on
  the same object.
- SearchProcedure.BinarySearch: does not prove `Ok`, for the reason given for
  MatchCycleComponent. It proves that `RecursionError` comes only from the
  next probed deadline, whose G' has a non-tree component.
- Procedure.BinarySearch: does not prove `Ok`, for the same reason.
- SearchProcedure.BinarySearch: requires non-negative processing times. With
  a negative greedy bound `t`, `t // m > t` and the code's loop need not end.
- Procedure.BinarySearch: requires non-negative processing times, for the
  same reason.
- Bipartite.BipartiteGraph.MatchComponent: uses the corrected cycle step of
  "## Findings". On a non-tree component with a non-empty even cycle the code
  raises at BipartiteGraph.py:227; the model tree-matches without that edge.
- Bipartite.BipartiteGraph.MatchingProcess: uses the corrected cycle step
  through MatchComponent, so it returns a matching where the code raises.
- Bipartite.BipartiteGraph.ReduceAndMatch: uses the corrected cycle step, so
  it returns a matching where G' has a non-tree component and the code raises.
- SearchProcedure.RoundLpSolution: uses the corrected cycle step, so it
  rounds where G' has a non-tree component and the code raises.
- SearchProcedure.TwoRelaxedDecisionProcedure: uses the corrected cycle
  step, so it decides where G' has a non-tree component and the code raises.
- SearchProcedure.BinarySearch: uses the corrected cycle step, so a search
  that reaches a deadline whose G' has a non-tree component goes on where
  the code raises.
- Procedure.BinarySearch: uses the corrected cycle step, for the same
  reason.
- `itertools.permutations` is a generator. The model enumerates the same
  sequence eagerly.
- A matrix is modelled as at least one machine with rows of equal length.
  `len(P[0])` and `max` of an empty list raise in the code.

## Findings

| source | as written | input that shows it | evidently intended | confidence | as-written member | corrected member |
|---|---|---|---|---|---|---|
| BipartiteGraph.py:227 | `remove_edge` is called on `self.graph.subgraph(component)`, a read-only networkx view, so the step raises as soon as an even cycle is found; every cycle of a bipartite graph is even | `m = n = 2` with `x[(i, j)] = 0.5` for all four pairs: G is one 4-cycle, no job has degree 1, and matching it reaches line 227 | drop one cycle edge on a copy of the component and tree-match the rest | not executed | Bipartite.CycleStepAlwaysRaises | Bipartite.BipartiteGraph.MatchCycleComponent |
