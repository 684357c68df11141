/**
  The search controller of SearchProcedure.py: the greedy upper bound, the
  rounding of an LP solution through the bipartite graph, the 2-relaxed
  decision procedure and the bisection over deadlines.

  The LP solver is a parameter (`solve`), and so is networkx's cycle finder
  (`firstCycle`). Every step that can reach the unbounded depth-first
  search of the tree matching returns a `Result`, whose `RecursionError`
  stands for the exception escaping to the caller.
 */
module SearchProcedure {
  import opened Common
  import opened Nodes
  import opened Bipartite
  import opened RoundingTheorem

  // ---------------------------------------------------------------------
  // greedy_schedule
  // ---------------------------------------------------------------------

  /** `np.argmin(P[:, j])`: the first machine with the smallest time for job j. */
  function FastestMachine(P: seq<seq<int>>, j: nat): (i: nat)
    requires IsMatrix(P) && j < Jobs(P)
    ensures i < |P|
  {
    FastestAmong(P, j, |P|)
  }

  /** The first machine of least time for job j among the first k: a scan
      from machine 0 that moves only on a strictly smaller time. */
  function FastestAmong(P: seq<seq<int>>, j: nat, k: nat): (i: nat)
    requires IsMatrix(P) && j < Jobs(P) && 0 < k <= |P|
    ensures i < k
  {
    if k == 1 then 0
    else
      var best := FastestAmong(P, j, k - 1);
      if P[k - 1][j] < P[best][j] then k - 1 else best
  }

  /** The scan finds a least time, and no earlier machine has that time. */
  lemma {:induction false} FastestAmongIsFirstFastest(P: seq<seq<int>>, j: nat, k: nat)
    requires IsMatrix(P) && j < Jobs(P) && 0 < k <= |P|
    ensures forall l :: 0 <= l < k ==> P[FastestAmong(P, j, k)][j] <= P[l][j]
    ensures forall l :: 0 <= l < FastestAmong(P, j, k) ==> P[FastestAmong(P, j, k)][j] < P[l][j]
  {
    if k > 1 {
      FastestAmongIsFirstFastest(P, j, k - 1);
    }
  }

  /** The greedy's machine for job j is the first one of least time. */
  lemma FastestMachineIsFirstFastest(P: seq<seq<int>>, j: nat)
    requires IsMatrix(P) && j < Jobs(P)
    ensures forall k :: 0 <= k < |P| ==> P[FastestMachine(P, j)][j] <= P[k][j]
    ensures forall k :: 0 <= k < FastestMachine(P, j) ==> P[FastestMachine(P, j)][j] < P[k][j]
  {
    FastestAmongIsFirstFastest(P, j, |P|);
  }

  /** The smallest time any machine needs for job j. */
  function MinTime(P: seq<seq<int>>, j: nat): int
    requires IsMatrix(P) && j < Jobs(P)
  {
    P[FastestMachine(P, j)][j]
  }

  /** The sum of the smallest times of the first k jobs. */
  function MinTimeTotal(P: seq<seq<int>>, k: nat): int
    requires IsMatrix(P) && k <= Jobs(P)
  {
    if k == 0 then 0 else MinTimeTotal(P, k - 1) + MinTime(P, k - 1)
  }

  /** The machine loads after the greedy placed the first k jobs, each on
      its fastest machine whatever that machine already carries. */
  function GreedyLoads(P: seq<seq<int>>, k: nat): (loads: seq<int>)
    requires IsMatrix(P) && k <= Jobs(P)
    ensures |loads| == |P|
  {
    if k == 0 then seq(|P|, _ => 0)
    else
      var prev := GreedyLoads(P, k - 1);
      var i := FastestMachine(P, k - 1);
      prev[i := prev[i] + P[i][k - 1]]
  }

  /** The greedy makespan t. */
  function GreedyMakespan(P: seq<seq<int>>): int
    requires IsMatrix(P)
  {
    MaxInt(GreedyLoads(P, Jobs(P)))
  }

  /** greedy_schedule: a load per machine, every job added to the load of
      its fastest machine, and the largest load returned. */
  method GreedySchedule(P: seq<seq<int>>) returns (t: int)
    requires IsMatrix(P)
    ensures t == GreedyMakespan(P)
  {
    var m, n := |P|, Jobs(P);
    var load := seq(m, _ => 0);
    for j := 0 to n
      invariant load == GreedyLoads(P, j)
    {
      var machine := FastestMachine(P, j);
      load := load[machine := load[machine] + P[machine][j]];
    }
    t := MaxInt(load);
  }

  lemma {:induction false} SumOfUpdate(s: seq<int>, i: nat, v: int)
    requires i < |s|
    ensures Sum(s[i := s[i] + v]) == Sum(s) + v
    decreases |s|
  {
    var u := s[i := s[i] + v];
    if i < |s| - 1 {
      assert u[..|u| - 1] == s[..|s| - 1][i := s[i] + v];
      SumOfUpdate(s[..|s| - 1], i, v);
    } else {
      assert u[..|u| - 1] == s[..|s| - 1];
    }
  }

  lemma {:induction false} SumBoundsElements(s: seq<int>)
    requires forall k :: 0 <= k < |s| ==> s[k] >= 0
    ensures Sum(s) >= 0
    ensures forall k :: 0 <= k < |s| ==> s[k] <= Sum(s)
    decreases |s|
  {
    if s != [] {
      var init := s[..|s| - 1];
      SumBoundsElements(init);
      assert forall k :: 0 <= k < |init| ==> init[k] == s[k];
    }
  }

  lemma {:induction false} SumOfZeros(s: seq<int>)
    requires forall k :: 0 <= k < |s| ==> s[k] == 0
    ensures Sum(s) == 0
    decreases |s|
  {
    if s != [] {
      SumOfZeros(s[..|s| - 1]);
    }
  }

  /** The greedy distributes exactly the fastest times: its loads add up to
      the sum of the per-job minima. */
  lemma {:induction false} GreedyTotal(P: seq<seq<int>>, k: nat)
    requires IsMatrix(P) && k <= Jobs(P)
    ensures Sum(GreedyLoads(P, k)) == MinTimeTotal(P, k)
    decreases k
  {
    if k == 0 {
      SumOfZeros(GreedyLoads(P, 0));
    } else {
      GreedyTotal(P, k - 1);
      GreedyTotalStep(P, k);
    }
  }

  /** Placing job k - 1 adds its fastest time to the total load. */
  lemma GreedyTotalStep(P: seq<seq<int>>, k: nat)
    requires IsMatrix(P) && 0 < k <= Jobs(P)
    requires Sum(GreedyLoads(P, k - 1)) == MinTimeTotal(P, k - 1)
    ensures Sum(GreedyLoads(P, k)) == MinTimeTotal(P, k)
  {
    var i := FastestMachine(P, k - 1);
    GreedyLoadsStep(P, k);
    SumOfUpdate(GreedyLoads(P, k - 1), i, P[i][k - 1]);
  }

  /** GreedyLoads(P, k) places job k - 1 on its fastest machine. */
  lemma GreedyLoadsStep(P: seq<seq<int>>, k: nat)
    requires IsMatrix(P) && 0 < k <= Jobs(P)
    ensures var i := FastestMachine(P, k - 1);
      GreedyLoads(P, k) == GreedyLoads(P, k - 1)[i := GreedyLoads(P, k - 1)[i] + P[i][k - 1]]
  {
  }

  /** With non-negative times no load ever shrinks. */
  lemma {:induction false} GreedyLoadsGrow(P: seq<seq<int>>, k: nat, k': nat)
    requires IsMatrix(P) && NonNegative(P) && k <= k' <= Jobs(P)
    ensures forall i :: 0 <= i < |P| ==> 0 <= GreedyLoads(P, k)[i] <= GreedyLoads(P, k')[i]
    decreases k'
  {
    if k < k' {
      GreedyLoadsGrow(P, k, k' - 1);
      GreedyStep(P, k' - 1);
    } else if k > 0 {
      GreedyLoadsGrow(P, k - 1, k - 1);
      GreedyStep(P, k - 1);
    }
  }

  /** Placing job k adds its time to one load and leaves the others alone. */
  lemma GreedyStep(P: seq<seq<int>>, k: nat)
    requires IsMatrix(P) && NonNegative(P) && k < Jobs(P)
    ensures forall i :: 0 <= i < |P| ==> GreedyLoads(P, k)[i] <= GreedyLoads(P, k + 1)[i]
  {
    var i := FastestMachine(P, k);
    assert P[i][k] >= 0;
  }

  /** The greedy makespan t bounds the search: no job fits below its fastest
      time, and t never exceeds the sum of the fastest times. */
  lemma GreedyBounds(P: seq<seq<int>>)
    requires IsMatrix(P) && NonNegative(P)
    ensures forall j :: 0 <= j < Jobs(P) ==> MinTime(P, j) <= GreedyMakespan(P)
    ensures 0 <= GreedyMakespan(P) <= MinTimeTotal(P, Jobs(P))
  {
    var n := Jobs(P);
    var loads := GreedyLoads(P, n);
    forall j | 0 <= j < n ensures MinTime(P, j) <= GreedyMakespan(P) {
      JobBelowGreedy(P, j);
    }
    GreedyLoadsGrow(P, n, n);
    GreedyTotal(P, n);
    SumBoundsElements(loads);
    var top :| 0 <= top < |loads| && loads[top] == GreedyMakespan(P);
  }

  /** The machine that gets job j ends with at least j's fastest time. */
  lemma JobBelowGreedy(P: seq<seq<int>>, j: nat)
    requires IsMatrix(P) && NonNegative(P) && j < Jobs(P)
    ensures MinTime(P, j) <= GreedyMakespan(P)
  {
    var n := Jobs(P);
    var i := FastestMachine(P, j);
    GreedyLoadsGrow(P, j, j);
    GreedyLoadsStep(P, j + 1);
    GreedyLoadsGrow(P, j + 1, n);
    assert GreedyLoads(P, j + 1)[i] == GreedyLoads(P, j)[i] + MinTime(P, j);
  }

  // ---------------------------------------------------------------------
  // round_lpSolution
  // ---------------------------------------------------------------------

  /** The rounded decision: every matched key and every key already at 1
      becomes 1, every other key 0. */
  function Rounded(x: map<Key, real>, matched: set<Key>): (y: map<Key, real>)
    ensures y.Keys == x.Keys
  {
    map k | k in x :: if k in matched || x[k] == 1.0 then 1.0 else 0.0
  }

  /** After rounding a decision is 0/1, no key is added or removed, and a
      key holds 1 exactly when it was matched or already 1. */
  lemma RoundedIsIntegral(x: map<Key, real>, matched: set<Key>)
    ensures Rounded(x, matched).Keys == x.Keys
    ensures forall k :: k in x ==> Rounded(x, matched)[k] == 0.0 || Rounded(x, matched)[k] == 1.0
    ensures forall i, j :: Assigned(Rounded(x, matched), i, j) <==> (i, j) in x && ((i, j) in matched || x[(i, j)] == 1.0)
  {
  }

  /** Rounding an already rounded decision with the same matching changes
      nothing. */
  lemma RoundedIdempotent(x: map<Key, real>, matched: set<Key>)
    ensures Rounded(Rounded(x, matched), matched) == Rounded(x, matched)
  {
  }

  /** The values of the solver's decision variables (their `varValue`s),
      which round_lpSolution overwrites in place. */
  class Variables {
    var values: map<Key, real>

    constructor (x: map<Key, real>)
      ensures values == x
    {
      values := x;
    }

    /** Set every matched variable to 1, then every variable not at 1 to 0. */
    method Round(matching: seq<Key>)
      requires forall a :: 0 <= a < |matching| ==> matching[a] in values
      modifies this
      ensures values == Rounded(old(values), Elements(matching))
    {
      var x := values;
      var vs := x;
      for a := 0 to |matching|
        invariant vs.Keys == x.Keys
        invariant forall k :: k in vs ==> vs[k] == (if k in matching[..a] then 1.0 else x[k])
      {
        vs := vs[matching[a] := 1.0];
      }
      assert matching[..|matching|] == matching;
      ghost var target := Rounded(x, Elements(matching));
      var pending := vs.Keys;
      while pending != {}
        invariant pending <= vs.Keys && vs.Keys == x.Keys
        invariant forall k :: k in vs && k !in pending ==> vs[k] == target[k]
        invariant forall k :: k in pending ==> vs[k] == (if k in matching then 1.0 else x[k])
        decreases |pending|
      {
        var k :| k in pending;
        if vs[k] != 1.0 {
          vs := vs[k := 0.0];
        }
        pending := pending - {k};
      }
      values := vs;
    }
  }

  /** round_lpSolution: build G from the variables' values; if it is not a
      pseudoforest leave them alone and report None; otherwise reduce and
      match (G') and round the variables in place with the matching. The
      matching only uses keys whose LP value is positive and never matches
      a job twice. */
  method RoundLpSolution(x: Variables, m: nat, n: nat, firstCycle: (set<Node>, set<Edge>) -> seq<Node>)
    returns (r: Result<Option<BipartiteGraph>>, ghost cs: seq<set<Node>>, ghost dicts: seq<seq<(Node, Node)>>)
    requires forall k :: k in x.values ==> 0 <= k.0 < m && 0 <= k.1 < n
    modifies x
    ensures r.Ok? ==> (r.value.None? <==> !IsPseudoforest(AllNodes(m, n), SupportEdges(old(x.values))))
    ensures !IsPseudoforest(AllNodes(m, n), SupportEdges(old(x.values))) ==> r == Ok(None)
    ensures r.Ok? && r.value.None? ==> x.values == old(x.values)
    ensures r.RecursionError? ==> x.values == old(x.values)
    ensures r.RecursionError? ==>
      && IsPseudoforest(AllNodes(m, n), SupportEdges(old(x.values)))
      && HasNonTreeComponent(ReducedNodes(m, n, old(x.values)), ReducedEdges(m, n, old(x.values)))
    ensures r.Ok? && r.value.Some? ==>
      var g := r.value.value;
      && g.isPseudoforest
      && g.lpSolution == old(x.values)
      && x.values == Rounded(old(x.values), Elements(g.matching))
      && (forall a :: 0 <= a < |g.matching| ==> g.matching[a] in SupportEdges(old(x.values)))
      && (forall a, b :: 0 <= a < b < |g.matching| ==> g.matching[a].1 != g.matching[b].1)
      && g.Valid() && g.m == m && g.n == n
      && g.nodes == ReducedNodes(m, n, old(x.values)) && g.edges == ReducedEdges(m, n, old(x.values))
      && g.components == cs && g.matching == AllPairKeys(dicts)
      && IsComponentList(ReducedNodes(m, n, old(x.values)), ReducedEdges(m, n, old(x.values)), cs)
      && ComponentsMatched(ReducedEdges(m, n, old(x.values)), m, n, cs, firstCycle, dicts)
  {
    var g := new BipartiteGraph(x.values, m, n);
    cs, dicts := [], [];
    if !g.isPseudoforest {
      return Ok(None), cs, dicts;
    }
    var reduced;
    reduced, cs, dicts := ReduceBuilt(g, firstCycle);
    if reduced.RecursionError? {
      return RecursionError, cs, dicts;
    }
    var ms := g.matching;
    x.Round(ms);
    r := Ok(Some(g));
  }

  /** Steps 4 and 5 of BipartiteGraph.py's constructor on the graph G just
      built from the LP solution: G' and its matching, stated over
      ReducedNodes and ReducedEdges of that solution. */
  method ReduceBuilt(g: BipartiteGraph, firstCycle: (set<Node>, set<Edge>) -> seq<Node>)
    returns (r: Result<()>, ghost cs: seq<set<Node>>, ghost dicts: seq<seq<(Node, Node)>>)
    requires g.Valid() && g.matching == []
    requires g.nodes == AllNodes(g.m, g.n) && g.edges == SupportEdges(g.lpSolution)
    modifies g`nodes, g`edges, g`components, g`matching
    ensures g.Valid()
    ensures g.nodes == ReducedNodes(g.m, g.n, g.lpSolution) && g.edges == ReducedEdges(g.m, g.n, g.lpSolution)
    ensures r.RecursionError? ==> HasNonTreeComponent(ReducedNodes(g.m, g.n, g.lpSolution), ReducedEdges(g.m, g.n, g.lpSolution))
    ensures r.Ok? ==>
      && g.components == cs && g.matching == AllPairKeys(dicts)
      && (forall a :: 0 <= a < |g.matching| ==> g.matching[a] in SupportEdges(g.lpSolution))
      && (forall a, b :: 0 <= a < b < |g.matching| ==> g.matching[a].1 != g.matching[b].1)
      && IsComponentList(ReducedNodes(g.m, g.n, g.lpSolution), ReducedEdges(g.m, g.n, g.lpSolution), cs)
      && ComponentsMatched(ReducedEdges(g.m, g.n, g.lpSolution), g.m, g.n, cs, firstCycle, dicts)
  {
    r, dicts := g.ReduceAndMatch(firstCycle);
    cs := g.components;
  }

  // ---------------------------------------------------------------------
  // two_relaxed_decision_procedure
  // ---------------------------------------------------------------------

  /** The data a successful decision keeps (the SchedulingProblem record,
      without its printing and drawing): the deadline d, the LP makespan,
      the rounded makespan and decision, G'’s matching, and the greedy bound
      t, which the search fills in at the end. */
  datatype Schedule = Schedule(d: int, lpMakespan: real, makespan: int, assignment: map<Key, real>,
                               matching: seq<Key>, t: int)

  /** `[d] * len(P)`. */
  function Repeat(d: int, m: nat): (ds: seq<int>)
    ensures |ds| == m && forall i :: 0 <= i < m ==> ds[i] == d
  {
    seq(m, _ => d)
  }

  /** The LP the decision procedure solves: LP(P, [d] * m, d). */
  function DecisionLp(solve: Solver, P: seq<seq<int>>, d: int): Option<(real, map<Key, real>)>
    requires IsMatrix(P)
  {
    LP(solve, P, Repeat(d, |P|), d)
  }

  /** ms pairs machines with jobs only where x is positive, and matches no
      job twice. */
  ghost predicate MatchedAlong(x: map<Key, real>, ms: seq<Key>)
  {
    && (forall a :: 0 <= a < |ms| ==> ms[a] in SupportEdges(x))
    && (forall a, b :: 0 <= a < b < |ms| ==> ms[a].1 != ms[b].1)
  }

  /** G'’s nodes for the LP solution x over m machines and n jobs: every
      node of G but the jobs of degree 1 (steps 1 to 4 of BipartiteGraph.py's
      constructor). */
  function ReducedNodes(m: nat, n: nat, x: map<Key, real>): set<Node>
  {
    AllNodes(m, n) - SingleDegreeJobs(AllNodes(m, n), SupportEdges(x))
  }

  /** G'’s edges: the support of x without the edges at degree-1 jobs. */
  function ReducedEdges(m: nat, n: nat, x: map<Key, real>): set<Edge>
  {
    SupportEdges(x) - EdgesAtJobs(SupportEdges(x), SingleDegreeJobs(AllNodes(m, n), SupportEdges(x)))
  }

  /** ms is a matching G' produces for x: G' splits into the components cs,
      each is matched as match_component does, and ms lists the pairs of
      their dicts in component order. */
  ghost predicate MatchedInReduced(m: nat, n: nat, x: map<Key, real>,
                                   firstCycle: (set<Node>, set<Edge>) -> seq<Node>, ms: seq<Key>)
  {
    exists cs, dicts ::
      && IsComponentList(ReducedNodes(m, n, x), ReducedEdges(m, n, x), cs)
      && ComponentsMatched(ReducedEdges(m, n, x), m, n, cs, firstCycle, dicts)
      && ms == AllPairKeys(dicts)
  }

  /** Where the decision procedure at d stops with RecursionError: the LP
      is feasible, its support graph is a pseudoforest, and some component
      of G' is not a tree, so its search reaches a node twice. */
  ghost predicate StopsOnNonTree(P: seq<seq<int>>, solve: Solver, d: int)
    requires IsMatrix(P)
  {
    var lp := DecisionLp(solve, P, d);
    && lp.Some?
    && IsPseudoforest(AllNodes(|P|, Jobs(P)), SupportEdges(lp.value.1))
    && HasNonTreeComponent(ReducedNodes(|P|, Jobs(P), lp.value.1), ReducedEdges(|P|, Jobs(P), lp.value.1))
  }

  /** No machine's counted load under the decision x exceeds 2 * d. */
  ghost predicate WithinTwice(P: seq<seq<int>>, x: map<Key, real>, d: int)
    requires IsMatrix(P)
  {
    forall i :: 0 <= i < |P| ==> CountedLoad(P, x, i, Jobs(P)) <= 2 * d
  }

  /** What an accepted deadline d guarantees: the LP was feasible, its
      support graph is a pseudoforest, the decision is the LP solution
      rounded with the matching G' produces, which runs along that support
      and uses every job at most once, and no machine is loaded beyond
      2 * d. */
  ghost predicate Accepted(P: seq<seq<int>>, d: int, solve: Solver,
                           firstCycle: (set<Node>, set<Edge>) -> seq<Node>, s: Schedule)
    requires IsMatrix(P)
  {
    var lp := DecisionLp(solve, P, d);
    && s.d == d && s.t == 0
    && lp.Some? && s.lpMakespan == lp.value.0
    && IsPseudoforest(AllNodes(|P|, Jobs(P)), SupportEdges(lp.value.1))
    && MatchedInReduced(|P|, Jobs(P), lp.value.1, firstCycle, s.matching)
    && MatchedAlong(lp.value.1, s.matching)
    && s.assignment == Rounded(lp.value.1, Elements(s.matching))
    && (forall i :: 0 <= i < |P| ==> CountedLoad(P, s.assignment, i, Jobs(P)) <= s.makespan)
    && (exists i :: 0 <= i < |P| && CountedLoad(P, s.assignment, i, Jobs(P)) == s.makespan)
    && s.makespan <= 2 * d
  }

  /** What a rejected deadline d means: the LP is infeasible, or its
      support graph is not a pseudoforest, or the LP solution rounded with
      the matching G' produces loads some machine beyond 2 * d. */
  ghost predicate Rejected(P: seq<seq<int>>, d: int, solve: Solver, firstCycle: (set<Node>, set<Edge>) -> seq<Node>)
    requires IsMatrix(P)
  {
    var lp := DecisionLp(solve, P, d);
    || lp.None?
    || !IsPseudoforest(AllNodes(|P|, Jobs(P)), SupportEdges(lp.value.1))
    || exists ms ::
         && MatchedInReduced(|P|, Jobs(P), lp.value.1, firstCycle, ms)
         && MatchedAlong(lp.value.1, ms)
         && !WithinTwice(P, Rounded(lp.value.1, Elements(ms)), d)
  }

  /** two_relaxed_decision_procedure: solve LP(P, [d] * m, d), round it with
      G'’s matching ms, and accept exactly when no machine's load under the
      rounded decision exceeds 2 * d. An infeasible LP or a support that is
      not a pseudoforest is rejected. */
  method TwoRelaxedDecisionProcedure(P: seq<seq<int>>, d: int, solve: Solver,
                                     firstCycle: (set<Node>, set<Edge>) -> seq<Node>)
    returns (r: Result<Option<Schedule>>, ghost ms: seq<Key>)
    requires IsMatrix(P)
    ensures r.Ok? && r.value.Some? ==> Accepted(P, d, solve, firstCycle, r.value.value) && r.value.value.matching == ms
    ensures r == Ok(None) ==> Rejected(P, d, solve, firstCycle)
    ensures DecisionLp(solve, P, d).None? ==> r == Ok(None)
    ensures r.RecursionError? ==> StopsOnNonTree(P, solve, d)
    ensures (DecisionLp(solve, P, d).Some? &&
             !IsPseudoforest(AllNodes(|P|, Jobs(P)), SupportEdges(DecisionLp(solve, P, d).value.1))) ==> r == Ok(None)
    ensures var lp := DecisionLp(solve, P, d);
      r.Ok? && lp.Some? && IsPseudoforest(AllNodes(|P|, Jobs(P)), SupportEdges(lp.value.1)) ==>
        && MatchedInReduced(|P|, Jobs(P), lp.value.1, firstCycle, ms)
        && MatchedAlong(lp.value.1, ms)
        && (r.value.Some? <==> WithinTwice(P, Rounded(lp.value.1, Elements(ms)), d))
  {
    ms := [];
    var solution := DecisionLp(solve, P, d);
    if solution.None? {
      return Ok(None), ms;
    }
    var x := new Variables(solution.value.1);
    var rounded, cs, dicts := RoundLpSolution(x, |P|, Jobs(P), firstCycle);
    if rounded.RecursionError? {
      return RecursionError, ms;
    }
    if rounded.value.Some? && rounded.value.value.isPseudoforest {
      var g := rounded.value.value;
      ms := g.matching;
      assert MatchedInReduced(|P|, Jobs(P), solution.value.1, firstCycle, ms) by {
        assert IsComponentList(ReducedNodes(|P|, Jobs(P), solution.value.1),
                               ReducedEdges(|P|, Jobs(P), solution.value.1), cs);
      }
      var makespan := CalculateMakespan(P, x.values);
      if makespan <= 2 * d {
        return Ok(Some(Schedule(d, solution.value.0, makespan, x.values, g.matching, 0))), ms;
      }
      assert MatchedAlong(solution.value.1, ms) && !WithinTwice(P, Rounded(solution.value.1, Elements(ms)), d);
    }
    return Ok(None), ms;
  }

  // ---------------------------------------------------------------------
  // binary_search_procedure
  // ---------------------------------------------------------------------

  /** One call of the decision procedure during the search. */
  datatype Call = Call(d: int, outcome: Option<Schedule>)

  /** The bounds after a call: an accepted d becomes the upper bound, a
      rejected one moves the lower bound past it. */
  function Next(lower: int, upper: int, c: Call): (int, int)
  {
    if c.outcome.Some? then (lower, c.d) else (c.d + 1, upper)
  }

  /** The bounds a sequence of calls leads to, when each call asks for the
      midpoint `(upper + lower) // 2` of an open interval; None otherwise. */
  function After(lower: int, upper: int, calls: seq<Call>): Option<(int, int)>
    decreases |calls|
  {
    if calls == [] then Some((lower, upper))
    else if lower != upper && calls[0].d == (lower + upper) / 2 then
      var next := Next(lower, upper, calls[0]);
      After(next.0, next.1, calls[1..])
    else None
  }

  /** A complete bisection from [lower, upper]: every call is at the
      midpoint and the bounds end equal. */
  predicate IsBisection(lower: int, upper: int, calls: seq<Call>)
  {
    var e := After(lower, upper, calls);
    e.Some? && e.value.0 == e.value.1
  }

  lemma {:induction false} AfterAppend(lower: int, upper: int, calls: seq<Call>, c: Call)
    requires After(lower, upper, calls).Some?
    ensures var e := After(lower, upper, calls).value;
      After(lower, upper, calls + [c]) ==
        if e.0 != e.1 && c.d == (e.0 + e.1) / 2 then Some(Next(e.0, e.1, c)) else None
    decreases |calls|
  {
    if calls != [] {
      var next := Next(lower, upper, calls[0]);
      assert (calls + [c])[1..] == calls[1..] + [c];
      AfterAppend(next.0, next.1, calls[1..], c);
    }
  }

  /** Bisection keeps lower <= d < upper for every midpoint d, never widens
      the interval, and shrinks it by at least one per call, so it makes at
      most upper - lower calls. */
  lemma {:induction false} BisectionShrinks(lower: int, upper: int, calls: seq<Call>)
    requires lower <= upper && After(lower, upper, calls).Some?
    ensures var e := After(lower, upper, calls).value;
      lower <= e.0 <= e.1 <= upper && |calls| <= (upper - lower) - (e.1 - e.0)
    ensures forall k :: 0 <= k < |calls| ==> lower <= calls[k].d < upper
    decreases |calls|
  {
    if calls != [] {
      var next := Next(lower, upper, calls[0]);
      BisectionShrinks(next.0, next.1, calls[1..]);
      forall k | 0 <= k < |calls| ensures lower <= calls[k].d < upper {
        if k > 0 {
          assert calls[k] == calls[1..][k - 1];
        }
      }
    }
  }

  /** Every later call asks for a smaller deadline than an accepted one. */
  lemma {:induction false} AcceptedDeadlinesDecrease(lower: int, upper: int, calls: seq<Call>)
    requires lower <= upper && After(lower, upper, calls).Some?
    ensures forall k, l :: 0 <= k < l < |calls| && calls[k].outcome.Some? ==> calls[l].d < calls[k].d
    decreases |calls|
  {
    if calls != [] {
      var next := Next(lower, upper, calls[0]);
      AcceptedDeadlinesDecrease(next.0, next.1, calls[1..]);
      BisectionShrinks(next.0, next.1, calls[1..]);
      forall k, l | 0 <= k < l < |calls| && calls[k].outcome.Some? ensures calls[l].d < calls[k].d {
        assert calls[l] == calls[1..][l - 1];
        if k > 0 {
          assert calls[k] == calls[1..][k - 1];
        }
      }
    }
  }

  lemma {:induction false} MulAtLeast(q: nat, m: nat)
    requires m >= 1
    ensures q <= q * m
    decreases q
  {
    if q > 0 {
      MulAtLeast(q - 1, m);
      assert q * m == (q - 1) * m + m;
    }
  }

  /** The lower bound t // m never exceeds t. */
  lemma DivisionBelow(t: nat, m: nat)
    requires m >= 1
    ensures 0 <= t / m <= t
  {
    var q := t / m;
    assert t == q * m + t % m && 0 <= t % m;
    MulAtLeast(q, m);
  }

  /** The initial bounds t // m and t coincide exactly when t is 0 or there
      is one machine, so only then does the search make no call. */
  lemma BoundsMeet(t: nat, m: nat)
    requires m >= 1
    ensures t / m == t <==> t == 0 || m == 1
  {
    var q := t / m;
    assert t == q * m + t % m && 0 <= t % m < m;
    if m > 1 && t > 0 && q == t {
      assert q * m == q * (m - 1) + q;
      MulAtLeast(q, m - 1);
      assert false;
    }
  }

  /** `best_solution is None or best_solution.makespan < result.makespan`. */
  function KeepLargest(best: Option<Schedule>, c: Call): Option<Schedule>
  {
    if c.outcome.Some? && (best.None? || best.value.makespan < c.outcome.value.makespan) then c.outcome
    else best
  }

  /** The solution SearchProcedure.py keeps after a sequence of calls. */
  function KeptLargest(calls: seq<Call>): Option<Schedule>
  {
    if calls == [] then None else KeepLargest(KeptLargest(calls[..|calls| - 1]), calls[|calls| - 1])
  }

  /** The kept solution is the accepted one of LARGEST makespan -- the
      opposite of the docstring's "smallest" -- and the earliest of those
      on ties; nothing is kept iff nothing was accepted. */
  lemma {:induction false} KeptLargestIsLargest(calls: seq<Call>)
    ensures KeptLargest(calls).None? <==> forall k :: 0 <= k < |calls| ==> calls[k].outcome.None?
    ensures KeptLargest(calls).Some? ==>
      (exists k :: 0 <= k < |calls| && calls[k].outcome == KeptLargest(calls) &&
         (forall l :: 0 <= l < k && calls[l].outcome.Some? ==> calls[l].outcome.value.makespan < KeptLargest(calls).value.makespan))
    ensures forall k :: 0 <= k < |calls| && calls[k].outcome.Some? ==>
      calls[k].outcome.value.makespan <= KeptLargest(calls).value.makespan
    decreases |calls|
  {
    if calls != [] {
      var init := calls[..|calls| - 1];
      KeptLargestIsLargest(init);
      assert forall k :: 0 <= k < |init| ==> init[k] == calls[k];
      var last := calls[|calls| - 1];
      var before := KeptLargest(init);
      if before.Some? {
        var k :| 0 <= k < |init| && init[k].outcome == before &&
          (forall l :: 0 <= l < k && init[l].outcome.Some? ==> init[l].outcome.value.makespan < before.value.makespan);
        if KeptLargest(calls) == before {
          assert calls[k].outcome == before;
        }
      }
    }
  }

  /** `best_solution.t = t` when a solution was kept. */
  function WithGreedyBound(best: Option<Schedule>, t: int): Option<Schedule>
  {
    if best.Some? then Some(best.value.(t := t)) else None
  }

  /** The recorded outcome is what the decision procedure may return for
      the call's deadline: a schedule only for an accepted deadline, and
      None only for a rejected one. */
  ghost predicate DecidedCall(P: seq<seq<int>>, solve: Solver, firstCycle: (set<Node>, set<Edge>) -> seq<Node>,
                              c: Call)
    requires IsMatrix(P)
  {
    && (c.outcome.Some? ==> Accepted(P, c.d, solve, firstCycle, c.outcome.value))
    && (c.outcome.None? ==> Rejected(P, c.d, solve, firstCycle))
  }

  /** Every recorded call is decided, stated call by call from the last. */
  ghost predicate Decided(P: seq<seq<int>>, solve: Solver, firstCycle: (set<Node>, set<Edge>) -> seq<Node>,
                          calls: seq<Call>)
    requires IsMatrix(P)
    decreases |calls|
  {
    calls == [] ||
    (Decided(P, solve, firstCycle, calls[..|calls| - 1]) && DecidedCall(P, solve, firstCycle, calls[|calls| - 1]))
  }

  /** Decided holds exactly when each call is decided. */
  lemma {:induction false} DecidedEach(P: seq<seq<int>>, solve: Solver, firstCycle: (set<Node>, set<Edge>) -> seq<Node>,
                                       calls: seq<Call>)
    requires IsMatrix(P)
    ensures Decided(P, solve, firstCycle, calls) <==>
              forall k :: 0 <= k < |calls| ==> DecidedCall(P, solve, firstCycle, calls[k])
    decreases |calls|
  {
    if calls != [] {
      var init := calls[..|calls| - 1];
      DecidedEach(P, solve, firstCycle, init);
      assert forall k :: 0 <= k < |init| ==> init[k] == calls[k];
    }
  }

  /** One more call at the midpoint moves the bounds by Next, keeps every
      recorded call decided, and updates the kept solution by KeepLargest. */
  lemma SearchStep(P: seq<seq<int>>, solve: Solver, firstCycle: (set<Node>, set<Edge>) -> seq<Node>,
                   lower0: int, upper0: int, calls: seq<Call>,
                   lower: int, upper: int, c: Call)
    requires IsMatrix(P)
    requires After(lower0, upper0, calls) == Some((lower, upper))
    requires lower != upper && c.d == (lower + upper) / 2
    requires Decided(P, solve, firstCycle, calls)
    requires c.outcome.Some? ==> Accepted(P, c.d, solve, firstCycle, c.outcome.value)
    requires c.outcome.None? ==> Rejected(P, c.d, solve, firstCycle)
    ensures After(lower0, upper0, calls + [c]) == Some(Next(lower, upper, c))
    ensures Decided(P, solve, firstCycle, calls + [c])
    ensures KeptLargest(calls + [c]) == KeepLargest(KeptLargest(calls), c)
  {
    AfterAppend(lower0, upper0, calls, c);
    assert (calls + [c])[..|calls|] == calls;
  }

  /** Where a bisection from [lower0, upper0] stands after calls: they
      lead to the bounds [lower, upper], inside the first ones, and each
      of them is decided. */
  ghost predicate Bisecting(P: seq<seq<int>>, solve: Solver, firstCycle: (set<Node>, set<Edge>) -> seq<Node>,
                            lower0: int, upper0: int, calls: seq<Call>, lower: int, upper: int)
    requires IsMatrix(P)
  {
    && lower0 <= lower <= upper <= upper0
    && After(lower0, upper0, calls) == Some((lower, upper))
    && Decided(P, solve, firstCycle, calls)
  }

  /** A search from [lower0, upper0] that stopped with RecursionError: its
      calls lead to an open interval whose midpoint is a deadline where the
      decision procedure stops. */
  ghost predicate StoppedAt(P: seq<seq<int>>, solve: Solver, lower0: int, upper0: int, calls: seq<Call>)
    requires IsMatrix(P)
  {
    var e := After(lower0, upper0, calls);
    e.Some? && e.value.0 != e.value.1 && StopsOnNonTree(P, solve, (e.value.0 + e.value.1) / 2)
  }

  /** A search whose calls lead to [lower, upper] and whose decision
      procedure stops at the midpoint has stopped there. */
  lemma StoppedAtMidpoint(P: seq<seq<int>>, solve: Solver, lower0: int, upper0: int, calls: seq<Call>,
                          lower: int, upper: int)
    requires IsMatrix(P) && After(lower0, upper0, calls) == Some((lower, upper)) && lower != upper
    requires StopsOnNonTree(P, solve, (upper + lower) / 2)
    ensures StoppedAt(P, solve, lower0, upper0, calls)
  {
  }

  /** One round of either search: ask the decision procedure at the
      midpoint of [lower, upper] and record the call, which moves the bounds
      by Next and is decided like every earlier one. */
  method Probe(P: seq<seq<int>>, solve: Solver, firstCycle: (set<Node>, set<Edge>) -> seq<Node>,
               ghost lower0: int, ghost upper0: int, ghost calls: seq<Call>, lower: int, upper: int)
    returns (r: Result<Call>)
    requires IsMatrix(P)
    requires Bisecting(P, solve, firstCycle, lower0, upper0, calls, lower, upper) && lower != upper
    ensures r.Ok? ==>
      && r.value.d == (lower + upper) / 2
      && Bisecting(P, solve, firstCycle, lower0, upper0, calls + [r.value],
                   Next(lower, upper, r.value).0, Next(lower, upper, r.value).1)
      && KeptLargest(calls + [r.value]) == KeepLargest(KeptLargest(calls), r.value)
    ensures r.RecursionError? ==> StoppedAt(P, solve, lower0, upper0, calls)
  {
    var d := (upper + lower) / 2;
    var result, _ := TwoRelaxedDecisionProcedure(P, d, solve, firstCycle);
    if result.RecursionError? {
      StoppedAtMidpoint(P, solve, lower0, upper0, calls, lower, upper);
      return RecursionError;
    }
    r := Ok(Call(d, result.value));
    SearchStep(P, solve, firstCycle, lower0, upper0, calls, lower, upper, r.value);
  }

  /** binary_search_procedure (SearchProcedure.py): bisection over
      [t // m, t] for the greedy makespan t, keeping the accepted solution
      of largest makespan. The calls it made are returned as a ghost trace. */
  method BinarySearch(P: seq<seq<int>>, solve: Solver, firstCycle: (set<Node>, set<Edge>) -> seq<Node>)
    returns (r: Result<Option<Schedule>>, ghost calls: seq<Call>)
    requires IsMatrix(P) && NonNegative(P)
    ensures IsBisection(GreedyMakespan(P) / |P|, GreedyMakespan(P), calls) || r.RecursionError?
    ensures Decided(P, solve, firstCycle, calls)
    ensures r.RecursionError? ==> StoppedAt(P, solve, GreedyMakespan(P) / |P|, GreedyMakespan(P), calls)
    ensures r.Ok? ==> r.value == WithGreedyBound(KeptLargest(calls), GreedyMakespan(P))
    ensures r.Ok? && r.value.Some? ==>
      && r.value.value.t == GreedyMakespan(P)
      && Accepted(P, r.value.value.d, solve, firstCycle, r.value.value.(t := 0))
      && (forall k :: 0 <= k < |calls| && calls[k].outcome.Some? ==>
            calls[k].outcome.value.makespan <= r.value.value.makespan)
    ensures r.Ok? && r.value.None? ==> forall k :: 0 <= k < |calls| ==> calls[k].outcome.None?
    ensures GreedyMakespan(P) / |P| == GreedyMakespan(P) ==> r == Ok(None)
  {
    var t := GreedySchedule(P);
    GreedyBounds(P);
    DivisionBelow(t, |P|);
    var best;
    best, calls := Bisect(P, solve, firstCycle, t / |P|, t);
    if best.RecursionError? {
      return RecursionError, calls;
    }
    KeptLargestResult(P, solve, firstCycle, calls);
    r := Ok(WithGreedyBound(best.value, t));
  }

  /** The loop of binary_search_procedure: while lower != upper, ask the
      decision procedure at the midpoint; an accepted deadline becomes the
      new upper bound, a rejected one raises the lower bound past it. The
      accepted solution of largest makespan is kept. */
  method Bisect(P: seq<seq<int>>, solve: Solver, firstCycle: (set<Node>, set<Edge>) -> seq<Node>,
                lower0: int, upper0: int)
    returns (r: Result<Option<Schedule>>, ghost calls: seq<Call>)
    requires IsMatrix(P) && lower0 <= upper0
    ensures r.Ok? ==> IsBisection(lower0, upper0, calls) && r.value == KeptLargest(calls)
    ensures r.RecursionError? ==> StoppedAt(P, solve, lower0, upper0, calls)
    ensures Decided(P, solve, firstCycle, calls)
    ensures lower0 == upper0 ==> r == Ok(None)
  {
    var lower, upper := lower0, upper0;
    var best: Option<Schedule> := None;
    calls := [];
    while lower != upper
      invariant Bisecting(P, solve, firstCycle, lower0, upper0, calls, lower, upper)
      invariant best == KeptLargest(calls)
      decreases upper - lower
    {
      var probe := Probe(P, solve, firstCycle, lower0, upper0, calls, lower, upper);
      if probe.RecursionError? {
        return RecursionError, calls;
      }
      var c := probe.value;
      calls := calls + [c];
      best := KeepLargest(best, c);
      if c.outcome.Some? {
        upper := c.d;
      } else {
        lower := c.d + 1;
      }
    }
    r := Ok(best);
  }

  /** The kept solution of a finished search is an accepted one, and none
      accepted has a larger makespan. */
  lemma KeptLargestResult(P: seq<seq<int>>, solve: Solver, firstCycle: (set<Node>, set<Edge>) -> seq<Node>,
                          calls: seq<Call>)
    requires IsMatrix(P) && Decided(P, solve, firstCycle, calls)
    ensures KeptLargest(calls).None? ==> forall k :: 0 <= k < |calls| ==> calls[k].outcome.None?
    ensures KeptLargest(calls).Some? ==>
      && Accepted(P, KeptLargest(calls).value.d, solve, firstCycle, KeptLargest(calls).value)
      && (forall k :: 0 <= k < |calls| && calls[k].outcome.Some? ==>
            calls[k].outcome.value.makespan <= KeptLargest(calls).value.makespan)
  {
    KeptLargestIsLargest(calls);
    DecidedEach(P, solve, firstCycle, calls);
    if KeptLargest(calls).Some? {
      var k :| 0 <= k < |calls| && calls[k].outcome == KeptLargest(calls);
      assert DecidedCall(P, solve, firstCycle, calls[k]);
    }
  }
}
