/**
  The search controller of Procedure.py. Its greedy bound, rounding and
  2-relaxed decision procedure are the same code as SearchProcedure.py's
  (the rounding there copies the variable dictionary, but the copy shares
  the variables, so both round in place) and are modelled once, in module
  SearchProcedure. Its bisection differs in which accepted solution it
  keeps: `best_makespan` is never assigned, so the test
  `best_makespan is None` always holds and every accepted solution
  replaces the previous one.
 */
module Procedure {
  import opened Common
  import opened Nodes
  import opened Bipartite
  import opened RoundingTheorem
  import opened SearchProcedure

  /** `best_makespan is None or best_makespan < result.makespan` with
      `best_makespan` still None: every accepted solution is kept. */
  function KeepLast(best: Option<Schedule>, c: Call): Option<Schedule>
  {
    if c.outcome.Some? then c.outcome else best
  }

  /** The solution Procedure.py keeps after a sequence of calls. */
  function KeptLast(calls: seq<Call>): Option<Schedule>
  {
    if calls == [] then None else KeepLast(KeptLast(calls[..|calls| - 1]), calls[|calls| - 1])
  }

  lemma KeptLastStep(calls: seq<Call>, c: Call)
    ensures KeptLast(calls + [c]) == KeepLast(KeptLast(calls), c)
  {
    assert (calls + [c])[..|calls|] == calls;
  }

  /** The kept solution is the last accepted one; nothing is kept iff
      nothing was accepted. */
  lemma {:induction false} KeptLastIsLast(calls: seq<Call>)
    ensures KeptLast(calls).None? <==> forall k :: 0 <= k < |calls| ==> calls[k].outcome.None?
    ensures KeptLast(calls).Some? ==>
      (exists k :: 0 <= k < |calls| && calls[k].outcome == KeptLast(calls) &&
         (forall l :: k < l < |calls| ==> calls[l].outcome.None?))
    decreases |calls|
  {
    if calls != [] {
      var init := calls[..|calls| - 1];
      KeptLastIsLast(init);
      assert forall k :: 0 <= k < |init| ==> init[k] == calls[k];
      if calls[|calls| - 1].outcome.None? && KeptLast(init).Some? {
        var k :| 0 <= k < |init| && init[k].outcome == KeptLast(init) &&
          (forall l :: k < l < |init| ==> init[l].outcome.None?);
        assert calls[k].outcome == KeptLast(calls);
      }
    }
  }

  /** In a bisection the last accepted call is the one with the smallest
      deadline among the accepted ones, and the search ends at it: its
      deadline is the final upper bound. Without an accepted call the upper
      bound never moved. */
  lemma {:induction false} KeptLastAtUpperBound(lower: int, upper: int, calls: seq<Call>)
    requires After(lower, upper, calls).Some?
    ensures KeptLast(calls).None? ==> After(lower, upper, calls).value.1 == upper
    ensures KeptLast(calls).Some? ==>
      (exists k :: 0 <= k < |calls| && calls[k].outcome == KeptLast(calls) &&
         calls[k].d == After(lower, upper, calls).value.1)
    decreases |calls|
  {
    if calls != [] {
      var init := calls[..|calls| - 1];
      var c := calls[|calls| - 1];
      assert init + [c] == calls;
      assert After(lower, upper, init).Some? by {
        if After(lower, upper, init).None? {
          AfterOfNone(lower, upper, init, c);
        }
      }
      AfterAppend(lower, upper, init, c);
      KeptLastAtUpperBound(lower, upper, init);
      if c.outcome.None? && KeptLast(init).Some? {
        var k :| 0 <= k < |init| && init[k].outcome == KeptLast(init) &&
          init[k].d == After(lower, upper, init).value.1;
        assert calls[k] == init[k];
      }
    }
  }

  /** A trace that has gone wrong stays wrong. */
  lemma {:induction false} AfterOfNone(lower: int, upper: int, calls: seq<Call>, c: Call)
    requires After(lower, upper, calls).None?
    ensures After(lower, upper, calls + [c]).None?
    decreases |calls|
  {
    if calls != [] && lower != upper && calls[0].d == (lower + upper) / 2 {
      var next := Next(lower, upper, calls[0]);
      assert (calls + [c])[1..] == calls[1..] + [c];
      AfterOfNone(next.0, next.1, calls[1..], c);
    }
  }

  /** The kept solution's deadline is the smallest accepted deadline. */
  lemma KeptLastHasSmallestDeadline(lower: int, upper: int, calls: seq<Call>)
    requires lower <= upper && After(lower, upper, calls).Some?
    ensures KeptLast(calls).Some? ==>
      (exists k :: 0 <= k < |calls| && calls[k].outcome == KeptLast(calls) &&
         (forall l :: 0 <= l < |calls| && calls[l].outcome.Some? ==> calls[k].d <= calls[l].d))
  {
    KeptLastIsLast(calls);
    AcceptedDeadlinesDecrease(lower, upper, calls);
    if KeptLast(calls).Some? {
      var k :| 0 <= k < |calls| && calls[k].outcome == KeptLast(calls) &&
        (forall l :: k < l < |calls| ==> calls[l].outcome.None?);
      forall l | 0 <= l < |calls| && calls[l].outcome.Some? ensures calls[k].d <= calls[l].d {
        if l < k {
          assert calls[k].d < calls[l].d;
        }
      }
    }
  }

  /** binary_search_procedure (Procedure.py): bisection over [t // m, t]
      for the greedy makespan t, keeping the LAST accepted solution -- the
      one at the smallest accepted deadline, where the search ends. The
      calls it made are returned as a ghost trace. */
  method BinarySearch(P: seq<seq<int>>, solve: Solver, firstCycle: (set<Node>, set<Edge>) -> seq<Node>)
    returns (r: Result<Option<Schedule>>, ghost calls: seq<Call>)
    requires IsMatrix(P) && NonNegative(P)
    ensures IsBisection(GreedyMakespan(P) / |P|, GreedyMakespan(P), calls) || r.RecursionError?
    ensures Decided(P, solve, firstCycle, calls)
    ensures r.RecursionError? ==> StoppedAt(P, solve, GreedyMakespan(P) / |P|, GreedyMakespan(P), calls)
    ensures r.Ok? ==> r.value == WithGreedyBound(KeptLast(calls), GreedyMakespan(P))
    ensures r.Ok? && r.value.Some? ==>
      && r.value.value.t == GreedyMakespan(P)
      && Accepted(P, r.value.value.d, solve, firstCycle, r.value.value.(t := 0))
      && r.value.value.d == After(GreedyMakespan(P) / |P|, GreedyMakespan(P), calls).value.1
      && (forall k :: 0 <= k < |calls| && calls[k].outcome.Some? ==> r.value.value.d <= calls[k].d)
    ensures r.Ok? && r.value.None? ==> forall k :: 0 <= k < |calls| ==> calls[k].outcome.None?
    ensures GreedyMakespan(P) / |P| == GreedyMakespan(P) ==> r == Ok(None)
  {
    var t := GreedySchedule(P);
    GreedyBounds(P);
    DivisionBelow(t, |P|);
    var best;
    best, calls := Bisect(P, solve, firstCycle, t / |P|, t);
    if best.RecursionError? {
      return RecursionError, calls;
    }
    KeptLastResult(P, solve, firstCycle, t / |P|, t, calls);
    r := Ok(WithGreedyBound(best.value, t));
  }

  /** The loop of binary_search (Procedure.py): the same bisection, but
      every accepted solution replaces the kept one, so the last is kept. */
  method Bisect(P: seq<seq<int>>, solve: Solver, firstCycle: (set<Node>, set<Edge>) -> seq<Node>,
                lower0: int, upper0: int)
    returns (r: Result<Option<Schedule>>, ghost calls: seq<Call>)
    requires IsMatrix(P) && lower0 <= upper0
    ensures r.Ok? ==> IsBisection(lower0, upper0, calls) && r.value == KeptLast(calls)
    ensures r.RecursionError? ==> StoppedAt(P, solve, lower0, upper0, calls)
    ensures Decided(P, solve, firstCycle, calls)
    ensures lower0 == upper0 ==> r == Ok(None)
  {
    var lower, upper := lower0, upper0;
    var best: Option<Schedule> := None;
    calls := [];
    while lower != upper
      invariant Bisecting(P, solve, firstCycle, lower0, upper0, calls, lower, upper)
      invariant best == KeptLast(calls)
      decreases upper - lower
    {
      var probe := Probe(P, solve, firstCycle, lower0, upper0, calls, lower, upper);
      if probe.RecursionError? {
        return RecursionError, calls;
      }
      var c := probe.value;
      KeptLastStep(calls, c);
      calls := calls + [c];
      best := KeepLast(best, c);
      if c.outcome.Some? {
        upper := c.d;
      } else {
        lower := c.d + 1;
      }
    }
    r := Ok(best);
  }

  /** What the kept solution of a finished search is: accepted, at the
      final upper bound and at the smallest accepted deadline. */
  lemma KeptLastResult(P: seq<seq<int>>, solve: Solver, firstCycle: (set<Node>, set<Edge>) -> seq<Node>,
                   lower: int, upper: int, calls: seq<Call>)
    requires IsMatrix(P) && lower <= upper
    requires After(lower, upper, calls).Some? && Decided(P, solve, firstCycle, calls)
    ensures KeptLast(calls).None? ==> forall k :: 0 <= k < |calls| ==> calls[k].outcome.None?
    ensures KeptLast(calls).Some? ==>
      && Accepted(P, KeptLast(calls).value.d, solve, firstCycle, KeptLast(calls).value)
      && KeptLast(calls).value.d == After(lower, upper, calls).value.1
      && (forall k :: 0 <= k < |calls| && calls[k].outcome.Some? ==> KeptLast(calls).value.d <= calls[k].d)
  {
    KeptLastIsLast(calls);
    DecidedEach(P, solve, firstCycle, calls);
    KeptLastAtUpperBound(lower, upper, calls);
    KeptLastHasSmallestDeadline(lower, upper, calls);
    if KeptLast(calls).Some? {
      var k :| 0 <= k < |calls| && calls[k].outcome == KeptLast(calls) &&
        calls[k].d == After(lower, upper, calls).value.1;
      assert DecidedCall(P, solve, firstCycle, calls[k]);
    }
  }
}
