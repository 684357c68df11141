/**
  LP.py: the same program as linear_programming.py (a variable for every
  pair (i, j), M_j(t) and J_i(t) built by the same loops, modelled in
  module LinearProgramming), with a `calculate_makespan` that reads every
  variable directly instead of going through the array form.
 */
module LP {
  import opened Common
  import opened RoundingTheorem
  import opened LinearProgramming

  /** Every pair (i, j) has a variable. */
  predicate HasEveryKey(P: seq<seq<int>>, x: map<Key, real>)
    requires IsMatrix(P)
  {
    forall i, j :: 0 <= i < |P| && 0 <= j < Jobs(P) ==> (i, j) in x
  }

  /** calculate_makespan: each machine's completion time is the sum of
      `x[i, j].varValue * P[i][j]` over all jobs, and the makespan is the
      largest of them. Reading x[i, j] needs every variable to exist. */
  method CalculateMakespan(P: seq<seq<int>>, x: map<Key, real>) returns (makespan: real)
    requires IsMatrix(P) && HasEveryKey(P, x)
    ensures forall i :: 0 <= i < |P| ==> FractionalLoad(P, x, i, Jobs(P)) <= makespan
    ensures exists i :: 0 <= i < |P| && FractionalLoad(P, x, i, Jobs(P)) == makespan
  {
    var machines, jobs := |P|, Jobs(P);
    var completion := new real[machines](_ => 0.0);
    for i := 0 to machines
      invariant forall k :: 0 <= k < i ==> completion[k] == FractionalLoad(P, x, k, jobs)
      invariant forall k :: i <= k < machines ==> completion[k] == 0.0
    {
      for j := 0 to jobs
        invariant completion[i] == FractionalLoad(P, x, i, j)
        invariant forall k :: 0 <= k < i ==> completion[k] == FractionalLoad(P, x, k, jobs)
        invariant forall k :: i < k < machines ==> completion[k] == 0.0
      {
        completion[i] := completion[i] + x[(i, j)] * P[i][j] as real;
      }
    }
    makespan := MaxReal(completion[..]);
  }

  /** The solver's answer to LP.py's program has a value for every pair, so
      calculate_makespan can read each one. */
  lemma SolutionHasEveryKey(solve: Solver, P: seq<seq<int>>, p: Program)
    requires IsMatrix(P) && FullLP(solve, P, p).Some?
    ensures HasEveryKey(P, FullLP(solve, P, p).value.1)
  {
  }

  /** Without the variables of ineligible pairs -- as RoundingTheorem's LP
      creates them -- calculate_makespan cannot read every key as soon as
      one time exceeds the threshold. */
  lemma EligibleKeysMissSomePair(solve: Solver, P: seq<seq<int>>, di: seq<int>, t: int, i: int, j: int)
    requires IsMatrix(P) && |di| >= |P| && RoundingTheorem.LP(solve, P, di, t).Some?
    requires 0 <= i < |P| && 0 <= j < Jobs(P) && P[i][j] > t
    ensures !HasEveryKey(P, RoundingTheorem.LP(solve, P, di, t).value.1)
  {
    assert (i, j) !in RoundingTheorem.LP(solve, P, di, t).value.1;
  }
}
