/**
  The index arithmetic of linear_programming.py around its solver call.
  Unlike RoundingTheorem.py, its LP creates a variable for EVERY pair
  (i, j), whatever P[i][j] is; it builds the lists M_j(t) and J_i(t) with
  explicit loops; and its makespan constraints sum over every job. Its
  `calculate_makespan` weighs each processing time by the (possibly
  fractional) variable value instead of counting only values equal to 1.
  The solver is a parameter, as in RoundingTheorem.
 */
module LinearProgramming {
  import opened Common
  import opened RoundingTheorem

  /** The keys of `[(i, j) for i in range(m) for j in range(n)]` of the
      first `rows` machines. */
  function AllKeysUpTo(n: nat, rows: nat): (ks: seq<Key>)
    ensures forall key :: key in ks <==> 0 <= key.0 < rows && 0 <= key.1 < n
    ensures RowMajor(ks)
  {
    if rows == 0 then []
    else
      var front := AllKeysUpTo(n, rows - 1);
      var row := seq(n, j requires 0 <= j < n => (rows - 1, j));
      var r := front + row;
      assert forall key: Key :: key in row <==> key.0 == rows - 1 && 0 <= key.1 < n by {
        forall key: Key | key.0 == rows - 1 && 0 <= key.1 < n ensures key in row {
          assert row[key.1] == key;
        }
      }
      assert forall l :: 0 <= l < |front| ==> r[l] == front[l] && front[l] in front;
      assert forall l :: |front| <= l < |r| ==> r[l] == row[l - |front|] && row[l - |front|] in row;
      r
  }

  /** The keys of the decision variables: every (i, j), row by row. */
  function AllKeys(P: seq<seq<int>>): (ks: seq<Key>)
    requires IsMatrix(P)
    ensures forall key :: key in ks <==> 0 <= key.0 < |P| && 0 <= key.1 < Jobs(P)
    ensures RowMajor(ks)
  {
    AllKeysUpTo(Jobs(P), |P|)
  }

  /** The variables include RoundingTheorem's eligible ones, and also every
      pair whose time exceeds the threshold t. */
  lemma AllKeysExtendEligibleKeys(P: seq<seq<int>>, t: int)
    requires IsMatrix(P)
    ensures forall key :: key in EligibleKeys(P, t) ==> key in AllKeys(P)
    ensures forall i, j :: 0 <= i < |P| && 0 <= j < Jobs(P) && P[i][j] > t ==>
      (i, j) in AllKeys(P) && (i, j) !in EligibleKeys(P, t)
  {
  }

  /** The loop that fills Mj_t: the machines i, in increasing order, with
      Pij[i][j] <= t. */
  method EligibleMachines(P: seq<seq<int>>, t: int, j: int) returns (mj: seq<int>)
    requires IsMatrix(P) && 0 <= j < Jobs(P)
    ensures mj == MachinesFor(P, t, j)
  {
    mj := [];
    for i := 0 to |P|
      invariant forall x :: x in mj <==> 0 <= x < i && P[x][j] <= t
      invariant Increasing(mj)
      invariant forall l :: 0 <= l < |mj| ==> mj[l] < i
    {
      if P[i][j] <= t {
        mj := mj + [i];
      }
    }
    IncreasingUnique(mj, MachinesFor(P, t, j));
  }

  /** The loop that fills Ji_t: the jobs j, in increasing order, with
      Pij[i][j] <= t. */
  method EligibleJobs(P: seq<seq<int>>, t: int, i: int) returns (ji: seq<int>)
    requires IsMatrix(P) && 0 <= i < |P|
    ensures ji == JobsFor(P, t, i)
  {
    ji := [];
    for j := 0 to Jobs(P)
      invariant forall x :: x in ji <==> 0 <= x < j && P[i][x] <= t
      invariant Increasing(ji)
      invariant forall l :: 0 <= l < |ji| ==> ji[l] < j
    {
      if P[i][j] <= t {
        ji := ji + [j];
      }
    }
    IncreasingUnique(ji, JobsFor(P, t, i));
  }

  /** The constraints LP(Pij, di, t) adds: one per job over Mj_t, one
      deadline per machine over Ji_t, and one makespan constraint per
      machine over EVERY job. */
  method BuildConstraints(P: seq<seq<int>>, di: seq<int>, t: int) returns (p: Program)
    requires IsMatrix(P) && |di| >= |P|
    ensures |p.perJob| == Jobs(P) && |p.deadlines| == |P| && |p.makespan| == |P|
    ensures forall j :: 0 <= j < Jobs(P) ==> p.perJob[j] == AssignedOnce(j, MachinesFor(P, t, j))
    ensures forall i :: 0 <= i < |P| ==> p.deadlines[i] == WithinDeadline(i, JobsFor(P, t, i), di[i])
    ensures forall i :: 0 <= i < |P| ==> p.makespan[i] == BelowMakespan(i, Range(Jobs(P)))
  {
    var m, n := |P|, Jobs(P);
    var perJob: seq<Constraint> := [];
    for j := 0 to n
      invariant |perJob| == j
      invariant forall k :: 0 <= k < j ==> perJob[k] == AssignedOnce(k, MachinesFor(P, t, k))
    {
      var mj := EligibleMachines(P, t, j);
      perJob := perJob + [AssignedOnce(j, mj)];
    }
    var deadlines: seq<Constraint> := [];
    for i := 0 to m
      invariant |deadlines| == i
      invariant forall k :: 0 <= k < i ==> deadlines[k] == WithinDeadline(k, JobsFor(P, t, k), di[k])
    {
      var ji := EligibleJobs(P, t, i);
      deadlines := deadlines + [WithinDeadline(i, ji, di[i])];
    }
    var makespan: seq<Constraint> := [];
    for i := 0 to m
      invariant |makespan| == i
      invariant forall k :: 0 <= k < i ==> makespan[k] == BelowMakespan(k, Range(n))
    {
      makespan := makespan + [BelowMakespan(i, Range(n))];
    }
    p := Program(perJob, deadlines, makespan);
  }

  /** The same program as RoundingTheorem's LP except that each makespan
      constraint also sums the variables of ineligible pairs. */
  lemma ConstraintsAgreeWithRoundingTheorem(P: seq<seq<int>>, di: seq<int>, t: int, p: Program)
    requires IsMatrix(P) && |di| >= |P|
    requires |p.perJob| == Jobs(P) && |p.deadlines| == |P| && |p.makespan| == |P|
    requires forall j :: 0 <= j < Jobs(P) ==> p.perJob[j] == AssignedOnce(j, MachinesFor(P, t, j))
    requires forall i :: 0 <= i < |P| ==> p.deadlines[i] == WithinDeadline(i, JobsFor(P, t, i), di[i])
    requires forall i :: 0 <= i < |P| ==> p.makespan[i] == BelowMakespan(i, Range(Jobs(P)))
    ensures p.perJob == BuildProgram(P, di, t).perJob
    ensures p.deadlines == BuildProgram(P, di, t).deadlines
    ensures forall i :: 0 <= i < |P| ==>
      forall j :: j in p.makespan[i].jobs <==> 0 <= j < Jobs(P)
  {
  }

  /** Every variable a constraint mentions exists, so building the program
      never fails on a missing key. */
  lemma ConstraintsUseCreatedVariables(P: seq<seq<int>>, di: seq<int>, t: int, p: Program)
    requires IsMatrix(P) && |di| >= |P|
    requires |p.perJob| == Jobs(P) && |p.deadlines| == |P| && |p.makespan| == |P|
    requires forall j :: 0 <= j < Jobs(P) ==> p.perJob[j] == AssignedOnce(j, MachinesFor(P, t, j))
    requires forall i :: 0 <= i < |P| ==> p.deadlines[i] == WithinDeadline(i, JobsFor(P, t, i), di[i])
    requires forall i :: 0 <= i < |P| ==> p.makespan[i] == BelowMakespan(i, Range(Jobs(P)))
    ensures forall c, key :: c in p.Constraints() && key in Terms(c) ==> key in AllKeys(P)
  {
    forall j, key | 0 <= j < |p.perJob| && key in Terms(p.perJob[j]) ensures key in AllKeys(P) {
      var l :| 0 <= l < |Terms(p.perJob[j])| && Terms(p.perJob[j])[l] == key;
      assert p.perJob[j].machines[l] in MachinesFor(P, t, j);
    }
    forall i, key | 0 <= i < |p.deadlines| && key in Terms(p.deadlines[i]) ensures key in AllKeys(P) {
      var l :| 0 <= l < |Terms(p.deadlines[i])| && Terms(p.deadlines[i])[l] == key;
      assert p.deadlines[i].jobs[l] in JobsFor(P, t, i);
    }
    forall i, key | 0 <= i < |p.makespan| && key in Terms(p.makespan[i]) ensures key in AllKeys(P) {
      var l :| 0 <= l < |Terms(p.makespan[i])| && Terms(p.makespan[i])[l] == key;
      assert p.makespan[i].jobs[l] in Range(Jobs(P));
    }
  }

  /** LP(Pij, di, t): the solver's answer on those constraints, read back
      as a dictionary over every pair (i, j). */
  function FullLP(solve: Solver, P: seq<seq<int>>, p: Program): (r: Option<(real, map<Key, real>)>)
    requires IsMatrix(P)
    ensures r.None? <==> solve(p).None?
    ensures r.Some? ==> forall key :: key in r.value.1 <==> 0 <= key.0 < |P| && 0 <= key.1 < Jobs(P)
  {
    match solve(p)
    case None => None
    case Some(optimum) => Some((optimum.0, map key | key in AllKeys(P) :: optimum.1(key)))
  }

  /** Machine i's load over the first k jobs, each time weighted by the
      value of its variable (0 where the key is absent). */
  function FractionalLoad(P: seq<seq<int>>, x: map<Key, real>, i: int, k: nat): real
    requires IsMatrix(P) && 0 <= i < |P| && k <= Jobs(P)
  {
    if k == 0 then 0.0
    else FractionalLoad(P, x, i, k - 1) + Entry(x, i, k - 1) * P[i][k - 1] as real
  }

  /** calculate_makespan (and the makespan print_schedule shows): the array
      form of the decision, each machine's weighted load, and the largest
      load. */
  method CalculateMakespan(P: seq<seq<int>>, x: map<Key, real>) returns (makespan: real)
    requires IsMatrix(P)
    ensures forall i :: 0 <= i < |P| ==> FractionalLoad(P, x, i, Jobs(P)) <= makespan
    ensures exists i :: 0 <= i < |P| && FractionalLoad(P, x, i, Jobs(P)) == makespan
  {
    var m, n := |P|, Jobs(P);
    var a := ConvertDecisionToArray(x, m, n);
    var completion := new real[m](_ => 0.0);
    for i := 0 to m
      invariant forall k, l :: 0 <= k < m && 0 <= l < n ==> a[k, l] == Entry(x, k, l)
      invariant forall k :: 0 <= k < i ==> completion[k] == FractionalLoad(P, x, k, n)
      invariant forall k :: i <= k < m ==> completion[k] == 0.0
    {
      for j := 0 to n
        invariant forall k, l :: 0 <= k < m && 0 <= l < n ==> a[k, l] == Entry(x, k, l)
        invariant completion[i] == FractionalLoad(P, x, i, j)
        invariant forall k :: 0 <= k < i ==> completion[k] == FractionalLoad(P, x, k, n)
        invariant forall k :: i < k < m ==> completion[k] == 0.0
      {
        completion[i] := completion[i] + a[i, j] * P[i][j] as real;
      }
    }
    makespan := MaxReal(completion[..]);
  }

  /** A decision whose present values are all 0 or 1 weighs every time by
      0 or 1: its fractional load is its counted load. */
  lemma {:induction false} IntegralLoadIsCounted(P: seq<seq<int>>, x: map<Key, real>, i: int, k: nat)
    requires IsMatrix(P) && 0 <= i < |P| && k <= Jobs(P)
    requires forall j :: 0 <= j < k && (i, j) in x ==> x[(i, j)] == 0.0 || x[(i, j)] == 1.0
    ensures FractionalLoad(P, x, i, k) == CountedLoad(P, x, i, k) as real
    decreases k
  {
    if k > 0 {
      IntegralLoadIsCounted(P, x, i, k - 1);
    }
  }

  /** On a 0/1 decision the fractional makespan is RoundingTheorem's counted
      one: the largest summed time of the jobs assigned to a machine. */
  lemma IntegralMakespanIsCounted(P: seq<seq<int>>, x: map<Key, real>, makespan: real)
    requires IsMatrix(P)
    requires forall key :: key in x ==> x[key] == 0.0 || x[key] == 1.0
    requires forall i :: 0 <= i < |P| ==> FractionalLoad(P, x, i, Jobs(P)) <= makespan
    requires exists i :: 0 <= i < |P| && FractionalLoad(P, x, i, Jobs(P)) == makespan
    ensures makespan == MaxInt(CountedLoads(P, x)) as real
  {
    var loads := CountedLoads(P, x);
    forall i | 0 <= i < |P| ensures FractionalLoad(P, x, i, Jobs(P)) == loads[i] as real {
      IntegralLoadIsCounted(P, x, i, Jobs(P));
    }
    var top := MaxInt(loads);
    var i :| 0 <= i < |P| && FractionalLoad(P, x, i, Jobs(P)) == makespan;
    var k :| 0 <= k < |loads| && loads[k] == top;
    assert loads[i] <= top;
    assert loads[k] as real <= makespan;
  }
}
