/**
  The index arithmetic of RoundingTheorem.py around its two solver calls:
  which decision variables LP(P, d, t) and IP(P, d, t) create, which of them
  each constraint sums over, how a decision is read back as an m x n array,
  the makespan of a 0/1 decision (a variable counts only when it is present
  with value exactly 1) and the job list printed for each machine.
  The solver itself is not modelled: it is a parameter of the search.
 */
module RoundingTheorem {
  import opened Common

  /** (i, j) comes strictly before (k, l) when the pairs are listed row by row. */
  predicate RowMajorBefore(a: Key, b: Key)
  {
    a.0 < b.0 || (a.0 == b.0 && a.1 < b.1)
  }

  predicate RowMajor(ks: seq<Key>)
  {
    forall k, l :: 0 <= k < l < |ks| ==> RowMajorBefore(ks[k], ks[l])
  }

  /** Machine i may run job j within the threshold t: P[i][j] <= t. */
  predicate Eligible(P: seq<seq<int>>, t: int, key: Key)
    requires IsMatrix(P)
  {
    0 <= key.0 < |P| && 0 <= key.1 < Jobs(P) && P[key.0][key.1] <= t
  }

  /** The eligible keys of row i among the first k jobs, in job order. */
  function EligibleRow(P: seq<seq<int>>, t: int, i: int, k: nat): (ks: seq<Key>)
    requires IsMatrix(P) && 0 <= i < |P| && k <= Jobs(P)
    ensures forall key :: key in ks <==> key.0 == i && key.1 < k && Eligible(P, t, key)
    ensures RowMajor(ks)
  {
    if k == 0 then []
    else
      var ks := EligibleRow(P, t, i, k - 1);
      if P[i][k - 1] <= t then
        var r := ks + [(i, k - 1)];
        assert forall l :: 0 <= l < |ks| ==> r[l] == ks[l] && ks[l] in ks;
        r
      else ks
  }

  /** The eligible keys of the first `rows` machines, row by row. */
  function EligibleKeysUpTo(P: seq<seq<int>>, t: int, rows: nat): (ks: seq<Key>)
    requires IsMatrix(P) && rows <= |P|
    ensures forall key :: key in ks <==> key.0 < rows && Eligible(P, t, key)
    ensures RowMajor(ks)
  {
    if rows == 0 then []
    else
      var front := EligibleKeysUpTo(P, t, rows - 1);
      var row := EligibleRow(P, t, rows - 1, Jobs(P));
      JoinRows(front, row, rows - 1);
      front + row
  }

  /** Rows listed one after another stay in row-major order. */
  lemma JoinRows(front: seq<Key>, row: seq<Key>, i: int)
    requires RowMajor(front) && RowMajor(row)
    requires forall key :: key in front ==> key.0 < i
    requires forall key :: key in row ==> key.0 == i
    ensures RowMajor(front + row)
  {
    var r := front + row;
    forall k, l | 0 <= k < l < |r| ensures RowMajorBefore(r[k], r[l]) {
      if l < |front| {
        assert r[k] == front[k] && r[l] == front[l];
      } else if k >= |front| {
        assert r[k] == row[k - |front|] && r[l] == row[l - |front|];
      } else {
        assert r[k] == front[k] && front[k] in front;
        assert r[l] == row[l - |front|] && row[l - |front|] in row;
      }
    }
  }

  /** The keys of LP(P, d, t) and IP(P, d, t): `[(i, j) for i in range(m)
      for j in range(n) if P[i][j] <= t]` -- exactly the eligible pairs,
      each once, in row-major order. */
  function EligibleKeys(P: seq<seq<int>>, t: int): (ks: seq<Key>)
    requires IsMatrix(P)
    ensures forall key :: key in ks <==> Eligible(P, t, key)
    ensures RowMajor(ks)
    ensures forall k, l :: 0 <= k < l < |ks| ==> ks[k] != ks[l]
  {
    EligibleKeysUpTo(P, t, |P|)
  }

  /** M_j(t): the machines that can run job j within t, in index order. */
  function MachinesFor(P: seq<seq<int>>, t: int, j: int): (ms: seq<int>)
    requires IsMatrix(P) && 0 <= j < Jobs(P)
    ensures forall i :: i in ms <==> Eligible(P, t, (i, j))
    ensures Increasing(ms)
  {
    Filter(Range(|P|), i => 0 <= i < |P| && P[i][j] <= t)
  }

  /** J_i(t): the jobs machine i can run within t, in index order. */
  function JobsFor(P: seq<seq<int>>, t: int, i: int): (js: seq<int>)
    requires IsMatrix(P) && 0 <= i < |P|
    ensures forall j :: j in js <==> Eligible(P, t, (i, j))
    ensures Increasing(js)
  {
    Filter(Range(Jobs(P)), j => 0 <= j < Jobs(P) && P[i][j] <= t)
  }

  /** A linear constraint over the decision variables x_ij and Cmax. */
  datatype Constraint =
    | AssignedOnce(job: int, machines: seq<int>)              // sum of x_ij over the machines == 1
    | WithinDeadline(machine: int, jobs: seq<int>, bound: int) // sum of P_ij * x_ij over the jobs <= bound
    | BelowMakespan(machine: int, jobs: seq<int>)             // sum of P_ij * x_ij over the jobs <= Cmax

  /** The variables a constraint sums over. */
  function Terms(c: Constraint): seq<Key>
  {
    match c
    case AssignedOnce(j, ms) => seq(|ms|, l requires 0 <= l < |ms| => (ms[l], j))
    case WithinDeadline(i, js, _) => seq(|js|, l requires 0 <= l < |js| => (i, js[l]))
    case BelowMakespan(i, js) => seq(|js|, l requires 0 <= l < |js| => (i, js[l]))
  }

  /** The constraints LP(P, bounds, t) and IP(P, bounds', t) add: one per
      job, then one deadline and one makespan constraint per machine. LP
      passes the deadlines d_i; IP passes d_i + t (IpDeadlines). */
  datatype Program = Program(perJob: seq<Constraint>, deadlines: seq<Constraint>, makespan: seq<Constraint>)
  {
    function Constraints(): seq<Constraint>
    {
      perJob + deadlines + makespan
    }
  }

  function BuildProgram(P: seq<seq<int>>, bounds: seq<int>, t: int): (p: Program)
    requires IsMatrix(P) && |bounds| >= |P|
    ensures |p.perJob| == Jobs(P) && |p.deadlines| == |P| && |p.makespan| == |P|
    ensures forall j :: 0 <= j < Jobs(P) ==>
      p.perJob[j].AssignedOnce? && p.perJob[j].job == j &&
      forall i :: i in p.perJob[j].machines <==> Eligible(P, t, (i, j))
    ensures forall i :: 0 <= i < |P| ==>
      p.deadlines[i].WithinDeadline? && p.deadlines[i].machine == i && p.deadlines[i].bound == bounds[i] &&
      forall j :: j in p.deadlines[i].jobs <==> Eligible(P, t, (i, j))
    ensures forall i :: 0 <= i < |P| ==>
      p.makespan[i].BelowMakespan? && p.makespan[i].machine == i &&
      forall j :: j in p.makespan[i].jobs <==> Eligible(P, t, (i, j))
  {
    var n, m := Jobs(P), |P|;
    Program(
      seq(n, j requires 0 <= j < n => AssignedOnce(j, MachinesFor(P, t, j))),
      seq(m, i requires 0 <= i < m => WithinDeadline(i, JobsFor(P, t, i), bounds[i])),
      seq(m, i requires 0 <= i < m => BelowMakespan(i, JobsFor(P, t, i))))
  }

  /** IP(P, d, t) loosens every machine deadline by t. */
  function IpDeadlines(di: seq<int>, t: int): (bounds: seq<int>)
    ensures |bounds| == |di| && forall i :: 0 <= i < |di| ==> bounds[i] == di[i] + t
  {
    seq(|di|, i requires 0 <= i < |di| => di[i] + t)
  }

  /** The LP/IP solver, which is not modelled: given the constraints it
      either reports no optimum (status other than 1) or returns the optimal
      Cmax and a value for every variable. */
  type Solver = Program -> Option<(real, Key -> real)>

  /** LP(P, d, t): the solver's answer on the program with deadlines d,
      read back as a dictionary over exactly the created keys. */
  function LP(solve: Solver, P: seq<seq<int>>, di: seq<int>, t: int): (r: Option<(real, map<Key, real>)>)
    requires IsMatrix(P) && |di| >= |P|
    ensures r.None? <==> solve(BuildProgram(P, di, t)).None?
    ensures r.Some? ==> forall key :: key in r.value.1 <==> Eligible(P, t, key)
  {
    match solve(BuildProgram(P, di, t))
    case None => None
    case Some(optimum) => Some((optimum.0, map key | key in EligibleKeys(P, t) :: optimum.1(key)))
  }

  /** IP(P, d, t): the same keys and constraints with every deadline
      loosened by t (integrality is the solver's concern). */
  function IP(solve: Solver, P: seq<seq<int>>, di: seq<int>, t: int): (r: Option<(real, map<Key, real>)>)
    requires IsMatrix(P) && |di| >= |P|
    ensures r.None? <==> solve(BuildProgram(P, IpDeadlines(di, t), t)).None?
    ensures r.Some? ==> forall key :: key in r.value.1 <==> Eligible(P, t, key)
  {
    LP(solve, P, IpDeadlines(di, t), t)
  }

  /** Every variable a constraint of LP or IP mentions is one the
      comprehension created, so building the program never fails on a
      missing key. */
  lemma ProgramUsesCreatedVariables(P: seq<seq<int>>, bounds: seq<int>, t: int)
    requires IsMatrix(P) && |bounds| >= |P|
    ensures forall c, key :: c in BuildProgram(P, bounds, t).Constraints() && key in Terms(c) ==>
      key in EligibleKeys(P, t)
  {
    var p := BuildProgram(P, bounds, t);
    forall c, key | c in p.Constraints() && key in Terms(c) ensures key in EligibleKeys(P, t) {
      var l :| 0 <= l < |Terms(c)| && Terms(c)[l] == key;
      if c in p.perJob {
        var j :| 0 <= j < |p.perJob| && p.perJob[j] == c;
        assert c.machines[l] in c.machines;
      } else if c in p.deadlines {
        var i :| 0 <= i < |p.deadlines| && p.deadlines[i] == c;
        assert c.jobs[l] in c.jobs;
      } else {
        assert c in p.makespan;
        var i :| 0 <= i < |p.makespan| && p.makespan[i] == c;
        assert c.jobs[l] in c.jobs;
      }
    }
  }

  /** Cell (i, j) of the array form of a decision: its value when the key is
      present, 0 otherwise. */
  function Entry(x: map<Key, real>, i: int, j: int): real
  {
    if (i, j) in x then x[(i, j)] else 0.0
  }

  /** `(i, j) in xij and xij[(i, j)].varValue == 1`. */
  predicate Assigned(x: map<Key, real>, i: int, j: int)
  {
    (i, j) in x && x[(i, j)] == 1.0
  }

  /** Machine i's load over the first k jobs, counting a job only when it is
      assigned to i. */
  function CountedLoad(P: seq<seq<int>>, x: map<Key, real>, i: int, k: nat): int
    requires IsMatrix(P) && 0 <= i < |P| && k <= Jobs(P)
  {
    if k == 0 then 0
    else CountedLoad(P, x, i, k - 1) + (if Assigned(x, i, k - 1) then P[i][k - 1] else 0)
  }

  function CountedLoads(P: seq<seq<int>>, x: map<Key, real>): (loads: seq<int>)
    requires IsMatrix(P)
    ensures |loads| == |P|
  {
    seq(|P|, i requires 0 <= i < |P| => CountedLoad(P, x, i, Jobs(P)))
  }

  /** calculate_makespan: accumulate each machine's completion time over the
      assigned jobs, then take the largest. */
  method CalculateMakespan(P: seq<seq<int>>, x: map<Key, real>) returns (makespan: int)
    requires IsMatrix(P)
    ensures forall i :: 0 <= i < |P| ==> CountedLoad(P, x, i, Jobs(P)) <= makespan
    ensures exists i :: 0 <= i < |P| && CountedLoad(P, x, i, Jobs(P)) == makespan
  {
    var m, n := |P|, Jobs(P);
    var completion := new int[m](_ => 0);
    for i := 0 to m
      invariant forall k :: 0 <= k < i ==> completion[k] == CountedLoad(P, x, k, n)
      invariant forall k :: i <= k < m ==> completion[k] == 0
    {
      for j := 0 to n
        invariant completion[i] == CountedLoad(P, x, i, j)
        invariant forall k :: 0 <= k < i ==> completion[k] == CountedLoad(P, x, k, n)
        invariant forall k :: i < k < m ==> completion[k] == 0
      {
        if (i, j) in x && x[(i, j)] == 1.0 {
          completion[i] := completion[i] + P[i][j];
        }
      }
    }
    assert completion[..] == CountedLoads(P, x);
    makespan := MaxInt(completion[..]);
  }

  /** Only the keys present with value exactly 1 matter: two decisions that
      assign the same pairs have the same loads. */
  lemma {:induction false} CountedLoadDependsOnAssignment(P: seq<seq<int>>, x: map<Key, real>, y: map<Key, real>, i: int, k: nat)
    requires IsMatrix(P) && 0 <= i < |P| && k <= Jobs(P)
    requires forall j :: 0 <= j < k ==> (Assigned(x, i, j) <==> Assigned(y, i, j))
    ensures CountedLoad(P, x, i, k) == CountedLoad(P, y, i, k)
    decreases k
  {
    if k > 0 {
      CountedLoadDependsOnAssignment(P, x, y, i, k - 1);
    }
  }

  /** `[j for j in range(n) if (i, j) in xij if xij[(i, j)].varValue == 1]`
      over the first k jobs: the job list print_schedule shows for machine i. */
  function AssignedJobs(x: map<Key, real>, i: int, k: nat): (js: seq<int>)
    ensures forall j :: j in js <==> 0 <= j < k && Assigned(x, i, j)
    ensures Increasing(js)
  {
    if k == 0 then []
    else
      var js := AssignedJobs(x, i, k - 1);
      if Assigned(x, i, k - 1) then
        var r := js + [k - 1];
        assert forall l :: 0 <= l < |js| ==> r[l] == js[l] && js[l] in js;
        r
      else js
  }

  /** The processing times on one machine of a list of jobs. */
  function TimesOf(row: seq<int>, js: seq<int>): (ts: seq<int>)
    requires forall l :: 0 <= l < |js| ==> 0 <= js[l] < |row|
    ensures |ts| == |js|
  {
    seq(|js|, l requires 0 <= l < |js| => row[js[l]])
  }

  /** The load calculate_makespan counts for machine i is the total time of
      the jobs print_schedule lists for it. */
  lemma {:induction false} CountedLoadIsListedTotal(P: seq<seq<int>>, x: map<Key, real>, i: int, k: nat)
    requires IsMatrix(P) && 0 <= i < |P| && k <= Jobs(P)
    ensures forall l :: 0 <= l < |AssignedJobs(x, i, k)| ==> 0 <= AssignedJobs(x, i, k)[l] < |P[i]|
    ensures CountedLoad(P, x, i, k) == Sum(TimesOf(P[i], AssignedJobs(x, i, k)))
    decreases k
  {
    var js := AssignedJobs(x, i, k);
    forall l | 0 <= l < |js| ensures 0 <= js[l] < |P[i]| {
      assert js[l] in js;
    }
    if k > 0 {
      CountedLoadIsListedTotal(P, x, i, k - 1);
      var prev := AssignedJobs(x, i, k - 1);
      if Assigned(x, i, k - 1) {
        var ts := TimesOf(P[i], js);
        assert ts[..|ts| - 1] == TimesOf(P[i], prev);
      }
    }
  }

  /** With non-negative times a machine's counted load lies between 0 and
      the sum of its row. */
  lemma {:induction false} CountedLoadBounds(P: seq<seq<int>>, x: map<Key, real>, i: int, k: nat)
    requires IsMatrix(P) && NonNegative(P) && 0 <= i < |P| && k <= Jobs(P)
    ensures 0 <= CountedLoad(P, x, i, k) <= Sum(P[i][..k])
    decreases k
  {
    if k > 0 {
      CountedLoadBounds(P, x, i, k - 1);
      assert P[i][..k][..k - 1] == P[i][..k - 1];
    }
  }

  /** convert_decision_to_array: an m x n array of zeros, then the value of
      every key (i, j) that is present. */
  method ConvertDecisionToArray(x: map<Key, real>, m: nat, n: nat) returns (a: array2<real>)
    ensures fresh(a) && a.Length0 == m && a.Length1 == n
    ensures forall i, j :: 0 <= i < m && 0 <= j < n ==> a[i, j] == Entry(x, i, j)
  {
    a := new real[m, n]((_, _) => 0.0);
    for i := 0 to m
      invariant forall k, j :: 0 <= k < i && 0 <= j < n ==> a[k, j] == Entry(x, k, j)
      invariant forall k, j :: i <= k < m && 0 <= j < n ==> a[k, j] == 0.0
    {
      for j := 0 to n
        invariant forall k, l :: 0 <= k < i && 0 <= l < n ==> a[k, l] == Entry(x, k, l)
        invariant forall l :: 0 <= l < j ==> a[i, l] == Entry(x, i, l)
        invariant forall k, l :: i <= k < m && 0 <= l < n && (k > i || l >= j) ==> a[k, l] == 0.0
      {
        if (i, j) in x {
          a[i, j] := x[(i, j)];
        }
      }
    }
  }
}
