/**
  brute_force.py: every ordering of the jobs, in the order
  `itertools.permutations(range(n))` produces them, is list-scheduled --
  each job in turn goes to the machine whose load plus the job's time is
  smallest, the lowest index on ties -- and the first ordering of least
  makespan is kept. The schedule matrix marks a job in the column of its
  POSITION in the ordering, not in the column of the job.
 */
module BruteForce {
  import opened Common

  // ---------------------------------------------------------------------
  // itertools.permutations
  // ---------------------------------------------------------------------

  /** s with its i-th element removed. */
  function Without(s: seq<int>, i: nat): (r: seq<int>)
    requires i < |s|
    ensures |r| == |s| - 1
    ensures multiset(r) + multiset{s[i]} == multiset(s)
  {
    assert s == s[..i] + [s[i]] + s[i + 1..];
    s[..i] + s[i + 1..]
  }

  /** Every sequence of ps with x in front. */
  function Prefixed(x: int, ps: seq<seq<int>>): (r: seq<seq<int>>)
    ensures |r| == |ps| && forall k :: 0 <= k < |ps| ==> r[k] == [x] + ps[k]
  {
    seq(|ps|, k requires 0 <= k < |ps| => [x] + ps[k])
  }

  /** `itertools.permutations(s)`: for each position i in turn, s[i]
      followed by every ordering of the others. */
  function Permutations(s: seq<int>): seq<seq<int>>
    decreases |s|, 1
  {
    if s == [] then [[]] else PermutationsFrom(s, 0)
  }

  /** The orderings of s that start with s[i], s[i + 1], ... */
  function PermutationsFrom(s: seq<int>, i: nat): seq<seq<int>>
    requires i <= |s|
    decreases |s|, 0, |s| - i
  {
    if i == |s| then [] else Prefixed(s[i], Permutations(Without(s, i))) + PermutationsFrom(s, i + 1)
  }

  /** Every sequence of ps is a rearrangement of s. */
  predicate AllRearrange(ps: seq<seq<int>>, s: seq<int>)
  {
    forall k :: 0 <= k < |ps| ==> multiset(ps[k]) == multiset(s)
  }

  /** Every ordering produced is a rearrangement of s. */
  lemma {:induction false} PermutationsSound(s: seq<int>)
    ensures AllRearrange(Permutations(s), s)
    decreases |s|, 1
  {
    if s != [] {
      PermutationsFromSound(s, 0);
    }
  }

  lemma {:induction false} PermutationsFromSound(s: seq<int>, i: nat)
    requires i <= |s|
    ensures AllRearrange(PermutationsFrom(s, i), s)
    decreases |s|, 0, |s| - i
  {
    if i < |s| {
      var rest := Without(s, i);
      PermutationsSound(rest);
      PrefixedSound(s[i], Permutations(rest), rest, s);
      PermutationsFromSound(s, i + 1);
      AppendSound(Prefixed(s[i], Permutations(rest)), PermutationsFrom(s, i + 1), s);
    }
  }

  lemma PrefixedSound(x: int, ps: seq<seq<int>>, rest: seq<int>, s: seq<int>)
    requires multiset(rest) + multiset{x} == multiset(s) && AllRearrange(ps, rest)
    ensures AllRearrange(Prefixed(x, ps), s)
  {
    forall k | 0 <= k < |ps| ensures multiset(Prefixed(x, ps)[k]) == multiset(s) {
      assert multiset([x] + ps[k]) == multiset{x} + multiset(ps[k]);
    }
  }

  lemma AppendSound(a: seq<seq<int>>, b: seq<seq<int>>, s: seq<int>)
    requires AllRearrange(a, s) && AllRearrange(b, s)
    ensures AllRearrange(a + b, s)
  {
    forall k | 0 <= k < |a + b| ensures multiset((a + b)[k]) == multiset(s) {
      if k >= |a| {
        assert (a + b)[k] == b[k - |a|];
      }
    }
  }

  /** Every rearrangement of s is produced: no ordering is missed. */
  lemma {:induction false} PermutationsComplete(s: seq<int>, q: seq<int>)
    requires multiset(q) == multiset(s)
    ensures q in Permutations(s)
    decreases |s|, 1
  {
    if s == [] {
      assert q == [];
    } else {
      assert q[0] in multiset(s);
      var i :| 0 <= i < |s| && s[i] == q[0];
      PermutationsFromComplete(s, i, q);
      PermutationsFromGrows(s, 0, i);
    }
  }

  lemma {:induction false} PermutationsFromComplete(s: seq<int>, i: nat, q: seq<int>)
    requires i < |s| && multiset(q) == multiset(s) && q != [] && q[0] == s[i]
    ensures q in PermutationsFrom(s, i)
    decreases |s|, 0, |s| - i
  {
    var rest := Without(s, i);
    assert q == [q[0]] + q[1..];
    assert multiset(q) == multiset{q[0]} + multiset(q[1..]);
    assert multiset(q[1..]) == multiset(q) - multiset{q[0]};
    assert multiset(rest) == multiset(s) - multiset{s[i]};
    PermutationsComplete(rest, q[1..]);
    var k :| 0 <= k < |Permutations(rest)| && Permutations(rest)[k] == q[1..];
    assert Prefixed(s[i], Permutations(rest))[k] == q;
  }

  /** The orderings from position i on include those from every later one. */
  lemma {:induction false} PermutationsFromGrows(s: seq<int>, i: nat, i': nat)
    requires i <= i' <= |s|
    ensures forall q :: q in PermutationsFrom(s, i') ==> q in PermutationsFrom(s, i)
    decreases i' - i
  {
    if i < i' {
      PermutationsFromGrows(s, i + 1, i');
    }
  }

  /** The first ordering produced is s itself. */
  lemma {:induction false} IdentityFirst(s: seq<int>)
    ensures |Permutations(s)| > 0 && Permutations(s)[0] == s
    decreases |s|
  {
    if s != [] {
      IdentityFirst(Without(s, 0));
      assert Without(s, 0) == s[1..];
      assert [s[0]] + s[1..] == s;
    }
  }

  // ---------------------------------------------------------------------
  // List scheduling of one ordering
  // ---------------------------------------------------------------------

  /** An ordering of the jobs: n job indices (the rows of P share n). */
  predicate IsOrder(P: seq<seq<int>>, order: seq<int>)
    requires IsMatrix(P)
  {
    |order| == Jobs(P) && forall k :: 0 <= k < |order| ==> 0 <= order[k] < Jobs(P)
  }

  /** Every sequence of orders is an ordering of the jobs. */
  predicate AllOrders(P: seq<seq<int>>, orders: seq<seq<int>>)
    requires IsMatrix(P)
  {
    forall k :: 0 <= k < |orders| ==> IsOrder(P, orders[k])
  }

  /** Every rearrangement of range(n) is an ordering of the jobs. */
  lemma RearrangementIsOrder(P: seq<seq<int>>, q: seq<int>)
    requires IsMatrix(P) && multiset(q) == multiset(Range(Jobs(P)))
    ensures IsOrder(P, q)
  {
    assert |q| == |multiset(q)| == |multiset(Range(Jobs(P)))| == Jobs(P);
    forall l | 0 <= l < |q| ensures 0 <= q[l] < Jobs(P) {
      assert q[l] in multiset(q);
    }
  }

  /** Every ordering itertools produces for range(n) is an ordering of the
      jobs. */
  lemma PermutationsAreOrders(P: seq<seq<int>>)
    requires IsMatrix(P)
    ensures AllOrders(P, Permutations(Range(Jobs(P))))
  {
    var perms := Permutations(Range(Jobs(P)));
    PermutationsSound(Range(Jobs(P)));
    forall k | 0 <= k < |perms| ensures IsOrder(P, perms[k]) {
      RearrangementIsOrder(P, perms[k]);
    }
  }

  /** The machine the scan over machines 0 .. m-1 settles on: the first
      one whose load plus the job's time is least (a later machine replaces
      the current one only when strictly better). */
  function FirstLeast(P: seq<seq<int>>, times: seq<int>, job: int, m: nat): (i: nat)
    requires IsMatrix(P) && |times| == |P| && 1 <= m <= |P| && 0 <= job < Jobs(P)
    ensures i < m
  {
    if m == 1 then 0
    else
      var k := FirstLeast(P, times, job, m - 1);
      if times[m - 1] + P[m - 1][job] < times[k] + P[k][job] then m - 1 else k
  }

  /** The machine found has the least load plus time among machines
      0 .. m-1, and every machine before it is strictly worse. */
  lemma {:induction false} FirstLeastIsLeast(P: seq<seq<int>>, times: seq<int>, job: int, m: nat)
    requires IsMatrix(P) && |times| == |P| && 1 <= m <= |P| && 0 <= job < Jobs(P)
    ensures var c := FirstLeast(P, times, job, m);
      && (forall i :: 0 <= i < m ==> times[c] + P[c][job] <= times[i] + P[i][job])
      && (forall i :: 0 <= i < c ==> times[c] + P[c][job] < times[i] + P[i][job])
  {
    if m > 1 {
      FirstLeastIsLeast(P, times, job, m - 1);
    }
  }

  /** m idle machines. */
  function Idle(m: nat): (loads: seq<int>)
    ensures |loads| == m && forall i :: 0 <= i < m ==> loads[i] == 0
  {
    if m == 0 then [] else Idle(m - 1) + [0]
  }

  /** The machines' loads after the first k jobs of the ordering. */
  function Loads(P: seq<seq<int>>, order: seq<int>, k: nat): (loads: seq<int>)
    requires IsMatrix(P) && IsOrder(P, order) && k <= |order|
    ensures |loads| == |P|
    decreases k, 0
  {
    if k == 0 then Idle(|P|)
    else
      var prev, i := Loads(P, order, k - 1), Chosen(P, order, k - 1);
      prev[i := prev[i] + P[i][order[k - 1]]]
  }

  /** The machine the job at position k goes to: the first machine of
      least load plus time for that job. */
  function Chosen(P: seq<seq<int>>, order: seq<int>, k: nat): (i: nat)
    requires IsMatrix(P) && IsOrder(P, order) && k < |order|
    ensures i < |P|
    decreases k, 1
  {
    FirstLeast(P, Loads(P, order, k), order[k], |P|)
  }

  /** The makespan of an ordering: its largest final load. */
  function Makespan(P: seq<seq<int>>, order: seq<int>): int
    requires IsMatrix(P) && IsOrder(P, order)
  {
    MaxInt(Loads(P, order, |order|))
  }

  /** An m-by-n matrix of zeros. */
  function ZeroMatrix(m: nat, n: nat): (z: seq<seq<int>>)
    ensures |z| == m && forall i :: 0 <= i < m ==> z[i] == seq(n, _ => 0)
  {
    seq(m, _ => seq(n, _ => 0))
  }

  /** The schedule matrix after the first k positions: the job at position
      pos marks row Chosen(pos) of column pos. */
  function ScheduleAfter(P: seq<seq<int>>, order: seq<int>, k: nat): (s: seq<seq<int>>)
    requires IsMatrix(P) && IsOrder(P, order) && k <= |order|
    ensures |s| == |P| && forall i :: 0 <= i < |P| ==> |s[i]| == Jobs(P)
  {
    if k == 0 then ZeroMatrix(|P|, Jobs(P))
    else
      var prev, c := ScheduleAfter(P, order, k - 1), Chosen(P, order, k - 1);
      prev[c := prev[c][k - 1 := 1]]
  }

  /** The job at position k goes to the machine with the smallest load plus
      time for it, the first such machine on ties. */
  lemma ChosenIsLeastLoaded(P: seq<seq<int>>, order: seq<int>, k: nat)
    requires IsMatrix(P) && IsOrder(P, order) && k < |order|
    ensures var loads, c := Loads(P, order, k), Chosen(P, order, k);
      && (forall i :: 0 <= i < |P| ==> loads[c] + P[c][order[k]] <= loads[i] + P[i][order[k]])
      && (forall i :: 0 <= i < c ==> loads[c] + P[c][order[k]] < loads[i] + P[i][order[k]])
  {
    FirstLeastIsLeast(P, Loads(P, order, k), order[k], |P|);
  }

  /** Placing the job at position k adds its time to the chosen machine
      alone. */
  lemma LoadsStep(P: seq<seq<int>>, order: seq<int>, k: nat)
    requires IsMatrix(P) && IsOrder(P, order) && k < |order|
    ensures var c := Chosen(P, order, k);
      && Loads(P, order, k + 1)[c] == Loads(P, order, k)[c] + P[c][order[k]]
      && forall i :: 0 <= i < |P| && i != c ==> Loads(P, order, k + 1)[i] == Loads(P, order, k)[i]
  {
  }

  /** After k positions, a cell holds 1 exactly when its column is one of
      the first k positions and its row is the machine chosen for the job
      at that position; every other cell holds 0. */
  lemma {:induction false} ScheduleCells(P: seq<seq<int>>, order: seq<int>, k: nat, i: nat, pos: nat)
    requires IsMatrix(P) && IsOrder(P, order) && k <= |order| && i < |P| && pos < Jobs(P)
    ensures ScheduleAfter(P, order, k)[i][pos] == if pos < k && Chosen(P, order, pos) == i then 1 else 0
  {
    if k > 0 {
      ScheduleCells(P, order, k - 1, i, pos);
    }
  }

  /** Every column of the final schedule holds exactly one 1, in the row of
      the machine chosen for the job at that POSITION, and 0 elsewhere. */
  lemma ScheduleColumns(P: seq<seq<int>>, order: seq<int>, pos: nat)
    requires IsMatrix(P) && IsOrder(P, order) && pos < |order|
    ensures var s := ScheduleAfter(P, order, |order|);
      && s[Chosen(P, order, pos)][pos] == 1
      && forall i :: 0 <= i < |P| && i != Chosen(P, order, pos) ==> s[i][pos] == 0
  {
    ScheduleCells(P, order, |order|, Chosen(P, order, pos), pos);
    forall i | 0 <= i < |P| && i != Chosen(P, order, pos) ensures ScheduleAfter(P, order, |order|)[i][pos] == 0 {
      ScheduleCells(P, order, |order|, i, pos);
    }
  }

  /** The search for the machine of one job: `min_machine_time` starts at
      infinity (None), so the first machine is always taken and the index
      is never None; afterwards only a strictly smaller finish replaces it. */
  method MinMachine(P: seq<seq<int>>, times: seq<int>, job: int) returns (index: nat)
    requires IsMatrix(P) && |times| == |P| && 0 <= job < Jobs(P)
    ensures index == FirstLeast(P, times, job, |P|)
  {
    var minTime: Option<int> := None;
    var minIndex: Option<nat> := None;
    for i := 0 to |P|
      invariant i == 0 ==> minTime.None? && minIndex.None?
      invariant i > 0 ==> minIndex == Some(FirstLeast(P, times, job, i)) &&
                          minTime == Some(times[minIndex.value] + P[minIndex.value][job])
    {
      if minTime.None? || times[i] + P[i][job] < minTime.value {
        minTime := Some(times[i] + P[i][job]);
        minIndex := Some(i);
      }
    }
    index := minIndex.value;
  }

  /** The list scheduling of one ordering: the schedule matrix and the
      makespan `max(machine_times)`. */
  method ScheduleOrder(P: seq<seq<int>>, order: seq<int>) returns (schedule: seq<seq<int>>, makespan: int)
    requires IsMatrix(P) && IsOrder(P, order)
    ensures schedule == ScheduleAfter(P, order, |order|)
    ensures makespan == Makespan(P, order)
  {
    schedule := ZeroMatrix(|P|, Jobs(P));
    var times := Idle(|P|);
    for pos := 0 to |order|
      invariant times == Loads(P, order, pos)
      invariant schedule == ScheduleAfter(P, order, pos)
    {
      var job := order[pos];
      var machine := MinMachine(P, times, job);
      schedule := schedule[machine := schedule[machine][pos := 1]];
      times := times[machine := times[machine] + P[machine][job]];
    }
    makespan := MaxInt(times);
  }

  // ---------------------------------------------------------------------
  // brute_force_scheduling
  // ---------------------------------------------------------------------

  /** The outcome kept after trying orders[..k]: the schedule and makespan
      of orders[best], whose makespan is the least among them and strictly
      below that of every earlier ordering. */
  predicate KeptFirstLeast(P: seq<seq<int>>, orders: seq<seq<int>>, k: nat, best: nat,
                           bestSchedule: seq<seq<int>>, bestMakespan: int)
    requires IsMatrix(P) && AllOrders(P, orders) && k <= |orders|
  {
    && best < k
    && bestSchedule == ScheduleAfter(P, orders[best], Jobs(P))
    && bestMakespan == Makespan(P, orders[best])
    && (forall l :: 0 <= l < k ==> bestMakespan <= Makespan(P, orders[l]))
    && (forall l :: 0 <= l < best ==> bestMakespan < Makespan(P, orders[l]))
  }

  /** The loop over the orderings: `best_makespan` starts at infinity (None)
      and only a strictly smaller makespan replaces the kept schedule, so the
      first ordering of least makespan is kept. */
  method KeepFirstLeast(P: seq<seq<int>>, orders: seq<seq<int>>)
    returns (bestSchedule: Option<seq<seq<int>>>, bestMakespan: Option<int>)
    requires IsMatrix(P) && AllOrders(P, orders)
    ensures orders == [] ==> bestSchedule.None? && bestMakespan.None?
    ensures orders != [] ==> (bestSchedule.Some? && bestMakespan.Some? &&
      exists best :: KeptFirstLeast(P, orders, |orders|, best, bestSchedule.value, bestMakespan.value))
  {
    ghost var best := 0;
    bestSchedule, bestMakespan := None, None;
    for k := 0 to |orders|
      invariant k == 0 ==> bestSchedule.None? && bestMakespan.None?
      invariant k > 0 ==> bestSchedule.Some? && bestMakespan.Some? &&
                          KeptFirstLeast(P, orders, k, best, bestSchedule.value, bestMakespan.value)
    {
      var schedule, makespan := ScheduleOrder(P, orders[k]);
      if k > 0 {
        KeepStep(P, orders, k, best, bestSchedule.value, bestMakespan.value);
      }
      if bestMakespan.None? || makespan < bestMakespan.value {
        bestSchedule := Some(schedule);
        bestMakespan := Some(makespan);
        best := k;
      }
    }
  }

  /** Trying orders[k] keeps the first least makespan among orders[..k+1]. */
  lemma KeepStep(P: seq<seq<int>>, orders: seq<seq<int>>, k: nat, best: nat,
                 bestSchedule: seq<seq<int>>, bestMakespan: int)
    requires IsMatrix(P) && AllOrders(P, orders) && k < |orders|
    requires KeptFirstLeast(P, orders, k, best, bestSchedule, bestMakespan)
    ensures var schedule, makespan := ScheduleAfter(P, orders[k], Jobs(P)), Makespan(P, orders[k]);
      if makespan < bestMakespan then KeptFirstLeast(P, orders, k + 1, k, schedule, makespan)
      else KeptFirstLeast(P, orders, k + 1, best, bestSchedule, bestMakespan)
  {
  }

  /** brute_force_scheduling: try every ordering of range(n), in the order
      itertools produces them, and keep the schedule of the first one of
      least makespan. There is always at least one ordering (the empty one
      when there are no jobs), so the result is never left at infinity. */
  method BruteForceScheduling(P: seq<seq<int>>)
    returns (bestSchedule: Option<seq<seq<int>>>, bestMakespan: Option<int>)
    requires IsMatrix(P)
    ensures var orders := Permutations(Range(Jobs(P)));
      && AllOrders(P, orders) && IsOrder(P, Range(Jobs(P)))
      && bestSchedule.Some? && bestMakespan.Some?
      && (exists best :: KeptFirstLeast(P, orders, |orders|, best, bestSchedule.value, bestMakespan.value))
      && bestMakespan.value <= Makespan(P, Range(Jobs(P)))
  {
    var orders := Permutations(Range(Jobs(P)));
    PermutationsAreOrders(P);
    IdentityFirst(Range(Jobs(P)));
    bestSchedule, bestMakespan := KeepFirstLeast(P, orders);
  }

  /** The makespan kept is the least over EVERY ordering of the jobs, not
      only over those tried: no ordering is missed. */
  lemma {:induction false} BruteForceIsOptimal(P: seq<seq<int>>, best: nat, bestSchedule: seq<seq<int>>,
                                               bestMakespan: int, q: seq<int>)
    requires IsMatrix(P) && AllOrders(P, Permutations(Range(Jobs(P))))
    requires KeptFirstLeast(P, Permutations(Range(Jobs(P))), |Permutations(Range(Jobs(P)))|,
                            best, bestSchedule, bestMakespan)
    requires multiset(q) == multiset(Range(Jobs(P)))
    ensures IsOrder(P, q) && bestMakespan <= Makespan(P, q)
  {
    RearrangementIsOrder(P, q);
    PermutationsComplete(Range(Jobs(P)), q);
    var k :| 0 <= k < |Permutations(Range(Jobs(P)))| && Permutations(Range(Jobs(P)))[k] == q;
  }
}
