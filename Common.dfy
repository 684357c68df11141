/**
  Definitions shared by every part of the scheduling model: optional values,
  the outcome of code that may raise, processing-time matrices, and the
  maximum / sum / range helpers the source obtains from Python's
  built-ins and numpy.
 */
module Common {

  datatype Option<+T> = None | Some(value: T)

  /** The outcome of a computation that may end in an uncaught Python
      exception. The only one the rounding engine can raise is the
      RecursionError of an unbounded depth-first search. */
  datatype Result<+T> = Ok(value: T) | RecursionError

  /** A (machine, job) pair: the key of a decision variable x_ij. */
  type Key = (int, int)

  /** A processing-time matrix P: m >= 1 rows (machines) of equal length n (jobs).
      `len(P[0])` in the source fails on an empty matrix. */
  predicate IsMatrix(P: seq<seq<int>>)
  {
    |P| >= 1 && forall i :: 0 <= i < |P| ==> |P[i]| == |P[0]|
  }

  function Jobs(P: seq<seq<int>>): nat
    requires IsMatrix(P)
  {
    |P[0]|
  }

  /** Processing times are non-negative. */
  predicate NonNegative(P: seq<seq<int>>)
  {
    forall i, j :: 0 <= i < |P| && 0 <= j < |P[i]| ==> P[i][j] >= 0
  }

  /** Python's `max` of a non-empty list of integers. */
  function MaxInt(s: seq<int>): (r: int)
    requires |s| > 0
    ensures forall k :: 0 <= k < |s| ==> s[k] <= r
    ensures exists k :: 0 <= k < |s| && s[k] == r
  {
    if |s| == 1 then s[0]
    else
      var rest := MaxInt(s[1..]);
      assert forall k :: 1 <= k < |s| ==> s[k] == s[1..][k - 1];
      if s[0] >= rest then s[0] else rest
  }

  /** Python's `max` of a non-empty list of (real-valued) numbers: the
      fractional loads of linear_programming.py and LP.py. It is MaxInt over
      `real`, kept separate because the two element types share no order. */
  function MaxReal(s: seq<real>): (r: real)
    requires |s| > 0
    ensures forall k :: 0 <= k < |s| ==> s[k] <= r
    ensures exists k :: 0 <= k < |s| && s[k] == r
  {
    if |s| == 1 then s[0]
    else
      var rest := MaxReal(s[1..]);
      assert forall k :: 1 <= k < |s| ==> s[k] == s[1..][k - 1];
      if s[0] >= rest then s[0] else rest
  }

  /** The maximum is reached by an element; a value above every element is
      not below it. */
  lemma MaxIntIsLeastUpperBound(s: seq<int>, b: int)
    requires |s| > 0
    ensures (forall k :: 0 <= k < |s| ==> s[k] <= b) <==> MaxInt(s) <= b
  {
  }

  /** Integers viewed as reals keep their maximum. */
  lemma MaxRealOfIntegers(s: seq<int>, r: seq<real>)
    requires |s| > 0 && |r| == |s|
    requires forall k :: 0 <= k < |s| ==> r[k] == s[k] as real
    ensures MaxReal(r) == MaxInt(s) as real
  {
    var a := MaxInt(s);
    var b := MaxReal(r);
    var ka :| 0 <= ka < |s| && s[ka] == a;
    var kb :| 0 <= kb < |r| && r[kb] == b;
    assert r[ka] <= b && s[kb] <= a;
  }

  function Sum(s: seq<int>): int
  {
    if s == [] then 0 else Sum(s[..|s| - 1]) + s[|s| - 1]
  }

  function SumReal(s: seq<real>): real
  {
    if s == [] then 0.0 else SumReal(s[..|s| - 1]) + s[|s| - 1]
  }

  /** The integers 0, 1, ..., k-1 in order (`range(k)`). */
  function Range(k: nat): (r: seq<int>)
    ensures |r| == k && forall i :: 0 <= i < k ==> r[i] == i
    ensures forall i :: i in r <==> 0 <= i < k
    ensures Increasing(r)
  {
    var r := seq(k, i => i);
    assert forall i :: 0 <= i < k ==> r[i] == i;
    forall i | 0 <= i < k ensures i in r {
      assert r[i] == i;
    }
    assert forall i :: i in r ==> 0 <= i < k by {
      forall i | i in r ensures 0 <= i < k {
        var l :| 0 <= l < k && r[l] == i;
      }
    }
    r
  }

  /** No element occurs twice. */
  predicate Distinct<T(==)>(s: seq<T>)
  {
    forall k, l :: 0 <= k < l < |s| ==> s[k] != s[l]
  }

  function Elements<T>(s: seq<T>): set<T>
  {
    set x | x in s
  }

  /** A sequence has as many distinct elements as entries exactly when no
      element repeats; otherwise it has fewer. */
  lemma {:induction false} DistinctCardinality<T>(s: seq<T>)
    ensures |Elements(s)| <= |s|
    ensures |Elements(s)| == |s| <==> Distinct(s)
  {
    if s != [] {
      var last := s[|s| - 1];
      var init := s[..|s| - 1];
      DistinctCardinality(init);
      assert Elements(s) == Elements(init) + {last};
      if last in init {
        assert Elements(s) == Elements(init);
        var k :| 0 <= k < |init| && init[k] == last;
        assert s[k] == s[|s| - 1];
      } else {
        assert Distinct(s) <==> Distinct(init) by {
          if Distinct(init) {
            forall k, l | 0 <= k < l < |s| ensures s[k] != s[l] {
              if l < |s| - 1 { assert s[k] == init[k] && s[l] == init[l]; }
              else { assert s[k] == init[k]; }
            }
          }
          if Distinct(s) {
            forall k, l | 0 <= k < l < |init| ensures init[k] != init[l] {
              assert init[k] == s[k] && init[l] == s[l];
            }
          }
        }
      }
    }
  }

  /** Each element is smaller than every later one. */
  predicate Increasing(s: seq<int>)
  {
    forall k, l :: 0 <= k < l < |s| ==> s[k] < s[l]
  }

  /** The elements of s that satisfy p, in their original order (a list
      comprehension `[x for x in s if p(x)]`). */
  function Filter(s: seq<int>, p: int -> bool): (r: seq<int>)
    ensures |r| <= |s|
    ensures forall x :: x in r <==> x in s && p(x)
    ensures Increasing(s) ==> Increasing(r)
  {
    if s == [] then []
    else
      var rest := Filter(s[1..], p);
      FilterMembers(s, p, rest);
      FilterIncreasing(s, p, rest);
      if p(s[0]) then [s[0]] + rest else rest
  }

  /** Keeping or dropping the head keeps Filter's membership contract. */
  lemma FilterMembers(s: seq<int>, p: int -> bool, rest: seq<int>)
    requires s != []
    requires forall x :: x in rest <==> x in s[1..] && p(x)
    ensures forall x :: x in (if p(s[0]) then [s[0]] + rest else rest) <==> x in s && p(x)
  {
    assert s == [s[0]] + s[1..];
  }

  lemma IncreasingDrop(s: seq<int>)
    requires Increasing(s) && s != []
    ensures Increasing(s[1..])
  {
    forall k, l | 0 <= k < l < |s[1..]| ensures s[1..][k] < s[1..][l] {
      assert s[1..][k] == s[k + 1] && s[1..][l] == s[l + 1];
    }
  }

  /** Keeping or dropping the head of an increasing sequence keeps the
      filtered rest increasing. */
  lemma FilterIncreasing(s: seq<int>, p: int -> bool, rest: seq<int>)
    requires s != [] && (Increasing(s[1..]) ==> Increasing(rest))
    requires forall x :: x in rest ==> x in s[1..]
    ensures Increasing(s) ==> Increasing(if p(s[0]) then [s[0]] + rest else rest)
  {
    if Increasing(s) && p(s[0]) {
      IncreasingDrop(s);
      forall x | x in rest ensures s[0] < x {
        IncreasingTail(s, x);
      }
      var r := [s[0]] + rest;
      forall k, l | 0 <= k < l < |r| ensures r[k] < r[l] {
        assert r[l] == rest[l - 1] && r[l] in rest;
        if k > 0 {
          assert r[k] == rest[k - 1];
        }
      }
    }
  }

  /** In an increasing sequence the rest after the head holds exactly the
      elements above the head. */
  lemma IncreasingTail(s: seq<int>, x: int)
    requires Increasing(s) && s != []
    ensures x in s ==> s[0] <= x
    ensures x in s[1..] <==> x in s && s[0] < x
  {
    if x in s {
      var k :| 0 <= k < |s| && s[k] == x;
      if k > 0 {
        assert s[1..][k - 1] == x;
      }
    }
    if x in s[1..] {
      var k :| 0 <= k < |s[1..]| && s[1..][k] == x;
      assert s[k + 1] == x;
    }
  }

  /** An increasing sequence is determined by its elements. */
  lemma {:induction false} IncreasingUnique(a: seq<int>, b: seq<int>)
    requires Increasing(a) && Increasing(b)
    requires forall x :: x in a <==> x in b
    ensures a == b
    decreases |a|
  {
    assert a != [] ==> a[0] in a && a[0] in b;
    assert b != [] ==> b[0] in b && b[0] in a;
    if a != [] {
      IncreasingTail(a, b[0]);
      IncreasingTail(b, a[0]);
      forall x ensures x in a[1..] <==> x in b[1..] {
        IncreasingTail(a, x);
        IncreasingTail(b, x);
      }
      IncreasingUnique(a[1..], b[1..]);
      assert a == [a[0]] + a[1..] && b == [b[0]] + b[1..];
    }
  }

  /** Strict order rules out repetitions. */
  lemma IncreasingIsDistinct(s: seq<int>)
    requires Increasing(s)
    ensures Distinct(s)
  {
  }
}
