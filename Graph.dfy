/**
  The set-based graph of Graph.py: machine ids, job ids and the support
  edges of a decision, a stack-based search, a component listing and a
  tree-edge test. Machine and job ids are plain integers sharing one
  `visited` set, and the search pushes every unvisited JOB id whatever the
  edges are: the "components" it finds are the first start machine with
  every job id, then single machines.
 */
module Graph {
  import opened Common

  /** The machine ids among the keys. */
  function MachineIds(ks: set<Key>): set<int>
  {
    set k | k in ks :: k.0
  }

  /** The job ids among the keys. */
  function JobIds(ks: set<Key>): set<int>
  {
    set k | k in ks :: k.1
  }

  /** The keys whose value is positive. */
  function PositiveKeys(x: map<Key, real>, ks: set<Key>): set<Key>
  {
    set k | k in ks && k in x && x[k] > 0.0
  }

  /** Some element of a non-empty set: the one Python's iteration order
      happens to give first. */
  method AnyElement(s: set<int>) returns (v: int)
    requires s != {}
    ensures v in s
  {
    var tagged := set u | u in s :: (u, 0);
    assert forall u :: u in s ==> (u, 0) in tagged;
    var p :| p in tagged;
    v := p.0;
  }

  /** One more key adds its machine id, its job id and, when its value is
      positive, itself as an edge. */
  lemma AddKey(x: map<Key, real>, done: set<Key>, key: Key)
    requires key in x
    ensures MachineIds(done + {key}) == MachineIds(done) + {key.0}
    ensures JobIds(done + {key}) == JobIds(done) + {key.1}
    ensures PositiveKeys(x, done + {key}) == PositiveKeys(x, done) + (if x[key] > 0.0 then {key} else {})
  {
  }

  /** Taking one key out of the pending ones adds it to those done. */
  lemma TakeKey(all: set<Key>, pending: set<Key>, key: Key)
    requires pending <= all && key in pending
    ensures all - (pending - {key}) == (all - pending) + {key}
  {
  }

  /** `stack.extend(s)`: the elements of a set in some order, each once. */
  method Enumerate(s: set<int>) returns (xs: seq<int>)
    ensures forall v :: v in xs <==> v in s
    ensures forall l :: 0 <= l < |xs| ==> xs[l] in s
  {
    xs := [];
    var pending := s;
    while pending != {}
      invariant pending <= s
      invariant forall v :: v in xs <==> v in s && v !in pending
      decreases |pending|
    {
      var next := AnyElement(pending);
      xs := xs + [next];
      pending := pending - {next};
    }
  }

  /** The nodes a list of components covers. */
  function Covered(cs: seq<set<int>>): set<int>
  {
    if cs == [] then {} else Covered(cs[..|cs| - 1]) + cs[|cs| - 1]
  }

  lemma {:induction false} CoveredContains(cs: seq<set<int>>)
    ensures forall k :: 0 <= k < |cs| ==> cs[k] <= Covered(cs)
  {
    if cs != [] {
      var init := cs[..|cs| - 1];
      CoveredContains(init);
      assert forall k :: 0 <= k < |init| ==> init[k] == cs[k];
    }
  }

  /** No node lies in two components. */
  predicate Disjoint(cs: seq<set<int>>)
  {
    forall k, l :: 0 <= k < l < |cs| ==> cs[k] !! cs[l]
  }

  /** What get_connected_components returns: the first machine it starts
      from together with every job id, then one singleton per remaining
      machine id that is not also a job id. */
  predicate ComponentShape(machines: set<int>, jobs: set<int>, cs: seq<set<int>>)
  {
    && (|cs| > 0 ==> exists m :: m in machines && cs[0] == {m} + jobs)
    && (forall k :: 0 < k < |cs| ==> exists m :: m in machines && m !in jobs && cs[k] == {m})
  }

  class Graph {
    var machineNodes: set<int>
    var jobNodes: set<int>
    var edges: set<Key>

    /** Every key adds its machine and its job; a positive value adds the
        edge. */
    constructor (x: map<Key, real>)
      ensures machineNodes == MachineIds(x.Keys) && jobNodes == JobIds(x.Keys)
      ensures edges == PositiveKeys(x, x.Keys)
    {
      var ms, js, es := {}, {}, {};
      var pending := x.Keys;
      while pending != {}
        invariant pending <= x.Keys
        invariant ms == MachineIds(x.Keys - pending) && js == JobIds(x.Keys - pending)
        invariant es == PositiveKeys(x, x.Keys - pending)
        decreases |pending|
      {
        var key :| key in pending;
        TakeKey(x.Keys, pending, key);
        AddKey(x, x.Keys - pending, key);
        ms, js := ms + {key.0}, js + {key.1};
        if x[key] > 0.0 {
          es := es + {key};
        }
        pending := pending - {key};
      }
      assert x.Keys - pending == x.Keys;
      machineNodes, jobNodes, edges := ms, js, es;
    }

    /** dfs: pop a node; if unvisited, visit it, add it to the component
        and push every job id not yet visited. The component is the start
        node and every job id that was unvisited, or nothing when the start
        was visited already. `visited` is threaded through. */
    method Dfs(start: int, visited: set<int>) returns (component: set<int>, visitedOut: set<int>)
      ensures component == if start in visited then {} else {start} + (jobNodes - visited)
      ensures visitedOut == visited + component
    {
      ghost var started := false;
      var stack := [start];
      component := {};
      visitedOut := visited;
      while stack != []
        invariant DfsState(jobNodes, start, visited, started, stack, component, visitedOut)
        decreases |({start} + jobNodes) - visitedOut|, |stack|
      {
        var node := stack[|stack| - 1];
        if node in visitedOut {
          PopVisited(jobNodes, start, visited, started, stack, component, visitedOut);
          stack := stack[..|stack| - 1];
        } else {
          var more := Enumerate(jobNodes - (visitedOut + {node}));
          PopUnvisited(jobNodes, start, visited, started, stack, component, visitedOut, more);
          stack := stack[..|stack| - 1];
          visitedOut := visitedOut + {node};
          component := component + {node};
          stack := stack + more;
        }
        started := true;
      }
      DfsDone(jobNodes, start, visited, started, component, visitedOut);
    }

    /** get_connected_components: a search from every machine id not
        visited yet, in the set's order. */
    method GetConnectedComponents() returns (components: seq<set<int>>)
      ensures Disjoint(components)
      ensures forall k :: 0 <= k < |components| ==> components[k] != {}
      ensures Covered(components) == if machineNodes == {} then {} else machineNodes + jobNodes
      ensures ComponentShape(machineNodes, jobNodes, components)
    {
      var visited: set<int> := {};
      components := [];
      var pending := machineNodes;
      while pending != {}
        invariant ListingState(machineNodes, jobNodes, pending, visited, components)
        decreases |pending|
      {
        var node := AnyElement(pending);
        if node !in visited {
          var component, visitedNow := Dfs(node, visited);
          ListingAdd(machineNodes, jobNodes, pending, visited, components, node, component);
          components := components + [component];
          visited := visitedNow;
        } else {
          ListingSkip(machineNodes, jobNodes, pending, visited, components, node);
        }
        pending := pending - {node};
      }
      ListingDone(machineNodes, jobNodes, visited, components);
    }

    /** is_tree_edge: True unless another edge has the same machine and
        job as `edge` -- which no edge different from it can have, so it is
        always True. */
    method IsTreeEdge(edge: Key) returns (r: bool)
      ensures r
    {
      var pending := edges;
      while pending != {}
        decreases |pending|
      {
        var other :| other in pending;
        pending := pending - {other};
        if other != edge {
          if edge.0 == other.0 && edge.1 == other.1 {
            assert false;
            return false;
          }
        }
      }
      return true;
    }
  }

  /** The state of dfs between two pops: before the first pop the stack
      holds the start alone; afterwards the start is visited and, if it was
      not visited before, every job id still unvisited waits on the stack.
      Everything visited since the call is the component. */
  ghost predicate DfsState(jobs: set<int>, start: int, visited: set<int>, started: bool,
                           stack: seq<int>, component: set<int>, visitedOut: set<int>)
  {
    && DfsPhase(jobs, start, visited, started, stack, component, visitedOut)
    && DfsContents(jobs, start, visited, stack, component, visitedOut)
  }

  ghost predicate DfsPhase(jobs: set<int>, start: int, visited: set<int>, started: bool,
                           stack: seq<int>, component: set<int>, visitedOut: set<int>)
  {
    && (!started ==> stack == [start] && component == {})
    && (started ==> start in visitedOut)
    && (started && start in visited ==> stack == [] && component == {})
    && (started && start !in visited ==>
          start in component && forall j :: j in jobs && j !in visitedOut ==> j in stack)
  }

  ghost predicate DfsContents(jobs: set<int>, start: int, visited: set<int>,
                              stack: seq<int>, component: set<int>, visitedOut: set<int>)
  {
    && visitedOut == visited + component && component !! visited && component <= {start} + jobs
    && (forall l :: 0 <= l < |stack| ==> stack[l] in {start} + jobs)
  }

  /** Popping a visited node only shortens the stack. */
  lemma PopVisited(jobs: set<int>, start: int, visited: set<int>, started: bool,
                   stack: seq<int>, component: set<int>, visitedOut: set<int>)
    requires DfsState(jobs, start, visited, started, stack, component, visitedOut)
    requires stack != [] && stack[|stack| - 1] in visitedOut
    ensures DfsState(jobs, start, visited, true, stack[..|stack| - 1], component, visitedOut)
  {
    var node := stack[|stack| - 1];
    assert stack == stack[..|stack| - 1] + [node];
  }

  /** Popping an unvisited node visits it and pushes the job ids still
      unvisited; the number of unvisited nodes that can still be pushed
      drops. */
  lemma PopUnvisited(jobs: set<int>, start: int, visited: set<int>, started: bool,
                     stack: seq<int>, component: set<int>, visitedOut: set<int>, more: seq<int>)
    requires DfsState(jobs, start, visited, started, stack, component, visitedOut)
    requires stack != [] && stack[|stack| - 1] !in visitedOut
    requires forall v :: v in more <==> v in jobs - (visitedOut + {stack[|stack| - 1]})
    requires forall l :: 0 <= l < |more| ==> more[l] in jobs - (visitedOut + {stack[|stack| - 1]})
    ensures var node := stack[|stack| - 1];
      && DfsState(jobs, start, visited, true, stack[..|stack| - 1] + more, component + {node}, visitedOut + {node})
      && |({start} + jobs) - (visitedOut + {node})| < |({start} + jobs) - visitedOut|
  {
    var node := stack[|stack| - 1];
    var rest := stack[..|stack| - 1] + more;
    assert DfsContents(jobs, start, visited, rest, component + {node}, visitedOut + {node}) by {
      assert node in {start} + jobs;
      StillInReach(start, jobs, stack[..|stack| - 1], more);
    }
    assert DfsPhase(jobs, start, visited, true, rest, component + {node}, visitedOut + {node}) by {
      AllPushed(jobs, visitedOut + {node}, stack[..|stack| - 1], more);
    }
    OneFewer({start} + jobs, visitedOut, stack[|stack| - 1]);
  }

  /** Pushing job ids keeps every stacked node a start or job id. */
  lemma StillInReach(start: int, jobs: set<int>, stack: seq<int>, more: seq<int>)
    requires forall l :: 0 <= l < |stack| ==> stack[l] in {start} + jobs
    requires forall l :: 0 <= l < |more| ==> more[l] in jobs
    ensures forall l :: 0 <= l < |stack + more| ==> (stack + more)[l] in {start} + jobs
  {
    forall l | 0 <= l < |stack + more| ensures (stack + more)[l] in {start} + jobs {
      if l >= |stack| {
        assert (stack + more)[l] == more[l - |stack|];
      } else {
        assert (stack + more)[l] == stack[l];
      }
    }
  }

  /** After the push every unvisited job id is on the stack. */
  lemma AllPushed(jobs: set<int>, visited: set<int>, stack: seq<int>, more: seq<int>)
    requires forall v :: v in more <==> v in jobs - visited
    ensures forall j :: j in jobs && j !in visited ==> j in stack + more
  {
    forall j | j in jobs && j !in visited ensures j in stack + more {
      assert j in more;
      var k :| 0 <= k < |more| && more[k] == j;
      assert (stack + more)[|stack| + k] == j;
    }
  }

  /** Visiting a node that is still to be reached leaves one fewer. */
  lemma OneFewer(reach: set<int>, visited: set<int>, node: int)
    requires node in reach && node !in visited
    ensures |reach - (visited + {node})| < |reach - visited|
  {
    assert reach - (visited + {node}) == (reach - visited) - {node};
  }

  /** An empty stack ends dfs with the promised component. */
  lemma DfsDone(jobs: set<int>, start: int, visited: set<int>, started: bool,
                component: set<int>, visitedOut: set<int>)
    requires DfsState(jobs, start, visited, started, [], component, visitedOut)
    ensures component == if start in visited then {} else {start} + (jobs - visited)
    ensures visitedOut == visited + component
  {
    if start !in visited {
      forall v | v in jobs && v !in visited ensures v in component {
        assert v in visitedOut;
      }
    }
  }

  /** The state of get_connected_components between two machine ids: the
      components found so far are disjoint and non-empty, they cover what
      was visited, and that is every processed machine id and, after the
      first search, every job id. */
  ghost predicate ListingState(machines: set<int>, jobs: set<int>, pending: set<int>,
                               visited: set<int>, cs: seq<set<int>>)
  {
    && pending <= machines
    && visited == Covered(cs)
    && Disjoint(cs)
    && (forall k :: 0 <= k < |cs| ==> cs[k] != {})
    && (cs == [] ==> pending == machines && visited == {})
    && (cs != [] ==> jobs <= visited)
    && machines - pending <= visited <= machines + jobs
    && ComponentShape(machines, jobs, cs)
  }

  /** A machine id visited by an earlier search is skipped. */
  lemma ListingSkip(machines: set<int>, jobs: set<int>, pending: set<int>,
                    visited: set<int>, cs: seq<set<int>>, node: int)
    requires ListingState(machines, jobs, pending, visited, cs)
    requires node in pending && node in visited
    ensures ListingState(machines, jobs, pending - {node}, visited, cs)
  {
  }

  /** An unvisited machine id starts a search whose component is added. */
  lemma ListingAdd(machines: set<int>, jobs: set<int>, pending: set<int>,
                   visited: set<int>, cs: seq<set<int>>, node: int, c: set<int>)
    requires ListingState(machines, jobs, pending, visited, cs)
    requires node in pending && node !in visited
    requires c == {node} + (jobs - visited)
    ensures ListingState(machines, jobs, pending - {node}, visited + c, cs + [c])
  {
    AppendComponent(cs, c, node, machines, jobs);
    assert (cs + [c])[|cs|] == c;
    assert forall k :: 0 <= k < |cs| ==> (cs + [c])[k] == cs[k];
  }

  /** With every machine id processed the listing is complete. */
  lemma ListingDone(machines: set<int>, jobs: set<int>, visited: set<int>, cs: seq<set<int>>)
    requires ListingState(machines, jobs, {}, visited, cs)
    ensures Covered(cs) == if machines == {} then {} else machines + jobs
  {
  }

  /** The bookkeeping of one more component in get_connected_components. */
  lemma AppendComponent(cs: seq<set<int>>, c: set<int>, node: int, machines: set<int>, jobs: set<int>)
    requires node in machines && node !in Covered(cs)
    requires c == {node} + (jobs - Covered(cs))
    requires Disjoint(cs) && ComponentShape(machines, jobs, cs)
    requires cs != [] ==> jobs <= Covered(cs)
    ensures Covered(cs + [c]) == Covered(cs) + c
    ensures Disjoint(cs + [c])
    ensures ComponentShape(machines, jobs, cs + [c])
  {
    assert (cs + [c])[..|cs|] == cs;
    CoveredContains(cs);
    if cs != [] {
      assert c == {node} && node !in jobs;
    }
    forall k | 0 < k < |cs + [c]|
      ensures exists m :: m in machines && m !in jobs && (cs + [c])[k] == {m}
    {
      if k < |cs| {
        assert (cs + [c])[k] == cs[k];
      } else {
        assert (cs + [c])[k] == {node};
      }
    }
    if cs == [] {
      assert (cs + [c])[0] == {node} + jobs;
    } else {
      assert (cs + [c])[0] == cs[0];
    }
  }
}
