/**
  The rounding engine of BipartiteGraph.py: the bipartite graph G(x) whose
  edges are the machine/job pairs an LP solution x uses, its connected
  components, the pseudoforest test, the removal of degree-1 jobs that turns
  G into G', and the matching of every component of G'.

  networkx is replaced by definitions: a connected component is the least
  set of nodes that contains a node and is closed under adjacency, a tree
  component is one with one edge fewer than nodes, and the cycle search is a
  parameter.
 */
module Bipartite {
  import opened Common
  import opened Nodes

  /** An edge m_i -- j_j, written as the key (i, j) of its variable. */
  type Edge = Key

  /** The graph for an LP solution x: the key (i, j) is an edge exactly when x_ij > 0. */
  function SupportEdges(x: map<Key, real>): set<Edge>
  {
    set k | k in x && x[k] > 0.0
  }

  /** m0..m(m-1) and j0..j(n-1). */
  function AllNodes(m: nat, n: nat): set<Node>
  {
    (set i | 0 <= i < m :: Machine(i)) + (set j | 0 <= j < n :: Job(j))
  }

  /** The order in which the graph's nodes were added: machines, then jobs. */
  function NodeOrder(m: nat, n: nat): (s: seq<Node>)
    ensures Elements(s) == AllNodes(m, n)
  {
    var s := seq(m, i => Machine(i)) + seq(n, j => Job(j));
    assert forall u :: u in AllNodes(m, n) ==> u in s by {
      forall u | u in AllNodes(m, n) ensures u in s {
        if u.Machine? { assert s[u.i] == u; } else { assert s[m + u.j] == u; }
      }
    }
    s
  }

  /** u and w are the two ends of an edge. */
  predicate Adjacent(edges: set<Edge>, u: Node, w: Node)
  {
    match u
    case Machine(i) => w.Job? && (i, w.j) in edges
    case Job(j) => w.Machine? && (w.i, j) in edges
  }

  lemma AdjacentSymmetric(edges: set<Edge>)
    ensures forall u, w :: Adjacent(edges, u, w) <==> Adjacent(edges, w, u)
  {
  }

  /** Every edge joins two nodes of the graph. */
  ghost predicate WellFormed(nodes: set<Node>, edges: set<Edge>)
  {
    forall e :: e in edges ==> Machine(e.0) in nodes && Job(e.1) in nodes
  }

  /** No edge leaves s. */
  ghost predicate Closed(edges: set<Edge>, s: set<Node>)
  {
    forall u, w :: u in s && Adjacent(edges, u, w) ==> w in s
  }

  /** c is the connected component of v: the least closed set containing v. */
  ghost predicate IsComponentOf(edges: set<Edge>, c: set<Node>, v: Node)
  {
    v in c && Closed(edges, c) && forall t :: v in t && Closed(edges, t) ==> c <= t
  }

  /** c is a connected component: the component of each of its nodes. */
  ghost predicate IsComponent(edges: set<Edge>, c: set<Node>)
  {
    c != {} && forall v :: v in c ==> IsComponentOf(edges, c, v)
  }

  /** c, joined by es, is a connected component that is a tree: one edge
      fewer than nodes. */
  ghost predicate IsTreeComponent(es: set<Edge>, c: set<Node>)
  {
    |es| + 1 == |c| && IsComponent(es, c)
  }

  /** The edges of the subgraph induced by c (`graph.subgraph(c)`). */
  function EdgesIn(edges: set<Edge>, c: set<Node>): set<Edge>
  {
    set e | e in edges && Machine(e.0) in c && Job(e.1) in c
  }

  /** A pseudoforest: no connected component has more edges than nodes. */
  ghost predicate IsPseudoforest(nodes: set<Node>, edges: set<Edge>)
  {
    forall c :: c <= nodes && IsComponent(edges, c) ==> |EdgesIn(edges, c)| <= |c|
  }

  /** Some connected component of the graph, with the edges among its
      nodes, is not a tree. */
  ghost predicate HasNonTreeComponent(nodes: set<Node>, edges: set<Edge>)
  {
    exists c :: c <= nodes && IsComponent(edges, c) && !IsTreeComponent(EdgesIn(edges, c), c)
  }

  /** A listed component that is not a tree is one of the graph's. */
  lemma NonTreeWitness(nodes: set<Node>, edges: set<Edge>, cs: seq<set<Node>>, k: nat)
    requires IsComponentList(nodes, edges, cs) && k < |cs|
    requires !IsTreeComponent(EdgesIn(edges, cs[k]), cs[k])
    ensures HasNonTreeComponent(nodes, edges)
  {
    assert cs[k] <= nodes && IsComponent(edges, cs[k]);
  }

  function UnionOf(cs: seq<set<Node>>): set<Node>
  {
    if cs == [] then {} else UnionOf(cs[..|cs| - 1]) + cs[|cs| - 1]
  }

  /** cs lists the connected components of the graph, each once. */
  ghost predicate IsComponentList(nodes: set<Node>, edges: set<Edge>, cs: seq<set<Node>>)
  {
    && (forall k :: 0 <= k < |cs| ==> cs[k] <= nodes && IsComponent(edges, cs[k]))
    && (forall k, l :: 0 <= k < l < |cs| ==> cs[k] !! cs[l])
    && UnionOf(cs) == nodes
  }

  /** cs lists distinct components of the graph, not necessarily all. */
  ghost predicate IsPartialComponentList(nodes: set<Node>, edges: set<Edge>, cs: seq<set<Node>>)
  {
    && (forall k :: 0 <= k < |cs| ==> cs[k] <= nodes && IsComponent(edges, cs[k]))
    && (forall k, l :: 0 <= k < l < |cs| ==> cs[k] !! cs[l])
  }

  lemma {:induction false} UnionMembership(cs: seq<set<Node>>)
    ensures forall u :: u in UnionOf(cs) <==> exists k :: 0 <= k < |cs| && u in cs[k]
  {
    if cs != [] {
      var init := cs[..|cs| - 1];
      UnionMembership(init);
      assert forall k :: 0 <= k < |init| ==> init[k] == cs[k];
    }
  }

  /** Every node of a component has that component as its own. */
  lemma ComponentOfMember(edges: set<Edge>, c: set<Node>, v: Node, s: Node)
    requires IsComponentOf(edges, c, v) && s in c
    ensures IsComponentOf(edges, c, s)
  {
    forall t | s in t && Closed(edges, t) ensures c <= t {
      var d := c - t;
      AdjacentSymmetric(edges);
      assert Closed(edges, d);
      assert v in d ==> c <= d;
    }
  }

  /** The component of v is a connected component. */
  lemma ComponentOfIsComponent(edges: set<Edge>, c: set<Node>, v: Node)
    requires IsComponentOf(edges, c, v)
    ensures IsComponent(edges, c)
  {
    forall s | s in c ensures IsComponentOf(edges, c, s) {
      ComponentOfMember(edges, c, v, s);
    }
  }

  /** Two connected components are disjoint or the same. */
  lemma ComponentsMeet(edges: set<Edge>, a: set<Node>, b: set<Node>)
    requires IsComponent(edges, a) && IsComponent(edges, b)
    ensures a !! b || a == b
  {
    if x :| x in a && x in b {
      assert IsComponentOf(edges, a, x) && IsComponentOf(edges, b, x);
    }
  }

  /** A list of the components names every component of the graph. */
  lemma EveryComponentListed(nodes: set<Node>, edges: set<Edge>, cs: seq<set<Node>>, c: set<Node>)
    requires IsComponentList(nodes, edges, cs)
    requires c <= nodes && IsComponent(edges, c)
    ensures exists k :: 0 <= k < |cs| && cs[k] == c
  {
    var x :| x in c;
    UnionMembership(cs);
    var k :| 0 <= k < |cs| && x in cs[k];
    ComponentsMeet(edges, cs[k], c);
  }

  function SumSizes(cs: seq<set<Node>>): nat
  {
    if cs == [] then 0 else SumSizes(cs[..|cs| - 1]) + |cs[|cs| - 1]|
  }

  function SumEdgeCounts(edges: set<Edge>, cs: seq<set<Node>>): nat
  {
    if cs == [] then 0 else SumEdgeCounts(edges, cs[..|cs| - 1]) + |EdgesIn(edges, cs[|cs| - 1])|
  }

  /** Disjoint closed node sets split both the nodes and the edges of their union. */
  lemma {:induction false} DisjointClosedCounts(edges: set<Edge>, cs: seq<set<Node>>)
    requires forall k :: 0 <= k < |cs| ==> Closed(edges, cs[k])
    requires forall k, l :: 0 <= k < l < |cs| ==> cs[k] !! cs[l]
    ensures |UnionOf(cs)| == SumSizes(cs)
    ensures |EdgesIn(edges, UnionOf(cs))| == SumEdgeCounts(edges, cs)
  {
    if cs != [] {
      var init := cs[..|cs| - 1];
      var last := cs[|cs| - 1];
      assert forall k :: 0 <= k < |init| ==> init[k] == cs[k];
      DisjointClosedCounts(edges, init);
      UnionMembership(init);
      JoinClosed(edges, UnionOf(init), last);
    }
  }

  /** Adding a closed set disjoint from u adds its nodes and its edges. */
  lemma JoinClosed(edges: set<Edge>, u: set<Node>, c: set<Node>)
    requires u !! c && Closed(edges, c)
    ensures |u + c| == |u| + |c|
    ensures |EdgesIn(edges, u + c)| == |EdgesIn(edges, u)| + |EdgesIn(edges, c)|
  {
    assert u * c == {};
    var eu, ec := EdgesIn(edges, u), EdgesIn(edges, c);
    forall e | e in EdgesIn(edges, u + c) ensures e in eu + ec {
      if Job(e.1) in c {
        assert Adjacent(edges, Job(e.1), Machine(e.0));
      } else if Machine(e.0) in c {
        assert Adjacent(edges, Machine(e.0), Job(e.1));
      }
    }
    assert EdgesIn(edges, u + c) == eu + ec;
    assert eu * ec == {};
  }

  lemma {:induction false} SumEdgeCountsBounded(edges: set<Edge>, cs: seq<set<Node>>)
    requires forall k :: 0 <= k < |cs| ==> |EdgesIn(edges, cs[k])| <= |cs[k]|
    ensures SumEdgeCounts(edges, cs) <= SumSizes(cs)
  {
    if cs != [] {
      var init := cs[..|cs| - 1];
      assert forall k :: 0 <= k < |init| ==> init[k] == cs[k];
      SumEdgeCountsBounded(edges, init);
    }
  }

  /** None of the first k components has more edges than nodes. */
  ghost predicate SparseUpTo(edges: set<Edge>, cs: seq<set<Node>>, k: nat)
  {
    forall l :: 0 <= l < k && l < |cs| ==> |EdgesIn(edges, cs[l])| <= |cs[l]|
  }

  lemma SparseStep(edges: set<Edge>, cs: seq<set<Node>>, k: nat)
    requires k < |cs| && SparseUpTo(edges, cs, k) && |EdgesIn(edges, cs[k])| <= |cs[k]|
    ensures SparseUpTo(edges, cs, k + 1)
  {
  }

  /** What check_pseudoforest_property tests -- edges <= nodes over the whole
      graph, and edges <= nodes in every listed component -- is exactly the
      pseudoforest property; the whole-graph test follows from the others. */
  lemma PseudoforestTest(nodes: set<Node>, edges: set<Edge>, cs: seq<set<Node>>)
    requires WellFormed(nodes, edges) && IsComponentList(nodes, edges, cs)
    ensures (forall k :: 0 <= k < |cs| ==> |EdgesIn(edges, cs[k])| <= |cs[k]|) ==> |edges| <= |nodes|
    ensures (|edges| <= |nodes| && forall k :: 0 <= k < |cs| ==> |EdgesIn(edges, cs[k])| <= |cs[k]|)
            <==> IsPseudoforest(nodes, edges)
  {
    forall k | 0 <= k < |cs| ensures Closed(edges, cs[k]) {
      assert IsComponent(edges, cs[k]);
      var x :| x in cs[k];
      assert IsComponentOf(edges, cs[k], x);
    }
    DisjointClosedCounts(edges, cs);
    assert EdgesIn(edges, nodes) == edges;
    if forall k :: 0 <= k < |cs| ==> |EdgesIn(edges, cs[k])| <= |cs[k]| {
      SumEdgeCountsBounded(edges, cs);
      forall c | c <= nodes && IsComponent(edges, c) ensures |EdgesIn(edges, c)| <= |c| {
        EveryComponentListed(nodes, edges, cs, c);
      }
    }
  }

  /** The number of edges at job j. */
  function JobDegree(edges: set<Edge>, j: int): nat
  {
    |set e | e in edges && e.1 == j|
  }

  /** The job nodes of degree 1 (`single_degree_jobs`). */
  function SingleDegreeJobs(nodes: set<Node>, edges: set<Edge>): set<Node>
  {
    set u | u in nodes && u.Job? && JobDegree(edges, u.j) == 1
  }

  /** The edges at the given job nodes: what `remove_node` takes with them. */
  function EdgesAtJobs(edges: set<Edge>, jobs: set<Node>): set<Edge>
  {
    set e | e in edges && Job(e.1) in jobs
  }

  /** The loop of remove_single_degree_jobs: `remove_node` for each job in
      turn, which takes the node and every edge at it. */
  method RemoveJobs(nodes: set<Node>, edges: set<Edge>, jobs: set<Node>) returns (ns: set<Node>, es: set<Edge>)
    ensures ns == nodes - jobs
    ensures es == edges - EdgesAtJobs(edges, jobs)
  {
    ns, es := nodes, edges;
    var pending := jobs;
    ghost var removed: set<Node> := {};
    while pending != {}
      invariant removed + pending == jobs
      invariant ns == nodes - removed
      invariant es == edges - EdgesAtJobs(edges, removed)
      decreases |pending|
    {
      var u :| u in pending;
      var es' := es - (set e | e in es && Job(e.1) == u);
      RemoveJobStep(edges, removed, u, es, es');
      ns, es := ns - {u}, es';
      removed, pending := removed + {u}, pending - {u};
    }
  }

  /** Removing one more job node takes exactly the edges at it. */
  lemma RemoveJobStep(edges: set<Edge>, removed: set<Node>, u: Node, es: set<Edge>, es': set<Edge>)
    requires es == edges - EdgesAtJobs(edges, removed)
    requires es' == es - (set e | e in es && Job(e.1) == u)
    ensures es' == edges - EdgesAtJobs(edges, removed + {u})
  {
  }

  /** Removing job nodes with their edges keeps the machines and a graph
      whose edges join remaining nodes. */
  lemma RemovalKeepsGraph(nodes: set<Node>, edges: set<Edge>, jobs: set<Node>)
    requires WellFormed(nodes, edges) && forall u :: u in jobs ==> u.Job?
    ensures WellFormed(nodes - jobs, edges - EdgesAtJobs(edges, jobs))
    ensures forall i :: Machine(i) in nodes ==> Machine(i) in nodes - jobs
  {
  }

  /** G' has no job node of degree 1: a job that stays keeps all its edges,
      because only job nodes are removed. */
  lemma NoSingleDegreeJobRemains(nodes: set<Node>, edges: set<Edge>)
    ensures forall u :: u in nodes - SingleDegreeJobs(nodes, edges) && u.Job? ==>
      JobDegree(edges - EdgesAtJobs(edges, SingleDegreeJobs(nodes, edges)), u.j) == JobDegree(edges, u.j) != 1
  {
    var single := SingleDegreeJobs(nodes, edges);
    var kept := edges - EdgesAtJobs(edges, single);
    forall u | u in nodes - single && u.Job?
      ensures JobDegree(kept, u.j) == JobDegree(edges, u.j)
    {
      assert (set e | e in kept && e.1 == u.j) == (set e | e in edges && e.1 == u.j);
    }
  }

  /** Keys within range give edges between nodes of the graph. */
  lemma SupportWellFormed(x: map<Key, real>, m: nat, n: nat)
    requires forall k :: k in x ==> 0 <= k.0 < m && 0 <= k.1 < n
    ensures WellFormed(AllNodes(m, n), SupportEdges(x))
  {
    forall e | e in SupportEdges(x) ensures Machine(e.0) in AllNodes(m, n) && Job(e.1) in AllNodes(m, n) {
      assert e in x;
      InAllNodes(e.0, e.1, m, n);
    }
  }

  /** Every machine of the range is a node of the full node set. */
  lemma MachinesInAllNodes(m: nat, n: nat)
    ensures forall i :: 0 <= i < m ==> Machine(i) in AllNodes(m, n)
  {
    forall i | 0 <= i < m ensures Machine(i) in AllNodes(m, n) {
      if n > 0 {
        InAllNodes(i, 0, m, n);
      }
    }
  }

  lemma InAllNodes(i: int, j: int, m: nat, n: nat)
    requires 0 <= i < m && 0 <= j < n
    ensures Machine(i) in AllNodes(m, n) && Job(j) in AllNodes(m, n)
  {
  }

  /** The job nodes among c. */
  function JobsAmong(c: set<Node>): set<Node>
  {
    set u | u in c && u.Job?
  }

  /** (sub, es) is a subgraph of the graph on m machines and n jobs. */
  ghost predicate IsSubgraph(sub: set<Node>, es: set<Edge>, m: nat, n: nat)
  {
    sub <= AllNodes(m, n) && forall e :: e in es ==> Machine(e.0) in sub && Job(e.1) in sub
  }

  /** `subgraph.neighbors(u)`: the nodes adjacent to u in ascending index
      order, the order in which the row-major keys of the LP solution added
      the edges. */
  function NeighbourList(es: set<Edge>, u: Node, m: nat, n: nat): (ns: seq<Node>)
    ensures forall w :: w in ns ==> Adjacent(es, u, w)
    ensures forall w :: Adjacent(es, u, w) && 0 <= w.Index() < (if w.Machine? then m else n) ==> w in ns
    ensures forall k, l :: 0 <= k < l < |ns| ==> ns[k].Index() < ns[l].Index()
  {
    match u
    case Machine(i) => JobNodes(Filter(Range(n), j => (i, j) in es))
    case Job(j) => MachineNodes(Filter(Range(m), i => (i, j) in es))
  }

  /** The job nodes with the given indices, in the same order. */
  function JobNodes(js: seq<int>): (ns: seq<Node>)
    ensures |ns| == |js| && forall k :: 0 <= k < |js| ==> ns[k] == Job(js[k])
    ensures forall w :: w in ns <==> w.Job? && w.j in js
  {
    if js == [] then [] else [Job(js[0])] + JobNodes(js[1..])
  }

  /** The machine nodes with the given indices, in the same order. */
  function MachineNodes(ms: seq<int>): (ns: seq<Node>)
    ensures |ns| == |ms| && forall k :: 0 <= k < |ms| ==> ns[k] == Machine(ms[k])
    ensures forall w :: w in ns <==> w.Machine? && w.i in ms
  {
    if ms == [] then [] else [Machine(ms[0])] + MachineNodes(ms[1..])
  }

  /** The first of ns other than the parent: the child a job is matched to. */
  function FirstOther(ns: seq<Node>, parent: Option<Node>): (r: Option<Node>)
    ensures r.Some? ==> r.value in ns && Some(r.value) != parent
    ensures r.None? ==> forall w :: w in ns ==> Some(w) == parent
  {
    if ns == [] then None
    else if Some(ns[0]) != parent then Some(ns[0])
    else FirstOther(ns[1..], parent)
  }

  /** FirstOther picks the earliest element that is not the parent. */
  lemma {:induction false} FirstOtherIsFirst(ns: seq<Node>, parent: Option<Node>)
    requires FirstOther(ns, parent).Some?
    ensures exists k :: 0 <= k < |ns| && ns[k] == FirstOther(ns, parent).value &&
                        forall l :: 0 <= l < k ==> Some(ns[l]) == parent
  {
    if Some(ns[0]) == parent {
      FirstOtherIsFirst(ns[1..], parent);
      var k :| 0 <= k < |ns[1..]| && ns[1..][k] == FirstOther(ns, parent).value &&
               forall l :: 0 <= l < k ==> Some(ns[1..][l]) == parent;
      assert forall l :: 1 <= l < k + 1 ==> ns[l] == ns[1..][l - 1];
      assert ns[k + 1] == FirstOther(ns, parent).value;
    } else {
      assert ns[0] == FirstOther(ns, parent).value;
    }
  }

  /** The jobs of the `matching` dict of match_tree_component, in insertion order. */
  function DictJobs(d: seq<(Node, Node)>): (r: seq<Node>)
    ensures |r| == |d| && forall k :: 0 <= k < |d| ==> r[k] == d[k].0
  {
    seq(|d|, k requires 0 <= k < |d| => d[k].0)
  }

  /** The machines of the `matching` dict, in insertion order. */
  function DictMachines(d: seq<(Node, Node)>): (r: seq<Node>)
    ensures |r| == |d| && forall k :: 0 <= k < |d| ==> r[k] == d[k].1
  {
    seq(|d|, k requires 0 <= k < |d| => d[k].1)
  }

  /** `(int(machine[1:]), int(job[1:]))` for every entry of the dict. */
  function PairKeys(d: seq<(Node, Node)>): (r: seq<Key>)
    ensures |r| == |d| && forall k :: 0 <= k < |d| ==> r[k] == (d[k].1.Index(), d[k].0.Index())
  {
    seq(|d|, k requires 0 <= k < |d| => (d[k].1.Index(), d[k].0.Index()))
  }

  /** `parents` records, for each visited node, the neighbour the search
      entered it from (None for the root). */
  ghost predicate ParentsRecorded(es: set<Edge>, visited: set<Node>, parents: map<Node, Option<Node>>)
  {
    && parents.Keys == visited
    && (forall u :: u in parents && parents[u].Some? ==> Adjacent(es, parents[u].value, u))
  }

  /** Each dict entry pairs a visited job with its first neighbour other than
      its parent. */
  ghost predicate EntriesAreFirstChildren(es: set<Edge>, m: nat, n: nat, visited: set<Node>,
                                          dict: seq<(Node, Node)>, parents: map<Node, Option<Node>>)
  {
    forall k :: 0 <= k < |dict| ==>
      dict[k].0.Job? && dict[k].0 in visited && dict[k].0 in parents &&
      FirstOther(NeighbourList(es, dict[k].0, m, n), parents[dict[k].0]) == Some(dict[k].1)
  }

  /** Every visited job that has a neighbour other than its parent is in the dict. */
  ghost predicate VisitedJobsEntered(es: set<Edge>, m: nat, n: nat, visited: set<Node>,
                                     dict: seq<(Node, Node)>, parents: map<Node, Option<Node>>)
  {
    forall u :: u in visited && u in parents && u.Job? && FirstOther(NeighbourList(es, u, m, n), parents[u]).Some? ==>
      u in DictJobs(dict)
  }

  /** The state of the recursive search of match_tree_component: every
      visited job with a child is in the dict, matched to its first child,
      once; `matched` holds the machines of the dict. */
  ghost predicate MatchState(es: set<Edge>, m: nat, n: nat, visited: set<Node>,
                             dict: seq<(Node, Node)>, matched: set<Node>, parents: map<Node, Option<Node>>)
  {
    && ParentsRecorded(es, visited, parents)
    && EntriesAreFirstChildren(es, m, n, visited, dict, parents)
    && VisitedJobsEntered(es, m, n, visited, dict, parents)
    && Distinct(DictJobs(dict))
    && (forall u :: u in DictJobs(dict) ==> u in visited)
    && matched == Elements(DictMachines(dict))
  }

  /** The dict after the search enters node from parent: a job is matched
      to its first neighbour other than the parent, if it has one. */
  function EnteredDict(es: set<Edge>, m: nat, n: nat, dict: seq<(Node, Node)>, node: Node, parent: Option<Node>): seq<(Node, Node)>
  {
    if node.Job? && FirstOther(NeighbourList(es, node, m, n), parent).Some? then
      dict + [(node, FirstOther(NeighbourList(es, node, m, n), parent).value)]
    else dict
  }

  lemma EnterEntries(es: set<Edge>, m: nat, n: nat, visited: set<Node>, dict: seq<(Node, Node)>,
                     parents: map<Node, Option<Node>>, node: Node, parent: Option<Node>)
    requires EntriesAreFirstChildren(es, m, n, visited, dict, parents) && node !in visited
    ensures EntriesAreFirstChildren(es, m, n, visited + {node}, EnteredDict(es, m, n, dict, node, parent),
                                    parents[node := parent])
  {
    var d := EnteredDict(es, m, n, dict, node, parent);
    var ps := parents[node := parent];
    forall k | 0 <= k < |d|
      ensures d[k].0.Job? && d[k].0 in visited + {node} && d[k].0 in ps
      ensures FirstOther(NeighbourList(es, d[k].0, m, n), ps[d[k].0]) == Some(d[k].1)
    {
      if k < |dict| {
        assert d[k] == dict[k];
        assert ps[dict[k].0] == parents[dict[k].0];
      }
    }
  }

  lemma EnterCovers(es: set<Edge>, m: nat, n: nat, visited: set<Node>, dict: seq<(Node, Node)>,
                    parents: map<Node, Option<Node>>, node: Node, parent: Option<Node>)
    requires VisitedJobsEntered(es, m, n, visited, dict, parents) && node !in visited
    ensures VisitedJobsEntered(es, m, n, visited + {node}, EnteredDict(es, m, n, dict, node, parent),
                               parents[node := parent])
  {
    var d := EnteredDict(es, m, n, dict, node, parent);
    var ps := parents[node := parent];
    var entered := node.Job? && FirstOther(NeighbourList(es, node, m, n), parent).Some?;
    assert d == if entered then dict + [(node, FirstOther(NeighbourList(es, node, m, n), parent).value)] else dict;
    PrefixJobs(dict, d);
    if entered {
      assert DictJobs(d)[|dict|] == node;
    }
    forall u | u in visited + {node} && u in ps && u.Job? && FirstOther(NeighbourList(es, u, m, n), ps[u]).Some?
      ensures u in DictJobs(d)
    {
      if u != node {
        assert ps[u] == parents[u];
      }
    }
  }

  /** Jobs of a dict stay jobs of any dict it is a prefix of. */
  lemma PrefixJobs(dict: seq<(Node, Node)>, d: seq<(Node, Node)>)
    requires |dict| <= |d| && d[..|dict|] == dict
    ensures forall u :: u in DictJobs(dict) ==> u in DictJobs(d)
  {
    forall u | u in DictJobs(dict) ensures u in DictJobs(d) {
      var k :| 0 <= k < |dict| && DictJobs(dict)[k] == u;
      assert d[k] == dict[k];
      assert DictJobs(d)[k] == u;
    }
  }

  /** Entering a node keeps the search state consistent. */
  lemma EnterKeepsState(es: set<Edge>, m: nat, n: nat, visited: set<Node>, dict: seq<(Node, Node)>,
                        matched: set<Node>, parents: map<Node, Option<Node>>, node: Node, parent: Option<Node>)
    requires node !in visited && (parent.Some? ==> Adjacent(es, parent.value, node))
    requires MatchState(es, m, n, visited, dict, matched, parents)
    ensures MatchState(es, m, n, visited + {node}, EnteredDict(es, m, n, dict, node, parent),
                       Elements(DictMachines(EnteredDict(es, m, n, dict, node, parent))), parents[node := parent])
  {
    var d := EnteredDict(es, m, n, dict, node, parent);
    var ps := parents[node := parent];
    assert ParentsRecorded(es, visited + {node}, ps) by {
      assert ps.Keys == visited + {node};
      forall u | u in ps && ps[u].Some? ensures Adjacent(es, ps[u].value, u) {
        if u != node {
          assert ps[u] == parents[u];
        }
      }
    }
    EnterEntries(es, m, n, visited, dict, parents, node, parent);
    EnterCovers(es, m, n, visited, dict, parents, node, parent);
    if d != dict {
      assert d[..|dict|] == dict;
    }
    EnterDict(dict, visited, d, node);
  }

  lemma EnterDict(dict: seq<(Node, Node)>, visited: set<Node>, d: seq<(Node, Node)>, node: Node)
    requires Distinct(DictJobs(dict)) && (forall u :: u in DictJobs(dict) ==> u in visited)
    requires node !in visited && (d == dict || (|d| == |dict| + 1 && d[..|dict|] == dict && d[|dict|].0 == node))
    ensures Distinct(DictJobs(d)) && forall u :: u in DictJobs(d) ==> u in visited + {node}
    ensures Elements(DictMachines(d)) == Elements(DictMachines(dict)) + (if d == dict then {} else {d[|dict|].1})
  {
    if d != dict {
      assert DictJobs(d) == DictJobs(dict) + [node];
      assert DictMachines(d) == DictMachines(dict) + [d[|dict|].1];
    }
  }

  /** order lists the visited nodes in the order the search entered them,
      the first with no parent and every later one after the node it was
      entered from. */
  ghost predicate EntryOrder(visited: set<Node>, parents: map<Node, Option<Node>>, order: seq<Node>)
  {
    && Elements(order) == visited && Distinct(order)
    && (forall k :: 0 <= k < |order| ==> order[k] in parents && (parents[order[k]].None? <==> k == 0))
    && (forall k :: 0 < k < |order| ==> parents[order[k]].Some? && parents[order[k]].value in order[..k])
  }

  /** tree holds the edges the search went along, one for every visited
      node after the first. */
  ghost predicate TreeEdges(es: set<Edge>, visited: set<Node>, parents: map<Node, Option<Node>>, tree: set<Edge>)
  {
    && tree <= EdgesIn(es, visited)
    && (visited == {} ==> tree == {})
    && (visited != {} ==> |tree| + 1 == |visited|)
    && (forall e :: e in tree ==>
          exists u :: u in parents && parents[u].Some? && parents[u].value.Machine? != u.Machine? &&
                      e == EdgeBetween(parents[u].value, u))
  }

  /** The search tree so far. */
  ghost predicate SearchTree(es: set<Edge>, visited: set<Node>, parents: map<Node, Option<Node>>,
                             order: seq<Node>, tree: set<Edge>)
  {
    EntryOrder(visited, parents, order) && TreeEdges(es, visited, parents, tree)
  }

  /** The tree after the search enters node from parent. */
  function EnteredTree(tree: set<Edge>, node: Node, parent: Option<Node>): set<Edge>
  {
    if parent.Some? && parent.value.Machine? != node.Machine? then tree + {EdgeBetween(parent.value, node)} else tree
  }

  lemma EnterOrder(visited: set<Node>, parents: map<Node, Option<Node>>, order: seq<Node>,
                   node: Node, parent: Option<Node>)
    requires EntryOrder(visited, parents, order) && node !in visited
    requires parent.None? <==> visited == {}
    requires parent.Some? ==> parent.value in visited
    ensures EntryOrder(visited + {node}, parents[node := parent], order + [node])
  {
    var ps, o := parents[node := parent], order + [node];
    assert Elements(o) == visited + {node};
    forall k | 0 <= k < |o| ensures o[k] in ps && (ps[o[k]].None? <==> k == 0) {
      if k < |order| {
        assert o[k] == order[k] && order[k] in visited;
      } else if order != [] {
        assert order[0] in visited;
      }
    }
    forall k | 0 < k < |o| ensures ps[o[k]].Some? && ps[o[k]].value in o[..k] {
      if k < |order| {
        assert o[k] == order[k] && o[..k] == order[..k] && order[k] in visited;
      } else {
        assert o[..k] == order;
      }
    }
  }

  lemma EnterTreeEdges(es: set<Edge>, visited: set<Node>, parents: map<Node, Option<Node>>, tree: set<Edge>,
                       node: Node, parent: Option<Node>)
    requires TreeEdges(es, visited, parents, tree) && parents.Keys == visited && node !in visited
    requires parent.None? <==> visited == {}
    requires parent.Some? ==> parent.value in visited && Adjacent(es, parent.value, node)
    ensures TreeEdges(es, visited + {node}, parents[node := parent], EnteredTree(tree, node, parent))
  {
    var ps, t := parents[node := parent], EnteredTree(tree, node, parent);
    if parent.Some? {
      var e := EdgeBetween(parent.value, node);
      assert e !in EdgesIn(es, visited) && e in EdgesIn(es, visited + {node});
      assert EdgesIn(es, visited) <= EdgesIn(es, visited + {node});
      forall e' | e' in t
        ensures exists u :: u in ps && ps[u].Some? && ps[u].value.Machine? != u.Machine? && e' == EdgeBetween(ps[u].value, u)
      {
        if e' == e {
          assert ps[node] == parent;
        } else {
          var u :| u in parents && parents[u].Some? && parents[u].value.Machine? != u.Machine? &&
                   e' == EdgeBetween(parents[u].value, u);
          assert ps[u] == parents[u];
        }
      }
    }
  }

  /** Reaching a visited node p-to-node, where neither entered the other,
      finds an edge among the visited nodes beyond the tree edges. */
  lemma RevisitExtraEdge(es: set<Edge>, visited: set<Node>, parents: map<Node, Option<Node>>,
                         order: seq<Node>, tree: set<Edge>, node: Node, p: Node)
    requires SearchTree(es, visited, parents, order, tree) && parents.Keys == visited
    requires node in visited && p in visited && Adjacent(es, p, node)
    requires parents[node] != Some(p) && parents[p] != Some(node)
    ensures |tree| < |EdgesIn(es, visited)|
  {
    ExtraEdge(es, visited, parents, tree, node, p);
  }

  /** The edge p-node lies among the visited nodes and is no tree edge. */
  lemma ExtraEdge(es: set<Edge>, visited: set<Node>, parents: map<Node, Option<Node>>, tree: set<Edge>,
                  node: Node, p: Node)
    requires TreeEdges(es, visited, parents, tree)
    requires node in visited && p in visited && node in parents && p in parents && Adjacent(es, p, node)
    requires parents[node] != Some(p) && parents[p] != Some(node)
    ensures |tree| < |EdgesIn(es, visited)|
  {
    var b := EdgeBetween(p, node);
    assert b in EdgesIn(es, visited);
    forall u | u in parents && parents[u].Some? && parents[u].value.Machine? != u.Machine?
      ensures b != EdgeBetween(parents[u].value, u)
    {
      EdgeBetweenInjective(parents[u].value, u, p, node);
    }
    SubsetSize(tree + {b}, EdgesIn(es, visited));
  }

  /** A search that found more edges among its nodes than its tree has
      shows that the component has at least as many edges as nodes, so it
      is not a tree. */
  lemma RevisitMeansNotTree(es: set<Edge>, sub: set<Node>, visited: set<Node>, tree: set<Edge>)
    requires IsComponent(es, sub) && visited <= sub && visited != {}
    requires |tree| + 1 == |visited| && |tree| < |EdgesIn(es, visited)|
    ensures |es| >= |sub|
  {
    ComponentEdgesGrow(es, sub, visited);
    SubsetSize(EdgesIn(es, sub), es);
  }

  /** q keeps every entry of p. */
  ghost predicate Extends(p: map<Node, Option<Node>>, q: map<Node, Option<Node>>)
  {
    forall u {:trigger p[u]} :: u in p ==> u in q && q[u] == p[u]
  }

  /** Every node q records beyond p, other than node, was entered from a
      node p does not record: a search below node never climbs back above
      it. */
  ghost predicate EnteredBelow(p: map<Node, Option<Node>>, q: map<Node, Option<Node>>, node: Node)
  {
    forall u {:trigger q[u]} :: u in q && u !in p && u != node ==> q[u].Some? && q[u].value !in p
  }

  /** No edge leaves the nodes of outer that inner does not hold. */
  ghost predicate ClosedBeyond(es: set<Edge>, inner: set<Node>, outer: set<Node>)
  {
    forall u, v :: u in outer - inner && Adjacent(es, u, v) ==> v in outer
  }

  /** The loop of dfs(node, parent) after its first k neighbours: the nodes
      entered so far keep their parents, the children of node are among
      those k neighbours, which have all been reached, and no edge leaves
      the nodes reached below node. */
  ghost predicate ChildrenSearched(es: set<Edge>, ns: seq<Node>, k: nat, node: Node, visited: set<Node>,
                                   parents: map<Node, Option<Node>>, entered: map<Node, Option<Node>>,
                                   visited': set<Node>, parents': map<Node, Option<Node>>)
    requires k <= |ns|
  {
    && Extends(entered, parents')
    && EnteredBelow(parents, parents', node)
    && (forall u :: u in parents' && parents'[u] == Some(node) ==> u in ns[..k])
    && (forall l :: 0 <= l < k ==> ns[l] in visited')
    && ClosedBeyond(es, visited + {node}, visited')
  }

  /** Before the loop of dfs(node, parent), just after node is entered. */
  lemma StartChildren(es: set<Edge>, ns: seq<Node>, node: Node, parent: Option<Node>, visited: set<Node>,
                      parents: map<Node, Option<Node>>, order: seq<Node>)
    requires EntryOrder(visited, parents, order) && parents.Keys == visited && node !in visited
    requires parent.Some? ==> parent.value in visited
    ensures ChildrenSearched(es, ns, 0, node, visited, parents, parents[node := parent],
                             visited + {node}, parents[node := parent])
  {
  }

  /** The loop step that skips the parent keeps ChildrenSearched. */
  lemma SkipParent(es: set<Edge>, ns: seq<Node>, k: nat, node: Node, visited: set<Node>,
                   parents: map<Node, Option<Node>>, entered: map<Node, Option<Node>>,
                   visited': set<Node>, parents': map<Node, Option<Node>>)
    requires k < |ns| && ns[k] in visited'
    requires ChildrenSearched(es, ns, k, node, visited, parents, entered, visited', parents')
    ensures ChildrenSearched(es, ns, k + 1, node, visited, parents, entered, visited', parents')
  {
    assert ns[..k + 1] == ns[..k] + [ns[k]];
  }

  /** The loop step that searches below the neighbour ns[k]: the nodes
      entered so far keep their parents and nothing new is entered from
      above node; a search that ended normally keeps ChildrenSearched. */
  lemma ChildSearched(es: set<Edge>, ns: seq<Node>, k: nat, node: Node, visited: set<Node>,
                      parents: map<Node, Option<Node>>, entered: map<Node, Option<Node>>,
                      v1: set<Node>, p1: map<Node, Option<Node>>, v2: set<Node>, p2: map<Node, Option<Node>>, ok: bool)
    requires k < |ns| && node !in parents && parents.Keys <= p1.Keys
    requires ChildrenSearched(es, ns, k, node, visited, parents, entered, v1, p1)
    requires node in p1 && v1 <= v2 && ns[k] in v2
    requires Extends(p1, p2) && EnteredBelow(p1, p2, ns[k])
    requires ns[k] !in p1 ==> ns[k] in p2 && p2[ns[k]] == Some(node)
    requires ok ==> ClosedBeyond(es, v1, v2)
    ensures Extends(entered, p2) && EnteredBelow(parents, p2, node)
    ensures ok ==> ChildrenSearched(es, ns, k + 1, node, visited, parents, entered, v2, p2)
  {
    assert ns[..k + 1] == ns[..k] + [ns[k]];
    forall u | u in entered ensures u in p2 && p2[u] == entered[u] {
      assert p1[u] == entered[u];
    }
    forall u | u in p2 && u !in parents && u != node ensures p2[u].Some? && p2[u].value !in parents {
      if u !in p1 {
        assert u == ns[k] || p2[u].value !in p1;
      } else {
        assert p1[u] == p2[u];
      }
    }
    forall u | u in p2 && p2[u] == Some(node) ensures u in ns[..k + 1] {
      if u in p1 {
        assert p1[u] == Some(node);
      }
    }
  }

  /** node entered from parent: what the nodes entered from node on
      inherit, seen from before node was entered. */
  lemma EnteredExtends(parents: map<Node, Option<Node>>, q: map<Node, Option<Node>>, node: Node, parent: Option<Node>)
    requires node !in parents && Extends(parents[node := parent], q)
    ensures Extends(parents, q) && node in q && q[node] == parent
  {
    assert parents[node := parent][node] == parent;
    forall u | u in parents ensures u in q && q[u] == parents[u] {
      assert parents[node := parent][u] == parents[u];
    }
  }

  /** Each dict entry pairs a job of the component with a neighbour in es,
      and no job occurs twice. */
  ghost predicate WellMatched(sub: set<Node>, es: set<Edge>, dict: seq<(Node, Node)>)
  {
    && (forall k :: 0 <= k < |dict| ==> dict[k].0 in JobsAmong(sub) && Adjacent(es, dict[k].0, dict[k].1))
    && Distinct(DictJobs(dict))
  }

  /** machine is the first neighbour of job other than p, and p, if any, is
      adjacent to job: job was entered from p and matched to machine. */
  ghost predicate EnteredFrom(es: set<Edge>, m: nat, n: nat, job: Node, machine: Node, p: Option<Node>)
  {
    (p.Some? ==> Adjacent(es, p.value, job)) && FirstOther(NeighbourList(es, job, m, n), p) == Some(machine)
  }

  /** A finished search of sub: it started at a job (order[0]), entered
      every later node it lists along an edge from an earlier one, and no
      edge leaves the nodes it reached. */
  ghost predicate Searched(sub: set<Node>, es: set<Edge>, order: seq<Node>, parents: map<Node, Option<Node>>)
  {
    && |order| > 0 && order[0].Job? && Elements(order) <= sub && Distinct(order)
    && parents.Keys == Elements(order) && order[0] in parents && parents[order[0]].None?
    && (forall k :: 0 < k < |order| ==>
          order[k] in parents && parents[order[k]].Some? && parents[order[k]].value in order[..k] &&
          Adjacent(es, parents[order[k]].value, order[k]))
    && Closed(es, Elements(order))
  }

  /** What match_tree_component leaves behind: with no job, an empty dict;
      otherwise the search from a job reached a closed set of nodes, every
      job it reached that has a neighbour other than the node it was entered
      from is in the dict, matched to the first such neighbour, and no job
      twice; success is reported exactly when no machine is used twice and
      every job of the component is matched. */
  ghost predicate TreeMatched(sub: set<Node>, es: set<Edge>, m: nat, n: nat, dict: seq<(Node, Node)>,
                              order: seq<Node>, parents: map<Node, Option<Node>>, success: bool)
  {
    && WellMatched(sub, es, dict)
    && (JobsAmong(sub) == {} ==> dict == [])
    && (JobsAmong(sub) != {} ==>
          && Searched(sub, es, order, parents)
          && (forall k :: 0 <= k < |dict| ==>
                dict[k].0 in parents && EnteredFrom(es, m, n, dict[k].0, dict[k].1, parents[dict[k].0]))
          && VisitedJobsEntered(es, m, n, Elements(order), dict, parents))
    && (success <==> JobsAmong(sub) != {} && Distinct(DictMachines(dict)) && JobsAmong(sub) <= Elements(DictJobs(dict)))
  }

  /** What a finished search gives, apart from the success flag. */
  lemma SearchResult(sub: set<Node>, es: set<Edge>, m: nat, n: nat, visited: set<Node>,
                     dict: seq<(Node, Node)>, matched: set<Node>, parents: map<Node, Option<Node>>)
    requires IsSubgraph(sub, es, m, n) && visited <= sub
    requires MatchState(es, m, n, visited, dict, matched, parents)
    ensures WellMatched(sub, es, dict)
    ensures forall k :: 0 <= k < |dict| ==> dict[k].1 in sub
    ensures Elements(DictJobs(dict)) <= JobsAmong(sub)
    ensures forall k :: 0 <= k < |dict| ==> dict[k].0 in parents && EnteredFrom(es, m, n, dict[k].0, dict[k].1, parents[dict[k].0])
  {
    forall k | 0 <= k < |dict|
      ensures dict[k].0 in JobsAmong(sub) && Adjacent(es, dict[k].0, dict[k].1) && dict[k].1 in sub
    {
    }
  }

  /** The edge match_cycle_component drops: the one between the first two
      nodes of the cycle, when there are two. */
  function DropFirstEdge(es: set<Edge>, cycle: seq<Node>): set<Edge>
  {
    if |cycle| >= 2 && cycle[0].Machine? != cycle[1].Machine? then es - {EdgeBetween(cycle[0], cycle[1])} else es
  }

  lemma SubsetSameSize<T>(a: set<T>, b: set<T>)
    requires a <= b && |a| == |b|
    ensures a == b
  {
    assert b == a + (b - a);
    assert |b - a| == 0;
  }

  lemma SubsetSize<T>(a: set<T>, b: set<T>)
    requires a <= b
    ensures |a| <= |b|
  {
    assert b == a + (b - a);
  }

  /** A component has an edge from each non-empty proper part of it to the rest. */
  lemma CrossingEdge(es: set<Edge>, c: set<Node>, s: set<Node>) returns (u: Node, w: Node)
    requires IsComponent(es, c) && s != {} && s <= c && s != c
    ensures u in s && w in c - s && Adjacent(es, u, w)
  {
    var v :| v in s;
    assert IsComponentOf(es, c, v);
    assert !Closed(es, s);
    u, w :| u in s && Adjacent(es, u, w) && w !in s;
  }

  /** One more node w joined by an edge to s brings an edge that s lacks. */
  lemma EdgeGained(es: set<Edge>, s: set<Node>, u: Node, w: Node)
    requires u in s && w !in s && Adjacent(es, u, w)
    ensures |EdgesIn(es, s + {w})| >= |EdgesIn(es, s)| + 1
  {
    var e := EdgeBetween(u, w);
    assert e in EdgesIn(es, s + {w}) && e !in EdgesIn(es, s);
    SubsetSize(EdgesIn(es, s) + {e}, EdgesIn(es, s + {w}));
  }

  /** Growing a non-empty part of a component to the whole of it brings at
      least one new edge with every node: the component has at least
      |c| - |s| edges more than the part. */
  lemma {:induction false} ComponentEdgesGrow(es: set<Edge>, c: set<Node>, s: set<Node>)
    requires IsComponent(es, c) && s != {} && s <= c
    ensures |EdgesIn(es, c)| >= |EdgesIn(es, s)| + |c| - |s|
    decreases |c| - |s|
  {
    if s != c {
      var u, w := CrossingEdge(es, c, s);
      EdgeGained(es, s, u, w);
      SubsetSize(s + {w}, c);
      ComponentEdgesGrow(es, c, s + {w});
    }
  }

  /** A component of the graph is a component of its own induced subgraph. */
  lemma InducedComponent(edges: set<Edge>, c: set<Node>)
    requires IsComponent(edges, c)
    ensures IsComponent(EdgesIn(edges, c), c)
  {
    var es := EdgesIn(edges, c);
    forall v | v in c ensures IsComponentOf(es, c, v) {
      assert IsComponentOf(edges, c, v);
      forall t | v in t && Closed(es, t) ensures c <= t {
        forall a, b | a in t * c && Adjacent(edges, a, b) ensures b in t * c {
          assert Adjacent(es, a, b);
        }
        assert Closed(edges, t * c);
      }
    }
  }

  /** The edge between two nodes determines them, up to order. */
  lemma EdgeBetweenInjective(a: Node, b: Node, c: Node, d: Node)
    ensures a.Machine? != b.Machine? && c.Machine? != d.Machine? && EdgeBetween(a, b) == EdgeBetween(c, d) ==>
              (a == c && b == d) || (a == d && b == c)
  {
  }

  /** A finished search from a job of the component: the dict and the success
      flag computed from the counts are what match_tree_component promises. */
  lemma TreeOutcome(sub: set<Node>, es: set<Edge>, m: nat, n: nat, visited: set<Node>,
                    dict: seq<(Node, Node)>, matched: set<Node>, parents: map<Node, Option<Node>>,
                    order: seq<Node>, root: Node)
    requires IsSubgraph(sub, es, m, n) && visited <= sub && JobsAmong(sub) != {}
    requires MatchState(es, m, n, visited, dict, matched, parents)
    requires EntryOrder(visited, parents, order) && Closed(es, visited)
    requires root.Job? && root in parents && parents[root] == None
    ensures TreeMatched(sub, es, m, n, dict, order, parents, |matched| == |dict| && |matched| == |JobsAmong(sub)|)
    ensures forall k :: 0 <= k < |dict| ==> dict[k].0.Index() >= 0 && dict[k].1.Index() >= 0
  {
    SearchResult(sub, es, m, n, visited, dict, matched, parents);
    SuccessCounts(JobsAmong(sub), dict);
    SearchedFromRoot(sub, es, visited, parents, order, root);
    assert Elements(order) == visited;
    assert VisitedJobsEntered(es, m, n, Elements(order), dict, parents);
    forall k | 0 <= k < |dict| ensures dict[k].0.Index() >= 0 && dict[k].1.Index() >= 0 {
      NodeIndex(m, n, dict[k].0);
      NodeIndex(m, n, dict[k].1);
    }
  }

  /** Every job of sub has at least two edges, and there is a job: the
      condition under which match_tree_component succeeds on a tree. */
  ghost predicate JobsBranch(sub: set<Node>, es: set<Edge>)
  {
    JobsAmong(sub) != {} && forall u :: u in JobsAmong(sub) ==> JobDegree(es, u.j) >= 2
  }

  /** On a tree component where every job has two edges or more, a
      finished search matches every job, each to a machine of its own. */
  lemma TreeSearchMatchesAll(sub: set<Node>, es: set<Edge>, m: nat, n: nat, visited: set<Node>,
                             dict: seq<(Node, Node)>, matched: set<Node>, parents: map<Node, Option<Node>>,
                             order: seq<Node>, tree: set<Edge>)
    requires IsSubgraph(sub, es, m, n) && IsTreeComponent(es, sub) && JobsBranch(sub, es)
    requires visited <= sub && visited != {} && Closed(es, visited)
    requires MatchState(es, m, n, visited, dict, matched, parents)
    requires SearchTree(es, visited, parents, order, tree)
    ensures Distinct(DictMachines(dict)) && JobsAmong(sub) <= Elements(DictJobs(dict))
  {
    ClosedFillsComponent(es, sub, visited);
    AllTreeEdges(sub, es, parents, tree);
    forall k | 0 <= k < |dict| ensures dict[k].1 in parents && parents[dict[k].1] == Some(dict[k].0) {
      MatchedChild(es, m, n, parents, tree, dict[k].0, dict[k].1);
    }
    forall k, l | 0 <= k < l < |dict| ensures DictMachines(dict)[k] != DictMachines(dict)[l] {
      assert DictJobs(dict)[k] != DictJobs(dict)[l];
    }
    forall u | u in JobsAmong(sub) ensures u in Elements(DictJobs(dict)) {
      BranchingJobHasChild(sub, es, m, n, u, parents[u]);
    }
  }

  /** A non-empty closed part of a component is all of it. */
  lemma ClosedFillsComponent(es: set<Edge>, c: set<Node>, s: set<Node>)
    requires IsComponent(es, c) && s <= c && s != {} && Closed(es, s)
    ensures s == c
  {
    var v :| v in s;
    assert IsComponentOf(es, c, v);
  }

  /** A search that has reached every node of a tree went along every edge. */
  lemma AllTreeEdges(sub: set<Node>, es: set<Edge>, parents: map<Node, Option<Node>>, tree: set<Edge>)
    requires TreeEdges(es, sub, parents, tree) && |es| + 1 == |sub|
    requires forall e :: e in es ==> Machine(e.0) in sub && Job(e.1) in sub
    ensures tree == es
  {
    assert EdgesIn(es, sub) == es;
    SubsetSameSize(tree, es);
  }

  /** When every edge is a tree edge, the node a job is matched to, which
      is not its parent, is its child. */
  lemma MatchedChild(es: set<Edge>, m: nat, n: nat, parents: map<Node, Option<Node>>, tree: set<Edge>,
                     u: Node, w: Node)
    requires tree == es && u.Job? && u in parents
    requires forall e :: e in tree ==>
               exists x :: x in parents && parents[x].Some? && parents[x].value.Machine? != x.Machine? &&
                           e == EdgeBetween(parents[x].value, x)
    requires FirstOther(NeighbourList(es, u, m, n), parents[u]) == Some(w)
    ensures w in parents && parents[w] == Some(u)
  {
    var e := EdgeBetween(u, w);
    var x :| x in parents && parents[x].Some? && parents[x].value.Machine? != x.Machine? &&
             e == EdgeBetween(parents[x].value, x);
    EdgeBetweenInjective(u, w, parents[x].value, x);
  }

  /** A job with two edges or more has a neighbour other than its parent. */
  lemma BranchingJobHasChild(sub: set<Node>, es: set<Edge>, m: nat, n: nat, u: Node, p: Option<Node>)
    requires IsSubgraph(sub, es, m, n) && u.Job? && JobDegree(es, u.j) >= 2
    ensures FirstOther(NeighbourList(es, u, m, n), p).Some?
  {
    var at := set e | e in es && e.1 == u.j;
    var e1 :| e1 in at;
    assert |at - {e1}| >= 1;
    var e2 :| e2 in at - {e1};
    var ns := NeighbourList(es, u, m, n);
    NodeIndex(m, n, Machine(e1.0));
    NodeIndex(m, n, Machine(e2.0));
    assert Machine(e1.0) in ns && Machine(e2.0) in ns;
  }

  lemma NodeIndex(m: nat, n: nat, u: Node)
    requires u in AllNodes(m, n)
    ensures 0 <= u.Index() < (if u.Machine? then m else n)
  {
  }

  /** A search whose entry order starts at a job and whose visited set is
      closed is a finished search of sub. */
  lemma SearchedFromRoot(sub: set<Node>, es: set<Edge>, visited: set<Node>, parents: map<Node, Option<Node>>,
                         order: seq<Node>, root: Node)
    requires visited <= sub && ParentsRecorded(es, visited, parents)
    requires EntryOrder(visited, parents, order) && Closed(es, visited)
    requires root.Job? && root in parents && parents[root] == None
    ensures Searched(sub, es, order, parents)
  {
    var r :| 0 <= r < |order| && order[r] == root;
    assert r == 0;
    forall k | 0 < k < |order|
      ensures order[k] in parents && parents[order[k]].Some? && parents[order[k]].value in order[..k]
      ensures Adjacent(es, parents[order[k]].value, order[k])
    {
    }
  }

  /** The two counts match_tree_component compares: as many distinct machines
      as dict entries, and as many as job nodes, hold together exactly when
      the matching is injective and covers every job. */
  lemma SuccessCounts(jobs: set<Node>, d: seq<(Node, Node)>)
    requires Distinct(DictJobs(d)) && Elements(DictJobs(d)) <= jobs
    ensures (|Elements(DictMachines(d))| == |d| && |Elements(DictMachines(d))| == |jobs|)
            <==> (Distinct(DictMachines(d)) && jobs <= Elements(DictJobs(d)))
  {
    DistinctCardinality(DictMachines(d));
    DistinctCardinality(DictJobs(d));
    if |Elements(DictMachines(d))| == |d| && |Elements(DictMachines(d))| == |jobs| {
      SubsetSameSize(Elements(DictJobs(d)), jobs);
    }
    if jobs <= Elements(DictJobs(d)) {
      assert jobs == Elements(DictJobs(d));
    }
  }

  /** A closed walk: each node is adjacent to the next, the last to the first. */
  ghost predicate IsClosedWalk(es: set<Edge>, walk: seq<Node>)
  {
    forall k :: 0 <= k < |walk| ==> Adjacent(es, walk[k], Successor(walk, k))
  }

  /** The node after position k, wrapping round at the end. */
  function Successor(walk: seq<Node>, k: nat): Node
    requires k < |walk|
  {
    if k + 1 < |walk| then walk[k + 1] else walk[0]
  }

  lemma {:induction false} WalkAlternates(es: set<Edge>, walk: seq<Node>, k: nat)
    requires IsClosedWalk(es, walk) && k < |walk|
    ensures walk[k].Machine? <==> (walk[0].Machine? <==> k % 2 == 0)
  {
    if k > 0 {
      WalkAlternates(es, walk, k - 1);
      assert Adjacent(es, walk[k - 1], Successor(walk, k - 1));
    }
  }

  /** Every closed walk of a bipartite graph has even length, so the cycle
      parity test of match_cycle_component never rejects a cycle. */
  lemma ClosedWalkIsEven(es: set<Edge>, walk: seq<Node>)
    requires IsClosedWalk(es, walk) && |walk| > 0
    ensures |walk| % 2 == 0
  {
    var last := |walk| - 1;
    WalkAlternates(es, walk, last);
    assert Adjacent(es, walk[last], Successor(walk, last));
  }

  /** The edge between two adjacent nodes, as a (machine, job) key. */
  function EdgeBetween(u: Node, w: Node): (e: Edge)
    requires u.Machine? != w.Machine?
    ensures forall es :: Adjacent(es, u, w) <==> e in es
  {
    if u.Machine? then (u.i, w.j) else (w.i, u.j)
  }

  /** What match_cycle_component does as written. */
  datatype CycleStep = Returned(success: bool) | FrozenGraphError

  /** match_cycle_component as written: `remove_edge` is called on the
      read-only view `graph.subgraph(component)`, which raises as soon as an
      even cycle is found. */
  function CycleStepAsWritten(sub: set<Node>, cycle: seq<Node>): (r: CycleStep)
    ensures r == Returned(false) <==> sub == {} || |cycle| == 0 || |cycle| % 2 != 0
    ensures r.Returned? ==> !r.success
  {
    if |sub| == 0 then Returned(false)
    else if |cycle| == 0 || |cycle| % 2 != 0 then Returned(false)
    else FrozenGraphError
  }

  /** Every non-empty component for which a cycle is found makes the
      as-written cycle step raise, since cycles of a bipartite graph are even. */
  lemma CycleStepAlwaysRaises(es: set<Edge>, sub: set<Node>, cycle: seq<Node>)
    requires sub != {} && |cycle| > 0 && IsClosedWalk(es, cycle)
    ensures CycleStepAsWritten(sub, cycle) == FrozenGraphError
  {
    ClosedWalkIsEven(es, cycle);
  }

  /** The pairs appended to ms from position start on are edges, their jobs
      lie in u, and no job occurs twice among them. */
  ghost predicate AppendedSince(ms: seq<Key>, start: nat, edges: set<Edge>, u: set<Node>)
  {
    && start <= |ms|
    && (forall a :: start <= a < |ms| ==> ms[a] in edges && Job(ms[a].1) in u)
    && (forall a, b :: start <= a < b < |ms| ==> ms[a].1 != ms[b].1)
  }

  /** Appending a well-matched chunk from a component disjoint from every
      earlier one keeps the jobs of the appended pairs distinct. */
  lemma ChunkAppended(edges: set<Edge>, es: set<Edge>, c: set<Node>, u: set<Node>,
                      before: seq<Key>, start: nat, dict: seq<(Node, Node)>)
    requires WellMatched(c, es, dict) && es <= edges && u !! c
    requires AppendedSince(before, start, edges, u)
    ensures AppendedSince(before + PairKeys(dict), start, edges, u + c)
  {
    var after := before + PairKeys(dict);
    forall a | |before| <= a < |after|
      ensures after[a] == (dict[a - |before|].1.i, dict[a - |before|].0.j)
      ensures after[a] in edges && Job(after[a].1) == dict[a - |before|].0 && Job(after[a].1) in c
    {
      var k := a - |before|;
      assert dict[k].0 in JobsAmong(c) && Adjacent(es, dict[k].0, dict[k].1);
    }
    forall a, b | start <= a < b < |after| ensures after[a].1 != after[b].1 {
      if b >= |before| && a >= |before| {
        assert DictJobs(dict)[a - |before|] != DictJobs(dict)[b - |before|];
      }
    }
  }

  /** What one round of matching_process leaves for component c with edges
      es: a tree (one edge fewer than nodes) is tree-matched; any other
      component is tree-matched without the first edge of its cycle when
      that cycle is non-empty and even, and left unmatched otherwise. */
  ghost predicate ComponentMatched(c: set<Node>, es: set<Edge>, m: nat, n: nat, cycle: seq<Node>,
                                   dict: seq<(Node, Node)>)
  {
    if |es| + 1 == |c| then
      exists order, parents, success :: TreeMatched(c, es, m, n, dict, order, parents, success)
    else if c != {} && |cycle| > 0 && |cycle| % 2 == 0 then
      exists order, parents, success :: TreeMatched(c, DropFirstEdge(es, cycle), m, n, dict, order, parents, success)
    else
      dict == []
  }

  /** dicts[k] is what the k-th component of cs was matched with. */
  ghost predicate ComponentsMatched(edges: set<Edge>, m: nat, n: nat, cs: seq<set<Node>>,
                                    firstCycle: (set<Node>, set<Edge>) -> seq<Node>, dicts: seq<seq<(Node, Node)>>)
  {
    && |dicts| == |cs|
    && forall k :: 0 <= k < |cs| ==>
         ComponentMatched(cs[k], EdgesIn(edges, cs[k]), m, n, firstCycle(cs[k], EdgesIn(edges, cs[k])), dicts[k])
  }

  /** The pairs of every dict, in order. */
  function AllPairKeys(dicts: seq<seq<(Node, Node)>>): seq<Key>
  {
    if dicts == [] then [] else AllPairKeys(dicts[..|dicts| - 1]) + PairKeys(dicts[|dicts| - 1])
  }

  lemma ComponentsMatchedStep(edges: set<Edge>, m: nat, n: nat, cs: seq<set<Node>>, k: nat,
                              firstCycle: (set<Node>, set<Edge>) -> seq<Node>,
                              dicts: seq<seq<(Node, Node)>>, dict: seq<(Node, Node)>)
    requires k < |cs| && ComponentsMatched(edges, m, n, cs[..k], firstCycle, dicts)
    requires ComponentMatched(cs[k], EdgesIn(edges, cs[k]), m, n, firstCycle(cs[k], EdgesIn(edges, cs[k])), dict)
    ensures ComponentsMatched(edges, m, n, cs[..k + 1], firstCycle, dicts + [dict])
  {
    var cs', ds' := cs[..k + 1], dicts + [dict];
    forall l | 0 <= l < |cs'|
      ensures ComponentMatched(cs'[l], EdgesIn(edges, cs'[l]), m, n, firstCycle(cs'[l], EdgesIn(edges, cs'[l])), ds'[l])
    {
      if l < k {
        assert cs'[l] == cs[..k][l] && ds'[l] == dicts[l];
      } else {
        assert cs'[l] == cs[k] && ds'[l] == dict;
      }
    }
  }

  lemma AllPairKeysAppend(ms0: seq<Key>, ms: seq<Key>, dicts: seq<seq<(Node, Node)>>, dict: seq<(Node, Node)>)
    requires ms == ms0 + AllPairKeys(dicts)
    ensures ms + PairKeys(dict) == ms0 + AllPairKeys(dicts + [dict])
  {
    assert (dicts + [dict])[..|dicts|] == dicts;
  }

  /** matching_process after k components: ms is ms0 followed by the pairs
      of their dicts, each dict is what its component was matched with, and
      the jobs of the appended pairs are distinct and lie in those
      components. */
  ghost predicate MatchedUpTo(edges: set<Edge>, m: nat, n: nat, cs: seq<set<Node>>, k: nat,
                              firstCycle: (set<Node>, set<Edge>) -> seq<Node>, ms0: seq<Key>, ms: seq<Key>,
                              dicts: seq<seq<(Node, Node)>>)
  {
    && k <= |cs|
    && ms == ms0 + AllPairKeys(dicts)
    && AppendedSince(ms, |ms0|, edges, UnionOf(cs[..k]))
    && ComponentsMatched(edges, m, n, cs[..k], firstCycle, dicts)
  }

  /** One round of matching_process keeps what the loop knows: appending
      the pairs of components[k]'s dict extends the per-component record
      and keeps the jobs of the appended pairs distinct. */
  lemma MatchingRound(nodes: set<Node>, edges: set<Edge>, m: nat, n: nat, cs: seq<set<Node>>, k: nat,
                      firstCycle: (set<Node>, set<Edge>) -> seq<Node>, ms0: seq<Key>, before: seq<Key>,
                      dicts: seq<seq<(Node, Node)>>, dict: seq<(Node, Node)>)
    requires IsComponentList(nodes, edges, cs) && k < |cs|
    requires MatchedUpTo(edges, m, n, cs, k, firstCycle, ms0, before, dicts)
    requires WellMatched(cs[k], EdgesIn(edges, cs[k]), dict)
    requires ComponentMatched(cs[k], EdgesIn(edges, cs[k]), m, n, firstCycle(cs[k], EdgesIn(edges, cs[k])), dict)
    ensures MatchedUpTo(edges, m, n, cs, k + 1, firstCycle, ms0, before + PairKeys(dict), dicts + [dict])
  {
    ComponentsMatchedStep(edges, m, n, cs, k, firstCycle, dicts, dict);
    AllPairKeysAppend(ms0, before, dicts, dict);
    UnionMembership(cs[..k]);
    assert cs[..k + 1][..k] == cs[..k];
    ChunkAppended(edges, EdgesIn(edges, cs[k]), cs[k], UnionOf(cs[..k]), before, |ms0|, dict);
  }

  /** After scanning order[..k]: found lists distinct components, seen is
      their union, and every node scanned so far is in one of them. */
  ghost predicate ComponentScan(nodes: set<Node>, edges: set<Edge>, order: seq<Node>, k: nat,
                                found: seq<set<Node>>, seen: set<Node>)
  {
    && k <= |order|
    && seen == UnionOf(found) && seen <= nodes
    && (forall l :: 0 <= l < k && order[l] in nodes ==> order[l] in seen)
    && IsPartialComponentList(nodes, edges, found)
  }

  lemma ScanNewComponent(nodes: set<Node>, edges: set<Edge>, order: seq<Node>, k: nat,
                         found: seq<set<Node>>, seen: set<Node>, c: set<Node>)
    requires ComponentScan(nodes, edges, order, k, found, seen) && k < |order|
    requires order[k] !in seen && c <= nodes && IsComponentOf(edges, c, order[k])
    ensures ComponentScan(nodes, edges, order, k + 1, found + [c], seen + c)
  {
    ExtendComponentList(nodes, edges, found, c, order[k]);
  }

  lemma ScanDone(nodes: set<Node>, edges: set<Edge>, order: seq<Node>, found: seq<set<Node>>, seen: set<Node>)
    requires ComponentScan(nodes, edges, order, |order|, found, seen) && nodes <= Elements(order)
    ensures IsComponentList(nodes, edges, found)
  {
    forall u | u in nodes ensures u in seen {
      assert u in Elements(order);
      var l :| 0 <= l < |order| && order[l] == u;
    }
  }

  /** A newly found component is disjoint from the earlier ones, so the
      list stays a list of distinct components. */
  lemma ExtendComponentList(nodes: set<Node>, edges: set<Edge>, cs: seq<set<Node>>, c: set<Node>, v: Node)
    requires IsPartialComponentList(nodes, edges, cs)
    requires c <= nodes && IsComponentOf(edges, c, v) && v !in UnionOf(cs)
    ensures UnionOf(cs + [c]) == UnionOf(cs) + c
    ensures IsPartialComponentList(nodes, edges, cs + [c])
  {
    var cs' := cs + [c];
    ComponentOfIsComponent(edges, c, v);
    assert cs'[..|cs|] == cs;
    assert forall l :: 0 <= l < |cs| ==> cs'[l] == cs[l];
    UnionMembership(cs);
    forall l | 0 <= l < |cs| ensures cs[l] !! c {
      ComponentsMeet(edges, cs[l], c);
      assert v !in cs[l];
    }
    forall l, l' | 0 <= l < l' < |cs'| ensures cs'[l] !! cs'[l'] {
      if l' == |cs| {
        assert cs'[l] == cs[l] && cs'[l'] == c;
      } else {
        assert cs'[l] == cs[l] && cs'[l'] == cs[l'];
      }
    }
  }

  /** `add_node` for m0..m(m-1), then for j0..j(n-1). */
  method AddNodes(m: nat, n: nat) returns (nodes: set<Node>)
    ensures nodes == AllNodes(m, n)
  {
    nodes := {};
    for i := 0 to m
      invariant nodes == set k | 0 <= k < i :: Machine(k)
    {
      nodes := nodes + {Machine(i)};
    }
    for j := 0 to n
      invariant nodes == (set k | 0 <= k < m :: Machine(k)) + (set k | 0 <= k < j :: Job(k))
    {
      nodes := nodes + {Job(j)};
    }
  }

  /** `add_edge` for every key of the LP solution whose value is positive. */
  method AddEdges(x: map<Key, real>) returns (edges: set<Edge>)
    ensures edges == SupportEdges(x)
  {
    edges := {};
    var pending := x.Keys;
    assert x.Keys - pending == {};
    while pending != {}
      invariant pending <= x.Keys
      invariant edges == set k | k in x.Keys - pending && x[k] > 0.0
      decreases |pending|
    {
      var k :| k in pending;
      if x[k] > 0.0 {
        edges := edges + {k};
      }
      pending := pending - {k};
    }
  }

  class BipartiteGraph {
    const m: nat
    const n: nat
    /** The LP solution the graph is built from. */
    const lpSolution: map<Key, real>
    var nodes: set<Node>
    var edges: set<Edge>
    var components: seq<set<Node>>
    var isPseudoforest: bool
    /** The (machine, job) pairs chosen so far, in the order they were appended. */
    var matching: seq<Key>

    ghost predicate Valid()
      reads this
    {
      && nodes <= AllNodes(m, n)
      && (forall i :: 0 <= i < m ==> Machine(i) in nodes)
      && WellFormed(nodes, edges)
      && edges <= SupportEdges(lpSolution)
    }

    /** Graph G(x) (steps 1-3): every machine and job node, an edge for every
        key whose value is positive, the components, and the pseudoforest test. */
    constructor (x: map<Key, real>, machines: nat, jobs: nat)
      requires forall k :: k in x ==> 0 <= k.0 < machines && 0 <= k.1 < jobs
      ensures m == machines && n == jobs && lpSolution == x
      ensures Valid()
      ensures nodes == AllNodes(m, n) && edges == SupportEdges(x)
      ensures IsComponentList(nodes, edges, components)
      ensures isPseudoforest <==> IsPseudoforest(nodes, edges)
      ensures matching == []
    {
      var ns := AddNodes(machines, jobs);
      var es := AddEdges(x);
      m, n, lpSolution := machines, jobs, x;
      nodes, edges := ns, es;
      components, isPseudoforest, matching := [], true, [];
      new;
      SupportWellFormed(x, m, n);
      MachinesInAllNodes(m, n);
      assert Valid();
      FindConnectedComponents();
      CheckPseudoforestProperty();
    }

    /** The nodes adjacent to u. */
    function Neighbours(u: Node): set<Node>
      reads this
    {
      set w | w in nodes && Adjacent(edges, u, w)
    }

    /** The connected component of v, grown from v along edges. */
    method ComponentOf(v: Node) returns (c: set<Node>)
      requires Valid() && v in nodes
      ensures c <= nodes && IsComponentOf(edges, c, v)
    {
      c := {v};
      var frontier := {v};
      while frontier != {}
        invariant c <= nodes && v in c && frontier <= c
        invariant forall t :: v in t && Closed(edges, t) ==> c <= t
        invariant forall u, w :: u in c - frontier && Adjacent(edges, u, w) ==> w in c
        decreases nodes - c, frontier
      {
        var u :| u in frontier;
        var reached := Neighbours(u) - c;
        c := c + reached;
        frontier := frontier - {u} + reached;
      }
    }

    /** `list(nx.connected_components(graph))`: starting from each node in
        insertion order that no earlier component holds. */
    method FindConnectedComponents()
      requires Valid()
      modifies this`components
      ensures IsComponentList(nodes, edges, components)
    {
      var found: seq<set<Node>> := [];
      var seen: set<Node> := {};
      var order := NodeOrder(m, n);
      for k := 0 to |order|
        invariant ComponentScan(nodes, edges, order, k, found, seen)
      {
        var v := order[k];
        if v in nodes && v !in seen {
          var c := ComponentOf(v);
          ScanNewComponent(nodes, edges, order, k, found, seen, c);
          found := found + [c];
          seen := seen + c;
        }
      }
      ScanDone(nodes, edges, order, found, seen);
      components := found;
    }

    /** Step 3: clears the flag when the graph, or the first component found,
        has more edges than nodes, so that it stays set exactly when the graph
        is a pseudoforest. */
    method CheckPseudoforestProperty()
      requires Valid() && IsComponentList(nodes, edges, components)
      modifies this`isPseudoforest
      ensures isPseudoforest == (old(isPseudoforest) && IsPseudoforest(nodes, edges))
    {
      var ns, es, cs := nodes, edges, components;
      PseudoforestTest(ns, es, cs);
      if |es| > |ns| {
        isPseudoforest := false;
      }
      for k := 0 to |cs|
        invariant isPseudoforest == (old(isPseudoforest) && |es| <= |ns|)
        invariant SparseUpTo(es, cs, k)
      {
        if |EdgesIn(es, cs[k])| > |cs[k]| {
          isPseudoforest := false;
          return;
        }
        SparseStep(es, cs, k);
      }
    }

    /** Step 4: removes every job node of degree 1, with its edge. */
    method RemoveSingleDegreeJobs()
      requires Valid()
      modifies this`nodes, this`edges
      ensures Valid()
      ensures nodes == old(nodes) - SingleDegreeJobs(old(nodes), old(edges))
      ensures edges == old(edges) - EdgesAtJobs(old(edges), SingleDegreeJobs(old(nodes), old(edges)))
    {
      var n0, e0 := nodes, edges;
      var single := SingleDegreeJobs(n0, e0);
      var ns, es := RemoveJobs(n0, e0, single);
      RemovalKeepsGraph(n0, e0, single);
      nodes, edges := ns, es;
    }

    /** Entering an unvisited node: it is marked visited with its parent, and
        a job is matched to its first neighbour other than the parent. */
    method Enter(sub: set<Node>, es: set<Edge>, node: Node, parent: Option<Node>, ns: seq<Node>,
                 visited: set<Node>, dict: seq<(Node, Node)>, matched: set<Node>,
                 ghost parents: map<Node, Option<Node>>, ghost order: seq<Node>, ghost tree: set<Edge>)
      returns (visited': set<Node>, dict': seq<(Node, Node)>, matched': set<Node>,
               ghost parents': map<Node, Option<Node>>, ghost order': seq<Node>, ghost tree': set<Edge>)
      requires IsSubgraph(sub, es, m, n) && node in sub && visited <= sub && node !in visited
      requires parent.Some? ==> Adjacent(es, parent.value, node) && parent.value in visited
      requires parent.None? <==> visited == {}
      requires ns == NeighbourList(es, node, m, n)
      requires MatchState(es, m, n, visited, dict, matched, parents)
      requires SearchTree(es, visited, parents, order, tree)
      ensures visited' == visited + {node} && parents' == parents[node := parent]
      ensures dict' == EnteredDict(es, m, n, dict, node, parent) && matched' == Elements(DictMachines(dict'))
      ensures order' == order + [node] && tree' == EnteredTree(tree, node, parent)
      ensures MatchState(es, m, n, visited', dict', matched', parents')
      ensures SearchTree(es, visited', parents', order', tree')
    {
      visited', parents' := visited + {node}, parents[node := parent];
      order', tree' := order + [node], EnteredTree(tree, node, parent);
      dict', matched' := dict, matched;
      if node.Job? {
        var first := FirstOther(ns, parent);
        if first.Some? {
          dict' := dict' + [(node, first.value)];
          matched' := matched' + {first.value};
        }
      }
      assert dict' == EnteredDict(es, m, n, dict, node, parent);
      EnterKeepsState(es, m, n, visited, dict, matched, parents, node, parent);
      EnterDict(dict, visited, dict', node);
      EnterOrder(visited, parents, order, node, parent);
      EnterTreeEdges(es, visited, parents, tree, node, parent);
    }

    /** The recursive `dfs(node, parent)` of match_tree_component. The source
        keeps no visited set, so reaching a node a second time means the walk
        goes round a cycle for ever and ends in a RecursionError; the model
        reports that outcome as soon as a node is reached twice. A search that
        ends normally has reached every neighbour of every node it entered; one
        that reached a node twice has found an edge among its nodes beyond the
        edges it went along. */
    method Dfs(sub: set<Node>, es: set<Edge>, node: Node, parent: Option<Node>,
               visited: set<Node>, dict: seq<(Node, Node)>, matched: set<Node>,
               ghost parents: map<Node, Option<Node>>, ghost order: seq<Node>, ghost tree: set<Edge>)
      returns (ok: bool, visited': set<Node>, dict': seq<(Node, Node)>, matched': set<Node>,
               ghost parents': map<Node, Option<Node>>, ghost order': seq<Node>, ghost tree': set<Edge>)
      requires IsSubgraph(sub, es, m, n) && node in sub && visited <= sub
      requires parent.Some? ==> Adjacent(es, parent.value, node)
      requires MatchState(es, m, n, visited, dict, matched, parents)
      requires SearchTree(es, visited, parents, order, tree)
      requires parent.None? <==> visited == {}
      requires parent.Some? ==> parent.value in visited && parents[parent.value] != Some(node)
      requires parent.Some? && node in visited ==> parents[node] != parent
      ensures visited <= visited' <= sub && node in visited'
      ensures MatchState(es, m, n, visited', dict', matched', parents')
      ensures SearchTree(es, visited', parents', order', tree')
      ensures Extends(parents, parents') && EnteredBelow(parents, parents', node)
      ensures node !in visited ==> parents'[node] == parent
      ensures ok ==> ClosedBeyond(es, visited, visited')
      ensures !ok ==> |tree'| < |EdgesIn(es, visited')|
      decreases sub - visited
    {
      if node in visited {
        RevisitExtraEdge(es, visited, parents, order, tree, node, parent.value);
        return false, visited, dict, matched, parents, order, tree;
      }
      var ns := NeighbourList(es, node, m, n);
      visited', dict', matched', parents', order', tree' := Enter(sub, es, node, parent, ns, visited, dict, matched, parents, order, tree);
      ghost var entered := parents';
      StartChildren(es, ns, node, parent, visited, parents, order);
      for k := 0 to |ns|
        invariant visited + {node} <= visited' <= sub
        invariant MatchState(es, m, n, visited', dict', matched', parents')
        invariant SearchTree(es, visited', parents', order', tree')
        invariant ChildrenSearched(es, ns, k, node, visited, parents, entered, visited', parents')
      {
        if Some(ns[k]) == parent {
          SkipParent(es, ns, k, node, visited, parents, entered, visited', parents');
        } else {
          assert Adjacent(es, node, ns[k]);
          assert parents'[node] == parent;
          assert ns[k] !in ns[..k];
          ghost var v1, p1 := visited', parents';
          ok, visited', dict', matched', parents', order', tree' :=
            Dfs(sub, es, ns[k], Some(node), visited', dict', matched', parents', order', tree');
          ChildSearched(es, ns, k, node, visited, parents, entered, v1, p1, visited', parents', ok);
          if !ok {
            EnteredExtends(parents, parents', node, parent);
            return;
          }
        }
      }
      EnteredExtends(parents, parents', node, parent);
      ok := true;
      forall v | Adjacent(es, node, v) ensures v in visited' {
        NodeIndex(m, n, v);
        assert v in ns;
      }
    }

    /** match_tree_component: no job in the component gives false; otherwise
        the search starts at a job (`job_nodes[0]`, whichever job the view
        lists first), the dict is appended to `matching` as (machine, job)
        index pairs whatever the outcome, and success is the two count tests.
        On a tree component the search never reaches a node twice, and it
        succeeds when there is a job and every job has two edges or more. */
    method MatchTreeComponent(sub: set<Node>, es: set<Edge>)
      returns (r: Result<bool>, ghost dict: seq<(Node, Node)>, ghost order: seq<Node>,
               ghost parents: map<Node, Option<Node>>)
      requires IsSubgraph(sub, es, m, n)
      modifies this`matching
      ensures r.RecursionError? ==> matching == old(matching)
      ensures r.Ok? ==> matching == old(matching) + PairKeys(dict) && TreeMatched(sub, es, m, n, dict, order, parents, r.value)
      ensures r.Ok? ==> WellMatched(sub, es, dict)
      ensures JobsAmong(sub) == {} ==> r == Ok(false) && dict == []
      ensures IsTreeComponent(es, sub) ==> r.Ok?
      ensures IsTreeComponent(es, sub) && JobsBranch(sub, es) ==> r == Ok(true)
    {
      var jobNodes := JobsAmong(sub);
      if jobNodes == {} {
        return Ok(false), [], [], map[];
      }
      var root :| root in jobNodes;
      var ok, visited, d, matched;
      ghost var tree;
      ok, visited, d, matched, parents, order, tree := Dfs(sub, es, root, None, {}, [], {}, map[], [], {});
      dict := d;
      if !ok {
        if IsComponent(es, sub) {
          RevisitMeansNotTree(es, sub, visited, tree);
        }
        return RecursionError, dict, order, parents;
      }
      var isSuccessful := true;
      if |matched| != |d| {
        isSuccessful := false;
      }
      if |matched| != |jobNodes| {
        isSuccessful := false;
      }
      assert isSuccessful == (|matched| == |d| && |matched| == |jobNodes|);
      TreeOutcome(sub, es, m, n, visited, d, matched, parents, order, root);
      if IsTreeComponent(es, sub) && JobsBranch(sub, es) {
        TreeSearchMatchesAll(sub, es, m, n, visited, d, matched, parents, order, tree);
      }
      AppendPairs(d);
      r := Ok(isSuccessful);
    }

    /** `self.matching.append((int(machine[1:]), int(job[1:])))` for every
        dict entry in order: the labels give back the node indices. */
    method AppendPairs(d: seq<(Node, Node)>)
      requires forall k :: 0 <= k < |d| ==> d[k].0.Index() >= 0 && d[k].1.Index() >= 0
      modifies this`matching
      ensures matching == old(matching) + PairKeys(d)
    {
      for k := 0 to |d|
        invariant matching == old(matching) + PairKeys(d[..k])
      {
        var entry := d[k];
        LabelRoundTrip(entry.1);
        LabelRoundTrip(entry.0);
        assert PairKeys(d[..k + 1]) == PairKeys(d[..k]) + [(entry.1.Index(), entry.0.Index())];
        matching := matching + [(LabelIndex(Label(entry.1)), LabelIndex(Label(entry.0)))];
      }
      assert d[..|d|] == d;
    }

    /** match_cycle_component with the edge dropped from a copy of the
        component: false for an empty component, no cycle, or an odd cycle;
        otherwise the first edge of the cycle is dropped, the rest is
        tree-matched and true is returned whatever that matching reports. */
    method MatchCycleComponent(sub: set<Node>, es: set<Edge>, cycle: seq<Node>) returns (r: Result<bool>, ghost dict: seq<(Node, Node)>)
      requires IsSubgraph(sub, es, m, n)
      modifies this`matching
      ensures r.RecursionError? ==> matching == old(matching)
      ensures r.Ok? ==> matching == old(matching) + PairKeys(dict)
      ensures r.Ok? ==> (r.value <==> sub != {} && |cycle| > 0 && |cycle| % 2 == 0)
      ensures r.Ok? && r.value ==>
                exists order, parents, success :: TreeMatched(sub, DropFirstEdge(es, cycle), m, n, dict, order, parents, success)
      ensures r.Ok? ==> WellMatched(sub, es, dict)
      ensures r == Ok(false) ==> dict == []
    {
      dict := [];
      if |sub| == 0 {
        return Ok(false), dict;
      }
      if |cycle| == 0 || |cycle| % 2 != 0 {
        return Ok(false), dict;
      }
      var kept := DropFirstEdge(es, cycle);
      var t;
      ghost var order, parents;
      t, dict, order, parents := MatchTreeComponent(sub, kept);
      if t.RecursionError? {
        return RecursionError, dict;
      }
      r := Ok(true);
    }

    /** One round of matching_process: a tree component is tree-matched,
        any other one cycle-matched. */
    method MatchComponent(c: set<Node>, es: set<Edge>, firstCycle: (set<Node>, set<Edge>) -> seq<Node>)
      returns (r: Result<bool>, ghost dict: seq<(Node, Node)>)
      requires IsSubgraph(c, es, m, n)
      modifies this`matching
      ensures r.RecursionError? ==> matching == old(matching)
      ensures r.Ok? ==> matching == old(matching) + PairKeys(dict) && WellMatched(c, es, dict)
      ensures r.Ok? ==> ComponentMatched(c, es, m, n, firstCycle(c, es), dict)
      ensures r.Ok? && |es| + 1 == |c| ==> exists order, parents :: TreeMatched(c, es, m, n, dict, order, parents, r.value)
      ensures IsTreeComponent(es, c) ==> r.Ok?
      ensures IsTreeComponent(es, c) && JobsBranch(c, es) ==> r == Ok(true)
      ensures r.Ok? && |es| + 1 != |c| ==>
                (r.value <==> c != {} && |firstCycle(c, es)| > 0 && |firstCycle(c, es)| % 2 == 0)
    {
      if |es| + 1 == |c| {
        ghost var order, parents;
        r, dict, order, parents := MatchTreeComponent(c, es);
      } else {
        r, dict := MatchCycleComponent(c, es, firstCycle(c, es));
      }
    }

    /** One round of matching_process, on the k-th component: after it the
        first k + 1 components are matched, unless its search stopped, which
        happens only on a component that is not a tree. */
    method MatchComponentAt(k: nat, firstCycle: (set<Node>, set<Edge>) -> seq<Node>,
                            ghost ms0: seq<Key>, ghost dicts: seq<seq<(Node, Node)>>)
      returns (r: Result<bool>, ghost dict: seq<(Node, Node)>)
      requires Valid() && IsComponentList(nodes, edges, components) && k < |components|
      requires MatchedUpTo(edges, m, n, components, k, firstCycle, ms0, matching, dicts)
      modifies this`matching
      ensures r.RecursionError? ==> HasNonTreeComponent(nodes, edges)
      ensures r.Ok? ==> MatchedUpTo(edges, m, n, components, k + 1, firstCycle, ms0, matching, dicts + [dict])
    {
      var c := components[k];
      var es := EdgesIn(edges, c);
      ghost var before := matching;
      assert IsSubgraph(c, es, m, n);
      r, dict := MatchComponent(c, es, firstCycle);
      if r.RecursionError? {
        NonTreeWitness(nodes, edges, components, k);
        return;
      }
      MatchingRound(nodes, edges, m, n, components, k, firstCycle, ms0, before, dicts, dict);
    }

    /** matching_process: each component goes to tree matching when it has
        one edge fewer than nodes (a connected graph with that many edges is
        a tree), otherwise to cycle matching with the cycle the finder
        reports; the outcomes are ignored, but an exception propagates. */
    method MatchingProcess(firstCycle: (set<Node>, set<Edge>) -> seq<Node>)
      returns (r: Result<()>, ghost dicts: seq<seq<(Node, Node)>>)
      requires Valid() && IsComponentList(nodes, edges, components)
      modifies this`matching
      ensures r.Ok? ==> matching == old(matching) + AllPairKeys(dicts)
      ensures r.Ok? ==> ComponentsMatched(edges, m, n, components, firstCycle, dicts)
      ensures r.Ok? ==> |old(matching)| <= |matching| && matching[..|old(matching)|] == old(matching)
      ensures r.Ok? ==> forall a :: |old(matching)| <= a < |matching| ==> matching[a] in edges
      ensures r.Ok? ==> forall a, b :: |old(matching)| <= a < b < |matching| ==> matching[a].1 != matching[b].1
      ensures r.Ok? ==> AppendedSince(matching, |old(matching)|, edges, nodes)
      ensures r.RecursionError? ==> HasNonTreeComponent(nodes, edges)
    {
      ghost var start := |matching|;
      dicts := [];
      for k := 0 to |components|
        invariant MatchedUpTo(edges, m, n, components, k, firstCycle, old(matching), matching, dicts)
      {
        var result, dict := MatchComponentAt(k, firstCycle, old(matching), dicts);
        if result.RecursionError? {
          return RecursionError, dicts;
        }
        dicts := dicts + [dict];
      }
      assert components[..|components|] == components;
      assert matching[..start] == old(matching);
      r := Ok(());
    }

    /** Graph G' and its matching (the object the rounding builds from G's
        graph): steps 4 and 5 of BipartiteGraph.py's constructor, on the same
        graph -- remove the degree-1 jobs, recompute the components, match
        each one. A pair is matched only along an edge of G', so only where
        the LP solution is positive, and no job is matched twice. */
    method ReduceAndMatch(firstCycle: (set<Node>, set<Edge>) -> seq<Node>)
      returns (r: Result<()>, ghost dicts: seq<seq<(Node, Node)>>)
      requires Valid()
      modifies this`nodes, this`edges, this`components, this`matching
      ensures Valid()
      ensures nodes == old(nodes) - SingleDegreeJobs(old(nodes), old(edges))
      ensures edges == old(edges) - EdgesAtJobs(old(edges), SingleDegreeJobs(old(nodes), old(edges)))
      ensures IsComponentList(nodes, edges, components)
      ensures r.Ok? ==> |old(matching)| <= |matching| && matching[..|old(matching)|] == old(matching)
      ensures r.Ok? ==> forall a :: |old(matching)| <= a < |matching| ==> matching[a] in edges && matching[a] in SupportEdges(lpSolution)
      ensures r.Ok? ==> forall a, b :: |old(matching)| <= a < b < |matching| ==> matching[a].1 != matching[b].1
      ensures r.Ok? ==> matching == old(matching) + AllPairKeys(dicts)
      ensures r.Ok? ==> ComponentsMatched(edges, m, n, components, firstCycle, dicts)
      ensures r.RecursionError? ==> HasNonTreeComponent(nodes, edges)
    {
      RemoveSingleDegreeJobs();
      FindConnectedComponents();
      r, dicts := MatchingProcess(firstCycle);
    }
  }
}
