/**
  The graph built by the `__main__` block of djikastra.py: five nodes with ids 0..4 and six
  weighted edges, solved from id 0 to id 3. The states below are what the main loop of `solve`
  leaves after each iteration; each is proved to be the next one's predecessor.
*/
module SampleGraph {
  import opened GraphStore
  import opened PathSolver

  /** The arena after the five `add_node` and six `add_edge` calls, neighbours in insertion order. */
  function Sample(): Topology
  {
    Topology([0, 1, 2, 3, 4], [[(1, 4), (2, 1)], [(3, 1)], [(1, 2), (3, 5)], [(4, 3)], []], {0, 1, 2, 3, 4})
  }

  /** The traversal fields of five fresh nodes added to the graph. */
  function Blank(): TraversalState
  {
    TraversalState([Inf, Inf, Inf, Inf, Inf], [None, None, None, None, None],
                   [false, false, false, false, false], {}, {0, 1, 2, 3, 4})
  }

  function Round0(): TraversalState
  {
    Blank().(distance := [Fin(0), Inf, Inf, Inf, Inf])
  }

  function Round1(): TraversalState
  {
    TraversalState([Fin(0), Fin(4), Fin(1), Inf, Inf], [None, Some(0), Some(0), None, None],
                   [true, false, false, false, false], {0}, {1, 2, 3, 4})
  }

  function Round2(): TraversalState
  {
    TraversalState([Fin(0), Fin(3), Fin(1), Fin(6), Inf], [None, Some(2), Some(0), Some(2), None],
                   [true, false, true, false, false], {0, 2}, {1, 3, 4})
  }

  function Round3(): TraversalState
  {
    TraversalState([Fin(0), Fin(3), Fin(1), Fin(4), Inf], [None, Some(2), Some(0), Some(1), None],
                   [true, true, true, false, false], {0, 1, 2}, {3, 4})
  }

  function Round4(): TraversalState
  {
    TraversalState([Fin(0), Fin(3), Fin(1), Fin(4), Fin(7)], [None, Some(2), Some(0), Some(1), Some(3)],
                   [true, true, true, true, false], {0, 1, 2, 3}, {4})
  }

  function Round5(): TraversalState
  {
    TraversalState([Fin(0), Fin(3), Fin(1), Fin(4), Fin(7)], [None, Some(2), Some(0), Some(1), Some(3)],
                   [true, true, true, true, true], {0, 1, 2, 3, 4}, {})
  }

  lemma SampleWellFormed()
    ensures WellFormed(Sample())
  {
    var t := Sample();
    forall a, e | 0 <= a < |t.adj| && e in t.adj[a]
      ensures e.0 in t.nodes
    {
      assert a == 0 || a == 1 || a == 2 || a == 3 || a == 4;
    }
  }

  lemma SampleShape()
    ensures WellFormed(Sample()) && Fits(Sample(), Blank()) && Fresh(Sample(), Blank())
    ensures HasNode(Sample(), 0) && HasNode(Sample(), 3)
    ensures Lookup(Sample(), 0) == 0 && Lookup(Sample(), 3) == 3
  {
    SampleWellFormed();
    SampleFresh();
    SampleLookup();
  }

  lemma SampleFresh()
    ensures Fits(Sample(), Blank()) && Fresh(Sample(), Blank())
  {
  }

  /** The lookups of ids 0 and 3 find handles 0 and 3. */
  lemma SampleLookup()
    ensures WellFormed(Sample()) && HasNode(Sample(), 0) && HasNode(Sample(), 3)
    ensures Lookup(Sample(), 0) == 0 && Lookup(Sample(), 3) == 3
  {
    SampleWellFormed();
    var t := Sample();
    assert t.ids[0] == 0 && t.ids[3] == 3;
    assert LastWithId(t.ids, t.nodes, 0, 5) == Some(0);
    assert LastWithId(t.ids, t.nodes, 3, 5) == Some(3);
  }

  /** A state of five nodes whose flags match its visited set is consistent with the sample. */
  lemma SampleConsistent(s: TraversalState)
    requires Sized(s, 5) && forall v | 0 <= v < 5 && s.previous[v].Some? :: s.previous[v].value < 5
    requires s.visited !! s.unvisited && s.visited + s.unvisited == {0, 1, 2, 3, 4}
    requires forall v | 0 <= v < 5 :: s.isVisited[v] <==> v in s.visited
    ensures Consistent(Sample(), s)
  {
    SampleWellFormed();
  }

  /** The source lookup sets node 0 to distance 0. */
  lemma SampleStarted()
    ensures Fits(Sample(), Blank()) && Started(Sample(), Blank(), 0) == Round0()
  {
    var r := Started(Sample(), Blank(), 0);
    assert r.distance == Round0().distance;
  }

  /** Relaxing a two-entry neighbour list is two point updates. */
  lemma RelaxedTwo(es: seq<Edge>, s: TraversalState, cur: nat)
    requires |es| == 2 && Sized(s, |s.distance|) && cur < |s.distance|
    requires es[0].0 < |s.distance| && es[1].0 < |s.distance|
    ensures Relaxed(es, s, cur) ==
      var r := UpdatedBy(s, s, cur, es[0]);
      UpdatedBy(s, r, cur, es[1])
  {
    RelaxedNothing(s, cur);
    assert es[..0] == [];
    RelaxedExtend(es, 0, s, cur);
    RelaxedExtend(es, 1, s, cur);
    assert es[..2] == es;
  }

  /** Relaxing a one-entry neighbour list is one point update. */
  lemma RelaxedOne(es: seq<Edge>, s: TraversalState, cur: nat)
    requires |es| == 1 && Sized(s, |s.distance|) && cur < |s.distance| && es[0].0 < |s.distance|
    ensures Relaxed(es, s, cur) == UpdatedBy(s, s, cur, es[0])
  {
    RelaxedNothing(s, cur);
    assert es[..0] == [];
    RelaxedExtend(es, 0, s, cur);
    assert es[..1] == es;
  }

  /** The source's loop body for one entry `e`, applied to `r`, with visited flags from `s`. */
  function UpdatedBy(s: TraversalState, r: TraversalState, cur: nat, e: Edge): TraversalState
    requires cur < |s.distance| && e.0 < |s.isVisited| && e.0 < |r.distance| && e.0 < |r.previous|
  {
    var candidate := Plus(s.distance[cur], e.1);
    if !s.isVisited[e.0] && Below(candidate, r.distance[e.0])
    then r.(distance := r.distance[e.0 := candidate], previous := r.previous[e.0 := Some(cur)])
    else r
  }

  lemma SampleConsistent0()
    ensures Consistent(Sample(), Round0())
  {
    SampleConsistent(Round0());
  }

  /** From 0: nodes 1 and 2 go through 0, and the lightest unvisited edge leads to 2. */
  lemma SampleRound1()
    ensures Consistent(Sample(), Round0()) && 0 in Round0().unvisited
    ensures Step(Sample(), Round0(), 0) == Round1()
    ensures NextCurrent(Sample().adj[0], Round1().isVisited) == Some(2)
  {
    SampleConsistent0();
    RelaxedTwo(Sample().adj[0], Round0(), 0);
    assert [(1, 4), (2, 1)][1..] == [(2, 1)];
  }

  lemma SampleConsistent1()
    ensures Consistent(Sample(), Round1())
  {
    SampleConsistent(Round1());
  }

  /** From 2: node 1 improves to 3 and node 3 gets 6, both through 2; the lightest leads to 1. */
  lemma SampleRound2()
    ensures Consistent(Sample(), Round1()) && 2 in Round1().unvisited
    ensures Step(Sample(), Round1(), 2) == Round2()
    ensures NextCurrent(Sample().adj[2], Round2().isVisited) == Some(1)
  {
    SampleConsistent1();
    RelaxedTwo(Sample().adj[2], Round1(), 2);
    assert [(1, 2), (3, 5)][1..] == [(3, 5)];
  }

  lemma SampleConsistent2()
    ensures Consistent(Sample(), Round2())
  {
    SampleConsistent(Round2());
  }

  /** From 1: node 3 improves to 4 through 1 and is next. */
  lemma SampleRound3()
    ensures Consistent(Sample(), Round2()) && 1 in Round2().unvisited
    ensures Step(Sample(), Round2(), 1) == Round3()
    ensures NextCurrent(Sample().adj[1], Round3().isVisited) == Some(3)
  {
    SampleConsistent2();
    RelaxedOne(Sample().adj[1], Round2(), 1);
  }

  lemma SampleConsistent3()
    ensures Consistent(Sample(), Round3())
  {
    SampleConsistent(Round3());
  }

  /** From 3: node 4 gets 7 through 3 and is next. */
  lemma SampleRound4()
    ensures Consistent(Sample(), Round3()) && 3 in Round3().unvisited
    ensures Step(Sample(), Round3(), 3) == Round4()
    ensures NextCurrent(Sample().adj[3], Round4().isVisited) == Some(4)
  {
    SampleConsistent3();
    RelaxedOne(Sample().adj[3], Round3(), 3);
  }

  lemma SampleConsistent4()
    ensures Consistent(Sample(), Round4())
  {
    SampleConsistent(Round4());
  }

  /** From 4: no neighbours, so the loop stops with every node visited. */
  lemma SampleRound5()
    ensures Consistent(Sample(), Round4()) && 4 in Round4().unvisited
    ensures Step(Sample(), Round4(), 4) == Round5()
    ensures NextCurrent(Sample().adj[4], Round5().isVisited) == None
  {
    SampleConsistent4();
    RelaxedNothing(Round4(), 4);
  }

  /** The main loop from node 0 ends in `Round5`. */
  lemma SampleFinal()
    ensures WellFormed(Sample()) && Fits(Sample(), Blank()) && Fresh(Sample(), Blank()) && HasNode(Sample(), 0)
    ensures FinalState(Sample(), Blank(), 0) == Round5()
  {
    SampleShape();
    SampleStarted();
    SampleRound1();
    TraverseStep(Sample(), Round0(), 0);
    SampleRound2();
    TraverseStep(Sample(), Round1(), 2);
    SampleRound3();
    TraverseStep(Sample(), Round2(), 1);
    SampleRound4();
    TraverseStep(Sample(), Round3(), 3);
    SampleRound5();
    TraverseStep(Sample(), Round4(), 4);
  }

  /** The walk back from node 3 in the final state passes 1 and 2 and ends at 0. */
  lemma SampleWalk()
    ensures Handles(Round5().previous)
    ensures Walk(Round5().previous, 0, 3, 5) == Some([3, 1, 2, 0])
  {
    var prev := Round5().previous;
    assert prev == [None, Some(2), Some(0), Some(1), Some(3)];
    WalkUnfold(prev, 0, 3, 5);
    WalkUnfold(prev, 0, 1, 4);
    WalkUnfold(prev, 0, 2, 3);
    assert Walk(prev, 0, 0, 2) == Some([0]);
    assert [2] + [0] == [2, 0] && [1] + [2, 0] == [1, 2, 0] && [3] + [1, 2, 0] == [3, 1, 2, 0];
  }

  lemma SampleReconstruction()
    ensures Fits(Sample(), Round5())
    ensures Reconstruction(Sample(), Round5(), 0, 3) == Found([3, 1, 2, 0], Fin(4))
  {
    SampleWalk();
    assert IdsOf([0, 1, 2, 3, 4], [3, 1, 2, 0]) == [3, 1, 2, 0];
  }

  /** `solve(graph, 0, 3) == ([3, 1, 2, 0], 4)`. */
  lemma SampleSolved()
    ensures WellFormed(Sample()) && Fits(Sample(), Blank()) && Fresh(Sample(), Blank())
    ensures HasNode(Sample(), 0) && HasNode(Sample(), 3)
    ensures SolveOutcome(Sample(), Blank(), 0, 3) == Found([3, 1, 2, 0], Fin(4))
  {
    SampleShape();
    SampleFinal();
    SampleReconstruction();
  }

  // ---------------------------------------------------------------------------------------------
  // The `__main__` block on the graph object.

  /** On a graph whose ids are its handles 0..4, all in the node set, `add_edge(a, b, w)` adds
      `(b, w)` to the neighbour set of `a` alone. */
  lemma SampleAddEdge(t: Topology, a: nat, b: nat, w: nat)
    requires t.ids == [0, 1, 2, 3, 4] && t.nodes == {0, 1, 2, 3, 4} && |t.adj| == 5 && a < 5 && b < 5
    ensures AddEdgeSpec(t, a, b, w) == t.(adj := t.adj[a := Insert(t.adj[a], (b, w))])
  {
    SampleTargets(t, a, b, w);
    var r := AddEdgeSpec(t, a, b, w);
    var expected := t.adj[a := Insert(t.adj[a], (b, w))];
    forall x | 0 <= x < 5
      ensures r.adj[x] == expected[x]
    {
      assert x in t.nodes && t.ids[x] == x;
    }
    assert r.adj == expected;
  }

  /** With ids equal to handles, `add_edge(a, b, w)` inserts `(b, w)` alone. */
  lemma SampleTargets(t: Topology, a: nat, b: nat, w: nat)
    requires t.ids == [0, 1, 2, 3, 4] && t.nodes == {0, 1, 2, 3, 4} && |t.adj| == 5 && a < 5 && b < 5
    ensures InsertAll(t.adj[a], WithId(t.ids, t.nodes, b, |t.ids|), w) == Insert(t.adj[a], (b, w))
  {
    SampleWithId(t, b, 5);
    assert [b][..0] == [];
  }

  /** With ids equal to handles, the nodes below `n` with id `b` are `b` alone when `b < n`. */
  lemma {:induction false} SampleWithId(t: Topology, b: nat, n: nat)
    requires t.ids == [0, 1, 2, 3, 4] && t.nodes == {0, 1, 2, 3, 4} && n <= 5
    ensures WithId(t.ids, t.nodes, b, n) == if b < n then [b] else []
  {
    if n > 0 {
      SampleWithId(t, b, n - 1);
      assert n - 1 in t.nodes && t.ids[n - 1] == n - 1;
    }
  }

  /** The arena after `graph.add_node(Node(id))`. */
  function Grown(t: Topology, id: int): Topology
  {
    Topology(t.ids + [id], t.adj + [[]], t.nodes + {|t.ids|})
  }

  /** The traversal fields after `graph.add_node(Node(id))` on an arena of `n` records. */
  function GrownState(s: TraversalState, n: nat): TraversalState
  {
    TraversalState(s.distance + [Inf], s.previous + [None], s.isVisited + [false], s.visited, s.unvisited + {n})
  }

  /** `graph.add_node(Node(id))`: the new record joins the node set and the unvisited set. */
  method AddFresh(g: Graph, id: int)
    requires g.Valid()
    modifies g
    ensures g.Valid()
    ensures g.Topo() == Grown(old(g.Topo()), id)
    ensures g.Traversal() == GrownState(old(g.Traversal()), |old(g.ids)|)
  {
    var h := g.NewNode(id);
    g.AddNode(h);
  }

  lemma GrownSample()
    ensures Grown(Grown(Grown(Grown(Grown(Topology([], [], {}), 0), 1), 2), 3), 4) ==
      Topology([0, 1, 2, 3, 4], [[], [], [], [], []], {0, 1, 2, 3, 4})
    ensures GrownState(GrownState(GrownState(GrownState(GrownState(
      TraversalState([], [], [], {}, {}), 0), 1), 2), 3), 4) == Blank()
  {
  }

  /** `Graph()` and the five `add_node(Node(i))` calls: nodes 0..4, no edges, nothing solved. */
  method SampleNodes() returns (g: Graph)
    ensures fresh(g) && g.Valid()
    ensures g.Topo() == Topology([0, 1, 2, 3, 4], [[], [], [], [], []], {0, 1, 2, 3, 4})
    ensures g.Traversal() == Blank()
  {
    g := new Graph();
    AddFresh(g, 0);
    AddFresh(g, 1);
    AddFresh(g, 2);
    AddFresh(g, 3);
    AddFresh(g, 4);
    GrownSample();
  }

  /** The arena after an `add_edge(a, b, w)` that adds `(b, w)` to the neighbour set of `a`. */
  function EdgeAdded(t: Topology, a: nat, b: nat, w: nat): Topology
    requires a < |t.adj|
  {
    t.(adj := t.adj[a := Insert(t.adj[a], (b, w))])
  }

  /** `graph.add_edge(a, b, w)` on the sample's nodes. */
  method AddSampleEdge(g: Graph, a: nat, b: nat, w: nat)
    requires g.Valid() && g.ids == [0, 1, 2, 3, 4] && g.nodes == {0, 1, 2, 3, 4} && a < 5 && b < 5
    modifies g`neighbours
    ensures g.Valid() && g.Topo() == EdgeAdded(old(g.Topo()), a, b, w) && g.Traversal() == old(g.Traversal())
  {
    SampleAddEdge(g.Topo(), a, b, w);
    g.AddEdge(a, b, w);
  }

  lemma EdgesSample()
    ensures
      var t0 := Topology([0, 1, 2, 3, 4], [[], [], [], [], []], {0, 1, 2, 3, 4});
      var t1 := EdgeAdded(t0, 0, 1, 4);
      var t2 := EdgeAdded(t1, 0, 2, 1);
      var t3 := EdgeAdded(t2, 2, 1, 2);
      var t4 := EdgeAdded(t3, 2, 3, 5);
      var t5 := EdgeAdded(t4, 1, 3, 1);
      EdgeAdded(t5, 3, 4, 3) == Sample()
  {
    assert [] + [(1, 4)] == [(1, 4)] && [(1, 4)] + [(2, 1)] == [(1, 4), (2, 1)];
    assert [] + [(1, 2)] == [(1, 2)] && [(1, 2)] + [(3, 5)] == [(1, 2), (3, 5)];
    assert [] + [(3, 1)] == [(3, 1)] && [] + [(4, 3)] == [(4, 3)];
  }

  /** The six `add_edge` calls build `Sample()`. */
  method SampleEdges(g: Graph)
    requires g.Valid() && g.Topo() == Topology([0, 1, 2, 3, 4], [[], [], [], [], []], {0, 1, 2, 3, 4})
    modifies g`neighbours
    ensures g.Valid() && g.Topo() == Sample() && g.Traversal() == old(g.Traversal())
  {
    AddSampleEdge(g, 0, 1, 4);
    AddSampleEdge(g, 0, 2, 1);
    AddSampleEdge(g, 2, 1, 2);
    AddSampleEdge(g, 2, 3, 5);
    AddSampleEdge(g, 1, 3, 1);
    AddSampleEdge(g, 3, 4, 3);
    EdgesSample();
  }

  /** The `__main__` block: build the sample graph, then `solve(graph, 0, 3)` returns the path
      `[3, 1, 2, 0]` at cost 4. */
  method SampleMain() returns (r: Outcome)
    ensures r == Found([3, 1, 2, 0], Fin(4))
  {
    var g := SampleNodes();
    SampleEdges(g);
    SampleShape();
    r := Solve(g, 0, 3);
    assert g.Topo() == Sample();
    SampleSolved();
  }
}
