/**
  A four-node graph on which `solve` does not return a shortest path: from id 0 the lightest edge
  leads to 1, whose only edge reaches 3 at cost 11, while the route through 2 costs 6. Once 3 is
  visited the loop stops with 2 still unvisited.
*/
module DetourGraph {
  import opened GraphStore
  import opened PathSolver
  import opened SolverTheorems
  import opened SampleGraph

  /** Ids 0..3 on handles 0..3, with edges 0->1:1, 0->2:5, 1->3:10 and 2->3:1. */
  function Detour(): Topology
  {
    Topology([0, 1, 2, 3], [[(1, 1), (2, 5)], [(3, 10)], [(3, 1)], []], {0, 1, 2, 3})
  }

  function DetourBlank(): TraversalState
  {
    TraversalState([Inf, Inf, Inf, Inf], [None, None, None, None], [false, false, false, false], {}, {0, 1, 2, 3})
  }

  function Leg0(): TraversalState
  {
    DetourBlank().(distance := [Fin(0), Inf, Inf, Inf])
  }

  function Leg1(): TraversalState
  {
    TraversalState([Fin(0), Fin(1), Fin(5), Inf], [None, Some(0), Some(0), None],
                   [true, false, false, false], {0}, {1, 2, 3})
  }

  function Leg2(): TraversalState
  {
    TraversalState([Fin(0), Fin(1), Fin(5), Fin(11)], [None, Some(0), Some(0), Some(1)],
                   [true, true, false, false], {0, 1}, {2, 3})
  }

  function Leg3(): TraversalState
  {
    TraversalState([Fin(0), Fin(1), Fin(5), Fin(11)], [None, Some(0), Some(0), Some(1)],
                   [true, true, false, true], {0, 1, 3}, {2})
  }

  lemma DetourWellFormed()
    ensures WellFormed(Detour())
  {
    var t := Detour();
    forall a, e | 0 <= a < |t.adj| && e in t.adj[a]
      ensures e.0 in t.nodes
    {
      assert a == 0 || a == 1 || a == 2 || a == 3;
    }
  }

  /** The graph is well formed and fresh, and the lookups of ids 0 and 3 find handles 0 and 3. */
  lemma DetourShape()
    ensures WellFormed(Detour()) && Fits(Detour(), DetourBlank()) && Fresh(Detour(), DetourBlank())
    ensures HasNode(Detour(), 0) && HasNode(Detour(), 3)
    ensures Lookup(Detour(), 0) == 0 && Lookup(Detour(), 3) == 3
  {
    DetourWellFormed();
    var t := Detour();
    assert t.ids[0] == 0 && t.ids[3] == 3;
    assert LastWithId(t.ids, t.nodes, 0, 4) == Some(0);
    assert LastWithId(t.ids, t.nodes, 3, 4) == Some(3);
  }

  /** A state of four nodes whose flags match its visited set is consistent with the graph. */
  lemma DetourConsistent(s: TraversalState)
    requires Sized(s, 4) && forall v | 0 <= v < 4 && s.previous[v].Some? :: s.previous[v].value < 4
    requires s.visited !! s.unvisited && s.visited + s.unvisited == {0, 1, 2, 3}
    requires forall v | 0 <= v < 4 :: s.isVisited[v] <==> v in s.visited
    ensures Consistent(Detour(), s)
  {
    DetourWellFormed();
  }

  /** From 0: nodes 1 and 2 go through 0, and the lightest edge leads to 1. */
  lemma DetourLeg1()
    ensures Consistent(Detour(), Leg0()) && 0 in Leg0().unvisited
    ensures Step(Detour(), Leg0(), 0) == Leg1()
    ensures NextCurrent(Detour().adj[0], Leg1().isVisited) == Some(1)
  {
    DetourConsistent(Leg0());
    RelaxedTwo(Detour().adj[0], Leg0(), 0);
    assert [(1, 1), (2, 5)][1..] == [(2, 5)];
  }

  /** From 1: node 3 gets 11 through 1 and is next, although 2 is still unvisited. */
  lemma DetourLeg2()
    ensures Consistent(Detour(), Leg1()) && 1 in Leg1().unvisited
    ensures Step(Detour(), Leg1(), 1) == Leg2()
    ensures NextCurrent(Detour().adj[1], Leg2().isVisited) == Some(3)
  {
    DetourConsistent(Leg1());
    RelaxedOne(Detour().adj[1], Leg1(), 1);
  }

  /** From 3: no neighbours, so the loop stops with 2 unvisited. */
  lemma DetourLeg3()
    ensures Consistent(Detour(), Leg2()) && 3 in Leg2().unvisited
    ensures Step(Detour(), Leg2(), 3) == Leg3()
    ensures NextCurrent(Detour().adj[3], Leg3().isVisited) == None
  {
    DetourConsistent(Leg2());
    RelaxedNothing(Leg2(), 3);
  }

  /** The main loop from node 0 ends in `Leg3`. */
  lemma DetourFinal()
    ensures WellFormed(Detour()) && Fits(Detour(), DetourBlank()) && Fresh(Detour(), DetourBlank())
    ensures HasNode(Detour(), 0)
    ensures FinalState(Detour(), DetourBlank(), 0) == Leg3()
  {
    DetourShape();
    var r := Started(Detour(), DetourBlank(), 0);
    assert r.distance == Leg0().distance;
    DetourLeg1();
    TraverseStep(Detour(), Leg0(), 0);
    DetourLeg2();
    TraverseStep(Detour(), Leg1(), 1);
    DetourLeg3();
    TraverseStep(Detour(), Leg2(), 3);
  }

  /** The walk back from 3 passes 1 and ends at 0. */
  lemma DetourWalk()
    ensures Handles(Leg3().previous)
    ensures Walk(Leg3().previous, 0, 3, 4) == Some([3, 1, 0])
  {
    var prev := Leg3().previous;
    assert prev == [None, Some(0), Some(0), Some(1)];
    WalkUnfold(prev, 0, 3, 4);
    WalkUnfold(prev, 0, 1, 3);
    assert Walk(prev, 0, 0, 2) == Some([0]);
    assert [1] + [0] == [1, 0] && [3] + [1, 0] == [3, 1, 0];
  }

  /** The path reconstruction on the final state gives the ids 3, 1, 0 at cost 11. */
  lemma DetourReconstruction()
    ensures Fits(Detour(), Leg3())
    ensures Reconstruction(Detour(), Leg3(), 0, 3) == Found([3, 1, 0], Fin(11))
  {
    DetourWalk();
    assert IdsOf([0, 1, 2, 3], [3, 1, 0]) == [3, 1, 0];
  }

  /** `solve(graph, 0, 3) == ([3, 1, 0], 11)`. */
  lemma DetourSolved()
    ensures WellFormed(Detour()) && Fits(Detour(), DetourBlank()) && Fresh(Detour(), DetourBlank())
    ensures HasNode(Detour(), 0) && HasNode(Detour(), 3)
    ensures SolveOutcome(Detour(), DetourBlank(), 0, 3) == Found([3, 1, 0], Fin(11))
  {
    DetourShape();
    DetourFinal();
    DetourReconstruction();
  }

  /** The route 0 -> 1 -> 3 costs 11 and the route 0 -> 2 -> 3 costs 6. */
  lemma DetourRoutes()
    ensures Route(Detour(), [3, 1, 0]) && PathCost(Detour(), [3, 1, 0]) == 11
    ensures Route(Detour(), [3, 2, 0]) && PathCost(Detour(), [3, 2, 0]) == 6
  {
    var t := Detour();
    assert MinWeightTo(t.adj[1], 3) == Some(10) && MinWeightTo(t.adj[0], 1) == Some(1);
    assert MinWeightTo(t.adj[2], 3) == Some(1) && MinWeightTo(t.adj[0], 2) == Some(5);
    assert Crosses(t, [3, 1, 0], 0) && Crosses(t, [3, 1, 0], 1);
    assert Crosses(t, [3, 2, 0], 0) && Crosses(t, [3, 2, 0], 1);
    assert [3, 1, 0][1..] == [1, 0] && [1, 0][1..] == [0];
    assert [3, 2, 0][1..] == [2, 0] && [2, 0][1..] == [0];
  }

  /** `solve(graph, 0, 3)` returns `([3, 1, 0], 11)` although the route 0 -> 2 -> 3 costs 6: the
      lightest-edge advance does not always find a shortest path. */
  lemma DetourNotShortest()
    ensures WellFormed(Detour()) && Fits(Detour(), DetourBlank()) && Fresh(Detour(), DetourBlank())
    ensures HasNode(Detour(), 0) && HasNode(Detour(), 3)
    ensures SolveOutcome(Detour(), DetourBlank(), 0, 3) == Found([3, 1, 0], Fin(11))
    ensures Route(Detour(), [3, 2, 0]) && PathCost(Detour(), [3, 2, 0]) < 11
  {
    DetourSolved();
    DetourRoutes();
  }
}
