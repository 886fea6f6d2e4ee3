/**
  What `solve` guarantees, proved about the reference functions of the path solver: relaxation
  only lowers distances and only touches unvisited neighbours, visited distances are frozen,
  every predecessor link is an edge whose weight accounts for the distance, the predecessor
  chain is acyclic, and so the returned path runs from the target back to the source with a cost
  equal to the summed weights along it.
*/
module SolverTheorems {
  import opened GraphStore
  import opened PathSolver

  // ---------------------------------------------------------------------------------------------
  // Relaxation.

  /** Relaxing from `cur` never raises a distance; a node whose distance or predecessor changes
      is an unvisited neighbour of `cur`, strictly improved, with `cur` as its predecessor and the
      lightest edge from `cur` added to `cur`'s distance; and afterwards no unvisited neighbour is
      farther than `cur`'s distance plus the weight of any edge to it. */
  lemma RelaxedMeaning(es: seq<Edge>, s: TraversalState, cur: nat)
    requires Sized(s, |s.distance|) && cur < |s.distance|
    ensures forall v | 0 <= v < |s.distance| :: AtMost(Relaxed(es, s, cur).distance[v], s.distance[v])
    ensures forall v | 0 <= v < |s.distance| ::
      var r := Relaxed(es, s, cur);
      r.distance[v] != s.distance[v] || r.previous[v] != s.previous[v] ==>
        && !s.isVisited[v] && v != cur
        && (exists i | 0 <= i < |es| :: es[i].0 == v)
        && Below(r.distance[v], s.distance[v])
        && r.previous[v] == Some(cur)
        && MinWeightTo(es, v).Some?
        && r.distance[v] == Plus(s.distance[cur], MinWeightTo(es, v).value)
    ensures forall i | 0 <= i < |es| && es[i].0 < |s.distance| && !s.isVisited[es[i].0] ::
      AtMost(Relaxed(es, s, cur).distance[es[i].0], Plus(s.distance[cur], es[i].1))
  {
    var r := Relaxed(es, s, cur);
    RelaxedKeepsCurrent(es, s, cur);
    forall i | 0 <= i < |es| && es[i].0 < |s.distance| && !s.isVisited[es[i].0]
      ensures AtMost(r.distance[es[i].0], Plus(s.distance[cur], es[i].1))
    {
      var v := es[i].0;
      assert MinWeightTo(es, v).Some?;
    }
  }

  // ---------------------------------------------------------------------------------------------
  // The invariant of the traversal loop.

  /** The nodes that carry the source id: the source lookup gives each of them distance 0. */
  ghost function Roots(t: Topology, sourceId: int): set<nat>
  {
    set h | h in t.nodes && h < |t.ids| && t.ids[h] == sourceId
  }

  /** If `v` has a predecessor `p`, then `p` is visited, ranked before `v` when `v` is visited
      too, has an edge to `v`, and `v`'s distance is `p`'s plus the lightest such edge. */
  ghost predicate Linked(t: Topology, s: TraversalState, rank: map<nat, nat>, v: nat)
    requires Consistent(t, s) && v < |t.ids|
  {
    s.previous[v].Some? ==>
      var p := s.previous[v].value;
      && p in s.visited
      && (v in s.visited ==> p in rank && v in rank && rank[p] < rank[v])
      && MinWeightTo(t.adj[p], v).Some?
      && s.distance[v] == Plus(s.distance[p], MinWeightTo(t.adj[p], v).value)
  }

  /** `rank` numbers the visited nodes below their count. */
  ghost predicate Ranked(s: TraversalState, rank: map<nat, nat>)
  {
    && rank.Keys == s.visited
    && (forall v | v in rank :: rank[v] < |s.visited|)
  }

  /** The roots keep distance 0 and no predecessor, visited nodes have finite distances, and a
      node with a finite distance and no predecessor is a root. */
  ghost predicate Anchored(t: Topology, s: TraversalState, roots: set<nat>)
    requires Consistent(t, s)
  {
    && roots <= t.nodes
    && (forall v | v in roots :: s.distance[v] == Fin(0) && s.previous[v].None?)
    && (forall v | v in s.visited :: s.distance[v].Fin?)
    && (forall v | v in t.nodes :: s.previous[v].None? && s.distance[v].Fin? ==> v in roots)
  }

  /** Every predecessor link of the graph is `Linked`. */
  ghost predicate AllLinked(t: Topology, s: TraversalState, rank: map<nat, nat>)
    requires Consistent(t, s)
  {
    forall v {:trigger Linked(t, s, rank, v)} | v in t.nodes :: Linked(t, s, rank, v)
  }

  /** The loop invariant, with `rank` the order in which the visited nodes were visited. */
  ghost predicate Settled(t: Topology, s: TraversalState, roots: set<nat>, rank: map<nat, nat>)
  {
    && Consistent(t, s)
    && Ranked(s, rank)
    && Anchored(t, s, roots)
    && AllLinked(t, s, rank)
  }

  /** The source lookup establishes the invariant, with no node visited yet. */
  lemma StartedSettles(t: Topology, s: TraversalState, sourceId: int)
    requires WellFormed(t) && Fits(t, s) && Fresh(t, s) && HasNode(t, sourceId)
    ensures Settled(t, Started(t, s, sourceId), Roots(t, sourceId), map[])
    ensures Lookup(t, sourceId) in Roots(t, sourceId)
  {
    StartedConsistent(t, s, sourceId);
  }

  /** `s'` is `s` after one iteration from `cur`, described node by node: `cur` moves to
      `visited`, and each node either keeps its distance and predecessor or is an unvisited
      neighbour of `cur` that now goes through `cur` along the lightest edge. */
  ghost predicate SteppedFrom(t: Topology, s: TraversalState, s': TraversalState, cur: nat)
    requires Consistent(t, s) && Consistent(t, s') && cur in s.unvisited
  {
    && s'.visited == s.visited + {cur}
    && s'.unvisited == s.unvisited - {cur}
    && s'.distance[cur] == s.distance[cur]
    && (forall v | 0 <= v < |t.ids| ::
      || (s'.distance[v] == s.distance[v] && s'.previous[v] == s.previous[v])
      || (&& !s.isVisited[v] && v != cur
          && Below(s'.distance[v], s.distance[v])
          && s'.previous[v] == Some(cur)
          && MinWeightTo(t.adj[cur], v).Some?
          && s'.distance[v] == Plus(s.distance[cur], MinWeightTo(t.adj[cur], v).value)))
  }

  /** An iteration is `SteppedFrom`. */
  lemma StepStepped(t: Topology, s: TraversalState, cur: nat)
    requires Consistent(t, s) && cur in s.unvisited
    ensures Consistent(t, Step(t, s, cur)) && SteppedFrom(t, s, Step(t, s, cur), cur)
  {
    StepConsistent(t, s, cur);
    RelaxedMeaning(t.adj[cur], s, cur);
    RelaxedKeepsCurrent(t.adj[cur], s, cur);
  }

  /** A `SteppedFrom` node keeps the invariant at `v`. */
  lemma SteppedAt(t: Topology, s: TraversalState, s': TraversalState, roots: set<nat>, rank: map<nat, nat>, cur: nat, v: nat)
    requires Settled(t, s, roots, rank) && cur in s.unvisited && s.distance[cur].Fin?
    requires Consistent(t, s') && SteppedFrom(t, s, s', cur) && v in t.nodes
    ensures Linked(t, s', rank[cur := |s.visited|], v)
    ensures v in roots ==> s'.distance[v] == Fin(0) && s'.previous[v].None?
    ensures v in s'.visited ==> s'.distance[v].Fin?
    ensures s'.previous[v].None? && s'.distance[v].Fin? ==> v in roots
  {
    assert Linked(t, s, rank, v);
    if s'.distance[v] == s.distance[v] && s'.previous[v] == s.previous[v] {
      if s.previous[v].Some? {
        var p := s.previous[v].value;
        assert p in s.visited && p != cur && s.isVisited[p];
        assert s'.distance[p] == s.distance[p];
      }
    } else {
      assert v !in s.visited;
    }
  }

  /** One iteration keeps the invariant when the current node has a finite distance; the current
      node takes the next rank. */
  lemma StepSettles(t: Topology, s: TraversalState, roots: set<nat>, rank: map<nat, nat>, cur: nat)
    returns (rank': map<nat, nat>)
    requires Settled(t, s, roots, rank) && cur in s.unvisited && s.distance[cur].Fin?
    ensures rank' == rank[cur := |s.visited|]
    ensures Settled(t, Step(t, s, cur), roots, rank')
  {
    StepStepped(t, s, cur);
    var s' := Step(t, s, cur);
    rank' := SteppedSettles(t, s, s', roots, rank, cur);
  }

  /** Visiting one more node gives it the next rank. */
  lemma RankedExtend(s: TraversalState, s': TraversalState, rank: map<nat, nat>, cur: nat)
    requires Ranked(s, rank) && cur !in s.visited && s'.visited == s.visited + {cur}
    ensures Ranked(s', rank[cur := |s.visited|])
  {
    assert |s'.visited| == |s.visited| + 1;
  }

  /** `SteppedAt` for every node. */
  lemma SteppedNodes(t: Topology, s: TraversalState, s': TraversalState, roots: set<nat>, rank: map<nat, nat>, cur: nat)
    requires Settled(t, s, roots, rank) && cur in s.unvisited && s.distance[cur].Fin?
    requires Consistent(t, s') && SteppedFrom(t, s, s', cur)
    ensures Anchored(t, s', roots) && AllLinked(t, s', rank[cur := |s.visited|])
  {
    forall v | v in t.nodes
      ensures Linked(t, s', rank[cur := |s.visited|], v)
      ensures v in roots ==> s'.distance[v] == Fin(0) && s'.previous[v].None?
      ensures v in s'.visited ==> s'.distance[v].Fin?
      ensures s'.previous[v].None? && s'.distance[v].Fin? ==> v in roots
    {
      SteppedAt(t, s, s', roots, rank, cur, v);
    }
  }

  /** A `SteppedFrom` state keeps the invariant, with `cur` ranked last. */
  lemma SteppedSettles(t: Topology, s: TraversalState, s': TraversalState, roots: set<nat>, rank: map<nat, nat>, cur: nat)
    returns (rank': map<nat, nat>)
    requires Settled(t, s, roots, rank) && cur in s.unvisited && s.distance[cur].Fin?
    requires Consistent(t, s') && SteppedFrom(t, s, s', cur)
    ensures rank' == rank[cur := |s.visited|]
    ensures Settled(t, s', roots, rank')
  {
    rank' := rank[cur := |s.visited|];
    RankedExtend(s, s', rank, cur);
    SteppedNodes(t, s, s', roots, rank, cur);
  }

  /** The whole loop keeps the invariant, started from a node with a finite distance. */
  lemma {:induction false} TraverseSettles(t: Topology, s: TraversalState, roots: set<nat>, rank: map<nat, nat>, cur: nat)
    returns (rank': map<nat, nat>)
    requires Settled(t, s, roots, rank) && cur in s.unvisited && s.distance[cur].Fin?
    ensures Settled(t, Traverse(t, s, cur), roots, rank')
    decreases |s.unvisited|
  {
    var r1 := StepSettles(t, s, roots, rank, cur);
    TraverseStep(t, s, cur);
    var es := t.adj[cur];
    var s' := Step(t, s, cur);
    match NextCurrent(es, s'.isVisited)
    case None =>
      rank' := r1;
    case Some(n) =>
      NextCurrentChoice(es, s'.isVisited);
      var i: nat :| FirstLightestUnvisited(es, s'.isVisited, i) && es[i].0 == n;
      RelaxedMeaning(es, s, cur);
      assert AtMost(s'.distance[n], Plus(s.distance[cur], es[i].1));
      rank' := TraverseSettles(t, s', roots, r1, n);
  }

  /** After the source lookup, the whole loop keeps the invariant: `FinalState` is settled with
      the nodes carrying the source id as roots. */
  lemma FinalSettled(t: Topology, s: TraversalState, sourceId: int) returns (rank: map<nat, nat>)
    requires WellFormed(t) && Fits(t, s) && Fresh(t, s) && HasNode(t, sourceId)
    ensures Settled(t, FinalState(t, s, sourceId), Roots(t, sourceId), rank)
  {
    StartedSettles(t, s, sourceId);
    rank := TraverseSettles(t, Started(t, s, sourceId), Roots(t, sourceId), map[], Lookup(t, sourceId));
  }

  /** In a settled state the predecessor `p` of a node `v` is visited, has an edge to `v`, and
      `v`'s distance is `p`'s plus the lightest such edge; visited nodes have finite distances and
      the roots are at 0 without predecessor. */
  lemma SettledPredecessors(t: Topology, f: TraversalState, roots: set<nat>, rank: map<nat, nat>)
    requires Settled(t, f, roots, rank)
    ensures forall v | v in t.nodes && f.previous[v].Some? ::
      && f.previous[v].value in f.visited
      && MinWeightTo(t.adj[f.previous[v].value], v).Some?
      && f.distance[v] == Plus(f.distance[f.previous[v].value], MinWeightTo(t.adj[f.previous[v].value], v).value)
    ensures forall v | v in f.visited :: f.distance[v].Fin?
    ensures forall v | v in roots :: f.distance[v] == Fin(0) && f.previous[v].None?
  {
    forall v | v in t.nodes && f.previous[v].Some?
      ensures f.previous[v].value in f.visited
      ensures MinWeightTo(t.adj[f.previous[v].value], v).Some?
      ensures f.distance[v] == Plus(f.distance[f.previous[v].value], MinWeightTo(t.adj[f.previous[v].value], v).value)
    {
      assert Linked(t, f, rank, v);
    }
  }

  /** After `solve`'s loop every node with the source id is still at distance 0 without
      predecessor. */
  lemma SolveSourceAtZero(t: Topology, s: TraversalState, sourceId: int)
    requires WellFormed(t) && Fits(t, s) && Fresh(t, s) && HasNode(t, sourceId)
    ensures var f := FinalState(t, s, sourceId);
      forall v | v in t.nodes && t.ids[v] == sourceId :: f.distance[v] == Fin(0) && f.previous[v].None?
  {
    var f := FinalState(t, s, sourceId);
    var rank := FinalSettled(t, s, sourceId);
    SettledPredecessors(t, f, Roots(t, sourceId), rank);
    forall v | v in t.nodes && t.ids[v] == sourceId
      ensures f.distance[v] == Fin(0) && f.previous[v].None?
    {
      InRoots(t, sourceId, v);
    }
  }

  /** A node of the graph with the source id is a root. */
  lemma InRoots(t: Topology, sourceId: int, v: nat)
    requires v in t.nodes && v < |t.ids| && t.ids[v] == sourceId
    ensures v in Roots(t, sourceId)
  {
  }

  /** After `solve`'s loop, every predecessor link is consistent: the predecessor `p` of a node
      `v` is visited, has an edge to `v`, and `v`'s distance is `p`'s plus the lightest such edge;
      and every visited node has a finite distance. */
  lemma SolvePredecessors(t: Topology, s: TraversalState, sourceId: int)
    requires WellFormed(t) && Fits(t, s) && Fresh(t, s) && HasNode(t, sourceId)
    ensures var f := FinalState(t, s, sourceId);
      forall v | v in t.nodes && f.previous[v].Some? ::
        && f.previous[v].value in f.visited
        && MinWeightTo(t.adj[f.previous[v].value], v).Some?
        && f.distance[v] == Plus(f.distance[f.previous[v].value], MinWeightTo(t.adj[f.previous[v].value], v).value)
    ensures var f := FinalState(t, s, sourceId);
      forall v | v in f.visited :: f.distance[v].Fin?
  {
    var f := FinalState(t, s, sourceId);
    var rank := FinalSettled(t, s, sourceId);
    SettledPredecessors(t, f, Roots(t, sourceId), rank);
  }

  // ---------------------------------------------------------------------------------------------
  // Distances only go down; visited distances are frozen; the loop runs at most |nodes| times.

  /** `s'` comes later than `s`: no distance is larger, no visited node is forgotten, and a node
      visited in `s` has the same distance and predecessor in `s'`. */
  ghost predicate Improves(t: Topology, s: TraversalState, s': TraversalState)
    requires Consistent(t, s) && Consistent(t, s')
  {
    && s.visited <= s'.visited
    && (forall v | 0 <= v < |t.ids| :: AtMost(s'.distance[v], s.distance[v]))
    && (forall v | v in s.visited :: s'.distance[v] == s.distance[v] && s'.previous[v] == s.previous[v])
  }

  lemma ImprovesTrans(t: Topology, s1: TraversalState, s2: TraversalState, s3: TraversalState)
    requires Consistent(t, s1) && Consistent(t, s2) && Consistent(t, s3)
    requires Improves(t, s1, s2) && Improves(t, s2, s3)
    ensures Improves(t, s1, s3)
  {
  }

  /** A `SteppedFrom` state improves on the state before. */
  lemma SteppedLowers(t: Topology, s: TraversalState, s': TraversalState, cur: nat)
    requires Consistent(t, s) && Consistent(t, s') && cur in s.unvisited && SteppedFrom(t, s, s', cur)
    ensures Improves(t, s, s')
  {
  }

  /** The whole loop only lowers distances, and leaves the distance and predecessor of every node
      visited before it untouched. */
  lemma {:induction false} TraverseOnlyLowers(t: Topology, s: TraversalState, cur: nat)
    requires Consistent(t, s) && cur in s.unvisited
    ensures Improves(t, s, Traverse(t, s, cur))
    decreases |s.unvisited|
  {
    StepStepped(t, s, cur);
    TraverseStep(t, s, cur);
    var s' := Step(t, s, cur);
    SteppedLowers(t, s, s', cur);
    match NextCurrent(t.adj[cur], s'.isVisited)
    case None =>
    case Some(n) =>
      TraverseOnlyLowers(t, s', n);
      ImprovesTrans(t, s, s', Traverse(t, s', n));
  }

  /** The number of iterations of the loop started at `cur`. */
  ghost function Rounds(t: Topology, s: TraversalState, cur: nat): (k: nat)
    requires Consistent(t, s) && cur in s.unvisited
    ensures 1 <= k <= |s.unvisited|
    decreases |s.unvisited|
  {
    TraverseStep(t, s, cur);
    StepConsistent(t, s, cur);
    var s' := Step(t, s, cur);
    assert |s'.unvisited| == |s.unvisited| - 1;
    match NextCurrent(t.adj[cur], s'.isVisited)
    case None => 1
    case Some(n) => 1 + Rounds(t, s', n)
  }

  /** Each iteration visits one more node: the loop ends with `Rounds` more visited nodes, so it
      runs at most as many times as there are unvisited nodes. */
  lemma {:induction false} RoundsVisited(t: Topology, s: TraversalState, cur: nat)
    requires Consistent(t, s) && cur in s.unvisited
    ensures |Traverse(t, s, cur).visited| == |s.visited| + Rounds(t, s, cur)
    ensures Rounds(t, s, cur) <= |t.nodes| - |s.visited|
    decreases |s.unvisited|
  {
    TraverseStep(t, s, cur);
    StepConsistent(t, s, cur);
    var s' := Step(t, s, cur);
    assert |s'.visited| == |s.visited| + 1;
    assert |t.nodes| == |s.visited| + |s.unvisited|;
    match NextCurrent(t.adj[cur], s'.isVisited)
    case None =>
    case Some(n) =>
      RoundsVisited(t, s', n);
  }

  // ---------------------------------------------------------------------------------------------
  // Path reconstruction.

  /** Each handle of `hs` but the last has the next one as its `previous`. */
  ghost predicate Chained(prev: seq<Option<nat>>, hs: seq<nat>)
    requires InRange(hs, |prev|)
  {
    forall i {:trigger prev[hs[i]]} | 0 <= i < |hs| - 1 :: prev[hs[i]] == Some(hs[i + 1])
  }

  /** A found walk follows `previous` from each handle to the next. */
  lemma {:induction false} WalkLinks(prev: seq<Option<nat>>, source: nat, v: nat, fuel: nat)
    requires Handles(prev) && v < |prev| && Walk(prev, source, v, fuel).Some?
    ensures Chained(prev, Walk(prev, source, v, fuel).value)
    decreases fuel
  {
    if v != source {
      var p := prev[v].value;
      WalkLinks(prev, source, p, fuel - 1);
      var rest := Walk(prev, source, p, fuel - 1).value;
      var hs := Walk(prev, source, v, fuel).value;
      assert hs == [v] + rest;
      forall i | 0 <= i < |hs| - 1
        ensures prev[hs[i]] == Some(hs[i + 1])
      {
        if i > 0 {
          assert hs[i] == rest[i - 1] && hs[i + 1] == rest[i];
          assert prev[rest[i - 1]] == Some(rest[i]);
        }
      }
    }
  }

  /** Every step back along `hs` crosses an edge: `hs[i + 1]` has an edge to `hs[i]`. */
  ghost predicate Route(t: Topology, hs: seq<nat>)
  {
    && |t.adj| == |t.ids|
    && InRange(hs, |t.ids|)
    && forall i | 0 <= i < |hs| - 1 :: Crosses(t, hs, i)
  }

  /** The step from `hs[i]` back to `hs[i + 1]` crosses an edge `hs[i + 1] -> hs[i]`. */
  ghost predicate Crosses(t: Topology, hs: seq<nat>, i: nat)
    requires |t.adj| == |t.ids| && InRange(hs, |t.ids|) && i < |hs| - 1
  {
    MinWeightTo(t.adj[hs[i + 1]], hs[i]).Some?
  }

  /** The summed weights along `hs`, each step taking the lightest edge it crosses. */
  ghost function PathCost(t: Topology, hs: seq<nat>): nat
    requires Route(t, hs)
    decreases |hs|
  {
    if |hs| <= 1 then 0
    else
      assert Route(t, hs[1..]) by {
        forall i | 0 <= i < |hs| - 2
          ensures Crosses(t, hs[1..], i)
        {
          assert Crosses(t, hs, i + 1);
        }
      }
      assert Crosses(t, hs, 0);
      MinWeightTo(t.adj[hs[1]], hs[0]).value + PathCost(t, hs[1..])
  }

  /** Along a found walk, the distance of the start `v` is the distance of the source plus the
      summed edge weights of the walk. */
  lemma {:induction false} WalkCost(t: Topology, s: TraversalState, rank: map<nat, nat>, source: nat, v: nat, fuel: nat)
    requires Consistent(t, s) && AllLinked(t, s, rank) && v in t.nodes && source < |t.ids|
    requires Walk(s.previous, source, v, fuel).Some?
    ensures Route(t, Walk(s.previous, source, v, fuel).value)
    ensures s.distance[v] == Plus(s.distance[source], PathCost(t, Walk(s.previous, source, v, fuel).value))
    decreases fuel
  {
    var hs := Walk(s.previous, source, v, fuel).value;
    if v == source {
      assert hs == [v];
      assert PathCost(t, hs) == 0;
      PlusZero(s.distance[v]);
    } else {
      assert Linked(t, s, rank, v);
      var p := s.previous[v].value;
      var m := MinWeightTo(t.adj[p], v).value;
      WalkCost(t, s, rank, source, p, fuel - 1);
      var rest := Walk(s.previous, source, p, fuel - 1).value;
      assert hs == [v] + rest;
      RouteCons(t, v, rest);
      PlusPlus(s.distance[source], PathCost(t, rest), m);
    }
  }

  lemma PlusZero(d: Distance)
    ensures Plus(d, 0) == d
  {
  }

  lemma PlusPlus(d: Distance, a: nat, b: nat)
    ensures Plus(Plus(d, a), b) == Plus(d, b + a)
  {
  }

  /** One more step in front of a route. */
  lemma RouteCons(t: Topology, v: nat, rest: seq<nat>)
    requires Route(t, rest) && |rest| >= 1 && v < |t.ids| && MinWeightTo(t.adj[rest[0]], v).Some?
    ensures Route(t, [v] + rest)
    ensures PathCost(t, [v] + rest) == MinWeightTo(t.adj[rest[0]], v).value + PathCost(t, rest)
  {
    var hs := [v] + rest;
    assert hs[1..] == rest;
    forall i | 0 <= i < |hs| - 1
      ensures Crosses(t, hs, i)
    {
      if i > 0 {
        assert Crosses(t, rest, i - 1);
      }
    }
  }

  /** With the source as the only root, the walk back from any visited node reaches the source
      within its rank plus one steps: the ranks strictly decrease along `previous`. */
  lemma {:induction false} WalkReaches(t: Topology, s: TraversalState, rank: map<nat, nat>, source: nat, v: nat, fuel: nat)
    requires Settled(t, s, {source}, rank) && v in s.visited && rank[v] < fuel
    ensures Walk(s.previous, source, v, fuel).Some?
    decreases fuel
  {
    if v != source {
      assert Linked(t, s, rank, v);
      var p := s.previous[v].value;
      WalkReaches(t, s, rank, source, p, fuel - 1);
    }
  }

  // ---------------------------------------------------------------------------------------------
  // What `solve` returns.

  /** No two nodes of the graph share an id. */
  ghost predicate UniqueIds(t: Topology)
  {
    forall a, b | a in t.nodes && b in t.nodes && a < |t.ids| && b < |t.ids| && t.ids[a] == t.ids[b] :: a == b
  }

  lemma UniqueRoots(t: Topology, sourceId: int)
    requires WellFormed(t) && HasNode(t, sourceId) && UniqueIds(t)
    ensures Roots(t, sourceId) == {Lookup(t, sourceId)}
  {
  }

  /** On a consistent state whose predecessor links hold, a found path starts with the target's
      id and ends with the source's, follows `previous` and the graph's edges, and, from a source
      at distance 0, its cost is the summed weights along it. */
  lemma FoundRoute(t: Topology, f: TraversalState, rank: map<nat, nat>, source: nat, target: nat)
    requires Consistent(t, f) && AllLinked(t, f, rank) && target in t.nodes && source < |t.ids|
    requires f.distance[source] == Fin(0)
    ensures Reconstruction(t, f, source, target).Found? ==>
      var hs := Walk(f.previous, source, target, |t.nodes|).value;
      var r := Reconstruction(t, f, source, target);
      && |r.path| >= 1 && r.path[0] == t.ids[target] && r.path[|r.path| - 1] == t.ids[source]
      && Route(t, hs) && r.path == IdsOf(t.ids, hs)
      && Chained(f.previous, hs)
      && r.cost == Fin(PathCost(t, hs))
  {
    var w := Walk(f.previous, source, target, |t.nodes|);
    if w.Some? {
      WalkLinks(f.previous, source, target, |t.nodes|);
      WalkCost(t, f, rank, source, target, |t.nodes|);
      var hs := w.value;
      assert hs[0] == target && hs[|hs| - 1] == source;
      IdsOfEnds(t.ids, hs);
      assert Reconstruction(t, f, source, target).path == IdsOf(t.ids, hs);
    }
  }

  /** The ids of a non-empty walk start with the id of its first handle and end with that of its
      last. */
  lemma IdsOfEnds(ids: seq<int>, hs: seq<nat>)
    requires InRange(hs, |ids|) && |hs| >= 1
    ensures |IdsOf(ids, hs)| == |hs|
    ensures IdsOf(ids, hs)[0] == ids[hs[0]] && IdsOf(ids, hs)[|hs| - 1] == ids[hs[|hs| - 1]]
  {
  }

  /** With a single root, a target at a finite distance has a walk back to the source. */
  lemma FiniteFound(t: Topology, f: TraversalState, rank: map<nat, nat>, source: nat, target: nat)
    requires Settled(t, f, {source}, rank) && target in t.nodes && f.distance[target].Fin?
    ensures Walk(f.previous, source, target, |t.nodes|).Some?
  {
    var fuel := |t.nodes|;
    if target != source {
      assert |t.nodes| == |f.visited| + |f.unvisited|;
      if target in f.visited {
        WalkReaches(t, f, rank, source, target, fuel);
      } else {
        var p := VisitedPredecessor(t, f, rank, source, target);
        WalkReaches(t, f, rank, source, p, fuel - 1);
        WalkUnfold(f.previous, source, target, fuel);
      }
    }
  }

  /** An unvisited node at a finite distance other than the single root has a visited
      predecessor. */
  lemma VisitedPredecessor(t: Topology, f: TraversalState, rank: map<nat, nat>, source: nat, target: nat)
    returns (p: nat)
    requires Settled(t, f, {source}, rank) && target in f.unvisited && target != source
    requires f.distance[target].Fin?
    ensures f.previous[target] == Some(p) && p in f.visited && p in rank
  {
    assert Linked(t, f, rank, target);
    p := f.previous[target].value;
  }

  /** With a single root, the walk back from the target is found exactly when the target's
      distance is finite. */
  lemma FoundIffFinite(t: Topology, f: TraversalState, rank: map<nat, nat>, source: nat, target: nat)
    requires Settled(t, f, {source}, rank) && target in t.nodes
    ensures Reconstruction(t, f, source, target).NoPath? <==> f.distance[target] == Inf
  {
    if f.distance[target].Fin? {
      FiniteFound(t, f, rank, source, target);
    }
    if Walk(f.previous, source, target, |t.nodes|).Some? {
      WalkCost(t, f, rank, source, target, |t.nodes|);
    }
  }

  /** From the source to itself the walk is the source alone, at the source's distance. */
  lemma SameNodeFound(t: Topology, f: TraversalState, source: nat)
    requires Fits(t, f) && source < |t.ids|
    ensures Reconstruction(t, f, source, source) == Found([t.ids[source]], f.distance[source])
  {
    assert IdsOf(t.ids, [source]) == [t.ids[source]];
  }

  /** A path found by `solve` starts with the target id and ends with the source id, follows
      `previous` and the graph's edges, and its cost is the summed weights along it. */
  lemma SolveRoute(t: Topology, s: TraversalState, sourceId: int, targetId: int)
    requires WellFormed(t) && Fits(t, s) && Fresh(t, s) && HasNode(t, sourceId) && HasNode(t, targetId)
    ensures SolveOutcome(t, s, sourceId, targetId).Found? ==>
      var f := FinalState(t, s, sourceId);
      var hs := Walk(f.previous, Lookup(t, sourceId), Lookup(t, targetId), |t.nodes|).value;
      var r := SolveOutcome(t, s, sourceId, targetId);
      && |r.path| >= 1 && r.path[0] == targetId && r.path[|r.path| - 1] == sourceId
      && Route(t, hs) && r.path == IdsOf(t.ids, hs)
      && Chained(f.previous, hs)
      && r.cost == Fin(PathCost(t, hs))
  {
    var rank := FinalSettled(t, s, sourceId);
    StartedSettles(t, s, sourceId);
    FoundRoute(t, FinalState(t, s, sourceId), rank, Lookup(t, sourceId), Lookup(t, targetId));
  }

  /** With the same source and target id, `solve` returns that id alone at cost 0. */
  lemma SolveSameNode(t: Topology, s: TraversalState, sourceId: int)
    requires WellFormed(t) && Fits(t, s) && Fresh(t, s) && HasNode(t, sourceId)
    ensures SolveOutcome(t, s, sourceId, sourceId) == Found([sourceId], Fin(0))
  {
    var rank := FinalSettled(t, s, sourceId);
    StartedSettles(t, s, sourceId);
    SameNodeFound(t, FinalState(t, s, sourceId), Lookup(t, sourceId));
  }

  /** With unique ids, `solve` finds no path exactly when the target's distance stayed infinite. */
  lemma SolveNoPath(t: Topology, s: TraversalState, sourceId: int, targetId: int)
    requires WellFormed(t) && Fits(t, s) && Fresh(t, s) && HasNode(t, sourceId) && HasNode(t, targetId)
    requires UniqueIds(t)
    ensures SolveOutcome(t, s, sourceId, targetId).NoPath? <==>
      FinalState(t, s, sourceId).distance[Lookup(t, targetId)] == Inf
  {
    var rank := FinalSettled(t, s, sourceId);
    UniqueRoots(t, sourceId);
    FoundIffFinite(t, FinalState(t, s, sourceId), rank, Lookup(t, sourceId), Lookup(t, targetId));
  }
}
