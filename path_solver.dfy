/**
  The path solver of djikastra.py: `solve(graph, source_node_id, target_node_id)`.

  The traversal is deliberately not textbook Dijkstra: after relaxing the unvisited neighbours of
  the current node and marking it visited, it advances to the unvisited neighbour reached by the
  LIGHTEST EDGE (the first one in neighbour order when several tie), and it stops as soon as the
  current node has no unvisited neighbour. The predecessor chain is then walked back from the
  target. The reference functions below (Relaxed, Visit, NextCurrent, Traverse, Walk) define what
  one call does; the methods are the loops of the source, proved to compute exactly those values.
*/
module PathSolver {
  import opened GraphStore

  // ---------------------------------------------------------------------------------------------
  // Relaxation of the current node's unvisited neighbours.

  /** The lightest weight among the entries of `es` that lead to `v`, if any. */
  function MinWeightTo(es: seq<Edge>, v: nat): (r: Option<nat>)
    ensures r.None? <==> forall i | 0 <= i < |es| :: es[i].0 != v
    ensures r.Some? ==> (v, r.value) in es
    ensures r.Some? ==> forall i | 0 <= i < |es| && es[i].0 == v :: r.value <= es[i].1
    decreases |es|
  {
    if es == [] then None
    else
      var init := es[..|es| - 1];
      var last := es[|es| - 1];
      var m := MinWeightTo(init, v);
      assert es == init + [last];
      if last.0 != v then m
      else if m.Some? && m.value <= last.1 then m
      else Some(last.1)
  }

  ghost predicate Sized(s: TraversalState, n: nat)
  {
    |s.distance| == n && |s.previous| == n && |s.isVisited| == n
  }

  /** Relaxing `cur` improves `v`: `v` is not visited, an entry of `es` leads to it, and going
      through `cur` along the lightest such entry is strictly shorter than its distance. */
  predicate Lowers(es: seq<Edge>, s: TraversalState, cur: nat, v: nat)
    requires cur < |s.distance| && v < |s.distance| && v < |s.isVisited|
  {
    && !s.isVisited[v]
    && MinWeightTo(es, v).Some?
    && Below(Plus(s.distance[cur], MinWeightTo(es, v).value), s.distance[v])
  }

  /** The state after relaxing every entry of `es` from `cur`, whatever the order of the entries:
      each improved node gets the shorter distance and `cur` as its predecessor. */
  function Relaxed(es: seq<Edge>, s: TraversalState, cur: nat): (r: TraversalState)
    requires Sized(s, |s.distance|) && cur < |s.distance|
    ensures Sized(r, |s.distance|)
    ensures r.isVisited == s.isVisited && r.visited == s.visited && r.unvisited == s.unvisited
  {
    var n := |s.distance|;
    s.(distance := seq(n, v requires 0 <= v < n =>
         if Lowers(es, s, cur, v) then Plus(s.distance[cur], MinWeightTo(es, v).value) else s.distance[v]),
       previous := seq(n, v requires 0 <= v < n =>
         if Lowers(es, s, cur, v) then Some(cur) else s.previous[v]))
  }

  /** A node never improves its own distance: weights are not negative. */
  lemma RelaxedKeepsCurrent(es: seq<Edge>, s: TraversalState, cur: nat)
    requires Sized(s, |s.distance|) && cur < |s.distance|
    ensures !Lowers(es, s, cur, cur)
    ensures Relaxed(es, s, cur).distance[cur] == s.distance[cur]
    ensures Relaxed(es, s, cur).previous[cur] == s.previous[cur]
  {
  }

  lemma RelaxedNothing(s: TraversalState, cur: nat)
    requires Sized(s, |s.distance|) && cur < |s.distance|
    ensures Relaxed([], s, cur) == s
  {
    var r := Relaxed([], s, cur);
    assert r.distance == s.distance;
    assert r.previous == s.previous;
  }

  /** Relaxing one more entry `(v, w)` of `es` is the source's loop body: when `v` is unvisited
      and `cur`'s distance plus `w` is below `v`'s current distance, `v` takes it and `cur`. */
  lemma RelaxedExtend(es: seq<Edge>, k: nat, s: TraversalState, cur: nat)
    requires Sized(s, |s.distance|) && cur < |s.distance| && k < |es| && es[k].0 < |s.distance|
    ensures Relaxed(es[..k], s, cur).distance[cur] == s.distance[cur]
    ensures Relaxed(es[..k + 1], s, cur) ==
      var r := Relaxed(es[..k], s, cur);
      var v := es[k].0;
      var candidate := Plus(s.distance[cur], es[k].1);
      if !s.isVisited[v] && Below(candidate, r.distance[v])
      then r.(distance := r.distance[v := candidate], previous := r.previous[v := Some(cur)])
      else r
  {
    var pre := es[..k];
    var ext := es[..k + 1];
    assert ext[..|ext| - 1] == pre;
    assert ext[|ext| - 1] == es[k];
    RelaxedKeepsCurrent(pre, s, cur);
    var r := Relaxed(pre, s, cur);
    var r' := Relaxed(ext, s, cur);
    var v := es[k].0;
    var candidate := Plus(s.distance[cur], es[k].1);
    var expected :=
      if !s.isVisited[v] && Below(candidate, r.distance[v])
      then r.(distance := r.distance[v := candidate], previous := r.previous[v := Some(cur)])
      else r;
    forall u | 0 <= u < |s.distance|
      ensures r'.distance[u] == expected.distance[u] && r'.previous[u] == expected.previous[u]
    {
      if u != v {
        assert MinWeightTo(ext, u) == MinWeightTo(pre, u);
      }
    }
    assert r'.distance == expected.distance;
    assert r'.previous == expected.previous;
  }

  // ---------------------------------------------------------------------------------------------
  // Marking the current node visited.

  /** The current node leaves `unvisited`, joins `visited` and gets `is_visited`. */
  function Visit(s: TraversalState, cur: nat): (r: TraversalState)
    requires cur < |s.isVisited|
    ensures r.distance == s.distance && r.previous == s.previous && |r.isVisited| == |s.isVisited|
    ensures r.isVisited[cur] && cur in r.visited && cur !in r.unvisited
    ensures forall v | 0 <= v < |s.isVisited| && v != cur :: r.isVisited[v] == s.isVisited[v]
    ensures r.visited - {cur} == s.visited - {cur} && r.unvisited == s.unvisited - {cur}
  {
    s.(isVisited := s.isVisited[cur := true], visited := s.visited + {cur}, unvisited := s.unvisited - {cur})
  }

  // ---------------------------------------------------------------------------------------------
  // Choosing the next current node.

  ghost predicate Targets(es: seq<Edge>, n: nat)
  {
    forall i | 0 <= i < |es| :: es[i].0 < n
  }

  /** The entries of `es` whose node is not visited, in order. */
  function UnvisitedNeighbours(es: seq<Edge>, isVisited: seq<bool>): (r: seq<Edge>)
    requires Targets(es, |isVisited|)
    ensures |r| <= |es|
  {
    if es == [] then []
    else
      (if !isVisited[es[0].0] then [es[0]] else []) + UnvisitedNeighbours(es[1..], isVisited)
  }

  /** Each entry of `UnvisitedNeighbours` is an entry of `es` whose node is not visited. */
  lemma {:induction false} UnvisitedEntry(es: seq<Edge>, isVisited: seq<bool>, k: nat)
    requires Targets(es, |isVisited|) && k < |UnvisitedNeighbours(es, isVisited)|
    ensures UnvisitedNeighbours(es, isVisited)[k] in es
    ensures UnvisitedNeighbours(es, isVisited)[k].0 < |isVisited| && !isVisited[UnvisitedNeighbours(es, isVisited)[k].0]
    decreases |es|
  {
    var head := if !isVisited[es[0].0] then [es[0]] else [];
    var rest := UnvisitedNeighbours(es[1..], isVisited);
    assert UnvisitedNeighbours(es, isVisited) == head + rest;
    if k >= |head| {
      assert forall j | 0 <= j < |es| - 1 :: es[1..][j] == es[j + 1];
      UnvisitedEntry(es[1..], isVisited, k - |head|);
    }
  }

  /** Their weights. */
  function Weights(es: seq<Edge>): (r: seq<nat>)
    ensures |r| == |es| && forall i | 0 <= i < |es| :: r[i] == es[i].1
  {
    seq(|es|, i requires 0 <= i < |es| => es[i].1)
  }

  /** `ws.index(min(ws))`: the first position of the least weight. */
  function FirstMinIndex(ws: seq<nat>): (k: nat)
    requires |ws| > 0
    ensures k < |ws|
    ensures forall i | 0 <= i < |ws| :: ws[k] <= ws[i]
    ensures forall i | 0 <= i < k :: ws[i] > ws[k]
  {
    if |ws| == 1 then 0
    else
      var k := FirstMinIndex(ws[1..]);
      if ws[0] <= ws[k + 1] then 0 else k + 1
  }

  /** The next current node: the node of the first lightest unvisited entry, or none. */
  function NextCurrent(es: seq<Edge>, isVisited: seq<bool>): (r: Option<nat>)
    requires Targets(es, |isVisited|)
    ensures r.Some? ==> r.value < |isVisited| && !isVisited[r.value]
    ensures r.Some? ==> exists w :: (r.value, w) in es
  {
    var candidates := UnvisitedNeighbours(es, isVisited);
    if |candidates| == 0 then None
    else
      var k := FirstMinIndex(Weights(candidates));
      UnvisitedEntry(es, isVisited, k);
      Some(candidates[k].0)
  }

  /** Entry `i` of `es` is the first, in order, among the lightest entries whose node is unvisited. */
  ghost predicate FirstLightestUnvisited(es: seq<Edge>, isVisited: seq<bool>, i: nat)
    requires Targets(es, |isVisited|)
  {
    && i < |es|
    && !isVisited[es[i].0]
    && (forall j | 0 <= j < |es| && !isVisited[es[j].0] :: es[i].1 <= es[j].1)
    && (forall j | 0 <= j < i && !isVisited[es[j].0] :: es[j].1 > es[i].1)
  }

  lemma {:induction false} NextEntry(es: seq<Edge>, isVisited: seq<bool>) returns (i: nat)
    requires Targets(es, |isVisited|) && |UnvisitedNeighbours(es, isVisited)| > 0
    ensures FirstLightestUnvisited(es, isVisited, i)
    ensures var c := UnvisitedNeighbours(es, isVisited); c[FirstMinIndex(Weights(c))] == es[i]
    decreases |es|
  {
    var rest := es[1..];
    var c := UnvisitedNeighbours(es, isVisited);
    var c' := UnvisitedNeighbours(rest, isVisited);
    assert forall j | 1 <= j < |es| :: es[j] == rest[j - 1];
    if isVisited[es[0].0] {
      assert c == c';
      var i' := NextEntry(rest, isVisited);
      i := i' + 1;
    } else if |c'| == 0 {
      AllVisited(rest, isVisited);
      i := 0;
      assert Weights(c) == [es[0].1];
    } else {
      var i' := NextEntry(rest, isVisited);
      i := NextEntryHead(es, isVisited, i');
    }
  }

  /** The case of `NextEntry` where the first entry is unvisited and the later entries hold the
      first lightest unvisited entry `i' + 1`: the head wins ties. */
  lemma NextEntryHead(es: seq<Edge>, isVisited: seq<bool>, i': nat) returns (i: nat)
    requires Targets(es, |isVisited|) && |es| > 0 && !isVisited[es[0].0]
    requires Targets(es[1..], |isVisited|) && FirstLightestUnvisited(es[1..], isVisited, i')
    requires var c' := UnvisitedNeighbours(es[1..], isVisited); |c'| > 0 && c'[FirstMinIndex(Weights(c'))] == es[1..][i']
    ensures FirstLightestUnvisited(es, isVisited, i)
    ensures var c := UnvisitedNeighbours(es, isVisited); c[FirstMinIndex(Weights(c))] == es[i]
  {
    var rest := es[1..];
    var c := UnvisitedNeighbours(es, isVisited);
    var c' := UnvisitedNeighbours(rest, isVisited);
    assert forall j | 1 <= j < |es| :: es[j] == rest[j - 1];
    assert c == [es[0]] + c';
    assert Weights(c)[1..] == Weights(c');
    if es[0].1 <= es[i' + 1].1 {
      i := 0;
    } else {
      i := i' + 1;
    }
  }

  lemma {:induction false} AllVisited(es: seq<Edge>, isVisited: seq<bool>)
    requires Targets(es, |isVisited|)
    ensures |UnvisitedNeighbours(es, isVisited)| == 0 <==> forall j | 0 <= j < |es| :: isVisited[es[j].0]
    decreases |es|
  {
    if es != [] {
      AllVisited(es[1..], isVisited);
      assert forall j | 1 <= j < |es| :: es[j] == es[1..][j - 1];
    }
  }

  /** The next current node is the node of the first lightest unvisited entry; there is none
      exactly when every entry leads to a visited node. */
  lemma NextCurrentChoice(es: seq<Edge>, isVisited: seq<bool>)
    requires Targets(es, |isVisited|)
    ensures NextCurrent(es, isVisited).None? <==> forall j | 0 <= j < |es| :: isVisited[es[j].0]
    ensures NextCurrent(es, isVisited).Some? ==>
      exists i: nat :: FirstLightestUnvisited(es, isVisited, i) && es[i].0 == NextCurrent(es, isVisited).value
  {
    AllVisited(es, isVisited);
    if |UnvisitedNeighbours(es, isVisited)| > 0 {
      var i := NextEntry(es, isVisited);
    }
  }

  // ---------------------------------------------------------------------------------------------
  // The traversal loop.

  /** The graph's partition sets and visited flags agree, and every edge leads into the graph. */
  ghost predicate Consistent(t: Topology, s: TraversalState)
  {
    && WellFormed(t)
    && Fits(t, s)
    && s.visited !! s.unvisited
    && s.visited + s.unvisited == t.nodes
    && (forall v | v in t.nodes :: s.isVisited[v] <==> v in s.visited)
  }

  lemma NeighboursInGraph(t: Topology, s: TraversalState, cur: nat)
    requires Consistent(t, s) && cur < |t.ids|
    ensures Targets(t.adj[cur], |s.isVisited|)
    ensures forall e | e in t.adj[cur] :: e.0 in t.nodes
  {
  }

  /** One iteration of the loop: relax from `cur`, then mark `cur` visited. */
  function Step(t: Topology, s: TraversalState, cur: nat): (r: TraversalState)
    requires Consistent(t, s) && cur in s.unvisited
    ensures Sized(r, |t.ids|) && r.distance[cur] == s.distance[cur]
    ensures r.isVisited == s.isVisited[cur := true]
    ensures r.visited == s.visited + {cur} && r.unvisited == s.unvisited - {cur}
  {
    RelaxedKeepsCurrent(t.adj[cur], s, cur);
    Visit(Relaxed(t.adj[cur], s, cur), cur)
  }

  /** An iteration keeps the state consistent, moves exactly `cur` from `unvisited` to `visited`,
      and the node it advances to, if any, is unvisited. */
  lemma StepConsistent(t: Topology, s: TraversalState, cur: nat)
    requires Consistent(t, s) && cur in s.unvisited
    ensures Consistent(t, Step(t, s, cur))
    ensures Step(t, s, cur).visited == s.visited + {cur} && Step(t, s, cur).unvisited == s.unvisited - {cur}
    ensures Step(t, s, cur).isVisited == s.isVisited[cur := true]
    ensures Targets(t.adj[cur], |Step(t, s, cur).isVisited|)
    ensures NextCurrent(t.adj[cur], Step(t, s, cur).isVisited).Some? ==>
      NextCurrent(t.adj[cur], Step(t, s, cur).isVisited).value in Step(t, s, cur).unvisited
  {
    var s' := Step(t, s, cur);
    NeighboursInGraph(t, s, cur);
    NextCurrentChoice(t.adj[cur], s'.isVisited);
  }

  /** The whole `while` loop, started at `cur`: the state it leaves behind. */
  function Traverse(t: Topology, s: TraversalState, cur: nat): (r: TraversalState)
    requires Consistent(t, s) && cur in s.unvisited
    ensures Consistent(t, r)
    ensures s.visited + {cur} <= r.visited
    decreases |s.unvisited|
  {
    StepConsistent(t, s, cur);
    var s' := Step(t, s, cur);
    match NextCurrent(t.adj[cur], s'.isVisited)
    case None => s'
    case Some(n) => Traverse(t, s', n)
  }

  /** One unfolding of the loop: after the step from `cur` it either stops, or continues from
      the unvisited node it advances to. */
  lemma TraverseStep(t: Topology, s: TraversalState, cur: nat)
    requires Consistent(t, s) && cur in s.unvisited
    ensures Consistent(t, Step(t, s, cur))
    ensures Targets(t.adj[cur], |Step(t, s, cur).isVisited|)
    ensures match NextCurrent(t.adj[cur], Step(t, s, cur).isVisited)
      case None => Traverse(t, s, cur) == Step(t, s, cur)
      case Some(n) => n in Step(t, s, cur).unvisited && Traverse(t, s, cur) == Traverse(t, Step(t, s, cur), n)
  {
    StepConsistent(t, s, cur);
  }

  // ---------------------------------------------------------------------------------------------
  // Locating the source and target, and walking the predecessor chain back.

  /** The graph has not been solved yet: no distances, predecessors or visited nodes. */
  ghost predicate Fresh(t: Topology, s: TraversalState)
    requires WellFormed(t) && Fits(t, s)
  {
    && s.visited == {}
    && s.unvisited == t.nodes
    && (forall v | v in t.nodes :: s.distance[v] == Inf && s.previous[v] == None && !s.isVisited[v])
  }

  /** The state after the source lookup: every node with the source id gets distance 0. */
  function Started(t: Topology, s: TraversalState, sourceId: int): (r: TraversalState)
    requires Fits(t, s)
    ensures Fits(t, r)
    ensures r.previous == s.previous && r.isVisited == s.isVisited
    ensures r.visited == s.visited && r.unvisited == s.unvisited
    ensures forall v | 0 <= v < |s.distance| ::
      r.distance[v] == if v in t.nodes && t.ids[v] == sourceId then Fin(0) else s.distance[v]
  {
    s.(distance := seq(|s.distance|, v requires 0 <= v < |s.distance| =>
      if v in t.nodes && t.ids[v] == sourceId then Fin(0) else s.distance[v]))
  }

  lemma StartedConsistent(t: Topology, s: TraversalState, sourceId: int)
    requires WellFormed(t) && Fits(t, s) && Fresh(t, s) && HasNode(t, sourceId)
    ensures Consistent(t, Started(t, s, sourceId))
    ensures Lookup(t, sourceId) in Started(t, s, sourceId).unvisited
  {
  }

  /** Every entry of `hs` is below `n`. */
  ghost predicate InRange(hs: seq<nat>, n: nat)
  {
    forall i | 0 <= i < |hs| :: hs[i] < n
  }

  ghost predicate Handles(prev: seq<Option<nat>>)
  {
    forall v | 0 <= v < |prev| && prev[v].Some? :: prev[v].value < |prev|
  }

  /** The predecessor chain from `v` back to `source`, target first, when it reaches `source`
      within `fuel` steps; none when it meets a node without predecessor or runs out of steps. */
  function Walk(prev: seq<Option<nat>>, source: nat, v: nat, fuel: nat): (r: Option<seq<nat>>)
    requires Handles(prev) && v < |prev|
    ensures r.Some? ==> |r.value| >= 1 && r.value[0] == v && r.value[|r.value| - 1] == source
    ensures r.Some? ==> InRange(r.value, |prev|)
    decreases fuel
  {
    if v == source then Some([v])
    else if fuel == 0 then None
    else match prev[v]
      case None => None
      case Some(p) =>
        match Walk(prev, source, p, fuel - 1)
        case None => None
        case Some(rest) => Some([v] + rest)
  }

  /** What `solve` returns: the path as ids, target first, and the target's distance. */
  datatype Outcome = Found(path: seq<int>, cost: Distance) | NoPath

  function IdsOf(ids: seq<int>, hs: seq<nat>): (r: seq<int>)
    requires InRange(hs, |ids|)
  {
    seq(|hs|, i requires 0 <= i < |hs| => ids[hs[i]])
  }

  lemma IdsOfAppend(ids: seq<int>, hs: seq<nat>, h: nat)
    requires InRange(hs, |ids|) && h < |ids|
    ensures InRange(hs + [h], |ids|)
    ensures IdsOf(ids, hs + [h]) == IdsOf(ids, hs) + [ids[h]]
  {
    assert forall i | 0 <= i < |hs| :: (hs + [h])[i] == hs[i];
  }

  /** The path reconstruction, with the walk bounded by the number of nodes. */
  function Reconstruction(t: Topology, s: TraversalState, source: nat, target: nat): (r: Outcome)
    requires Fits(t, s) && source < |t.ids| && target < |t.ids|
    ensures r.NoPath? <==> Walk(s.previous, source, target, |t.nodes|).None?
    ensures r.Found? ==>
      && |r.path| >= 1 && r.path[0] == t.ids[target] && r.path[|r.path| - 1] == t.ids[source]
      && r.cost == s.distance[target]
  {
    match Walk(s.previous, source, target, |t.nodes|)
    case None => NoPath
    case Some(hs) => Found(IdsOf(t.ids, hs), s.distance[target])
  }

  /** The state `solve` leaves behind. */
  function FinalState(t: Topology, s: TraversalState, sourceId: int): (r: TraversalState)
    requires WellFormed(t) && Fits(t, s) && Fresh(t, s) && HasNode(t, sourceId)
    ensures Consistent(t, r)
  {
    StartedConsistent(t, s, sourceId);
    Traverse(t, Started(t, s, sourceId), Lookup(t, sourceId))
  }

  /** What `solve(graph, sourceId, targetId)` returns. */
  function SolveOutcome(t: Topology, s: TraversalState, sourceId: int, targetId: int): (r: Outcome)
    requires WellFormed(t) && Fits(t, s) && Fresh(t, s) && HasNode(t, sourceId) && HasNode(t, targetId)
    ensures r.Found? ==> |r.path| >= 1 && r.path[0] == targetId
    ensures r.Found? ==> r.cost == FinalState(t, s, sourceId).distance[Lookup(t, targetId)]
  {
    var f := FinalState(t, s, sourceId);
    var source, target := Lookup(t, sourceId), Lookup(t, targetId);
    assert t.ids[source] == sourceId && t.ids[target] == targetId;
    Reconstruction(t, f, source, target)
  }

  // ---------------------------------------------------------------------------------------------
  // The loops of `solve`.

  /** The source lookup: scans the node set, sets the distance of every node with the source id
      to 0 and keeps the last one found. */
  method LocateSource(g: Graph, sourceId: int) returns (source: nat)
    requires g.Valid() && HasNode(g.Topo(), sourceId)
    modifies g`distance
    ensures g.Valid()
    ensures source == Lookup(g.Topo(), sourceId)
    ensures g.Traversal() == Started(g.Topo(), old(g.Traversal()), sourceId)
  {
    ghost var start := g.distance;
    var ids, nodes := g.ids, g.nodes;
    var found: Option<nat> := None;
    var h := 0;
    while h < |ids|
      invariant 0 <= h <= |ids|
      invariant g.ids == ids && g.nodes == nodes && |g.distance| == |ids|
      invariant found == LastWithId(ids, nodes, sourceId, h)
      invariant forall v | 0 <= v < |ids| ::
        g.distance[v] == (if v < h && v in nodes && ids[v] == sourceId then Fin(0) else start[v])
    {
      if h in nodes && ids[h] == sourceId {
        found := Some(h);
        g.distance := g.distance[h := Fin(0)];
      }
      h := h + 1;
    }
    source := found.value;
    assert g.distance == Started(g.Topo(), old(g.Traversal()), sourceId).distance;
  }

  /** The target lookup: the last node with the target id. */
  method LocateTarget(g: Graph, targetId: int) returns (target: nat)
    requires g.Valid() && HasNode(g.Topo(), targetId)
    ensures target == Lookup(g.Topo(), targetId)
  {
    var found: Option<nat> := None;
    var h := 0;
    while h < |g.ids|
      invariant 0 <= h <= |g.ids|
      invariant found == LastWithId(g.ids, g.nodes, targetId, h)
    {
      if h in g.nodes && g.ids[h] == targetId {
        found := Some(h);
      }
      h := h + 1;
    }
    target := found.value;
  }

  /** The relaxation loop over the current node's neighbour set. */
  method Relax(g: Graph, cur: nat)
    requires g.Valid() && cur < |g.ids|
    modifies g`distance, g`previous
    ensures g.Valid()
    ensures g.Traversal() == Relaxed(g.neighbours[cur], old(g.Traversal()), cur)
  {
    var es := g.neighbours[cur];
    ghost var s0 := g.Traversal();
    RelaxedNothing(s0, cur);
    assert es[..0] == [];
    var k := 0;
    while k < |es|
      invariant 0 <= k <= |es|
      invariant g.Traversal() == Relaxed(es[..k], s0, cur)
    {
      var neighbour := es[k].0;
      var weight := es[k].1;
      assert es[k] in g.neighbours[cur];
      RelaxedExtend(es, k, s0, cur);
      if !g.isVisited[neighbour] {
        var distanceFromSource := Plus(g.distance[cur], weight);
        if Below(distanceFromSource, g.distance[neighbour]) {
          g.distance := g.distance[neighbour := distanceFromSource];
          g.previous := g.previous[neighbour := Some(cur)];
        }
      }
      k := k + 1;
    }
    assert es[..|es|] == es;
  }

  /** `hs` put in front of a found walk. */
  function Prepend(hs: seq<nat>, o: Option<seq<nat>>): Option<seq<nat>>
  {
    match o
    case None => None
    case Some(rest) => Some(hs + rest)
  }

  lemma PrependAssoc(hs: seq<nat>, v: nat, o: Option<seq<nat>>)
    ensures Prepend(hs, Prepend([v], o)) == Prepend(hs + [v], o)
  {
    if o.Some? {
      assert hs + ([v] + o.value) == (hs + [v]) + o.value;
    }
  }

  /** One step of the walk from a node that is not the source and has a predecessor. */
  lemma WalkUnfold(prev: seq<Option<nat>>, source: nat, v: nat, fuel: nat)
    requires Handles(prev) && v < |prev| && v != source && fuel > 0 && prev[v].Some?
    ensures prev[v].value < |prev|
    ensures Walk(prev, source, v, fuel) == Prepend([v], Walk(prev, source, prev[v].value, fuel - 1))
  {
  }

  /** A walk that meets a node without predecessor, or runs out of steps, is not found. */
  lemma WalkStuck(prev: seq<Option<nat>>, source: nat, v: nat, fuel: nat)
    requires Handles(prev) && v < |prev| && v != source && (fuel == 0 || prev[v].None?)
    ensures Walk(prev, source, v, fuel) == None
  {
  }

  /** One step of the walk back: `v` joins the handles passed and the walk goes on from its
      predecessor. */
  lemma WalkBackStep(ids: seq<int>, prev: seq<Option<nat>>, source: nat, v: nat, fuel: nat,
                     hs: seq<nat>, whole: Option<seq<nat>>)
    requires Handles(prev) && |prev| == |ids| && v < |prev| && v != source && fuel > 0 && prev[v].Some?
    requires InRange(hs, |ids|) && whole == Prepend(hs, Walk(prev, source, v, fuel))
    ensures prev[v].value < |prev|
    ensures whole == Prepend(hs + [v], Walk(prev, source, prev[v].value, fuel - 1))
    ensures InRange(hs + [v], |ids|) && IdsOf(ids, hs + [v]) == IdsOf(ids, hs) + [ids[v]]
  {
    WalkUnfold(prev, source, v, fuel);
    PrependAssoc(hs, v, Walk(prev, source, prev[v].value, fuel - 1));
    IdsOfAppend(ids, hs, v);
  }

  /** The walk back ends at the source, which joins the handles passed. */
  lemma WalkBackEnd(ids: seq<int>, prev: seq<Option<nat>>, source: nat, fuel: nat,
                    hs: seq<nat>, whole: Option<seq<nat>>)
    requires Handles(prev) && |prev| == |ids| && source < |prev|
    requires InRange(hs, |ids|) && whole == Prepend(hs, Walk(prev, source, source, fuel))
    ensures InRange(hs + [source], |ids|) && whole == Some(hs + [source])
    ensures IdsOf(ids, hs + [source]) == IdsOf(ids, hs) + [ids[source]]
  {
    IdsOfAppend(ids, hs, source);
  }

  /** The walk back from the target along `previous_node`, bounded by `fuel` steps: the ids of
      the nodes passed, target first. */
  method WalkBack(ids: seq<int>, prev: seq<Option<nat>>, source: nat, target: nat, fuel: nat)
    returns (r: Option<seq<int>>)
    requires Handles(prev) && |prev| == |ids| && source < |ids| && target < |ids|
    ensures r == match Walk(prev, source, target, fuel)
      case None => None
      case Some(hs) => Some(IdsOf(ids, hs))
  {
    ghost var whole := Walk(prev, source, target, fuel);
    var path: seq<int> := [];
    ghost var hs: seq<nat> := [];
    var curr: nat := target;
    var rem := fuel;
    assert Prepend(hs, whole) == whole by {
      if whole.Some? {
        assert hs + whole.value == whole.value;
      }
    }
    while curr != source
      invariant curr < |prev| && InRange(hs, |ids|) && path == IdsOf(ids, hs)
      invariant whole == Prepend(hs, Walk(prev, source, curr, rem))
      decreases rem
    {
      if rem == 0 || prev[curr].None? {
        WalkStuck(prev, source, curr, rem);
        return None;
      }
      var p := prev[curr].value;
      WalkBackStep(ids, prev, source, curr, rem, hs, whole);
      path := path + [ids[curr]];
      hs := hs + [curr];
      curr := p;
      rem := rem - 1;
    }
    WalkBackEnd(ids, prev, source, rem, hs, whole);
    path := path + [ids[source]];
    r := Some(path);
  }

  /** Marking the current node visited: `is_visited`, `add_visited`, `remove_unvisited`. */
  method MarkVisited(g: Graph, cur: nat)
    requires cur < |g.isVisited|
    modifies g`isVisited, g`visited, g`unvisited
    ensures g.Traversal() == Visit(old(g.Traversal()), cur)
  {
    g.isVisited := g.isVisited[cur := true];
    g.visited := g.visited + {cur};
    g.unvisited := g.unvisited - {cur};
  }

  /** The path reconstruction of `solve` on the graph's own fields. */
  method ReconstructPath(g: Graph, source: nat, target: nat) returns (r: Outcome)
    requires g.Valid() && source < |g.ids| && target < |g.ids|
    ensures r == Reconstruction(g.Topo(), g.Traversal(), source, target)
  {
    var path := WalkBack(g.ids, g.previous, source, target, |g.nodes|);
    if path.None? {
      return NoPath;
    }
    r := Found(path.value, g.distance[target]);
  }

  /** One pass of the `while` loop of `solve`: relax from the current node, mark it visited and
      pick the next current node. */
  method Iterate(g: Graph, current: nat) returns (next: Option<nat>)
    requires g.Valid() && Consistent(g.Topo(), g.Traversal()) && current in g.unvisited
    modifies g`distance, g`previous, g`isVisited, g`visited, g`unvisited
    ensures g.Topo() == old(g.Topo()) && Consistent(g.Topo(), g.Traversal())
    ensures g.unvisited == old(g.unvisited) - {current}
    ensures g.Traversal() == Step(g.Topo(), old(g.Traversal()), current)
    ensures Targets(g.neighbours[current], |g.isVisited|) && next == NextCurrent(g.neighbours[current], g.isVisited)
    ensures match next
      case None => g.Traversal() == Traverse(g.Topo(), old(g.Traversal()), current)
      case Some(n) => n in g.unvisited && Traverse(g.Topo(), g.Traversal(), n) == Traverse(g.Topo(), old(g.Traversal()), current)
  {
    ghost var before := g.Traversal();
    TraverseStep(g.Topo(), before, current);
    Relax(g, current);
    MarkVisited(g, current);
    next := NextCurrent(g.neighbours[current], g.isVisited);
  }

  /** The `while` loop of `solve`, from the source: relax, mark visited, advance or stop. */
  method Explore(g: Graph, source: nat)
    requires g.Valid() && Consistent(g.Topo(), g.Traversal()) && source in g.unvisited
    modifies g`distance, g`previous, g`isVisited, g`visited, g`unvisited
    ensures g.Valid()
    ensures g.Traversal() == Traverse(g.Topo(), old(g.Traversal()), source)
  {
    ghost var t := g.Topo();
    ghost var start := g.Traversal();
    ghost var goal := Traverse(t, start, source);
    var current: nat := source;
    // `while graph.unvisited != 0` compares a set with a number and never fails: the loop ends
    // only at the `break`.
    while true
      invariant Consistent(t, g.Traversal()) && current in g.unvisited
      invariant Traverse(t, g.Traversal(), current) == goal
      invariant g.Topo() == t
      decreases |g.unvisited|
    {
      var next := Iterate(g, current);
      if next.None? {
        break;
      }
      current := next.value;
    }
  }

  /** `solve(graph, source_node_id, target_node_id)` on a graph that has not been solved yet. */
  method Solve(g: Graph, sourceId: int, targetId: int) returns (r: Outcome)
    requires g.Valid() && Fresh(g.Topo(), g.Traversal())
    requires HasNode(g.Topo(), sourceId) && HasNode(g.Topo(), targetId)
    modifies g`distance, g`previous, g`isVisited, g`visited, g`unvisited
    ensures g.Valid()
    ensures g.Traversal() == FinalState(g.Topo(), old(g.Traversal()), sourceId)
    ensures r == SolveOutcome(g.Topo(), old(g.Traversal()), sourceId, targetId)
  {
    var source := LocateSource(g, sourceId);
    StartedConsistent(g.Topo(), old(g.Traversal()), sourceId);
    Explore(g, source);
    var target := LocateTarget(g, targetId);
    r := ReconstructPath(g, source, target);
  }
}
