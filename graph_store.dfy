/**
  The graph store of djikastra.py: `Node` records, `Graph.add_node` and `Graph.add_edge`.

  A node is an integer handle into the graph's arena of node records; the arena holds every node
  created for this graph, whether or not it has been added to the node set yet. Each record keeps
  the node's id, its outgoing neighbour set and its traversal state (tentative distance,
  predecessor, visited flag). Python's sets become sequences with a fixed order without duplicates.
*/
module GraphStore {

  datatype Option<T> = None | Some(value: T)

  /** A tentative distance: Python's `float('inf')` or a finite sum of weights. */
  datatype Distance = Inf | Fin(value: nat)

  /** `d + w` with `inf + w == inf`. */
  function Plus(d: Distance, w: nat): (r: Distance)
    ensures r.Inf? <==> d.Inf?
    ensures d.Fin? ==> r.value == d.value + w
    ensures AtMost(d, r)
  {
    match d
    case Inf => Inf
    case Fin(x) => Fin(x + w)
  }

  /** `a < b` on distances, where nothing is smaller than infinity except a finite distance: the
      strict form of `AtMost`, and exactly the negation of `b <= a`. */
  predicate Below(a: Distance, b: Distance)
    ensures Below(a, b) <==> AtMost(a, b) && a != b
    ensures Below(a, b) <==> !AtMost(b, a)
  {
    a.Fin? && (b.Inf? || a.value < b.value)
  }

  /** `a <= b` on distances. */
  predicate AtMost(a: Distance, b: Distance)
  {
    b.Inf? || (a.Fin? && a.value <= b.value)
  }

  /** An outgoing edge as the source stores it: (target node, weight). */
  type Edge = (nat, nat)

  /** What the solver reads and never changes: ids, neighbour sets, the node set. */
  datatype Topology = Topology(ids: seq<int>, adj: seq<seq<Edge>>, nodes: set<nat>)

  /** The per-node traversal fields and the graph's two partition sets. */
  datatype TraversalState = TraversalState(
    distance: seq<Distance>,
    previous: seq<Option<nat>>,
    isVisited: seq<bool>,
    visited: set<nat>,
    unvisited: set<nat>)

  predicate Distinct(es: seq<Edge>)
  {
    forall i, j | 0 <= i < j < |es| :: es[i] != es[j]
  }

  /** Every handle names an arena record, every edge leads to a node of the graph, and a neighbour
      list is a set (no entry twice). */
  ghost predicate WellFormed(t: Topology)
  {
    && |t.adj| == |t.ids|
    && (forall h | h in t.nodes :: h < |t.ids|)
    && (forall a, e | 0 <= a < |t.adj| && e in t.adj[a] :: e.0 in t.nodes)
    && (forall a | 0 <= a < |t.adj| :: Distinct(t.adj[a]))
  }

  /** The traversal state has one entry per arena record and predecessors are handles. */
  ghost predicate Fits(t: Topology, s: TraversalState)
  {
    && |s.distance| == |t.ids|
    && |s.previous| == |t.ids|
    && |s.isVisited| == |t.ids|
    && (forall v | 0 <= v < |s.previous| && s.previous[v].Some? :: s.previous[v].value < |t.ids|)
  }

  /** Python's `set.add` on a neighbour set. */
  function Insert(es: seq<Edge>, e: Edge): (r: seq<Edge>)
    ensures e in r && |es| <= |r| <= |es| + 1
  {
    if e in es then es else es + [e]
  }

  /** The neighbour set after adding `(b, w)` for every `b` of `bs`, in order. */
  function InsertAll(es: seq<Edge>, bs: seq<nat>, w: nat): (r: seq<Edge>)
    ensures |es| <= |r| <= |es| + |bs|
    decreases |bs|
  {
    if bs == [] then es
    else Insert(InsertAll(es, bs[..|bs| - 1], w), (bs[|bs| - 1], w))
  }

  /** Adding to a neighbour set keeps what was there, adds exactly the new pairs and keeps it a set. */
  lemma {:induction false} InsertAllElements(es: seq<Edge>, bs: seq<nat>, w: nat)
    ensures forall x :: x in InsertAll(es, bs, w) <==> x in es || (x.1 == w && x.0 in bs)
    ensures Distinct(es) ==> Distinct(InsertAll(es, bs, w))
    decreases |bs|
  {
    if bs != [] {
      var init := bs[..|bs| - 1];
      InsertAllElements(es, init, w);
      assert forall x :: x in bs <==> x in init || x == bs[|bs| - 1] by {
        assert bs == init + [bs[|bs| - 1]];
      }
    }
  }

  /** The handles below `n` of the nodes whose id is `id`, in ascending order. */
  function WithId(ids: seq<int>, nodes: set<nat>, id: int, n: nat): (r: seq<nat>)
    requires n <= |ids|
    ensures |r| <= n
  {
    if n == 0 then []
    else WithId(ids, nodes, id, n - 1) + (if n - 1 in nodes && ids[n - 1] == id then [n - 1] else [])
  }

  /** `WithId` lists exactly the matching handles. */
  lemma {:induction false} WithIdElements(ids: seq<int>, nodes: set<nat>, id: int, n: nat)
    requires n <= |ids|
    ensures forall h :: h in WithId(ids, nodes, id, n) <==> h < n && h in nodes && ids[h] == id
  {
    if n > 0 {
      WithIdElements(ids, nodes, id, n - 1);
    }
  }

  /** The last node below `n` (in handle order) whose id is `id`: the one a scan over the node set
      that keeps overwriting its answer ends with. */
  function LastWithId(ids: seq<int>, nodes: set<nat>, id: int, n: nat): (r: Option<nat>)
    requires n <= |ids|
    ensures r.None? <==> forall h | 0 <= h < n :: !(h in nodes && ids[h] == id)
    ensures r.Some? ==> r.value < n && r.value in nodes && ids[r.value] == id
    ensures r.Some? ==> forall h | r.value < h < n :: !(h in nodes && ids[h] == id)
  {
    if n == 0 then None
    else if n - 1 in nodes && ids[n - 1] == id then Some(n - 1)
    else LastWithId(ids, nodes, id, n - 1)
  }

  /** Some node of the graph has id `id`. */
  ghost predicate HasNode(t: Topology, id: int)
  {
    exists h :: h in t.nodes && h < |t.ids| && t.ids[h] == id
  }

  /** The node a lookup of `id` finds. */
  function Lookup(t: Topology, id: int): (h: nat)
    requires WellFormed(t) && HasNode(t, id)
    ensures h in t.nodes && t.ids[h] == id
  {
    var r := LastWithId(t.ids, t.nodes, id, |t.ids|);
    assert r.Some?;
    r.value
  }

  /** The graph after `add_edge(fromId, toId, w)`: every node with id `fromId` gains `(b, w)` for
      every node `b` with id `toId`. */
  function AddEdgeSpec(t: Topology, fromId: int, toId: int, w: nat): (r: Topology)
    requires |t.adj| == |t.ids|
    ensures r.ids == t.ids && r.nodes == t.nodes && |r.adj| == |t.adj|
    ensures forall a | 0 <= a < |t.adj| && !(a in t.nodes && t.ids[a] == fromId) :: r.adj[a] == t.adj[a]
  {
    var targets := WithId(t.ids, t.nodes, toId, |t.ids|);
    t.(adj := seq(|t.adj|, a requires 0 <= a < |t.adj| =>
      if a in t.nodes && t.ids[a] == fromId then InsertAll(t.adj[a], targets, w) else t.adj[a]))
  }

  /** What `add_edge` does to the neighbour sets, as sets: an entry `(b, w)` appears at `a` when `a`
      has id `fromId` and `b` id `toId`; nothing else changes, and when either id is absent the
      graph is unchanged. */
  lemma AddEdgeMeaning(t: Topology, fromId: int, toId: int, w: nat)
    requires WellFormed(t)
    ensures WellFormed(AddEdgeSpec(t, fromId, toId, w))
    ensures AddEdgeSpec(t, fromId, toId, w).ids == t.ids && AddEdgeSpec(t, fromId, toId, w).nodes == t.nodes
    ensures forall a, x | 0 <= a < |t.adj| ::
      x in AddEdgeSpec(t, fromId, toId, w).adj[a] <==>
        x in t.adj[a] || (a in t.nodes && t.ids[a] == fromId && x.1 == w && x.0 in t.nodes && t.ids[x.0] == toId)
    ensures !HasNode(t, fromId) || !HasNode(t, toId) ==> AddEdgeSpec(t, fromId, toId, w) == t
  {
    var r := AddEdgeSpec(t, fromId, toId, w);
    var targets := WithId(t.ids, t.nodes, toId, |t.ids|);
    WithIdElements(t.ids, t.nodes, toId, |t.ids|);
    forall a | 0 <= a < |t.adj|
      ensures forall x :: x in InsertAll(t.adj[a], targets, w) <==> x in t.adj[a] || (x.1 == w && x.0 in targets)
      ensures Distinct(InsertAll(t.adj[a], targets, w))
    {
      InsertAllElements(t.adj[a], targets, w);
    }
    assert targets != [] ==> HasNode(t, toId) by {
      if targets != [] {
        assert targets[0] in targets;
      }
    }
    if !HasNode(t, toId) {
      assert r.adj == t.adj;
    }
    if !HasNode(t, fromId) {
      assert r.adj == t.adj;
    }
  }

  /** One more step of the inner scan of `add_edge`. */
  lemma InsertAllStep(es: seq<Edge>, ids: seq<int>, nodes: set<nat>, id: int, b: nat, w: nat)
    requires b < |ids|
    ensures InsertAll(es, WithId(ids, nodes, id, b + 1), w) ==
      if b in nodes && ids[b] == id then Insert(InsertAll(es, WithId(ids, nodes, id, b), w), (b, w))
      else InsertAll(es, WithId(ids, nodes, id, b), w)
  {
    var done := WithId(ids, nodes, id, b);
    var next := WithId(ids, nodes, id, b + 1);
    if b in nodes && ids[b] == id {
      assert next == done + [b];
      assert next[..|next| - 1] == done;
      assert InsertAll(es, next, w) == Insert(InsertAll(es, next[..|next| - 1], w), (next[|next| - 1], w));
    } else {
      assert next == done;
    }
  }

  class Graph {
    var ids: seq<int>
    var neighbours: seq<seq<Edge>>
    var distance: seq<Distance>
    var previous: seq<Option<nat>>
    var isVisited: seq<bool>
    var nodes: set<nat>
    var visited: set<nat>
    var unvisited: set<nat>

    function Topo(): Topology
      reads this
    {
      Topology(ids, neighbours, nodes)
    }

    function Traversal(): TraversalState
      reads this
    {
      TraversalState(distance, previous, isVisited, visited, unvisited)
    }

    ghost predicate Valid()
      reads this
    {
      WellFormed(Topo()) && Fits(Topo(), Traversal())
    }

    /** `Graph()`: no nodes, empty partition sets. */
    constructor ()
      ensures Valid()
      ensures Topo() == Topology([], [], {})
      ensures Traversal() == TraversalState([], [], [], {}, {})
    {
      ids, neighbours, nodes := [], [], {};
      distance, previous, isVisited := [], [], [];
      visited, unvisited := {}, {};
    }

    /** `Node(id)`: a fresh node with no neighbours, no predecessor, distance infinity, not visited.
        It belongs to the arena but not yet to the node set. */
    method NewNode(id: int) returns (h: nat)
      requires Valid()
      modifies this
      ensures Valid()
      ensures h == old(|ids|)
      ensures Topo() == Topology(old(ids) + [id], old(neighbours) + [[]], old(nodes))
      ensures Traversal() == TraversalState(old(distance) + [Inf], old(previous) + [None],
                                            old(isVisited) + [false], old(visited), old(unvisited))
    {
      h := |ids|;
      ids := ids + [id];
      neighbours := neighbours + [[]];
      distance := distance + [Inf];
      previous := previous + [None];
      isVisited := isVisited + [false];
    }

    /** `add_node(node)`: the node joins the node set and the unvisited set, nothing else changes;
        adding it again changes nothing. */
    method AddNode(h: nat)
      requires Valid() && h < |ids|
      modifies this
      ensures Valid()
      ensures Topo() == old(Topo()).(nodes := old(nodes) + {h})
      ensures Traversal() == old(Traversal()).(unvisited := old(unvisited) + {h})
      ensures old(h in nodes && h in unvisited) ==> Topo() == old(Topo()) && Traversal() == old(Traversal())
    {
      nodes := nodes + {h};
      unvisited := unvisited + {h};
    }

    /** `add_edge(from_node_id, to_node_id, weight)`: the outer scan over the node set. */
    method AddEdge(fromId: int, toId: int, weight: nat)
      requires Valid()
      modifies this`neighbours
      ensures Valid()
      ensures Topo() == AddEdgeSpec(old(Topo()), fromId, toId, weight)
      ensures Traversal() == old(Traversal())
    {
      ghost var targets := WithId(ids, nodes, toId, |ids|);
      var a := 0;
      while a < |ids|
        invariant 0 <= a <= |ids|
        invariant |neighbours| == |ids|
        invariant forall x | 0 <= x < |ids| ::
          neighbours[x] == (if x < a && x in nodes && ids[x] == fromId then InsertAll(old(neighbours)[x], targets, weight)
                            else old(neighbours)[x])
      {
        AddEdgesFrom(a, fromId, toId, weight);
        a := a + 1;
      }
      ghost var spec := AddEdgeSpec(old(Topo()), fromId, toId, weight);
      assert |neighbours| == |spec.adj|;
      assert forall x | 0 <= x < |ids| :: neighbours[x] == spec.adj[x];
      assert neighbours == spec.adj;
      AddEdgeMeaning(old(Topo()), fromId, toId, weight);
    }

    /** The inner scan of `add_edge` for one node `a` of the outer scan. */
    method AddEdgesFrom(a: nat, fromId: int, toId: int, weight: nat)
      requires |neighbours| == |ids| && a < |ids|
      modifies this`neighbours
      ensures |neighbours| == |old(neighbours)|
      ensures forall x | 0 <= x < |neighbours| && x != a :: neighbours[x] == old(neighbours)[x]
      ensures neighbours[a] ==
        if a in nodes && ids[a] == fromId then InsertAll(old(neighbours)[a], WithId(ids, nodes, toId, |ids|), weight)
        else old(neighbours)[a]
    {
      ghost var base := neighbours[a];
      ghost var matches := a in nodes && ids[a] == fromId;
      var b := 0;
      while b < |ids|
        invariant 0 <= b <= |ids|
        invariant |neighbours| == |old(neighbours)|
        invariant forall x | 0 <= x < |neighbours| && x != a :: neighbours[x] == old(neighbours)[x]
        invariant neighbours[a] == if matches then InsertAll(base, WithId(ids, nodes, toId, b), weight) else base
      {
        InsertAllStep(base, ids, nodes, toId, b, weight);
        if a in nodes && b in nodes && ids[a] == fromId && ids[b] == toId {
          AddNeighbour(a, b, weight);
        }
        b := b + 1;
      }
    }

    /** `node_1.neighbours.add((node_2, weight))`. */
    method AddNeighbour(a: nat, b: nat, weight: nat)
      requires a < |neighbours|
      modifies this`neighbours
      ensures |neighbours| == |old(neighbours)|
      ensures forall x | 0 <= x < |neighbours| && x != a :: neighbours[x] == old(neighbours)[x]
      ensures neighbours[a] == Insert(old(neighbours)[a], (b, weight))
    {
      neighbours := neighbours[a := Insert(neighbours[a], (b, weight))];
    }
  }
}
