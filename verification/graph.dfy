/** The maze graph the controller builds while exploring: one node per fork
    (and the start cell), one edge per corridor walked between two forks.
    The source keeps nodes and edges as heap objects linked by pointers; here
    they live in one arena, `Graph`, and refer to each other by index. */
module MazeGraph {
  import opened Headings

  datatype Option<T> = None | Some(value: T)

  /** A tentative planner distance.  The source uses `INT_MAX` for "not
      reached yet"; `Inf` stands for it, and arithmetic on it stays `Inf`. */
  datatype Dist = Fin(n: nat) | Inf

  predicate Le(a: Dist, b: Dist) { b.Inf? || (a.Fin? && a.n <= b.n) }

  predicate Lt(a: Dist, b: Dist) { a.Fin? && (b.Inf? || a.n < b.n) }

  function Plus(a: Dist, w: nat): Dist { if a.Inf? then Inf else Fin(a.n + w) }

  /** A fork of the maze.  The four explored flags say which absolute
      exits need no further exploration from here; `distance` and `path`
      are written only by the planner; `edges` indexes the arena's edges. */
  datatype Node = Node(
    x: int, y: int,
    exploredNorth: bool, exploredEast: bool, exploredSouth: bool, exploredWest: bool,
    distance: Dist,
    path: seq<Dir>,
    edges: seq<nat>)

  /** A corridor between `start` and `end`, with the heading that leaves
      each endpoint into the corridor and its length in cells. */
  datatype Edge = Edge(start: nat, startDir: Dir, end: nat, endDir: Dir, distance: nat)

  datatype Graph = Graph(nodes: seq<Node>, edges: seq<Edge>)

  /** `new Node(x, y)`: no exit explored, infinite distance, empty path. */
  function NewNode(x: int, y: int): Node
  {
    Node(x, y, false, false, false, false, Inf, [], [])
  }

  function Explored(n: Node, d: Dir): bool
  {
    if d == North then n.exploredNorth
    else if d == East then n.exploredEast
    else if d == South then n.exploredSouth
    else n.exploredWest
  }

  /** Sets the explored flag of one absolute heading (the source's
      `switch` on a direction, assigning one of the four flags). */
  function SetExplored(n: Node, d: Dir, b: bool): (r: Node)
    ensures Explored(r, d) == b
    ensures forall d': Dir :: d' != d ==> Explored(r, d') == Explored(n, d')
    ensures r.x == n.x && r.y == n.y && r.edges == n.edges
    ensures r.distance == n.distance && r.path == n.path
  {
    if d == North then n.(exploredNorth := b)
    else if d == East then n.(exploredEast := b)
    else if d == South then n.(exploredSouth := b)
    else n.(exploredWest := b)
  }

  function MarkExplored(n: Node, d: Dir): Node
  {
    SetExplored(n, d, true)
  }

  /** The flags only ever move from unexplored to explored. */
  ghost predicate FlagsGrow(n: Node, n': Node)
  {
    forall d: Dir :: Explored(n, d) ==> Explored(n', d)
  }

  lemma MarkExploredGrows(n: Node, d: Dir)
    ensures FlagsGrow(n, MarkExplored(n, d))
  {
  }

  /** Everything but the explored flags. */
  ghost predicate SameButFlags(n: Node, n': Node)
  {
    n'.x == n.x && n'.y == n.y && n'.edges == n.edges && n'.distance == n.distance && n'.path == n.path
  }

  function AddLink(n: Node, e: nat): Node
  {
    n.(edges := n.edges + [e])
  }

  /** `n` is `n0` with edge `e` appended to its list and heading `d` marked
      explored; nothing else about it changes. */
  ghost predicate GainsEdge(n0: Node, n: Node, e: nat, d: Dir)
  {
    && n.edges == n0.edges + [e]
    && n.x == n0.x && n.y == n0.y && n.distance == n0.distance && n.path == n0.path
    && forall d': Dir :: Explored(n, d') == (Explored(n0, d') || d' == d)
  }

  /** The `Edge` constructor: records a corridor from `a` (left along
      heading `da`) to `b` (left along heading `db`) of length `len`,
      appends it to both endpoints' edge lists and marks `da` explored on
      `a` and `db` explored on `b`.  The steps run in the source's order,
      so a loop edge (`a == b`) would be registered twice on its node. */
  function AddEdge(g: Graph, a: nat, da: Dir, b: nat, db: Dir, len: nat): (r: Graph)
    requires a < |g.nodes| && b < |g.nodes|
    ensures |r.nodes| == |g.nodes|
    ensures r.edges == g.edges + [Edge(a, da, b, db, len)]
    ensures Explored(r.nodes[a], da) && Explored(r.nodes[b], db)
    ensures forall i :: 0 <= i < |g.nodes| && i != a && i != b ==> r.nodes[i] == g.nodes[i]
    ensures a != b ==> r.nodes[a].edges == g.nodes[a].edges + [|g.edges|]
    ensures a != b ==> r.nodes[b].edges == g.nodes[b].edges + [|g.edges|]
    ensures a != b ==> forall i :: 0 <= i < |g.nodes| ==>
      r.nodes[i].edges == g.nodes[i].edges + (if i == a || i == b then [|g.edges|] else [])
    ensures a != b ==> forall d: Dir :: d != da ==> Explored(r.nodes[a], d) == Explored(g.nodes[a], d)
    ensures a != b ==> forall d: Dir :: d != db ==> Explored(r.nodes[b], d) == Explored(g.nodes[b], d)
    ensures a != b ==> GainsEdge(g.nodes[a], r.nodes[a], |g.edges|, da) && GainsEdge(g.nodes[b], r.nodes[b], |g.edges|, db)
    ensures forall i :: 0 <= i < |g.nodes| ==> FlagsGrow(g.nodes[i], r.nodes[i])
    ensures forall i :: 0 <= i < |g.nodes| ==>
      r.nodes[i].x == g.nodes[i].x && r.nodes[i].y == g.nodes[i].y &&
      r.nodes[i].distance == g.nodes[i].distance && r.nodes[i].path == g.nodes[i].path
  {
    var e := |g.edges|;
    var ns1 := g.nodes[a := AddLink(g.nodes[a], e)];
    var ns2 := ns1[b := AddLink(ns1[b], e)];
    var ns3 := ns2[a := MarkExplored(ns2[a], da)];
    var ns4 := ns3[b := MarkExplored(ns3[b], db)];
    Graph(ns4, g.edges + [Edge(a, da, b, db, len)])
  }

  predicate At(n: Node, x: int, y: int) { n.x == x && n.y == y }

  /** The exploration controller's scan `for (node : nodes) if (at (x, y))
      currentNode = node;`: the LAST node at the coordinate, if any. */
  function FindLast(ns: seq<Node>, x: int, y: int): (r: Option<nat>)
    ensures r.Some? ==> r.value < |ns| && At(ns[r.value], x, y)
    ensures r.Some? ==> forall j :: r.value < j < |ns| ==> !At(ns[j], x, y)
    ensures r.None? ==> forall j :: 0 <= j < |ns| ==> !At(ns[j], x, y)
  {
    if |ns| == 0 then None
    else if At(ns[|ns| - 1], x, y) then Some(|ns| - 1)
    else FindLast(ns[..|ns| - 1], x, y)
  }

  /** The run controller's scan, which stops at the FIRST node at the
      coordinate. */
  function FindFirst(ns: seq<Node>, x: int, y: int): (r: Option<nat>)
    ensures r.Some? ==> r.value < |ns| && At(ns[r.value], x, y)
    ensures r.Some? ==> forall j :: 0 <= j < r.value ==> !At(ns[j], x, y)
    ensures r.None? ==> forall j :: 0 <= j < |ns| ==> !At(ns[j], x, y)
  {
    if |ns| == 0 then None
    else if At(ns[0], x, y) then Some(0)
    else match FindFirst(ns[1..], x, y)
      case None => None
      case Some(i) => Some(i + 1)
  }

  /** No two nodes share a coordinate. */
  ghost predicate UniqueCoords(ns: seq<Node>)
  {
    forall i, j :: 0 <= i < j < |ns| ==> !(ns[i].x == ns[j].x && ns[i].y == ns[j].y)
  }

  /** With unique coordinates both scans find the same node. */
  lemma FindFirstIsFindLast(ns: seq<Node>, x: int, y: int)
    requires UniqueCoords(ns)
    ensures FindFirst(ns, x, y) == FindLast(ns, x, y)
  {
  }

  predicate Touches(e: Edge, v: nat) { e.start == v || e.end == v }

  /** The far endpoint of `e` seen from `v`, chosen as the planner does
      (`v == start` ? `end` : `start`). */
  function Other(e: Edge, v: nat): nat { if e.start == v then e.end else e.start }

  /** The heading recorded at `v`'s own end of `e`. */
  function DirAt(e: Edge, v: nat): Dir { if e.start == v then e.startDir else e.endDir }

  /** Every edge joins two distinct nodes of the arena and is listed on both. */
  ghost predicate EdgesRegistered(g: Graph)
  {
    forall e :: 0 <= e < |g.edges| ==>
      g.edges[e].start < |g.nodes| && g.edges[e].end < |g.nodes| &&
      g.edges[e].start != g.edges[e].end &&
      e in g.nodes[g.edges[e].start].edges && e in g.nodes[g.edges[e].end].edges
  }

  /** Every edge a node lists exists and has that node as an endpoint. */
  ghost predicate IncidenceSound(g: Graph)
  {
    forall i, k :: 0 <= i < |g.nodes| && 0 <= k < |g.nodes[i].edges| ==>
      g.nodes[i].edges[k] < |g.edges| && Touches(g.edges[g.nodes[i].edges[k]], i)
  }

  /** Every node after the first was created together with an edge to an
      earlier node, and that edge is the first on its list. */
  ghost predicate LinkedToEarlier(g: Graph)
  {
    forall i :: 0 < i < |g.nodes| ==> HasEarlierLink(g, i)
  }

  /** The first edge on node `i`'s list leads to a node created before it. */
  ghost predicate HasEarlierLink(g: Graph, i: nat)
    requires i < |g.nodes|
  {
    |g.nodes[i].edges| > 0 && g.nodes[i].edges[0] < |g.edges| &&
    Other(g.edges[g.nodes[i].edges[0]], i) < i
  }

  ghost predicate WellFormed(g: Graph)
  {
    EdgesRegistered(g) && IncidenceSound(g) && LinkedToEarlier(g) && UniqueCoords(g.nodes)
  }

  /** The graph the first tick creates: one node and no edge. */
  lemma SingleNodeWellFormed(n: Node)
    requires n.edges == []
    ensures WellFormed(Graph([n], []))
  {
  }

  /** `r` is `g` with one edge from `a` to `b` appended and registered on
      both endpoints, and possibly one fresh node appended. */
  ghost predicate LinkShape(g: Graph, r: Graph, a: nat, b: nat)
  {
    |g.nodes| <= |r.nodes| <= |g.nodes| + 1 && a < |r.nodes| && b < |r.nodes| && a != b &&
    |r.edges| == |g.edges| + 1 && r.edges[..|g.edges|] == g.edges &&
    r.edges[|g.edges|].start == a && r.edges[|g.edges|].end == b &&
    (forall i :: 0 <= i < |r.nodes| ==>
      r.nodes[i].edges == (if i < |g.nodes| then g.nodes[i].edges else []) +
                          (if i == a || i == b then [|g.edges|] else [])) &&
    (forall i :: 0 <= i < |g.nodes| ==> r.nodes[i].x == g.nodes[i].x && r.nodes[i].y == g.nodes[i].y)
  }

  lemma ShapeRegistered(g: Graph, r: Graph, a: nat, b: nat)
    requires EdgesRegistered(g) && LinkShape(g, r, a, b)
    ensures EdgesRegistered(r)
  {
    forall e | 0 <= e < |r.edges|
      ensures r.edges[e].start < |r.nodes| && r.edges[e].end < |r.nodes|
      ensures r.edges[e].start != r.edges[e].end
      ensures e in r.nodes[r.edges[e].start].edges && e in r.nodes[r.edges[e].end].edges
    {
      if e < |g.edges| {
        assert r.edges[e] == g.edges[e];
        var s, t := g.edges[e].start, g.edges[e].end;
        assert e in g.nodes[s].edges && e in g.nodes[t].edges;
        assert r.nodes[s].edges[..|g.nodes[s].edges|] == g.nodes[s].edges;
        assert r.nodes[t].edges[..|g.nodes[t].edges|] == g.nodes[t].edges;
      } else {
        assert r.nodes[a].edges[|r.nodes[a].edges| - 1] == e;
        assert r.nodes[b].edges[|r.nodes[b].edges| - 1] == e;
      }
    }
  }

  lemma ShapeIncidence(g: Graph, r: Graph, a: nat, b: nat)
    requires IncidenceSound(g) && LinkShape(g, r, a, b)
    ensures IncidenceSound(r)
  {
    forall i, k | 0 <= i < |r.nodes| && 0 <= k < |r.nodes[i].edges|
      ensures r.nodes[i].edges[k] < |r.edges| && Touches(r.edges[r.nodes[i].edges[k]], i)
    {
      if i < |g.nodes| && k < |g.nodes[i].edges| {
        assert r.nodes[i].edges[k] == g.nodes[i].edges[k];
        assert r.edges[g.nodes[i].edges[k]] == g.edges[g.nodes[i].edges[k]];
      } else {
        assert r.nodes[i].edges[k] == |g.edges|;
      }
    }
  }

  lemma ShapeLinked(g: Graph, r: Graph, a: nat, b: nat)
    requires LinkedToEarlier(g) && IncidenceSound(g) && LinkShape(g, r, a, b)
    requires |r.nodes| > |g.nodes| ==> a < |g.nodes| && b == |g.nodes|
    ensures LinkedToEarlier(r)
  {
    forall i | 0 < i < |r.nodes|
      ensures HasEarlierLink(r, i)
    {
      if i < |g.nodes| {
        assert HasEarlierLink(g, i);
        assert r.nodes[i].edges[0] == g.nodes[i].edges[0];
        assert r.edges[g.nodes[i].edges[0]] == g.edges[g.nodes[i].edges[0]];
      } else {
        assert r.nodes[i].edges == [|g.edges|];
      }
    }
  }

  lemma ShapeUnique(g: Graph, r: Graph, a: nat, b: nat)
    requires UniqueCoords(g.nodes) && LinkShape(g, r, a, b)
    requires |r.nodes| > |g.nodes| ==> FindLast(g.nodes, r.nodes[|g.nodes|].x, r.nodes[|g.nodes|].y).None?
    ensures UniqueCoords(r.nodes)
  {
    forall i, j | 0 <= i < j < |r.nodes|
      ensures !(r.nodes[i].x == r.nodes[j].x && r.nodes[i].y == r.nodes[j].y)
    {
      if j < |g.nodes| {
        assert !(g.nodes[i].x == g.nodes[j].x && g.nodes[i].y == g.nodes[j].y);
      } else {
        assert !At(g.nodes[i], r.nodes[j].x, r.nodes[j].y);
      }
    }
  }

  lemma ShapeWellFormed(g: Graph, r: Graph, a: nat, b: nat)
    requires WellFormed(g) && LinkShape(g, r, a, b)
    requires |r.nodes| > |g.nodes| ==> a < |g.nodes| && b == |g.nodes|
    requires |r.nodes| > |g.nodes| ==> FindLast(g.nodes, r.nodes[|g.nodes|].x, r.nodes[|g.nodes|].y).None?
    ensures WellFormed(r)
  {
    ShapeRegistered(g, r, a, b);
    ShapeIncidence(g, r, a, b);
    ShapeLinked(g, r, a, b);
    ShapeUnique(g, r, a, b);
  }

  /** Appending a fresh node and linking an existing node to it has the
      shape of a link. */
  lemma NewNodeLinkShape(g: Graph, a: nat, da: Dir, x: int, y: int, db: Dir, len: nat)
    requires a < |g.nodes|
    ensures var g1 := Graph(g.nodes + [NewNode(x, y)], g.edges);
            var r := AddEdge(g1, a, da, |g.nodes|, db, len);
            LinkShape(g, r, a, |g.nodes|) && r.nodes[|g.nodes|].x == x && r.nodes[|g.nodes|].y == y
  {
    var g1 := Graph(g.nodes + [NewNode(x, y)], g.edges);
    var r := AddEdge(g1, a, da, |g.nodes|, db, len);
    assert r.edges[..|g.edges|] == g.edges;
    forall i | 0 <= i < |r.nodes|
      ensures r.nodes[i].edges == (if i < |g.nodes| then g.nodes[i].edges else []) +
                                  (if i == a || i == |g.nodes| then [|g.edges|] else [])
    {
      assert r.nodes[i].edges == g1.nodes[i].edges + (if i == a || i == |g.nodes| then [|g.edges|] else []);
      assert g1.nodes[i].edges == (if i < |g.nodes| then g.nodes[i].edges else []);
    }
  }

  /** Appending a node at a free coordinate and linking it to an existing
      node keeps the graph well formed. */
  lemma AddNodeWithEdgeWellFormed(g: Graph, a: nat, da: Dir, x: int, y: int, db: Dir, len: nat)
    requires WellFormed(g) && a < |g.nodes|
    requires FindLast(g.nodes, x, y).None?
    ensures var g1 := Graph(g.nodes + [NewNode(x, y)], g.edges);
            WellFormed(AddEdge(g1, a, da, |g.nodes|, db, len))
  {
    NewNodeLinkShape(g, a, da, x, y, db, len);
    var g1 := Graph(g.nodes + [NewNode(x, y)], g.edges);
    ShapeWellFormed(g, AddEdge(g1, a, da, |g.nodes|, db, len), a, |g.nodes|);
  }

  /** Linking two distinct existing nodes keeps the graph well formed. */
  lemma AddEdgeWellFormed(g: Graph, a: nat, da: Dir, b: nat, db: Dir, len: nat)
    requires WellFormed(g) && a < |g.nodes| && b < |g.nodes| && a != b
    ensures WellFormed(AddEdge(g, a, da, b, db, len))
  {
    var r := AddEdge(g, a, da, b, db, len);
    assert r.edges[..|g.edges|] == g.edges;
    ShapeWellFormed(g, r, a, b);
  }

  /** Changing only explored flags keeps the graph well formed. */
  lemma ReflagWellFormed(g: Graph, i: nat, n: Node)
    requires WellFormed(g) && i < |g.nodes| && SameButFlags(g.nodes[i], n)
    ensures WellFormed(Graph(g.nodes[i := n], g.edges))
  {
    var r := Graph(g.nodes[i := n], g.edges);
    forall e | 0 <= e < |r.edges|
      ensures e in r.nodes[r.edges[e].start].edges && e in r.nodes[r.edges[e].end].edges
    {
      assert e in g.nodes[g.edges[e].start].edges;
      assert e in g.nodes[g.edges[e].end].edges;
    }
    forall j | 0 < j < |r.nodes|
      ensures HasEarlierLink(r, j)
    {
      assert HasEarlierLink(g, j);
    }
    assert UniqueCoords(r.nodes) by {
      forall j, k | 0 <= j < k < |r.nodes|
        ensures !(r.nodes[j].x == r.nodes[k].x && r.nodes[j].y == r.nodes[k].y)
      {
        assert !(g.nodes[j].x == g.nodes[k].x && g.nodes[j].y == g.nodes[k].y);
      }
    }
  }

  /** A walk through the maze: the edges `es`, taken in order, lead from
      node `a` to node `b`. */
  ghost predicate IsWalk(g: Graph, a: nat, es: seq<nat>, b: nat)
    decreases |es|
  {
    if es == [] then a == b
    else es[0] < |g.edges| && Touches(g.edges[es[0]], a) &&
         IsWalk(g, Other(g.edges[es[0]], a), es[1..], b)
  }

  /** The number of corridor cells along a list of edges. */
  function Weight(g: Graph, es: seq<nat>): nat
    decreases |es|
  {
    if es == [] then 0
    else (if es[0] < |g.edges| then g.edges[es[0]].distance else 0) + Weight(g, es[1..])
  }

  /** The heading to take at each fork along a walk from `a`. */
  function WalkHeadings(g: Graph, a: nat, es: seq<nat>): seq<Dir>
    decreases |es|
  {
    if es == [] || es[0] >= |g.edges| then []
    else [DirAt(g.edges[es[0]], a)] + WalkHeadings(g, Other(g.edges[es[0]], a), es[1..])
  }

  /** A walk extended by one more edge at its far end. */
  lemma {:induction false} WalkSnoc(g: Graph, a: nat, es: seq<nat>, b: nat, e: nat)
    requires IsWalk(g, a, es, b) && e < |g.edges| && Touches(g.edges[e], b)
    ensures IsWalk(g, a, es + [e], Other(g.edges[e], b))
    ensures Weight(g, es + [e]) == Weight(g, es) + g.edges[e].distance
    ensures WalkHeadings(g, a, es + [e]) == WalkHeadings(g, a, es) + [DirAt(g.edges[e], b)]
    decreases |es|
  {
    if es == [] {
      assert [e][1..] == [];
    } else {
      assert (es + [e])[1..] == es[1..] + [e];
      WalkSnoc(g, Other(g.edges[es[0]], a), es[1..], b, e);
    }
  }

  /** Every node of a well-formed graph can be reached from the start node:
      the graph is connected. */
  lemma {:induction false} Reachable(g: Graph, i: nat)
    requires WellFormed(g) && i < |g.nodes|
    ensures exists es :: IsWalk(g, 0, es, i)
    decreases i
  {
    if i == 0 {
      assert IsWalk(g, 0, [], 0);
    } else {
      assert HasEarlierLink(g, i);
      var e := g.nodes[i].edges[0];
      var j := Other(g.edges[e], i);
      assert Touches(g.edges[e], i) by {
        assert IncidenceSound(g);
        assert g.nodes[i].edges[0] == e;
      }
      assert g.edges[e].start != g.edges[e].end;
      Reachable(g, j);
      var es :| IsWalk(g, 0, es, j);
      assert Touches(g.edges[e], j);
      assert Other(g.edges[e], j) == i;
      WalkSnoc(g, 0, es, j, e);
    }
  }
}
