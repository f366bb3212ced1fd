/** The COMPUTING_SHORTEST_PATH phase: Dijkstra's algorithm over the maze
    graph from the start node to the node at the recorded goal, writing
    each reached node's distance and the headings to take at each fork. */
module Planner {
  import opened Headings
  import opened MazeGraph
  import opened Mouse

  /** Everything but the planner's labels. */
  ghost predicate SameButLabels(n: Node, n': Node)
  {
    n'.x == n.x && n'.y == n.y && n'.edges == n.edges &&
    n'.exploredNorth == n.exploredNorth && n'.exploredEast == n.exploredEast &&
    n'.exploredSouth == n.exploredSouth && n'.exploredWest == n.exploredWest
  }

  ghost predicate SameTopology(g: Graph, ns: seq<Node>)
  {
    |ns| == |g.nodes| && forall i :: 0 <= i < |ns| ==> SameButLabels(g.nodes[i], ns[i])
  }

  /** A finite label is the weight of a real walk from the start node, and
      the recorded path is that walk's headings. */
  ghost predicate Labelled(g: Graph, ns: seq<Node>, v: nat)
    requires v < |ns|
  {
    ns[v].distance.Fin? ==>
      exists es :: IsWalk(g, 0, es, v) && Weight(g, es) == ns[v].distance.n &&
                   WalkHeadings(g, 0, es) == ns[v].path
  }

  ghost predicate Sound(g: Graph, ns: seq<Node>)
  {
    forall v :: 0 <= v < |ns| ==> Labelled(g, ns, v)
  }

  /** Edge `e`, seen from its endpoint `v`, cannot improve the far end. */
  ghost predicate EdgeRelaxed(g: Graph, ns: seq<Node>, v: nat, e: nat)
  {
    e < |g.edges| && v < |ns| && Other(g.edges[e], v) < |ns| &&
    Le(ns[Other(g.edges[e], v)].distance, Plus(ns[v].distance, g.edges[e].distance))
  }

  /** The first `m` edges on `v`'s list are relaxed. */
  ghost predicate RelaxedAt(g: Graph, ns: seq<Node>, v: nat, m: nat)
  {
    v < |g.nodes| && m <= |g.nodes[v].edges| &&
    forall k :: 0 <= k < m ==> EdgeRelaxed(g, ns, v, g.nodes[v].edges[k])
  }

  ghost predicate Distinct(u: seq<nat>)
  {
    forall i, j :: 0 <= i < j < |u| ==> u[i] != u[j]
  }

  /** Node numbers in discovery order: nodes are appended as they are
      found, so a lower number means an earlier discovery. */
  ghost predicate Increasing(u: seq<nat>)
  {
    forall i, j :: 0 <= i < j < |u| ==> u[i] < u[j]
  }

  /** Lowering labels other than `v`'s keeps `v`'s edges relaxed. */
  lemma RelaxedLowered(g: Graph, ns: seq<Node>, ns': seq<Node>, v: nat, m: nat)
    requires RelaxedAt(g, ns, v, m) && |ns'| == |ns| && v < |ns| && ns'[v].distance == ns[v].distance
    requires forall i :: 0 <= i < |ns| ==> Le(ns'[i].distance, ns[i].distance)
    ensures RelaxedAt(g, ns', v, m)
  {
    forall k | 0 <= k < m
      ensures EdgeRelaxed(g, ns', v, g.nodes[v].edges[k])
    {
      assert EdgeRelaxed(g, ns, v, g.nodes[v].edges[k]);
    }
  }

  /** The source's removal from the unvisited list: the first entry equal
      to `x` is erased. */
  function RemoveFirst(u: seq<nat>, x: nat): (r: seq<nat>)
    ensures x in u ==> |r| == |u| - 1
    ensures x !in u ==> r == u
    ensures forall y :: y in r ==> y in u
    ensures forall y :: y in u && y != x ==> y in r
    ensures Distinct(u) ==> Distinct(r) && x !in r
  {
    if |u| == 0 then []
    else if u[0] == x then u[1..]
    else
      assert Distinct(u) ==> Distinct(u[1..]) && u[0] !in u[1..];
      [u[0]] + RemoveFirst(u[1..], x)
  }

  /** The position of the first occurrence of `x` in `u`. */
  function FirstIndex(u: seq<nat>, x: nat): (i: nat)
    requires x in u
    ensures i < |u| && u[i] == x && x !in u[..i]
  {
    if u[0] == x then 0
    else
      var i := FirstIndex(u[1..], x);
      assert u[..i + 1] == [u[0]] + u[1..][..i];
      i + 1
  }

  /** Removal erases exactly the first occurrence of `x` and keeps every
      other entry in its place and order. */
  lemma {:induction false} RemoveFirstErases(u: seq<nat>, x: nat)
    requires x in u
    ensures RemoveFirst(u, x) == u[..FirstIndex(u, x)] + u[FirstIndex(u, x) + 1..]
  {
    if u[0] == x {
      assert u[..0] + u[1..] == u[1..];
    } else {
      var t := u[1..];
      RemoveFirstErases(t, x);
      var i := FirstIndex(t, x);
      assert FirstIndex(u, x) == i + 1;
      DeleteAfterHead(u, i);
    }
  }

  /** Deleting entry `i` of the tail is deleting entry `i + 1` of the whole. */
  lemma DeleteAfterHead(u: seq<nat>, i: nat)
    requires i + 1 < |u|
    ensures [u[0]] + (u[1..][..i] + u[1..][i + 1..]) == u[..i + 1] + u[i + 2..]
  {
    assert u[..i + 1] == [u[0]] + u[1..][..i];
    assert u[i + 2..] == u[1..][i + 1..];
  }

  /** Deleting one entry keeps a sequence in increasing order. */
  lemma DeleteIncreasing(u: seq<nat>, i: nat)
    requires i < |u| && Increasing(u)
    ensures Increasing(u[..i] + u[i + 1..])
  {
    var r := u[..i] + u[i + 1..];
    forall a, b | 0 <= a < b < |r|
      ensures r[a] < r[b]
    {
      var a' := if a < i then a else a + 1;
      var b' := if b < i then b else b + 1;
      assert r[a] == u[a'] && r[b] == u[b'];
    }
  }

  /** Removal keeps the unvisited list in discovery order. */
  lemma RemoveFirstKeepsOrder(u: seq<nat>, x: nat)
    requires Increasing(u)
    ensures Increasing(RemoveFirst(u, x))
  {
    if x in u {
      RemoveFirstErases(u, x);
      DeleteIncreasing(u, FirstIndex(u, x));
    }
  }

  /** The source's selection of the next node: start from the front of
      the unvisited list and take a later entry only when its distance is
      strictly smaller, so ties go to the earliest-discovered node. */
  method SelectMin(u: seq<nat>, ns: seq<Node>) returns (pos: nat)
    requires |u| > 0 && forall j :: 0 <= j < |u| ==> u[j] < |ns|
    ensures pos < |u|
    ensures forall j :: 0 <= j < |u| ==> Le(ns[u[pos]].distance, ns[u[j]].distance)
    ensures forall j :: 0 <= j < pos ==> Lt(ns[u[pos]].distance, ns[u[j]].distance)
    ensures Increasing(u) ==>
      forall j :: 0 <= j < |u| && ns[u[j]].distance == ns[u[pos]].distance ==> u[pos] <= u[j]
  {
    pos := 0;
    var i := 1;
    while i < |u|
      invariant 1 <= i <= |u| && pos < i
      invariant forall j :: 0 <= j < i ==> Le(ns[u[pos]].distance, ns[u[j]].distance)
      invariant forall j :: 0 <= j < pos ==> Lt(ns[u[pos]].distance, ns[u[j]].distance)
    {
      if Lt(ns[u[i]].distance, ns[u[pos]].distance) {
        pos := i;
      }
      i := i + 1;
    }
  }

  /** The walk from `a` to `b` leaves the visited set somewhere; the first
      unvisited node on it is labelled no worse than `a`'s label plus the
      walk's weight, because every visited node's edges are relaxed. */
  lemma {:induction false} LeaveVisited(g: Graph, ns: seq<Node>, V: set<nat>, a: nat, es: seq<nat>, b: nat)
    requires WellFormed(g) && |ns| == |g.nodes|
    requires forall v :: v in V ==> v < |g.nodes| && RelaxedAt(g, ns, v, |g.nodes[v].edges|)
    requires a in V && a < |ns| && ns[a].distance.Fin?
    requires IsWalk(g, a, es, b) && b !in V
    ensures exists u :: 0 <= u < |ns| && u !in V && Le(ns[u].distance, Plus(ns[a].distance, Weight(g, es)))
    decreases |es|
  {
    var e := es[0];
    var n := Other(g.edges[e], a);
    assert e in g.nodes[a].edges by {
      assert EdgesRegistered(g);
    }
    var k :| 0 <= k < |g.nodes[a].edges| && g.nodes[a].edges[k] == e;
    assert RelaxedAt(g, ns, a, |g.nodes[a].edges|);
    assert EdgeRelaxed(g, ns, a, e);
    assert Weight(g, es) == g.edges[e].distance + Weight(g, es[1..]);
    if n in V {
      LeaveVisited(g, ns, V, n, es[1..], b);
    } else {
      assert 0 <= n < |ns|;
    }
  }

  /** One step of the relaxation loop: if going through `cur` along edge
      `e` is strictly shorter than the far end's label, the far end takes
      that distance and `cur`'s path plus the heading of `e` at `cur`. */
  function RelaxEdge(g: Graph, ns: seq<Node>, cur: nat, e: nat): seq<Node>
    requires e < |g.edges| && cur < |ns| && Other(g.edges[e], cur) < |ns|
  {
    var nb := Other(g.edges[e], cur);
    var cand := Plus(ns[cur].distance, g.edges[e].distance);
    if Lt(cand, ns[nb].distance) then
      ns[nb := ns[nb].(distance := cand, path := ns[cur].path + [DirAt(g.edges[e], cur)])]
    else ns
  }

  /** What the relaxation loop keeps: the topology, sound labels, the
      current node's own label, labels that only go down and never below
      the current node's, and the edges relaxed so far. */
  ghost predicate RelaxProgress(g: Graph, ns0: seq<Node>, ns: seq<Node>, cur: nat, k: nat)
  {
    && cur < |ns0| && SameTopology(g, ns) && |ns0| == |ns| && Sound(g, ns) && ns[cur] == ns0[cur]
    && (forall v :: 0 <= v < |ns0| ==> Le(ns[v].distance, ns0[v].distance))
    && (forall v :: 0 <= v < |ns0| ==>
          ns[v] == ns0[v] || (Le(ns0[cur].distance, ns[v].distance) && Lt(ns[v].distance, ns0[v].distance)))
    && RelaxedAt(g, ns, cur, k)
  }

  /** A label that did not change stays the weight of its walk. */
  lemma LabelledKept(g: Graph, ns: seq<Node>, ns': seq<Node>, v: nat)
    requires v < |ns| && v < |ns'| && ns'[v] == ns[v] && Labelled(g, ns, v)
    ensures Labelled(g, ns', v)
  {
  }

  /** The far end's new label: the current node's walk extended by the
      edge. */
  lemma RelaxedLabelled(g: Graph, ns: seq<Node>, cur: nat, e: nat, nb: nat)
    requires cur < |ns| && Labelled(g, ns, cur) && ns[cur].distance.Fin?
    requires e < |g.edges| && Touches(g.edges[e], cur) && nb == Other(g.edges[e], cur) && nb < |ns|
    ensures Labelled(g, ns[nb := ns[nb].(distance := Plus(ns[cur].distance, g.edges[e].distance),
                                         path := ns[cur].path + [DirAt(g.edges[e], cur)])], nb)
  {
    var es :| IsWalk(g, 0, es, cur) && Weight(g, es) == ns[cur].distance.n &&
              WalkHeadings(g, 0, es) == ns[cur].path;
    WalkSnoc(g, 0, es, cur, e);
  }

  lemma RelaxEdgeLabelled(g: Graph, ns: seq<Node>, cur: nat, e: nat)
    requires WellFormed(g) && SameTopology(g, ns) && Sound(g, ns) && cur < |ns|
    requires e < |g.edges| && Touches(g.edges[e], cur) && Other(g.edges[e], cur) < |ns|
    ensures Sound(g, RelaxEdge(g, ns, cur, e))
  {
    var nb := Other(g.edges[e], cur);
    var ns' := RelaxEdge(g, ns, cur, e);
    if Lt(Plus(ns[cur].distance, g.edges[e].distance), ns[nb].distance) {
      assert Labelled(g, ns, cur);
      RelaxedLabelled(g, ns, cur, e, nb);
      forall v | 0 <= v < |ns'|
        ensures Labelled(g, ns', v)
      {
        if v != nb {
          assert Labelled(g, ns, v);
          LabelledKept(g, ns, ns', v);
        }
      }
    }
  }

  /** One relaxation changes at most the far end's label, only by
      lowering it to a value no lower than the current node's, and leaves
      the edge relaxed. */
  lemma RelaxEdgeLowers(g: Graph, ns: seq<Node>, cur: nat, e: nat)
    requires e < |g.edges| && cur < |ns| && Other(g.edges[e], cur) < |ns| && Other(g.edges[e], cur) != cur
    ensures var ns' := RelaxEdge(g, ns, cur, e);
      && |ns'| == |ns| && ns'[cur] == ns[cur]
      && (forall v :: 0 <= v < |ns| ==> SameButLabels(ns[v], ns'[v]))
      && (forall v :: 0 <= v < |ns| ==>
            ns'[v] == ns[v] || (Le(ns[cur].distance, ns'[v].distance) && Lt(ns'[v].distance, ns[v].distance)))
      && EdgeRelaxed(g, ns', cur, e)
  {
  }

  /** The label bounds of the relaxation loop compose across one more
      relaxation that keeps the current node's label. */
  lemma LabelsChain(ns0: seq<Node>, ns: seq<Node>, ns': seq<Node>, cur: nat)
    requires cur < |ns0| == |ns| == |ns'| && ns[cur] == ns0[cur]
    requires forall v :: 0 <= v < |ns0| ==> Le(ns[v].distance, ns0[v].distance)
    requires forall v :: 0 <= v < |ns0| ==>
      ns[v] == ns0[v] || (Le(ns0[cur].distance, ns[v].distance) && Lt(ns[v].distance, ns0[v].distance))
    requires forall v :: 0 <= v < |ns| ==>
      ns'[v] == ns[v] || (Le(ns[cur].distance, ns'[v].distance) && Lt(ns'[v].distance, ns[v].distance))
    ensures forall v :: 0 <= v < |ns0| ==> Le(ns'[v].distance, ns0[v].distance)
    ensures forall v :: 0 <= v < |ns0| ==>
      ns'[v] == ns0[v] || (Le(ns0[cur].distance, ns'[v].distance) && Lt(ns'[v].distance, ns0[v].distance))
  {
    forall v | 0 <= v < |ns0|
      ensures Le(ns'[v].distance, ns0[v].distance)
      ensures ns'[v] == ns0[v] || (Le(ns0[cur].distance, ns'[v].distance) && Lt(ns'[v].distance, ns0[v].distance))
    {
      if ns'[v] != ns[v] {
        assert Le(ns0[cur].distance, ns'[v].distance) && Lt(ns'[v].distance, ns[v].distance);
      }
    }
  }

  lemma RelaxEdgeStep(g: Graph, ns0: seq<Node>, ns: seq<Node>, cur: nat, k: nat)
    requires WellFormed(g) && RelaxProgress(g, ns0, ns, cur, k) && k < |g.nodes[cur].edges|
    ensures var e := g.nodes[cur].edges[k];
      e < |g.edges| && Other(g.edges[e], cur) < |ns| &&
      RelaxProgress(g, ns0, RelaxEdge(g, ns, cur, e), cur, k + 1)
  {
    var e := g.nodes[cur].edges[k];
    assert e < |g.edges| && Touches(g.edges[e], cur) by {
      assert IncidenceSound(g);
    }
    assert g.edges[e].start < |g.nodes| && g.edges[e].end < |g.nodes| &&
           g.edges[e].start != g.edges[e].end by {
      assert EdgesRegistered(g);
    }
    var ns' := RelaxEdge(g, ns, cur, e);
    RelaxEdgeLabelled(g, ns, cur, e);
    RelaxEdgeLowers(g, ns, cur, e);
    assert SameTopology(g, ns') by {
      forall v | 0 <= v < |ns'|
        ensures SameButLabels(g.nodes[v], ns'[v])
      {
        assert SameButLabels(g.nodes[v], ns[v]) && SameButLabels(ns[v], ns'[v]);
      }
    }
    LabelsChain(ns0, ns, ns', cur);
    RelaxedLowered(g, ns, ns', cur, k);
    assert RelaxedAt(g, ns', cur, k + 1) by {
      forall j | 0 <= j < k + 1
        ensures EdgeRelaxed(g, ns', cur, g.nodes[cur].edges[j])
      {
        if j < k {
          assert RelaxedAt(g, ns', cur, k);
        }
      }
    }
  }

  /** The relaxation loop over the current node's edges. */
  method Relax(g: Graph, ns: seq<Node>, cur: nat) returns (ns': seq<Node>)
    requires WellFormed(g) && SameTopology(g, ns) && Sound(g, ns) && cur < |ns|
    ensures SameTopology(g, ns') && Sound(g, ns') && ns'[cur] == ns[cur]
    ensures forall v :: 0 <= v < |ns| ==> Le(ns'[v].distance, ns[v].distance)
    ensures forall v :: 0 <= v < |ns| ==>
      ns'[v] == ns[v] || (Le(ns[cur].distance, ns'[v].distance) && Lt(ns'[v].distance, ns[v].distance))
    ensures RelaxedAt(g, ns', cur, |g.nodes[cur].edges|)
  {
    ns' := ns;
    var list := ns[cur].edges;
    assert list == g.nodes[cur].edges;
    var k := 0;
    while k < |list|
      invariant 0 <= k <= |list|
      invariant RelaxProgress(g, ns, ns', cur, k)
    {
      RelaxEdgeStep(g, ns, ns', cur, k);
      ns' := RelaxEdge(g, ns', cur, list[k]);
      k := k + 1;
    }
  }

  /** The outer loop's invariant without the current node: labels are
      sound and only went down; `unvisited` and `visited` partition the
      nodes; visited nodes are finite, relaxed and no worse than any
      unvisited one; the goal `f` is still unvisited. */
  ghost predicate Settled(g: Graph, f: nat, ns: seq<Node>, U: seq<nat>, V: set<nat>)
  {
    && SameTopology(g, ns) && Sound(g, ns) && |ns| > 0 && ns[0].distance == Fin(0)
    && (forall v :: 0 <= v < |ns| ==> Le(ns[v].distance, g.nodes[v].distance))
    && Distinct(U) && Increasing(U) && (forall j :: 0 <= j < |U| ==> U[j] < |ns|)
    && (forall i :: 0 <= i < |ns| ==> (i in V <==> i !in U))
    && (forall v :: v in V ==>
          v < |g.nodes| && RelaxedAt(g, ns, v, |g.nodes[v].edges|) && ns[v].distance.Fin?)
    && (forall v, u :: v in V && u in U ==> Le(ns[v].distance, ns[u].distance))
    && f in U
  }

  /** The outer loop's invariant: `cur` is an unvisited node of least,
      finite distance, and the start node has been visited unless it is
      still the current node. */
  ghost predicate Frontier(g: Graph, f: nat, ns: seq<Node>, U: seq<nat>, V: set<nat>, cur: nat)
  {
    && Settled(g, f, ns, U, V)
    && (0 in V || cur == 0)
    && cur in U && cur < |ns| && ns[cur].distance.Fin?
    && (forall j :: 0 <= j < |U| ==> Le(ns[cur].distance, ns[U[j]].distance))
  }

  /** The partition part of the invariant survives moving `cur` across. */
  lemma MoveAcross(n: nat, U: seq<nat>, V: set<nat>, cur: nat, f: nat)
    requires Distinct(U) && Increasing(U) && (forall j :: 0 <= j < |U| ==> U[j] < n)
    requires forall i :: 0 <= i < n ==> (i in V <==> i !in U)
    requires cur in U && f in U && cur != f
    ensures var U' := RemoveFirst(U, cur);
      && Distinct(U') && Increasing(U') && (forall j :: 0 <= j < |U'| ==> U'[j] < n)
      && (forall i :: 0 <= i < n ==> (i in V + {cur} <==> i !in U'))
      && f in U'
  {
    var U' := RemoveFirst(U, cur);
    RemoveFirstKeepsOrder(U, cur);
    forall j | 0 <= j < |U'|
      ensures U'[j] < n
    {
      assert U'[j] in U;
    }
  }

  /** Visited nodes keep their labels through the relaxation, so they stay
      relaxed, finite and no worse than any unvisited node. */
  lemma VisitedKept(g: Graph, ns: seq<Node>, ns': seq<Node>, U: seq<nat>, V: set<nat>, cur: nat)
    requires |ns| == |ns'| == |g.nodes| && cur in U && cur < |ns| && ns'[cur] == ns[cur]
    requires ns[cur].distance.Fin?
    requires forall j :: 0 <= j < |U| ==> U[j] < |ns|
    requires forall j :: 0 <= j < |U| ==> Le(ns[cur].distance, ns[U[j]].distance)
    requires forall v :: v in V ==>
      v < |g.nodes| && RelaxedAt(g, ns, v, |g.nodes[v].edges|) && ns[v].distance.Fin?
    requires forall v, u :: v in V && u in U ==> Le(ns[v].distance, ns[u].distance)
    requires forall v :: 0 <= v < |ns| ==> Le(ns'[v].distance, ns[v].distance)
    requires forall v :: 0 <= v < |ns| ==>
      ns'[v] == ns[v] || (Le(ns[cur].distance, ns'[v].distance) && Lt(ns'[v].distance, ns[v].distance))
    requires RelaxedAt(g, ns', cur, |g.nodes[cur].edges|)
    ensures forall v :: v in V + {cur} ==>
      v < |g.nodes| && RelaxedAt(g, ns', v, |g.nodes[v].edges|) && ns'[v].distance.Fin?
    ensures forall v, u :: v in V + {cur} && u in U ==> Le(ns'[v].distance, ns'[u].distance)
  {
    forall v | v in V
      ensures ns'[v] == ns[v]
    {
      assert Le(ns[v].distance, ns[cur].distance);
    }
    forall v | v in V
      ensures RelaxedAt(g, ns', v, |g.nodes[v].edges|)
    {
      RelaxedLowered(g, ns, ns', v, |g.nodes[v].edges|);
    }
    forall v, u | v in V + {cur} && u in U
      ensures Le(ns'[v].distance, ns'[u].distance)
    {
      var j :| 0 <= j < |U| && U[j] == u;
      assert Le(ns[cur].distance, ns[u].distance);
    }
  }

  /** Relaxing the current node and moving it to the visited set keeps
      the invariant. */
  lemma AfterRelax(g: Graph, f: nat, ns: seq<Node>, ns': seq<Node>, U: seq<nat>, V: set<nat>, cur: nat)
    requires WellFormed(g) && Frontier(g, f, ns, U, V, cur) && cur != f
    requires SameTopology(g, ns') && Sound(g, ns') && ns'[cur] == ns[cur]
    requires forall v :: 0 <= v < |ns| ==> Le(ns'[v].distance, ns[v].distance)
    requires forall v :: 0 <= v < |ns| ==>
      ns'[v] == ns[v] || (Le(ns[cur].distance, ns'[v].distance) && Lt(ns'[v].distance, ns[v].distance))
    requires RelaxedAt(g, ns', cur, |g.nodes[cur].edges|)
    ensures Settled(g, f, ns', RemoveFirst(U, cur), V + {cur})
  {
    MoveAcross(|ns|, U, V, cur, f);
    VisitedKept(g, ns, ns', U, V, cur);
    var U' := RemoveFirst(U, cur);
    assert forall u :: u in U' ==> u in U;
    assert ns'[0].distance == Fin(0);
    assert forall v :: 0 <= v < |ns| ==> Le(ns'[v].distance, g.nodes[v].distance);
  }

  /** Selecting the least unvisited node re-establishes the invariant: the
      goal is still unvisited and reachable, so some unvisited node is
      finite, and the least one is too. */
  lemma AfterSelect(g: Graph, f: nat, ns: seq<Node>, U: seq<nat>, V: set<nat>, pos: nat)
    requires WellFormed(g) && Settled(g, f, ns, U, V) && 0 in V && f < |g.nodes|
    requires pos < |U| && forall j :: 0 <= j < |U| ==> Le(ns[U[pos]].distance, ns[U[j]].distance)
    ensures Frontier(g, f, ns, U, V, U[pos])
  {
    Reachable(g, f);
    var es :| IsWalk(g, 0, es, f);
    LeaveVisited(g, ns, V, 0, es, f);
    var u :| 0 <= u < |ns| && u !in V && Le(ns[u].distance, Plus(ns[0].distance, Weight(g, es)));
    var j :| 0 <= j < |U| && U[j] == u;
  }

  /** On exit the current node is the goal, and no walk to it is shorter
      than its label. */
  lemma GoalOptimal(g: Graph, f: nat, ns: seq<Node>, U: seq<nat>, V: set<nat>, es: seq<nat>)
    requires WellFormed(g) && Frontier(g, f, ns, U, V, f) && IsWalk(g, 0, es, f)
    ensures ns[f].distance.n <= Weight(g, es)
  {
    if 0 in V {
      LeaveVisited(g, ns, V, 0, es, f);
      var u :| 0 <= u < |ns| && u !in V && Le(ns[u].distance, Plus(ns[0].distance, Weight(g, es)));
      var j :| 0 <= j < |U| && U[j] == u;
    }
  }

  /** Dijkstra from node 0 until the node at the goal `(fx, fy)` is
      selected.  The goal is a node, so the unvisited list never empties
      before it is reached; the graph is connected, so the selected node
      always has a finite distance and the `INT_MAX` sentinel is never
      added to.  On exit the goal's distance is the least weight of any
      walk to it, and its path is the headings of such a walk. */
  method ShortestPaths(g: Graph, fx: int, fy: int) returns (r: Graph)
    requires WellFormed(g) && FreshLabels(g) && |g.nodes| > 0
    requires FindLast(g.nodes, fx, fy).Some?
    ensures r.edges == g.edges && SameTopology(g, r.nodes)
    ensures Sound(g, r.nodes)
    ensures forall v :: 0 <= v < |g.nodes| ==> Le(r.nodes[v].distance, g.nodes[v].distance)
    ensures var f := FindLast(g.nodes, fx, fy).value;
      && r.nodes[f].distance.Fin?
      && (forall es :: IsWalk(g, 0, es, f) ==> r.nodes[f].distance.n <= Weight(g, es))
      && (exists es :: IsWalk(g, 0, es, f) && Weight(g, es) == r.nodes[f].distance.n &&
                       WalkHeadings(g, 0, es) == r.nodes[f].path)
  {
    var f := FindLast(g.nodes, fx, fy).value;
    var ns := g.nodes;
    var cur: nat := 0;
    var unvisited: seq<nat> := seq(|ns|, (i: int) requires 0 <= i => i as nat);
    forall i | 0 <= i < |ns|
      ensures i in unvisited
    {
      assert unvisited[i] == i;
    }
    ghost var visited: set<nat> := {};
    assert Labelled(g, ns, 0) by {
      assert IsWalk(g, 0, [], 0);
    }
    assert Frontier(g, f, ns, unvisited, visited, cur);
    while !(ns[cur].x == fx && ns[cur].y == fy)
      invariant Frontier(g, f, ns, unvisited, visited, cur)
      decreases |unvisited|
    {
      assert f != cur by {
        assert UniqueCoords(g.nodes);
      }
      var before := ns;
      ns := Relax(g, ns, cur);
      AfterRelax(g, f, before, ns, unvisited, visited, cur);
      visited := visited + {cur};
      unvisited := RemoveFirst(unvisited, cur);
      var pos := SelectMin(unvisited, ns);
      AfterSelect(g, f, ns, unvisited, visited, pos);
      cur := unvisited[pos];
    }
    assert cur == f by {
      assert UniqueCoords(g.nodes);
    }
    forall es | IsWalk(g, 0, es, f)
      ensures ns[f].distance.n <= Weight(g, es)
    {
      GoalOptimal(g, f, ns, unvisited, visited, es);
    }
    assert Labelled(g, ns, f);
    r := Graph(ns, g.edges);
  }
}
