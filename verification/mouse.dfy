/** The controller's persistent state.  The source keeps it in
    function-local `static` variables of the tick function; here they are
    the fields of one immutable record that each tick consumes and returns. */
module Mouse {
  import opened Headings
  import opened MazeGraph

  datatype Phase = Exploring | ComputingShortestPath | RunningShortestPath | End

  /** The three wall sensors, relative to the current heading; `true`
      means a wall is present. */
  datatype Walls = Walls(left: bool, forward: bool, right: bool)

  function WallCount(w: Walls): nat
  {
    (if w.left then 1 else 0) + (if w.forward then 1 else 0) + (if w.right then 1 else 0)
  }

  datatype State = State(
    phase: Phase,
    x: int, y: int, direction: Dir,
    /** The recorded goal cell; `finishX == -1` means none was recorded. */
    finishX: int, finishY: int,
    graph: Graph,
    firstExplorationRun: bool,
    /** The depth-first stack of forks from the start node to the frontier. */
    pathTrace: seq<nat>,
    /** The heading the mouse last left a stack-top node by; -1 until the
        first tick has chosen one. */
    directionFromLastNode: int,
    /** Corridor cells walked since that node. */
    distanceFromLastNode: nat,
    /** The source's `dontMarkDirectionFromLastNodeAsExplored`. */
    dontMarkArrival: bool,
    /** Consecutive right-turn corridor steps: the goal heuristic. */
    counter: nat,
    /** Forks passed so far while replaying the planned path. */
    forkNum: nat)

  /** The values the statics are initialised with. */
  const Initial: State :=
    State(Exploring, 0, 0, North, -1, -1, Graph([], []), true, [], -1, 0, true, 0, 0)

  function PoseOf(s: State): Pose { Pose(s.x, s.y, s.direction) }

  function WithPose(s: State, p: Pose): State { s.(x := p.x, y := p.y, direction := p.dir) }

  function Last(s: seq<nat>): nat
    requires |s| > 0
  {
    s[|s| - 1]
  }

  /** The tick's corridor guard: at least two of the three sensed walls
      are present and the mouse is not on the start cell. */
  predicate InCorridor(s: State, w: Walls)
  {
    WallCount(w) > 1 && !(s.x == 0 && s.y == 0)
  }

  /** Before planning, the start node is at distance 0 and every other node
      at the `INT_MAX` sentinel, all with empty paths. */
  ghost predicate FreshLabels(g: Graph)
  {
    forall i :: 0 <= i < |g.nodes| ==>
      g.nodes[i].path == [] && g.nodes[i].distance == (if i == 0 then Fin(0) else Inf)
  }

  /** Some edge on `a`'s list also touches `b`. */
  ghost predicate Linked(g: Graph, a: nat, b: nat)
    requires a < |g.nodes|
  {
    exists k :: 0 <= k < |g.nodes[a].edges| && g.nodes[a].edges[k] < |g.edges| &&
                Touches(g.edges[g.nodes[a].edges[k]], b)
  }

  /** Consecutive entries of the stack are distinct nodes joined by an edge. */
  ghost predicate TraceLinked(g: Graph, pt: seq<nat>)
  {
    forall k :: 0 <= k < |pt| - 1 ==>
      pt[k] < |g.nodes| && pt[k] != pt[k + 1] && Linked(g, pt[k], pt[k + 1])
  }

  /** The run controller's lookup of the goal node. */
  function Destination(s: State): Option<nat>
  {
    FindFirst(s.graph.nodes, s.finishX, s.finishY)
  }

  /** What every reachable state satisfies. */
  ghost predicate Valid(s: State)
  {
    && WellFormed(s.graph)
    && (s.firstExplorationRun ==>
          s.phase == Exploring && s.graph == Graph([], []) && s.pathTrace == [] && s.finishX == -1)
    && (!s.firstExplorationRun ==> |s.graph.nodes| > 0 && At(s.graph.nodes[0], 0, 0))
    && (forall k :: 0 <= k < |s.pathTrace| ==> s.pathTrace[k] < |s.graph.nodes|)
    && (|s.pathTrace| > 0 ==> s.pathTrace[0] == 0)
    && TraceLinked(s.graph, s.pathTrace)
    && (s.phase == Exploring && !s.firstExplorationRun ==>
          |s.pathTrace| > 0 && 0 <= s.directionFromLastNode < 4)
    && (s.finishX != -1 ==> FindLast(s.graph.nodes, s.finishX, s.finishY).Some?)
    && (s.phase == ComputingShortestPath ==> s.finishX != -1)
    && (s.phase == Exploring || s.phase == ComputingShortestPath ==> FreshLabels(s.graph) && s.forkNum == 0)
    && (s.phase == RunningShortestPath ==>
          Destination(s).Some? && s.forkNum <= |s.graph.nodes[Destination(s).value].path|)
  }

  /** `Valid`, one conjunct at a time. */
  lemma ValidIntro(s: State)
    requires WellFormed(s.graph)
    requires s.firstExplorationRun ==>
      s.phase == Exploring && s.graph == Graph([], []) && s.pathTrace == [] && s.finishX == -1
    requires !s.firstExplorationRun ==> |s.graph.nodes| > 0 && At(s.graph.nodes[0], 0, 0)
    requires forall k :: 0 <= k < |s.pathTrace| ==> s.pathTrace[k] < |s.graph.nodes|
    requires |s.pathTrace| > 0 ==> s.pathTrace[0] == 0
    requires TraceLinked(s.graph, s.pathTrace)
    requires s.phase == Exploring && !s.firstExplorationRun ==>
      |s.pathTrace| > 0 && 0 <= s.directionFromLastNode < 4
    requires s.finishX != -1 ==> FindLast(s.graph.nodes, s.finishX, s.finishY).Some?
    requires s.phase == ComputingShortestPath ==> s.finishX != -1
    requires s.phase == Exploring || s.phase == ComputingShortestPath ==> FreshLabels(s.graph) && s.forkNum == 0
    requires s.phase == RunningShortestPath ==>
      Destination(s).Some? && s.forkNum <= |s.graph.nodes[Destination(s).value].path|
    ensures Valid(s)
  {
  }

  lemma InitialValid()
    ensures Valid(Initial)
  {
    var g := Initial.graph;
    assert g.nodes == [] && g.edges == [];
    assert WellFormed(g);
  }

  /** `g'` keeps every node, edge and edge-list entry of `g` and every
      explored flag that was set. */
  ghost predicate GraphGrows(g: Graph, g': Graph)
  {
    && |g.nodes| <= |g'.nodes|
    && |g.edges| <= |g'.edges|
    && g'.edges[..|g.edges|] == g.edges
    && (forall i :: 0 <= i < |g.nodes| ==>
          g'.nodes[i].x == g.nodes[i].x && g'.nodes[i].y == g.nodes[i].y &&
          |g.nodes[i].edges| <= |g'.nodes[i].edges| &&
          g'.nodes[i].edges[..|g.nodes[i].edges|] == g.nodes[i].edges &&
          FlagsGrow(g.nodes[i], g'.nodes[i]))
  }

  lemma LinkedGrows(g: Graph, g': Graph, a: nat, b: nat)
    requires GraphGrows(g, g') && a < |g.nodes| && Linked(g, a, b)
    ensures a < |g'.nodes| && Linked(g', a, b)
  {
    var k :| 0 <= k < |g.nodes[a].edges| && g.nodes[a].edges[k] < |g.edges| &&
             Touches(g.edges[g.nodes[a].edges[k]], b);
    assert g'.nodes[a].edges[k] == g.nodes[a].edges[k];
    assert g'.edges[g.nodes[a].edges[k]] == g.edges[g.nodes[a].edges[k]];
  }

  lemma TraceLinkedGrows(g: Graph, g': Graph, pt: seq<nat>)
    requires GraphGrows(g, g') && TraceLinked(g, pt)
    ensures TraceLinked(g', pt)
  {
    forall k | 0 <= k < |pt| - 1
      ensures pt[k] < |g'.nodes| && pt[k] != pt[k + 1] && Linked(g', pt[k], pt[k + 1])
    {
      LinkedGrows(g, g', pt[k], pt[k + 1]);
    }
  }

  lemma FindLastGrows(g: Graph, g': Graph, x: int, y: int)
    requires GraphGrows(g, g') && FindLast(g.nodes, x, y).Some?
    ensures FindLast(g'.nodes, x, y).Some?
  {
    var i := FindLast(g.nodes, x, y).value;
    assert At(g'.nodes[i], x, y);
  }
}
