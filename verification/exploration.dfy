/** The EXPLORING phase of the tick: a depth-first, left-wall-following
    traversal that builds the maze graph.  Each branch of the source's
    `if (state == EXPLORING)` block is one pure function from the state and
    the sensor readings to the next state and the requested actions. */
module Exploration {
  import opened Headings
  import opened MazeGraph
  import opened Mouse

  /** What the fork branches read: a nonempty stack of existing nodes and
      a heading chosen at the stack top. */
  predicate StackInRange(s: State)
  {
    && |s.pathTrace| > 0
    && (forall k :: 0 <= k < |s.pathTrace| ==> s.pathTrace[k] < |s.graph.nodes|)
    && 0 <= s.directionFromLastNode < 4
  }

  /** The first tick: the start node at (0,0), facing north.  South and
      west count as explored, north and east are explored exactly when a
      wall closes them; the first heading is north if open, else east, else
      the maze is blocked and the controller ends. */
  function StartTick(s: State, w: Walls): (r: (State, seq<Action>))
    requires s.phase == Exploring && s.firstExplorationRun
    requires s.graph == Graph([], []) && s.pathTrace == []
    ensures !r.0.firstExplorationRun && PoseOf(r.0) == PoseOf(s)
    ensures r.0.graph.edges == [] && |r.0.graph.nodes| == 1 && r.0.pathTrace == [0]
    ensures At(r.0.graph.nodes[0], 0, 0) && r.0.graph.nodes[0].edges == []
    ensures r.0.graph.nodes[0].distance == Fin(0) && r.0.graph.nodes[0].path == []
    ensures Explored(r.0.graph.nodes[0], South) && Explored(r.0.graph.nodes[0], West)
    ensures Explored(r.0.graph.nodes[0], North) == w.forward
    ensures Explored(r.0.graph.nodes[0], East) == w.right
    ensures r.0.phase == End <==> w.forward && w.right
    ensures r.0.phase == End ==> r.1 == [FoundFinish]
    ensures r.0.phase != End ==>
      r.0.phase == Exploring && r.1 == [] && 0 <= r.0.directionFromLastNode < 4 &&
      !Explored(r.0.graph.nodes[0], r.0.directionFromLastNode) &&
      forall d: Dir :: d < r.0.directionFromLastNode ==> Explored(r.0.graph.nodes[0], d)
    ensures r.0.finishX == s.finishX && r.0.finishY == s.finishY
    ensures r.0.(graph := s.graph, pathTrace := s.pathTrace, firstExplorationRun := s.firstExplorationRun,
                 directionFromLastNode := s.directionFromLastNode, phase := s.phase) == s
  {
    var start := NewNode(0, 0).(distance := Fin(0), exploredWest := true, exploredSouth := true,
                                exploredNorth := w.forward, exploredEast := w.right);
    var s1 := s.(graph := Graph([start], []), pathTrace := [0], firstExplorationRun := false);
    if !w.forward then (s1.(directionFromLastNode := North), [])
    else if !w.right then (s1.(directionFromLastNode := East), [])
    else (s1.(phase := End), [FoundFinish])
  }

  /** The corridor branch: wall-following with priority left, forward,
      right, turn around, then one forward move.  The graph and the stack
      are untouched, the corridor length grows by one, and the goal streak
      grows only on a right turn. */
  function CorridorStep(s: State, w: Walls, moved: bool): (r: (State, seq<Action>))
    requires InCorridor(s, w)
    ensures r.0.graph == s.graph && r.0.pathTrace == s.pathTrace && r.0.phase == s.phase
    ensures r.0.distanceFromLastNode == s.distanceFromLastNode + 1
    ensures r.0.counter == (if w.left && w.forward && !w.right then s.counter + 1 else 0)
    ensures !w.left ==> r.1 == [TurnLeft, MoveForward]
    ensures w.left && !w.forward ==> r.1 == [MoveForward]
    ensures w.left && w.forward && !w.right ==> r.1 == [TurnRight, MoveForward]
    ensures w.left && w.forward && w.right ==> r.1 == [TurnRight, TurnRight, MoveForward]
    ensures r.0.(x := s.x, y := s.y, direction := s.direction,
                 distanceFromLastNode := s.distanceFromLastNode, counter := s.counter) == s
  {
    var (d, turns, streak) :=
      if !w.left then (Left(s.direction), [TurnLeft], 0)
      else if !w.forward then (s.direction, [], 0)
      else if !w.right then (Right(s.direction), [TurnRight], s.counter + 1)
      else (Reverse(s.direction), [TurnRight, TurnRight], 0);
    var p := MoveIfConfirmed(Pose(s.x, s.y, d), moved);
    (WithPose(s, p).(distanceFromLastNode := s.distanceFromLastNode + 1, counter := streak),
     turns + [MoveForward])
  }

  /** The flags of a freshly created fork, from the sensors: the left,
      forward and right exits are explored exactly when walled; the exit
      behind keeps what the new edge gave it. */
  function SenseExits(n: Node, dir: Dir, w: Walls): (r: Node)
    ensures SameButFlags(n, r)
    ensures Explored(r, Left(dir)) == w.left
    ensures Explored(r, dir) == w.forward
    ensures Explored(r, Right(dir)) == w.right
    ensures Explored(r, Reverse(dir)) == Explored(n, Reverse(dir))
  {
    if dir == North then n.(exploredWest := w.left, exploredNorth := w.forward, exploredEast := w.right)
    else if dir == East then n.(exploredNorth := w.left, exploredEast := w.forward, exploredSouth := w.right)
    else if dir == South then n.(exploredEast := w.left, exploredSouth := w.forward, exploredWest := w.right)
    else n.(exploredSouth := w.left, exploredWest := w.forward, exploredNorth := w.right)
  }

  /** A fork at a coordinate no node has: a new node, linked to the stack
      top by the corridor just walked, pushed on the stack.  No action is
      requested; the next tick handles the new node as the stack top. */
  function NewNodeStep(s: State, w: Walls): (r: (State, seq<Action>))
    requires StackInRange(s)
    requires FindLast(s.graph.nodes, s.x, s.y).None?
    ensures r.1 == [] && PoseOf(r.0) == PoseOf(s) && r.0.phase == s.phase
    ensures |r.0.graph.nodes| == |s.graph.nodes| + 1
    ensures r.0.graph.edges == s.graph.edges +
      [Edge(Last(s.pathTrace), s.directionFromLastNode, |s.graph.nodes|, Reverse(s.direction),
            s.distanceFromLastNode)]
    ensures var n := r.0.graph.nodes[|s.graph.nodes|];
      At(n, s.x, s.y) && n.edges == [|s.graph.edges|] && n.distance == Inf && n.path == [] &&
      Explored(n, Left(s.direction)) == w.left && Explored(n, s.direction) == w.forward &&
      Explored(n, Right(s.direction)) == w.right && Explored(n, Reverse(s.direction))
    ensures forall i :: 0 <= i < |s.graph.nodes| && i != Last(s.pathTrace) ==> r.0.graph.nodes[i] == s.graph.nodes[i]
    ensures GainsEdge(s.graph.nodes[Last(s.pathTrace)], r.0.graph.nodes[Last(s.pathTrace)],
                      |s.graph.edges|, s.directionFromLastNode)
    ensures r.0.pathTrace == s.pathTrace + [|s.graph.nodes|]
    ensures r.0.distanceFromLastNode == 0 && r.0.counter == 0 && r.0.dontMarkArrival
    ensures r.0.finishX == s.finishX && r.0.finishY == s.finishY
    ensures r.0.directionFromLastNode == s.directionFromLastNode
  {
    var g := s.graph;
    var n := |g.nodes|;
    var g1 := Graph(g.nodes + [NewNode(s.x, s.y)], g.edges);
    var g2 := AddEdge(g1, Last(s.pathTrace), s.directionFromLastNode, n, Reverse(s.direction),
                      s.distanceFromLastNode);
    var g3 := g2.(nodes := g2.nodes[n := SenseExits(g2.nodes[n], s.direction, w)]);
    (s.(graph := g3, pathTrace := s.pathTrace + [n], distanceFromLastNode := 0,
        dontMarkArrival := true, counter := 0), [])
  }

  /** The lowest-numbered unexplored heading in the order north, east,
      south, west. */
  function FirstUnexplored(n: Node): (r: Option<Dir>)
    ensures r.Some? ==> !Explored(n, r.value)
    ensures r.Some? ==> forall d: Dir :: d < r.value ==> Explored(n, d)
    ensures r.None? ==> forall d: Dir :: Explored(n, d)
  {
    if !n.exploredNorth then Some(North)
    else if !n.exploredEast then Some(East)
    else if !n.exploredSouth then Some(South)
    else if !n.exploredWest then Some(West)
    else None
  }

  /** Turn right until facing `directionFromLastNode`, move forward, and
      start counting a new corridor from one. */
  function Depart(s: State, moved: bool): (r: (State, seq<Action>))
    requires 0 <= s.directionFromLastNode < 4
    ensures r.0.direction == s.directionFromLastNode
    ensures r.0.distanceFromLastNode == 1 && r.0.counter == 0
    ensures 1 <= |r.1| <= 4 && r.1[|r.1| - 1] == MoveForward
    ensures forall i :: 0 <= i < |r.1| - 1 ==> r.1[i] == TurnRight
    ensures r.0.(x := s.x, y := s.y, direction := s.direction, distanceFromLastNode := s.distanceFromLastNode,
                 counter := s.counter) == s
  {
    var t := TurnRightUntil(s.direction, s.directionFromLastNode);
    var p := MoveIfConfirmed(Pose(s.x, s.y, t.0), moved);
    (WithPose(s, p).(distanceFromLastNode := 1, counter := 0), Repeat(TurnRight, t.1) + [MoveForward])
  }

  /** The stack has emptied: exploration is over.  The mouse turns right
      until it faces north and signals the host; planning follows if a
      goal was recorded, otherwise the controller ends. */
  function Complete(s: State): (r: (State, seq<Action>))
    ensures r.0.direction == North
    ensures r.0.phase == (if s.finishX == -1 then End else ComputingShortestPath)
    ensures 1 <= |r.1| <= 4 && r.1[|r.1| - 1] == FoundFinish
    ensures forall i :: 0 <= i < |r.1| - 1 ==> r.1[i] == TurnRight
    ensures r.0.(direction := s.direction, phase := s.phase) == s
  {
    var t := TurnRightUntil(s.direction, North);
    (s.(direction := t.0, phase := if s.finishX == -1 then End else ComputingShortestPath),
     Repeat(TurnRight, t.1) + [FoundFinish])
  }

  /** The position on `list` of the first edge that has `c` as an
      endpoint: the backtracking scan over the new stack top's edges. */
  function LinkPos(g: Graph, list: seq<nat>, c: nat): (r: Option<nat>)
    ensures r.Some? ==> r.value < |list| && list[r.value] < |g.edges| && Touches(g.edges[list[r.value]], c)
    ensures r.Some? ==> forall j :: 0 <= j < r.value && list[j] < |g.edges| ==> !Touches(g.edges[list[j]], c)
    ensures r.None? ==> forall j :: 0 <= j < |list| && list[j] < |g.edges| ==> !Touches(g.edges[list[j]], c)
  {
    if |list| == 0 then None
    else if list[0] < |g.edges| && Touches(g.edges[list[0]], c) then Some(0)
    else match LinkPos(g, list[1..], c)
      case None => None
      case Some(k) => Some(k + 1)
  }

  /** The heading to leave the popped node `c` by: the one recorded at
      `c`'s own end of the first edge on `top`'s list that links the two.
      When no edge links them the variable keeps its old value. */
  function BacktrackDir(g: Graph, top: nat, c: nat, fallback: Dir): Dir
    requires top < |g.nodes|
  {
    match LinkPos(g, g.nodes[top].edges, c)
    case Some(k) => DirAt(g.edges[g.nodes[top].edges[k]], c)
    case None => fallback
  }

  /** Arriving at the node on top of the stack: record the goal if the
      streak is exactly three, mark the exit last left by (unless the node
      was just created or backtracked to) and the exit just arrived through. */
  function ArriveAtTop(s: State): (r: State)
    requires StackInRange(s)
    ensures |r.graph.nodes| == |s.graph.nodes| && r.graph.edges == s.graph.edges
    ensures var c := Last(s.pathTrace);
      forall i :: 0 <= i < |s.graph.nodes| && i != c ==> r.graph.nodes[i] == s.graph.nodes[i]
    ensures var c := Last(s.pathTrace);
      SameButFlags(s.graph.nodes[c], r.graph.nodes[c]) &&
      FlagsGrow(s.graph.nodes[c], r.graph.nodes[c]) &&
      Explored(r.graph.nodes[c], Reverse(s.direction)) &&
      (!s.dontMarkArrival ==> Explored(r.graph.nodes[c], s.directionFromLastNode)) &&
      forall d: Dir :: Explored(r.graph.nodes[c], d) ==
        (Explored(s.graph.nodes[c], d) || d == Reverse(s.direction) ||
         (!s.dontMarkArrival && d == s.directionFromLastNode))
    ensures s.counter == 3 ==> r.finishX == s.x && r.finishY == s.y
    ensures s.counter != 3 ==> r.finishX == s.finishX && r.finishY == s.finishY
    ensures !r.dontMarkArrival
    ensures r.(graph := s.graph, finishX := s.finishX, finishY := s.finishY,
               dontMarkArrival := s.dontMarkArrival) == s
  {
    var c := Last(s.pathTrace);
    var n0 := s.graph.nodes[c];
    var n1 := if s.dontMarkArrival then n0 else MarkExplored(n0, s.directionFromLastNode);
    var n2 := MarkExplored(n1, Reverse(s.direction));
    s.(graph := s.graph.(nodes := s.graph.nodes[c := n2]),
       finishX := if s.counter == 3 then s.x else s.finishX,
       finishY := if s.counter == 3 then s.y else s.finishY,
       dontMarkArrival := false)
  }

  /** Leaving the node on top of the stack: by its lowest unexplored exit;
      or, with every exit explored, pop it and head back toward the new
      top; or, when the stack empties, finish exploring.  The graph is not
      touched. */
  function LeaveTop(s: State, moved: bool): (r: (State, seq<Action>))
    requires StackInRange(s)
    ensures r.0.graph == s.graph && r.0.finishX == s.finishX && r.0.finishY == s.finishY
  {
    var c := Last(s.pathTrace);
    match FirstUnexplored(s.graph.nodes[c])
    case Some(d) => Depart(s.(directionFromLastNode := d), moved)
    case None =>
      var pt := s.pathTrace[..|s.pathTrace| - 1];
      if pt == [] then Complete(s.(pathTrace := []))
      else
        var d := BacktrackDir(s.graph, Last(pt), c, s.directionFromLastNode);
        Depart(s.(pathTrace := pt, directionFromLastNode := d, dontMarkArrival := true), moved)
  }

  /** The stack-top branch of the fork case. */
  function StackTopStep(s: State, moved: bool): (r: (State, seq<Action>))
    requires StackInRange(s)
  {
    LeaveTop(ArriveAtTop(s), moved)
  }

  /** A fork at a known node other than the stack top: the corridor just
      walked closes a loop.  The two nodes are linked, the found node is
      pushed, and nothing moves. */
  function ClosureStep(s: State, c: nat): (r: (State, seq<Action>))
    requires StackInRange(s)
    requires c < |s.graph.nodes| && c != Last(s.pathTrace)
    ensures r.1 == [] && PoseOf(r.0) == PoseOf(s) && r.0.phase == s.phase
    ensures |r.0.graph.nodes| == |s.graph.nodes|
    ensures r.0.graph.edges == s.graph.edges +
      [Edge(c, Reverse(s.direction), Last(s.pathTrace), s.directionFromLastNode, s.distanceFromLastNode)]
    ensures forall i :: 0 <= i < |s.graph.nodes| && i != c && i != Last(s.pathTrace) ==>
      r.0.graph.nodes[i] == s.graph.nodes[i]
    ensures GainsEdge(s.graph.nodes[c], r.0.graph.nodes[c], |s.graph.edges|, Reverse(s.direction))
    ensures GainsEdge(s.graph.nodes[Last(s.pathTrace)], r.0.graph.nodes[Last(s.pathTrace)],
                      |s.graph.edges|, s.directionFromLastNode)
    ensures r.0.pathTrace == s.pathTrace + [c]
    ensures r.0.distanceFromLastNode == 0 && r.0.counter == 0
    ensures r.0.dontMarkArrival == s.dontMarkArrival
    ensures r.0.directionFromLastNode == s.directionFromLastNode
    ensures r.0.finishX == s.finishX && r.0.finishY == s.finishY
  {
    var g := AddEdge(s.graph, c, Reverse(s.direction), Last(s.pathTrace), s.directionFromLastNode,
                     s.distanceFromLastNode);
    (s.(graph := g, distanceFromLastNode := 0, pathTrace := s.pathTrace + [c], counter := 0), [])
  }

  /** One tick of the EXPLORING phase. */
  function ExploreStep(s: State, w: Walls, moved: bool): (r: (State, seq<Action>))
    requires Valid(s) && s.phase == Exploring
  {
    if s.firstExplorationRun then StartTick(s, w)
    else if InCorridor(s, w) then CorridorStep(s, w, moved)
    else match FindLast(s.graph.nodes, s.x, s.y)
      case None => NewNodeStep(s, w)
      case Some(c) => if c == Last(s.pathTrace) then StackTopStep(s, moved) else ClosureStep(s, c)
  }
}
