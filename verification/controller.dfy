/** The whole tick: dispatch on the phase to exploration, planning, the
    run or the END phase.  Each call consumes one state and one set of
    sensor readings and yields the next state and the requested actions. */
module Controller {
  import opened Headings
  import opened MazeGraph
  import opened Mouse
  import opened Exploration
  import opened ExplorationLemmas
  import opened Planner
  import opened Runner

  /** The phases in the order the controller moves through them. */
  function Rank(p: Phase): nat
  {
    match p
    case Exploring => 0
    case ComputingShortestPath => 1
    case RunningShortestPath => 2
    case End => 3
  }

  /** Relabelling nodes without touching coordinates or edge lists keeps
      the graph well formed. */
  lemma RelabelWellFormed(g: Graph, ns: seq<Node>)
    requires WellFormed(g) && SameTopology(g, ns)
    ensures WellFormed(Graph(ns, g.edges))
  {
    var r := Graph(ns, g.edges);
    forall e | 0 <= e < |r.edges|
      ensures e in r.nodes[r.edges[e].start].edges && e in r.nodes[r.edges[e].end].edges
    {
      assert e in g.nodes[g.edges[e].start].edges;
      assert e in g.nodes[g.edges[e].end].edges;
    }
    forall i | 0 < i < |r.nodes|
      ensures HasEarlierLink(r, i)
    {
      assert HasEarlierLink(g, i);
    }
    assert UniqueCoords(r.nodes) by {
      forall j, k | 0 <= j < k < |r.nodes|
        ensures !(r.nodes[j].x == r.nodes[k].x && r.nodes[j].y == r.nodes[k].y)
      {
        assert !(g.nodes[j].x == g.nodes[k].x && g.nodes[j].y == g.nodes[k].y);
      }
    }
  }

  /** The planning tick: the invariant holds afterwards, with the run
      ready to start at fork 0 of the goal's path. */
  lemma PlanValid(s: State, g: Graph)
    requires Valid(s) && s.phase == ComputingShortestPath
    requires g.edges == s.graph.edges && SameTopology(s.graph, g.nodes)
    ensures Valid(s.(graph := g, phase := RunningShortestPath))
    ensures Destination(s.(graph := g, phase := RunningShortestPath)) == FindLast(s.graph.nodes, s.finishX, s.finishY)
  {
    var r := s.(graph := g, phase := RunningShortestPath);
    RelabelWellFormed(s.graph, g.nodes);
    assert g == Graph(g.nodes, s.graph.edges);
    FindFirstIsFindLast(g.nodes, s.finishX, s.finishY);
    var f := FindLast(s.graph.nodes, s.finishX, s.finishY).value;
    assert At(g.nodes[f], s.finishX, s.finishY);
    assert FindLast(g.nodes, s.finishX, s.finishY) == Some(f) by {
      assert UniqueCoords(g.nodes);
    }
    assert At(g.nodes[0], 0, 0);
    ValidIntro(r);
  }

  lemma RunValid(s: State, w: Walls, moved: bool)
    requires Valid(s) && s.phase == RunningShortestPath
    ensures Valid(RunStepIntended(s, w, moved).0)
  {
    var r := RunStepIntended(s, w, moved).0;
    assert Destination(r) == Destination(s);
    ValidIntro(r);
  }

  /** One call of the controller, with the run tick as evidently
      intended (`Runner.RunStepIntended`).

      Whatever the sensors report, the state invariant is kept, the
      tracked pose is where the requested actions leave the robot, phases
      only move forward, exploration only grows the graph, planning leaves
      the goal labelled with its shortest distance and a path of that
      length, and END is absorbing. */
  method Tick(s: State, w: Walls, moved: bool) returns (s': State, acts: seq<Action>)
    requires Valid(s)
    ensures Valid(s')
    ensures PoseOf(s') == Execute(PoseOf(s), acts, moved)
    ensures Rank(s.phase) <= Rank(s'.phase)
    ensures s.phase == Exploring ==> GraphGrows(s.graph, s'.graph)
    ensures s.phase == ComputingShortestPath ==>
      && s'.phase == RunningShortestPath && acts == [] && s'.forkNum == 0
      && Destination(s') == FindLast(s.graph.nodes, s.finishX, s.finishY)
      && var f := Destination(s').value;
         && s'.graph.nodes[f].distance.Fin?
         && (forall es :: IsWalk(s.graph, 0, es, f) ==> s'.graph.nodes[f].distance.n <= Weight(s.graph, es))
         && (exists es :: IsWalk(s.graph, 0, es, f) && Weight(s.graph, es) == s'.graph.nodes[f].distance.n &&
                          WalkHeadings(s.graph, 0, es) == s'.graph.nodes[f].path)
    ensures s.phase == RunningShortestPath ==>
      s'.graph == s.graph && (s'.phase == End <==> s'.forkNum == |PlannedPath(s)|)
    ensures s.phase == RunningShortestPath && !InCorridor(s, w) && s.forkNum == |PlannedPath(s)| ==>
      s'.phase == End && acts == []
    ensures s.phase == End ==> s' == s && acts == [FoundFinish]
  {
    match s.phase
    case Exploring => {
      ExploreStepValid(s, w, moved);
      ExploreStepTracksRobot(s, w, moved);
      var r := ExploreStep(s, w, moved);
      s', acts := r.0, r.1;
    }
    case ComputingShortestPath => {
      var g := ShortestPaths(s.graph, s.finishX, s.finishY);
      s' := s.(graph := g, phase := RunningShortestPath);
      acts := [];
      PlanValid(s, g);
    }
    case RunningShortestPath => {
      RunValid(s, w, moved);
      RunStepIntendedTracksRobot(s, w, moved);
      var r := RunStepIntended(s, w, moved);
      s', acts := r.0, r.1;
    }
    case End => {
      var r := EndStep(s);
      s', acts := r.0, r.1;
    }
  }

  /** The ring maze of `RingMazeReachesEmptyPath`, one tick at a time.
      The first tick, on the start cell facing north with the west wall
      and north and east open: north is the first exit to take. */
  lemma RingStart()
    ensures var r := ExploreStep(Initial, Walls(true, false, false), true).0;
      && Valid(r) && r.phase == Exploring && !r.firstExplorationRun
      && PoseOf(r) == Pose(0, 0, North) && r.pathTrace == [0]
      && |r.graph.nodes| == 1 && r.graph.edges == []
      && Explored(r.graph.nodes[0], South) && Explored(r.graph.nodes[0], West)
      && !Explored(r.graph.nodes[0], North)
      && r.dontMarkArrival && r.directionFromLastNode == North && r.counter == 0 && r.finishX == -1
  {
    InitialValid();
    ExploreStepValid(Initial, Walls(true, false, false), true);
  }

  /** The second tick: back at the start node, with the arrival exemption
      still set, the mouse leaves north into the ring. */
  lemma RingDepart(s: State, w: Walls)
    requires Valid(s) && s.phase == Exploring && !s.firstExplorationRun
    requires PoseOf(s) == Pose(0, 0, North) && s.pathTrace == [0]
    requires |s.graph.nodes| == 1 && s.graph.edges == []
    requires Explored(s.graph.nodes[0], South) && Explored(s.graph.nodes[0], West)
    requires !Explored(s.graph.nodes[0], North)
    requires s.dontMarkArrival && s.directionFromLastNode == North && s.counter == 0 && s.finishX == -1
    ensures var r := ExploreStep(s, w, true).0;
      && Valid(r) && r.phase == Exploring && !r.firstExplorationRun
      && PoseOf(r) == Pose(0, 1, North) && r.pathTrace == [0]
      && |r.graph.nodes| == 1 && r.graph.edges == []
      && Explored(r.graph.nodes[0], South) && Explored(r.graph.nodes[0], West)
      && !r.dontMarkArrival && r.directionFromLastNode == North && r.counter == 0 && r.finishX == -1
  {
    ExploreStepValid(s, w, true);
    ExploreStepTracksRobot(s, w, true);
    RingDepartLeavesNorth(s);
    StackTopLeaves(s, true);
    RingDepartActions(s, w);
    ExecuteSingle(PoseOf(s), MoveForward, true);
  }

  /** On the second tick the start node is the stack top, and north is
      its first unexplored exit after the arrival marking. */
  lemma RingDepartLeavesNorth(s: State)
    requires Valid(s) && s.phase == Exploring && !s.firstExplorationRun && s.x == 0 && s.y == 0 && s.pathTrace == [0]
    requires |s.graph.nodes| == 1 && !Explored(s.graph.nodes[0], North)
    requires s.dontMarkArrival && s.direction == North
    ensures FindLast(s.graph.nodes, 0, 0) == Some(0)
    ensures FirstUnexplored(ArriveAtTop(s).graph.nodes[0]) == Some(North)
  {
    assert !Explored(ArriveAtTop(s).graph.nodes[0], North);
  }

  /** Already facing north, the departure is a single forward move. */
  lemma RingDepartActions(s: State, w: Walls)
    requires Valid(s) && s.phase == Exploring && !s.firstExplorationRun
    requires s.x == 0 && s.y == 0 && s.direction == North && s.pathTrace == [0]
    requires FindLast(s.graph.nodes, 0, 0) == Some(0)
    requires FirstUnexplored(ArriveAtTop(s).graph.nodes[0]) == Some(North)
    ensures ExploreStep(s, w, true).1 == [MoveForward]
  {
    var a := ArriveAtTop(s);
    assert ExploreStep(s, w, true) == StackTopStep(s, true);
    assert StackTopStep(s, true) == Depart(a.(directionFromLastNode := North), true);
    assert TurnRightUntil(North, North).1 == 0;
  }

  /** A corridor tick away from the start with walls left and ahead and the
      right open: a right turn, one step, and the goal streak grows. */
  lemma RingTurn(s: State)
    requires Valid(s) && s.phase == Exploring && !s.firstExplorationRun && !(s.x == 0 && s.y == 0)
    ensures var r := ExploreStep(s, Walls(true, true, false), true).0;
      && Valid(r) && PoseOf(r) == Ahead(Pose(s.x, s.y, Right(s.direction)))
      && r.counter == s.counter + 1
      && r.(x := s.x, y := s.y, direction := s.direction, counter := s.counter,
            distanceFromLastNode := s.distanceFromLastNode) == s
  {
    var w := Walls(true, true, false);
    ExploreStepValid(s, w, true);
    ExploreStepTracksRobot(s, w, true);
    ExecutePair(PoseOf(s), TurnRight, MoveForward, true);
  }

  /** The sixth tick: back on the start cell, now the stack top, after
      three right turns.  The start cell is recorded as the goal, every
      exit is explored, and exploration ends with planning next. */
  lemma RingReturn(s: State, w: Walls)
    requires Valid(s) && s.phase == Exploring && !s.firstExplorationRun
    requires s.x == 0 && s.y == 0 && s.direction == West && s.pathTrace == [0]
    requires |s.graph.nodes| == 1 && s.graph.edges == []
    requires Explored(s.graph.nodes[0], South) && Explored(s.graph.nodes[0], West)
    requires !s.dontMarkArrival && s.directionFromLastNode == North && s.counter == 3
    ensures var r := ExploreStep(s, w, true).0;
      && Valid(r) && r.phase == ComputingShortestPath && r.finishX == 0 && r.finishY == 0
      && r.graph.edges == [] && |r.graph.nodes| == 1
  {
    ExploreStepValid(s, w, true);
    assert FindLast(s.graph.nodes, 0, 0) == Some(0);
    RingArrive(s);
    StackTopLeaves(s, true);
  }

  /** Arriving at the start node after the ring records it as the goal
      and leaves no exit unexplored. */
  lemma RingArrive(s: State)
    requires StackInRange(s) && |s.graph.nodes| == 1 && s.x == 0 && s.y == 0 && s.direction == West && s.pathTrace == [0]
    requires Explored(s.graph.nodes[0], South) && Explored(s.graph.nodes[0], West)
    requires !s.dontMarkArrival && s.directionFromLastNode == North && s.counter == 3
    ensures ArriveAtTop(s).finishX == 0 && ArriveAtTop(s).finishY == 0
    ensures FirstUnexplored(ArriveAtTop(s).graph.nodes[0]).None?
  {
    var n := ArriveAtTop(s).graph.nodes[0];
    assert Explored(n, North) && Explored(n, East) && Explored(n, South) && Explored(n, West);
  }

  /** A maze whose planned path is empty.  The four cells (0,0), (0,1),
      (1,1), (1,0) form a closed ring: the start is walled west and south,
      and each other cell has walls on its two outer sides.  Exploration
      leaves north, takes three right-turn corridor steps round the ring,
      and arrives back at the start node with a streak of 3.  It records
      the start cell as the goal, finds every exit explored and ends.
      Planning then selects the goal at once, so its path is empty.  The
      first run tick is on the start cell, which is always a fork tick, and
      it reads `path.at(0)` past the end: the source throws there. */
  method RingMazeReachesEmptyPath() returns (s: State)
    ensures Valid(s) && s.phase == RunningShortestPath && s.forkNum == 0
    ensures s.x == 0 && s.y == 0 && Destination(s) == Some(0) && PlannedPath(s) == []
    ensures forall w: Walls :: !InCorridor(s, w) && s.forkNum >= |PlannedPath(s)|
  {
    var s6 := RingMazeExplores();
    var acts;
    s, acts := Tick(s6, Walls(true, true, false), true);
    assert Destination(s) == Some(0);
    ghost var es :| IsWalk(s6.graph, 0, es, 0) && WalkHeadings(s6.graph, 0, es) == s.graph.nodes[0].path;
  }

  /** The six exploration ticks of the ring maze: the start cell becomes
      the goal and the graph is the start node alone. */
  method RingMazeExplores() returns (s6: State)
    ensures Valid(s6) && s6.phase == ComputingShortestPath && s6.x == 0 && s6.y == 0
    ensures s6.finishX == 0 && s6.finishY == 0 && s6.graph.edges == [] && |s6.graph.nodes| == 1
  {
    var s2 := RingMazeEntersRing();
    var turn := Walls(true, true, false);
    RingTurn(s2);
    var s3 := ExploreStep(s2, turn, true).0;
    assert PoseOf(s3) == Pose(1, 1, East);
    RingTurn(s3);
    var s4 := ExploreStep(s3, turn, true).0;
    assert PoseOf(s4) == Pose(1, 0, South);
    RingTurn(s4);
    var s5 := ExploreStep(s4, turn, true).0;
    assert PoseOf(s5) == Pose(0, 0, West);
    RingReturn(s5, turn);
    s6 := ExploreStep(s5, turn, true).0;
  }

  /** The first two exploration ticks of the ring maze: the start node is
      created and the mouse steps north into the ring. */
  method RingMazeEntersRing() returns (s2: State)
    ensures Valid(s2) && s2.phase == Exploring && !s2.firstExplorationRun
    ensures PoseOf(s2) == Pose(0, 1, North) && s2.pathTrace == [0]
    ensures |s2.graph.nodes| == 1 && s2.graph.edges == []
    ensures Explored(s2.graph.nodes[0], South) && Explored(s2.graph.nodes[0], West)
    ensures !s2.dontMarkArrival && s2.directionFromLastNode == North && s2.counter == 0 && s2.finishX == -1
  {
    var start := Walls(true, false, false);
    RingStart();
    var s1 := ExploreStep(Initial, start, true).0;
    RingDepart(s1, start);
    s2 := ExploreStep(s1, start, true).0;
  }

  /** The same maze with the run tick as evidently intended: the first run
      tick finds the empty path consumed and ends the run on the start
      cell, and END then signals the host. */
  method RingMazeRunEnds() returns (s: State, acts: seq<Action>, last: seq<Action>)
    ensures Valid(s) && s.phase == End && s.x == 0 && s.y == 0
    ensures acts == [] && last == [FoundFinish]
  {
    var r := RingMazeReachesEmptyPath();
    s, acts := Tick(r, Walls(true, true, false), true);
    var s';
    s', last := Tick(s, Walls(true, true, false), true);
  }
}
