/** Properties of the EXPLORING phase: every tick keeps the state
    invariant, only ever grows the graph, keeps the tracked pose equal to
    the robot's, and each fork tick grows the graph by an exact amount. */
module ExplorationLemmas {
  import opened Headings
  import opened MazeGraph
  import opened Mouse
  import opened Exploration

  lemma GrowsTransitive(g1: Graph, g2: Graph, g3: Graph)
    requires GraphGrows(g1, g2) && GraphGrows(g2, g3)
    ensures GraphGrows(g1, g3)
  {
    forall i | 0 <= i < |g1.nodes|
      ensures g3.nodes[i].edges[..|g1.nodes[i].edges|] == g1.nodes[i].edges
    {
      assert g3.nodes[i].edges[..|g1.nodes[i].edges|]
          == g3.nodes[i].edges[..|g2.nodes[i].edges|][..|g1.nodes[i].edges|];
    }
    assert g3.edges[..|g1.edges|] == g3.edges[..|g2.edges|][..|g1.edges|];
  }

  lemma AddEdgeGrows(g: Graph, a: nat, da: Dir, b: nat, db: Dir, len: nat)
    requires a < |g.nodes| && b < |g.nodes| && a != b
    ensures GraphGrows(g, AddEdge(g, a, da, b, db, len))
  {
    var r := AddEdge(g, a, da, b, db, len);
    assert r.edges[..|g.edges|] == g.edges;
    forall i | 0 <= i < |g.nodes|
      ensures r.nodes[i].edges[..|g.nodes[i].edges|] == g.nodes[i].edges
    {
      assert r.nodes[i].edges == g.nodes[i].edges + (if i == a || i == b then [|g.edges|] else []);
    }
  }

  lemma ReflagGrows(g: Graph, i: nat, n: Node)
    requires i < |g.nodes| && SameButFlags(g.nodes[i], n) && FlagsGrow(g.nodes[i], n)
    ensures GraphGrows(g, Graph(g.nodes[i := n], g.edges))
  {
    var r := Graph(g.nodes[i := n], g.edges);
    assert r.edges[..|g.edges|] == g.edges;
    forall j | 0 <= j < |g.nodes|
      ensures r.nodes[j].edges[..|g.nodes[j].edges|] == g.nodes[j].edges
    {
      assert r.nodes[j].edges == g.nodes[j].edges;
    }
  }

  /** Pushing an existing node keeps every stack entry a node. */
  lemma PushInRange(pt: seq<nat>, c: nat, n: nat, n': nat)
    requires forall k :: 0 <= k < |pt| ==> pt[k] < n
    requires n <= n' && c < n'
    ensures forall k :: 0 <= k < |pt + [c]| ==> (pt + [c])[k] < n'
  {
    forall k | 0 <= k < |pt + [c]|
      ensures (pt + [c])[k] < n'
    {
      if k < |pt| {
        assert (pt + [c])[k] == pt[k];
      }
    }
  }

  /** The graph the new-node branch builds, step by step. */
  lemma NewNodeGrows(s: State, w: Walls)
    requires StackInRange(s) && FindLast(s.graph.nodes, s.x, s.y).None?
    ensures GraphGrows(s.graph, NewNodeStep(s, w).0.graph)
  {
    var g := s.graph;
    var n := |g.nodes|;
    var r := NewNodeStep(s, w).0.graph;
    assert r.edges[..|g.edges|] == g.edges;
    forall j | 0 <= j < n
      ensures r.nodes[j].x == g.nodes[j].x && r.nodes[j].y == g.nodes[j].y
      ensures |g.nodes[j].edges| <= |r.nodes[j].edges|
      ensures r.nodes[j].edges[..|g.nodes[j].edges|] == g.nodes[j].edges
      ensures FlagsGrow(g.nodes[j], r.nodes[j])
    {
      var g1 := Graph(g.nodes + [NewNode(s.x, s.y)], g.edges);
      assert g1.nodes[j] == g.nodes[j];
      var g2 := AddEdge(g1, Last(s.pathTrace), s.directionFromLastNode, n, Reverse(s.direction),
                        s.distanceFromLastNode);
      assert r.nodes[j] == g2.nodes[j];
    }
  }

  lemma NewNodeWellFormed(s: State, w: Walls)
    requires StackInRange(s) && FindLast(s.graph.nodes, s.x, s.y).None? && WellFormed(s.graph)
    ensures WellFormed(NewNodeStep(s, w).0.graph)
  {
    var g := s.graph;
    var n := |g.nodes|;
    var g1 := Graph(g.nodes + [NewNode(s.x, s.y)], g.edges);
    var g2 := AddEdge(g1, Last(s.pathTrace), s.directionFromLastNode, n, Reverse(s.direction),
                      s.distanceFromLastNode);
    AddNodeWithEdgeWellFormed(g, Last(s.pathTrace), s.directionFromLastNode, s.x, s.y,
                              Reverse(s.direction), s.distanceFromLastNode);
    ReflagWellFormed(g2, n, SenseExits(g2.nodes[n], s.direction, w));
  }

  lemma NewNodeFresh(s: State, w: Walls)
    requires StackInRange(s) && FindLast(s.graph.nodes, s.x, s.y).None? && FreshLabels(s.graph)
    ensures FreshLabels(NewNodeStep(s, w).0.graph)
  {
    var r := NewNodeStep(s, w).0.graph;
    forall i | 0 <= i < |r.nodes|
      ensures r.nodes[i].path == [] && r.nodes[i].distance == (if i == 0 then Fin(0) else Inf)
    {
      if i < |s.graph.nodes| {
        NewNodeGrows(s, w);
        assert r.nodes[i].path == s.graph.nodes[i].path && r.nodes[i].distance == s.graph.nodes[i].distance;
      }
    }
  }

  /** The new stack entry is joined to the old top by the new edge. */
  lemma NewNodeLinked(s: State, w: Walls)
    requires StackInRange(s) && FindLast(s.graph.nodes, s.x, s.y).None?
    ensures Linked(NewNodeStep(s, w).0.graph, Last(s.pathTrace), |s.graph.nodes|)
  {
    var r := NewNodeStep(s, w).0.graph;
    var top := Last(s.pathTrace);
    var g1 := Graph(s.graph.nodes + [NewNode(s.x, s.y)], s.graph.edges);
    var g2 := AddEdge(g1, top, s.directionFromLastNode, |s.graph.nodes|, Reverse(s.direction),
                      s.distanceFromLastNode);
    assert r.nodes[top] == g2.nodes[top];
    var k := |g2.nodes[top].edges| - 1;
    assert r.nodes[top].edges[k] == |s.graph.edges|;
    assert Touches(r.edges[|s.graph.edges|], |s.graph.nodes|);
  }

  /** Pushing a node linked to the old top keeps the stack linked. */
  lemma PushLinked(g: Graph, pt: seq<nat>, c: nat)
    requires |pt| > 0 && Last(pt) < |g.nodes| && TraceLinked(g, pt)
    requires Last(pt) != c && Linked(g, Last(pt), c)
    ensures TraceLinked(g, pt + [c])
  {
    var pt' := pt + [c];
    forall k | 0 <= k < |pt'| - 1
      ensures pt'[k] < |g.nodes| && pt'[k] != pt'[k + 1] && Linked(g, pt'[k], pt'[k + 1])
    {
      if k < |pt| - 1 {
        assert pt'[k] == pt[k] && pt'[k + 1] == pt[k + 1];
      } else {
        assert pt'[k] == Last(pt) && pt'[k + 1] == c;
      }
    }
  }

  /** Popping the stack keeps it linked. */
  lemma PopLinked(g: Graph, pt: seq<nat>)
    requires |pt| > 0 && TraceLinked(g, pt)
    ensures TraceLinked(g, pt[..|pt| - 1])
  {
    var pt' := pt[..|pt| - 1];
    forall k | 0 <= k < |pt'| - 1
      ensures pt'[k] < |g.nodes| && pt'[k] != pt'[k + 1] && Linked(g, pt'[k], pt'[k + 1])
    {
      assert pt'[k] == pt[k] && pt'[k + 1] == pt[k + 1];
    }
  }

  lemma NewNodeValid(s: State, w: Walls)
    requires Valid(s) && s.phase == Exploring && !s.firstExplorationRun
    requires FindLast(s.graph.nodes, s.x, s.y).None?
    ensures Valid(NewNodeStep(s, w).0)
    ensures GraphGrows(s.graph, NewNodeStep(s, w).0.graph)
  {
    var r := NewNodeStep(s, w).0;
    NewNodeGrows(s, w);
    NewNodeWellFormed(s, w);
    NewNodeFresh(s, w);
    NewNodeLinked(s, w);
    TraceLinkedGrows(s.graph, r.graph, s.pathTrace);
    PushLinked(r.graph, s.pathTrace, |s.graph.nodes|);
    if s.finishX != -1 {
      FindLastGrows(s.graph, r.graph, s.finishX, s.finishY);
    }
    PushInRange(s.pathTrace, |s.graph.nodes|, |s.graph.nodes|, |r.graph.nodes|);
    ValidIntro(r);
  }

  lemma AddEdgeFresh(g: Graph, a: nat, da: Dir, b: nat, db: Dir, len: nat)
    requires a < |g.nodes| && b < |g.nodes| && FreshLabels(g)
    ensures FreshLabels(AddEdge(g, a, da, b, db, len))
  {
  }

  /** The new edge joins its two endpoints, seen from the end node. */
  lemma AddEdgeLinks(g: Graph, a: nat, da: Dir, b: nat, db: Dir, len: nat)
    requires a < |g.nodes| && b < |g.nodes| && a != b
    ensures b < |AddEdge(g, a, da, b, db, len).nodes| && Linked(AddEdge(g, a, da, b, db, len), b, a)
  {
    var r := AddEdge(g, a, da, b, db, len);
    var k := |r.nodes[b].edges| - 1;
    assert r.nodes[b].edges[k] == |g.edges|;
    assert Touches(r.edges[|g.edges|], a);
  }

  lemma ClosureGraph(s: State, c: nat)
    requires StackInRange(s) && c < |s.graph.nodes| && c != Last(s.pathTrace)
    requires WellFormed(s.graph) && FreshLabels(s.graph)
    ensures var g' := ClosureStep(s, c).0.graph;
      GraphGrows(s.graph, g') && WellFormed(g') && FreshLabels(g') && Linked(g', Last(s.pathTrace), c)
  {
    var top := Last(s.pathTrace);
    var g' := AddEdge(s.graph, c, Reverse(s.direction), top, s.directionFromLastNode, s.distanceFromLastNode);
    assert ClosureStep(s, c).0.graph == g';
    AddEdgeWellFormed(s.graph, c, Reverse(s.direction), top, s.directionFromLastNode, s.distanceFromLastNode);
    AddEdgeGrows(s.graph, c, Reverse(s.direction), top, s.directionFromLastNode, s.distanceFromLastNode);
    AddEdgeFresh(s.graph, c, Reverse(s.direction), top, s.directionFromLastNode, s.distanceFromLastNode);
    AddEdgeLinks(s.graph, c, Reverse(s.direction), top, s.directionFromLastNode, s.distanceFromLastNode);
  }

  /** The loop-closing branch keeps the invariant. */
  lemma ClosureValid(s: State, c: nat)
    requires Valid(s) && s.phase == Exploring && !s.firstExplorationRun
    requires c < |s.graph.nodes| && c != Last(s.pathTrace)
    ensures Valid(ClosureStep(s, c).0)
    ensures GraphGrows(s.graph, ClosureStep(s, c).0.graph)
  {
    var r := ClosureStep(s, c).0;
    ClosureGraph(s, c);
    TraceLinkedGrows(s.graph, r.graph, s.pathTrace);
    PushLinked(r.graph, s.pathTrace, c);
    if s.finishX != -1 {
      FindLastGrows(s.graph, r.graph, s.finishX, s.finishY);
    }
    PushInRange(s.pathTrace, c, |s.graph.nodes|, |r.graph.nodes|);
    ValidIntro(r);
  }

  /** Arriving at the stack top keeps the graph growing and well formed and
      records only a goal that is a node. */
  lemma ArriveValid(s: State)
    requires Valid(s) && s.phase == Exploring && !s.firstExplorationRun
    requires FindLast(s.graph.nodes, s.x, s.y) == Some(Last(s.pathTrace))
    ensures var a := ArriveAtTop(s);
      GraphGrows(s.graph, a.graph) && WellFormed(a.graph) && FreshLabels(a.graph) &&
      TraceLinked(a.graph, a.pathTrace) &&
      (a.finishX != -1 ==> FindLast(a.graph.nodes, a.finishX, a.finishY).Some?) &&
      |a.graph.nodes| > 0 && At(a.graph.nodes[0], 0, 0)
  {
    var a := ArriveAtTop(s);
    var c := Last(s.pathTrace);
    assert a.graph == Graph(s.graph.nodes[c := a.graph.nodes[c]], s.graph.edges);
    ReflagWellFormed(s.graph, c, a.graph.nodes[c]);
    ReflagGrows(s.graph, c, a.graph.nodes[c]);
    TraceLinkedGrows(s.graph, a.graph, s.pathTrace);
    assert FreshLabels(a.graph) by {
      forall i | 0 <= i < |a.graph.nodes|
        ensures a.graph.nodes[i].path == s.graph.nodes[i].path
        ensures a.graph.nodes[i].distance == s.graph.nodes[i].distance
      {
      }
    }
    if s.counter == 3 {
      assert At(a.graph.nodes[c], s.x, s.y);
    } else if s.finishX != -1 {
      FindLastGrows(s.graph, a.graph, s.finishX, s.finishY);
    }
  }

  /** A popped node and the new stack top are joined by an edge on the new
      top's list. */
  lemma PopFindsLink(g: Graph, pt: seq<nat>)
    requires |pt| > 1 && TraceLinked(g, pt)
    ensures LinkPos(g, g.nodes[pt[|pt| - 2]].edges, Last(pt)).Some?
  {
    var top, c := pt[|pt| - 2], Last(pt);
    assert Linked(g, top, c);
    var k :| 0 <= k < |g.nodes[top].edges| && g.nodes[top].edges[k] < |g.edges| &&
             Touches(g.edges[g.nodes[top].edges[k]], c);
  }

  /** When every exit of the stack top is explored and the stack does not
      empty, the mouse heads back along an edge between the popped node and
      the new top, by the heading recorded at the popped node's end. */
  lemma BacktrackHeading(s: State, moved: bool)
    requires Valid(s) && s.phase == Exploring && !s.firstExplorationRun
    requires FindLast(s.graph.nodes, s.x, s.y) == Some(Last(s.pathTrace))
    requires FirstUnexplored(ArriveAtTop(s).graph.nodes[Last(s.pathTrace)]).None?
    requires |s.pathTrace| > 1
    ensures var r := StackTopStep(s, moved).0;
      var c := Last(s.pathTrace);
      var top := s.pathTrace[|s.pathTrace| - 2];
      r.pathTrace == s.pathTrace[..|s.pathTrace| - 1] && r.dontMarkArrival &&
      r.phase == Exploring && r.direction == r.directionFromLastNode &&
      exists k :: 0 <= k < |r.graph.nodes[top].edges| && r.graph.nodes[top].edges[k] < |r.graph.edges| &&
        var e := r.graph.edges[r.graph.nodes[top].edges[k]];
        Touches(e, c) && Other(e, c) == top && DirAt(e, c) == r.direction
  {
    var a := ArriveAtTop(s);
    ArriveValid(s);
    var pt := s.pathTrace[..|s.pathTrace| - 1];
    var c := Last(s.pathTrace);
    var top := Last(pt);
    assert top == s.pathTrace[|s.pathTrace| - 2];
    PopFindsLink(a.graph, a.pathTrace);
    var k := LinkPos(a.graph, a.graph.nodes[top].edges, c).value;
    var e := a.graph.edges[a.graph.nodes[top].edges[k]];
    assert Touches(e, top) by {
      assert IncidenceSound(a.graph);
    }
    assert top != c by {
      assert TraceLinked(a.graph, a.pathTrace);
      assert a.pathTrace[|a.pathTrace| - 2] != a.pathTrace[|a.pathTrace| - 1];
    }
    assert e.start != e.end;
  }

  /** The three ways of leaving the stack top after arriving there: by its
      lowest-numbered unexplored exit (north, east, south, west) with the
      stack unchanged; with every exit explored, by popping it and heading
      back toward the new top; or, when the stack empties, by facing north,
      signalling the host and leaving the EXPLORING phase. */
  lemma StackTopLeaves(s: State, moved: bool)
    requires StackInRange(s) && s.phase == Exploring
    ensures var a := ArriveAtTop(s);
      var r := StackTopStep(s, moved);
      var c := Last(s.pathTrace);
      var pt := s.pathTrace;
      && (FirstUnexplored(a.graph.nodes[c]).Some? ==>
            var d := FirstUnexplored(a.graph.nodes[c]).value;
            && r.0.direction == d && r.0.directionFromLastNode == d
            && r.0.pathTrace == pt && r.0.phase == Exploring && !r.0.dontMarkArrival
            && r.0.distanceFromLastNode == 1 && r.0.counter == 0 && r.1[|r.1| - 1] == MoveForward
            && (forall i :: 0 <= i < |r.1| - 1 ==> r.1[i] == TurnRight))
      && (FirstUnexplored(a.graph.nodes[c]).None? && |pt| > 1 ==>
            var d := BacktrackDir(a.graph, pt[|pt| - 2], c, s.directionFromLastNode);
            && r.0.direction == d && r.0.directionFromLastNode == d
            && r.0.pathTrace == pt[..|pt| - 1] && r.0.phase == Exploring && r.0.dontMarkArrival
            && r.0.distanceFromLastNode == 1 && r.0.counter == 0 && r.1[|r.1| - 1] == MoveForward
            && (forall i :: 0 <= i < |r.1| - 1 ==> r.1[i] == TurnRight))
      && (FirstUnexplored(a.graph.nodes[c]).None? && |pt| == 1 ==>
            && r.0.direction == North && r.0.pathTrace == []
            && r.0.phase == (if a.finishX == -1 then End else ComputingShortestPath)
            && r.1[|r.1| - 1] == FoundFinish)
  {
  }

  /** Leaving the stack top changes only the stack, the heading and the
      phase, and keeps them within the invariant. */
  lemma LeaveTopShape(a: State, moved: bool)
    requires StackInRange(a) && TraceLinked(a.graph, a.pathTrace) && a.phase == Exploring
    ensures var r := LeaveTop(a, moved).0;
      && r.graph == a.graph && r.finishX == a.finishX && r.finishY == a.finishY
      && !r.firstExplorationRun == !a.firstExplorationRun
      && (r.pathTrace == a.pathTrace || r.pathTrace == a.pathTrace[..|a.pathTrace| - 1])
      && TraceLinked(r.graph, r.pathTrace)
      && (r.phase == Exploring ==> |r.pathTrace| > 0 && 0 <= r.directionFromLastNode < 4)
      && (r.phase != Exploring ==>
            r.pathTrace == [] && r.phase == (if a.finishX == -1 then End else ComputingShortestPath))
      && r.forkNum == a.forkNum
  {
    var c := Last(a.pathTrace);
    match FirstUnexplored(a.graph.nodes[c])
    case Some(d) => {
    }
    case None => {
      PopLinked(a.graph, a.pathTrace);
    }
  }

  /** A stack-top tick keeps the invariant; if the streak was three the
      recorded goal is the coordinate of the current node. */
  lemma StackTopValid(s: State, moved: bool)
    requires Valid(s) && s.phase == Exploring && !s.firstExplorationRun
    requires FindLast(s.graph.nodes, s.x, s.y) == Some(Last(s.pathTrace))
    ensures Valid(StackTopStep(s, moved).0)
    ensures GraphGrows(s.graph, StackTopStep(s, moved).0.graph)
  {
    var a := ArriveAtTop(s);
    ArriveValid(s);
    LeaveTopShape(a, moved);
    var r := LeaveTop(a, moved).0;
    assert forall k :: 0 <= k < |r.pathTrace| ==> r.pathTrace[k] < |r.graph.nodes|;
    assert |r.pathTrace| > 0 ==> r.pathTrace[0] == 0;
    ValidIntro(r);
  }

  lemma StartTickValid(s: State, w: Walls)
    requires Valid(s) && s.phase == Exploring && s.firstExplorationRun
    ensures Valid(StartTick(s, w).0)
    ensures GraphGrows(s.graph, StartTick(s, w).0.graph)
  {
    var r := StartTick(s, w).0;
    var g := r.graph;
    assert g == Graph([g.nodes[0]], []);
    SingleNodeWellFormed(g.nodes[0]);
    assert TraceLinked(g, r.pathTrace);
    assert FreshLabels(g);
    assert r.finishX == -1;
    ValidIntro(r);
  }

  lemma CorridorValid(s: State, w: Walls, moved: bool)
    requires Valid(s) && InCorridor(s, w)
    ensures Valid(CorridorStep(s, w, moved).0)
  {
  }

  /** Every exploring tick keeps the state invariant and only grows the
      graph: no node, edge or edge-list entry disappears, no coordinate
      changes and no explored flag is cleared. */
  lemma ExploreStepValid(s: State, w: Walls, moved: bool)
    requires Valid(s) && s.phase == Exploring
    ensures Valid(ExploreStep(s, w, moved).0)
    ensures GraphGrows(s.graph, ExploreStep(s, w, moved).0.graph)
  {
    if s.firstExplorationRun {
      StartTickValid(s, w);
    } else if InCorridor(s, w) {
      CorridorValid(s, w, moved);
    } else {
      match FindLast(s.graph.nodes, s.x, s.y)
      case None => {
        NewNodeValid(s, w);
      }
      case Some(c) => {
        if c == Last(s.pathTrace) {
          StackTopValid(s, moved);
        } else {
          ClosureValid(s, c);
        }
      }
    }
  }

  /** The turning loop followed by a forward move, as the robot sees it. */
  lemma DepartTracksRobot(s: State, moved: bool)
    requires 0 <= s.directionFromLastNode < 4
    ensures PoseOf(Depart(s, moved).0) == Execute(PoseOf(s), Depart(s, moved).1, moved)
  {
    var p := PoseOf(s);
    var t := TurnRightUntil(s.direction, s.directionFromLastNode);
    ExecuteAppend(p, Repeat(TurnRight, t.1), [MoveForward], moved);
    TurnRightUntilTracksRobot(p, s.directionFromLastNode, moved);
    ExecuteSingle(p.(dir := t.0), MoveForward, moved);
  }

  lemma CompleteTracksRobot(s: State, moved: bool)
    ensures PoseOf(Complete(s).0) == Execute(PoseOf(s), Complete(s).1, moved)
  {
    var p := PoseOf(s);
    var t := TurnRightUntil(s.direction, North);
    ExecuteAppend(p, Repeat(TurnRight, t.1), [FoundFinish], moved);
    TurnRightUntilTracksRobot(p, North, moved);
    ExecuteSingle(p.(dir := t.0), FoundFinish, moved);
  }

  /** The controller's `+3`, `+1` and `+2` heading updates in the corridor
      agree with the quarter turns the robot physically makes. */
  lemma CorridorTracksRobot(s: State, w: Walls, moved: bool)
    requires InCorridor(s, w)
    ensures PoseOf(CorridorStep(s, w, moved).0) == Execute(PoseOf(s), CorridorStep(s, w, moved).1, moved)
  {
    var p := PoseOf(s);
    if !w.left {
      ExecutePair(p, TurnLeft, MoveForward, moved);
    } else if !w.forward {
      ExecuteSingle(p, MoveForward, moved);
    } else if !w.right {
      ExecutePair(p, TurnRight, MoveForward, moved);
    } else {
      ExecuteTriple(p, TurnRight, TurnRight, MoveForward, moved);
    }
  }

  /** Leaving the stack top moves the robot exactly as the controller
      records. */
  lemma LeaveTopTracksRobot(a: State, moved: bool)
    requires StackInRange(a)
    ensures PoseOf(LeaveTop(a, moved).0) == Execute(PoseOf(a), LeaveTop(a, moved).1, moved)
  {
    var c := Last(a.pathTrace);
    match FirstUnexplored(a.graph.nodes[c])
    case Some(d) => {
      DepartTracksRobot(a.(directionFromLastNode := d), moved);
    }
    case None => {
      var pt := a.pathTrace[..|a.pathTrace| - 1];
      if pt == [] {
        CompleteTracksRobot(a.(pathTrace := []), moved);
      } else {
        var d := BacktrackDir(a.graph, Last(pt), c, a.directionFromLastNode);
        DepartTracksRobot(a.(pathTrace := pt, directionFromLastNode := d, dontMarkArrival := true), moved);
      }
    }
  }

  /** Whatever the sensors say, the pose the controller keeps after an
      exploring tick is where the requested actions physically leave the
      robot: the heading bookkeeping never drifts from the robot. */
  lemma ExploreStepTracksRobot(s: State, w: Walls, moved: bool)
    requires Valid(s) && s.phase == Exploring
    ensures var r := ExploreStep(s, w, moved);
      PoseOf(r.0) == Execute(PoseOf(s), r.1, moved)
  {
    if s.firstExplorationRun {
      ExecuteSingle(PoseOf(s), FoundFinish, moved);
    } else if InCorridor(s, w) {
      CorridorTracksRobot(s, w, moved);
    } else {
      match FindLast(s.graph.nodes, s.x, s.y)
      case None => {
      }
      case Some(c) => {
        if c == Last(s.pathTrace) {
          LeaveTopTracksRobot(ArriveAtTop(s), moved);
        }
      }
    }
  }
}
