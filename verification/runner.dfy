/** The RUNNING_SHORTEST_PATH and END phases: the mouse walks back from
    the start along the planned path, following corridors between forks
    and, at each fork, turning to the next heading the planner recorded for
    the goal node. */
module Runner {
  import opened Headings
  import opened MazeGraph
  import opened Mouse
  import opened Exploration

  /** The run phase's corridor branch as the source writes it: no left
      wall turns left; a forward wall with the right open turns right but
      books the turn as `(direction + 3) % 4`, a left turn; everything else,
      including an open way straight ahead, turns around. */
  function RunCorridorAsWritten(s: State, w: Walls, moved: bool): (r: (State, seq<Action>))
    requires InCorridor(s, w)
    ensures r.0.(x := s.x, y := s.y, direction := s.direction) == s
    ensures 2 <= |r.1| <= 3 && r.1[|r.1| - 1] == MoveForward
    ensures !w.left ==> r.1 == [TurnLeft, MoveForward] && r.0.direction == Left(s.direction)
    ensures w.left && w.forward && !w.right ==> r.1 == [TurnRight, MoveForward] && r.0.direction == Left(s.direction)
    ensures w.left && !(w.forward && !w.right) ==>
      r.1 == [TurnRight, TurnRight, MoveForward] && r.0.direction == Reverse(s.direction)
  {
    var (d, turns) :=
      if !w.left then (Left(s.direction), [TurnLeft])
      else if w.forward && !w.right then (Left(s.direction), [TurnRight])
      else (Reverse(s.direction), [TurnRight, TurnRight]);
    (WithPose(s, MoveIfConfirmed(Pose(s.x, s.y, d), moved)), turns + [MoveForward])
  }

  /** A right turn in the run corridor, as written, leaves the tracked
      heading a half turn away from the robot's real heading, whatever the
      state: every later fork turn is then computed from a wrong heading. */
  lemma AsWrittenRightTurnDesyncs(s: State, moved: bool)
    requires InCorridor(s, Walls(true, true, false))
    ensures var r := RunCorridorAsWritten(s, Walls(true, true, false), moved);
      r.0.direction != Execute(PoseOf(s), r.1, moved).dir &&
      r.0.direction == Reverse(Execute(PoseOf(s), r.1, moved).dir)
  {
    var w := Walls(true, true, false);
    var r := RunCorridorAsWritten(s, w, moved);
    assert r.1 == [TurnRight, MoveForward] && r.0.direction == Left(s.direction);
    ExecutePair(PoseOf(s), TurnRight, MoveForward, moved);
    var actual := Execute(PoseOf(s), r.1, moved).dir;
    assert actual == Right(s.direction);
    if s.direction == North {
      assert Left(s.direction) == 3 && actual == 1;
    } else if s.direction == East {
      assert Left(s.direction) == 0 && actual == 2;
    } else if s.direction == South {
      assert Left(s.direction) == 1 && actual == 3;
    } else {
      assert Left(s.direction) == 2 && actual == 0;
    }
  }

  /** In a straight corridor (walls left and right, open ahead) the run
      corridor, as written, turns the mouse around, where exploration's
      wall-following goes straight on. */
  lemma AsWrittenTurnsBackInStraightCorridor(s: State, moved: bool)
    requires InCorridor(s, Walls(true, false, true))
    ensures var r := RunCorridorAsWritten(s, Walls(true, false, true), moved);
      r.1 == [TurnRight, TurnRight, MoveForward] &&
      r.1 != CorridorStep(s, Walls(true, false, true), moved).1 &&
      r.0.direction != CorridorStep(s, Walls(true, false, true), moved).0.direction
  {
    TurnAlgebra(s.direction);
  }

  /** The run corridor, as written, keeps the tracked pose equal to the
      robot's on every corridor input except the right turn: it loses
      track exactly there. */
  lemma AsWrittenTracksExceptRightTurn(s: State, w: Walls, moved: bool)
    requires InCorridor(s, w)
    ensures var r := RunCorridorAsWritten(s, w, moved);
      PoseOf(r.0) == Execute(PoseOf(s), r.1, moved) <==> !(w.left && w.forward && !w.right)
  {
    var r := RunCorridorAsWritten(s, w, moved);
    if !w.left {
      ExecutePair(PoseOf(s), TurnLeft, MoveForward, moved);
    } else if w.forward && !w.right {
      assert w == Walls(true, true, false);
      AsWrittenRightTurnDesyncs(s, moved);
    } else {
      ExecuteTriple(PoseOf(s), TurnRight, TurnRight, MoveForward, moved);
      TurnAlgebra(s.direction);
    }
  }

  /** The run corridor as evidently intended: the same left-hand priority
      as exploration, with each turn booked as the turn it is. */
  function RunCorridor(s: State, w: Walls, moved: bool): (r: (State, seq<Action>))
    requires InCorridor(s, w)
    ensures r.0.(x := s.x, y := s.y, direction := s.direction) == s
    ensures 1 <= |r.1| <= 3 && r.1[|r.1| - 1] == MoveForward
  {
    var (d, turns) :=
      if !w.left then (Left(s.direction), [TurnLeft])
      else if w.forward && !w.right then (Right(s.direction), [TurnRight])
      else if !w.forward then (s.direction, [])
      else (Reverse(s.direction), [TurnRight, TurnRight]);
    (WithPose(s, MoveIfConfirmed(Pose(s.x, s.y, d), moved)), turns + [MoveForward])
  }

  /** The corrected run corridor keeps the tracked pose equal to the
      robot's. */
  lemma RunCorridorTracksRobot(s: State, w: Walls, moved: bool)
    requires InCorridor(s, w)
    ensures PoseOf(RunCorridor(s, w, moved).0) == Execute(PoseOf(s), RunCorridor(s, w, moved).1, moved)
  {
    var p := PoseOf(s);
    if !w.left {
      ExecutePair(p, TurnLeft, MoveForward, moved);
    } else if w.forward && !w.right {
      ExecutePair(p, TurnRight, MoveForward, moved);
    } else if !w.forward {
      ExecuteSingle(p, MoveForward, moved);
    } else {
      ExecuteTriple(p, TurnRight, TurnRight, MoveForward, moved);
    }
  }

  /** The corrected run corridor follows the left wall exactly as the
      exploring mouse did: same actions, same resulting pose. */
  lemma RunCorridorFollowsExploration(s: State, w: Walls, moved: bool)
    requires InCorridor(s, w)
    ensures RunCorridor(s, w, moved).1 == CorridorStep(s, w, moved).1
    ensures PoseOf(RunCorridor(s, w, moved).0) == PoseOf(CorridorStep(s, w, moved).0)
  {
  }

  /** The fork branch: turn right until facing the planned heading for
      this fork, move forward, and count the fork. */
  function ReplayFork(s: State, path: seq<Dir>, moved: bool): (r: (State, seq<Action>))
    requires s.forkNum < |path|
    ensures r.0.direction == path[s.forkNum] && r.0.forkNum == s.forkNum + 1
    ensures 1 <= |r.1| <= 4 && r.1[|r.1| - 1] == MoveForward
    ensures forall i :: 0 <= i < |r.1| - 1 ==> r.1[i] == TurnRight
    ensures r.0.(x := s.x, y := s.y, direction := s.direction, forkNum := s.forkNum) == s
  {
    var t := TurnRightUntil(s.direction, path[s.forkNum]);
    (WithPose(s, MoveIfConfirmed(Pose(s.x, s.y, t.0), moved)).(forkNum := s.forkNum + 1),
     Repeat(TurnRight, t.1) + [MoveForward])
  }

  lemma ReplayForkTracksRobot(s: State, path: seq<Dir>, moved: bool)
    requires s.forkNum < |path|
    ensures PoseOf(ReplayFork(s, path, moved).0) == Execute(PoseOf(s), ReplayFork(s, path, moved).1, moved)
  {
    var p := PoseOf(s);
    var t := TurnRightUntil(s.direction, path[s.forkNum]);
    ExecuteAppend(p, Repeat(TurnRight, t.1), [MoveForward], moved);
    TurnRightUntilTracksRobot(p, path[s.forkNum], moved);
    ExecuteSingle(p.(dir := t.0), MoveForward, moved);
  }

  /** The planned headings of the goal node. */
  function PlannedPath(s: State): seq<Dir>
    requires Destination(s).Some?
  {
    s.graph.nodes[Destination(s).value].path
  }

  /** Counting the fork that consumes the last planned heading ends the
      run. */
  function EndAtPathEnd(s: State, n: nat): State
  {
    if s.forkNum == n then s.(phase := End) else s
  }

  /** One tick of the RUNNING_SHORTEST_PATH phase, as the source writes
      it.  The source reads `path.at(forkNum)` at a fork; past the end of
      the path that throws, so a fork tick requires an entry left. */
  function RunStep(s: State, w: Walls, moved: bool): (r: (State, seq<Action>))
    requires s.phase == RunningShortestPath && Destination(s).Some?
    requires !InCorridor(s, w) ==> s.forkNum < |PlannedPath(s)|
    ensures r.0.graph == s.graph && r.0.finishX == s.finishX && r.0.finishY == s.finishY
    ensures InCorridor(s, w) ==> r.0.forkNum == s.forkNum
    ensures !InCorridor(s, w) ==> r.0.forkNum == s.forkNum + 1 && r.0.direction == PlannedPath(s)[s.forkNum]
    ensures r.0.phase == (if r.0.forkNum == |PlannedPath(s)| then End else RunningShortestPath)
    ensures r.1 != [] && r.1[|r.1| - 1] == MoveForward
  {
    var path := PlannedPath(s);
    var t := if InCorridor(s, w) then RunCorridorAsWritten(s, w, moved) else ReplayFork(s, path, moved);
    (EndAtPathEnd(t.0, |path|), t.1)
  }

  /** The run tick as evidently intended: the corrected corridor of
      `RunCorridor`, and a fork tick that finds the path already consumed
      ends the run instead of reading past its end.  The path is empty,
      and so consumed before the first fork, when the goal recorded during
      exploration is the start cell. */
  function RunStepIntended(s: State, w: Walls, moved: bool): (r: (State, seq<Action>))
    requires s.phase == RunningShortestPath && Destination(s).Some?
    requires !InCorridor(s, w) ==> s.forkNum <= |PlannedPath(s)|
    ensures r.0.graph == s.graph && r.0.finishX == s.finishX && r.0.finishY == s.finishY
    ensures InCorridor(s, w) ==> r.0.forkNum == s.forkNum
    ensures !InCorridor(s, w) && s.forkNum < |PlannedPath(s)| ==>
      r.0.forkNum == s.forkNum + 1 && r.0.direction == PlannedPath(s)[s.forkNum]
    ensures !InCorridor(s, w) && s.forkNum == |PlannedPath(s)| ==> r.0 == s.(phase := End) && r.1 == []
    ensures r.0.phase == (if r.0.forkNum == |PlannedPath(s)| then End else RunningShortestPath)
    ensures r.1 != [] || (!InCorridor(s, w) && s.forkNum == |PlannedPath(s)|)
    ensures r.1 != [] ==> r.1[|r.1| - 1] == MoveForward
  {
    var path := PlannedPath(s);
    if !InCorridor(s, w) && s.forkNum == |path| then (s.(phase := End), [])
    else
      var t := if InCorridor(s, w) then RunCorridor(s, w, moved) else ReplayFork(s, path, moved);
      (EndAtPathEnd(t.0, |path|), t.1)
  }

  /** The two run ticks differ only in the corridor: at a fork they are
      the same tick, and in a corridor they differ only in the pose and
      the turns requested. */
  lemma RunStepsAgree(s: State, w: Walls, moved: bool)
    requires s.phase == RunningShortestPath && Destination(s).Some?
    requires !InCorridor(s, w) ==> s.forkNum < |PlannedPath(s)|
    ensures !InCorridor(s, w) ==> RunStep(s, w, moved) == RunStepIntended(s, w, moved)
    ensures var a := RunStep(s, w, moved).0;
      var b := RunStepIntended(s, w, moved).0;
      a.(x := b.x, y := b.y, direction := b.direction) == b
  {
  }

  /** The source's run tick loses track of the robot: in a corridor with
      walls left and ahead and the right open, the heading it records is
      not the one the robot faces after the requested actions. */
  lemma RunStepDesyncs(s: State, moved: bool)
    requires s.phase == RunningShortestPath && Destination(s).Some?
    requires InCorridor(s, Walls(true, true, false))
    ensures PoseOf(RunStep(s, Walls(true, true, false), moved).0) !=
            Execute(PoseOf(s), RunStep(s, Walls(true, true, false), moved).1, moved)
  {
    AsWrittenRightTurnDesyncs(s, moved);
  }

  /** The corrected run tick keeps the tracked pose equal to the robot's. */
  lemma RunStepIntendedTracksRobot(s: State, w: Walls, moved: bool)
    requires s.phase == RunningShortestPath && Destination(s).Some?
    requires !InCorridor(s, w) ==> s.forkNum <= |PlannedPath(s)|
    ensures PoseOf(RunStepIntended(s, w, moved).0) == Execute(PoseOf(s), RunStepIntended(s, w, moved).1, moved)
  {
    if InCorridor(s, w) {
      RunCorridorTracksRobot(s, w, moved);
    } else if s.forkNum == |PlannedPath(s)| {
    } else {
      ReplayForkTracksRobot(s, PlannedPath(s), moved);
    }
  }

  /** One run tick, as written or corrected. */
  function Run(s: State, w: Walls, moved: bool, intended: bool): (r: (State, seq<Action>))
    requires s.phase == RunningShortestPath && Destination(s).Some?
    requires !InCorridor(s, w) ==> s.forkNum < |PlannedPath(s)|
    ensures r.0.graph == s.graph && r.0.finishX == s.finishX && r.0.finishY == s.finishY
    ensures InCorridor(s, w) ==> r.0.forkNum == s.forkNum
    ensures !InCorridor(s, w) ==> r.0.forkNum == s.forkNum + 1 && r.0.direction == PlannedPath(s)[s.forkNum]
    ensures r.0.phase == (if r.0.forkNum == |PlannedPath(s)| then End else RunningShortestPath)
  {
    if intended then RunStepIntended(s, w, moved) else RunStep(s, w, moved)
  }

  /** Run ticks over a sequence of sensor readings, collecting the heading
      taken at each fork.  The run stops when the phase leaves RUNNING or
      when a fork would read past the end of the path. */
  function Replay(s: State, ins: seq<(Walls, bool)>, intended: bool): (r: (State, seq<Dir>))
    requires s.phase == RunningShortestPath ==> Destination(s).Some?
    decreases |ins|
  {
    if ins == [] || s.phase != RunningShortestPath then (s, [])
    else if !InCorridor(s, ins[0].0) && s.forkNum >= |PlannedPath(s)| then (s, [])
    else
      var t := Run(s, ins[0].0, ins[0].1, intended);
      var rest := Replay(t.0, ins[1..], intended);
      (rest.0, (if InCorridor(s, ins[0].0) then [] else [t.0.direction]) + rest.1)
  }

  /** A non-empty slice is its first element followed by the rest. */
  lemma SliceCons<T>(p: seq<T>, i: nat, j: nat)
    requires i < j <= |p|
    ensures p[i..j] == [p[i]] + p[i + 1..j]
  {
  }

  /** Each fork tick consumes exactly the next planned heading, in order:
      the headings taken at forks during any run, as written or corrected,
      are the slice of the goal node's path from the fork count at the
      start to the one at the end.  The run is in END only with the whole
      path consumed, and a fork tick that consumes the last entry ends it. */
  lemma {:induction false} ReplayConsumesPath(s: State, ins: seq<(Walls, bool)>, intended: bool)
    requires s.phase == RunningShortestPath && Destination(s).Some?
    requires s.forkNum <= |PlannedPath(s)|
    ensures var r := Replay(s, ins, intended);
      && r.0.graph == s.graph && r.0.finishX == s.finishX && r.0.finishY == s.finishY
      && s.forkNum <= r.0.forkNum <= |PlannedPath(s)|
      && r.1 == PlannedPath(s)[s.forkNum..r.0.forkNum]
      && (r.0.phase == End ==> r.0.forkNum == |PlannedPath(s)|)
      && (r.0.forkNum > s.forkNum && r.0.forkNum == |PlannedPath(s)| ==> r.0.phase == End)
      && (r.0.phase != End ==> r.0.phase == RunningShortestPath)
    decreases |ins|
  {
    var path := PlannedPath(s);
    if ins == [] || (!InCorridor(s, ins[0].0) && s.forkNum >= |path|) {
      assert path[s.forkNum..s.forkNum] == [];
    } else {
      var t := Run(s, ins[0].0, ins[0].1, intended);
      assert Destination(t.0) == Destination(s);
      var rest := Replay(t.0, ins[1..], intended);
      if t.0.phase == RunningShortestPath {
        ReplayConsumesPath(t.0, ins[1..], intended);
      } else {
        assert rest == (t.0, []);
      }
      if !InCorridor(s, ins[0].0) {
        assert PlannedPath(t.0) == path;
        SliceCons(path, s.forkNum, rest.0.forkNum);
      } else {
        assert [] + rest.1 == rest.1;
      }
    }
  }

  /** The END phase: signal the host and change nothing. */
  function EndStep(s: State): (r: (State, seq<Action>))
    requires s.phase == End
    ensures r.0 == s && r.1 == [FoundFinish]
  {
    (s, [FoundFinish])
  }
}
