/** Heading tracker of the micromouse controller.

    The controller keeps its facing as an integer `direction` (NORTH = 0,
    EAST = 1, SOUTH = 2, WEST = 3) and updates it itself after every turn it
    requests; the grid coordinate changes only when a requested forward move
    is confirmed by the simulator.  This module defines that arithmetic, the
    actions the controller can request, and, independently of the controller,
    what those actions do to a physical robot, so that the two can be compared. */
module Headings {

  /** An absolute heading: NORTH = 0, EAST = 1, SOUTH = 2, WEST = 3. */
  type Dir = d: int | 0 <= d < 4

  const North: Dir := 0
  const East: Dir := 1
  const South: Dir := 2
  const West: Dir := 3

  /** The controller's update after a left turn: `(direction + 3) % 4`. */
  function Left(d: Dir): Dir { (d + 3) % 4 }

  /** The controller's update after a right turn: `(direction + 1) % 4`. */
  function Right(d: Dir): Dir { (d + 1) % 4 }

  /** The controller's update after turning around: `(direction + 2) % 4`.
      The same expression gives the heading that leads back the way the
      mouse came. */
  function Reverse(d: Dir): Dir { (d + 2) % 4 }

  /** Left, right and turn-around relate as quarter turns of a circle. */
  lemma TurnAlgebra(d: Dir)
    ensures Left(Right(d)) == d && Right(Left(d)) == d
    ensures Reverse(d) == Right(Right(d)) && Reverse(Reverse(d)) == d
    ensures Left(d) == Right(Reverse(d))
    ensures Reverse(d) != d && Left(d) != d && Right(d) != d && Left(d) != Right(d)
  {
    if d == North {
      assert Right(d) == 1 && Left(d) == 3 && Reverse(d) == 2;
    } else if d == East {
      assert Right(d) == 2 && Left(d) == 0 && Reverse(d) == 3;
    } else if d == South {
      assert Right(d) == 3 && Left(d) == 1 && Reverse(d) == 0;
    } else {
      assert Right(d) == 0 && Left(d) == 2 && Reverse(d) == 1;
    }
  }

  /** The requests the controller issues to the simulator in one tick. */
  datatype Action = TurnLeft | TurnRight | MoveForward | FoundFinish

  /** Where the robot is and which way it faces. */
  datatype Pose = Pose(x: int, y: int, dir: Dir)

  /** The neighbouring cell in the facing direction: north is +y, east is
      +x, south is -y, west is -x. */
  function Ahead(p: Pose): (q: Pose)
    ensures q.dir == p.dir
    ensures (q.x - p.x) * (q.x - p.x) + (q.y - p.y) * (q.y - p.y) == 1
  {
    if p.dir == North then p.(y := p.y + 1)
    else if p.dir == East then p.(x := p.x + 1)
    else if p.dir == South then p.(y := p.y - 1)
    else p.(x := p.x - 1)
  }

  /** Stepping ahead and then stepping ahead again after turning around
      brings the robot back to the cell it started from. */
  lemma AheadReverseReturns(p: Pose)
    ensures var q := Ahead(p); Ahead(q.(dir := Reverse(q.dir))) == p.(dir := Reverse(p.dir))
  {
  }

  /** The forward move of the heading tracker: the coordinate follows the
      heading's unit vector only when the simulator confirms the move. */
  function MoveIfConfirmed(p: Pose, moved: bool): (q: Pose)
    ensures q.dir == p.dir
    ensures !moved ==> q == p
    ensures moved ==> q == Ahead(p)
  {
    if !moved then p else Ahead(p)
  }

  /** The robot's own geometry, tabulated rather than computed: the
      heading a quarter turn clockwise and counter-clockwise of each
      heading, and the cell offset of one step along each. */
  function Clockwise(d: Dir): Dir
  {
    if d == North then East else if d == East then South else if d == South then West else North
  }

  function Counterclockwise(d: Dir): Dir
  {
    if d == North then West else if d == West then South else if d == South then East else North
  }

  function StepX(d: Dir): int { if d == East then 1 else if d == West then -1 else 0 }

  function StepY(d: Dir): int { if d == North then 1 else if d == South then -1 else 0 }

  /** What one requested action does to the physical robot, from the
      tables above.  The controller's own bookkeeping agrees with it: the
      `+3` update after a left turn, the `+1` update after a right turn and
      the coordinate update of its forward move each give the pose the
      robot really reaches. */
  function Perform(p: Pose, a: Action, moved: bool): (q: Pose)
    ensures a == TurnLeft ==> q == p.(dir := Left(p.dir))
    ensures a == TurnRight ==> q == p.(dir := Right(p.dir))
    ensures a == MoveForward ==> q == MoveIfConfirmed(p, moved)
    ensures a == FoundFinish ==> q == p
  {
    match a
    case TurnLeft => p.(dir := Counterclockwise(p.dir))
    case TurnRight => p.(dir := Clockwise(p.dir))
    case MoveForward => if moved then Pose(p.x + StepX(p.dir), p.y + StepY(p.dir), p.dir) else p
    case FoundFinish => p
  }

  /** The physical pose after a tick's actions have been carried out in
      order.  A tick requests at most one forward move, so a single `moved`
      answer describes it. */
  function Execute(p: Pose, acts: seq<Action>, moved: bool): Pose
    decreases |acts|
  {
    if acts == [] then p else Execute(Perform(p, acts[0], moved), acts[1..], moved)
  }

  /** Executing two action lists one after the other is executing their
      concatenation. */
  lemma {:induction false} ExecuteAppend(p: Pose, a: seq<Action>, b: seq<Action>, moved: bool)
    ensures Execute(p, a + b, moved) == Execute(Execute(p, a, moved), b, moved)
    decreases |a|
  {
    if a == [] {
      assert a + b == b;
    } else {
      assert (a + b)[1..] == a[1..] + b;
      ExecuteAppend(Perform(p, a[0], moved), a[1..], b, moved);
    }
  }

  /** `n` copies of the same action. */
  function Repeat(a: Action, n: nat): (r: seq<Action>)
    ensures |r| == n
    ensures forall i :: 0 <= i < |r| ==> r[i] == a
  {
    if n == 0 then [] else [a] + Repeat(a, n - 1)
  }

  /** The heading reached from `d` after `k` right quarter turns. */
  function Rotate(d: Dir, k: nat): Dir
    decreases k
  {
    if k == 0 then d else Rotate(Right(d), k - 1)
  }

  /** How many right quarter turns separate `d` from `target`. */
  function Gap(d: Dir, target: Dir): nat
  {
    if d <= target then target - d else target - d + 4
  }

  /** The controller's `while (direction != target) { turnRight(); ... }`
      loop: the heading it ends with and the number of right turns it
      requested.  It stops at the first heading equal to the target, which
      is never more than three quarter turns away. */
  function TurnRightUntil(d: Dir, target: Dir): (r: (Dir, nat))
    ensures r.0 == target
    ensures r.1 == Gap(d, target) && r.1 <= 3
    ensures Rotate(d, r.1) == target
    ensures forall k :: 0 <= k < r.1 ==> Rotate(d, k) != target
    decreases Gap(d, target)
  {
    if d == target then (d, 0)
    else
      var r := TurnRightUntil(Right(d), target);
      assert Gap(Right(d), target) + 1 == Gap(d, target);
      assert forall k :: 0 < k <= r.1 ==> Rotate(d, k) == Rotate(Right(d), k - 1);
      (r.0, r.1 + 1)
  }

  /** `n` physical right turns rotate the robot by `n` quarter turns
      clockwise and leave its cell alone. */
  lemma {:induction false} ExecuteRightTurns(p: Pose, n: nat, moved: bool)
    ensures Execute(p, Repeat(TurnRight, n), moved) == p.(dir := Rotate(p.dir, n))
    decreases n
  {
    if n > 0 {
      var q := Perform(p, TurnRight, moved);
      assert Repeat(TurnRight, n)[1..] == Repeat(TurnRight, n - 1);
      ExecuteRightTurns(q, n - 1, moved);
    }
  }

  /** The turning loop leaves the robot physically facing the heading the
      controller believes it faces. */
  lemma TurnRightUntilTracksRobot(p: Pose, target: Dir, moved: bool)
    ensures var r := TurnRightUntil(p.dir, target);
            Execute(p, Repeat(TurnRight, r.1), moved) == p.(dir := r.0)
  {
    ExecuteRightTurns(p, TurnRightUntil(p.dir, target).1, moved);
  }

  /** A single action list element executed alone. */
  lemma ExecuteSingle(p: Pose, a: Action, moved: bool)
    ensures Execute(p, [a], moved) == Perform(p, a, moved)
  {
    assert [a][1..] == [];
  }

  /** Two actions executed in order. */
  lemma ExecutePair(p: Pose, a: Action, b: Action, moved: bool)
    ensures Execute(p, [a, b], moved) == Perform(Perform(p, a, moved), b, moved)
  {
    assert [a, b][1..] == [b];
    ExecuteSingle(Perform(p, a, moved), b, moved);
  }

  /** Three actions executed in order. */
  lemma ExecuteTriple(p: Pose, a: Action, b: Action, c: Action, moved: bool)
    ensures Execute(p, [a, b, c], moved) == Perform(Perform(Perform(p, a, moved), b, moved), c, moved)
  {
    assert [a, b, c][1..] == [b, c];
    ExecutePair(Perform(p, a, moved), b, c, moved);
  }
}
