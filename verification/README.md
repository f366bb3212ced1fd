# Micromouse navigation controller

A model of the tick-driven controller in
`microMouseServer/microMouseServer/studentai.cpp`. The host simulator calls
`studentAI()` once per cycle. Each call reads three wall sensors (left,
forward, right), may ask for turns, at most one forward move and a
`foundFinish()` signal, and then returns. The controller goes through four
phases:

- **EXPLORING**: a depth-first, left-wall-following traversal. It builds a
  graph with one node per fork (and one for the start cell) and one edge per
  corridor walked between two forks. It records the goal cell when the mouse
  reaches a stack-top fork after exactly three consecutive right-turn
  corridor steps.
- **COMPUTING_SHORTEST_PATH**: Dijkstra's algorithm from the start node up
  to the goal node. Each node gets a distance in corridor cells and the
  headings to take at each fork.
- **RUNNING_SHORTEST_PATH**: the mouse walks corridors and, at each fork,
  takes the next planned heading.
- **END**: signals the host on every tick.

The function-local `static` variables become the fields of one immutable
`Mouse.State` record. A tick is a function from the state, the sensed
`Walls` and the simulator's answer to the forward move (`moved`) to the
next state and the list of requested `Action`s. Heap nodes and edges
linked by pointers become one arena, `MazeGraph.Graph`, whose nodes and
edges refer to each other by index. The `INT_MAX` "unreached" distance is
`Inf` in `MazeGraph.Dist`.

Besides the controller's own heading bookkeeping (`direction = (direction
+ 3) % 4` and so on), `Headings.Execute` says independently what the
requested actions do to a physical robot, from compass tables of quarter
turns and unit steps. The "tracks robot" lemmas prove that the
controller's `(x, y, direction)` equals the robot's real pose after every
exploration tick and after every tick of the corrected run phase. The run
phase as written loses track of the robot in one corridor case (see
Findings), and `Runner.RunStepDesyncs` proves that it does.

Modules:

- `Headings`: heading arithmetic, actions, the physical pose.
- `MazeGraph`: nodes, edges, the `Edge` constructor, node lookups, walks.
- `Mouse`: the controller state and its invariant `Valid`.
- `Exploration`: one function per branch of the EXPLORING block.
- `ExplorationLemmas`: those branches preserve `Valid`, only grow the
  graph, and track the robot.
- `Planner`: the Dijkstra loop and its correctness proof.
- `Runner`: the run and END phases, plus both halves of the findings below.
- `Controller`: the whole tick, `Controller.Tick`.

Behaviour of the code worth noting:

- The first tick only initialises and does not move.
- At the start cell, walls forward and right end the controller whatever
  the left sensor says. A dead-end start that is open only to the left
  therefore goes straight to END instead of turning left.
- Turning toward a heading is always done by right turns, never by the
  shorter arc.
- The goal streak counts right-turn corridor steps only. A left turn,
  going straight or turning around resets it.
- A forward move the simulator refuses leaves the coordinate unchanged. It
  is not reported as a fault.
- The run phase's corridor handling differs from exploration's in two
  cases, and a fork tick reads the planned path before checking whether
  it is used up (see Findings). `Runner.RunStep` models the run tick as
  written; `Controller.Tick` uses the corrected `Runner.RunStepIntended`.

## Model

| member | source | states |
|---|---|---|
| Headings.TurnAlgebra | microMouseServer/microMouseServer/studentai.cpp:101-123 | The `+3`, `+1`, `+2` updates are inverse and composite quarter turns: left undoes right, turning around is two right turns and is its own inverse, and the three differ from the current heading and from each other. |
| Headings.Ahead | microMouseServer/microMouseServer/studentai.cpp:59-66 | A move changes the cell by exactly one unit step and keeps the heading. |
| Headings.AheadReverseReturns | microMouseServer/microMouseServer/studentai.cpp:55-68 | One step ahead, then one step after turning around, returns to the starting cell. This is why `(direction + 2) % 4` is the heading back into the corridor just walked. |
| Headings.Perform | microMouseServer/microMouseServer/studentai.cpp:51-68 | The controller's heading and coordinate bookkeeping (`+3` for a left turn, `+1` for a right turn, the `MoveForward` lambda's update only when the simulator confirms the move) agrees with a robot whose turns and steps come from the compass tables with north 0, east 1, south 2, west 3. |
| Headings.TurnRightUntil | microMouseServer/microMouseServer/studentai.cpp:262-266 | The turn-right loop ends facing the target after at most three right turns. It stops at the first quarter turn that reaches the target. |
| Headings.TurnRightUntilTracksRobot | microMouseServer/microMouseServer/studentai.cpp:262-266 | Those right turns leave the physical robot facing the heading the controller recorded. |
| MazeGraph.SetExplored | microMouseServer/microMouseServer/studentai.cpp:176-191 | The `switch` on a heading sets exactly that heading's explored flag and leaves the other three flags and the node's data alone. |
| MazeGraph.MarkExploredGrows | microMouseServer/microMouseServer/studentai.cpp:403-432 | Marking never clears a flag. |
| MazeGraph.AddEdge | microMouseServer/microMouseServer/studentai.cpp:394-434 | The `Edge` constructor appends one edge. It registers the edge on both endpoints' lists (for distinct endpoints, exactly once each), marks `startDir` at the start and `endDir` at the end as explored, and changes no other node, flag, coordinate or label. |
| MazeGraph.FindLast | microMouseServer/microMouseServer/studentai.cpp:129-134 | The exploration lookup returns the last node at the coordinate, or none when no node is there. |
| MazeGraph.FindFirst | microMouseServer/microMouseServer/studentai.cpp:337-344 | The run lookup, with its `break`, returns the first node at the coordinate, or none. |
| MazeGraph.FindFirstIsFindLast | microMouseServer/microMouseServer/studentai.cpp:337-344 | With coordinates unique, both lookups find the same node, so the run's destination is the goal node the planner labelled. |
| MazeGraph.SingleNodeWellFormed | microMouseServer/microMouseServer/studentai.cpp:79-85 | The graph after the first tick, one node and no edge, is well formed. |
| MazeGraph.AddNodeWithEdgeWellFormed | microMouseServer/microMouseServer/studentai.cpp:135-138 | Creating a node at a free coordinate and linking it to the stack top keeps the graph well formed: edges registered on both ends, coordinates unique, every node linked to an earlier one. |
| MazeGraph.AddEdgeWellFormed | microMouseServer/microMouseServer/studentai.cpp:271-273 | Linking two distinct existing nodes keeps the graph well formed. |
| MazeGraph.ReflagWellFormed | microMouseServer/microMouseServer/studentai.cpp:176-207 | Changing only explored flags keeps the graph well formed. |
| MazeGraph.WalkSnoc | microMouseServer/microMouseServer/studentai.cpp:292-305 | Extending a walk by one edge at its far end adds that edge's length to the weight and that edge's heading at the far end to the headings. This is what a relaxation writes into `distance` and `path`. |
| MazeGraph.Reachable | microMouseServer/microMouseServer/studentai.cpp:318-325 | Every node of a well-formed graph is reachable from the start node by a walk. |
| Mouse.InitialValid | microMouseServer/microMouseServer/studentai.cpp:48-76 | The initial values of the statics satisfy the state invariant. |
| Exploration.StartTick | microMouseServer/microMouseServer/studentai.cpp:77-98 | The first tick creates the start node at (0,0) with distance 0. South and west are explored; north and east are explored exactly when walled. The first heading is the lowest open one. The phase becomes END exactly when forward and right are both walled, and then `foundFinish` is the only action. The pose, goal, streak, corridor length, exemption flag and fork count are unchanged. |
| Exploration.CorridorStep | microMouseServer/microMouseServer/studentai.cpp:99-126 | The corridor branch uses priority left, forward, right, around, with exactly the matching action list. The corridor length grows by one. The goal streak grows exactly on a right turn and is otherwise reset. Graph, stack and phase are untouched. |
| Exploration.SenseExits | microMouseServer/microMouseServer/studentai.cpp:140-162 | The relative left, forward and right walls are stored on the absolute headings `direction+3`, `direction` and `direction+1`. The exit behind keeps its flag. |
| Exploration.NewNodeStep | microMouseServer/microMouseServer/studentai.cpp:135-167 | A fork at an unknown coordinate appends exactly one node there, with sensed exits and the arrival exit explored. It appends exactly one edge from the stack top, with the recorded headings and length, and pushes the node. The stack top gains exactly that edge on its list and exactly the departure heading among its flags. Every other existing node is unchanged. Corridor length and streak are reset. No action is requested. |
| Exploration.FirstUnexplored | microMouseServer/microMouseServer/studentai.cpp:208-223 | The chosen heading is unexplored and every lower-numbered heading is explored. None is returned only when all four are explored. |
| Exploration.Depart | microMouseServer/microMouseServer/studentai.cpp:262-269 | Leaving a fork: only right turns and then one forward move, ending facing the chosen heading, with corridor length 1 and the streak reset. |
| Exploration.Complete | microMouseServer/microMouseServer/studentai.cpp:226-246 | An empty stack ends exploration. The mouse turns right until it faces north and then signals the host. The next phase is planning when a goal was recorded, otherwise END. |
| Exploration.LinkPos | microMouseServer/microMouseServer/studentai.cpp:247-259 | The backtracking scan stops at the first edge on the new top's list that touches the popped node. None is returned only when no edge on the list does. |
| Exploration.ArriveAtTop | microMouseServer/microMouseServer/studentai.cpp:170-207 | Arriving at the stack top records the goal exactly when the streak is 3. Its explored flags afterwards are exactly the old ones plus the arrival exit, plus the last departure heading unless the node was just created or backtracked to. It clears that exemption. Every other node and all other state are unchanged. |
| Exploration.ClosureStep | microMouseServer/microMouseServer/studentai.cpp:271-277 | A fork at a known node other than the stack top adds exactly one edge from it to the stack top, with no new node. The known node gains exactly that edge and the arrival exit as explored. The stack top gains exactly that edge and the departure heading. Every other node is unchanged. It pushes the known node, requests no action, and leaves the exemption flag as it was. |
| ExplorationLemmas.AddEdgeGrows | microMouseServer/microMouseServer/studentai.cpp:394-434 | The `Edge` constructor only grows the graph: no node, edge, list entry or set flag is lost. |
| ExplorationLemmas.NewNodeGrows | microMouseServer/microMouseServer/studentai.cpp:135-167 | Creating a node only grows the graph. |
| ExplorationLemmas.NewNodeValid | microMouseServer/microMouseServer/studentai.cpp:129-167 | The new-node branch keeps the state invariant. |
| ExplorationLemmas.ClosureValid | microMouseServer/microMouseServer/studentai.cpp:271-277 | The closure branch keeps the state invariant and only grows the graph. |
| ExplorationLemmas.ArriveValid | microMouseServer/microMouseServer/studentai.cpp:170-207 | Arriving at the stack top keeps the graph well formed, connected along the stack and with fresh labels. A recorded goal is a node. |
| ExplorationLemmas.PopFindsLink | microMouseServer/microMouseServer/studentai.cpp:247-259 | After a pop, the backtracking scan always finds an edge to the popped node, so `directionFromLastNode` is never left stale. |
| ExplorationLemmas.BacktrackHeading | microMouseServer/microMouseServer/studentai.cpp:247-266 | Backtracking leaves the popped node along an edge that joins it to the new stack top, by the heading recorded at its own end of that edge. |
| ExplorationLemmas.StackTopLeaves | microMouseServer/microMouseServer/studentai.cpp:208-269 | Leaving the stack top: with an unexplored exit, the mouse departs by the lowest-numbered one, keeps the stack and ends with a forward move. With none and more than one node stacked, it pops and heads back by the edge that joins the popped node to the new top, ending with a forward move. In both cases every action before that move is a right turn and the goal streak is reset. With none and only the start stacked, it faces north, empties the stack, signals the host, and moves to planning exactly when a goal was recorded. |
| ExplorationLemmas.StackTopValid | microMouseServer/microMouseServer/studentai.cpp:168-270 | The stack-top branch keeps the state invariant and only grows the graph. |
| ExplorationLemmas.StartTickValid | microMouseServer/microMouseServer/studentai.cpp:77-98 | The first tick establishes the state invariant. |
| ExplorationLemmas.CorridorValid | microMouseServer/microMouseServer/studentai.cpp:99-126 | The corridor branch keeps the state invariant. |
| ExplorationLemmas.ExploreStepValid | microMouseServer/microMouseServer/studentai.cpp:69-279 | Every EXPLORING tick keeps the state invariant and only grows the graph. |
| ExplorationLemmas.DepartTracksRobot | microMouseServer/microMouseServer/studentai.cpp:262-269 | Leaving a fork leaves the recorded pose equal to the robot's. |
| ExplorationLemmas.CompleteTracksRobot | microMouseServer/microMouseServer/studentai.cpp:239-245 | The final turn to north leaves the recorded pose equal to the robot's. |
| ExplorationLemmas.CorridorTracksRobot | microMouseServer/microMouseServer/studentai.cpp:99-126 | Every corridor case books its turn correctly: the recorded pose equals the robot's. |
| ExplorationLemmas.LeaveTopTracksRobot | microMouseServer/microMouseServer/studentai.cpp:208-269 | Departing, backtracking or completing leaves the recorded pose equal to the robot's. |
| ExplorationLemmas.ExploreStepTracksRobot | microMouseServer/microMouseServer/studentai.cpp:69-279 | After every EXPLORING tick the recorded pose is where the requested actions leave the robot. |
| Planner.RemoveFirst | microMouseServer/microMouseServer/studentai.cpp:310-317 | Erasing the current node removes exactly one occurrence when it is present and keeps every other entry. On a duplicate-free list the node is then gone. |
| Planner.RemoveFirstErases | microMouseServer/microMouseServer/studentai.cpp:310-317 | The erased entry is the first occurrence of the node, and the other entries keep their order: the result is the list before that position followed by the list after it. |
| Planner.RemoveFirstKeepsOrder | microMouseServer/microMouseServer/studentai.cpp:310-317 | A list in discovery order (increasing node numbers) stays in discovery order after the erase. |
| Planner.SelectMin | microMouseServer/microMouseServer/studentai.cpp:318-325 | The selected unvisited node has the least distance. Every entry before it is strictly larger, so ties go to the earliest entry. On a list in discovery order, every other node of equal distance was discovered later. |
| Planner.RelaxEdgeLabelled | microMouseServer/microMouseServer/studentai.cpp:290-306 | A relaxation keeps every finite label the weight of a real walk from the start node, with `path` that walk's fork headings. |
| Planner.Relax | microMouseServer/microMouseServer/studentai.cpp:288-308 | After the loop over the current node's edges, labels are still sound and never increase. Every changed label is strictly lower and no lower than the current node's. Every edge of the current node is relaxed. |
| Planner.LeaveVisited | microMouseServer/microMouseServer/studentai.cpp:309-325 | Any walk from a visited node out of the visited set meets an unvisited node labelled no worse than the start label plus the walk's weight. |
| Planner.GoalOptimal | microMouseServer/microMouseServer/studentai.cpp:286-326 | When the goal is selected, no walk to it is shorter than its label. |
| Planner.ShortestPaths | microMouseServer/microMouseServer/studentai.cpp:280-329 | The loop stops at the goal node. Its distance is finite and is the least weight of any walk from the start. Its path is the fork headings of such a walk. All labels are sound and edges and topology are unchanged. |
| Runner.RunCorridorAsWritten | microMouseServer/microMouseServer/studentai.cpp:346-365 | The run corridor as written: an open left is a left turn booked as one; a forward wall with the right open is a right turn booked as a left turn; every other case, an open way ahead included, turns around and is booked as a half turn. Only the pose changes. |
| Runner.AsWrittenTracksExceptRightTurn | microMouseServer/microMouseServer/studentai.cpp:346-365 | The run corridor as written keeps the recorded pose equal to the robot's exactly when the input is not the right-turn case. |
| Runner.AsWrittenRightTurnDesyncs | microMouseServer/microMouseServer/studentai.cpp:353-357 | As written, walls left and ahead with the right open leave the recorded heading a half turn from the robot's real heading. |
| Runner.AsWrittenTurnsBackInStraightCorridor | microMouseServer/microMouseServer/studentai.cpp:358-363 | As written, walls left and right with the way ahead open turn the mouse around, where exploration went straight. |
| Runner.RunCorridor | microMouseServer/microMouseServer/studentai.cpp:346-365 | The corrected run corridor changes only the pose and ends with one forward move. |
| Runner.RunCorridorTracksRobot | microMouseServer/microMouseServer/studentai.cpp:346-365 | The corrected run corridor keeps the recorded pose equal to the robot's. |
| Runner.RunCorridorFollowsExploration | microMouseServer/microMouseServer/studentai.cpp:99-126 | The corrected run corridor requests the same actions and reaches the same pose as exploration's corridor step. |
| Runner.ReplayFork | microMouseServer/microMouseServer/studentai.cpp:366-375 | At a fork the mouse turns right until it faces `path[forkNum]`, moves forward and counts the fork. |
| Runner.ReplayForkTracksRobot | microMouseServer/microMouseServer/studentai.cpp:366-375 | A fork step keeps the recorded pose equal to the robot's. |
| Runner.RunStep | microMouseServer/microMouseServer/studentai.cpp:346-381 | The run tick as written counts a fork exactly at forks, where it takes the planned heading. The phase becomes END exactly when the count reaches the path's length. Graph and goal are untouched. |
| Runner.RunStepDesyncs | microMouseServer/microMouseServer/studentai.cpp:353-357 | The run tick as written, in a corridor with walls left and ahead and the right open, leaves the recorded pose different from the robot's. |
| Runner.RunStepIntended | microMouseServer/microMouseServer/studentai.cpp:346-381 | The corrected run tick has the same fork counting, heading, END and frame facts as the one as written while path entries are left. A fork tick with the path used up ends the run at once, with no action and nothing else changed. |
| Runner.RunStepsAgree | microMouseServer/microMouseServer/studentai.cpp:346-381 | At a fork the corrected tick is the tick as written. In a corridor the two differ only in the pose. |
| Runner.RunStepIntendedTracksRobot | microMouseServer/microMouseServer/studentai.cpp:346-381 | The corrected run tick keeps the recorded pose equal to the robot's, including the tick that ends the run on a used-up path. |
| Runner.ReplayConsumesPath | microMouseServer/microMouseServer/studentai.cpp:366-380 | Over any sequence of run ticks, as written or corrected, the headings taken at forks are the planned path's entries from the starting fork count to the final one, in order. END is reached only with the whole path consumed. |
| Controller.PlanValid | microMouseServer/microMouseServer/studentai.cpp:280-329 | Planning keeps the state invariant. The run's destination lookup finds the node the planner labelled as the goal. |
| Controller.RunValid | microMouseServer/microMouseServer/studentai.cpp:330-381 | A corrected run tick keeps the state invariant on every input. |
| Controller.RingMazeExplores | microMouseServer/microMouseServer/studentai.cpp:77-279 | In the closed 2×2 ring at the start, exploration leaves north and takes three right-turn corridor steps back to the start node. It records the start cell as the goal and moves to planning with the start node as the only node. |
| Controller.RingMazeReachesEmptyPath | microMouseServer/microMouseServer/studentai.cpp:280-381 | After planning in that maze the controller is in the run phase on the start cell with a valid state and an empty path. Every run tick there is a fork tick with no entry left, so the source's `path.at(forkNum)` reads past the end. |
| Controller.RingMazeRunEnds | microMouseServer/microMouseServer/studentai.cpp:366-385 | With the end-of-path check before the read, the first run tick in that maze ends the run with no action, and the next tick signals the host. |
| Controller.Tick | microMouseServer/microMouseServer/studentai.cpp:46-386 | Every tick keeps the state invariant. The recorded pose is where the requested actions leave the robot. Phases only move forward. Exploration only grows the graph. Planning moves to the run with the goal's shortest distance and a matching path. A run tick, as corrected, ends exactly when the path is consumed, and a fork tick on a used-up path ends the run with no action. It needs nothing beyond the invariant. In END the state does not change and the only action is `foundFinish`. |

## Left out

- The simulator's sensors, turns, moves and `foundFinish()` are inputs
  (`Walls`, `moved`) and outputs (the `Action` list). They are not calls
  into foreign code.
- `printUI` messages are left out because they do not affect the state.
- Heap allocation, pointers and the never-freed nodes and edges are left
  out; the arena indices replace them.
- Integer width: coordinates, distances and counters are unbounded. The
  `INT_MAX` sentinel is `Inf`. The planner only adds to labels of selected
  nodes, and those are always finite in a connected graph, so the source's
  `INT_MAX + distance` overflow cannot arise and is not modelled.
- The run phase's `firstRun` flag is never cleared in the source, so the
  destination lookup repeats on every tick. The model does the lookup
  every time through `Mouse.Destination`, which gives the same node.
- `path.at(forkNum)` throws `std::out_of_range` past the end of the path.
  The exception itself is not modelled: `Runner.RunStep` and
  `Runner.ReplayFork`, which model the source as written, require an entry
  to be left on a fork tick. That case is reachable from the initial state
  (see Findings and `Controller.RingMazeReachesEmptyPath`), so the source's
  run phase is not covered there; `Runner.RunStepIntended` and
  `Controller.Tick` handle it by ending the run.
- `unvisitedNodes.front()` on an empty list cannot happen, because the
  goal is a node and stays unvisited until selected. It is therefore not
  modelled.
- Termination of exploration over a whole maze is not proved, because the
  physical maze is not part of the model.
- Controller.Tick: the run phase uses the corrected
  `Runner.RunStepIntended`, not the tick as written (see Findings), so its
  pose-tracking promise does not hold for the source's run phase.
  `Runner.RunStep` models the source's lines, and `Runner.RunStepDesyncs`
  shows where they lose track.
- Runner.RunStepIntended: models the run tick with the corrected corridor
  and the end-of-path check before the read, not the source's lines.
  `Runner.RunStep` is the tick as written.
- The closure branch (lines 271-277) does not set the "just created"
  exemption, so, unless the exemption is already set, the next tick marks
  the departure heading of the previous fork on the found node as well.
  The exemption can already be set when a backtrack's forward move was
  refused: the mouse is still at the popped node, the next fork tick closes
  a loop back to it with the flag unchanged, and the tick after marks only
  the arrival exit. This is modelled as written.
- Exploration.LeaveTop: its own contract states only that the graph and
  goal are untouched. Its three cases are stated by
  `ExplorationLemmas.StackTopLeaves`, and its moves by
  `ExplorationLemmas.LeaveTopTracksRobot`,
  `ExplorationLemmas.BacktrackHeading` and
  `ExplorationLemmas.StackTopValid`.
- Runner.RunCorridor: its own contract states only the shape of its
  result. Its meaning is stated by `Runner.RunCorridorTracksRobot` and
  `Runner.RunCorridorFollowsExploration`.

## Findings

| source | as written | input that shows it | evidently intended | confidence | as-written member | corrected member |
|---|---|---|---|---|---|---|
| microMouseServer/microMouseServer/studentai.cpp:353-357 | after `turnRight()` in the run corridor the heading is updated with `(direction + 3) % 4`, a left turn | run phase, away from (0,0), walls left and forward, right open | `(direction + 1) % 4`, as in exploration's corridor | high; not executed | Runner.RunStepDesyncs | Runner.RunStepIntendedTracksRobot |
| microMouseServer/microMouseServer/studentai.cpp:353-363 | the run corridor has no "forward open" case, so walls left and right with the way ahead open fall to the turn-around branch | run phase, away from (0,0), walls left and right, forward open | go straight on, as in exploration's corridor | high; not executed | Runner.AsWrittenTurnsBackInStraightCorridor | Runner.RunCorridorFollowsExploration |
| microMouseServer/microMouseServer/studentai.cpp:366-380 | a fork tick reads `destination->path.at(forkNum)` before the check `forkNum == destination->path.size()`, so a run whose path is empty throws `std::out_of_range` on its first fork tick | the closed 2×2 ring at the start: (0,0) walled west and south, (0,1) walled west and north, (1,1) walled north and east, (1,0) walled east and south; three right turns record (0,0) as the goal, planning gives it an empty path, and the first run tick on (0,0) is a fork tick | check `forkNum == path.size()` before reading, so the run ends at once | high; not executed | Controller.RingMazeReachesEmptyPath | Controller.RingMazeRunEnds |
