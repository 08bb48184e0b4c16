# The onboard computer, proved

The onboard computer of a competition drone plans a flight path with a rewired search tree, flies the
mission as a machine of ticks, looks for targets with a pool of vision workers, and receives images over
UDP. This project models the parts of it where one wrong step goes unnoticed for a long time, and proves
what they are meant to guarantee.

`dafny verify dfyconfig.toml` verifies everything.

## How it is organised

| file | models |
|---|---|
| `Basics.dfy` | options, bytes, maximum and minimum |
| `Environment.dfy` | points and polygons, ray casting, the strided check of a path |
| `Segments.dfy` | segment intersection by truncated orientations |
| `Hover.dfy` | the hover pattern over a rectangular drop zone |
| `Forest.dfy` | rooted trees as values: ancestors, moving a subtree, adding a leaf, chains |
| `StarPass.dfy` | a whole RRT\* pass as a value: which nodes move, what that does to costs and lists |
| `DepthFirst.dfy` | the explicit-stack search for a node |
| `Sorting.dfy` | sorting by a key, ties broken either way |
| `RrtTree.dfy` | `RRTNode` and `RRTTree` as heap objects, rewired in place |
| `Rrt.dfy` | the planner: samples, goals, the flight path |
| `Ticks.dfy` | the mission: all ticks, the shared state, every sequence of events |
| `Aggregator.dfy` | the vision workers and their overflow queue, step by step, and as an object |
| `PacketQueue.dfy` | the ring buffer of the mock sockets, as an object and under interleaving |
| `Nms.dfy` | overlap of boxes and non-maximum suppression |
| `Base64.dfy` | the base64 codec against section 4 of RFC 4648 |
| `RecvBody.dfy` | putting an image together from datagrams in any order |

Code that changes objects or buffers step by step is a class or a method over arrays here as well; each
such method is proved against a function of the old state, and the lemmas are about those functions.
Concurrent code is a machine whose steps are single critical sections; statements about it are about every
sequence of steps.

## What the proofs found

* A rewiring pass can never close a cycle, although `rewireEdge` does not look for one. A node is only
  rewired when that lowers its cost, ancestors are never dearer than descendants, so no node above the
  sample qualifies (`StarPasses.Pass.BetterIsNotAboveSample`). The finished pass is described exactly:
  the nodes selected on the tree as it was before the pass hang under the sample, in the order of the
  walk, and nothing else changed but the costs below them, each of which really dropped. None of the
  nodes it looked at could gain from the sample any more.
* Nothing that is flown is ever rewired: the flight path stays the track of the tree's own edges from root
  to head, through all goals, although the tree keeps changing around them.
* A run of the planner is described completely, up to the random samples: what each sample adds and rewires,
  each attempt to connect a goal, and when another round is made (`Rrts.RRT.Run`).
* `isPathInBounds` skips every fifth point on either side of the centre. It sees every stretch of two points out of
  bounds, and a single one exactly when it is not among those skipped.
* `intersect` cuts its products down to integers. It is right whenever no product lies strictly between
  -1 and 1 without being zero, hence for whole coordinates; with fractions it can report an intersection that
  is not there and miss one that is. `Segments.IntersectRightExactly` says exactly when it is right.
* The hover pattern covers a rectangular zone exactly when the enlarged zone still holds the last column
  and the last row of the grid, and that is so whenever the camera sees at most a fifth of each side.
* A vision worker that has found the queue empty still counts as active, so an image can be queued that no
  worker will take. The one step that strands an image is characterised, with a run that shows it.
* Checking for room and pushing are two critical sections of the packet queue's senders. With one sender
  the queue is first in, first out for ever. With two, both can see the last free slot, and the packet that
  was pushed first is then overwritten by the one pushed last. What the consumer gets is right on exactly
  those runs in which no push overwrites a different packet.
* No tick of the mission is entered without its reason: neither takeoff unless the operator's last decision was
  for it, no upload of a path that was not accepted, no airdrop before the targets were validated.
* With a receive buffer of one chunk, the size the UDP server announces, an image of several chunks is never
  put together.

## Model

| member | source | states |
|---|---|---|
| `RayCast.IsPointInPolygon` | src/pathing/environment.cpp:151-165 | the loop over index and flag computes the parity of ray crossings |
| `RayCast.CrossesExactly` | src/pathing/environment.cpp:156-158 | an edge is crossed exactly when one end is above the point, the other is not, and the ray to the right meets the edge |
| `RayCast.TriangleInside` | src/pathing/environment.cpp:151-165 | whatever lies within a triangle is inside it, whatever lies off it is outside |
| `RayCast.Weights` | src/pathing/environment.cpp:151-165 | and every point of the plane is a weighted mean of the corners, as that asks |
| `RayCast.CrossesSymmetric` | src/pathing/environment.cpp:156-158 | an edge is crossed or not whichever end it is listed from |
| `RayCast.RotationInvariant` | src/pathing/environment.cpp:151-165 | membership does not depend on the vertex the list starts with |
| `RayCast.ReversalInvariant` | src/pathing/environment.cpp:151-165 | nor on the direction in which vertices are listed |
| `RayCast.ChordCut` | src/pathing/environment.cpp:151-165 | cut along any chord, a point is inside the whole exactly when it is inside one part and not the other |
| `Environments.Environment.IsPointInBounds` | src/pathing/environment.cpp:24-36 | true exactly for points inside the region and outside every obstacle |
| `Environments.Environment.ObstacleAdded` | src/pathing/environment.cpp:24-36 | an obstacle more takes away exactly what is in it |
| `Environments.Environment.IsPathInBounds` | src/pathing/environment.cpp:38-77 | the centre-outward strided loops terminate and answer true exactly when the centre point and all points whose distance from it is no multiple of five are in bounds |
| `Environments.Environment.SteppedOver` | src/pathing/environment.cpp:38-77 | the points not looked at are exactly those five, ten, fifteen, ... away from the centre on either side |
| `Environments.Environment.ConsecutiveSeen` | src/pathing/environment.cpp:38-77 | two consecutive points out of bounds are always caught |
| `Environments.Environment.LonePointSeen` | src/pathing/environment.cpp:38-77 | a single point out of bounds is caught exactly when it is one of those looked at |
| `Points.DistancePythagoras` | src/utilities/datatypes.cpp:51-59 | along an axis the squared distance is the square of the shift, and shifts along different axes add up |
| `Segments.OrientationIsSign` | src/pathing/environment.cpp:206-210 | the truncated orientation is the sign of the product exactly when the product is zero or at least one in magnitude |
| `Segments.SignsDecideRightly` | src/pathing/environment.cpp:213-238 | decided by signs alone, the answer is right for any two closed segments: they share a point or they do not |
| `Segments.MissedExactly` | src/pathing/environment.cpp:206-238 | for any two segments: a shared point is missed exactly when they cross properly, both products of one of them are cut to zero, and no end whose product is cut lies in the other's box |
| `Segments.MadeUpExactly` | src/pathing/environment.cpp:206-238 | a shared point is made up exactly when they do not cross properly, but seem to once products are cut, or an end off the other's line is cut onto it within its box |
| `Segments.IntersectRightExactly` | src/pathing/environment.cpp:206-238 | so the answer of `intersect` is right exactly under a condition on the four products and the boxes |
| `Segments.IntersectIsExact` | src/pathing/environment.cpp:206-238 | so `intersect` is right when no product is cut down |
| `Segments.IntersectOfWhole` | src/pathing/environment.cpp:194-238 | for whole coordinates `intersect` is true exactly when the closed segments share a point, collinear, touching and single-point ones included |
| `Segments.FractionsCanBeWrong` | src/pathing/environment.cpp:207 | two parallel segments a quarter apart for which `intersect` is true |
| `Segments.FractionsCanBeMissed` | src/pathing/environment.cpp:207 | two crossing segments for which it is false |
| `Segments.DoesLineIntersectPolygon` | src/pathing/environment.cpp:181-190 | true exactly when `intersect` holds for some edge, the closing one included |
| `Segments.EdgesDecided` | src/pathing/environment.cpp:181-190 | when each edge is decided rightly, that is exactly meeting the boundary |
| `Segments.WholeEdges` | src/pathing/environment.cpp:181-190 | for whole coordinates each edge is |
| `Segments.IsLineInBounds` | src/pathing/environment.cpp:167-179 | true exactly when the line hits no edge of the region and none of any obstacle |
| `Hover.CalculateCenter` | src/pathing/static.cpp:429-438 | the mean of the corners; without corners there is none |
| `Hover.CenterBalances` | src/pathing/static.cpp:429-438 | seen from the centre the corners balance on both axes |
| `Hover.ScalePolygon` | src/pathing/static.cpp:441-462 | in place, each corner moves away from the centre by the factor and keeps its altitude |
| `Hover.ScaledAway` | src/pathing/static.cpp:441-462 | for any polygon each corner's distance from the centre grows by the factor on both axes |
| `Hover.Run` | src/pathing/static.cpp:464-509 | anything but four corners is fatal; otherwise the loops give the filtered serpentine grid, or nothing when there is no first row |
| `Hover.GridSpans` | src/pathing/static.cpp:473-487 | for any four corners the grid starts half the vision inside the outermost left and upper corner and stops half the vision past the outermost right and lower one |
| `Hover.HoverPointsExactly` | src/pathing/static.cpp:489-509 | for any four corners the hover points are exactly the grid points within the enlarged zone, at the configured altitude |
| `Hover.RowsEnd` | src/pathing/static.cpp:492-506 | the loop over the rows ends exactly when the vision is positive or there is no first row |
| `Hover.InsideRectangle` | src/pathing/environment.cpp:151-165 | of a rectangle the left and lower borders count in, the right and upper ones out |
| `Hover.ScaledRectangle` | src/pathing/static.cpp:441-462 | the filter reaches exactly a tenth of each side past the zone |
| `Hover.NothingFiltered` | src/pathing/static.cpp:489-500 | the filter removes no grid point exactly when the last column and the last row lie within it |
| `Hover.FineVisionKeepsAll` | src/pathing/static.cpp:479-500 | and they do when the camera sees at most a fifth of each side |
| `Hover.ZoneCovered` | src/pathing/static.cpp:493-506 | then every point of the zone is within half the vision of some hover point on both axes |
| `Hover.CoveredExactly` | src/pathing/static.cpp:479-506 | a rectangular zone is covered exactly when the filter keeps the last column and row |
| `Hover.KeptPart` | src/pathing/static.cpp:492-500 | of a rectangle's grid the filter cuts off at most the last column and the last row |
| `Hover.OneStepAtATime` | src/pathing/static.cpp:492-506 | for every rectangle, consecutive hover points differ by exactly the vision along exactly one axis, whatever was filtered |
| `Forests.ReparentedRooted` | src/pathing/tree.cpp:133-147 | moving a node below one that is not its own descendant leaves a rooted tree: one parent each, listed once, no cycle |
| `Forests.DepthBound` | src/pathing/tree.cpp:470-473 | depth is less than the number of nodes, the measure by which walks terminate |
| `Forests.DescentIsChain` | src/pathing/tree.cpp:351-395 | a descending path is the only chain between its ends |
| `StarPasses.AncestorIsCheaper` | src/pathing/tree.cpp:448-454 | with non-negative edges, no ancestor costs more than its descendant |
| `StarPasses.ChainCost` | src/pathing/tree.cpp:351-407 | edge lengths along a chain add up to the difference of the costs of its ends |
| `StarPasses.Pass.BetterIsNotAboveSample` | src/pathing/tree.cpp:448-466 | a node worth rewiring is never an ancestor of the sample, nor the sample |
| `StarPasses.Pass.CostAfter` | src/pathing/tree.cpp:133-147 | at every moment of a pass no cost has risen, and a node's cost has dropped exactly when it or a node above it was rewired |
| `StarPasses.Pass.SampleSettled` | src/pathing/tree.cpp:415-474 | the sample is never moved and keeps its cost |
| `StarPasses.Pass.HeadSetKept` | src/pathing/tree.cpp:415-474 | the nodes below the current head stay the same set |
| `StarPasses.Pass.HeadWayKept` | src/pathing/tree.cpp:415-474 | and what is flown from any node above down to the head stays the same, point by point |
| `StarPasses.Pass.ShareTotal` | src/pathing/tree.cpp:470-473 | what a visit has to rewire divides into its own children and the shares of the children that stay |
| `StarPasses.Pass.ExaminedExactly` | src/pathing/tree.cpp:423-473 | the nodes compared with a route through the sample are all below the head except those below a node that could be improved, those under siblings of the sample, and those listed behind it |
| `StarPasses.Pass.OneOutcome` | src/pathing/tree.cpp:415-474 | a finished pass, the moved nodes following in the order of the walk, has one outcome: lists, parents, depths, edges and costs |
| `RrtTrees.RRTNode.AddReachable` | src/pathing/tree.cpp:34-36 | appends one child |
| `RrtTrees.RRTNode.RemoveReachable` | src/pathing/tree.cpp:38-45 | removes the first occurrence and nothing else |
| `RrtTrees.RemovedFirstOnly` | src/pathing/tree.cpp:38-45 | in a list without duplicates that is all of it |
| `RrtTrees.BestRouteIsShortest` | src/pathing/tree.cpp:437-466 | the option the scan takes is the shortest one that is cheaper and stays in bounds, and none is taken only if none exists |
| `RrtTrees.ReassignCostsRecursive` | src/pathing/tree.cpp:486-498 | below the node every cost becomes the parent's cost plus the edge, and no other cost changes |
| `RrtTrees.ReassignCosts` | src/pathing/tree.cpp:476-484 | the same for all subtrees of a changed node |
| `RrtTrees.RRTTree.RewireEdge` | src/pathing/tree.cpp:133-147 | moves a subtree anywhere but below itself, sets its edge and restores consistent costs below it; everything else is unchanged |
| `RrtTrees.RRTTree.RerouteChild` | src/pathing/tree.cpp:437-467 | a child is rewired at most once, along its best route, if it has one, and then comes last in the sample's list |
| `RrtTrees.RRTTree.RewireChildren` | src/pathing/tree.cpp:423-468 | children before the sample are dealt with in order, and are appended to its list in that order; meeting the sample ends the visit |
| `RrtTrees.RRTTree.RRTStarRecursive` | src/pathing/tree.cpp:415-474 | the walk terminates while it rewires; one visit moves exactly the selected nodes below it, in the prescribed order |
| `RrtTrees.RRTTree.NothingLeftToGain` | src/pathing/tree.cpp:423-468 | after a pass no node it examined within reach could still be made cheaper through the sample by an option that stays in bounds |
| `RrtTrees.RRTTree.PassIsSound` | src/pathing/tree.cpp:415-468 | the routes offered at the start describe a sound pass |
| `RrtTrees.RRTTree.RRTStar` | src/pathing/tree.cpp:326-329 | a pass keeps the tree well formed, ends in exactly the prescribed tree, order included, leaves no examined node a shortcut, raises no cost, and leaves the way to the head and the costs of root, head and sample as they were |
| `RrtTrees.RRTTree.constructor` | src/pathing/tree.cpp:74-80 | a new tree is well formed and has the root alone |
| `RrtTrees.RRTTree.GenerateNode` | src/pathing/tree.cpp:90-108 | a node at the end of a curve if the curve passes the path check, nothing otherwise |
| `RrtTrees.RRTTree.AddNode` | src/pathing/tree.cpp:110-118 | refuses missing nodes; otherwise adds one leaf, keeps every other node and the way to the head as they were and the counted size right |
| `RrtTrees.RRTTree.AddSample` | src/pathing/tree.cpp:121-131 | grows the tree exactly when the curve stays in bounds |
| `RrtTrees.RRTTree.SetCurrentHead` | src/pathing/tree.cpp:331-340 | changes nothing but head and counted size, and that size is the number of nodes under the new head exactly if it is a leaf |
| `DepthFirst.Push` | src/pathing/tree.cpp:380-385 | going down keeps the stack a path whose left side is done |
| `DepthFirst.Pop` | src/pathing/tree.cpp:386-390 | so does backtracking |
| `DepthFirst.NothingLeft` | src/pathing/tree.cpp:364-394 | an empty stack means the target is not below the head |
| `RrtTrees.RRTTree.FindPathToNode` | src/pathing/tree.cpp:351-395 | the search terminates for any target and returns exactly the chain from the head, excluded, down to it, or nothing if it is not there |
| `RrtTrees.RRTTree.BuildPathFromNodes` | src/pathing/tree.cpp:397-407 | the edges' paths one after the other, each without its first point |
| `RrtTrees.RRTTree.GetPathSegment` | src/pathing/tree.cpp:342-349 | what is flown from the head down to a node; nothing for the head itself or a node not under it |
| `RrtTrees.RRTTree.WayLands` | src/pathing/tree.cpp:397-407 | flown from one node, the way to another ends over it, altitude aside |
| `RrtTrees.RRTTree.FillOptions` | src/pathing/tree.cpp:298-324 | every finite option of every node under the given one, as often as it is offered, and no other |
| `RrtTrees.RRTTree.FillOptionsNodes` | src/pathing/tree.cpp:216-231 | the same for a list of nodes |
| `RrtTrees.RRTTree.GetKClosestNodes` | src/pathing/tree.cpp:176-197 | k different nodes under the head, or all of them, and none of the others is nearer |
| `RrtTrees.RRTTree.GetKRandomNodesRecursive` | src/pathing/tree.cpp:158-174 | only nodes under the given one, none twice, whatever the coin tosses |
| `RrtTrees.RRTTree.PathingOptions` | src/pathing/tree.cpp:253-296 | finite options of the nodes asked, sorted by total cost; an occurrence of one is left out only if the list is full and none in it is dearer |
| `Rrts.RRT.constructor` | src/pathing/static.cpp:36-47 | a new planner has flown nothing, and has the default headings unless it is given some |
| `Rrts.RRT.ParseOptions` | src/pathing/static.cpp:274-300 | exactly the first option whose curve stays in bounds becomes a leaf; nothing changes if there is none |
| `Rrts.RRT.OptimizeTree` | src/pathing/static.cpp:302 | one pass through the new node, with the prescribed outcome and no shortcut left, over a valid tree leaves a valid tree with the same nodes and the same way to the head |
| `Rrts.RRT.SampleOnce` | src/pathing/static.cpp:93-107 | a sample adds the first option considered that stays in bounds, if any, and if so configured the tree then is the finished pass through the new node; otherwise it is left as it was |
| `Rrts.RRT.GetOptionsToGoal` | src/pathing/static.cpp:169-210 | each heading contributes the cheapest options it has, as many as there is room for; together they are sorted by total cost |
| `Rrts.RRT.SampleToGoal` | src/pathing/static.cpp:212-231 | the first of these that stays in bounds; nothing if none does |
| `Rrts.RRT.AddNodeToTree` | src/pathing/static.cpp:245-272 | the goal node becomes a leaf of the tree and its head; the flight path is extended by exactly the chain of edges to it, climbing evenly from the last goal's altitude, and ends over the goal; what was flown adds up to the goal's cost |
| `Rrts.ClimbsEvenly` | src/pathing/static.cpp:251-268 | a leg starts at the altitude of the goal before it, all its steps are the same, and the next one would be at the new goal's altitude |
| `Rrts.RRT.FlightChecked` | src/pathing/static.cpp:251-270 | at any time, every point of the flight path is a later point of the edge into some node between root and head, as the tree is now, and that edge passed the path check |
| `Rrts.RRT.ConnectToGoal` | src/pathing/static.cpp:233-243 | the tree gets exactly the leaf that the first choice in bounds prescribes and the planner moves there, or nothing changes because no choice stays in bounds |
| `Rrts.RRT.OnlyCrowdedOut` | src/pathing/static.cpp:169-243 | a usable option cheaper than the one taken, or any if the attempt failed, was crowded out: its heading had as many options as there was room for, none dearer, all of them out of bounds |
| `Rrts.RRT.TryToConnect` | src/pathing/static.cpp:112-126 | a second attempt, with all options there are, is made exactly if the first failed and goals must not be skipped; the goal is left unconnected only if what was tried failed |
| `Rrts.RRT.RRTIteration` | src/pathing/static.cpp:78-127 | a round is max(0, tries) such samples and then the attempts; another round follows exactly if they failed although the goal must not be skipped; the tree in the end, the goals connected and both answers are those of the last round; no node's cost rises |
| `Rrts.RRT.ReachGoal` | src/pathing/static.cpp:61-70 | an attempt straight away, and rounds only if it failed |
| `Rrts.RRT.Run` | src/pathing/static.cpp:49-71 | one such turn for each goal, in order, makes the tree, its head and the goals connected, all of them unless they may be skipped; the flight path passes over each in turn, climbs evenly on each leg, follows the tree's edges from root to head, and each of those was checked; no node's cost ever rises |
| `Ticks.AwaitPath` | src/ticks/fly_waypoints.cpp:85-102 | the countdown loop succeeds exactly when the path is ready before its last poll |
| `Ticks.EveryRunOnCourse` | src/core/mission_state.cpp:38-65 | the mission's invariant holds after every sequence of ticks and decisions, and the mission never goes back a phase |
| `Ticks.LapsAreSpent` | src/ticks/fly_waypoints.cpp:20-114 | laps left plus flights over the waypoints are the configured laps; once the search begins there were max(1, laps) flights and there is never another one, nor a preparation tick |
| `Ticks.AirdropsAreSelectedOnce` | src/ticks/airdrop_prep.cpp:20-88 | airdrops are selected in order, each once, only after the targets were validated; AirdropPrep is left at most twice; landing comes after both and is final |
| `Ticks.LinksAreThere` | src/ticks/path_validate.cpp:20-34 | the autopilot link and the aggregator exist whenever a tick uses them |
| `Ticks.UploadKeepsItsContinuation` | src/ticks/mav_upload.cpp:35-48 | however often an upload is retried, it leads where it led |
| `Ticks.EveryTickHasItsReason` | src/ticks/wait_for_takeoff.cpp:17-26 | on every run a tick is entered only from where, on what readings and by which last decision of the operator it may be: no takeoff but the one chosen, no upload with the geofence but of an accepted path, no airdrop unvalidated |
| `Ticks.LeftExactlyWhenOver` | src/core/mission_state.cpp:38-47 | and a tick is left exactly when what it waits for is there |
| `Ticks.TakeoffIsObeyed` | src/ticks/wait_for_takeoff.cpp:17-26 | a decision for the manual or the autonomous takeoff is followed by the very next tick |
| `Ticks.PathIsObeyed` | src/ticks/path_validate.cpp:20-34 | a refused path leads back to its generation, an accepted one to the upload with the geofence once the autopilot is there |
| `Ticks.TargetsAreObeyed` | src/ticks/cv_loiter.cpp:14-76 | validated targets lead to the airdrops, rejected ones back to the search |
| `Ticks.SearchIsStartedOnce` | src/ticks/fly_search.cpp:47-94 | the search is started on entering, again on each tick until that works, and never after |
| `Ticks.SharedStateChanges` | src/core/mission_state.cpp:38-47 | only FlySearch uses a validation up; aggregator and mapping change only in preparation and on landing |
| `Ticks.TriggeredWhenThere` | src/ticks/airdrop_approach.cpp:60-80 | on every run an airdrop is triggered exactly on reaching the final waypoint of its approach, and it is the one selected last |
| `Ticks.TriggeredInOrder` | src/ticks/airdrop_approach.cpp:60-80 | so the first airdrop is never triggered after the second |
| `Ticks.MissionState.DoTick` | src/core/mission_state.cpp:38-47 | the object's tick, branch by branch, is the step the runs are made of |
| `Ticks.MissionState.SetTick` | src/core/mission_state.cpp:55-65 | entering a tick runs its initialisation: a lap is spent, the search status is reset |
| `Ticks.MissionState.TickFlyWaypoints` | src/ticks/fly_waypoints.cpp:42-114 | next lap, search, or stay |
| `Ticks.MissionState.TickFlySearch` | src/ticks/fly_search.cpp:47-94 | consumes a validated status, otherwise starts or follows the search mission |
| `Ticks.MissionState.PickAirdrop` | src/ticks/airdrop_prep.cpp:20-60 | the loop finds the first airdrop not yet selected |
| `Ticks.MissionState.TickAirdropPrep` | src/ticks/airdrop_prep.cpp:20-88 | marks and hands out the next airdrop, or lands |
| `Ticks.MissionState.TickAirdropApproach` | src/ticks/airdrop_approach.cpp:60-91 | fires for the selected airdrop before it branches |
| `Aggregator.StepMovesImage` | src/cv/aggregator.cpp:55-162 | a step moves an image between places without losing or doubling it; only an accepted submission adds one |
| `Aggregator.SubmissionAccepted` | src/cv/aggregator.cpp:55-81 | a submission is accepted exactly if images are, and it has to wait or its thread was spawned; it is then last in the queue or with a new worker |
| `Aggregator.NoSubmissionIsLost` | src/cv/aggregator.cpp:55-162 | until terminated, and if threads can be spawned, every image ever submitted is accepted and in exactly one place, none discarded |
| `Aggregator.StepKeepsInv` | src/cv/aggregator.cpp:55-162 | images and run ids conserved, workers counted, queue in order, threads held: kept by each step |
| `Aggregator.EveryInterleaving` | src/cv/aggregator.cpp:55-162 | hence by every interleaving |
| `Aggregator.RunsAreDistinct` | src/cv/aggregator.cpp:114-133 | completed runs have different ids and images, and a completed image is nowhere else |
| `Aggregator.RunsOnlyGrow` | src/cv/aggregator.cpp:155-162 | popping loses no run |
| `Aggregator.AfterTerminate` | src/cv/aggregator.cpp:83-106 | once images are refused the queue stays empty and each worker completes at most the image it has |
| `Aggregator.JoinedMeansIdle` | src/cv/aggregator.cpp:101-105 | when the call that took the threads returns, no worker is active, and none ever is again |
| `Aggregator.StrandingStep` | src/cv/aggregator.cpp:63-71 | an image gets stranded exactly by a submission that queues it while every counted worker has already seen the queue empty |
| `Aggregator.AnImageCanBeStranded` | src/cv/aggregator.cpp:136-152 | a run in which that happens |
| `Aggregator.StrandedUntilSubmitOrTerminate` | src/cv/aggregator.cpp:135-152 | nothing but a later submission that spawns a worker, or terminate, changes it |
| `Aggregator.CVAggregator.RunPipeline` | src/cv/aggregator.cpp:55-81 | refuses, queues or spawns, as the step says |
| `Aggregator.CVAggregator.Poll` | src/cv/aggregator.cpp:136-143 | a worker takes the oldest waiting image or leaves its loop |
| `Aggregator.CVAggregator.TerminateEnter` | src/cv/aggregator.cpp:85-99 | drops the queue and hands over every thread |
| `Aggregator.CVAggregator.PopAllRuns` | src/cv/aggregator.cpp:155-162 | returns all results and leaves none |
| `PacketQueues.Ring.PushAppends` | src/network/mock/packet_queue.c:36-51 | a push appends to the contents, across the wrap, exactly unless it overwrites a different packet for lack of room |
| `PacketQueues.Ring.PopRemovesFirst` | src/network/mock/packet_queue.c:53-63 | popping a ring that is not empty removes the oldest packet |
| `PacketQueues.PacketQueue.Push` | src/network/mock/packet_queue.c:36-51 | room or not, the array and indices change as the ring says, and a waiting consumer is woken |
| `PacketQueues.PacketQueue.Pop` | src/network/mock/packet_queue.c:53-63 | returns the packet at the front |
| `PacketQueues.PacketQueue.Empty` | src/network/mock/packet_queue.c:22-27 | true exactly when there are no contents |
| `PacketQueues.PacketQueue.Full` | src/network/mock/packet_queue.c:29-34 | true exactly when there are MAX_PACKETS |
| `PacketQueues.StepSound` | src/network/mock/packet_queue.c:36-76 | no step loses a wake-up, and a step keeps first in, first out exactly if it does not overwrite a different packet |
| `PacketQueues.LostPacketShows` | src/network/mock/packet_queue.c:36-76 | overwriting a different packet shows: the consumer can go on to pop something else than was pushed; no other push does that |
| `PacketQueues.HonestExactlyWhenAllHarmless` | src/network/mock/packet_queue.c:36-76 | at every moment of a run the consumer can only get what was pushed, in order, exactly when no push in it overwrites a different packet |
| `PacketQueues.OneProducerAlwaysFits` | src/network/mock/airdrop_sockets.c:64-68 | with one sender, who looks and pushes in two steps, on every run from a fresh queue every push finds room, nothing else than what was pushed can be popped, and no wake-up is lost |
| `PacketQueues.TwoProducersLoseAPacket` | src/network/mock/airdrop_sockets.c:64-68 | with two senders there is a run in which the packet pushed first is never seen and the one pushed last is popped first |
| `Nms.IoUBounds` | src/cv/yolo.cpp:18-33 | for any two boxes, inverted ones included, the overlap is symmetric and between 0 and 1 |
| `Nms.OverlapOfUnion` | src/cv/yolo.cpp:18-33 | the overlap is the area of the common part of two boxes measured by the area of all that they cover |
| `Nms.OverlapOfContained` | src/cv/yolo.cpp:18-33 | a box within another overlaps it by the ratio of their areas |
| `Nms.AreaSplits` | src/cv/yolo.cpp:28-29 | a box cut in two has the area of both parts |
| `Nms.AreaMoves` | src/cv/yolo.cpp:28-29 | moving a box keeps its area, the unit square has area one, and only boxes with an interior have any |
| `Nms.IoUWithItself` | src/cv/yolo.cpp:31-32 | a box overlaps itself fully, or not at all if it has no area |
| `Nms.IoUPositive` | src/cv/yolo.cpp:18-33 | boxes overlap at all exactly when their interiors have a point in common |
| `Nms.IoUOne` | src/cv/yolo.cpp:18-33 | they overlap fully exactly when they are the same box, and it has an area |
| `Nms.SuppressClass` | src/cv/yolo.cpp:64-74 | the loops over the marks compute the greedy choice |
| `Nms.GreedyRepresents` | src/cv/yolo.cpp:58-74 | a box left out is represented by a kept one at least as good that overlaps it too much |
| `Nms.GroupByClass` | src/cv/yolo.cpp:50-56 | every class holds exactly its boxes, in order |
| `Nms.NmsPerClass` | src/cv/yolo.cpp:46-78 | the result is a sub-multiset, no two kept boxes of a class overlap too much, and every box left out is represented |
| `Nms.Idempotent` | src/cv/yolo.cpp:46-78 | suppressing again changes nothing up to order |
| `Nms.OneOutcome` | src/cv/yolo.cpp:46-78 | when confidences differ within each class, the promise has exactly one outcome, whatever the order of classes and sorting |
| `Base64.TableMatches` | src/utilities/base64.cpp:31-34 | the alphabet is the table of RFC 4648, section 4 |
| `Base64.SplitMasks` | src/utilities/base64.cpp:51-54 | the masks and shifts read the four sextets off the 24-bit group |
| `Base64.JoinMasks` | src/utilities/base64.cpp:95-97 | those of the decoder read its octets, whatever a failed find left in the unused places |
| `Base64.Encode` | src/utilities/base64.cpp:41-79 | the loop over refilled arrays computes the encoding of RFC 4648, section 4 |
| `Base64.Decode` | src/utilities/base64.cpp:81-120 | the loop decodes the digits before the first character that is none, tails included |
| `Base64.RoundTrip` | src/utilities/base64.cpp:41-120 | decoding an encoding gives the bytes back, for all byte sequences |
| `Base64.EncodingShape` | src/utilities/base64.cpp:41-79 | 4 * ceil(n / 3) characters, pads at the end only, one for each byte missing |
| `Base64.CanonicalRoundTrip` | src/utilities/base64.cpp:41-120 | encoding a decoded text gives the text back exactly when it is canonical |
| `RecvBodies.RecvBody` | src/network/udp_client.cpp:108-161 | the loop over buffer, flags and counter returns the reassembled buffer, or nothing after a failure |
| `RecvBodies.Receive` | src/network/udp_client.cpp:139-156 | one datagram is taken or ignored, and the counter stays the number of set flags |
| `RecvBodies.IndexComesBack` | src/network/udp_server.cpp:121-123 | the index written in network order is the index read |
| `RecvBodies.TakingGenuine` | src/network/udp_client.cpp:139-156 | after every genuine datagram written places agree with the image, and the rest of the stream delivers what is missing |
| `RecvBodies.GenuineInRange` | src/network/udp_client.cpp:153-156 | genuine datagrams never index past the flags |
| `RecvBodies.GenuineStream` | src/network/udp_client.cpp:108-161 | for any buffer size: put together exactly when every chunk fits and comes in time, and then it is the image, zero past the last chunk |
| `RecvBodies.ImageOrNothing` | src/network/udp_client.cpp:108-161 | with the image's own size and chunk count: the whole image or nothing, and the image exactly when all chunks come before the first failure |
| `RecvBodies.OneChunkIsNotEnough` | src/network/udp_server.cpp:92-93 | with a buffer of one chunk no image of several chunks ever arrives |

## Left out

- RRTIteration: carries a bound on how often it starts over, because with goals that must not be skipped the program repeats until its random samples succeed and may not end; the contract says what holds when the bound was not hit. Random samples are arbitrary points.
- GetKRandomNodesRecursive: which nodes are drawn, and how many, is left to arbitrary coin tosses; the probability is not modelled.
- JoinedMeansIdle: says that nothing runs after the call returned, not that the call returns, which depends on the pipeline ending.
- Hover.Run: asks that the loop over the rows ends; `Hover.RowsEnd` says when it does.
- RecvBody: asks that no accepted chunk index reaches past the announced count, where the program would write outside its flags; `GenuineInRange` shows that an image's own chunks never do.
- Receive: asks the same of the one datagram.
- RewireEdge: asks that the new parent is not below the node, where the program would close a cycle and not return.
- AddNode: asks that the new node is a fresh leaf with the cost and the checked path that `generateNode` gives it; the program would hang up any node.
- AddSample: asks that the option is one of those offered from the anchor to the point, as at its one call.
- BestRouteIsShortest: leaves open options listed behind one whose length is not a number, where the scan ends.
- Dubins curves are an oracle of which this much is assumed: options come sorted when asked for, infinite lengths last, finite lengths are non-negative, and a curve that is offered starts and ends where it should. Its trigonometry, the map projection and localisation are not part of this model.
- Floating point: distances, costs, coordinates, confidences and overlaps are exact reals. The conversion of an orientation to int is modelled, its overflow beyond 32 bits is not.
- `epochEvaluation` (src/pathing/static.cpp:129-165) changes nothing its caller can see and always returns false there, because its node pointers are passed by value, so the driver's loop goes on as if it were not called.
- Ticks read the autopilot, the operator's decisions, futures and polls as inputs; what photographs show, HTTP routes, MAVSDK and logging are not part of this model. The manual drop route and a relay fired on several ticks at the final waypoint are left open: an airdrop is selected once, which is not to say that its relay fires once.
- The aggregator's matched results and records, lock pointers handed to other threads, and the lifetime of raw tick pointers.
- The packet counter of the queue is unbounded here; the program's would wrap at the width of `size_t`.
- Several consumers on one packet queue, closing of sockets, and the semaphores' error returns.
- The UDP header and camera side, apart from the framing of a chunk and the two announced numbers.
- Forward coverage, area estimates, airdrop approach paths, image mapping, clustering, YOLO inference and letterboxing.
