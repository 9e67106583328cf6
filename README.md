# Autonomous parkour drone: checkpoint detection, storage and route building

This project models, in Dafny, the four Python modules of the drone
controller that decide what the drone remembers about a course. It also
proves properties of that model.

- **Passage-point filter** (`passage_point.dfy`, module `PassagePoint`).
  - It turns the stream of lidar-triggered gate samples into one canonical
    sample per gate.
  - A region is anchored at the planar position of the sample that opened
    it, and has a radius of 2.0 m.
  - A later sample inside the region replaces the region's best sample only
    when it is strictly better on both metrics: lidar imbalance `|l - r|`
    and attitude instability `|roll| + |pitch|`.
  - A sample outside the region opens a new one.
  - The filter is a class whose fields the method `AddPoint` updates.
- **Checkpoint store** (`checkpoint_manager.dfy`, module `CheckpointStore`).
  - It is a dictionary of checkpoint records with a counter that issues ids.
  - Inserting a node links it with a mirrored pair of edges to every older
    node within 3.0 m, inclusive.
  - Deleting a node strips every edge that points at it.
  - The class `CheckpointManager` holds:
    - the dictionary, as a `map`;
    - its insertion order, as a `seq`;
    - the counter.
  - Its linking and stripping loops are proved against the specification
    functions `Linked` and `Stripped`.
  - Lemmas about those functions prove three invariants:
    - edge symmetry;
    - issued ids are at most the counter;
    - "nothing else changes".
- **Route planner** (`pathfinding.dfy`, module `PathPlanning`).
  - Despite the name of its entry point, it performs no search.
  - It sorts the nodes by id and walks forward from the start index to the
    goal index.
  - On a turn ahead, it adds a synthetic waypoint beside some nodes,
    shifted 0.2 m sideways.
  - A separate pass chains the nodes in list order and stores on each node
    the turn type and the approach and exit headings.
  - Nodes are objects (`class CheckpointNode`), and the chaining pass
    updates their fields in place.
  - The walk is a loop, proved against the specification function `Steps`.
    `Steps` is a left fold of one block per index, the same order as the
    loop.
  - Lemmas prove the shape of `Steps`, its real nodes, its synthetic
    waypoints and their count.
- **Route recorder** (`route_recorder.dfy`, module `RouteRecording`).
  - While a lap is being recorded, it keeps throttled telemetry samples.
    A sample is kept when 0.1 s have passed, or the drone moved 0.05 m, or
    a checkpoint is active.
  - It joins every two consecutive kept samples by a segment.
  - It notes when each checkpoint was reached.
  - `RouteRecorder` is a class. Its invariant `Valid` states that segment
    k joins points k and k+1.
  - The model also covers the lap statistics and the dictionary form of a
    route point.

`common.dfy` (module `Common`) holds the shared value types and squared
distances.

**Maths library calls.** The model has no square roots or trigonometric functions.
`sqrt`, `atan2`, `cos` and `sin` are parameters: the store and the
recorder hold a `sqrt` function, and the planner takes a `Trig` value.

- The 2.0 m region radius and the 3.0 m edge radius are compared squared,
  which is exact over the reals: `d < 2.0` becomes `d² < 4.0` and
  `d ≤ 3.0` becomes `d² ≤ 9.0`.
- The recorder's 0.05 m movement threshold is compared as written, on the
  distance the `sqrt` parameter gives. `ShouldRecordIff` shows it equals
  `d² ≥ 0.0025` when `sqrt` is a genuine square root.
- Whenever a lemma relates a stored distance to its square, it assumes
  `IsSquareRoot(sqrt)`.

**Where the system's documentation and its code disagree, the model follows
the code:**

- New ids are `last_checkpoint_id + 1` from a counter that deletion never
  lowers (`checkpoint_manager.py:47,78`). They are not "largest live id + 1",
  so an id is never issued twice.
- The store does not suppress an insertion within 1.0 m of the previous
  checkpoint. That guard lives in the keyboard controller, which is not part
  of this model.
- The chaining pass links the nodes in the order of the list it is given,
  not in id order (`pathfinding.py:62-74`).
- The transition type wraps `abs(yaw - next_yaw)`, not the signed
  difference (`pathfinding.py:34`). A right turn therefore only comes out
  of a raw gap larger than pi (`TurnRightNeedsWrapAround`). The result is
  also symmetric in the two nodes (`TransitionIgnoresDirection`).
- The exit heading is the approach heading of the reversed pair
  (`pathfinding.py:53-54`). It points from the next node back to the
  current one, not onward to the node after (`ExitOpposesApproach`).
- The default potential field lists `lidar_left` and `lidar_right` twice
  (`pathfinding.py:18-27`). The later values, 0.0, are the ones that take
  effect, and `DefaultField` holds them.
- The recorder treats 0.0 as "lap start not yet set"
  (`route_recorder.py:87-88`). A lap whose first sample is at time 0.0
  therefore takes its start from the next sample. `LapStartAfter` models
  this as written.

## Model

| member | source | states |
|---|---|---|
| PassagePoint.PlanarOf | controllers/main_controller/passage_point.py:13 | A sample's planar position is its x and y; the height is dropped. |
| PassagePoint.SqPlanarDist | controllers/main_controller/passage_point.py:21-24 | The planar distance used for regions is non-negative and zero from a point to itself; the height plays no part. |
| PassagePoint.InRegion | controllers/main_controller/passage_point.py:21-26 | A sample is in the region exactly when its planar distance to the anchor is strictly below 2.0 m. It is compared squared, and the height plays no part. |
| PassagePoint.LidarImbalance | controllers/main_controller/passage_point.py:47-48 | The lidar imbalance `abs(left - right)` is non-negative. |
| PassagePoint.Instability | controllers/main_controller/passage_point.py:51-52 | The instability `abs(roll) + abs(pitch)` is non-negative. |
| PassagePoint.IsBetterPoint | controllers/main_controller/passage_point.py:42-54 | With no current best any sample is better. A sample is never better than itself (irreflexive). A better sample has strictly smaller lidar imbalance. |
| PassagePoint.BetterIsStrictOrder | controllers/main_controller/passage_point.py:42-54 | "Better" is asymmetric and transitive, so a chain of replacements never returns to an earlier best. |
| PassagePoint.SingleMetricNeverReplaces | controllers/main_controller/passage_point.py:54 | A sample that fails to improve either metric is never better, however much it improves the other. |
| PassagePoint.PassagePointFilter.constructor | controllers/main_controller/passage_point.py:4-9 | The filter starts with no anchor, no best sample, an empty region and region counter 0, in the "no region yet" state. |
| PassagePoint.PassagePointFilter.AddPoint | controllers/main_controller/passage_point.py:11-40 | Keeps the two-state invariant: the best sample is a member of the region and every member lies within 2.0 m of the anchor. The result is None or the input, and it is the input exactly when the best changed. The counter never decreases. First sample: its planar position becomes the anchor, it becomes best and sole member, the counter stays, and it is returned. In-region sample (squared planar distance < 4.0): it is appended, anchor and counter are kept, and it is returned and becomes best iff `IsBetterPoint`, else None with the best unchanged. Out-of-region sample: new anchor, sole member and best, counter + 1, and it is returned. |
| PassagePoint.ReAddingBestIsSilent | controllers/main_controller/passage_point.py:26-33 | Feeding the same sample twice to a fresh filter reports it once, then None. |
| CheckpointStore.NewEdge | controllers/main_controller/checkpoint_manager.py:101-115 | An edge the linking pass creates carries the target id and the distance, with difficulty 1.0, average speed 0.0 and best approach angle 0.0. |
| CheckpointStore.Near | controllers/main_controller/checkpoint_manager.py:93-100 | Two positions are linked when their distance is at most 3.0 m, inclusive, compared squared. |
| CheckpointStore.NewPassageRecord | controllers/main_controller/checkpoint_manager.py:57-74 | The history entry copies side, both lidar ranges and velocity from the sample; an explicit orientation overrides the sample's. |
| CheckpointStore.NewCheckpoint | controllers/main_controller/checkpoint_manager.py:49-75 | A new record has the given id and position, no connections and exactly the one history entry. |
| CheckpointStore.NewNodeEdges | controllers/main_controller/checkpoint_manager.py:90-107 | The edges the new node receives while the pass visits keys in order: one per stored other node within 3.0 m, at the square-root distance, in visit order. |
| CheckpointStore.WithMirrorEdge | controllers/main_controller/checkpoint_manager.py:109-115 | A visited older node gains one edge to the new node, at the same distance, when it is within 3.0 m; otherwise it is unchanged. |
| CheckpointStore.Linked | controllers/main_controller/checkpoint_manager.py:86-115 | The store after the linking pass of the new node has visited some keys. The new node gains one edge per visited near node, in visit order. Each visited near node gains the mirror edge. Every other node is unchanged. |
| CheckpointStore.NewNodeEdgesSound | controllers/main_controller/checkpoint_manager.py:90-107 | Every edge the new node receives leads to a visited, stored, other node within 3.0 m (inclusive), with the default fields and the square-root distance. |
| CheckpointStore.NewNodeEdgesComplete | controllers/main_controller/checkpoint_manager.py:90-107 | Every visited other node within 3.0 m receives an edge from the new node. |
| CheckpointStore.NewNodeEdgesOnePerTarget | controllers/main_controller/checkpoint_manager.py:90-107 | When the visited keys are distinct, no two edges of the new node lead to the same node. |
| CheckpointStore.LinkedSnoc | controllers/main_controller/checkpoint_manager.py:90-115 | Visiting one more key appends at most one edge to the new node and the mirrored edge, of the same distance, to that key's node, exactly when it is another node within 3.0 m. |
| CheckpointStore.LinkedNothing | controllers/main_controller/checkpoint_manager.py:86-90 | Before the linking loop has visited any key the store is unchanged. |
| CheckpointStore.StrippedSnoc | controllers/main_controller/checkpoint_manager.py:132-136 | Visiting one more key of the deletion loop filters that node's edges to the deleted id and touches nothing else. |
| CheckpointStore.StrippedNothing | controllers/main_controller/checkpoint_manager.py:132-136 | Before the stripping loop has visited any key the store is unchanged. |
| CheckpointStore.WithoutEdgesTo | controllers/main_controller/checkpoint_manager.py:133-136 | The connection list with every edge to the deleted id dropped and the rest kept in order. |
| CheckpointStore.Stripped | controllers/main_controller/checkpoint_manager.py:132-136 | The store after the stripping loop has visited some keys: visited nodes lose their edges to the deleted id, others are untouched. |
| CheckpointStore.RemoveKey | controllers/main_controller/checkpoint_manager.py:138 | The key order without the deleted key, the rest in order. |
| CheckpointStore.Pruned | controllers/main_controller/checkpoint_manager.py:130-138 | The store after a deletion: the deleted node is gone, and each survivor keeps its edges in order except those to the deleted id. |
| CheckpointStore.StrippedThenRemoved | controllers/main_controller/checkpoint_manager.py:131-138 | A full stripping pass followed by removing the key leaves exactly `Pruned`: the node gone and every survivor's edges to it removed. |
| CheckpointStore.WithoutEdgesToMembership | controllers/main_controller/checkpoint_manager.py:133-136 | The filtered connection list holds exactly the old edges that do not target the deleted id. |
| CheckpointStore.RemoveKeyMembership | controllers/main_controller/checkpoint_manager.py:138 | After `del` the key order holds exactly the old keys other than the deleted one. |
| CheckpointStore.RemoveKeyDistinct | controllers/main_controller/checkpoint_manager.py:138 | Deleting a key keeps the key order free of repetitions. |
| CheckpointStore.LinkedPreservesSymmetry | controllers/main_controller/checkpoint_manager.py:100-115 | Linking a new node with no connections into a symmetric store gives a symmetric store: each edge u to v has a mirror v to u of the same distance. |
| CheckpointStore.LinkedOnlyAppends | controllers/main_controller/checkpoint_manager.py:109-115 | Linking keeps an older node's id, position, history and existing edges (as a prefix), and appends exactly the edge to the new node when within 3.0 m, else nothing. |
| CheckpointStore.PrunedPreservesSymmetry | controllers/main_controller/checkpoint_manager.py:130-138 | Deleting a node keeps the store symmetric and leaves no edge targeting the deleted id. |
| CheckpointStore.Merge | controllers/main_controller/checkpoint_manager.py:123-125 | A shallow merge: each of the four record keys present in the patch replaces the record's value, and absent keys keep it. |
| CheckpointStore.MergePreservesSymmetry | controllers/main_controller/checkpoint_manager.py:123-125 | A shallow merge that leaves `connections` alone keeps the store symmetric. |
| CheckpointStore.MergeOfConnectionsCanBreakSymmetry | controllers/main_controller/checkpoint_manager.py:123-125 | A merge that overwrites `connections` can break symmetry (a concrete store and patch). |
| CheckpointStore.CheckpointManager.GraphInvariant | controllers/main_controller/checkpoint_manager.py:47-78 | Every live id lies between 1 and the counter, the counter is non-negative, and every edge has a mirror edge of the same distance. |
| CheckpointStore.CheckpointManager.constructor | controllers/main_controller/checkpoint_manager.py:7-13 | A store with no document starts empty with counter 0, symmetric and with a consistent key order. |
| CheckpointStore.CheckpointManager.AddCheckpoint | controllers/main_controller/checkpoint_manager.py:46-84 | Returns the counter + 1 and stores it as the new counter. The store becomes `Linked` over the record built by `NewCheckpoint`, in insertion order. When the id was fresh the key is appended to the order. The graph invariant (ids within 1..counter, symmetry) is preserved, so the new id was not live before. |
| CheckpointStore.CheckpointManager.UpdateConnections | controllers/main_controller/checkpoint_manager.py:86-115 | The linking loop over the keys in insertion order leaves exactly `Linked(old store, order, new id)`; order and counter are unchanged. |
| CheckpointStore.CheckpointManager.GetCheckpoint | controllers/main_controller/checkpoint_manager.py:117-118 | Some record exactly for a stored id, and then the stored record; None for an unknown id. |
| CheckpointStore.CheckpointManager.GetAllCheckpoints | controllers/main_controller/checkpoint_manager.py:120-121 | The whole dictionary: exactly the live ids, each mapped to what `GetCheckpoint` returns. |
| CheckpointStore.CheckpointManager.UpdateCheckpoint | controllers/main_controller/checkpoint_manager.py:123-128 | True iff the id is stored; then the record is shallow-merged and nothing else changes. False leaves the store unchanged. Symmetry survives when `connections` is not merged. |
| CheckpointStore.CheckpointManager.StripEdgesTo | controllers/main_controller/checkpoint_manager.py:131-136 | The stripping loop over all keys leaves exactly `Stripped(old store, order, id)`. |
| CheckpointStore.CheckpointManager.DeleteCheckpoint | controllers/main_controller/checkpoint_manager.py:130-141 | True iff the id was stored; then the store is `Pruned` and the key leaves the order. False keeps store and order unchanged. The counter is never touched and the graph invariant is preserved. |
| CheckpointStore.LinkFirst | controllers/main_controller/checkpoint_manager.py:90-92 | Linking the first node of a store creates no edge. |
| CheckpointStore.LinkSecond | controllers/main_controller/checkpoint_manager.py:93-115 | A second node 2.0 m from the first gets exactly one edge pair with it, both of distance `sqrt(4.0)`. |
| CheckpointStore.LinkThird | controllers/main_controller/checkpoint_manager.py:100 | A third node 10.0 m and 8.0 m away from the others gets no edge and changes no other node. |
| CheckpointStore.DeleteThenInsert | controllers/main_controller/checkpoint_manager.py:47-78 | In a fresh store the first id is 1; deleting it and inserting again issues 2, not 1 again. |
| PathPlanning.WrapDown | controllers/main_controller/pathfinding.py:36-37 | The subtracting loop ends at most pi, never crosses below -pi from above it, and leaves angles up to pi alone. |
| PathPlanning.WrapUp | controllers/main_controller/pathfinding.py:38-39 | The adding loop ends at least -pi, never crosses above pi from below it, and leaves angles from -pi alone. |
| PathPlanning.Wrap | controllers/main_controller/pathfinding.py:36-39 | Both loops together give an angle in [-pi, pi] and leave angles already there alone; `WrapIsWholeTurns` shows the change is whole turns. |
| PathPlanning.DownTurns | controllers/main_controller/pathfinding.py:36-37 | The number of full turns the subtracting loop removes: its result is the input minus that many times 2 pi. |
| PathPlanning.UpTurns | controllers/main_controller/pathfinding.py:38-39 | The number of full turns the adding loop adds: its result is the input plus that many times 2 pi. |
| PathPlanning.WrapIsWholeTurns | controllers/main_controller/pathfinding.py:36-39 | Wrapping changes an angle only by whole turns, so the heading is the same, and at most one of the two loops runs. |
| PathPlanning.NormalizeAngle | controllers/main_controller/pathfinding.py:36-39 | The two `while` loops compute `Wrap`. |
| PathPlanning.TransitionFor | controllers/main_controller/pathfinding.py:33-46 | The turn type of two yaws: wrap the absolute yaw gap into [-pi, pi]. Below 0.1 in absolute value it is straight, a positive value is a left turn, and otherwise it is a right turn. |
| PathPlanning.SmallGapTransition | controllers/main_controller/pathfinding.py:33-46 | For a raw yaw gap of at most pi the transition is straight iff the gap is below 0.1, and a left turn otherwise. |
| PathPlanning.TurnRightNeedsWrapAround | controllers/main_controller/pathfinding.py:33-46 | A right turn only comes out of a raw yaw gap larger than pi. |
| PathPlanning.TransitionIgnoresDirection | controllers/main_controller/pathfinding.py:34 | The transition is the same with the two nodes swapped. |
| PathPlanning.WrappedGapTurnsRight | controllers/main_controller/pathfinding.py:33-46 | A yaw gap of 4 rad wraps below zero and yields a right turn. |
| PathPlanning.CheckpointNode.constructor | controllers/main_controller/pathfinding.py:6-31 | A node starts with no connections, a straight transition, zero angles and the default potential field `DefaultField`: half-widths 0.3, 0.3 and 0.2, both lidar entries 0.0 (the later duplicate keys) and not in the field. |
| PathPlanning.CheckpointNode.CalculateTransitionType | controllers/main_controller/pathfinding.py:33-46 | The method, with its wrapping loops, returns `TransitionFor` of the two yaws. |
| PathPlanning.ApproachAngle | controllers/main_controller/pathfinding.py:48-51 | The heading, by `atan2`, of the planar displacement from the current node to the next. |
| PathPlanning.ExitAngle | controllers/main_controller/pathfinding.py:53-54 | The exit heading of a step is the approach heading of the reversed step, from the next node back to the current one. |
| PathPlanning.ExitOpposesApproach | controllers/main_controller/pathfinding.py:53-54 | When `atan2` turns by a half turn on a negated vector and the two nodes differ in the plane, the exit heading differs from the approach heading by exactly pi, so it points backwards. |
| PathPlanning.IntermediatePoint | controllers/main_controller/pathfinding.py:97-125 | The waypoint for the next node. It is the next node itself without a look-ahead node or when the wrapped heading change is at most 0.1. Otherwise it is offset 0.2 m perpendicular to the outgoing heading, to the left for a positive change and to the right otherwise, at the same height. |
| PathPlanning.IntermediatePointKeeps | controllers/main_controller/pathfinding.py:97-125 | The waypoint keeps the next node's height. It is the next node's position when there is no look-ahead node, or when the wrapped heading change is at most 0.1. |
| PathPlanning.IntermediatePointOffset | controllers/main_controller/pathfinding.py:116-123 | With a genuine cosine and sine, a moved waypoint lies 0.2 m (planar) from the next node. |
| PathPlanning.CalculateOptimalIntermediatePoint | controllers/main_controller/pathfinding.py:97-125 | The method, with its wrapping loops, returns `IntermediatePoint` with the look-ahead node's position when one is given. |
| PathPlanning.InPotentialField | controllers/main_controller/pathfinding.py:86-95 | A position is in a node's field exactly when each coordinate is within the node's closed half-width on that axis. |
| PathPlanning.OwnPositionInField | controllers/main_controller/pathfinding.py:86-95 | The box test is closed: a node's own position is inside its field whenever the half-widths are non-negative. |
| PathPlanning.DefaultFieldIsSmall | controllers/main_controller/pathfinding.py:18-27 | Inside the default field (half-widths 0.3, 0.3, 0.2) the vehicle is within a squared distance of 0.22 of the node. |
| PathPlanning.SortBy | controllers/main_controller/pathfinding.py:79-80 | A stable insertion sort by a real key, standing for the host's `sort`. It keeps the length. |
| PathPlanning.SortByCorrect | controllers/main_controller/pathfinding.py:130 | The sort used for ids and heights returns a sorted permutation of its input. |
| PathPlanning.Heights | controllers/main_controller/pathfinding.py:79 | The height list has one entry per node, the node's z. |
| PathPlanning.MedianOfSorted | controllers/main_controller/pathfinding.py:81-84 | For a sorted list: the middle entry for an odd length, the mean of the two middle entries for an even one, none when empty. |
| PathPlanning.MedianHeight | controllers/main_controller/pathfinding.py:78-84 | Sort the heights. An even count gives the mean of the two middle entries, an odd count the middle entry, and an empty list none. |
| PathPlanning.MedianOfSortedBetweenEnds | controllers/main_controller/pathfinding.py:81-84 | The median of a sorted list exists iff it is non-empty and lies between its first and last elements. |
| PathPlanning.MedianHeightBetweenEnds | controllers/main_controller/pathfinding.py:78-84 | The median height exists iff there are nodes and lies between the least and greatest sorted heights. |
| PathPlanning.SortedHeightIsAHeight | controllers/main_controller/pathfinding.py:79-80 | Every sorted height is the height of some node. |
| PathPlanning.MedianBetweenExtremes | controllers/main_controller/pathfinding.py:78-84 | The median exists iff the list is non-empty. It lies within any bounds of the heights and between two actual node heights. |
| PathPlanning.MedianOfThree | controllers/main_controller/pathfinding.py:78-84 | Heights 3, 1, 2 have median 2 (odd length: the middle sorted element). |
| PathPlanning.CreateCheckpointConnections | controllers/main_controller/pathfinding.py:58-75 | After the pass, each node met before the last position is linked to the successor of its last occurrence alone, with that pair's transition and headings. Every other node has no connections and keeps its heading fields. Potential fields are untouched and the distance argument is ignored. |
| PathPlanning.ClearConnections | controllers/main_controller/pathfinding.py:59-60 | The first loop empties every node's connections and changes no other field. |
| PathPlanning.LinkChain | controllers/main_controller/pathfinding.py:62-74 | The second loop, from cleared nodes, chains every position below the last one. Nodes not met keep their heading fields. |
| PathPlanning.ChainStep | controllers/main_controller/pathfinding.py:63-74 | One pass links node i to node i+1 with its transition and headings, and keeps the chain property of all earlier steps. |
| PathPlanning.ChainOfDistinctList | controllers/main_controller/pathfinding.py:58-75 | For a list without repetitions, node i is linked to node i+1 and the last node has no connections. |
| PathPlanning.FirstIndexWithId | controllers/main_controller/pathfinding.py:132-133 | The first position holding the id, or None when no node has it. |
| PathPlanning.SortKeepsIds | controllers/main_controller/pathfinding.py:130-133 | An id present in the list is still present after sorting by id. |
| PathPlanning.PlannerRuleKeepsNext | controllers/main_controller/pathfinding.py:99-101 | Without a look-ahead node the planner's waypoint is the next node's position. |
| PathPlanning.LookAhead | controllers/main_controller/pathfinding.py:144 | The look-ahead node of step i is the node two places on, when that is within the goal index; otherwise there is none. |
| PathPlanning.Block | controllers/main_controller/pathfinding.py:139-156 | What step i appends: the node itself, then, when the next node's waypoint differs from its position, a synthetic copy of the next node at the waypoint. |
| PathPlanning.BlockNodes | controllers/main_controller/pathfinding.py:139-156 | One loop pass appends the current node and, when the waypoint differs from the next node's position, a new node copying the next node at that waypoint, as `Block` describes. |
| PathPlanning.WalkStep | controllers/main_controller/pathfinding.py:139-158 | One loop pass extends a path standing for the walked prefix by the nodes of the next block. |
| PathPlanning.Walk | controllers/main_controller/pathfinding.py:135-162 | The while loop returns a path that stands, entry by entry, for `Steps`. Each synthetic entry is a node not in the input list. |
| PathPlanning.AStarPathfinding | controllers/main_controller/pathfinding.py:127-162 | Sorting by id keeps both ids. The path stands for `Steps` between their first indices in the sorted list, and synthetic entries are not input nodes. |
| PathPlanning.FindPathBetweenCheckpoints | controllers/main_controller/pathfinding.py:165-183 | None with nothing changed when an id is missing. Otherwise the nodes are chained, and the result is None iff the goal sorts before the start, else the walk. Potential fields are untouched, and nodes the chain does not start from keep their heading fields. |
| PathPlanning.BlockContents | controllers/main_controller/pathfinding.py:139-156 | A block holds its own node, then optionally one synthetic copy of the next node, which needs a look-ahead node within the goal. |
| PathPlanning.WalkPrefix | controllers/main_controller/pathfinding.py:138-160 | What the walk from the start index has appended on reaching an index: the blocks of every index before it, in loop order. |
| PathPlanning.Steps | controllers/main_controller/pathfinding.py:135-162 | The path of the walk: for each index from the start to the goal, in order, the block of that index, which is its node and optionally one synthetic waypoint. |
| PathPlanning.PrefixStartsAt | controllers/main_controller/pathfinding.py:138-140 | Once one block has been appended, the path begins with the start node. |
| PathPlanning.StepsShape | controllers/main_controller/pathfinding.py:135-162 | The walk is empty iff the goal index lies before the start index. Otherwise it begins with the start node and ends with the goal node, and it is exactly that node when start and goal coincide. |
| PathPlanning.PrefixRealNodes | controllers/main_controller/pathfinding.py:138-160 | The real nodes appended so far are the sorted nodes from the start index up to the current index. |
| PathPlanning.StepsRealNodes | controllers/main_controller/pathfinding.py:138-160 | Dropping synthetic waypoints leaves exactly the sorted nodes from the start index to the goal index, inclusive. |
| PathPlanning.PrefixSyntheticFollowed | controllers/main_controller/pathfinding.py:142-156 | In a prefix, a synthetic waypoint is followed by the real node it copies, or it is last and copies the node whose block comes next. |
| PathPlanning.StepsSyntheticFollowed | controllers/main_controller/pathfinding.py:142-156 | Every synthetic waypoint of the walk is immediately followed by the real node whose id it copies. |
| PathPlanning.PrefixSyntheticCount | controllers/main_controller/pathfinding.py:142-156 | Block j can hold a synthetic waypoint only when j + 2 is within the goal, which bounds the count so far. |
| PathPlanning.StepsSyntheticCount | controllers/main_controller/pathfinding.py:142-156 | A walk from index i to g holds at most g - i - 1 synthetic waypoints (none when that is not positive). |
| PathPlanning.PathInIdOrder | controllers/main_controller/pathfinding.py:130-162 | The real nodes of a planned path are in ascending id order. |
| RouteRecording.ToDict | controllers/main_controller/route_recorder.py:17-26 | The dictionary form of a point has the seven keys of the record, with `checkpoint_id` null when there is none. |
| RouteRecording.FromDict | controllers/main_controller/route_recorder.py:28-38 | Reads a point back. The five measured keys are required. `checkpoint_id` defaults to none and `is_checkpoint` to false. |
| RouteRecording.DictRoundTrip | controllers/main_controller/route_recorder.py:17-38 | `FromDict(ToDict(p)) == Some(p)` for every point. |
| RouteRecording.DictDefaults | controllers/main_controller/route_recorder.py:28-38 | Without the optional keys, `checkpoint_id` reads as none and `is_checkpoint` as false. Without one of the five measured keys the point does not read (the host raises). |
| RouteRecording.Distance | controllers/main_controller/route_recorder.py:159-163 | The Euclidean distance of two positions. With a genuine square root it is non-negative and squares to the squared distance. |
| RouteRecording.CreateSegment | controllers/main_controller/route_recorder.py:146-157 | A segment of two points: their time difference, their distance, and the distance over the duration when the duration is positive, else 0. |
| RouteRecording.SegmentSpeed | controllers/main_controller/route_recorder.py:146-157 | A segment joins the two points. Its duration is their time difference. Its speed times duration is its distance when the duration is positive, else the speed is 0. With a genuine square root, distance and speed are non-negative. |
| RouteRecording.SumDistances | controllers/main_controller/route_recorder.py:196 | The sum of the segments' distances, in list order. |
| RouteRecording.SumOfJoinedSegments | controllers/main_controller/route_recorder.py:196 | For joined segments the sum of their distances is the length of the polyline through the route. |
| RouteRecording.SegmentInto | controllers/main_controller/route_recorder.py:139-142 | The segment a new point adds: none for the first point, otherwise the one from the route's last point. |
| RouteRecording.SegmentsJoinSnoc | controllers/main_controller/route_recorder.py:135-142 | Appending a point and the segment from the previous point keeps segment k joining points k and k+1, one segment fewer than points. |
| RouteRecording.ShouldRecord | controllers/main_controller/route_recorder.py:109-120 | A sample is kept when 0.1 s have passed since the last kept one, or it is at least 0.05 m from the last kept position, or a checkpoint is active. |
| RouteRecording.ShouldRecordIff | controllers/main_controller/route_recorder.py:109-120 | With a genuine square root, a sample is kept iff 0.1 s have passed, or the squared movement is at least 0.05², or a checkpoint is active. |
| RouteRecording.LidarInMetres | controllers/main_controller/route_recorder.py:94-99 | The reading map has exactly the keys front, back, left and right. Each value is the raw millimetre reading divided by 1000. |
| RouteRecording.LapStartAfter | controllers/main_controller/route_recorder.py:87-88 | The lap start after a sample: a start of 0.0 means unset, and the sample's time becomes the start; otherwise the start is kept. |
| RouteRecording.RouteRecorder.constructor | controllers/main_controller/route_recorder.py:49-59 | A recorder starts idle with an empty route and segments, lap 0, zero times and no last position. |
| RouteRecording.RouteRecorder.StartRecording | controllers/main_controller/route_recorder.py:61-70 | Route, segments, checkpoint times, lap start, last time and last position are reset, the lap number is set, and recording is on. |
| RouteRecording.RouteRecorder.StopRecording | controllers/main_controller/route_recorder.py:72-79 | Recording is off and nothing else changes; a no-op when not recording. |
| RouteRecording.RouteRecorder.Append | controllers/main_controller/route_recorder.py:135-142 | The point is appended, and so is the segment from the previous point when there is one; the joined-segments invariant is kept. |
| RouteRecording.RouteRecorder.RecordPoint | controllers/main_controller/route_recorder.py:81-144 | Not recording: None and nothing changes. Recording: the lap start is set by the first sample, and an active checkpoint's time since lap start is overwritten even when the sample is dropped. A point is kept iff `ShouldRecord` holds. A kept point carries the time since lap start, the readings in metres and the checkpoint, and is appended with its segment; last time and position are updated only then. The joined-segments invariant is kept. |
| RouteRecording.RouteRecorder.GetLapStatistics | controllers/main_controller/route_recorder.py:192-208 | None for an empty route. Otherwise it gives the segment distances' sum, the last point's time as duration, and the average speed (0 when the duration is not positive). It also gives the lap number, the checkpoint times, and the point and segment counts. |
| RouteRecording.RouteRecorder.LapStatisticsOfJoinedRoute | controllers/main_controller/route_recorder.py:192-208 | The summary exists iff the route is non-empty. Its total distance is the path length, it has one segment fewer than points, its duration is the last point's time, and it carries the lap number and checkpoint times. |
| RouteRecording.IdleThenRecording | controllers/main_controller/route_recorder.py:82-88 | An idle recorder drops a sample; after `StartRecording` the first sample is kept at time 0 since lap start and is the route's only point. |

## Left out

- JSON persistence (`load_data`, `save_data`, `save_route_data`), file handling and `print` output are not modelled. The store starts empty, as it does when no document exists. `stop_recording` is modelled without its save.
- `datetime.now()` becomes the `now: string` parameter of `AddCheckpoint`. The metadata's `last_update` stamp is not kept.
- Floating point is modelled as exact reals; rounding is not modelled.
- `sqrt`, `atan2`, `cos` and `sin` are parameters: any total function. Properties that need their real behaviour assume it (`IsSquareRoot`, `UnitCircle`). Pi is the double-precision constant.
- The drone object passed to `record_point` becomes the sampled values: time, position, attitude, gyro rates, raw lidar and active checkpoint. The `hasattr(drone, 'current_checkpoint')` test becomes an optional id. The drone always initialises that attribute to the integer 0 (`octopus.py:66`, `key_controller.py:239`), so on the real vehicle every recorded sample has an active checkpoint.
- RouteRecording.FromDict: a wrong-shaped value under one of the five required keys makes the model fail to read, where the host stores it without checking. The typed record cannot hold such a value. A wrong-shaped `checkpoint_id` or `is_checkpoint` reads as none or false.
- String keys of the store (`str(id)`) are the integer ids; the decimal conversion is one-to-one.
- CheckpointStore.CheckpointManager.UpdateCheckpoint: a patch can only overwrite the four record keys. A merge that adds other keys is not modelled.
- CheckpointStore.CheckpointManager.GetAllCheckpoints: the host hands out its own dictionary, which a caller could then mutate. The model returns a value, so that aliasing is not modelled.
- `passage_info` of a planner node (an unused dictionary) is not carried. The copy of the potential field is a value copy.
- PathPlanning.SortBy is a stable insertion sort standing for the host's stable sort. Its stability is not stated as a lemma; sortedness and permutation are proved.
- PathPlanning.AStarPathfinding: when an id is missing the host raises `StopIteration`; the model requires both ids to be present. Its only caller, `FindPathBetweenCheckpoints`, checks for them first.
- PathPlanning.Walk: that a synthetic waypoint is a newly allocated node is stated as "not one of the input nodes". The model does not state that the waypoint is new in the heap.
- PathPlanning.MedianHeight: on an empty list the host fails with an index error; the model returns None.
- CheckpointStore.LinkThird: the three-insert scenario (0,0,0), (2,0,0), (10,0,0) is stated step by step on `Linked` (`LinkFirst`, `LinkSecond`, `LinkThird`), not as one run of `AddCheckpoint`. The distinct ids 1, 2, 3 follow from the counter contract of `AddCheckpoint`.
- The keyboard controller's 1.0 m re-detection guard, the flight control loops, plotting and the simulator entry point are outside this model.
