/** The route planner over recorded checkpoints.

    Despite its name, the planner performs no search: it sorts the
    checkpoints by id, walks forward from the start checkpoint to the goal
    checkpoint, and in front of some real checkpoints inserts a synthetic
    waypoint that is shifted sideways by 0.2 m towards the inside of an
    upcoming turn. A separate pass chains the checkpoints in list order
    and stores on each one the turn type and the approach and exit
    headings towards its successor.

    `atan2`, `cos` and `sin` come from the host's maths library; they are
    the fields of the `Trig` parameter (any total functions). */
module PathPlanning {
  import opened Common

  /** The maths library functions the planner calls. */
  datatype Trig = Trig(atan2: (real, real) -> real, cos: real -> real, sin: real -> real)

  /** The host's double-precision value of pi. */
  const Pi: real := 3.141592653589793

  /** Lateral offset of a synthetic waypoint, in metres. */
  const WaypointOffset: real := 0.2

  /** Heading differences below this (radians) count as straight. */
  const StraightTolerance: real := 0.1

  datatype Transition = Straight | TurnLeft | TurnRight

  /** The box around a checkpoint inside which the vehicle counts as
      having reached it. The node's defaults list `lidar_left`/`lidar_right`
      twice; the later entries (0.0) are the ones that take effect. */
  datatype PotentialField = PotentialField(
    xRange: real,
    yRange: real,
    zRange: real,
    lidarLeft: real,
    lidarRight: real,
    isInField: bool)

  const DefaultField: PotentialField := PotentialField(0.3, 0.3, 0.2, 0.0, 0.0, false)

  // -----------------------------------------------------------------------
  // Angle wrapping

  /** Subtracts full turns while the angle exceeds pi. */
  function WrapDown(a: real): (r: real)
    decreases (a - Pi).Floor
    ensures r <= Pi
    ensures a > -Pi ==> r > -Pi
    ensures a <= Pi ==> r == a
  {
    if a > Pi then WrapDown(a - 2.0 * Pi) else a
  }

  /** Adds full turns while the angle is below -pi. */
  function WrapUp(a: real): (r: real)
    decreases (-Pi - a).Floor
    ensures r >= -Pi
    ensures a < Pi ==> r < Pi
    ensures a >= -Pi ==> r == a
  {
    if a < -Pi then WrapUp(a + 2.0 * Pi) else a
  }

  /** The two wrapping loops of the planner, in their order: first down,
      then up. The result lies in [-pi, pi] and angles already there are
      left alone. */
  function Wrap(a: real): (r: real)
    ensures -Pi <= r <= Pi
    ensures -Pi <= a <= Pi ==> r == a
    ensures a > -Pi ==> r > -Pi
  {
    WrapUp(WrapDown(a))
  }

  /** How many full turns `WrapDown` subtracts. */
  function DownTurns(a: real): (k: nat)
    decreases (a - Pi).Floor
    ensures WrapDown(a) == a - 2.0 * Pi * (k as real)
  {
    if a > Pi then DownTurns(a - 2.0 * Pi) + 1 else 0
  }

  /** How many full turns `WrapUp` adds. */
  function UpTurns(a: real): (k: nat)
    decreases (-Pi - a).Floor
    ensures WrapUp(a) == a + 2.0 * Pi * (k as real)
  {
    if a < -Pi then UpTurns(a + 2.0 * Pi) + 1 else 0
  }

  /** Wrapping only removes whole turns: the result is the same heading,
      and at most one of the two loops runs. */
  lemma WrapIsWholeTurns(a: real)
    ensures DownTurns(a) == 0 || UpTurns(WrapDown(a)) == 0
    ensures Wrap(a) == a + 2.0 * Pi * ((UpTurns(WrapDown(a)) as real) - (DownTurns(a) as real))
  {
    var d, u := DownTurns(a), UpTurns(WrapDown(a));
    if d > 0 {
      assert a > Pi;
      assert WrapDown(a) > -Pi;
    }
    assert Wrap(a) == a - 2.0 * Pi * (d as real) + 2.0 * Pi * (u as real);
  }

  /** The wrapping loops as the planner runs them. */
  method NormalizeAngle(a: real) returns (r: real)
    ensures r == Wrap(a)
  {
    r := a;
    while r > Pi
      invariant WrapDown(r) == WrapDown(a)
      decreases (r - Pi).Floor
    {
      r := r - 2.0 * Pi;
    }
    while r < -Pi
      invariant WrapUp(r) == Wrap(a)
      decreases (-Pi - r).Floor
    {
      r := r + 2.0 * Pi;
    }
  }

  // -----------------------------------------------------------------------
  // Transition type

  /** The turn type between two yaw angles. The absolute value is taken
      BEFORE wrapping, so the sign of the raw difference is lost. */
  function TransitionFor(yaw: real, nextYaw: real): Transition
  {
    var d := Wrap(Abs(yaw - nextYaw));
    if Abs(d) < StraightTolerance then Straight
    else if d > 0.0 then TurnLeft
    else TurnRight
  }

  /** For a raw yaw gap of at most pi no wrapping happens: the transition
      is straight exactly when the gap is below 0.1, and a left turn
      otherwise; a right turn never comes out. */
  lemma SmallGapTransition(yaw: real, nextYaw: real)
    requires Abs(yaw - nextYaw) <= Pi
    ensures TransitionFor(yaw, nextYaw) == (if Abs(yaw - nextYaw) < StraightTolerance then Straight else TurnLeft)
  {
  }

  /** A right turn only comes out of a raw gap larger than pi, i.e. of a
      wrap-around. */
  lemma TurnRightNeedsWrapAround(yaw: real, nextYaw: real)
    requires TransitionFor(yaw, nextYaw) == TurnRight
    ensures Abs(yaw - nextYaw) > Pi
  {
    if Abs(yaw - nextYaw) <= Pi {
      SmallGapTransition(yaw, nextYaw);
    }
  }

  /** Because the absolute value comes first, the transition does not
      depend on which node is "current": swapping the two gives the same
      answer, so a left and a right turn of equal size are not told apart. */
  lemma TransitionIgnoresDirection(yaw: real, nextYaw: real)
    ensures TransitionFor(yaw, nextYaw) == TransitionFor(nextYaw, yaw)
  {
    assert Abs(yaw - nextYaw) == Abs(nextYaw - yaw);
  }

  /** A yaw gap of 4 rad wraps to about -2.28 rad and yields a right turn. */
  lemma WrappedGapTurnsRight()
    ensures TransitionFor(0.0, 4.0) == TurnRight
  {
    assert Abs(0.0 - 4.0) == 4.0;
    assert WrapDown(4.0 - 2.0 * Pi) == 4.0 - 2.0 * Pi;
    assert WrapDown(4.0) == 4.0 - 2.0 * Pi;
  }

  // -----------------------------------------------------------------------
  // Intermediate waypoint

  /** Where the planner puts the waypoint for `next` when coming from
      `current`: with a look-ahead node and a wrapped heading change of
      more than 0.1 rad, 0.2 m sideways (left for a left turn, right
      otherwise) of `next`, perpendicular to the outgoing heading; else
      `next` itself. The height is never changed. */
  function IntermediatePoint(trig: Trig, current: Vec3, next: Vec3, lookAhead: Option<Vec3>): Vec3
  {
    match lookAhead
    case None => next
    case Some(q) =>
      var angle := trig.atan2(q.y - next.y, q.x - next.x);
      var angle2 := trig.atan2(next.y - current.y, next.x - current.x);
      var d := Wrap(angle - angle2);
      if Abs(d) > StraightTolerance then
        var side := if d > 0.0 then angle + Pi / 2.0 else angle - Pi / 2.0;
        Vec3(next.x + WaypointOffset * trig.cos(side), next.y + WaypointOffset * trig.sin(side), next.z)
      else next
  }

  /** The waypoint keeps the height of `next`, and it is `next` itself when
      there is no look-ahead node or the heading change is small. */
  lemma IntermediatePointKeeps(trig: Trig, current: Vec3, next: Vec3, lookAhead: Option<Vec3>)
    ensures IntermediatePoint(trig, current, next, lookAhead).z == next.z
    ensures lookAhead.None? ==> IntermediatePoint(trig, current, next, lookAhead) == next
    ensures lookAhead.Some? &&
            Abs(Wrap(trig.atan2(lookAhead.value.y - next.y, lookAhead.value.x - next.x)
                     - trig.atan2(next.y - current.y, next.x - current.x))) <= StraightTolerance
            ==> IntermediatePoint(trig, current, next, lookAhead) == next
  {
  }

  /** `cos` and `sin` satisfy the Pythagorean identity. */
  ghost predicate UnitCircle(trig: Trig)
  {
    forall t {:trigger trig.cos(t)} :: trig.cos(t) * trig.cos(t) + trig.sin(t) * trig.sin(t) == 1.0
  }

  /** With a genuine cosine and sine, a moved waypoint lies exactly 0.2 m
      (planar) from `next`. */
  lemma IntermediatePointOffset(trig: Trig, current: Vec3, next: Vec3, lookAhead: Option<Vec3>)
    requires UnitCircle(trig)
    requires IntermediatePoint(trig, current, next, lookAhead) != next
    ensures var p := IntermediatePoint(trig, current, next, lookAhead);
      (p.x - next.x) * (p.x - next.x) + (p.y - next.y) * (p.y - next.y) == WaypointOffset * WaypointOffset
  {
    var q := lookAhead.value;
    var angle := trig.atan2(q.y - next.y, q.x - next.x);
    var angle2 := trig.atan2(next.y - current.y, next.x - current.x);
    var d := Wrap(angle - angle2);
    var side := if d > 0.0 then angle + Pi / 2.0 else angle - Pi / 2.0;
    var c, s := trig.cos(side), trig.sin(side);
    assert c * c + s * s == 1.0;
    assert (WaypointOffset * c) * (WaypointOffset * c) + (WaypointOffset * s) * (WaypointOffset * s)
        == WaypointOffset * WaypointOffset * (c * c + s * s);
  }

  // -----------------------------------------------------------------------
  // Checkpoint nodes

  class CheckpointNode {
    const id: int
    const position: Vec3
    const orientation: Orientation
    var connections: seq<CheckpointNode>
    var transitionType: Transition
    var approachAngle: real
    var exitAngle: real
    var potentialField: PotentialField
    const isCheckpoint: bool := true
    const optimalSpeed: real := 0.3
    const stabilizationTime: real := 0.2
    const exitSpeed: real := 0.3

    /** A node with no connections, a straight transition, zero angles and
        the default potential field. */
    constructor (id: int, position: Vec3, orientation: Orientation)
      ensures this.id == id && this.position == position && this.orientation == orientation
      ensures connections == [] && transitionType == Straight
      ensures approachAngle == 0.0 && exitAngle == 0.0
      ensures potentialField == DefaultField
    {
      this.id := id;
      this.position := position;
      this.orientation := orientation;
      connections := [];
      transitionType := Straight;
      approachAngle := 0.0;
      exitAngle := 0.0;
      potentialField := DefaultField;
    }

    /** The turn type towards `next`, with the wrapping loops run. */
    method CalculateTransitionType(next: CheckpointNode) returns (t: Transition)
      ensures t == TransitionFor(orientation.yaw, next.orientation.yaw)
    {
      var angleDiff := Abs(orientation.yaw - next.orientation.yaw);
      angleDiff := NormalizeAngle(angleDiff);
      if Abs(angleDiff) < StraightTolerance {
        return Straight;
      } else if angleDiff > 0.0 {
        return TurnLeft;
      }
      return TurnRight;
    }
  }

  /** Heading of the planar displacement from `a` to `b`. */
  function ApproachAngle(trig: Trig, a: CheckpointNode, b: CheckpointNode): real
  {
    trig.atan2(b.position.y - a.position.y, b.position.x - a.position.x)
  }

  /** The exit heading from `a` towards `b` is computed as the approach
      heading of the reversed pair. */
  function ExitAngle(trig: Trig, a: CheckpointNode, b: CheckpointNode): real
  {
    ApproachAngle(trig, b, a)
  }

  /** `atan2` turns by exactly a half turn when its argument vector is
      negated, as the genuine function does away from the origin. */
  ghost predicate HalfTurnReflection(trig: Trig)
  {
    forall y: real, x: real {:trigger trig.atan2(y, x)} ::
      (y != 0.0 || x != 0.0) ==> Abs(trig.atan2(-y, -x) - trig.atan2(y, x)) == Pi
  }

  /** With such an `atan2` and two nodes apart in the plane, the exit
      heading is the approach heading turned by pi: it points back from `b`
      to `a` rather than onward. */
  lemma ExitOpposesApproach(trig: Trig, a: CheckpointNode, b: CheckpointNode)
    requires HalfTurnReflection(trig)
    requires a.position.x != b.position.x || a.position.y != b.position.y
    ensures Abs(ExitAngle(trig, a, b) - ApproachAngle(trig, a, b)) == Pi
  {
    var y, x := b.position.y - a.position.y, b.position.x - a.position.x;
    assert a.position.y - b.position.y == -y && a.position.x - b.position.x == -x;
    assert y != 0.0 || x != 0.0;
    assert Abs(trig.atan2(-y, -x) - trig.atan2(y, x)) == Pi;
  }

  /** The waypoint of `next` for the step from `current`, with the
      wrapping loops run. */
  method CalculateOptimalIntermediatePoint(trig: Trig, current: CheckpointNode, next: CheckpointNode, nextNext: Option<CheckpointNode>)
    returns (p: Vec3)
    ensures p == IntermediatePoint(trig, current.position, next.position,
                                   if nextNext.Some? then Some(nextNext.value.position) else None)
  {
    p := next.position;
    if nextNext.Some? {
      var q := nextNext.value.position;
      var angle := trig.atan2(q.y - next.position.y, q.x - next.position.x);
      var angle2 := trig.atan2(next.position.y - current.position.y, next.position.x - current.position.x);
      var angleDiff := NormalizeAngle(angle - angle2);
      if Abs(angleDiff) > StraightTolerance {
        if angleDiff > 0.0 {
          p := Vec3(p.x + WaypointOffset * trig.cos(angle + Pi / 2.0), p.y + WaypointOffset * trig.sin(angle + Pi / 2.0), p.z);
        } else {
          p := Vec3(p.x + WaypointOffset * trig.cos(angle - Pi / 2.0), p.y + WaypointOffset * trig.sin(angle - Pi / 2.0), p.z);
        }
      }
    }
  }

  // -----------------------------------------------------------------------
  // Potential field

  /** Closed per-axis box test around the node's position. */
  predicate InPotentialField(p: Vec3, n: CheckpointNode)
    reads n
  {
    && Abs(p.x - n.position.x) <= n.potentialField.xRange
    && Abs(p.y - n.position.y) <= n.potentialField.yRange
    && Abs(p.z - n.position.z) <= n.potentialField.zRange
  }

  /** A node's own position is inside its field whenever the half-widths
      are non-negative, as the defaults are. */
  lemma OwnPositionInField(n: CheckpointNode)
    requires n.potentialField.xRange >= 0.0 && n.potentialField.yRange >= 0.0 && n.potentialField.zRange >= 0.0
    ensures InPotentialField(n.position, n)
  {
  }

  /** Inside the default field the vehicle is within sqrt(0.22) m of the
      node: the box is 0.6 m by 0.6 m by 0.4 m. */
  lemma DefaultFieldIsSmall(p: Vec3, n: CheckpointNode)
    requires n.potentialField == DefaultField
    requires InPotentialField(p, n)
    ensures SqDist(p, n.position) <= 0.22
  {
    var dx, dy, dz := p.x - n.position.x, p.y - n.position.y, p.z - n.position.z;
    SquareBound(dx, 0.3);
    SquareBound(dy, 0.3);
    SquareBound(dz, 0.2);
  }

  lemma SquareBound(d: real, b: real)
    requires Abs(d) <= b
    ensures d * d <= b * b
  {
    var a := Abs(d);
    assert d * d == a * a;
    if a < b {
      SquareStrictlyIncreasing(b, a);
    }
  }

  // -----------------------------------------------------------------------
  // Stable sorting by a key

  predicate SortedBy<T>(s: seq<T>, key: T -> real)
  {
    forall i, j :: 0 <= i < j < |s| ==> key(s[i]) <= key(s[j])
  }

  /** Inserts `x` after every element whose key is at most `x`'s, so equal
      keys keep their arrival order. */
  function Insert<T>(t: seq<T>, x: T, key: T -> real): (r: seq<T>)
    ensures |r| == |t| + 1
  {
    if t == [] || key(t[|t| - 1]) <= key(x) then t + [x]
    else Insert(t[..|t| - 1], x, key) + [t[|t| - 1]]
  }

  /** Stable insertion sort, standing for the host's stable sort. */
  function SortBy<T>(s: seq<T>, key: T -> real): (r: seq<T>)
    ensures |r| == |s|
  {
    if s == [] then [] else Insert(SortBy(s[..|s| - 1], key), s[|s| - 1], key)
  }

  lemma {:induction false} InsertPermutes<T>(t: seq<T>, x: T, key: T -> real)
    ensures multiset(Insert(t, x, key)) == multiset(t) + multiset{x}
  {
    if t != [] && key(t[|t| - 1]) > key(x) {
      var init, last := t[..|t| - 1], t[|t| - 1];
      InsertPermutes(init, x, key);
      assert t == init + [last];
    }
  }

  lemma {:induction false} InsertSorted<T>(t: seq<T>, x: T, key: T -> real)
    requires SortedBy(t, key)
    ensures SortedBy(Insert(t, x, key), key)
    ensures |Insert(t, x, key)| == |t| + 1
    ensures Insert(t, x, key) != [] && (key(Insert(t, x, key)[|t|]) == key(x) || key(Insert(t, x, key)[|t|]) == key(t[|t| - 1]))
  {
    if t != [] && key(t[|t| - 1]) > key(x) {
      var init, last := t[..|t| - 1], t[|t| - 1];
      assert SortedBy(init, key);
      InsertSorted(init, x, key);
      var r := Insert(init, x, key);
      assert init != [] ==> key(init[|init| - 1]) <= key(last);
      assert key(r[|init|]) <= key(last);
      forall i | 0 <= i < |r|
        ensures key(r[i]) <= key(last)
      {
        assert key(r[i]) <= key(r[|init|]);
      }
    }
  }

  lemma {:induction false} SortByCorrect<T>(s: seq<T>, key: T -> real)
    ensures SortedBy(SortBy(s, key), key)
    ensures multiset(SortBy(s, key)) == multiset(s)
  {
    if s != [] {
      var init, last := s[..|s| - 1], s[|s| - 1];
      SortByCorrect(init, key);
      InsertSorted(SortBy(init, key), last, key);
      InsertPermutes(SortBy(init, key), last, key);
      assert s == init + [last];
    }
  }

  // -----------------------------------------------------------------------
  // Median height

  function Heights(cps: seq<CheckpointNode>): (hs: seq<real>)
    ensures |hs| == |cps|
    ensures forall i :: 0 <= i < |cps| ==> hs[i] == cps[i].position.z
  {
    if cps == [] then [] else Heights(cps[..|cps| - 1]) + [cps[|cps| - 1].position.z]
  }

  function RealKey(x: real): real
  {
    x
  }

  /** The middle element of a sorted sequence for an odd length, the mean
      of the two middle ones for an even length; none when empty. */
  function MedianOfSorted(hs: seq<real>): Option<real>
  {
    var n := |hs|;
    if n == 0 then None
    else if n % 2 == 0 then Some((hs[n / 2 - 1] + hs[n / 2]) / 2.0)
    else Some(hs[n / 2])
  }

  /** The median of the sorted heights. An empty list has none (the host
      fails with an index error). */
  function MedianHeight(cps: seq<CheckpointNode>): Option<real>
  {
    MedianOfSorted(SortBy(Heights(cps), RealKey))
  }

  /** The median of a sorted non-empty sequence lies between its first and
      last elements. */
  lemma MedianOfSortedBetweenEnds(hs: seq<real>)
    requires SortedBy(hs, RealKey)
    ensures MedianOfSorted(hs).Some? <==> |hs| > 0
    ensures MedianOfSorted(hs).Some? ==> hs[0] <= MedianOfSorted(hs).value <= hs[|hs| - 1]
  {
    var n := |hs|;
    if n > 0 && n % 2 == 0 {
      assert RealKey(hs[0]) <= RealKey(hs[n / 2 - 1]);
      assert RealKey(hs[n / 2]) <= RealKey(hs[n - 1]);
    } else if n > 0 {
      assert RealKey(hs[0]) <= RealKey(hs[n / 2]);
      assert RealKey(hs[n / 2]) <= RealKey(hs[n - 1]);
    }
  }

  /** The median of the heights lies between the smallest and the
      largest of the sorted heights. */
  lemma MedianHeightBetweenEnds(cps: seq<CheckpointNode>)
    ensures |SortBy(Heights(cps), RealKey)| == |cps|
    ensures MedianHeight(cps).Some? <==> |cps| > 0
    ensures MedianHeight(cps).Some? ==>
      var hs := SortBy(Heights(cps), RealKey);
      hs[0] <= MedianHeight(cps).value <= hs[|hs| - 1]
  {
    SortByCorrect(Heights(cps), RealKey);
    MedianOfSortedBetweenEnds(SortBy(Heights(cps), RealKey));
  }

  /** Every element of the sorted heights is the height of some node. */
  lemma SortedHeightIsAHeight(cps: seq<CheckpointNode>, k: int) returns (i: int)
    requires 0 <= k < |SortBy(Heights(cps), RealKey)|
    ensures 0 <= i < |cps| && cps[i].position.z == SortBy(Heights(cps), RealKey)[k]
  {
    var h := Heights(cps);
    var hs := SortBy(h, RealKey);
    SortByCorrect(h, RealKey);
    assert hs[k] in multiset(h);
    i :| 0 <= i < |h| && h[i] == hs[k];
  }

  /** The median exists exactly for a non-empty list, lies between any
      lower and upper bound of the heights, and between two actual
      heights. */
  lemma {:induction false} MedianBetweenExtremes(cps: seq<CheckpointNode>, lo: real, hi: real)
    requires forall i :: 0 <= i < |cps| ==> lo <= cps[i].position.z <= hi
    ensures MedianHeight(cps).Some? <==> |cps| > 0
    ensures MedianHeight(cps).Some? ==> lo <= MedianHeight(cps).value <= hi
    ensures MedianHeight(cps).Some? ==>
      exists i, j :: 0 <= i < |cps| && 0 <= j < |cps| &&
        cps[i].position.z <= MedianHeight(cps).value <= cps[j].position.z
  {
    MedianHeightBetweenEnds(cps);
    if |cps| > 0 {
      var hs := SortBy(Heights(cps), RealKey);
      var n := |hs|;
      var i := SortedHeightIsAHeight(cps, 0);
      var j := SortedHeightIsAHeight(cps, n - 1);
      assert lo <= cps[i].position.z && cps[j].position.z <= hi;
    }
  }

  /** A worked case: heights 3, 1, 2 have median 2. */
  lemma MedianOfThree(a: CheckpointNode, b: CheckpointNode, c: CheckpointNode)
    requires a.position.z == 3.0 && b.position.z == 1.0 && c.position.z == 2.0
    ensures MedianHeight([a, b, c]) == Some(2.0)
  {
    var h := Heights([a, b, c]);
    assert h == [3.0, 1.0, 2.0];
    assert h[..2] == [3.0, 1.0] && h[..2][..1] == [3.0];
    assert [3.0, 1.0][..1] == [3.0];
    assert SortBy([3.0], RealKey) == [3.0];
    assert SortBy([3.0, 1.0], RealKey) == [1.0, 3.0];
    assert [1.0, 3.0][..1] == [1.0];
    assert SortBy(h, RealKey) == [1.0, 2.0, 3.0];
  }

  // -----------------------------------------------------------------------
  // Successor chain

  predicate DistinctNodes(cps: seq<CheckpointNode>)
  {
    forall i, j :: 0 <= i < j < |cps| ==> cps[i] != cps[j]
  }

  /** The number of nodes the chaining pass visits: all but the last. */
  function ChainLength(cps: seq<CheckpointNode>): nat
  {
    if |cps| == 0 then 0 else |cps| - 1
  }

  /** The last position below `bound` at which `n` occurs in `cps`. */
  function LastIndexBelow(cps: seq<CheckpointNode>, n: CheckpointNode, bound: int): (r: Option<int>)
    requires 0 <= bound <= |cps|
    ensures r.Some? ==> 0 <= r.value < bound && cps[r.value] == n
    ensures r.Some? ==> forall k :: r.value < k < bound ==> cps[k] != n
    ensures r.None? ==> forall k :: 0 <= k < bound ==> cps[k] != n
  {
    if bound == 0 then None
    else if cps[bound - 1] == n then Some(bound - 1)
    else LastIndexBelow(cps, n, bound - 1)
  }

  /** In a list without repetitions, node `i` is found at `i`. */
  lemma LastIndexOfDistinct(cps: seq<CheckpointNode>, i: int, bound: int)
    requires DistinctNodes(cps) && 0 <= i < |cps| && 0 <= bound <= |cps|
    ensures LastIndexBelow(cps, cps[i], bound) == if i < bound then Some(i) else None
  {
    var r := LastIndexBelow(cps, cps[i], bound);
    if r.Some? {
      assert cps[r.value] == cps[i];
    }
  }

  /** `n` points at `next` alone and carries the turn type and the headings
      towards it. */
  predicate LinkedTo(trig: Trig, n: CheckpointNode, next: CheckpointNode)
    reads n
  {
    && n.connections == [next]
    && n.transitionType == TransitionFor(n.orientation.yaw, next.orientation.yaw)
    && n.approachAngle == ApproachAngle(trig, n, next)
    && n.exitAngle == ExitAngle(trig, n, next)
  }

  /** Node `n` after the first `bound` chaining steps: met at some
      position below `bound`, it is linked to the node after its LAST such
      position; not met, it has no connections. */
  predicate NodeChained(trig: Trig, cps: seq<CheckpointNode>, n: CheckpointNode, bound: int)
    requires 0 <= bound <= ChainLength(cps)
    reads n
  {
    match LastIndexBelow(cps, n, bound)
    case Some(j) => LinkedTo(trig, n, cps[j + 1])
    case None => n.connections == []
  }

  ghost predicate ChainedUpTo(trig: Trig, cps: seq<CheckpointNode>, bound: int)
    requires 0 <= bound <= ChainLength(cps)
    reads set i | 0 <= i < |cps| :: cps[i]
  {
    forall n :: n in cps ==> NodeChained(trig, cps, n, bound)
  }

  /** The node written by step i counts as chained after the step. */
  lemma ChainStepSelf(trig: Trig, cps: seq<CheckpointNode>, i: int)
    requires 0 <= i < ChainLength(cps)
    requires LinkedTo(trig, cps[i], cps[i + 1])
    ensures NodeChained(trig, cps, cps[i], i + 1)
    ensures LastIndexBelow(cps, cps[i], i + 1) == Some(i)
  {
  }

  /** Step i changes nothing about the other nodes. */
  lemma ChainStepOther(trig: Trig, cps: seq<CheckpointNode>, n: CheckpointNode, i: int)
    requires 0 <= i < ChainLength(cps) && n != cps[i]
    ensures LastIndexBelow(cps, n, i + 1) == LastIndexBelow(cps, n, i)
    ensures NodeChained(trig, cps, n, i + 1) == NodeChained(trig, cps, n, i)
  {
  }

  /** The link fields of `n` other than `connections` are as they were on
      entry to the chaining pass. */
  twostate predicate KeepsHeadings(n: CheckpointNode)
    reads n
  {
    && n.transitionType == old(n.transitionType)
    && n.approachAngle == old(n.approachAngle)
    && n.exitAngle == old(n.exitAngle)
  }

  /** Clears every node's connections, then links node i (in list order,
      not id order) to node i+1 alone, storing the turn type and the
      approach and exit headings on node i. `maxDistance` is accepted and
      not used. A node that occurs twice keeps what its last occurrence
      wrote; a node that is only the last entry keeps its other fields. */
  method CreateCheckpointConnections(trig: Trig, cps: seq<CheckpointNode>, maxDistance: real)
    modifies set i | 0 <= i < |cps| :: cps[i]
    ensures ChainedUpTo(trig, cps, ChainLength(cps))
    ensures forall n :: n in cps && LastIndexBelow(cps, n, ChainLength(cps)).None? ==> KeepsHeadings(n)
    ensures forall n :: n in cps ==> n.potentialField == old(n.potentialField)
  {
    ClearConnections(cps);
    label Cleared:
    LinkChain(trig, cps);
    forall n | n in cps
      ensures LastIndexBelow(cps, n, ChainLength(cps)).None? ==> KeepsHeadings(n)
      ensures n.potentialField == old(n.potentialField)
    {
      assert old@Cleared(n.potentialField) == old(n.potentialField);
      assert old@Cleared(n.transitionType) == old(n.transitionType);
      assert old@Cleared(n.approachAngle) == old(n.approachAngle);
      assert old@Cleared(n.exitAngle) == old(n.exitAngle);
    }
  }

  /** The first loop: every node loses its connections; nothing else
      changes. */
  method ClearConnections(cps: seq<CheckpointNode>)
    modifies set i | 0 <= i < |cps| :: cps[i]
    ensures forall n :: n in cps ==> n.connections == []
    ensures forall n :: n in cps ==> KeepsHeadings(n) && n.potentialField == old(n.potentialField)
  {
    var i := 0;
    while i < |cps|
      invariant 0 <= i <= |cps|
      invariant forall n :: n in cps ==> KeepsHeadings(n) && n.potentialField == old(n.potentialField)
      invariant forall k :: 0 <= k < i ==> cps[k].connections == []
    {
      cps[i].connections := [];
      i := i + 1;
    }
  }

  /** The second loop: node i is linked to node i+1 for every i below the
      chain length, starting from nodes without connections. */
  method LinkChain(trig: Trig, cps: seq<CheckpointNode>)
    requires forall n :: n in cps ==> n.connections == []
    modifies set i | 0 <= i < |cps| :: cps[i]
    ensures ChainedUpTo(trig, cps, ChainLength(cps))
    ensures forall n :: n in cps && LastIndexBelow(cps, n, ChainLength(cps)).None? ==> KeepsHeadings(n)
    ensures forall n :: n in cps ==> n.potentialField == old(n.potentialField)
  {
    var i := 0;
    while i < ChainLength(cps)
      invariant 0 <= i <= ChainLength(cps)
      invariant ChainedUpTo(trig, cps, i)
      invariant forall n :: n in cps && LastIndexBelow(cps, n, i).None? ==> KeepsHeadings(n)
      invariant forall n :: n in cps ==> n.potentialField == old(n.potentialField)
    {
      ChainStep(trig, cps, i);
      forall n | n in cps && LastIndexBelow(cps, n, i + 1).None?
        ensures KeepsHeadings(n)
      {
        ChainStepOther(trig, cps, n, i);
      }
      i := i + 1;
    }
  }

  /** One pass of the chaining loop: links node i to node i+1, storing
      the turn type and the headings on node i. */
  method ChainStep(trig: Trig, cps: seq<CheckpointNode>, i: int)
    requires 0 <= i < ChainLength(cps)
    requires ChainedUpTo(trig, cps, i)
    modifies cps[i]
    ensures ChainedUpTo(trig, cps, i + 1)
    ensures cps[i].potentialField == old(cps[i].potentialField)
  {
    var current := cps[i];
    var next := cps[i + 1];
    var transitionType := current.CalculateTransitionType(next);
    var approachAngle := ApproachAngle(trig, current, next);
    var exitAngle := ExitAngle(trig, current, next);
    label Before:
    current.transitionType := transitionType;
    current.approachAngle := approachAngle;
    current.exitAngle := exitAngle;
    current.connections := [next];
    assert LinkedTo(trig, current, next);
    ChainStepSelf(trig, cps, i);
    forall n | n in cps
      ensures NodeChained(trig, cps, n, i + 1)
    {
      if n != current {
        assert old@Before(NodeChained(trig, cps, n, i));
        ChainStepOther(trig, cps, n, i);
      }
    }
  }

  /** For a list without repetitions the chain is exactly the list: node i
      is linked to node i+1 and the last node has no connections. */
  lemma ChainOfDistinctList(trig: Trig, cps: seq<CheckpointNode>)
    requires DistinctNodes(cps) && |cps| > 0
    requires ChainedUpTo(trig, cps, ChainLength(cps))
    ensures forall i :: 0 <= i < |cps| - 1 ==> LinkedTo(trig, cps[i], cps[i + 1])
    ensures cps[|cps| - 1].connections == []
  {
    forall i | 0 <= i < |cps| - 1
      ensures LinkedTo(trig, cps[i], cps[i + 1])
    {
      LastIndexOfDistinct(cps, i, ChainLength(cps));
      assert cps[i] in cps;
    }
    LastIndexOfDistinct(cps, |cps| - 1, ChainLength(cps));
    assert cps[|cps| - 1] in cps;
  }

  // -----------------------------------------------------------------------
  // The forward walk

  /** One entry of a planned path: a checkpoint node itself, or a synthetic
      copy of `of` (same id, attitude and potential field) placed at
      `position`. */
  datatype Waypoint = Real(node: CheckpointNode) | Synthetic(of: CheckpointNode, position: Vec3)

  function IdKey(n: CheckpointNode): real
  {
    n.id as real
  }

  /** The first position holding a node with the given id. */
  function FirstIndexWithId(s: seq<CheckpointNode>, id: int): (r: Option<int>)
    ensures r.Some? ==> 0 <= r.value < |s| && s[r.value].id == id
    ensures r.Some? ==> forall k :: 0 <= k < r.value ==> s[k].id != id
    ensures r.None? ==> forall k :: 0 <= k < |s| ==> s[k].id != id
  {
    if s == [] then None
    else if s[0].id == id then Some(0)
    else match FirstIndexWithId(s[1..], id)
      case None => None
      case Some(k) => Some(k + 1)
  }

  /** Sorting keeps every id that was present. */
  lemma SortKeepsIds(all: seq<CheckpointNode>, id: int)
    requires FirstIndexWithId(all, id).Some?
    ensures FirstIndexWithId(SortBy(all, IdKey), id).Some?
  {
    var k := FirstIndexWithId(all, id).value;
    SortByCorrect(all, IdKey);
    assert all[k] in multiset(SortBy(all, IdKey));
  }

  /** The look-ahead node of step i: the node two ahead, unless that lies
      past the goal. */
  function LookAhead(sorted: seq<CheckpointNode>, i: int, goal: int): Option<Vec3>
    requires 0 <= i && goal < |sorted|
  {
    if i + 2 <= goal then Some(sorted[i + 2].position) else None
  }

  /** How the walk places the waypoint for the next node, given the
      current position, the next position and the look-ahead position. */
  type WaypointRule = (Vec3, Vec3, Option<Vec3>) -> Vec3

  /** The planner's rule: the intermediate point. */
  function PlannerRule(trig: Trig): WaypointRule
  {
    (current, next, lookAhead) => IntermediatePoint(trig, current, next, lookAhead)
  }

  /** Without a look-ahead node the waypoint is the next node's position. */
  ghost predicate KeepsNextWithoutLookAhead(rule: WaypointRule)
  {
    forall current, next :: rule(current, next, None) == next
  }

  lemma PlannerRuleKeepsNext(trig: Trig)
    ensures KeepsNextWithoutLookAhead(PlannerRule(trig))
  {
    forall current, next
      ensures PlannerRule(trig)(current, next, None) == next
    {
      IntermediatePointKeeps(trig, current, next, None);
    }
  }

  /** What step i of the walk appends: the node itself, then, when the
      next node's waypoint differs from its position, a synthetic copy of
      the next node at that waypoint. */
  function Block(rule: WaypointRule, sorted: seq<CheckpointNode>, i: int, goal: int): seq<Waypoint>
    requires 0 <= i <= goal < |sorted|
  {
    if i + 1 <= goal then
      var p := rule(sorted[i].position, sorted[i + 1].position, LookAhead(sorted, i, goal));
      if p != sorted[i + 1].position then [Real(sorted[i]), Synthetic(sorted[i + 1], p)] else [Real(sorted[i])]
    else [Real(sorted[i])]
  }

  /** The blocks the walk from `startIdx` has appended once it reaches
      `currentIdx`: one block per index, in the loop's order. */
  function WalkPrefix(rule: WaypointRule, sorted: seq<CheckpointNode>, startIdx: int, currentIdx: int, goal: int): seq<Waypoint>
    requires 0 <= startIdx && goal < |sorted|
    requires currentIdx <= startIdx || currentIdx <= goal + 1
    decreases currentIdx - startIdx
  {
    if currentIdx <= startIdx then []
    else WalkPrefix(rule, sorted, startIdx, currentIdx - 1, goal) + Block(rule, sorted, currentIdx - 1, goal)
  }

  /** The path the walk builds from index i to index `goal` of the sorted
      list: the blocks of every index from i through `goal`. */
  function Steps(rule: WaypointRule, sorted: seq<CheckpointNode>, i: int, goal: int): seq<Waypoint>
    requires 0 <= i && goal < |sorted|
  {
    WalkPrefix(rule, sorted, i, goal + 1, goal)
  }

  /** `n` is the object the waypoint stands for: the node itself, or a
      freshly built node with the copied id, attitude and field, the
      waypoint's position and default link fields. */
  ghost predicate Represents(n: CheckpointNode, w: Waypoint)
    reads n, if w.Synthetic? then {w.of} else {}
  {
    match w
    case Real(m) => n == m
    case Synthetic(of, p) =>
      && n.id == of.id && n.position == p && n.orientation == of.orientation
      && n.potentialField == of.potentialField
      && n.connections == [] && n.transitionType == Straight
      && n.approachAngle == 0.0 && n.exitAngle == 0.0
  }

  /** `path` stands, entry by entry, for the waypoints `ws`. */
  ghost predicate Matches(path: seq<CheckpointNode>, ws: seq<Waypoint>)
    reads set k | 0 <= k < |path| :: path[k]
    reads set k | 0 <= k < |ws| && ws[k].Synthetic? :: ws[k].of
  {
    |path| == |ws| && forall k :: 0 <= k < |ws| ==> Represents(path[k], ws[k])
  }

  lemma MatchesConcat(a: seq<CheckpointNode>, x: seq<Waypoint>, b: seq<CheckpointNode>, y: seq<Waypoint>)
    requires Matches(a, x) && Matches(b, y)
    ensures Matches(a + b, x + y)
  {
    forall k | 0 <= k < |x + y|
      ensures Represents((a + b)[k], (x + y)[k])
    {
      if k < |x| {
        assert (a + b)[k] == a[k] && (x + y)[k] == x[k];
      } else {
        assert (a + b)[k] == b[k - |x|] && (x + y)[k] == y[k - |x|];
      }
    }
  }

  /** Every synthetic entry of the walk is a node other than the given
      ones: the planner never hands back a stored node in place of a
      waypoint it built. */
  predicate SyntheticAreNew(path: seq<CheckpointNode>, ws: seq<Waypoint>, nodes: seq<CheckpointNode>)
  {
    forall k :: 0 <= k < |path| && k < |ws| && ws[k].Synthetic? ==> path[k] !in nodes
  }

  lemma SyntheticAreNewConcat(a: seq<CheckpointNode>, x: seq<Waypoint>, b: seq<CheckpointNode>, y: seq<Waypoint>,
                              nodes: seq<CheckpointNode>)
    requires |a| == |x| && |b| == |y|
    requires SyntheticAreNew(a, x, nodes) && SyntheticAreNew(b, y, nodes)
    ensures SyntheticAreNew(a + b, x + y, nodes)
  {
    forall k | 0 <= k < |a + b| && k < |x + y| && (x + y)[k].Synthetic?
      ensures (a + b)[k] !in nodes
    {
      if k < |x| {
        assert (a + b)[k] == a[k] && (x + y)[k] == x[k];
      } else {
        assert (a + b)[k] == b[k - |x|] && (x + y)[k] == y[k - |x|];
      }
    }
  }

  /** The nodes one pass of the walk's loop body appends: the node at
      `currentIdx`, then a new node at the waypoint for the next node when
      that waypoint differs from the next node's position. */
  method BlockNodes(trig: Trig, sorted: seq<CheckpointNode>, currentIdx: int, goalIdx: int)
    returns (appended: seq<CheckpointNode>)
    requires 0 <= currentIdx <= goalIdx < |sorted|
    ensures Matches(appended, Block(PlannerRule(trig), sorted, currentIdx, goalIdx))
    ensures SyntheticAreNew(appended, Block(PlannerRule(trig), sorted, currentIdx, goalIdx), sorted)
  {
    var current := sorted[currentIdx];
    appended := [current];
    if currentIdx + 1 <= goalIdx {
      var next := sorted[currentIdx + 1];
      var nextNext: Option<CheckpointNode> := if currentIdx + 2 <= goalIdx then Some(sorted[currentIdx + 2]) else None;
      var optimal := CalculateOptimalIntermediatePoint(trig, current, next, nextNext);
      assert optimal == PlannerRule(trig)(current.position, next.position, LookAhead(sorted, currentIdx, goalIdx));
      if optimal != next.position {
        var intermediate := new CheckpointNode(next.id, optimal, next.orientation);
        intermediate.potentialField := next.potentialField;
        appended := appended + [intermediate];
      }
    }
  }

  /** One pass of the walk's loop body: extends `path`, which stands for
      `done`, by the nodes of block `currentIdx`. */
  method WalkStep(trig: Trig, sorted: seq<CheckpointNode>, currentIdx: int, goalIdx: int,
                  path: seq<CheckpointNode>, ghost done: seq<Waypoint>)
    returns (extended: seq<CheckpointNode>)
    requires 0 <= currentIdx <= goalIdx < |sorted|
    requires Matches(path, done) && SyntheticAreNew(path, done, sorted)
    ensures Matches(extended, done + Block(PlannerRule(trig), sorted, currentIdx, goalIdx))
    ensures SyntheticAreNew(extended, done + Block(PlannerRule(trig), sorted, currentIdx, goalIdx), sorted)
  {
    var appended := BlockNodes(trig, sorted, currentIdx, goalIdx);
    ghost var block := Block(PlannerRule(trig), sorted, currentIdx, goalIdx);
    MatchesConcat(path, done, appended, block);
    SyntheticAreNewConcat(path, done, appended, block, sorted);
    extended := path + appended;
  }

  /** The walk over the id-sorted nodes from `startIdx` to `goalIdx`, one
      block per index. */
  method Walk(trig: Trig, sorted: seq<CheckpointNode>, startIdx: int, goalIdx: int)
    returns (path: seq<CheckpointNode>)
    requires 0 <= startIdx && goalIdx < |sorted|
    ensures Matches(path, Steps(PlannerRule(trig), sorted, startIdx, goalIdx))
    ensures SyntheticAreNew(path, Steps(PlannerRule(trig), sorted, startIdx, goalIdx), sorted)
  {
    path := [];
    var currentIdx := startIdx;
    while currentIdx <= goalIdx
      invariant startIdx <= currentIdx && (currentIdx == startIdx || currentIdx <= goalIdx + 1)
      invariant Matches(path, WalkPrefix(PlannerRule(trig), sorted, startIdx, currentIdx, goalIdx))
      invariant SyntheticAreNew(path, WalkPrefix(PlannerRule(trig), sorted, startIdx, currentIdx, goalIdx), sorted)
      decreases goalIdx - currentIdx + 1
    {
      path := WalkStep(trig, sorted, currentIdx, goalIdx, path, WalkPrefix(PlannerRule(trig), sorted, startIdx, currentIdx, goalIdx));
      currentIdx := currentIdx + 1;
    }
    assert currentIdx == startIdx ==> WalkPrefix(PlannerRule(trig), sorted, startIdx, goalIdx + 1, goalIdx) == [];
  }

  /** The walk from the start index to the goal index of the id-sorted
      nodes. Both ids must be present (the host raises otherwise). */
  method AStarPathfinding(trig: Trig, start: CheckpointNode, goal: CheckpointNode, all: seq<CheckpointNode>)
    returns (path: seq<CheckpointNode>)
    requires FirstIndexWithId(all, start.id).Some? && FirstIndexWithId(all, goal.id).Some?
    ensures FirstIndexWithId(SortBy(all, IdKey), start.id).Some?
    ensures FirstIndexWithId(SortBy(all, IdKey), goal.id).Some?
    ensures var ws := Steps(PlannerRule(trig), SortBy(all, IdKey),
                            FirstIndexWithId(SortBy(all, IdKey), start.id).value,
                            FirstIndexWithId(SortBy(all, IdKey), goal.id).value);
      && Matches(path, ws)
      && SyntheticAreNew(path, ws, all)
  {
    var sorted := SortBy(all, IdKey);
    SortKeepsIds(all, start.id);
    SortKeepsIds(all, goal.id);
    var startIdx := FirstIndexWithId(sorted, start.id).value;
    var goalIdx := FirstIndexWithId(sorted, goal.id).value;
    path := Walk(trig, sorted, startIdx, goalIdx);
    SortByCorrect(all, IdKey);
    assert forall n :: n in all ==> n in sorted by {
      forall n | n in all ensures n in sorted {
        assert n in multiset(all);
      }
    }
  }

  /** Looks both ids up in the given list, chains the list, and walks from
      the start to the goal. None when either id is missing (nothing is
      changed then) or when the walk comes back empty, which happens
      exactly when the goal sorts before the start. Otherwise potential
      fields are untouched and nodes the chain does not start from keep
      their heading fields. */
  method FindPathBetweenCheckpoints(trig: Trig, startId: int, goalId: int, cps: seq<CheckpointNode>)
    returns (r: Option<seq<CheckpointNode>>)
    modifies set i | 0 <= i < |cps| :: cps[i]
    ensures FirstIndexWithId(cps, startId).None? || FirstIndexWithId(cps, goalId).None? ==>
      r.None? && unchanged(set i | 0 <= i < |cps| :: cps[i])
    ensures FirstIndexWithId(cps, startId).Some? && FirstIndexWithId(cps, goalId).Some? ==>
      && ChainedUpTo(trig, cps, ChainLength(cps))
      && FirstIndexWithId(SortBy(cps, IdKey), startId).Some?
      && FirstIndexWithId(SortBy(cps, IdKey), goalId).Some?
      && var si := FirstIndexWithId(SortBy(cps, IdKey), startId).value;
         var gi := FirstIndexWithId(SortBy(cps, IdKey), goalId).value;
         && (r.None? <==> gi < si)
         && (r.Some? ==> Matches(r.value, Steps(PlannerRule(trig), SortBy(cps, IdKey), si, gi)))
         && (r.Some? ==> SyntheticAreNew(r.value, Steps(PlannerRule(trig), SortBy(cps, IdKey), si, gi), cps))
    ensures FirstIndexWithId(cps, startId).Some? && FirstIndexWithId(cps, goalId).Some? ==>
      forall n :: n in cps ==> n.potentialField == old(n.potentialField)
    ensures FirstIndexWithId(cps, startId).Some? && FirstIndexWithId(cps, goalId).Some? ==>
      forall n :: n in cps && LastIndexBelow(cps, n, ChainLength(cps)).None? ==> KeepsHeadings(n)
  {
    var s := FirstIndexWithId(cps, startId);
    var g := FirstIndexWithId(cps, goalId);
    if s.None? || g.None? {
      return None;
    }
    var start := cps[s.value];
    var goal := cps[g.value];
    CreateCheckpointConnections(trig, cps, 10.0);
    var path := AStarPathfinding(trig, start, goal, cps);
    ghost var sorted := SortBy(cps, IdKey);
    StepsShape(PlannerRule(trig), sorted, FirstIndexWithId(sorted, startId).value, FirstIndexWithId(sorted, goalId).value);
    if path == [] {
      return None;
    }
    return Some(path);
  }

  // -----------------------------------------------------------------------
  // Properties of the walk

  /** The real checkpoints of a path, synthetic waypoints dropped. */
  function RealNodes(ws: seq<Waypoint>): seq<CheckpointNode>
  {
    if ws == [] then [] else (if ws[0].Real? then [ws[0].node] else []) + RealNodes(ws[1..])
  }

  function SyntheticCount(ws: seq<Waypoint>): nat
  {
    if ws == [] then 0 else (if ws[0].Synthetic? then 1 else 0) + SyntheticCount(ws[1..])
  }

  lemma {:induction false} RealNodesConcat(a: seq<Waypoint>, b: seq<Waypoint>)
    ensures RealNodes(a + b) == RealNodes(a) + RealNodes(b)
  {
    if a == [] {
      assert a + b == b;
    } else {
      assert (a + b)[0] == a[0];
      assert (a + b)[1..] == a[1..] + b;
      RealNodesConcat(a[1..], b);
    }
  }

  lemma {:induction false} SyntheticCountConcat(a: seq<Waypoint>, b: seq<Waypoint>)
    ensures SyntheticCount(a + b) == SyntheticCount(a) + SyntheticCount(b)
  {
    if a == [] {
      assert a + b == b;
    } else {
      assert (a + b)[0] == a[0];
      assert (a + b)[1..] == a[1..] + b;
      SyntheticCountConcat(a[1..], b);
    }
  }

  /** One step contributes its own node and at most one synthetic
      waypoint, a copy of the next node; with a rule that keeps the next
      node when there is no look-ahead, none at the second-last index. */
  lemma BlockContents(rule: WaypointRule, sorted: seq<CheckpointNode>, i: int, goal: int)
    requires 0 <= i <= goal < |sorted|
    ensures var b := Block(rule, sorted, i, goal);
      && RealNodes(b) == [sorted[i]]
      && SyntheticCount(b) == (if |b| == 2 then 1 else 0)
      && (|b| == 1 || |b| == 2) && b[0] == Real(sorted[i])
      && (|b| == 2 ==> i + 1 <= goal && b[1].Synthetic? && b[1].of == sorted[i + 1])
      && (|b| == 2 && KeepsNextWithoutLookAhead(rule) ==> i + 2 <= goal)
  {
    var b := Block(rule, sorted, i, goal);
    if |b| == 2 {
      assert b[1..] == [b[1]] && b[1..][1..] == [];
      assert RealNodes([b[1]]) == [];
      assert SyntheticCount([b[1]]) == 1;
    } else {
      assert b[1..] == [];
    }
  }

  /** A walk that has appended at least one block begins with the start
      node. */
  lemma {:induction false} PrefixStartsAt(rule: WaypointRule, sorted: seq<CheckpointNode>, s: int, c: int, goal: int)
    requires 0 <= s < c <= goal + 1 && goal < |sorted|
    ensures |WalkPrefix(rule, sorted, s, c, goal)| > 0
    ensures WalkPrefix(rule, sorted, s, c, goal)[0] == Real(sorted[s])
    decreases c - s
  {
    BlockContents(rule, sorted, c - 1, goal);
    if c - 1 > s {
      PrefixStartsAt(rule, sorted, s, c - 1, goal);
    } else {
      assert WalkPrefix(rule, sorted, s, c - 1, goal) == [];
    }
  }

  /** The walk is empty exactly when the goal index lies before the start
      index; otherwise it begins with the start node and ends with the
      goal node, and from a node to itself it is that node alone. */
  lemma StepsShape(rule: WaypointRule, sorted: seq<CheckpointNode>, i: int, goal: int)
    requires 0 <= i && goal < |sorted|
    ensures Steps(rule, sorted, i, goal) == [] <==> i > goal
    ensures i <= goal ==> Steps(rule, sorted, i, goal)[0] == Real(sorted[i])
    ensures i <= goal ==>
      Steps(rule, sorted, i, goal)[|Steps(rule, sorted, i, goal)| - 1] == Real(sorted[goal])
    ensures i == goal ==> Steps(rule, sorted, i, goal) == [Real(sorted[i])]
  {
    if i <= goal {
      PrefixStartsAt(rule, sorted, i, goal + 1, goal);
      BlockContents(rule, sorted, goal, goal);
      if i == goal {
        assert WalkPrefix(rule, sorted, i, goal, goal) == [];
      }
    }
  }

  /** The real nodes of the blocks appended so far are the sorted nodes
      from the start index up to the current one. */
  lemma {:induction false} PrefixRealNodes(rule: WaypointRule, sorted: seq<CheckpointNode>, s: int, c: int, goal: int)
    requires 0 <= s <= c <= goal + 1 && goal < |sorted|
    ensures RealNodes(WalkPrefix(rule, sorted, s, c, goal)) == sorted[s..c]
    decreases c - s
  {
    if c > s {
      PrefixRealNodes(rule, sorted, s, c - 1, goal);
      BlockContents(rule, sorted, c - 1, goal);
      RealNodesSnoc(WalkPrefix(rule, sorted, s, c - 1, goal), Block(rule, sorted, c - 1, goal), sorted[s..c - 1], sorted[c - 1]);
      SliceSnoc(sorted, s, c);
    }
  }

  lemma SliceSnoc<T>(xs: seq<T>, s: int, c: int)
    requires 0 <= s < c <= |xs|
    ensures xs[s..c] == xs[s..c - 1] + [xs[c - 1]]
  {
  }

  lemma RealNodesSnoc(ws: seq<Waypoint>, b: seq<Waypoint>, nodes: seq<CheckpointNode>, n: CheckpointNode)
    requires RealNodes(ws) == nodes && RealNodes(b) == [n]
    ensures RealNodes(ws + b) == nodes + [n]
  {
    RealNodesConcat(ws, b);
  }

  /** Dropping the synthetic waypoints leaves exactly the sorted nodes from
      the start index to the goal index. */
  lemma StepsRealNodes(rule: WaypointRule, sorted: seq<CheckpointNode>, i: int, goal: int)
    requires 0 <= i <= goal + 1 && goal < |sorted|
    ensures RealNodes(Steps(rule, sorted, i, goal)) == sorted[i..goal + 1]
  {
    PrefixRealNodes(rule, sorted, i, goal + 1, goal);
  }

  /** In the blocks appended so far, a synthetic waypoint is followed by
      the real node it copies, or it is the last entry and copies the node
      at the current index, whose block comes next. */
  lemma {:induction false} PrefixSyntheticFollowed(rule: WaypointRule, sorted: seq<CheckpointNode>, s: int, c: int, goal: int, k: int)
    requires 0 <= s <= c <= goal + 1 && goal < |sorted|
    requires 0 <= k < |WalkPrefix(rule, sorted, s, c, goal)| && WalkPrefix(rule, sorted, s, c, goal)[k].Synthetic?
    ensures var ws := WalkPrefix(rule, sorted, s, c, goal);
      || (k + 1 < |ws| && ws[k + 1] == Real(ws[k].of))
      || (k + 1 == |ws| && c <= goal && ws[k].of == sorted[c])
    decreases c - s
  {
    var ws := WalkPrefix(rule, sorted, s, c, goal);
    assert c > s;
    var prev := WalkPrefix(rule, sorted, s, c - 1, goal);
    var b := Block(rule, sorted, c - 1, goal);
    assert ws == prev + b;
    BlockContents(rule, sorted, c - 1, goal);
    if k < |prev| {
      assert ws[k] == prev[k];
      PrefixSyntheticFollowed(rule, sorted, s, c - 1, goal, k);
      if k + 1 < |prev| {
        assert ws[k + 1] == prev[k + 1];
      } else {
        assert ws[k + 1] == b[0];
      }
    } else {
      assert ws[k] == b[k - |prev|];
    }
  }

  /** Every synthetic waypoint is immediately followed by the real node
      whose id it copies. */
  lemma StepsSyntheticFollowed(rule: WaypointRule, sorted: seq<CheckpointNode>, i: int, goal: int, k: int)
    requires 0 <= i && goal < |sorted|
    requires 0 <= k < |Steps(rule, sorted, i, goal)| && Steps(rule, sorted, i, goal)[k].Synthetic?
    ensures k + 1 < |Steps(rule, sorted, i, goal)|
    ensures Steps(rule, sorted, i, goal)[k + 1] == Real(Steps(rule, sorted, i, goal)[k].of)
  {
    assert i <= goal;
    PrefixSyntheticFollowed(rule, sorted, i, goal + 1, goal, k);
  }

  /** Block j can hold a synthetic waypoint only when j + 2 <= goal, so the
      blocks appended so far hold at most that many. */
  lemma {:induction false} PrefixSyntheticCount(rule: WaypointRule, sorted: seq<CheckpointNode>, s: int, c: int, goal: int)
    requires 0 <= s <= c <= goal + 1 && goal < |sorted|
    requires KeepsNextWithoutLookAhead(rule)
    ensures SyntheticCount(WalkPrefix(rule, sorted, s, c, goal))
            <= if c <= goal - 1 then c - s else if goal - 1 - s > 0 then goal - 1 - s else 0
    decreases c - s
  {
    if c > s {
      PrefixSyntheticCount(rule, sorted, s, c - 1, goal);
      BlockContents(rule, sorted, c - 1, goal);
      SyntheticCountConcat(WalkPrefix(rule, sorted, s, c - 1, goal), Block(rule, sorted, c - 1, goal));
    }
  }

  /** No synthetic waypoint precedes the start or the goal, so a walk over
      n + 1 nodes carries at most n - 1 of them. */
  lemma StepsSyntheticCount(rule: WaypointRule, sorted: seq<CheckpointNode>, i: int, goal: int)
    requires 0 <= i && goal < |sorted|
    requires KeepsNextWithoutLookAhead(rule)
    ensures SyntheticCount(Steps(rule, sorted, i, goal)) <= if goal - i - 1 > 0 then goal - i - 1 else 0
  {
    if i <= goal + 1 {
      PrefixSyntheticCount(rule, sorted, i, goal + 1, goal);
    }
  }

  /** The real nodes of a planned path come in ascending id order. */
  lemma PathInIdOrder(rule: WaypointRule, all: seq<CheckpointNode>, i: int, goal: int)
    requires 0 <= i <= goal < |all|
    ensures SortedBy(RealNodes(Steps(rule, SortBy(all, IdKey), i, goal)), IdKey)
  {
    var sorted := SortBy(all, IdKey);
    SortByCorrect(all, IdKey);
    StepsRealNodes(rule, sorted, i, goal);
    var slice := sorted[i..goal + 1];
    forall a, b | 0 <= a < b < |slice|
      ensures IdKey(slice[a]) <= IdKey(slice[b])
    {
      assert slice[a] == sorted[i + a] && slice[b] == sorted[i + b];
    }
  }
}
