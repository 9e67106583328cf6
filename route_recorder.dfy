/** The lap recorder: while a lap is being recorded it appends throttled
    telemetry samples to a route, links every two consecutive samples by a
    segment, and notes when each checkpoint was reached.

    A sample is kept when at least 0.1 s have passed since the last kept
    sample, or the vehicle moved at least 0.05 m since then, or a
    checkpoint is active. Distances are square roots of squared
    distances; `sqrt` is the host's square root, held as a constant of the
    recorder. */
module RouteRecording {
  import opened Common

  /** Minimum time between two kept samples, in seconds. */
  const MinRecordInterval: real := 0.1
  /** Movement that forces a sample, in metres. */
  const SignificantChange: real := 0.05

  datatype RoutePoint = RoutePoint(
    timestamp: real,
    position: Vec3,
    orientation: Orientation,
    velocity: Vec3,
    lidarReadings: map<string, real>,
    checkpointId: Option<int>,
    isCheckpoint: bool)

  datatype RouteSegment = RouteSegment(
    startPoint: RoutePoint,
    endPoint: RoutePoint,
    duration: real,
    distance: real,
    avgSpeed: real)

  // -----------------------------------------------------------------------
  // Dictionary form of a route point

  /** The values a serialised route point holds. */
  datatype Value =
    | Number(r: real)
    | Triple(a: real, b: real, c: real)
    | Readings(m: map<string, real>)
    | Integer(i: int)
    | Boolean(flag: bool)
    | Null

  function ToDict(p: RoutePoint): map<string, Value>
  {
    map[
      "timestamp" := Number(p.timestamp),
      "position" := Triple(p.position.x, p.position.y, p.position.z),
      "orientation" := Triple(p.orientation.roll, p.orientation.pitch, p.orientation.yaw),
      "velocity" := Triple(p.velocity.x, p.velocity.y, p.velocity.z),
      "lidar_readings" := Readings(p.lidarReadings),
      "checkpoint_id" := if p.checkpointId.Some? then Integer(p.checkpointId.value) else Null,
      "is_checkpoint" := Boolean(p.isCheckpoint)]
  }

  /** Rebuilds a point. The five measured fields are required: a missing
      one, or one of the wrong shape, fails. `checkpoint_id` defaults to
      none and `is_checkpoint` to false, also when their value has the
      wrong shape. */
  function FromDict(d: map<string, Value>): Option<RoutePoint>
  {
    if "timestamp" !in d || "position" !in d || "orientation" !in d
       || "velocity" !in d || "lidar_readings" !in d then None
    else if !d["timestamp"].Number? || !d["position"].Triple? || !d["orientation"].Triple?
       || !d["velocity"].Triple? || !d["lidar_readings"].Readings? then None
    else
      var pos, ori, vel := d["position"], d["orientation"], d["velocity"];
      var checkpointId := if "checkpoint_id" in d && d["checkpoint_id"].Integer? then Some(d["checkpoint_id"].i) else None;
      var isCheckpoint := if "is_checkpoint" in d && d["is_checkpoint"].Boolean? then d["is_checkpoint"].flag else false;
      Some(RoutePoint(
        d["timestamp"].r,
        Vec3(pos.a, pos.b, pos.c),
        Orientation(ori.a, ori.b, ori.c),
        Vec3(vel.a, vel.b, vel.c),
        d["lidar_readings"].m,
        checkpointId,
        isCheckpoint))
  }

  /** Serialising and reading back gives the same point. */
  lemma DictRoundTrip(p: RoutePoint)
    ensures FromDict(ToDict(p)) == Some(p)
  {
  }

  /** A dictionary without the two optional keys reads as a point that is
      not a checkpoint; one missing a measured key does not read. */
  lemma DictDefaults(p: RoutePoint, key: string)
    ensures var d := map k | k in ToDict(p) && k != "checkpoint_id" && k != "is_checkpoint" :: ToDict(p)[k];
      FromDict(d) == Some(p.(checkpointId := None, isCheckpoint := false))
    ensures key in {"timestamp", "position", "orientation", "velocity", "lidar_readings"} ==>
      FromDict(map k | k in ToDict(p) && k != key :: ToDict(p)[k]) == None
  {
  }

  // -----------------------------------------------------------------------
  // Segments and distances

  /** Euclidean distance; with a genuine square root it is the
      non-negative number whose square is the squared distance. */
  function Distance(a: Vec3, b: Vec3, sqrt: real -> real): (r: real)
    ensures IsSquareRoot(sqrt) ==> r >= 0.0 && r * r == SqDist(a, b)
  {
    sqrt(SqDist(a, b))
  }

  function CreateSegment(start: RoutePoint, end: RoutePoint, sqrt: real -> real): RouteSegment
  {
    var duration := end.timestamp - start.timestamp;
    var distance := Distance(start.position, end.position, sqrt);
    RouteSegment(start, end, duration, distance, if duration > 0.0 then distance / duration else 0.0)
  }

  /** A segment's average speed covers its distance in its duration when
      the duration is positive and is zero otherwise; with a genuine
      square root both distance and speed are non-negative. */
  lemma SegmentSpeed(start: RoutePoint, end: RoutePoint, sqrt: real -> real)
    ensures var s := CreateSegment(start, end, sqrt);
      && s.startPoint == start && s.endPoint == end
      && s.duration == end.timestamp - start.timestamp
      && (s.duration > 0.0 ==> s.avgSpeed * s.duration == s.distance)
      && (s.duration <= 0.0 ==> s.avgSpeed == 0.0)
      && (IsSquareRoot(sqrt) ==> s.distance >= 0.0 && s.avgSpeed >= 0.0)
  {
    var s := CreateSegment(start, end, sqrt);
    assert 0.0 <= SqDist(start.position, end.position);
    if s.duration > 0.0 {
      assert s.avgSpeed * s.duration == (s.distance / s.duration) * s.duration;
    }
  }

  /** Segment k joins points k and k+1 of the route, and there is one
      segment fewer than points (none for an empty route). */
  ghost predicate SegmentsJoin(route: seq<RoutePoint>, segments: seq<RouteSegment>, sqrt: real -> real)
  {
    && |segments| == (if |route| == 0 then 0 else |route| - 1)
    && forall k :: 0 <= k < |segments| ==> segments[k] == CreateSegment(route[k], route[k + 1], sqrt)
  }

  /** The length of the polyline through the route's positions. */
  function PathLength(route: seq<RoutePoint>, sqrt: real -> real): real
  {
    if |route| < 2 then 0.0
    else PathLength(route[..|route| - 1], sqrt) + Distance(route[|route| - 2].position, route[|route| - 1].position, sqrt)
  }

  function SumDistances(segments: seq<RouteSegment>): real
  {
    if segments == [] then 0.0 else SumDistances(segments[..|segments| - 1]) + segments[|segments| - 1].distance
  }

  /** Summing the segments' distances gives the path length. */
  lemma {:induction false} SumOfJoinedSegments(route: seq<RoutePoint>, segments: seq<RouteSegment>, sqrt: real -> real)
    requires SegmentsJoin(route, segments, sqrt)
    ensures SumDistances(segments) == PathLength(route, sqrt)
  {
    if |route| >= 2 {
      var init := route[..|route| - 1];
      var initSegments := segments[..|segments| - 1];
      assert SegmentsJoin(init, initSegments, sqrt) by {
        forall k | 0 <= k < |initSegments|
          ensures initSegments[k] == CreateSegment(init[k], init[k + 1], sqrt)
        {
          assert initSegments[k] == segments[k];
        }
      }
      SumOfJoinedSegments(init, initSegments, sqrt);
      assert segments[|segments| - 1] == CreateSegment(route[|route| - 2], route[|route| - 1], sqrt);
    }
  }

  /** The segment that a point appended to `route` adds: none for the
      first point, else the one from the route's last point. */
  function SegmentInto(route: seq<RoutePoint>, p: RoutePoint, sqrt: real -> real): seq<RouteSegment>
  {
    if route == [] then [] else [CreateSegment(route[|route| - 1], p, sqrt)]
  }

  /** Appending a point and the segment into it keeps the route joined. */
  lemma SegmentsJoinSnoc(route: seq<RoutePoint>, segments: seq<RouteSegment>, p: RoutePoint, sqrt: real -> real)
    requires SegmentsJoin(route, segments, sqrt)
    ensures SegmentsJoin(route + [p], segments + SegmentInto(route, p, sqrt), sqrt)
  {
    var route' := route + [p];
    if |route| > 0 {
      var segments' := segments + [CreateSegment(route[|route| - 1], p, sqrt)];
      forall k | 0 <= k < |segments'|
        ensures segments'[k] == CreateSegment(route'[k], route'[k + 1], sqrt)
      {
        if k < |segments| {
          assert segments'[k] == segments[k];
          assert route'[k] == route[k] && route'[k + 1] == route[k + 1];
        }
      }
    }
  }

  // -----------------------------------------------------------------------
  // Throttling

  /** The decision to keep a sample taken at `time` at `position`. */
  predicate ShouldRecord(lastRecordTime: real, lastPosition: Option<Vec3>, time: real, position: Vec3,
                         checkpoint: Option<int>, sqrt: real -> real)
  {
    || time - lastRecordTime >= MinRecordInterval
    || (lastPosition.Some? && Distance(position, lastPosition.value, sqrt) >= SignificantChange)
    || checkpoint.Some?
  }

  /** With a genuine square root, a sample is kept exactly when 0.1 s have
      passed, or the squared movement is at least 0.05 squared, or a
      checkpoint is active. */
  lemma ShouldRecordIff(lastRecordTime: real, lastPosition: Option<Vec3>, time: real, position: Vec3,
                        checkpoint: Option<int>, sqrt: real -> real)
    requires IsSquareRoot(sqrt)
    ensures ShouldRecord(lastRecordTime, lastPosition, time, position, checkpoint, sqrt) <==>
      || time - lastRecordTime >= MinRecordInterval
      || (lastPosition.Some? && SqDist(position, lastPosition.value) >= SignificantChange * SignificantChange)
      || checkpoint.Some?
  {
    if lastPosition.Some? {
      var d2 := SqDist(position, lastPosition.value);
      var d := sqrt(d2);
      assert 0.0 <= d && d * d == d2;
      if d > SignificantChange {
        SquareStrictlyIncreasing(d, SignificantChange);
      } else if d < SignificantChange {
        SquareStrictlyIncreasing(SignificantChange, d);
      }
    }
  }

  /** Raw lidar values, in millimetres. */
  datatype LidarRaw = LidarRaw(front: real, back: real, left: real, right: real)

  /** The readings in metres, by direction. */
  function LidarInMetres(raw: LidarRaw): (r: map<string, real>)
    ensures r.Keys == {"front", "back", "left", "right"}
    ensures r["front"] * 1000.0 == raw.front && r["back"] * 1000.0 == raw.back
    ensures r["left"] * 1000.0 == raw.left && r["right"] * 1000.0 == raw.right
  {
    map["front" := raw.front / 1000.0, "back" := raw.back / 1000.0,
        "left" := raw.left / 1000.0, "right" := raw.right / 1000.0]
  }

  /** The start of the lap after a sample at `time`: zero means "not yet
      set", and the first sample sets it. */
  function LapStartAfter(lapStartTime: real, time: real): real
  {
    if lapStartTime == 0.0 then time else lapStartTime
  }

  datatype LapStatistics = LapStatistics(
    lapNumber: int,
    totalDistance: real,
    totalDuration: real,
    averageSpeed: real,
    checkpointTimes: map<int, real>,
    numberOfPoints: nat,
    numberOfSegments: nat)

  class RouteRecorder {
    var currentRoute: seq<RoutePoint>
    var routeSegments: seq<RouteSegment>
    var currentLap: int
    var lapStartTime: real
    var checkpointTimes: map<int, real>
    var isRecording: bool
    var lastRecordTime: real
    var lastPosition: Option<Vec3>
    /** The square root the host's maths library provides. */
    const sqrt: real -> real

    /** Consecutive kept points are joined by the segments. */
    ghost predicate Valid()
      reads this
    {
      SegmentsJoin(currentRoute, routeSegments, sqrt)
    }

    constructor (sqrt: real -> real)
      ensures Valid()
      ensures currentRoute == [] && routeSegments == [] && currentLap == 0
      ensures lapStartTime == 0.0 && checkpointTimes == map[] && !isRecording
      ensures lastRecordTime == 0.0 && lastPosition == None
      ensures this.sqrt == sqrt
    {
      currentRoute := [];
      routeSegments := [];
      currentLap := 0;
      lapStartTime := 0.0;
      checkpointTimes := map[];
      isRecording := false;
      lastRecordTime := 0.0;
      lastPosition := None;
      this.sqrt := sqrt;
    }

    /** Starts lap `lapNumber` from a clean slate. */
    method StartRecording(lapNumber: int)
      modifies this
      ensures Valid()
      ensures currentRoute == [] && routeSegments == [] && currentLap == lapNumber
      ensures lapStartTime == 0.0 && checkpointTimes == map[] && isRecording
      ensures lastRecordTime == 0.0 && lastPosition == None
    {
      currentRoute := [];
      routeSegments := [];
      currentLap := lapNumber;
      lapStartTime := 0.0;
      checkpointTimes := map[];
      isRecording := true;
      lastRecordTime := 0.0;
      lastPosition := None;
    }

    /** Ends the lap; does nothing when no lap is being recorded. */
    method StopRecording()
      modifies this
      ensures !isRecording
      ensures currentRoute == old(currentRoute) && routeSegments == old(routeSegments)
      ensures currentLap == old(currentLap) && lapStartTime == old(lapStartTime)
      ensures checkpointTimes == old(checkpointTimes)
      ensures lastRecordTime == old(lastRecordTime) && lastPosition == old(lastPosition)
      ensures !old(isRecording) ==> unchanged(this)
    {
      if !isRecording {
        return;
      }
      isRecording := false;
    }

    /** Appends a kept point and, when it has a predecessor, the segment
        from that predecessor. */
    method Append(point: RoutePoint)
      requires Valid()
      modifies this
      ensures Valid()
      ensures currentRoute == old(currentRoute) + [point]
      ensures routeSegments == old(routeSegments) + SegmentInto(old(currentRoute), point, sqrt)
      ensures currentLap == old(currentLap) && lapStartTime == old(lapStartTime)
      ensures checkpointTimes == old(checkpointTimes) && isRecording == old(isRecording)
      ensures lastRecordTime == old(lastRecordTime) && lastPosition == old(lastPosition)
    {
      SegmentsJoinSnoc(currentRoute, routeSegments, point, sqrt);
      currentRoute := currentRoute + [point];
      if |currentRoute| > 1 {
        var prevPoint := currentRoute[|currentRoute| - 2];
        routeSegments := routeSegments + [CreateSegment(prevPoint, point, sqrt)];
      }
    }

    /** One telemetry sample at simulation time `time`. While no lap is
        being recorded nothing happens. Otherwise the lap start is set on
        the first sample, the active checkpoint's time is overwritten (even
        when the sample is then dropped), and the sample is kept or dropped
        by the throttling rule; a kept sample is appended together with
        the segment from the previous kept sample. */
    method RecordPoint(time: real, position: Vec3, orientation: Orientation, gyro: Vec3,
                       lidar: LidarRaw, checkpoint: Option<int>)
      returns (r: Option<RoutePoint>)
      requires Valid()
      modifies this
      ensures Valid()
      ensures !old(isRecording) ==> r.None? && unchanged(this)
      ensures isRecording == old(isRecording) && currentLap == old(currentLap)
      ensures old(isRecording) ==> lapStartTime == LapStartAfter(old(lapStartTime), time)
      ensures old(isRecording) && checkpoint.Some? ==>
        checkpointTimes == old(checkpointTimes)[checkpoint.value := time - lapStartTime]
      ensures checkpoint.None? ==> checkpointTimes == old(checkpointTimes)
      ensures old(isRecording) ==>
        (r.Some? <==> ShouldRecord(old(lastRecordTime), old(lastPosition), time, position, checkpoint, sqrt))
      ensures r.Some? ==>
        && r.value == RoutePoint(time - lapStartTime, position, orientation, gyro, LidarInMetres(lidar),
                                 checkpoint, checkpoint.Some?)
        && currentRoute == old(currentRoute) + [r.value]
        && routeSegments == old(routeSegments) + SegmentInto(old(currentRoute), r.value, sqrt)
        && lastRecordTime == time && lastPosition == Some(position)
      ensures r.None? ==>
        && currentRoute == old(currentRoute) && routeSegments == old(routeSegments)
        && lastRecordTime == old(lastRecordTime) && lastPosition == old(lastPosition)
    {
      if !isRecording {
        return None;
      }
      if lapStartTime == 0.0 {
        lapStartTime := time;
      }
      var lidarReadings := LidarInMetres(lidar);
      var isCheckpoint := checkpoint.Some?;
      if isCheckpoint {
        checkpointTimes := checkpointTimes[checkpoint.value := time - lapStartTime];
      }
      var moved := lastPosition.Some? && Distance(position, lastPosition.value, sqrt) >= SignificantChange;
      var shouldRecord := time - lastRecordTime >= MinRecordInterval || moved || isCheckpoint;
      if !shouldRecord {
        return None;
      }
      var point := RoutePoint(time - lapStartTime, position, orientation, gyro, lidarReadings, checkpoint, isCheckpoint);
      Append(point);
      lastRecordTime := time;
      lastPosition := Some(position);
      return Some(point);
    }

    /** Summary of the lap so far; none (an empty summary) for an empty
        route. */
    function GetLapStatistics(): Option<LapStatistics>
      reads this
    {
      if currentRoute == [] then None
      else
        var totalDistance := SumDistances(routeSegments);
        var totalDuration := currentRoute[|currentRoute| - 1].timestamp;
        Some(LapStatistics(
          currentLap,
          totalDistance,
          totalDuration,
          if totalDuration > 0.0 then totalDistance / totalDuration else 0.0,
          checkpointTimes,
          |currentRoute|,
          |routeSegments|))
    }

    /** For a recorder whose segments join its points, the summary exists
        exactly for a non-empty route, its total distance is the path
        length, it counts one segment fewer than points, and its duration
        is the last point's time since the lap start. */
    lemma LapStatisticsOfJoinedRoute()
      requires Valid()
      ensures GetLapStatistics().Some? <==> currentRoute != []
      ensures GetLapStatistics().Some? ==>
        var s := GetLapStatistics().value;
        && s.totalDistance == PathLength(currentRoute, sqrt)
        && s.numberOfPoints == |currentRoute|
        && s.numberOfSegments == s.numberOfPoints - 1
        && s.totalDuration == currentRoute[|currentRoute| - 1].timestamp
        && s.lapNumber == currentLap && s.checkpointTimes == checkpointTimes
    {
      SumOfJoinedSegments(currentRoute, routeSegments, sqrt);
    }
  }

  /** While idle the recorder drops every sample; once started, the first
      sample is kept and its time is the lap's origin. */
  method IdleThenRecording(sqrt: real -> real, position: Vec3, orientation: Orientation, gyro: Vec3, lidar: LidarRaw)
    returns (idle: Option<RoutePoint>, first: Option<RoutePoint>, count: nat)
    ensures idle == None
    ensures first.Some? && first.value.timestamp == 0.0 && first.value.position == position
    ensures count == 1
  {
    var recorder := new RouteRecorder(sqrt);
    idle := recorder.RecordPoint(5.0, position, orientation, gyro, lidar, None);
    recorder.StartRecording(1);
    first := recorder.RecordPoint(5.0, position, orientation, gyro, lidar, None);
    count := |recorder.currentRoute|;
  }
}
