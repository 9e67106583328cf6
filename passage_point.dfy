/** The passage-point filter: it debounces the stream of lidar-triggered
    passage samples into one representative point per gate.

    A region is anchored at the planar position of the sample that opened
    it. A later sample closer than 2.0 m to the anchor (x and y only) joins
    the region and replaces the region's best sample only when it is
    strictly better on both lidar balance and attitude stability; a sample
    2.0 m or more away opens a new region and is always reported. */
module PassagePoint {
  import opened Common

  datatype Side = Left | Right

  /** Which side triggered, the two lateral lidar ranges in metres, and the
      simulation time of the trigger. */
  datatype PassageInfo = PassageInfo(side: Side, leftLidar: real, rightLidar: real, timestamp: real)

  /** One lidar-triggered sample: the `passage_data` record handed to the
      filter and then to the checkpoint store. */
  datatype PassageSample = PassageSample(
    position: Vec3,
    orientation: Orientation,
    velocity: Vec3,
    info: PassageInfo)

  datatype Planar = Planar(x: real, y: real)

  /** Radius of a region, in metres. */
  const MinDistance: real := 2.0

  function PlanarOf(p: PassageSample): Planar
  {
    Planar(p.position.x, p.position.y)
  }

  function SqPlanarDist(a: Planar, b: Planar): (r: real)
    ensures r >= 0.0
    ensures a == b ==> r == 0.0
  {
    (a.x - b.x) * (a.x - b.x) + (a.y - b.y) * (a.y - b.y)
  }

  /** Region membership: planar distance strictly below `MinDistance`,
      compared squared. The height of the sample plays no part. */
  predicate InRegion(anchor: Planar, p: PassageSample)
  {
    SqPlanarDist(PlanarOf(p), anchor) < MinDistance * MinDistance
  }

  /** `|left - right|`: how far off-centre the vehicle passed. */
  function LidarImbalance(p: PassageSample): (r: real)
    ensures r >= 0.0
  {
    Abs(p.info.leftLidar - p.info.rightLidar)
  }

  /** `|roll| + |pitch|`: how far from level the vehicle was. */
  function Instability(p: PassageSample): (r: real)
    ensures r >= 0.0
  {
    Abs(p.orientation.roll) + Abs(p.orientation.pitch)
  }

  /** The tie-break rule: with no current best any sample is better;
      otherwise a sample is better only when it improves BOTH metrics
      strictly. */
  predicate IsBetterPoint(newPoint: PassageSample, currentBest: Option<PassageSample>)
    ensures currentBest.None? ==> IsBetterPoint(newPoint, currentBest)
    ensures currentBest == Some(newPoint) ==> !IsBetterPoint(newPoint, currentBest)
    ensures IsBetterPoint(newPoint, currentBest) && currentBest.Some? ==>
      LidarImbalance(newPoint) < LidarImbalance(currentBest.value)
  {
    match currentBest
    case None => true
    case Some(best) =>
      LidarImbalance(newPoint) < LidarImbalance(best) && Instability(newPoint) < Instability(best)
  }

  /** The rule is a strict order between samples: asymmetric and
      transitive, so a chain of replacements never comes back to an earlier
      best. */
  lemma BetterIsStrictOrder(a: PassageSample, b: PassageSample, c: PassageSample)
    ensures IsBetterPoint(a, Some(b)) ==> !IsBetterPoint(b, Some(a))
    ensures IsBetterPoint(a, Some(b)) && IsBetterPoint(b, Some(c)) ==> IsBetterPoint(a, Some(c))
  {
  }

  /** A sample that improves only one of the two metrics never replaces
      the best, however large the improvement. */
  lemma SingleMetricNeverReplaces(p: PassageSample, best: PassageSample)
    requires Instability(p) >= Instability(best) || LidarImbalance(p) >= LidarImbalance(best)
    ensures !IsBetterPoint(p, Some(best))
  {
  }

  class PassagePointFilter {
    /** The anchor of the current region; None before the first sample. */
    var lastPoint: Option<Planar>
    /** The best sample of the current region. */
    var bestPoint: Option<PassageSample>
    /** Every sample that fell into the current region, in arrival order. */
    var pointsInRegion: seq<PassageSample>
    /** Number of regions opened after the first one. */
    var currentRegionId: nat

    /** The two states: no region yet (everything empty, counter 0), or
        inside a region whose anchor is its opening sample's planar
        position, all of whose members lie within the region radius, and
        whose best sample is one of its members. */
    ghost predicate Valid()
      reads this
    {
      && (lastPoint.None? <==> bestPoint.None?)
      && (lastPoint.None? ==> pointsInRegion == [] && currentRegionId == 0)
      && (lastPoint.Some? ==>
            && pointsInRegion != []
            && lastPoint.value == PlanarOf(pointsInRegion[0])
            && bestPoint.value in pointsInRegion
            && forall q :: q in pointsInRegion ==> InRegion(lastPoint.value, q))
    }

    constructor ()
      ensures Valid()
      ensures lastPoint == None && bestPoint == None
      ensures pointsInRegion == [] && currentRegionId == 0
    {
      lastPoint := None;
      bestPoint := None;
      pointsInRegion := [];
      currentRegionId := 0;
    }

    /** Feeds one sample to the filter; returns the sample when it is
        (for now) the canonical point of its gate, None otherwise. */
    method AddPoint(p: PassageSample) returns (r: Option<PassageSample>)
      requires Valid()
      modifies this
      ensures Valid()
      ensures r == None || r == Some(p)
      ensures r == Some(p) <==> bestPoint == Some(p) && bestPoint != old(bestPoint)
      ensures currentRegionId >= old(currentRegionId)
      // first sample ever: open the first region, counter stays 0
      ensures old(lastPoint).None? ==>
        && lastPoint == Some(PlanarOf(p)) && bestPoint == Some(p)
        && pointsInRegion == [p] && currentRegionId == old(currentRegionId)
        && r == Some(p)
      // sample inside the current region
      ensures old(lastPoint).Some? && InRegion(old(lastPoint).value, p) ==>
        && lastPoint == old(lastPoint) && currentRegionId == old(currentRegionId)
        && pointsInRegion == old(pointsInRegion) + [p]
        && (if IsBetterPoint(p, old(bestPoint))
            then r == Some(p) && bestPoint == Some(p)
            else r == None && bestPoint == old(bestPoint))
      // sample outside: a new region opens and the sample is reported
      ensures old(lastPoint).Some? && !InRegion(old(lastPoint).value, p) ==>
        && lastPoint == Some(PlanarOf(p)) && bestPoint == Some(p)
        && pointsInRegion == [p] && currentRegionId == old(currentRegionId) + 1
        && r == Some(p)
    {
      var currentPos := PlanarOf(p);
      if lastPoint.None? {
        lastPoint := Some(currentPos);
        bestPoint := Some(p);
        pointsInRegion := [p];
        return Some(p);
      }
      if SqPlanarDist(currentPos, lastPoint.value) < MinDistance * MinDistance {
        pointsInRegion := pointsInRegion + [p];
        if IsBetterPoint(p, bestPoint) {
          bestPoint := Some(p);
          return Some(p);
        }
        return None;
      } else {
        lastPoint := Some(currentPos);
        bestPoint := Some(p);
        pointsInRegion := [p];
        currentRegionId := currentRegionId + 1;
        return Some(p);
      }
    }
  }

  /** Re-adding the current best never re-emits it: a client run of the
      filter over a short stream. */
  method ReAddingBestIsSilent(p: PassageSample) returns (first: Option<PassageSample>, second: Option<PassageSample>)
    ensures first == Some(p)
    ensures second == None
  {
    var f := new PassagePointFilter();
    first := f.AddPoint(p);
    second := f.AddPoint(p);
  }
}
