/** Value types shared by the detection filter, the checkpoint store, the
    planner and the route recorder: optional values, three-component
    vectors, attitudes, and squared Euclidean distances.

    The 2.0 m region radius and the 3.0 m edge radius are comparisons of
    a square root with a constant; the model compares the squared distance
    with the squared constant instead, which is exact over the reals. Where
    the system stores a distance, and for the recorder's 0.05 m movement
    threshold, the square root is a parameter (a total function
    `sqrt: real -> real`), because Dafny has no square root on `real`. */
module Common {

  datatype Option<+T> = None | Some(value: T)

  /** A point or vector in the shared world frame (metres, or metres per
      second for velocities). Python tuples `(x, y, z)` and dictionaries
      `{'x': .., 'y': .., 'z': ..}` both become this. */
  datatype Vec3 = Vec3(x: real, y: real, z: real)

  /** Roll, pitch and yaw in radians, as the inertial unit reports them. */
  datatype Orientation = Orientation(roll: real, pitch: real, yaw: real)

  function Abs(x: real): (r: real)
    ensures r >= 0.0
    ensures r == x || r == -x
  {
    if x < 0.0 then -x else x
  }

  /** Squared three-dimensional distance. */
  function SqDist(a: Vec3, b: Vec3): (r: real)
    ensures r >= 0.0
    ensures a == b ==> r == 0.0
  {
    (a.x - b.x) * (a.x - b.x) + (a.y - b.y) * (a.y - b.y) + (a.z - b.z) * (a.z - b.z)
  }

  /** Predicate stating that `sqrt` behaves as the square root on the
      non-negative reals; lemmas that need concrete distances assume it. */
  ghost predicate IsSquareRoot(sqrt: real -> real)
  {
    forall x: real {:trigger sqrt(x)} :: 0.0 <= x ==> 0.0 <= sqrt(x) && sqrt(x) * sqrt(x) == x
  }

  /** Squaring is strictly increasing on the non-negative reals. */
  lemma SquareStrictlyIncreasing(a: real, b: real)
    requires a > b >= 0.0
    ensures a * a > b * b
  {
    var d, t := a - b, a + b;
    assert d > 0.0 && t > 0.0;
    assert d * t > 0.0;
    assert d * t == a * a - b * b;
  }

  lemma SquareRootOfSquare(sqrt: real -> real, v: real)
    requires IsSquareRoot(sqrt)
    requires 0.0 <= v
    ensures sqrt(v * v) == v
  {
    var s := sqrt(v * v);
    assert 0.0 <= s && s * s == v * v;
    if s > v {
      SquareStrictlyIncreasing(s, v);
    } else if s < v {
      SquareStrictlyIncreasing(v, s);
    }
  }
}
