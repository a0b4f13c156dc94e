/** The bounding-sphere loop of the OctreeNode constructor (OctreeNode.cpp),
    an approximation of Ritter's algorithm:

      1. pick a random face and take its `a` vertex `x`;
      2. `y` := the `b` vertex farthest from `x`, `z` := the `a` vertex
         farthest from `y` (both scans keep the FIRST strict maximum above 0);
      3. centre := midpoint of `y` and `z`, radius := half their distance
         times `1 + floor(rIts / 50) * 0.05`;
      4. repeat while some vertex lies outside the sphere.

    Radii are kept squared (`radiusSq`); see Geometry.DistSq. The value of
    `rand()` drawn in iteration `rIts` is the parameter `rand(rIts)`. */
module SphereFit {
  import opened Nullable
  import opened Geometry

  datatype Sphere = Sphere(origin: Point, radiusSq: real)

  /** The scan `for (...) if (d > dMax) { dMax = d; y = p; }` starting from
      `dMax = 0` and no point: the first point of maximal positive distance
      from `x`, or `None` when every point is at distance 0 (the pointer
      stays null). */
  function Farthest(x: Point, pts: seq<Point>): (r: Option<Point>)
    ensures r.None? <==> forall i :: 0 <= i < |pts| ==> DistSq(x, pts[i]) == 0.0
    ensures r.Some? ==> r.value in pts && DistSq(x, r.value) > 0.0
    ensures r.Some? ==> forall i :: 0 <= i < |pts| ==> DistSq(x, pts[i]) <= DistSq(x, r.value)
    ensures r.Some? ==> exists i :: 0 <= i < |pts| && pts[i] == r.value &&
                          forall j :: 0 <= j < i ==> DistSq(x, pts[j]) < DistSq(x, r.value)
  {
    if |pts| == 0 then None
    else
      var init := pts[..|pts| - 1];
      var last := pts[|pts| - 1];
      var prev := Farthest(x, init);
      assert forall i :: 0 <= i < |init| ==> init[i] == pts[i];
      var dMax := if prev.Some? then DistSq(x, prev.value) else 0.0;
      if DistSq(x, last) > dMax then
        Some(last)
      else
        prev
  }

  /** The two seeds `(y, z)` for the start vertex `x`, or `None` when one of
      them stays unset (the program then dereferences a null pointer). */
  function Seeds(faces: seq<Face>, x: Point): Option<(Point, Point)>
  {
    match Farthest(x, BVertices(faces))
    case None => None
    case Some(y) =>
      match Farthest(y, AVertices(faces))
      case None => None
      case Some(z) => Some((y, z))
  }

  /** The seeds of a non-degenerate face list exist for every start vertex the
      loop can pick, and they are two points at a positive distance. */
  lemma SeedsExist(faces: seq<Face>, k: nat)
    requires NonDegenerate(faces) && k < |faces|
    ensures Seeds(faces, faces[k].a).Some?
    ensures DistSq(Seeds(faces, faces[k].a).value.0, Seeds(faces, faces[k].a).value.1) > 0.0
  {
    var x := faces[k].a;
    ScannedVertices(faces);
    var bs, avs := BVertices(faces), AVertices(faces);
    assert DistSq(x, bs[k]) > 0.0;
    var y := Farthest(x, bs).value;
    var j :| 0 <= j < |bs| && bs[j] == y;
    DistSqSymmetric(faces[j].a, faces[j].b);
    assert DistSq(y, avs[j]) > 0.0;
  }

  /** `y` is a `b` vertex at maximal distance from the start vertex and `z`
      an `a` vertex at maximal distance from `y`. */
  lemma SeedsAreFarthest(faces: seq<Face>, x: Point)
    requires Seeds(faces, x).Some?
    ensures var (y, z) := Seeds(faces, x).value;
      && (exists i :: 0 <= i < |faces| && y == faces[i].b)
      && (exists i :: 0 <= i < |faces| && z == faces[i].a)
      && (forall i :: 0 <= i < |faces| ==> DistSq(x, faces[i].b) <= DistSq(x, y))
      && (forall i :: 0 <= i < |faces| ==> DistSq(y, faces[i].a) <= DistSq(y, z))
  {
    ScannedVertices(faces);
    var bs, avs := BVertices(faces), AVertices(faces);
    var y := Farthest(x, bs).value;
    var z := Farthest(y, avs).value;
    var j :| 0 <= j < |bs| && bs[j] == y;
    var i :| 0 <= i < |avs| && avs[i] == z;
  }

  /** When every vertex is the same point, `y` is never set: the loop cannot
      produce a sphere for such a face list. */
  lemma CoincidentSeedsUnset(faces: seq<Face>, p: Point)
    requires forall i :: 0 <= i < |faces| ==> faces[i] == Face(p, p, p)
    ensures Seeds(faces, p) == None
  {
    DistSqSelf(p);
    ScannedVertices(faces);
    var bs := BVertices(faces);
    assert forall i :: 0 <= i < |bs| ==> DistSq(p, bs[i]) == 0.0;
  }

  /** Every vertex of `f` is within the sphere (`eucDistance <= radius`). */
  predicate Within(s: Sphere, f: Face)
  {
    DistSq(s.origin, f.a) <= s.radiusSq && DistSq(s.origin, f.b) <= s.radiusSq
    && DistSq(s.origin, f.c) <= s.radiusSq
  }

  /** The face loop of `allIn`, leaving at the first vertex outside. */
  function AllFacesWithin(faces: seq<Face>, s: Sphere): (r: bool)
    ensures r <==> forall i :: 0 <= i < |faces| ==> Within(s, faces[i])
  {
    if |faces| == 0 then true
    else if !Within(s, faces[0]) then false
    else
      assert forall i :: 1 <= i < |faces| ==> faces[i] == faces[1..][i - 1];
      AllFacesWithin(faces[1..], s)
  }

  /** `allIn`: false for a sphere of radius 0 (in particular for a node whose
      sphere is not computed yet), otherwise whether every vertex of every
      face is inside. */
  function AllIn(faces: seq<Face>, s: Sphere): (r: bool)
    ensures r ==> s.radiusSq > 0.0
    ensures r <==> s.radiusSq > 0.0 && forall i :: 0 <= i < |faces| ==> Within(s, faces[i])
  {
    if s.radiusSq <= 0.0 then false else AllFacesWithin(faces, s)
  }

  /** The growth factor `1.0 + ((rIts / 50) * 0.05)`, with integer division. */
  function Multiplier(rIts: nat): real
  {
    1.0 + ((rIts / 50) as real) * 0.05
  }

  /** The factor starts at 1, never decreases and exceeds any bound. */
  lemma MultiplierGrows(i: nat, j: nat, bound: real)
    requires i <= j
    ensures 1.0 <= Multiplier(i) <= Multiplier(j)
    ensures Multiplier(IterationsFor(bound)) > bound
  {
    assert i / 50 <= j / 50;
    var n := if bound < 1.0 then 0 else (20.0 * bound).Floor + 1;
    assert IterationsFor(bound) / 50 == n;
  }

  /** An iteration count at which the factor exceeds `bound`. */
  function IterationsFor(bound: real): nat
  {
    50 * (if bound < 1.0 then 0 else (20.0 * bound).Floor + 1)
  }

  /** The sphere of one loop iteration: seeds from the start vertex `x`,
      centre `y + (z - y) / 2`, radius `(dist(z, y) / 2) * Multiplier(rIts)`. */
  function Attempt(faces: seq<Face>, k: nat, rIts: nat): (s: Sphere)
    requires NonDegenerate(faces) && k < |faces|
    ensures Seeds(faces, faces[k].a).Some?
    ensures var (y, z) := Seeds(faces, faces[k].a).value;
      s.origin == Midpoint(y, z) && s.radiusSq >= DistSq(y, z) / 4.0 > 0.0
  {
    SeedsExist(faces, k);
    var (y, z) := Seeds(faces, faces[k].a).value;
    DistSqSymmetric(y, z);
    MultiplierGrows(rIts, rIts, 0.0);
    Sphere(Midpoint(y, z), ScaledRadiusSq(DistSq(z, y), Multiplier(rIts)))
  }

  /** The square of `(sqrt(d) / 2) * m`: at least the unscaled `d / 4`. */
  function ScaledRadiusSq(d: real, m: real): (r: real)
    requires d >= 0.0 && m >= 1.0
    ensures r >= d / 4.0
  {
    SquareAtLeast(m);
    ScaleAtLeast(d / 4.0, m * m, 1.0);
    (d / 4.0) * (m * m)
  }

  /** From `CoverIterations(d, bound)` iterations on, the scaled radius
      exceeds `sqrt(bound)`. */
  lemma {:induction false} LateRadiusExceeds(d: real, bound: real, rIts: nat)
    requires d > 0.0 && bound >= 0.0
    requires rIts >= CoverIterations(d, bound)
    ensures Multiplier(rIts) >= 1.0
    ensures ScaledRadiusSq(d, Multiplier(rIts)) > bound
  {
    var w := 4.0 * bound / d;
    var q := rIts / 50;
    assert q >= CountAbove(20.0 * w);
    assert q as real > 20.0 * w;
    var m := Multiplier(rIts);
    assert m > w;
    MultiplierGrows(rIts, rIts, 0.0);
    QuarterOfRatio(d, bound);
    RadiusChain(d / 4.0, m, w, bound);
  }

  /** `c m^2 >= c m > c w = bound` for `m >= 1`. */
  lemma RadiusChain(c: real, m: real, w: real, bound: real)
    requires c > 0.0 && m >= 1.0 && m > w && c * w == bound
    ensures c * (m * m) > bound
  {
    ScaleAbove(c, m, w);
    SquareAtLeast(m);
    ScaleAtLeast(c, m * m, m);
  }

  lemma QuarterOfRatio(d: real, bound: real)
    requires d > 0.0
    ensures (d / 4.0) * (4.0 * bound / d) == bound
  {
  }

  lemma SquareAtLeast(m: real)
    requires m >= 1.0
    ensures m * m >= m
  {
  }

  lemma ScaleAtLeast(c: real, a: real, b: real)
    requires c >= 0.0 && a >= b
    ensures c * a >= c * b
  {
    assert c * a - c * b == c * (a - b);
  }

  lemma ScaleAbove(c: real, a: real, b: real)
    requires c > 0.0 && a > b
    ensures c * a > c * b
  {
    assert c * a - c * b == c * (a - b);
  }

  /** Sum of the squared distances from `o` to the points. */
  function SumDistSq(o: Point, pts: seq<Point>): (s: real)
    ensures s >= 0.0
  {
    if |pts| == 0 then 0.0 else DistSq(o, pts[0]) + SumDistSq(o, pts[1..])
  }

  lemma {:induction false} SumDistSqBounds(o: Point, pts: seq<Point>, p: Point)
    requires p in pts
    ensures DistSq(o, p) <= SumDistSq(o, pts)
  {
    if pts[0] != p {
      assert p in pts[1..];
      SumDistSqBounds(o, pts[1..], p);
    }
  }

  /** An iteration count from which the attempt that starts at face `k`
      covers every vertex: the factor must exceed `4 B / d`, where `d` is the
      squared seed distance and `B` bounds every squared distance from the
      seed centre. */
  function Threshold(faces: seq<Face>, k: nat): nat
    requires NonDegenerate(faces) && k < |faces|
  {
    SeedsExist(faces, k);
    var (y, z) := Seeds(faces, faces[k].a).value;
    CoverIterations(DistSq(y, z), SumDistSq(Midpoint(y, z), Vertices(faces)))
  }

  /** `50 * (floor(20 * 4 B / d) + 1)` iterations: from there on the factor
      exceeds `4 B / d`. */
  function CoverIterations(d: real, bound: real): nat
    requires d > 0.0 && bound >= 0.0
  {
    50 * CountAbove(20.0 * (4.0 * bound / d))
  }

  /** The least count `n` with `n > x` (0 for negative `x`). */
  function CountAbove(x: real): (n: nat)
    ensures n as real > x
    ensures n > 0 ==> (n - 1) as real <= x
    decreases if x < 0.0 then 0 else x.Floor + 1
  {
    if x < 0.0 then 0 else 1 + CountAbove(x - 1.0)
  }

  lemma LateAttemptCovers(faces: seq<Face>, k: nat, rIts: nat)
    requires NonDegenerate(faces) && k < |faces|
    ensures rIts >= Threshold(faces, k) ==> AllIn(faces, Attempt(faces, k, rIts))
  {
    if rIts >= Threshold(faces, k) {
      AttemptCovers(faces, k, rIts);
    }
  }

  lemma AttemptCovers(faces: seq<Face>, k: nat, rIts: nat)
    requires NonDegenerate(faces) && k < |faces|
    requires rIts >= Threshold(faces, k)
    ensures AllIn(faces, Attempt(faces, k, rIts))
  {
    SeedsExist(faces, k);
    var (y, z) := Seeds(faces, faces[k].a).value;
    var o := Midpoint(y, z);
    var bound := SumDistSq(o, Vertices(faces));
    DistSqSymmetric(y, z);
    LateRadiusExceeds(DistSq(z, y), bound, rIts);
    var s := Attempt(faces, k, rIts);
    assert s.radiusSq > bound;
    forall i | 0 <= i < |faces|
      ensures Within(s, faces[i])
    {
      SumDistSqBounds(o, Vertices(faces), faces[i].a);
      SumDistSqBounds(o, Vertices(faces), faces[i].b);
      SumDistSqBounds(o, Vertices(faces), faces[i].c);
    }
  }

  /** The threshold of every face, in face order. */
  function Thresholds(faces: seq<Face>): (ts: seq<nat>)
    requires NonDegenerate(faces)
    ensures |ts| == |faces|
    ensures forall k :: 0 <= k < |faces| ==> ts[k] == Threshold(faces, k)
  {
    seq(|faces|, k requires 0 <= k < |faces| => Threshold(faces, k))
  }

  /** The sum of `ts[0 .. n-1]` (with `n == |ts|`, the sum of `ts`). */
  function Total(ts: seq<nat>, n: nat): nat
    requires n <= |ts|
  {
    if n == 0 then 0 else ts[n - 1] + Total(ts, n - 1)
  }

  /** No single term exceeds the sum. */
  lemma {:induction false} TermBelowTotal(ts: seq<nat>, n: nat, k: nat)
    requires k < n <= |ts|
    ensures ts[k] <= Total(ts, n)
  {
    if k < n - 1 {
      TermBelowTotal(ts, n - 1, k);
    }
  }

  /** Past this many iterations every attempt succeeds, whatever face the
      random draws pick: the loop terminates. */
  function LoopBound(faces: seq<Face>): (n: nat)
    requires NonDegenerate(faces)
  {
    1 + Total(Thresholds(faces), |faces|)
  }

  /** The loop `while (!allIn()) { ... rIts++; }`, entered with `rIts = 1`
      (the node starts with radius 0, so it always runs at least once).
      The result covers every vertex, has a positive radius, and is the
      sphere of some attempt at an iteration not before `rIts`. */
  function SphereLoop(faces: seq<Face>, rand: nat -> nat, rIts: nat): (s: Sphere)
    requires |faces| > 0 && NonDegenerate(faces)
    ensures AllIn(faces, s)
    ensures s.radiusSq > 0.0
    ensures exists k: nat, i: nat :: k < |faces| && rIts <= i && s == Attempt(faces, k, i)
    decreases LoopBound(faces) - rIts
  {
    var k := rand(rIts) % |faces|;
    var s := Attempt(faces, k, rIts);
    if AllIn(faces, s) then
      s
    else
      LateAttemptCovers(faces, k, rIts);
      TermBelowTotal(Thresholds(faces), |faces|, k);
      SphereLoop(faces, rand, rIts + 1)
  }
}
