/** Points and triangles of a mesh (the `Face` record of Shape.h), with the
    squared Euclidean distance standing in for `eucDistance`.

    Coordinates are `real`: single-precision rounding is not modelled. */
module Geometry {

  datatype Point = Point(x: real, y: real, z: real)

  /** A triangle: three vertices, shared with the mesh. */
  datatype Face = Face(a: Point, b: Point, c: Point)

  /** Square of the Euclidean distance. Comparing squares instead of roots is
      exact because every distance and radius involved is non-negative. */
  function DistSq(p: Point, q: Point): (d: real)
    ensures d >= 0.0
  {
    (p.x - q.x) * (p.x - q.x) + (p.y - q.y) * (p.y - q.y) + (p.z - q.z) * (p.z - q.z)
  }

  /** A point is at distance zero from itself. */
  lemma DistSqSelf(p: Point)
    ensures DistSq(p, p) == 0.0
  {
  }

  lemma DistSqSymmetric(p: Point, q: Point)
    ensures DistSq(p, q) == DistSq(q, p)
  {
  }

  /** `y + (z - y) / 2`, the seed centre of the bounding sphere. */
  function Midpoint(y: Point, z: Point): Point
  {
    Point(y.x + (z.x - y.x) / 2.0, y.y + (z.y - y.y) / 2.0, y.z + (z.z - y.z) / 2.0)
  }

  /** The midpoint is half-way: its squared distance to either end is a
      quarter of theirs. */
  lemma MidpointHalfway(y: Point, z: Point)
    ensures DistSq(Midpoint(y, z), y) == DistSq(y, z) / 4.0
    ensures DistSq(Midpoint(y, z), z) == DistSq(y, z) / 4.0
  {
  }

  /** Every face has its `a` and `b` vertices at a positive distance. This is
      what makes the farthest-point seeds of the sphere construction exist
      (see SphereFit.SeedsExist); a face whose `a` and `b` coincide can leave
      them unset. */
  predicate NonDegenerate(faces: seq<Face>)
  {
    forall i :: 0 <= i < |faces| ==> DistSq(faces[i].a, faces[i].b) > 0.0
  }

  /** The `a` vertices, in face order. */
  function AVertices(faces: seq<Face>): seq<Point>
  {
    seq(|faces|, i requires 0 <= i < |faces| => faces[i].a)
  }

  /** The `b` vertices, in face order. */
  function BVertices(faces: seq<Face>): seq<Point>
  {
    seq(|faces|, i requires 0 <= i < |faces| => faces[i].b)
  }

  /** The two scans see vertex `a`, respectively `b`, of face `i` at
      position `i`. */
  lemma ScannedVertices(faces: seq<Face>)
    ensures |AVertices(faces)| == |faces| && |BVertices(faces)| == |faces|
    ensures forall i :: 0 <= i < |faces| ==> AVertices(faces)[i] == faces[i].a && BVertices(faces)[i] == faces[i].b
  {
  }

  /** All vertices, three per face. */
  function Vertices(faces: seq<Face>): (ps: seq<Point>)
    ensures |ps| == 3 * |faces|
    ensures forall i :: 0 <= i < |faces| ==>
      faces[i].a in ps && faces[i].b in ps && faces[i].c in ps
  {
    if |faces| == 0 then []
    else
      var rest := Vertices(faces[1..]);
      assert forall i :: 1 <= i < |faces| ==> faces[i] == faces[1..][i - 1];
      [faces[0].a, faces[0].b, faces[0].c] + rest
  }
}
