/** The axis-aligned bounding box of BoundingBox.h / BoundingBox.cpp.

    A box is given by two corners: `p1`, the left-front-bottom corner, and
    `p2`, the right-back-top corner. The program's z axis points out of the
    screen, so "front" is the LARGER z: a valid box has
    `p1.x < p2.x`, `p1.y < p2.y` and `p1.z > p2.z`. */
module Boxes {
  import opened Nullable
  import opened Geometry

  datatype Box = Box(p1: Point, p2: Point)

  /** The invariant the constructor asserts. */
  predicate Valid(b: Box)
  {
    b.p1.x < b.p2.x && b.p1.y < b.p2.y && b.p1.z > b.p2.z
  }

  /** The constructor: `None` stands for the failed assertion that aborts
      the program. A box is fully determined by its two corners. */
  function Create(leftFrontBottom: Point, rightBackTop: Point): (r: Option<Box>)
    ensures r.Some? <==> Valid(Box(leftFrontBottom, rightBackTop))
    ensures r.Some? ==> r.value.p1 == leftFrontBottom && r.value.p2 == rightBackTop
  {
    var b := Box(leftFrontBottom, rightBackTop);
    if b.p1.x < b.p2.x && b.p1.y < b.p2.y && b.p1.z > b.p2.z then Some(b) else None
  }

  /** `isIn(point)`: inclusive on all six faces, with the z test inverted. */
  predicate Contains(b: Box, p: Point)
  {
    && p.x >= b.p1.x && p.x <= b.p2.x
    && p.y >= b.p1.y && p.y <= b.p2.y
    && p.z <= b.p1.z && p.z >= b.p2.z
  }

  /** The conventional minimum corner of the box. */
  function Lo(b: Box): Point
  {
    Point(b.p1.x, b.p1.y, b.p2.z)
  }

  /** The conventional maximum corner of the box. */
  function Hi(b: Box): Point
  {
    Point(b.p2.x, b.p2.y, b.p1.z)
  }

  /** Componentwise `lo <= p <= hi`. */
  predicate Between(lo: Point, p: Point, hi: Point)
  {
    lo.x <= p.x <= hi.x && lo.y <= p.y <= hi.y && lo.z <= p.z <= hi.z
  }

  /** The inverted-z test agrees with an ordinary min/max box whose corners
      are `Lo` and `Hi`, and validity means `Lo` is strictly below `Hi`. */
  lemma ContainsIsMinMax(b: Box, p: Point)
    ensures Contains(b, p) <==> Between(Lo(b), p, Hi(b))
    ensures Valid(b) <==> Lo(b).x < Hi(b).x && Lo(b).y < Hi(b).y && Lo(b).z < Hi(b).z
  {
  }

  /** `isIn(face)`: a face is in the box when ANY of its vertices is. */
  predicate ContainsFace(b: Box, f: Face)
  {
    Contains(b, f.a) || Contains(b, f.b) || Contains(b, f.c)
  }

  /** The any-vertex rule misses a triangle that crosses the box while all
      three of its vertices lie outside: here the middle of edge `ab` is the
      centre of the box. */
  lemma CrossingFaceIsMissed()
    ensures var b := Box(Point(-1.0, -1.0, 1.0), Point(1.0, 1.0, -1.0));
            var f := Face(Point(-2.0, 0.0, 0.0), Point(2.0, 0.0, 0.0), Point(0.0, 5.0, 0.0));
            var m := Point((f.a.x + f.b.x) / 2.0, (f.a.y + f.b.y) / 2.0, (f.a.z + f.b.z) / 2.0);
            Valid(b) && Contains(b, m) && !ContainsFace(b, f)
  {
  }

  /** `r` is an order-preserving subsequence of `s`. */
  predicate Subsequence<T(==)>(r: seq<T>, s: seq<T>)
    decreases |s|
  {
    if |r| == 0 then true
    else if |s| == 0 then false
    else if r[0] == s[0] then Subsequence(r[1..], s[1..])
    else Subsequence(r, s[1..])
  }

  /** `facesIn`: the faces of `faces` that are (at least partly) in the box. */
  function FacesIn(b: Box, faces: seq<Face>): (r: seq<Face>)
    ensures |r| <= |faces|
    ensures forall f :: f in r <==> f in faces && ContainsFace(b, f)
  {
    if |faces| == 0 then []
    else
      var rest := FacesIn(b, faces[1..]);
      assert faces == [faces[0]] + faces[1..];
      if ContainsFace(b, faces[0]) then [faces[0]] + rest else rest
  }

  /** The kept faces stay in their original order, each as often as in the
      input. */
  lemma {:induction false} FacesInOrder(b: Box, faces: seq<Face>)
    ensures Subsequence(FacesIn(b, faces), faces)
    ensures forall f :: multiset(FacesIn(b, faces))[f] == if ContainsFace(b, f) then multiset(faces)[f] else 0
  {
    if |faces| > 0 {
      var rest := FacesIn(b, faces[1..]);
      FacesInOrder(b, faces[1..]);
      assert faces == [faces[0]] + faces[1..];
      assert multiset(faces) == multiset{faces[0]} + multiset(faces[1..]);
      if ContainsFace(b, faces[0]) {
        assert ([faces[0]] + rest)[1..] == rest;
        assert multiset([faces[0]] + rest) == multiset{faces[0]} + multiset(rest);
      } else {
        assert |rest| > 0 ==> rest[0] in rest && ContainsFace(b, rest[0]);
      }
    }
  }

  // Midplanes of the box, `splitX/Y/Z` of `split`.
  function MidX(b: Box): real { (b.p2.x + b.p1.x) / 2.0 }
  function MidY(b: Box): real { (b.p2.y + b.p1.y) / 2.0 }
  function MidZ(b: Box): real { (b.p2.z + b.p1.z) / 2.0 }

  /** `split`: the eight octants in the program's order: bottom-front-left,
      bottom-front-right, top-front-left, top-front-right, then the same four
      at the back. */
  function Split(b: Box): (r: seq<Box>)
    ensures |r| == 8
    ensures r[0].p1 == b.p1 && r[7].p2 == b.p2
  {
    var sx, sy, sz := MidX(b), MidY(b), MidZ(b);
    [ Box(b.p1, Point(sx, sy, sz)),
      Box(Point(sx, b.p1.y, b.p1.z), Point(b.p2.x, sy, sz)),
      Box(Point(b.p1.x, sy, b.p1.z), Point(sx, b.p2.y, sz)),
      Box(Point(sx, sy, b.p1.z), Point(b.p2.x, b.p2.y, sz)),
      Box(Point(b.p1.x, b.p1.y, sz), Point(sx, sy, b.p2.z)),
      Box(Point(sx, b.p1.y, sz), Point(b.p2.x, sy, b.p2.z)),
      Box(Point(b.p1.x, sy, sz), Point(sx, b.p2.y, b.p2.z)),
      Box(Point(sx, sy, sz), b.p2) ]
  }

  /** Octant `k` described by its bits: bit 0 selects the right half in x,
      bit 1 the top half in y, bit 2 the back half in z. */
  function Octant(b: Box, k: nat): Box
    requires k < 8
  {
    var right, top, back := k % 2 == 1, (k / 2) % 2 == 1, k / 4 == 1;
    Box(Point(if right then MidX(b) else b.p1.x,
              if top then MidY(b) else b.p1.y,
              if back then MidZ(b) else b.p1.z),
        Point(if right then b.p2.x else MidX(b),
              if top then b.p2.y else MidY(b),
              if back then b.p2.z else MidZ(b)))
  }

  /** The literal list of `split` is the bit-indexed octant family. */
  lemma SplitIsOctants(b: Box)
    ensures forall k :: 0 <= k < 8 ==> Split(b)[k] == Octant(b, k)
  {
  }

  /** Side lengths along x, y and z (z measured from back to front). */
  function Extent(b: Box): Point
  {
    Point(b.p2.x - b.p1.x, b.p2.y - b.p1.y, b.p1.z - b.p2.z)
  }

  function Volume(b: Box): real
  {
    var e := Extent(b);
    e.x * e.y * e.z
  }

  /** Every octant of a valid box is valid and has half the parent's extent
      on every axis: the eight boxes are equal-sized. */
  lemma SplitHalves(b: Box)
    ensures forall k :: 0 <= k < 8 ==> Valid(b) ==> Valid(Split(b)[k])
    ensures forall k :: 0 <= k < 8 ==>
      Extent(Split(b)[k]) == Point(Extent(b).x / 2.0, Extent(b).y / 2.0, Extent(b).z / 2.0)
  {
  }

  /** The eight volumes add up to the parent's volume. */
  lemma SplitVolume(b: Box)
    ensures var r := Split(b);
      Volume(r[0]) + Volume(r[1]) + Volume(r[2]) + Volume(r[3])
      + Volume(r[4]) + Volume(r[5]) + Volume(r[6]) + Volume(r[7]) == Volume(b)
  {
    SplitHalves(b);
    var e := Extent(b);
    assert forall k :: 0 <= k < 8 ==> Volume(Split(b)[k]) == (e.x / 2.0) * (e.y / 2.0) * (e.z / 2.0);
    assert (e.x / 2.0) * (e.y / 2.0) * (e.z / 2.0) == e.x * e.y * e.z / 8.0;
  }

  /** The octant a point of the box falls into (ties go to the left, bottom
      and front half). */
  function OctantOf(b: Box, p: Point): (k: nat)
    ensures k < 8
  {
    (if p.x > MidX(b) then 1 else 0) + (if p.y > MidY(b) then 2 else 0) + (if p.z < MidZ(b) then 4 else 0)
  }

  /** Coverage, parent to children: every point of the box lies in some
      octant. */
  lemma SplitCovers(b: Box, p: Point)
    requires Contains(b, p)
    ensures Contains(Split(b)[OctantOf(b, p)], p)
  {
    SplitIsOctants(b);
  }

  /** Coverage, children to parent: the octants of a valid box stay inside
      it. */
  lemma SplitInside(b: Box, k: nat, p: Point)
    requires Valid(b) && k < 8
    requires Contains(Split(b)[k], p)
    ensures Contains(b, p)
  {
    SplitIsOctants(b);
  }

  /** Two different octants share only points of a midplane. */
  lemma SplitOverlapOnMidplanes(b: Box, j: nat, k: nat, p: Point)
    requires j < 8 && k < 8 && j != k
    requires Contains(Split(b)[j], p) && Contains(Split(b)[k], p)
    ensures p.x == MidX(b) || p.y == MidY(b) || p.z == MidZ(b)
  {
    SplitIsOctants(b);
  }

  /** A point on a midplane is in both octants on either side of it. */
  lemma MidplaneShared(b: Box, k: nat, p: Point)
    requires k < 8 && Contains(Split(b)[k], p)
    ensures p.x == MidX(b) ==> Contains(Split(b)[if k % 2 == 0 then k + 1 else k - 1], p)
    ensures p.y == MidY(b) ==> Contains(Split(b)[if (k / 2) % 2 == 0 then k + 2 else k - 2], p)
    ensures p.z == MidZ(b) ==> Contains(Split(b)[if k < 4 then k + 4 else k - 4], p)
  {
    // One case per octant: each one reads its neighbours off the literal list.
    if k == 0 {
    } else if k == 1 {
    } else if k == 2 {
    } else if k == 3 {
    } else if k == 4 {
    } else if k == 5 {
    } else if k == 6 {
    } else {
    }
  }

  /** Consequently a face touching a midplane is handed to both octants. */
  lemma FaceOnMidplaneGoesToBoth(b: Box, k: nat, f: Face, faces: seq<Face>)
    requires k < 8 && f in faces
    requires Contains(Split(b)[k], f.a) && f.a.x == MidX(b)
    ensures var k' := if k % 2 == 0 then k + 1 else k - 1;
      f in FacesIn(Split(b)[k], faces) && f in FacesIn(Split(b)[k'], faces)
  {
    MidplaneShared(b, k, f.a);
  }
}
