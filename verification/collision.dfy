/** `OctreeNode::checkCollision`: the level-synchronous descent over two
    sphere octrees.

    Each tree is placed in the world by a transform of its own (the object's
    translation and rotation, applied to local sphere centres). A pair of
    nodes whose spheres do not overlap is pruned; a pair of overlapping
    leaves is a hit and both leaves get their flag; any other pair checks
    every child of one against every child of the other. */
module Collision {
  import opened Nullable
  import opened Geometry
  import opened SphereFit
  import opened Octree

  /** Places a local point in the world. */
  type Transform = Point -> Point

  /** `dist(pa, pb) <= ra + rb` for squared radii `ra2 = ra^2`, `rb2 = rb^2`,
      decided without square roots: with `s = dist^2 - ra^2 - rb^2` the test
      is `s <= 2 ra rb`, that is `s <= 0` or `s^2 <= 4 ra^2 rb^2`. */
  predicate Overlap(pa: Point, ra2: real, pb: Point, rb2: real)
  {
    var s := DistSq(pa, pb) - ra2 - rb2;
    s <= 0.0 || s * s <= 4.0 * ra2 * rb2
  }

  /** Squaring is monotone on non-negative reals, in both directions. */
  lemma SquareMonotone(x: real, y: real)
    requires x >= 0.0 && y >= 0.0
    ensures x <= y <==> x * x <= y * y
  {
    if x <= y {
      ScaleAtLeast(x, y, x);
      ScaleAtLeast(y, y, x);
      assert x * x <= x * y <= y * y;
    } else {
      ScaleAbove(x + y, x - y, 0.0);
      assert x * x - y * y == (x + y) * (x - y);
    }
  }

  /** The squared test is exactly the source's `eucDistance <= r1 + r2`:
      for the true distance `d` and radii `ra`, `rb`. */
  lemma OverlapIsDistanceTest(pa: Point, pb: Point, d: real, ra: real, rb: real)
    requires d >= 0.0 && ra >= 0.0 && rb >= 0.0 && d * d == DistSq(pa, pb)
    ensures Overlap(pa, ra * ra, pb, rb * rb) <==> d <= ra + rb
  {
    var s := d * d - ra * ra - rb * rb;
    var t := ra * rb;
    assert t >= 0.0 by {
      ScaleAtLeast(ra, rb, 0.0);
    }
    SquareMonotone(d, ra + rb);
    assert (ra + rb) * (ra + rb) == ra * ra + rb * rb + 2.0 * t;
    assert d <= ra + rb <==> s <= 2.0 * t;
    assert 4.0 * (ra * ra) * (rb * rb) == (2.0 * t) * (2.0 * t);
    if s > 0.0 {
      SquareMonotone(s, 2.0 * t);
    }
  }

  /** The two nodes both have spheres and, placed by `ta` and `tb`, the
      spheres overlap. */
  predicate Touch(a: Node, b: Node, ta: Transform, tb: Transform)
  {
    && a.sphere.Some? && b.sphere.Some?
    && Overlap(ta(a.sphere.value.origin), a.sphere.value.radiusSq,
               tb(b.sphere.value.origin), b.sphere.value.radiusSq)
  }

  /** Every node of the tree has a sphere: the program dereferences the
      origin of every node it compares. */
  predicate Live(n: Node)
    decreases n
  {
    n.sphere.Some? && forall c :: c in n.children ==> Live(c)
  }

  /** A built tree over at least one face is live. */
  lemma {:induction false} WellFormedIsLive(n: Node, d: nat)
    requires WellFormed(n, d) && |n.faces| > 0
    ensures Live(n)
    decreases n
  {
    forall c | c in n.children
      ensures Live(c)
    {
      WellFormedIsLive(c, d - 1);
    }
  }

  /** Liveness depends only on the shape, so raising or clearing flags keeps
      a tree live. */
  lemma {:induction false} SameShapeLive(a: Node, b: Node)
    requires SameShape(a, b) && Live(b)
    ensures Live(a)
    decreases a
  {
    forall c | c in a.children
      ensures Live(c)
    {
      var i :| 0 <= i < |a.children| && a.children[i] == c;
      assert b.children[i] in b.children;
      SameShapeLive(c, b.children[i]);
    }
  }

  /** The result of a check: whether it returned true, and the pairs of leaf
      paths whose flags it raised with `collides`. */
  datatype Outcome = Outcome(hit: bool, pairs: set<(Path, Path)>)

  /** `checkCollision(b)` called on `a`. */
  function Check(a: Node, b: Node, ta: Transform, tb: Transform): (o: Outcome)
    requires Live(a) && Live(b)
    ensures !Touch(a, b, ta, tb) ==> o == Outcome(false, {})
    decreases a, 2
  {
    if !Touch(a, b, ta, tb) then
      Outcome(false, {})
    else if Leaf(a) && Leaf(b) then
      Outcome(true, {([], [])})
    else
      Combine(Grid(a, b, ta, tb))
  }

  /** The results of the nested loops once the two spheres overlap: row `i`
      holds the checks of child `i` of `a` against every child of `b`. */
  function Grid(a: Node, b: Node, ta: Transform, tb: Transform): (g: seq<seq<Outcome>>)
    requires Live(a) && Live(b)
    ensures |g| == |a.children|
    ensures forall i :: 0 <= i < |g| ==> |g[i]| == |b.children|
    decreases a, 1
  {
    seq(|a.children|, i requires 0 <= i < |a.children| =>
      assert a.children[i] in a.children;
      Row(a.children[i], b, ta, tb))
  }

  /** The checks of `x` against every child of `b`. */
  function Row(x: Node, b: Node, ta: Transform, tb: Transform): (r: seq<Outcome>)
    requires Live(x) && Live(b)
    ensures |r| == |b.children|
    decreases x, 3
  {
    seq(|b.children|, j requires 0 <= j < |b.children| =>
      assert b.children[j] in b.children;
      Check(x, b.children[j], ta, tb))
  }

  /** Entry `(i, j)` of the grid is the check of child `i` against child `j`. */
  lemma GridEntry(a: Node, b: Node, ta: Transform, tb: Transform, i: nat, j: nat)
    requires Live(a) && Live(b) && i < |a.children| && j < |b.children|
    ensures (assert a.children[i] in a.children && b.children[j] in b.children;
             Grid(a, b, ta, tb)[i][j] == Check(a.children[i], b.children[j], ta, tb))
  {
    assert a.children[i] in a.children;
  }

  /** What the loops return from a grid of child results: true when some
      child check returned true, and the union of the children's flagged
      pairs, each prefixed by the two child indices. */
  function Combine(g: seq<seq<Outcome>>): (o: Outcome)
  {
    var hit := exists i, j :: 0 <= i < |g| && 0 <= j < |g[i]| && g[i][j].hit;
    var pairs := set i, j, pq | 0 <= i < |g| && 0 <= j < |g[i]| && pq in g[i][j].pairs ::
      ([i] + pq.0, [j] + pq.1);
    Outcome(hit, pairs)
  }

  /** A pair belongs to the combined result exactly when its two paths start
      with a grid position whose entry flagged the rest of it. */
  lemma CombinePairs(g: seq<seq<Outcome>>, p: Path, q: Path)
    ensures (p, q) in Combine(g).pairs <==>
      |p| > 0 && |q| > 0 && p[0] < |g| && q[0] < |g[p[0]]| && (p[1..], q[1..]) in g[p[0]][q[0]].pairs
  {
    if |p| > 0 && |q| > 0 && p[0] < |g| && q[0] < |g[p[0]]| && (p[1..], q[1..]) in g[p[0]][q[0]].pairs {
      assert p == [p[0]] + p[1..] && q == [q[0]] + q[1..];
    }
    if (p, q) in Combine(g).pairs {
      var i, j, pq :| 0 <= i < |g| && 0 <= j < |g[i]| && pq in g[i][j].pairs && (p, q) == ([i] + pq.0, [j] + pq.1);
      assert p[0] == i && q[0] == j && pq == (p[1..], q[1..]);
    }
  }

  /** The combined flag is raised exactly when the combined set of pairs is
      non-empty, given that this holds for every entry. */
  lemma CombineHit(g: seq<seq<Outcome>>)
    requires forall i, j :: 0 <= i < |g| && 0 <= j < |g[i]| ==> (g[i][j].hit <==> g[i][j].pairs != {})
    ensures Combine(g).hit <==> Combine(g).pairs != {}
  {
    if Combine(g).hit {
      var i, j :| 0 <= i < |g| && 0 <= j < |g[i]| && g[i][j].hit;
      var pq :| pq in g[i][j].pairs;
      CombinePairs(g, [i] + pq.0, [j] + pq.1);
      assert ([i] + pq.0)[1..] == pq.0 && ([j] + pq.1)[1..] == pq.1;
    }
    if Combine(g).pairs != {} {
      var pq :| pq in Combine(g).pairs;
      CombinePairs(g, pq.0, pq.1);
    }
  }

  /** The nodes at `p` in `a` and at `q` in `b` both exist and touch. */
  predicate TouchAt(a: Node, b: Node, ta: Transform, tb: Transform, p: Path, q: Path)
  {
    At(a, p).Some? && At(b, q).Some? && Touch(At(a, p).value, At(b, q).value, ta, tb)
  }

  /** Reference description of the pairs a check reaches: two leaves at the
      same depth such that every pair of their ancestors at equal depth,
      from the roots down to the leaves themselves, touches. */
  predicate Reached(a: Node, b: Node, ta: Transform, tb: Transform, p: Path, q: Path)
  {
    && |p| == |q|
    && At(a, p).Some? && At(b, q).Some?
    && Leaf(At(a, p).value) && Leaf(At(b, q).value)
    && forall l :: 0 <= l <= |p| ==> TouchAt(a, b, ta, tb, p[..l], q[..l])
  }

  /** One step down both trees: a pair of paths below the roots is reached
      exactly when the roots touch and the rest of the paths is reached
      from the two children. */
  lemma ReachedStep(a: Node, b: Node, ta: Transform, tb: Transform, p: Path, q: Path)
    requires |p| > 0 && |q| > 0 && p[0] < |a.children| && q[0] < |b.children|
    ensures Reached(a, b, ta, tb, p, q) <==>
      Touch(a, b, ta, tb) && Reached(a.children[p[0]], b.children[q[0]], ta, tb, p[1..], q[1..])
  {
    var ca, cb := a.children[p[0]], b.children[q[0]];
    forall l | 1 <= l <= |p|
      ensures At(a, p[..l]) == At(ca, p[1..][..l - 1])
    {
      assert p[..l][1..] == p[1..][..l - 1];
    }
    forall l | 1 <= l <= |q|
      ensures At(b, q[..l]) == At(cb, q[1..][..l - 1])
    {
      assert q[..l][1..] == q[1..][..l - 1];
    }
    assert p[..0] == [] && q[..0] == [];
    if Reached(a, b, ta, tb, p, q) {
      forall l | 0 <= l <= |p| - 1
        ensures TouchAt(ca, cb, ta, tb, p[1..][..l], q[1..][..l])
      {
        assert TouchAt(a, b, ta, tb, p[..l + 1], q[..l + 1]);
      }
      assert TouchAt(a, b, ta, tb, p[..0], q[..0]);
    }
    if Touch(a, b, ta, tb) && Reached(ca, cb, ta, tb, p[1..], q[1..]) {
      forall l | 0 <= l <= |p|
        ensures TouchAt(a, b, ta, tb, p[..l], q[..l])
      {
        if l > 0 {
          assert TouchAt(ca, cb, ta, tb, p[1..][..l - 1], q[1..][..l - 1]);
        }
      }
    }
  }

  /** The pairs of an inner step are the children's pairs, each extended by
      the indices of the two children. */
  lemma PairsOfInner(a: Node, b: Node, ta: Transform, tb: Transform, p: Path, q: Path)
    requires Live(a) && Live(b) && Touch(a, b, ta, tb) && !(Leaf(a) && Leaf(b))
    ensures (p, q) in Check(a, b, ta, tb).pairs <==>
      && |p| > 0 && |q| > 0 && p[0] < |a.children| && q[0] < |b.children|
      && (assert a.children[p[0]] in a.children && b.children[q[0]] in b.children;
          (p[1..], q[1..]) in Check(a.children[p[0]], b.children[q[0]], ta, tb).pairs)
  {
    CombinePairs(Grid(a, b, ta, tb), p, q);
    if |p| > 0 && |q| > 0 && p[0] < |a.children| && q[0] < |b.children| {
      GridEntry(a, b, ta, tb, p[0], q[0]);
    }
  }

  /** Below two nodes that are not both leaves, a reached pair starts with
      the indices of two existing children. */
  lemma ReachedStartsWithChildren(a: Node, b: Node, ta: Transform, tb: Transform, p: Path, q: Path)
    requires !(Leaf(a) && Leaf(b)) && Reached(a, b, ta, tb, p, q)
    ensures |p| > 0 && |q| > 0 && p[0] < |a.children| && q[0] < |b.children|
  {
  }

  /** The pairs a check flags are exactly the reached pairs. */
  lemma {:induction false} CheckExact(a: Node, b: Node, ta: Transform, tb: Transform, p: Path, q: Path)
    requires Live(a) && Live(b)
    ensures (p, q) in Check(a, b, ta, tb).pairs <==> Reached(a, b, ta, tb, p, q)
    decreases a
  {
    assert p[..0] == [] && q[..0] == [];
    if !Touch(a, b, ta, tb) {
      // The empty prefix of a reached pair is the two roots, which would touch.
    } else if Leaf(a) && Leaf(b) {
      if Reached(a, b, ta, tb, p, q) {
        assert p == [] && q == [];
      }
      if p == [] && q == [] {
        assert TouchAt(a, b, ta, tb, p[..0], q[..0]);
      }
    } else {
      PairsOfInner(a, b, ta, tb, p, q);
      if |p| > 0 && |q| > 0 && p[0] < |a.children| && q[0] < |b.children| {
        assert a.children[p[0]] in a.children && b.children[q[0]] in b.children;
        CheckExact(a.children[p[0]], b.children[q[0]], ta, tb, p[1..], q[1..]);
        ReachedStep(a, b, ta, tb, p, q);
      } else if Reached(a, b, ta, tb, p, q) {
        ReachedStartsWithChildren(a, b, ta, tb, p, q);
      }
    }
  }

  /** The returned flag says whether any pair was flagged. */
  lemma {:induction false} HitIffFlagged(a: Node, b: Node, ta: Transform, tb: Transform)
    requires Live(a) && Live(b)
    ensures Check(a, b, ta, tb).hit <==> Check(a, b, ta, tb).pairs != {}
    decreases a
  {
    if Touch(a, b, ta, tb) && !(Leaf(a) && Leaf(b)) {
      var g: seq<seq<Outcome>> := Grid(a, b, ta, tb);
      forall i, j | 0 <= i < |g| && 0 <= j < |g[i]|
        ensures g[i][j].hit <==> g[i][j].pairs != {}
      {
        GridEntry(a, b, ta, tb, i, j);
        assert a.children[i] in a.children && b.children[j] in b.children;
        HitIffFlagged(a.children[i], b.children[j], ta, tb);
      }
      CombineHit(g);
    }
  }

  /** The doc-comment promise, both ways: a check returns true exactly when
      some leaf of one tree and some leaf of the other are reached, that is
      overlap along with all their ancestors. */
  lemma CheckFindsLeafPair(a: Node, b: Node, ta: Transform, tb: Transform)
    requires Live(a) && Live(b)
    ensures Check(a, b, ta, tb).hit <==> exists p, q :: Reached(a, b, ta, tb, p, q)
  {
    HitIffFlagged(a, b, ta, tb);
    var o := Check(a, b, ta, tb);
    if o.hit {
      var pq :| pq in o.pairs;
      CheckExact(a, b, ta, tb, pq.0, pq.1);
    }
    if exists p, q :: Reached(a, b, ta, tb, p, q) {
      var p, q :| Reached(a, b, ta, tb, p, q);
      CheckExact(a, b, ta, tb, p, q);
    }
  }

  /** A leaf paired with an inner node never reports a hit, even when the
      spheres overlap: the descent stops without reaching two leaves. */
  lemma LeafAgainstInnerMisses(a: Node, b: Node, ta: Transform, tb: Transform)
    requires Live(a) && Live(b) && Leaf(a) != Leaf(b)
    ensures Check(a, b, ta, tb) == Outcome(false, {})
  {
    var o := Check(a, b, ta, tb);
    if o.pairs != {} {
      var pq :| pq in o.pairs;
      CheckExact(a, b, ta, tb, pq.0, pq.1);
    }
    HitIffFlagged(a, b, ta, tb);
  }

  /** The paths of the first and of the second tree in a set of pairs. */
  function Firsts(S: set<(Path, Path)>): set<Path>
  {
    set pq | pq in S :: pq.0
  }

  function Seconds(S: set<(Path, Path)>): set<Path>
  {
    set pq | pq in S :: pq.1
  }

  /** The whole call: the result and both trees with their flags raised. */
  function CheckCollision(a: Node, b: Node, ta: Transform, tb: Transform): (r: (bool, Node, Node))
    requires Live(a) && Live(b)
    ensures SameShape(r.1, a) && SameShape(r.2, b)
    ensures FlagsKept(a, r.1) && FlagsKept(b, r.2)
  {
    var o := Check(a, b, ta, tb);
    ApplyFlagsKeeps(a, Firsts(o.pairs));
    ApplyFlagsKeeps(b, Seconds(o.pairs));
    (o.hit, ApplyFlags(a, Firsts(o.pairs)), ApplyFlags(b, Seconds(o.pairs)))
  }

  /** After the call, a node of the first tree is flagged exactly when it
      was flagged before or it is a reached leaf; flags are never cleared. */
  lemma CheckCollisionFlagsFirst(a: Node, b: Node, ta: Transform, tb: Transform, p: Path)
    requires Live(a) && Live(b) && At(a, p).Some?
    ensures var a' := CheckCollision(a, b, ta, tb).1;
      At(a', p).Some? &&
      (At(a', p).value.colliding <==>
        At(a, p).value.colliding || exists q :: Reached(a, b, ta, tb, p, q))
  {
    var o := Check(a, b, ta, tb);
    ApplyFlagsAt(a, Firsts(o.pairs), p);
    if p in Firsts(o.pairs) {
      var pq :| pq in o.pairs && pq.0 == p;
      CheckExact(a, b, ta, tb, pq.0, pq.1);
    }
    if exists q :: Reached(a, b, ta, tb, p, q) {
      var q :| Reached(a, b, ta, tb, p, q);
      CheckExact(a, b, ta, tb, p, q);
      assert p == (p, q).0;
    }
  }

  /** The same for the second tree. */
  lemma CheckCollisionFlagsSecond(a: Node, b: Node, ta: Transform, tb: Transform, q: Path)
    requires Live(a) && Live(b) && At(b, q).Some?
    ensures var b' := CheckCollision(a, b, ta, tb).2;
      At(b', q).Some? &&
      (At(b', q).value.colliding <==>
        At(b, q).value.colliding || exists p :: Reached(a, b, ta, tb, p, q))
  {
    var o := Check(a, b, ta, tb);
    ApplyFlagsAt(b, Seconds(o.pairs), q);
    if q in Seconds(o.pairs) {
      var pq :| pq in o.pairs && pq.1 == q;
      CheckExact(a, b, ta, tb, pq.0, pq.1);
    }
    if exists p :: Reached(a, b, ta, tb, p, q) {
      var p :| Reached(a, b, ta, tb, p, q);
      CheckExact(a, b, ta, tb, p, q);
      assert q == (p, q).1;
    }
  }

  // Two single-sphere trees of radius 0.1 (squared 0.01) placed by the
  // identity.

  function Ball(x: real): Node
  {
    Node(Boxes.Box(Point(-1.0, -1.0, 1.0), Point(1.0, 1.0, -1.0)), [],
         Some(Sphere(Point(x, 0.0, 0.0), 0.01)), [], false)
  }

  /** Centres 0.05 apart: the leaves overlap, the check returns true and
      flags both roots. */
  lemma CloseBallsCollide()
    ensures Check(Ball(0.0), Ball(0.05), p => p, p => p) == Outcome(true, {([], [])})
  {
    assert DistSq(Point(0.0, 0.0, 0.0), Point(0.05, 0.0, 0.0)) == 0.0025;
  }

  /** Centres 0.3 apart: further than the radius sum 0.2, no hit. */
  lemma DistantBallsMiss()
    ensures Check(Ball(0.0), Ball(0.3), p => p, p => p) == Outcome(false, {})
  {
    assert DistSq(Point(0.0, 0.0, 0.0), Point(0.3, 0.0, 0.0)) == 0.09;
  }
}
