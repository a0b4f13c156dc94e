/** `WorldObject`: one object of the scene. It has a sphere octree, a
    placement (a position and a rotation of `angle` whole degrees about one
    of the three coordinate axes), a per-move velocity and spin, and the
    `isColliding` flag.

    The matrix stack that turns a placement into a transform is not modelled:
    callers pass a `Placement` that maps a position, an axis, an angle and a
    local point to a world point. The random choices of `init` are passed as
    a `Roll`. */
module World {
  import opened Nullable
  import opened Geometry
  import opened Boxes
  import opened SphereFit
  import opened Octree
  import opened Collision

  /** Number of levels of every object's octree (`TREE_DEEPNESS`). */
  const TREE_DEEPNESS: nat := 9

  /** The root box of every object's octree, from (-1, -1, 1) to
      (1, 1, -1): the unit box the meshes are fitted to. */
  const ROOT_BOX: Box := Box(Point(-1.0, -1.0, 1.0), Point(1.0, 1.0, -1.0))

  /** The root box literals pass the box constructor's assertions. */
  lemma RootBoxIsValid()
    ensures Create(ROOT_BOX.p1, ROOT_BOX.p2) == Some(ROOT_BOX)
  {
  }

  /** The rotation axis `rotationVec`, one of the three unit vectors. */
  datatype Axis = XAxis | YAxis | ZAxis

  function Direction(a: Axis): (v: Point)
    ensures DistSq(v, Point(0.0, 0.0, 0.0)) == 1.0
    ensures (v.x == 0.0 || v.x == 1.0) && (v.y == 0.0 || v.y == 1.0) && (v.z == 0.0 || v.z == 1.0)
  {
    match a
    case XAxis => Point(1.0, 0.0, 0.0)
    case YAxis => Point(0.0, 1.0, 0.0)
    case ZAxis => Point(0.0, 0.0, 1.0)
  }

  datatype Object = Object(
    octree: Node,
    position: Point,
    initialPosition: Point,
    velocity: Point,
    axis: Axis,
    angle: int,
    rotation: int,
    colliding: bool)

  /** The three values `rand()` returns during one `init`, in call order. */
  datatype Roll = Roll(axisDraw: nat, angleDraw: nat, rotationDraw: nat)

  // ---------------------------------------------------------------------
  // Creation and init

  /** The constructor followed by `init`, as the program always uses it:
      the octree over the mesh's faces in the root box, with
      `TREE_DEEPNESS` levels. The constructor leaves the placement fields
      unset; `init` sets them before any other use. */
  function NewObject(faces: seq<Face>, initialPosition: Point, velocity: Point, rand: Draws, roll: Roll): (o: Object)
    requires NonDegenerate(faces)
    ensures WellFormed(o.octree, TREE_DEEPNESS) && AllClear(o.octree)
    ensures o.octree.box == ROOT_BOX && o.octree.faces == faces
    ensures |faces| > 0 ==> Live(o.octree)
    ensures !o.colliding && o.position == initialPosition
    ensures o.initialPosition == initialPosition && o.velocity == velocity
  {
    var tree := Build(ROOT_BOX, faces, TREE_DEEPNESS, rand, []);
    BuildWellFormed(ROOT_BOX, faces, TREE_DEEPNESS, rand, []);
    ResetFixpoint(tree);
    assert |faces| > 0 ==> Live(tree) by {
      if |faces| > 0 {
        WellFormedIsLive(tree, TREE_DEEPNESS);
      }
    }
    Init(Object(tree, initialPosition, initialPosition, velocity, XAxis, 0, 0, false), roll)
  }

  /** `init`: clear every flag of the octree and the object's own flag, go
      back to the initial position, and pick the axis as `rand() % 3`, the
      angle as `rand() % 360` and the spin as `2 - rand() % 5`. */
  function Init(o: Object, roll: Roll): (r: Object)
    ensures AllClear(r.octree) && SameShape(r.octree, o.octree)
    ensures !r.colliding && r.position == o.initialPosition
    ensures 0 <= r.angle < 360 && -2 <= r.rotation <= 2
    ensures r.initialPosition == o.initialPosition && r.velocity == o.velocity
  {
    var k := roll.axisDraw % 3;
    var axis := if k == 0 then XAxis else if k == 1 then YAxis else ZAxis;
    Object(Reset(o.octree), o.initialPosition, o.initialPosition, o.velocity,
           axis, roll.angleDraw % 360, 2 - roll.rotationDraw % 5, false)
  }

  /** `init` forgets everything the object went through: two objects that
      differ only in flags, position and placement are the same after it. */
  lemma InitForgetsHistory(o1: Object, o2: Object, roll: Roll)
    requires SameShape(o1.octree, o2.octree)
    requires o1.initialPosition == o2.initialPosition && o1.velocity == o2.velocity
    ensures Init(o1, roll) == Init(o2, roll)
  {
    ResetForgetsFlags(o1.octree, o2.octree);
  }

  /** Initialising twice with the same draws is initialising once. */
  lemma InitIdempotent(o: Object, roll: Roll)
    ensures Init(Init(o, roll), roll) == Init(o, roll)
  {
    ResetIdempotent(o.octree);
  }

  /** Every axis, every angle in [0, 359] and every spin in [-2, 2] is
      reachable with suitable draws. */
  lemma InitReachesEveryPose(o: Object, axis: Axis, angle: int, rotation: int)
    requires 0 <= angle < 360 && -2 <= rotation <= 2
    ensures exists roll: Roll ::
      Init(o, roll).axis == axis && Init(o, roll).angle == angle && Init(o, roll).rotation == rotation
  {
    var a := match axis case XAxis => 0 case YAxis => 1 case ZAxis => 2;
    var roll := Roll(a, angle, 2 - rotation);
    assert Init(o, roll).axis == axis;
  }

  // ---------------------------------------------------------------------
  // Moving

  /** C++ `a % 360` on `int`: the remainder of the division that truncates
      toward zero, so it takes the sign of `a`. */
  function TruncMod360(a: int): (r: int)
    ensures -360 < r < 360
    ensures (a - r) % 360 == 0
    ensures a >= 0 ==> r >= 0
    ensures a <= 0 ==> r <= 0
  {
    if a >= 0 then a % 360 else -((-a) % 360)
  }

  /** The four properties pin the remainder down: any `r` congruent to `a`,
      below 360 in size and with the sign of `a` is `TruncMod360(a)`. */
  lemma TruncModUnique(a: int, r: int)
    requires -360 < r < 360 && (a - r) % 360 == 0
    requires a >= 0 ==> r >= 0
    requires a <= 0 ==> r <= 0
    ensures r == TruncMod360(a)
  {
    var t := TruncMod360(a);
    var q, q' := (a - r) / 360, (a - t) / 360;
    assert a - r == 360 * q && a - t == 360 * q';
    assert t - r == 360 * (q - q');
  }

  /** Truncation is symmetric around zero, unlike a floored remainder. */
  lemma TruncModOdd(a: int)
    ensures TruncMod360(-a) == -TruncMod360(a)
  {
    TruncModUnique(-a, -TruncMod360(a));
  }

  /** `p + k v`: where a point ends up after `k` steps of `v`. */
  function Offset(p: Point, v: Point, k: nat): Point
  {
    Point(p.x + (k as real) * v.x, p.y + (k as real) * v.y, p.z + (k as real) * v.z)
  }

  /** `move`: a colliding object stays where it is; any other object adds
      its velocity to its position and its spin to its angle, and the angle
      is reduced with the C++ remainder. */
  function Move(o: Object): (r: Object)
    ensures o.colliding ==> r == o
    ensures !o.colliding ==> r.position == Offset(o.position, o.velocity, 1)
    ensures !o.colliding ==> -360 < r.angle < 360 && (o.angle + o.rotation - r.angle) % 360 == 0
    ensures r == o.(position := r.position, angle := r.angle)
  {
    if o.colliding then o
    else
      var p := o.position;
      var v := o.velocity;
      o.(position := Point(p.x + v.x, p.y + v.y, p.z + v.z),
         angle := TruncMod360(o.angle + o.rotation))
  }

  /** `k` calls of `move`. */
  function Moves(o: Object, k: nat): Object
  {
    if k == 0 then o else Move(Moves(o, k - 1))
  }

  /** Two multiples of 360 add up to one. */
  lemma WholeTurnsAdd(a: int, b: int)
    requires a % 360 == 0 && b % 360 == 0
    ensures (a + b) % 360 == 0
  {
    assert a == 360 * (a / 360) && b == 360 * (b / 360);
    assert a + b == 360 * (a / 360 + b / 360);
  }

  /** After `k` moves of a free object, it has travelled `k` velocities,
      its angle is its start angle plus `k` spins up to whole turns, and
      nothing else changed. */
  lemma {:induction false} MovesDrift(o: Object, k: nat)
    requires !o.colliding
    ensures Moves(o, k) == o.(position := Moves(o, k).position, angle := Moves(o, k).angle)
    ensures Moves(o, k).position == Offset(o.position, o.velocity, k)
    ensures (o.angle + k * o.rotation - Moves(o, k).angle) % 360 == 0
  {
    if k > 0 {
      MovesDrift(o, k - 1);
      var m := Moves(o, k - 1);
      var r := Move(m);
      StepOffset(o.position, o.velocity, k - 1);
      var a, b := o.angle + (k - 1) * o.rotation - m.angle, m.angle + o.rotation - r.angle;
      WholeTurnsAdd(a, b);
      assert (k - 1) * o.rotation + o.rotation == k * o.rotation;
    }
  }

  /** One more step of `v` from `p + k v`. */
  lemma StepOffset(p: Point, v: Point, k: nat)
    ensures Offset(Offset(p, v, k), v, 1) == Offset(p, v, k + 1)
  {
    var kr := k as real;
    assert (k + 1) as real == kr + 1.0;
    OneMore(kr, v.x);
    OneMore(kr, v.y);
    OneMore(kr, v.z);
  }

  lemma OneMore(k: real, x: real)
    ensures k * x + x == (k + 1.0) * x
  {
  }

  /** A colliding object never moves again. */
  lemma {:induction false} FrozenStaysPut(o: Object, k: nat)
    requires o.colliding
    ensures Moves(o, k) == o
  {
    if k > 0 {
      FrozenStaysPut(o, k - 1);
    }
  }

  // ---------------------------------------------------------------------
  // Collision detection

  /** Turns an object's placement into the transform of its local points
      (`addTransitionMatrix`: translate by the position, rotate by the
      angle about the axis). */
  type Placement = (Point, Axis, int, Point) -> Point

  function Pose(o: Object, place: Placement): Transform
  {
    p => place(o.position, o.axis, o.angle, p)
  }

  /** Some leaf of `a`'s octree reaches some leaf of `b`'s, both placed in
      the world. */
  ghost predicate Hits(a: Object, b: Object, place: Placement)
  {
    exists p, q :: Reached(a.octree, b.octree, Pose(a, place), Pose(b, place), p, q)
  }

  /** `a.collisionDetection(b)`: check the two octrees in their current
      placements; both object flags become `old || hit`. */
  function CollisionDetection(a: Object, b: Object, place: Placement): (r: (Object, Object))
    requires Live(a.octree) && Live(b.octree)
    ensures r.0.colliding <==> a.colliding || Hits(a, b, place)
    ensures r.1.colliding <==> b.colliding || Hits(a, b, place)
    ensures SameShape(r.0.octree, a.octree) && SameShape(r.1.octree, b.octree)
    ensures FlagsKept(a.octree, r.0.octree) && FlagsKept(b.octree, r.1.octree)
    ensures r.0 == a.(octree := r.0.octree, colliding := r.0.colliding)
    ensures r.1 == b.(octree := r.1.octree, colliding := r.1.colliding)
  {
    var ta, tb := Pose(a, place), Pose(b, place);
    CheckFindsLeafPair(a.octree, b.octree, ta, tb);
    var c := CheckCollision(a.octree, b.octree, ta, tb);
    (a.(octree := c.1, colliding := a.colliding || c.0),
     b.(octree := c.2, colliding := b.colliding || c.0))
  }

  /** Node by node: after the call a node of `a`'s octree is flagged when it
      was before or it is a leaf reached together with some leaf of `b`'s. */
  lemma CollisionDetectionFlagsNodes(a: Object, b: Object, place: Placement, p: Path)
    requires Live(a.octree) && Live(b.octree) && At(a.octree, p).Some?
    ensures var a' := CollisionDetection(a, b, place).0;
      At(a'.octree, p).Some? &&
      (At(a'.octree, p).value.colliding <==>
        At(a.octree, p).value.colliding ||
        exists q :: Reached(a.octree, b.octree, Pose(a, place), Pose(b, place), p, q))
  {
    CheckCollisionFlagsFirst(a.octree, b.octree, Pose(a, place), Pose(b, place), p);
  }

  // ---------------------------------------------------------------------
  // Level selection of `draw`

  /** Index of the toggle of digit key `i` (`'0' + i`). */
  function DigitKey(i: nat): nat
  {
    '0' as nat + i
  }

  /** The sum of `i` over the toggled keys `'1' + i` with `i < k`. */
  function DigitSum(t: seq<bool>, k: nat): nat
    requires |t| == 256 && k <= 9
  {
    if k == 0 then 0 else DigitSum(t, k - 1) + (if t[DigitKey(k)] then k - 1 else 0)
  }

  /** The level `draw` shows while `s` is toggled: 1 plus `i` for every
      toggled key `'1' + i`, or `TREE_DEEPNESS` when `'0'` is toggled. */
  method SelectLevel(t: seq<bool>) returns (level: int)
    requires |t| == 256
    ensures t[DigitKey(0)] ==> level == TREE_DEEPNESS
    ensures !t[DigitKey(0)] ==> level == 1 + DigitSum(t, 9)
    ensures 1 <= level <= 37
  {
    level := 1;
    for i := 0 to 9
      invariant level == 1 + DigitSum(t, i)
    {
      if t[DigitKey(1) + i] {
        level := level + i;
      }
    }
    DigitSumBound(t, 9);
    if t[DigitKey(0)] {
      level := TREE_DEEPNESS;
    }
  }

  /** `0 + 1 + ... + (k - 1)`. */
  function Triangle(k: nat): nat
  {
    if k == 0 then 0 else Triangle(k - 1) + (k - 1)
  }

  lemma {:induction false} DigitSumBound(t: seq<bool>, k: nat)
    requires |t| == 256 && k <= 9
    ensures DigitSum(t, k) <= Triangle(k)
  {
    if k > 0 {
      DigitSumBound(t, k - 1);
    }
  }

  /** Exactly digit `d` is toggled. */
  predicate OnlyDigit(t: seq<bool>, d: nat)
    requires |t| == 256
  {
    forall i :: 0 <= i < 10 ==> t[DigitKey(i)] == (i == d)
  }

  lemma {:induction false} DigitSumOfOnly(t: seq<bool>, d: nat, k: nat)
    requires |t| == 256 && 1 <= d <= 9 && k <= 9 && OnlyDigit(t, d)
    ensures DigitSum(t, k) == if k >= d then d - 1 else 0
  {
    if k > 0 {
      DigitSumOfOnly(t, d, k - 1);
    }
  }

  /** With one digit key toggled, as the key handler leaves them, the level
      shown is that digit, with `0` standing for `TREE_DEEPNESS`. */
  lemma LevelOfOnlyDigit(t: seq<bool>, d: nat)
    requires |t| == 256 && d <= 9 && OnlyDigit(t, d)
    ensures d == 0 ==> t[DigitKey(0)]
    ensures d > 0 ==> !t[DigitKey(0)] && 1 + DigitSum(t, 9) == d
  {
    if d > 0 {
      DigitSumOfOnly(t, d, 9);
    }
  }

  /** With no digit toggled the top level is shown. */
  lemma {:induction false} LevelWithoutDigits(t: seq<bool>, k: nat)
    requires |t| == 256 && k <= 9
    requires forall i :: 0 <= i < 10 ==> !t[DigitKey(i)]
    ensures DigitSum(t, k) == 0
  {
    if k > 0 {
      LevelWithoutDigits(t, k - 1);
    }
  }
}
