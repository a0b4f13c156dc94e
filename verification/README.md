# Sphere octree: a Dafny model

This project models the spatial index of the SphereOctree program, a demo
in which three meshes drift across the screen until every one of them
touches another. Each mesh gets a tree of bounding spheres, and the demo
detects collisions by descending two such trees in lock-step.

The model covers:

- **Axis-aligned box** (`Boxes`, in `bounding_box.dfy`). The corner invariant
  of the constructor uses an inverted z axis. Also modelled: the inclusive
  point test, the any-vertex face test, order-keeping face filtering, and the
  split into eight octants at the midplanes.
- **Bounding sphere** (`SphereFit`, in `sphere_fit.dfy`). This is the
  constructor's Ritter-style loop: random start vertex, two farthest-point
  scans, midpoint centre, and a radius that grows every 50 iterations. It is
  repeated until `allIn` holds. The model proves that the loop terminates and
  that its result covers every vertex.
- **Octree node** (`Octree`, in `octree_node.dfy`). Covered: recursive
  construction with up to eight non-empty children per node and a
  `deepness`-bounded height; `collides`; `resetColliding`; the
  `getNumChildren` count; and the level selection of `drawLevel`, including
  the `size_t` wrap of level 0.
- **Collision descent** (`Collision`, in `collision.dfy`). This is
  `checkCollision`: overlap pruning, leaf/leaf hits that flag both leaves,
  and the OR over the child-by-child product.
- **World object** (`World`, in `world_object.dfy`). Covered: the root box,
  `init`, `move` (with the C++ truncating `%`), `collisionDetection`, and the
  level selection of `draw`.
- **Driver** (`Driver`, in `driver.dfy`). Covered: the toggle logic of
  `char_callback`, and `step()`, which moves every object, checks every pair,
  pauses when all objects collide and restarts on the next press of space.

Modelling choices:

- **Numbers.** Coordinates are `real`. The model never takes a square root:
  it stores squared radii, and it decides the overlap test
  `dist <= r1 + r2` exactly through `Collision.OverlapIsDistanceTest`.
- **Values, not objects.** Nodes and objects are immutable values. Every
  mutation returns a new value, and a node is addressed by its path of child
  positions.
- **Parameters.** Randomness (`rand()`) comes in as parameters: `Draws` for
  the sphere loop and `Roll` for `init`. The placement of an object in the
  world (its translation and rotation matrix) is also a parameter:
  `Placement` in `World`, and `Transform` in `Collision`.

When every vertex of a mesh coincides, the sphere constructor has no seeds.
The farthest-point scans (`OctreeNode.cpp:42-49`) use a strict `>` starting
from a maximum of 0, so they never set `y`, and the second scan dereferences
that null `y` (`OctreeNode.cpp:53-54`). There is no special zero-radius case.

The model follows the code:

- `SphereFit.CoincidentSeedsUnset` shows that the seeds are missing in that
  case.
- The construction requires `Geometry.NonDegenerate`: the `a` and `b`
  vertices of every face differ. This condition is sufficient for the seeds
  to exist.

## Model

| member | source | states |
|---|---|---|
| Geometry.DistSq | src/OctreeNode.cpp:95-100 | the square of `eucDistance`, never negative |
| Geometry.MidpointHalfway | src/OctreeNode.cpp:61 | the centre `y + (z - y) / 2` is at a quarter of the squared seed distance from both seeds |
| Geometry.Vertices | src/OctreeNode.cpp:84-91 | the vertices `allIn` visits: three per face, and every `a`, `b` and `c` is among them |
| Boxes.Create | src/BoundingBox.cpp:16-22 | the constructor succeeds exactly when `p1.x < p2.x`, `p1.y < p2.y` and `p1.z > p2.z`; the box is its two corners |
| Boxes.ContainsIsMinMax | src/BoundingBox.cpp:24-33 | `isIn(point)` with its inverted z test is the closed min/max test on all six faces, and validity means the min corner is strictly below the max corner |
| Boxes.CrossingFaceIsMissed | src/BoundingBox.h:34-40 | a triangle that crosses the box with all three vertices outside is not reported, the documented weakness of the any-vertex rule |
| Boxes.FacesIn | src/BoundingBox.cpp:35-43 | `facesIn` keeps exactly the faces with a vertex in the box and never grows the list |
| Boxes.FacesInOrder | src/BoundingBox.cpp:35-43 | the kept faces are a subsequence of the input in its order, each as often as in the input, the others not at all |
| Boxes.Split | src/BoundingBox.cpp:45-83 | `split` yields 8 boxes; the first keeps corner `p1` and the last keeps corner `p2` |
| Boxes.SplitIsOctants | src/BoundingBox.cpp:51-80 | the eight literal boxes are the octants selected by the three bits right/top/back |
| Boxes.SplitHalves | src/BoundingBox.cpp:46-48 | every octant of a valid box is valid, and its extent is half the parent's on every axis |
| Boxes.SplitVolume | src/BoundingBox.h:47-48 | the eight equal-sized octants add up to the parent's volume |
| Boxes.SplitCovers | src/BoundingBox.cpp:45-83 | every point of the parent is in some octant |
| Boxes.SplitInside | src/BoundingBox.cpp:45-83 | every point of an octant of a valid box is in the parent |
| Boxes.SplitOverlapOnMidplanes | src/BoundingBox.cpp:45-83 | two different octants share only midplane points |
| Boxes.MidplaneShared | src/BoundingBox.cpp:24-33 | a midplane point of an octant is also in the neighbouring octant across that plane |
| Boxes.FaceOnMidplaneGoesToBoth | src/BoundingBox.cpp:35-43 | a face with a vertex on the x midplane is handed to both octants that share it |
| SphereFit.Farthest | src/OctreeNode.cpp:42-49 | the scan with strict `>` from 0 finds nothing exactly when every point is at distance 0; otherwise it finds the first point of maximal distance |
| SphereFit.SeedsExist | src/OctreeNode.cpp:40-59 | for faces whose `a` and `b` differ, both seeds exist for every start vertex, at positive distance |
| SphereFit.SeedsAreFarthest | src/OctreeNode.cpp:43-59 | `y` is a `b` vertex farthest from the start vertex and `z` is an `a` vertex farthest from `y` |
| SphereFit.CoincidentSeedsUnset | src/OctreeNode.cpp:42-49 | when all vertices coincide, `y` is never set |
| SphereFit.AllFacesWithin | src/OctreeNode.cpp:84-92 | the face loop of `allIn` answers whether every vertex of every face is inside |
| SphereFit.AllIn | src/OctreeNode.cpp:81-93 | `allIn` is false for radius <= 0; otherwise it holds exactly when all vertices are within the radius |
| SphereFit.MultiplierGrows | src/OctreeNode.cpp:64 | the factor `1 + (rIts / 50) * 0.05` is at least 1, never decreases and exceeds any bound |
| SphereFit.Attempt | src/OctreeNode.cpp:61-64 | one iteration's sphere is centred on the midpoint of the seeds, with a positive radius of at least half the seed distance |
| SphereFit.ScaledRadiusSq | src/OctreeNode.cpp:64 | scaling half the seed distance by a factor of at least 1 never shrinks it |
| SphereFit.LateRadiusExceeds | src/OctreeNode.cpp:64 | after enough iterations the grown radius exceeds any given distance |
| SphereFit.AttemptCovers | src/OctreeNode.cpp:38-66 | past the threshold iteration, every attempt covers all vertices, whatever start face is drawn |
| SphereFit.LateAttemptCovers | src/OctreeNode.cpp:38-66 | the same fact, in the form the loop uses |
| SphereFit.SphereLoop | src/OctreeNode.cpp:38-66 | the loop terminates for every sequence of draws; its sphere passes `allIn`, has a positive radius, and is the attempt of some iteration |
| Octree.ScaleIsDiameter | src/OctreeNode.h:50-51 | `getScale` is twice `getRadius` |
| Octree.Build | src/OctreeNode.cpp:17-23 | the node keeps its box and faces, and it has a sphere exactly when it has faces |
| Octree.TrueIndices | src/OctreeNode.cpp:74-76 | the positions at which a flag holds, each once, in increasing order, and no others |
| Octree.BuildFromOctants | src/OctreeNode.cpp:69-78 | the children loop keeps exactly one child per octant that received a face, in octant order, and no other |
| Octree.NonEmptyOctantKept | src/OctreeNode.cpp:72-76 | in a well-formed split node, the child of every octant that received a face is present |
| Octree.BuildWellFormed | src/OctreeNode.cpp:17-79 | construction yields a well-formed tree with no flag set (definition below the table) |
| Octree.BuildFromGood | src/OctreeNode.cpp:70-77 | every kept child is built from an octant over `facesIn` of the parent's faces, has a sphere, is well formed and unflagged |
| Octree.BuildFromCovers | src/OctreeNode.cpp:70-77 | every face that `facesIn` hands to an octant is held by some kept child |
| Octree.FacesReachOctants | src/OctreeNode.cpp:70-73 | every face with a vertex in the box is kept by `facesIn` of some octant |
| Octree.PathsShorterThanDeepness | src/OctreeNode.cpp:69 | the tree is at most `deepness` levels high |
| Octree.EveryNodeCovered | src/OctreeNode.cpp:38 | every node of a tree over faces has a sphere holding all its faces, and those faces are faces of the root |
| Octree.FacesConserved | src/OctreeNode.cpp:69-78 | below a split node, each face with a vertex in the box is held by some child |
| Octree.Collides | src/OctreeNode.h:52 | `collides` sets the node's flag and changes nothing else |
| Octree.Reset | src/OctreeNode.cpp:135-139 | `resetColliding` clears every flag of the subtree and changes nothing else |
| Octree.ResetForgetsFlags | src/OctreeNode.h:58-59 | the reset result depends only on the tree's shape, never on its flags |
| Octree.ResetIdempotent | src/OctreeNode.cpp:135-139 | resetting twice is resetting once |
| Octree.ResetFixpoint | src/OctreeNode.cpp:135-139 | a tree is unchanged by the reset exactly when no flag is set |
| Octree.ResetAt | src/OctreeNode.cpp:135-139 | per path: the same nodes are reachable after a reset, with the same shape, unflagged |
| Octree.ApplyFlags | src/OctreeNode.cpp:170-171 | raising the flags of a set of nodes keeps the tree's shape |
| Octree.ApplyFlagsKeeps | src/OctreeNode.cpp:170-171 | raising flags never clears one: every node flagged before is flagged after |
| Octree.ApplyFlagsAt | src/OctreeNode.cpp:170-171 | afterwards a node is flagged exactly when it was before or it is in the set; no flag is cleared |
| Octree.ResetAfterFlags | src/OctreeNode.cpp:135-139 | a reset undoes any raised flags |
| Octree.NumChildren | src/OctreeNode.cpp:141-150 | `getNumChildren` is the number of all descendants (the tree's node count minus one) |
| Octree.Decrement | src/OctreeNode.cpp:121 | `--lvl` on a `size_t` stays in range, with 0 wrapping to `SIZE_MAX` |
| Octree.DrawLevelExact | src/OctreeNode.cpp:119-133 | `drawLevel(lvl)` draws exactly the nodes at depth `lvl` (the root is 1); level 0 selects depth `SIZE_MAX + 1` |
| Octree.DrawLevelBeyondDeepness | src/OctreeNode.h:72-79 | on a tree of `deepness` levels, level 0 and levels past `deepness` draw nothing |
| Collision.OverlapIsDistanceTest | src/OctreeNode.cpp:167-168 | the squared overlap test holds exactly when the centre distance is at most the sum of the radii |
| Collision.WellFormedIsLive | src/OctreeNode.cpp:157-162 | every node of a constructed tree over faces has the origin that the check dereferences |
| Collision.Check | src/OctreeNode.cpp:152-185 | without overlap the check returns false and flags nothing |
| Collision.GridEntry | src/OctreeNode.cpp:175-179 | the nested loops check every child of the first node against every child of the second |
| Collision.CombinePairs | src/OctreeNode.cpp:174-181 | a pair is flagged by the loops exactly when it starts with the positions of two children whose check flagged the rest of it |
| Collision.CombineHit | src/OctreeNode.cpp:174-181 | the loops return true exactly when they flag some pair, given that each child check does the same |
| Collision.ReachedStep | src/OctreeNode.cpp:174-181 | a pair of paths below two nodes is reached exactly when the nodes overlap and the rest of the paths is reached from the two children |
| Collision.PairsOfInner | src/OctreeNode.cpp:174-181 | the pairs flagged by an inner step are the children's pairs, extended by the two child positions |
| Collision.CheckExact | src/OctreeNode.cpp:166-184 | a leaf pair is flagged exactly when the two leaves are at equal depth and every pair of their ancestors at equal depth overlaps |
| Collision.HitIffFlagged | src/OctreeNode.cpp:169-181 | the check returns true exactly when it flags some pair |
| Collision.CheckFindsLeafPair | src/OctreeNode.h:81-88 | the check returns true exactly when a leaf of one tree and a leaf of the other are reached |
| Collision.LeafAgainstInnerMisses | src/OctreeNode.cpp:169-181 | a leaf paired with an inner node yields false and no flags, even when the spheres overlap |
| Collision.CheckCollision | src/OctreeNode.cpp:152-185 | the call changes only flags, in both trees, and clears none of them |
| Collision.CheckCollisionFlagsFirst | src/OctreeNode.cpp:169-172 | a node of the first tree is flagged afterwards exactly when it was before or it is a reached leaf |
| Collision.CheckCollisionFlagsSecond | src/OctreeNode.cpp:169-172 | the same for the second tree |
| Collision.CloseBallsCollide | src/OctreeNode.cpp:167-172 | two leaves of radius 0.1 whose centres are 0.05 apart collide, and both are flagged |
| Collision.DistantBallsMiss | src/OctreeNode.cpp:167-168 | two leaves of radius 0.1 whose centres are 0.3 apart do not collide |
| World.RootBoxIsValid | src/WorldObject.cpp:26-29 | the root box literals pass the box constructor's assertions |
| World.Direction | src/WorldObject.cpp:43-49 | every rotation axis is a unit coordinate vector |
| World.NewObject | src/WorldObject.cpp:16-37 | a new object holds a well-formed `TREE_DEEPNESS`-level octree over its faces in the root box; all flags are clear and it is at its initial position |
| World.Init | src/WorldObject.cpp:39-53 | `init` clears every octree flag and the object flag and restores the initial position; the angle is in [0, 359] and the spin in [-2, 2] |
| World.InitForgetsHistory | src/WorldObject.cpp:39-42 | after `init`, nothing of the object's past flags, position or placement remains |
| World.InitIdempotent | src/WorldObject.cpp:39-53 | `init` twice with the same draws is `init` once |
| World.InitReachesEveryPose | src/WorldObject.cpp:43-52 | every axis, every angle in [0, 359] and every spin in [-2, 2] can be drawn |
| World.TruncMod360 | src/WorldObject.cpp:59 | C++ `% 360`: congruent to the argument, smaller than 360 in size, with the argument's sign |
| World.TruncModUnique | src/WorldObject.cpp:59 | those three properties determine the C++ remainder |
| World.TruncModOdd | src/WorldObject.cpp:59 | the C++ remainder of `-a` is minus that of `a` |
| World.Move | src/WorldObject.cpp:55-61 | `move` does nothing to a colliding object; it steps any other object by its velocity and turns it by its spin modulo 360, keeping the angle below 360 in size |
| World.MovesDrift | src/WorldObject.cpp:55-61 | after `k` moves a free object has travelled `k` velocities, and its angle is congruent to the start angle plus `k` spins |
| World.FrozenStaysPut | src/WorldObject.cpp:56 | a colliding object never moves again |
| World.CollisionDetection | src/WorldObject.cpp:63-73 | both object flags become `old or hit`, where a hit means some leaves of the two placed octrees are reached; only flags change, and no node flag is cleared |
| World.CollisionDetectionFlagsNodes | src/WorldObject.cpp:68-70 | per node: a node of the caller's octree is flagged when it was before or it is a reached leaf |
| World.SelectLevel | src/WorldObject.cpp:93-100 | the level `draw` shows is 1 plus `i` for every toggled key `'1' + i`, or `TREE_DEEPNESS` when `'0'` is toggled; it is always between 1 and 37 |
| World.LevelOfOnlyDigit | src/WorldObject.cpp:93-100 | with exactly digit `d` toggled, the level is `d`, and `0` stands for `TREE_DEEPNESS` |
| World.LevelWithoutDigits | src/WorldObject.cpp:94-98 | with no digit toggled, the level is 1 |
| Driver.CharCallback | src/main.cpp:57-64 | a digit key leaves exactly itself on among the digits; any other key flips only itself; a code point of 256 or more has no toggle |
| Driver.ClearDigitsFrom | src/main.cpp:60-61 | the loop from iteration `i` switches off the toggles of digits `i .. 9` and keeps every other toggle |
| Driver.ClearDigits | src/main.cpp:59-62 | the whole ten-iteration loop switches off exactly the digit toggles and keeps every other toggle |
| Driver.PressKeepsOneDigit | src/main.cpp:58-63 | no key press can leave two digits toggled |
| Driver.DigitPressSelectsLevel | src/main.cpp:58-63 | after pressing digit `d`, `draw` shows level `d` (`0` meaning `TREE_DEEPNESS`) |
| Driver.PressTwice | src/main.cpp:57-64 | a non-digit key pressed twice restores the toggles; a digit key pressed twice acts like one press |
| Driver.ChecksExact | src/main.cpp:235-236 | the inner loop checks `current` against every later object, in order |
| Driver.SweepExact | src/main.cpp:233-237 | the outer loop moves every object and checks every pair `i < j`, and does nothing else |
| Driver.SweepOrdered | src/main.cpp:233-237 | the outer loop emits its events in a strict order: a move, then the checks of that object against the later ones |
| Driver.PairCheckedBetweenMoves | src/main.cpp:233-237 | each pair `i < j` is checked, after `i` moved and before `j` moves |
| Driver.ScheduleOnce | src/main.cpp:233-237 | no move and no check occurs twice in a step, so each pair is checked exactly once |
| Driver.ScheduleInRange | src/main.cpp:233-236 | the loops index only existing objects and never check an object against itself |
| Driver.ApplyEvent | src/main.cpp:234-236 | one `move` or `collisionDetection` keeps every octree's shape, clears no flag of an object or of any octree node, and leaves colliding objects in place |
| Driver.Run | src/main.cpp:233-237 | the same for the whole loop: shapes kept, no object or node flag cleared, colliding objects in place |
| Driver.AllColliding | src/main.cpp:239-241 | `collision` is the AND of all object flags, true for no objects |
| Driver.MovementPhase | src/main.cpp:232-243 | the movement half of `step()` keeps every object's octree shape, clears no object or node flag, and leaves colliding objects in place |
| Driver.ResetPhase | src/main.cpp:247-252 | the reset half keeps the objects live |
| Driver.Step | src/main.cpp:230-253 | while paused nothing changes; a moving step ends with `collision` = AND of flags and space = not collision; a reset step re-inits every object and clears space and collision |
| Driver.NoResetAfterMoving | src/main.cpp:242-252 | the reset never runs in the same call that moved the objects |
| Driver.CollidingObjectsStayPut | src/main.cpp:232-243 | an object that was colliding when the step began keeps its position and flag |
| Driver.PauseThenRestart | src/main.cpp:239-252 | once every object collides, the scene stays frozen; one press of space plus a step restarts every object |

Definition used by `Octree.BuildWellFormed` and `World.NewObject`: a tree
is well formed when

- every node has at most 8 children;
- a node has a sphere exactly when it has faces, and the sphere holds all of
  them;
- a node without a sphere has no children;
- children exist only above the last level, and each is built from an
  octant over the parent's faces in it;
- a split node has exactly one child per octant that received a face, in
  octant order;
- every face passed down reaches a child.

## Left out

- OpenGL, GLFW and GLEW: window setup, shaders, the camera, textures, the
  drawing of `drawColliding`, `drawLevel`, `draw` and `render`. This is
  rendering and I/O.
  - For `drawLevel` and `draw`, only the node selection and the level
    choice are modelled.
  - `drawColliding` is left out entirely: it draws the flagged nodes and
    changes no state.
- Mesh loading (`Shape`) and `fitToUnitBox`. Only the `Face` triple is
  kept; a face's vertices are values here, not shared pointers.
- Single-precision floats, `sqrt` and `pow`: coordinates are `real`, and
  distances are compared through their squares, which is exact for
  non-negative values.
- The 4x4 Eigen transforms and `addTransitionMatrix`. These are the
  parameters `Transform` and `Placement`.
- `srand(time(nullptr))`, `rand()` and the chrono timing with its `cout`
  output in the `WorldObject` constructor. The draws are parameters:
  `Draws`, indexed by node path and iteration, and `Roll`.
- The `cout` of the child count; the count itself is `Octree.NumChildren`.
- The placement fields of a freshly constructed `WorldObject`, which stay
  unset until `init`. `World.NewObject` is the constructor followed by
  `init`, which is how the program always uses it.
- SphereFit.SphereLoop: the iteration counter `rIts` is an unbounded `nat`.
  In the program it is a 32-bit `int` (`OctreeNode.cpp:24`, incremented at
  `OctreeNode.cpp:65`). The loop bound adds up per-face thresholds that grow
  with the ratio of a face's size to its `a`-`b` distance. For a sliver face
  whose `a` and `b` nearly coincide, `rIts++` overflows (undefined
  behaviour) before any attempt covers the mesh. The termination and
  coverage promised here hold only for the unbounded counter.
- Octree.Build: requires `deepness >= 1`. Passing 0 would make `--deepness`
  wrap around to the largest `size_t` in the source, which the program never
  does.
- Octree.Build: requires the faces to be non-degenerate (`a` differs from
  `b` in every face). Without this the source can dereference an unset seed
  pointer. The condition is sufficient, not necessary.
- Collision.Check: requires every node of both trees to have a sphere.
  Otherwise the source dereferences a null origin. An octree built over an
  empty mesh would break this.
- Driver.Step: requires every object's octree to have a sphere in every
  node, for the same reason. Every mesh of the program is non-empty.
- Driver.CharCallback: returns `None` for code points of 256 or more. The
  source writes past its 256-entry array there.
- The 32-bit width of `angle`. The angle always stays below 360 in size, so
  `angle + rotation` cannot overflow.
- The `rotate` call, which turns the integer angle into a rotation. It lies
  inside the `Placement` parameter.
