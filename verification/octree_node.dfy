/** The sphere octree of OctreeNode.h / OctreeNode.cpp.

    A node owns a box, the faces that are (partly) in the box, a bounding
    sphere of those faces, 0 to 8 children and a collision flag. Nodes are
    immutable values here: `resetColliding` and `collides` return a new tree,
    and nodes are addressed by paths of child positions from the root. */
module Octree {
  import opened Nullable
  import opened Geometry
  import opened Boxes
  import opened SphereFit

  /** `sphere` is `None` for a node without faces: null origin, radius 0. */
  datatype Node = Node(box: Box, faces: seq<Face>, sphere: Option<Sphere>,
                       children: seq<Node>, colliding: bool)

  /** Child positions from the root; `[]` is the root itself. */
  type Path = seq<nat>

  /** The `rand()` values: the draw of iteration `rIts` of the sphere loop of
      the node reached through the octant numbers `at`. */
  type Draws = (Path, nat) -> nat

  predicate Leaf(n: Node)
  {
    |n.children| == 0
  }

  /** The node at path `p`, if the path exists. */
  function At(n: Node, p: Path): Option<Node>
    decreases |p|
  {
    if |p| == 0 then Some(n)
    else if p[0] < |n.children| then At(n.children[p[0]], p[1..])
    else None
  }

  /** `getRadius`, squared: 0 while the node has no sphere. */
  function RadiusSq(n: Node): real
  {
    if n.sphere.Some? then n.sphere.value.radiusSq else 0.0
  }

  /** `getScale`, squared: four times the squared radius. */
  function ScaleSq(n: Node): real
  {
    4.0 * RadiusSq(n)
  }

  /** The scale is the diameter: for the true radius `r`, `ScaleSq` is
      `(2 r)^2`. */
  lemma ScaleIsDiameter(n: Node, r: real)
    requires r >= 0.0 && r * r == RadiusSq(n)
    ensures ScaleSq(n) == (2.0 * r) * (2.0 * r)
  {
  }

  // ---------------------------------------------------------------------
  // Construction

  /** Every face kept by `facesIn` is one of the input faces, so the
      precondition of the sphere loop carries over to the children. */
  lemma FacesInNonDegenerate(b: Box, faces: seq<Face>)
    requires NonDegenerate(faces)
    ensures NonDegenerate(FacesIn(b, faces))
  {
    var r := FacesIn(b, faces);
    forall i | 0 <= i < |r|
      ensures DistSq(r[i].a, r[i].b) > 0.0
    {
      assert r[i] in r;
      var j :| 0 <= j < |faces| && faces[j] == r[i];
    }
  }

  /** The constructor with `deepness` levels. An empty face list gives a
      node without sphere or children; otherwise the sphere loop runs from
      `rIts = 1` and, while `--deepness > 0`, every octant of the box gets a
      child over `facesIn(faces)`, kept only if it has a sphere. The shape
      of the result is stated by BuildWellFormed. */
  function Build(box: Box, faces: seq<Face>, deepness: nat, rand: Draws, at: Path): (n: Node)
    requires NonDegenerate(faces) && deepness >= 1
    ensures n.box == box && n.faces == faces
    ensures n.sphere.None? <==> |faces| == 0
    decreases deepness, 0
  {
    if |faces| == 0 then
      Node(box, faces, None, [], false)
    else
      var s := SphereLoop(faces, (i: nat) => rand(at, i), 1);
      var kids := if deepness - 1 > 0 then BuildFrom(box, faces, deepness - 1, rand, at, 0) else [];
      Node(box, faces, Some(s), kids, false)
  }

  /** The children built from octants `k .. 7` of `parent`, in octant order,
      leaving out those without faces. */
  function BuildFrom(parent: Box, faces: seq<Face>, d: nat, rand: Draws, at: Path, k: nat): (cs: seq<Node>)
    requires NonDegenerate(faces) && d >= 1 && k <= 8
    ensures |cs| <= 8 - k
    decreases d, 8 - k
  {
    if k == 8 then []
    else
      var box := Split(parent)[k];
      FacesInNonDegenerate(box, faces);
      var child := Build(box, FacesIn(box, faces), d, rand, at + [k]);
      var rest := BuildFrom(parent, faces, d, rand, at, k + 1);
      if child.sphere.Some? then [child] + rest else rest
  }

  /** Every face with a vertex in the box has a vertex in some octant, so
      `facesIn` of that octant keeps it. */
  lemma FacesReachOctants(box: Box, faces: seq<Face>)
    ensures forall f :: f in faces && ContainsFace(box, f) ==>
      exists j :: 0 <= j < 8 && f in FacesIn(Split(box)[j], faces)
  {
    forall f | f in faces && ContainsFace(box, f)
      ensures exists j :: 0 <= j < 8 && f in FacesIn(Split(box)[j], faces)
    {
      var v := if Contains(box, f.a) then f.a else if Contains(box, f.b) then f.b else f.c;
      SplitCovers(box, v);
      assert f in FacesIn(Split(box)[OctantOf(box, v)], faces);
    }
  }

  /** The constructor builds a well-formed tree of `deepness` levels with no
      flag set. */
  lemma {:induction false} BuildWellFormed(box: Box, faces: seq<Face>, deepness: nat, rand: Draws, at: Path)
    requires NonDegenerate(faces) && deepness >= 1
    ensures WellFormed(Build(box, faces, deepness, rand, at), deepness)
    ensures AllClear(Build(box, faces, deepness, rand, at))
    decreases deepness, 0
  {
    if |faces| > 0 && deepness - 1 > 0 {
      var n := Build(box, faces, deepness, rand, at);
      BuildFromGood(box, faces, deepness - 1, rand, at, 0);
      BuildFromCovers(box, faces, deepness - 1, rand, at, 0);
      BuildFromOctants(box, faces, deepness - 1, rand, at, 0);
      FacesReachOctants(box, faces);
      assert n.children == BuildFrom(box, faces, deepness - 1, rand, at, 0);
    }
  }

  /** The children the constructor keeps are each a `GoodChild`. */
  lemma {:induction false} BuildFromGood(parent: Box, faces: seq<Face>, d: nat, rand: Draws, at: Path, k: nat)
    requires NonDegenerate(faces) && d >= 1 && k <= 8
    ensures forall c :: c in BuildFrom(parent, faces, d, rand, at, k) ==> GoodChild(c, parent, faces, d)
    decreases d, 8 - k
  {
    if k < 8 {
      var box := Split(parent)[k];
      FacesInNonDegenerate(box, faces);
      var child := Build(box, FacesIn(box, faces), d, rand, at + [k]);
      var rest := BuildFrom(parent, faces, d, rand, at, k + 1);
      BuildWellFormed(box, FacesIn(box, faces), d, rand, at + [k]);
      BuildFromGood(parent, faces, d, rand, at, k + 1);
      if child.sphere.Some? {
        assert BuildFrom(parent, faces, d, rand, at, k) == [child] + rest;
        assert GoodChild(child, parent, faces, d);
      }
    }
  }

  /** Every face that `facesIn` hands to one of the octants `k .. 7` ends up
      in a kept child: an octant is dropped only when it received no face. */
  lemma {:induction false} BuildFromCovers(parent: Box, faces: seq<Face>, d: nat, rand: Draws, at: Path, k: nat)
    requires NonDegenerate(faces) && d >= 1 && k <= 8
    ensures forall j, f :: k <= j < 8 && f in FacesIn(Split(parent)[j], faces) ==>
      exists c :: c in BuildFrom(parent, faces, d, rand, at, k) && f in c.faces
    decreases 8 - k
  {
    if k < 8 {
      var box := Split(parent)[k];
      FacesInNonDegenerate(box, faces);
      var child := Build(box, FacesIn(box, faces), d, rand, at + [k]);
      var rest := BuildFrom(parent, faces, d, rand, at, k + 1);
      var cs := BuildFrom(parent, faces, d, rand, at, k);
      BuildFromCovers(parent, faces, d, rand, at, k + 1);
      assert cs == if child.sphere.Some? then [child] + rest else rest;
      forall j, f | k <= j < 8 && f in FacesIn(Split(parent)[j], faces)
        ensures exists c :: c in cs && f in c.faces
      {
        if j == k {
          assert child in cs && f in child.faces;
        } else {
          var c :| c in rest && f in c.faces;
          assert c in cs;
        }
      }
    }
  }

  /** For each octant of `box`, whether `facesIn` hands it at least one of
      `faces`: whether the constructor keeps its child. */
  function Occupied(box: Box, faces: seq<Face>): (o: seq<bool>)
    ensures |o| == 8
  {
    seq(8, j requires 0 <= j < 8 => FacesIn(Split(box)[j], faces) != [])
  }

  /** The positions `k ..` at which `flags` holds, in increasing order. */
  function TrueIndices(flags: seq<bool>, k: nat): (js: seq<nat>)
    requires k <= |flags|
    ensures forall x :: 0 <= x < |js| ==> k <= js[x] < |flags| && flags[js[x]]
    ensures forall j :: k <= j < |flags| && flags[j] ==> j in js
    ensures forall x, y :: 0 <= x < y < |js| ==> js[x] < js[y]
    decreases |flags| - k
  {
    if k == |flags| then []
    else
      var rest := TrueIndices(flags, k + 1);
      if flags[k] then [k] + rest else rest
  }

  /** The octants `k .. 7` whose child the constructor keeps, in order. */
  function NonEmptyOctants(box: Box, faces: seq<Face>, k: nat): seq<nat>
    requires k <= 8
  {
    TrueIndices(Occupied(box, faces), k)
  }

  /** The children the constructor keeps from octants `k .. 7` are exactly
      one per non-empty octant, in octant order. */
  lemma {:induction false} BuildFromOctants(parent: Box, faces: seq<Face>, d: nat, rand: Draws, at: Path, k: nat)
    requires NonDegenerate(faces) && d >= 1 && k <= 8
    ensures var cs, js := BuildFrom(parent, faces, d, rand, at, k), NonEmptyOctants(parent, faces, k);
      |cs| == |js| && forall i :: 0 <= i < |js| ==> cs[i].box == Split(parent)[js[i]]
    decreases 8 - k
  {
    if k < 8 {
      var box := Split(parent)[k];
      FacesInNonDegenerate(box, faces);
      var child := Build(box, FacesIn(box, faces), d, rand, at + [k]);
      var rest := BuildFrom(parent, faces, d, rand, at, k + 1);
      var js := NonEmptyOctants(parent, faces, k + 1);
      BuildFromOctants(parent, faces, d, rand, at, k + 1);
      var cs, ks := BuildFrom(parent, faces, d, rand, at, k), NonEmptyOctants(parent, faces, k);
      assert Occupied(parent, faces)[k] == (FacesIn(box, faces) != []);
      if FacesIn(box, faces) != [] {
        assert cs == [child] + rest && ks == [k] + js;
        forall i | 0 <= i < |ks|
          ensures cs[i].box == Split(parent)[ks[i]]
        {
          if i > 0 {
            assert cs[i] == rest[i - 1] && ks[i] == js[i - 1];
          }
        }
      } else {
        assert cs == rest && ks == js;
      }
    }
  }

  /** A child as the constructor keeps it: made from an octant, well formed
      for the remaining levels and unflagged. */
  predicate GoodChild(c: Node, parent: Box, faces: seq<Face>, d: nat)
  {
    ChildOf(c, parent, faces) && WellFormed(c, d) && AllClear(c)
  }

  /** `c` is a kept child of a node with box `parent` and faces `faces`: it
      has a sphere, its box is an octant and its faces are those of the
      parent that are in that octant. */
  predicate ChildOf(c: Node, parent: Box, faces: seq<Face>)
  {
    && c.sphere.Some?
    && (exists j :: 0 <= j < 8 && c.box == Split(parent)[j])
    && c.faces == FacesIn(c.box, faces)
  }

  /** The shape the constructor gives a tree of `d` levels: at most 8
      children, a sphere exactly when there are faces, every face within the
      sphere, children only below a level with `d > 1`, children made as
      `ChildOf` describes, and every face with a vertex in the box passed on
      to some child when the node was split. */
  predicate WellFormed(n: Node, d: nat)
    decreases n
  {
    && |n.children| <= 8
    && (n.sphere.None? <==> |n.faces| == 0)
    && (n.sphere.Some? ==> AllIn(n.faces, n.sphere.value))
    && (n.sphere.None? ==> |n.children| == 0)
    && (d > 1 && n.sphere.Some? ==>
          forall f :: f in n.faces && ContainsFace(n.box, f) ==>
            exists c :: c in n.children && f in c.faces)
    && (d > 1 && n.sphere.Some? ==>
          var js := NonEmptyOctants(n.box, n.faces, 0);
          |n.children| == |js| && forall i :: 0 <= i < |js| ==> n.children[i].box == Split(n.box)[js[i]])
    && (forall c :: c in n.children ==>
          && d > 1
          && ChildOf(c, n.box, n.faces)
          && WellFormed(c, d - 1))
  }

  /** Every node of a tree built with `deepness` levels lies less than
      `deepness` steps below the root: the height is at most `deepness`. */
  lemma {:induction false} PathsShorterThanDeepness(n: Node, d: nat, p: Path)
    requires WellFormed(n, d) && At(n, p).Some?
    ensures |p| < d || (|p| == 0 && d == 0)
    decreases |p|
  {
    if |p| > 0 {
      assert n.children[p[0]] in n.children;
      PathsShorterThanDeepness(n.children[p[0]], d - 1, p[1..]);
    }
  }

  /** Every node of a well-formed tree with faces at the root has a sphere
      that holds all of its faces, and its faces are faces of the root. */
  lemma {:induction false} EveryNodeCovered(n: Node, d: nat, p: Path)
    requires WellFormed(n, d) && |n.faces| > 0 && At(n, p).Some?
    ensures var m := At(n, p).value;
      && m.sphere.Some? && AllIn(m.faces, m.sphere.value)
      && forall f :: f in m.faces ==> f in n.faces
    decreases |p|
  {
    if |p| > 0 {
      var c := n.children[p[0]];
      assert c in n.children;
      EveryNodeCovered(c, d - 1, p[1..]);
    }
  }

  /** The child of every octant that received a face is kept. */
  lemma NonEmptyOctantKept(n: Node, d: nat, j: nat)
    requires WellFormed(n, d) && d > 1 && n.sphere.Some?
    requires j < 8 && FacesIn(Split(n.box)[j], n.faces) != []
    ensures exists c :: c in n.children && c.box == Split(n.box)[j]
  {
    var js := NonEmptyOctants(n.box, n.faces, 0);
    assert Occupied(n.box, n.faces)[j];
    var i :| 0 <= i < |js| && js[i] == j;
    assert n.children[i] in n.children;
  }

  /** Triangle conservation: below a split node, every face with a vertex in
      the node's box is held by some child. */
  lemma FacesConserved(n: Node, d: nat, f: Face)
    requires WellFormed(n, d) && d > 1 && f in n.faces && ContainsFace(n.box, f)
    ensures exists c :: c in n.children && f in c.faces
  {
  }

  // ---------------------------------------------------------------------
  // Flags

  /** No node of the tree is flagged. */
  predicate AllClear(n: Node)
    decreases n
  {
    !n.colliding && forall c :: c in n.children ==> AllClear(c)
  }

  /** The two trees differ at most in their flags. */
  predicate SameShape(a: Node, b: Node)
    decreases a
  {
    && a.box == b.box && a.faces == b.faces && a.sphere == b.sphere
    && |a.children| == |b.children|
    && forall i :: 0 <= i < |a.children| ==> SameShape(a.children[i], b.children[i])
  }

  /** `collides`: the node's own flag is set; nothing else changes. */
  function Collides(n: Node): (r: Node)
    ensures r.colliding
    ensures SameShape(r, n) && r.children == n.children
  {
    SameShapeRefl(n);
    n.(colliding := true)
  }

  lemma {:induction false} SameShapeRefl(n: Node)
    ensures SameShape(n, n)
    decreases n
  {
    forall i | 0 <= i < |n.children|
      ensures SameShape(n.children[i], n.children[i])
    {
      SameShapeRefl(n.children[i]);
    }
  }

  lemma {:induction false} SameShapeTrans(a: Node, b: Node, c: Node)
    requires SameShape(a, b) && SameShape(b, c)
    ensures SameShape(a, c)
    decreases a
  {
    forall i | 0 <= i < |a.children|
      ensures SameShape(a.children[i], c.children[i])
    {
      SameShapeTrans(a.children[i], b.children[i], c.children[i]);
    }
  }

  /** `resetColliding`: the flag of the node and of every descendant becomes
      false. */
  function Reset(n: Node): (r: Node)
    ensures SameShape(r, n)
    ensures AllClear(r)
    decreases n
  {
    var kids := seq(|n.children|, i requires 0 <= i < |n.children| => Reset(n.children[i]));
    Node(n.box, n.faces, n.sphere, kids, false)
  }

  /** Trees of the same shape reset to the same tree. */
  lemma {:induction false} ResetForgetsFlags(a: Node, b: Node)
    requires SameShape(a, b)
    ensures Reset(a) == Reset(b)
    decreases a
  {
    forall i | 0 <= i < |a.children|
      ensures Reset(a.children[i]) == Reset(b.children[i])
    {
      ResetForgetsFlags(a.children[i], b.children[i]);
    }
    assert Reset(a).children == Reset(b).children;
  }

  /** Resetting twice is resetting once. */
  lemma ResetIdempotent(n: Node)
    ensures Reset(Reset(n)) == Reset(n)
  {
    ResetForgetsFlags(Reset(n), n);
  }

  /** A tree is its own reset exactly when no flag is set. */
  lemma {:induction false} ResetFixpoint(n: Node)
    ensures Reset(n) == n <==> AllClear(n)
    decreases n
  {
    forall i | 0 <= i < |n.children|
      ensures Reset(n.children[i]) == n.children[i] <==> AllClear(n.children[i])
    {
      ResetFixpoint(n.children[i]);
    }
    if AllClear(n) {
      assert Reset(n).children == n.children;
    }
  }

  /** Path view of the reset: every node reachable before is reachable after,
      with the same box, faces and sphere, and unflagged. */
  lemma {:induction false} ResetAt(n: Node, p: Path)
    ensures At(Reset(n), p).Some? <==> At(n, p).Some?
    ensures At(n, p).Some? ==>
      && !At(Reset(n), p).value.colliding
      && SameShape(At(Reset(n), p).value, At(n, p).value)
    decreases |p|
  {
    if |p| > 0 && p[0] < |n.children| {
      ResetAt(n.children[p[0]], p[1..]);
    }
  }

  /** The paths of `P` that start with child position `i`, without it. */
  function Below(P: set<Path>, i: nat): set<Path>
  {
    set p | p in P && |p| > 0 && p[0] == i :: p[1..]
  }

  /** Raise the flag of every node whose path is in `P` (the `collides`
      calls of a collision check); other flags are kept. */
  function ApplyFlags(n: Node, P: set<Path>): (r: Node)
    ensures SameShape(r, n)
    decreases n
  {
    var kids := seq(|n.children|, i requires 0 <= i < |n.children| => ApplyFlags(n.children[i], Below(P, i)));
    Node(n.box, n.faces, n.sphere, kids, n.colliding || [] in P)
  }

  /** Flags after `ApplyFlags`: a node is flagged exactly when it was before
      or its path is in `P`. In particular no flag is ever cleared. */
  lemma {:induction false} ApplyFlagsAt(n: Node, P: set<Path>, p: Path)
    ensures At(ApplyFlags(n, P), p).Some? <==> At(n, p).Some?
    ensures At(n, p).Some? ==>
      At(ApplyFlags(n, P), p).value.colliding == (At(n, p).value.colliding || p in P)
    decreases |p|
  {
    if |p| > 0 && p[0] < |n.children| {
      var i, q := p[0], p[1..];
      ApplyFlagsAt(n.children[i], Below(P, i), q);
      assert p == [i] + q;
      if q in Below(P, i) {
        var p' :| p' in P && |p'| > 0 && p'[0] == i && p'[1..] == q;
        assert p' == [i] + q;
      }
    }
  }

  /** Every node flagged in `n` is still present, and still flagged, in
      `n'`: no flag was cleared. */
  ghost predicate FlagsKept(n: Node, n': Node)
  {
    forall p :: At(n, p).Some? && At(n, p).value.colliding ==> At(n', p).Some? && At(n', p).value.colliding
  }

  /** `ApplyFlags` only raises flags. */
  lemma ApplyFlagsKeeps(n: Node, P: set<Path>)
    ensures FlagsKept(n, ApplyFlags(n, P))
  {
    forall p | At(n, p).Some? && At(n, p).value.colliding
      ensures At(ApplyFlags(n, P), p).Some? && At(ApplyFlags(n, P), p).value.colliding
    {
      ApplyFlagsAt(n, P, p);
    }
  }

  /** Raising flags does not change what a reset produces. */
  lemma ResetAfterFlags(n: Node, P: set<Path>)
    ensures Reset(ApplyFlags(n, P)) == Reset(n)
  {
    ResetForgetsFlags(ApplyFlags(n, P), n);
  }

  // ---------------------------------------------------------------------
  // Counting

  /** The number of nodes of the tree, the node itself included. */
  function Size(n: Node): (s: nat)
    ensures s >= 1
    decreases n
  {
    1 + Total(ChildSizes(n), |n.children|)
  }

  function ChildSizes(n: Node): (s: seq<nat>)
    ensures |s| == |n.children|
    decreases n, 0
  {
    seq(|n.children|, i requires 0 <= i < |n.children| => Size(n.children[i]))
  }

  /** `getNumChildren`: 0 for a leaf, otherwise the number of children plus
      the counts of all children. It is the number of all descendants. */
  method NumChildren(n: Node) returns (num: nat)
    ensures num == Size(n) - 1
    decreases n
  {
    if |n.children| == 0 {
      return 0;
    }
    ghost var sizes := ChildSizes(n);
    num := |n.children|;
    var i := 0;
    while i < |n.children|
      invariant 0 <= i <= |n.children|
      invariant num == |n.children| + Total(sizes, i) - i
    {
      var sub := NumChildren(n.children[i]);
      num := num + sub;
      i := i + 1;
    }
  }

  // ---------------------------------------------------------------------
  // Level selection of drawLevel

  /** The largest `size_t`. */
  const SIZE_MAX: nat := 0xFFFF_FFFF_FFFF_FFFF

  /** `--lvl` on a `size_t`: 0 wraps around to `SIZE_MAX`. */
  function Decrement(lvl: nat): (r: nat)
    requires lvl <= SIZE_MAX
    ensures r <= SIZE_MAX
    ensures (r + 1) % (SIZE_MAX + 1) == lvl
  {
    if lvl == 0 then SIZE_MAX else lvl - 1
  }

  /** The depth (counting the root as level 1) whose nodes `drawLevel(lvl)`
      draws: `lvl` itself, or `SIZE_MAX + 1` for a level 0 that wraps. */
  function Effective(lvl: nat): nat
  {
    if lvl == 0 then SIZE_MAX + 1 else lvl
  }

  /** The concatenation of a sequence of sequences. */
  function Flatten(ss: seq<seq<Path>>): (r: seq<Path>)
    ensures forall x :: x in r <==> exists i :: 0 <= i < |ss| && x in ss[i]
  {
    if |ss| == 0 then []
    else
      var last := ss[|ss| - 1];
      var r := Flatten(ss[..|ss| - 1]) + last;
      assert forall i :: 0 <= i < |ss| - 1 ==> ss[..|ss| - 1][i] == ss[i];
      r
  }

  /** The paths of `ps`, each below child position `i`. */
  function Prefixed(i: nat, ps: seq<Path>): (r: seq<Path>)
    ensures forall p :: p in r <==> |p| > 0 && p[0] == i && p[1..] in ps
  {
    var r := seq(|ps|, j requires 0 <= j < |ps| => [i] + ps[j]);
    assert forall j :: 0 <= j < |ps| ==> r[j][1..] == ps[j];
    forall p | |p| > 0 && p[0] == i && p[1..] in ps
      ensures p in r
    {
      var j :| 0 <= j < |ps| && ps[j] == p[1..];
      assert r[j] == p;
    }
    r
  }

  /** `drawLevel`: the paths of the nodes it draws, in drawing order. The
      node draws itself when `--lvl` reaches 0 and otherwise hands the
      decremented level to every child. */
  function DrawLevel(n: Node, lvl: nat): (ps: seq<Path>)
    requires lvl <= SIZE_MAX
    decreases n
  {
    var l := Decrement(lvl);
    if l == 0 then [[]]
    else Flatten(seq(|n.children|, i requires 0 <= i < |n.children| => Prefixed(i, DrawLevel(n.children[i], l))))
  }

  /** Above the drawn level, a path is drawn exactly when it starts at a
      child and the rest of it is drawn below that child. */
  lemma DrawnThroughChild(n: Node, lvl: nat, p: Path)
    requires lvl <= SIZE_MAX && Decrement(lvl) != 0
    ensures p in DrawLevel(n, lvl) <==>
      |p| > 0 && p[0] < |n.children| && p[1..] in DrawLevel(n.children[p[0]], Decrement(lvl))
  {
    var l := Decrement(lvl);
    var ss := seq(|n.children|, i requires 0 <= i < |n.children| => Prefixed(i, DrawLevel(n.children[i], l)));
    assert DrawLevel(n, lvl) == Flatten(ss);
    if p in Flatten(ss) {
      var i :| 0 <= i < |ss| && p in ss[i];
    }
    if |p| > 0 && p[0] < |n.children| && p[1..] in DrawLevel(n.children[p[0]], l) {
      assert p in ss[p[0]];
    }
  }

  /** `drawLevel(lvl)` draws exactly the nodes at depth `lvl` (root = 1), and
      for `lvl = 0` the nodes at depth `SIZE_MAX + 1`. */
  lemma {:induction false} DrawLevelExact(n: Node, lvl: nat, p: Path)
    requires lvl <= SIZE_MAX
    ensures p in DrawLevel(n, lvl) <==> At(n, p).Some? && |p| + 1 == Effective(lvl)
    decreases n
  {
    var l := Decrement(lvl);
    if l != 0 {
      DrawnThroughChild(n, lvl, p);
      if |p| > 0 && p[0] < |n.children| {
        DrawLevelExact(n.children[p[0]], l, p[1..]);
      }
    }
  }

  /** With the levels a tree of `deepness` levels can have, a level past
      `deepness` draws nothing, and level 0 draws nothing either. */
  lemma DrawLevelBeyondDeepness(n: Node, d: nat, lvl: nat)
    requires WellFormed(n, d) && 1 <= d <= SIZE_MAX && lvl <= SIZE_MAX
    requires lvl == 0 || lvl > d
    ensures DrawLevel(n, lvl) == []
  {
    var ps := DrawLevel(n, lvl);
    if |ps| > 0 {
      var p := ps[0];
      assert p in ps;
      DrawLevelExact(n, lvl, p);
      PathsShorterThanDeepness(n, d, p);
    }
  }
}
