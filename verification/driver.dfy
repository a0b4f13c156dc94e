/** The driver of main.cpp: the key toggles that `char_callback` flips and
    the `step()` state machine that moves the objects, checks every pair of
    them, pauses when all of them collide and restarts the scene on the next
    press of the space key. */
module Driver {
  import opened Nullable
  import opened Geometry
  import opened Octree
  import opened Collision
  import opened World

  /** Size of the `keyToggles` array. */
  const KEYS: nat := 256

  /** Toggle index of the space key. */
  const SPACE: nat := ' ' as nat

  predicate IsDigitKey(k: nat)
  {
    DigitKey(0) <= k <= DigitKey(9)
  }

  // ---------------------------------------------------------------------
  // Key toggles

  /** `char_callback(key)`: a digit key first clears all ten digit toggles;
      then the key's own toggle flips. A code point of 256 or more indexes
      past the array: `None`. */
  function CharCallback(t: seq<bool>, key: nat): (r: Option<seq<bool>>)
    requires |t| == KEYS
    ensures r.Some? <==> key < KEYS
    ensures r.Some? ==> |r.value| == KEYS
    ensures r.Some? && IsDigitKey(key) ==>
      forall k :: 0 <= k < KEYS ==> r.value[k] == if IsDigitKey(k) then k == key else t[k]
    ensures r.Some? && !IsDigitKey(key) ==>
      forall k :: 0 <= k < KEYS ==> r.value[k] == if k == key then !t[k] else t[k]
  {
    if key >= KEYS then None
    else
      var cleared := if IsDigitKey(key) then ClearDigits(t) else t;
      Some(cleared[key := !cleared[key]])
  }

  /** The loop `for (i = 0; i < 10; ++i) keyToggles['0' + i] = false`:
      every digit toggle ends up false, every other toggle is kept. */
  function ClearDigits(t: seq<bool>): (r: seq<bool>)
    requires |t| == KEYS
    ensures |r| == KEYS
    ensures forall k :: 0 <= k < KEYS ==> r[k] == (!IsDigitKey(k) && t[k])
  {
    ClearDigitsFrom(t, 0)
  }

  /** The same loop entered at iteration `i`: the toggles of digits `i .. 9`
      become false, the others are kept. */
  function ClearDigitsFrom(t: seq<bool>, i: nat): (r: seq<bool>)
    requires |t| == KEYS && i <= 10
    ensures |r| == KEYS
    ensures forall k :: 0 <= k < KEYS ==> r[k] == (!(DigitKey(i) <= k <= DigitKey(9)) && t[k])
    decreases 10 - i
  {
    if i == 10 then t else ClearDigitsFrom(t[DigitKey(i) := false], i + 1)
  }

  /** At most one digit key is toggled. */
  predicate AtMostOneDigit(t: seq<bool>)
    requires |t| == KEYS
  {
    forall j, k :: 0 <= j < KEYS && 0 <= k < KEYS && IsDigitKey(j) && IsDigitKey(k) && t[j] && t[k] ==> j == k
  }

  /** Starting from all toggles off, any sequence of key presses leaves at
      most one digit toggled: no press can add a second one. */
  lemma PressKeepsOneDigit(t: seq<bool>, key: nat)
    requires |t| == KEYS && key < KEYS && AtMostOneDigit(t)
    ensures AtMostOneDigit(CharCallback(t, key).value)
  {
  }

  /** Pressing a digit key leaves exactly that digit toggled, so `draw`
      shows the level of that digit. */
  lemma DigitPressSelectsLevel(t: seq<bool>, d: nat)
    requires |t| == KEYS && d <= 9
    ensures var t' := CharCallback(t, DigitKey(d)).value;
      OnlyDigit(t', d) &&
      (d == 0 ==> t'[DigitKey(0)]) &&
      (d > 0 ==> !t'[DigitKey(0)] && 1 + DigitSum(t', 9) == d)
  {
    var t' := CharCallback(t, DigitKey(d)).value;
    assert OnlyDigit(t', d);
    LevelOfOnlyDigit(t', d);
  }

  /** Pressing a non-digit key twice restores the toggles; pressing a digit
      key twice is pressing it once, so a digit can be moved but never
      switched off. */
  lemma PressTwice(t: seq<bool>, key: nat)
    requires |t| == KEYS && key < KEYS
    ensures !IsDigitKey(key) ==> CharCallback(CharCallback(t, key).value, key).value == t
    ensures IsDigitKey(key) ==>
      CharCallback(CharCallback(t, key).value, key).value == CharCallback(t, key).value
  {
  }

  // ---------------------------------------------------------------------
  // The pair schedule of `step()`

  /** What the movement loop does, in order: move object `i`, or run
      `objs[i].collisionDetection(objs[j])`. */
  datatype Event = Moved(i: nat) | Checked(i: nat, j: nat)

  /** The inner loop: check `current` against `next .. n - 1`. */
  function Checks(current: nat, next: nat, n: nat): seq<Event>
    decreases n - next
  {
    if next >= n then [] else [Checked(current, next)] + Checks(current, next + 1, n)
  }

  /** The outer loop from `current` on: move the object, then run the inner
      loop from `current + 1`. */
  function Sweep(current: nat, n: nat): seq<Event>
    decreases n - current
  {
    if current >= n then [] else [Moved(current)] + Checks(current, current + 1, n) + Sweep(current + 1, n)
  }

  function Schedule(n: nat): seq<Event>
  {
    Sweep(0, n)
  }

  /** The position of an event in the intended order: `Moved(i)` comes
      right before the checks of `i`, which come in order of `j`, and all of
      them before anything about `i + 1`. */
  function Rank(e: Event): (nat, nat)
  {
    match e
    case Moved(i) => (i, i)
    case Checked(i, j) => (i, j)
  }

  predicate Before(e: Event, f: Event)
  {
    Rank(e).0 < Rank(f).0 || (Rank(e).0 == Rank(f).0 && Rank(e).1 < Rank(f).1)
  }

  /** Strictly increasing in rank: in particular no event occurs twice. */
  predicate Ordered(es: seq<Event>)
  {
    forall x, y :: 0 <= x < y < |es| ==> Before(es[x], es[y])
  }

  lemma OrderedConcat(a: seq<Event>, b: seq<Event>)
    requires Ordered(a) && Ordered(b)
    requires forall x, y :: 0 <= x < |a| && 0 <= y < |b| ==> Before(a[x], b[y])
    ensures Ordered(a + b)
  {
    forall x, y | 0 <= x < y < |a + b|
      ensures Before((a + b)[x], (a + b)[y])
    {
      if y < |a| {
      } else if x >= |a| {
        assert (a + b)[x] == b[x - |a|] && (a + b)[y] == b[y - |a|];
      } else {
        assert (a + b)[y] == b[y - |a|];
      }
    }
  }

  /** The inner loop checks exactly `current` against `next .. n - 1`, in
      order. */
  lemma {:induction false} ChecksExact(current: nat, next: nat, n: nat)
    ensures forall e :: e in Checks(current, next, n) <==> e.Checked? && e.i == current && next <= e.j < n
    ensures Ordered(Checks(current, next, n))
    decreases n - next
  {
    if next < n {
      ChecksExact(current, next + 1, n);
      var rest := Checks(current, next + 1, n);
      assert forall y :: 0 <= y < |rest| ==> rest[y] in rest;
      OrderedConcat([Checked(current, next)], rest);
    }
  }

  /** The outer loop from `current` moves each object `current .. n - 1`
      and checks each pair `i < j` of them. */
  lemma {:induction false} SweepExact(current: nat, n: nat)
    ensures forall e :: e in Sweep(current, n) <==>
      (e.Moved? && current <= e.i < n) || (e.Checked? && current <= e.i < e.j < n)
    decreases n - current
  {
    if current < n {
      SweepExact(current + 1, n);
      ChecksExact(current, current + 1, n);
    }
  }

  /** The outer loop emits its events in rank order. */
  lemma {:induction false} SweepOrdered(current: nat, n: nat)
    ensures Ordered(Sweep(current, n))
    decreases n - current
  {
    if current < n {
      var inner := Checks(current, current + 1, n);
      var head := [Moved(current)] + inner;
      var rest := Sweep(current + 1, n);
      SweepOrdered(current + 1, n);
      ChecksExact(current, current + 1, n);
      forall y | 0 <= y < |inner|
        ensures Before(Moved(current), inner[y])
      {
        assert inner[y] in inner;
      }
      OrderedConcat([Moved(current)], inner);
      forall x, y | 0 <= x < |head| && 0 <= y < |rest|
        ensures Before(head[x], rest[y])
      {
        HeadRank(current, n, x);
        SweepRank(current + 1, n, y);
      }
      OrderedConcat(head, rest);
    }
  }

  /** Every event of the head of the outer loop at `current` is about
      object `current`. */
  lemma HeadRank(current: nat, n: nat, x: nat)
    requires x < |[Moved(current)] + Checks(current, current + 1, n)|
    ensures Rank(([Moved(current)] + Checks(current, current + 1, n))[x]).0 == current
  {
    if x > 0 {
      var inner := Checks(current, current + 1, n);
      ChecksExact(current, current + 1, n);
      assert inner[x - 1] in inner;
    }
  }

  /** Every event of the outer loop from `current` is about an object
      `current` or later. */
  lemma SweepRank(current: nat, n: nat, y: nat)
    requires y < |Sweep(current, n)|
    ensures Rank(Sweep(current, n)[y]).0 >= current
  {
    SweepExact(current, n);
    assert Sweep(current, n)[y] in Sweep(current, n);
  }

  /** In an ordered sequence events come in rank order, so no event occurs
      twice. */
  lemma OrderedIndices(es: seq<Event>, x: nat, y: nat)
    requires Ordered(es) && x < |es| && y < |es|
    ensures Before(es[x], es[y]) ==> x < y
    ensures es[x] == es[y] ==> x == y
  {
    if x < y {
      assert Before(es[x], es[y]);
    } else if y < x {
      assert Before(es[y], es[x]);
    }
  }

  /** Every pair `i < j` is checked in a step, after object `i` has moved
      and before object `j` moves. */
  lemma PairCheckedBetweenMoves(n: nat, i: nat, j: nat)
    requires i < j < n
    ensures var s := Schedule(n);
      exists x, y, z :: 0 <= x < y < z < |s| && s[x] == Moved(i) && s[y] == Checked(i, j) && s[z] == Moved(j)
  {
    var s := Schedule(n);
    SweepExact(0, n);
    SweepOrdered(0, n);
    var x := IndexOf(s, Moved(i));
    var y := IndexOf(s, Checked(i, j));
    var z := IndexOf(s, Moved(j));
    OrderedIndices(s, x, y);
    OrderedIndices(s, y, z);
    assert 0 <= x < y < z < |s| && s[x] == Moved(i) && s[y] == Checked(i, j) && s[z] == Moved(j);
  }

  /** A position of `e` in `s`. */
  function IndexOf(s: seq<Event>, e: Event): (x: nat)
    requires e in s
    ensures x < |s| && s[x] == e
  {
    if s[0] == e then 0 else 1 + IndexOf(s[1..], e)
  }

  /** No event occurs twice in a step: in particular each pair is checked
      once. */
  lemma ScheduleOnce(n: nat)
    ensures var s := Schedule(n);
      forall y, y' :: 0 <= y < |s| && 0 <= y' < |s| && s[y] == s[y'] ==> y == y'
  {
    var s := Sweep(0, n);
    SweepOrdered(0, n);
    forall y, y' | 0 <= y < |s| && 0 <= y' < |s| && s[y] == s[y']
      ensures y == y'
    {
      OrderedIndices(s, y, y');
    }
  }

  /** Only the objects of a schedule of `n` are touched, and an object is
      never checked against itself. */
  lemma ScheduleInRange(n: nat)
    ensures forall e :: e in Schedule(n) ==> ValidEvent(e, n)
  {
    SweepExact(0, n);
  }

  // ---------------------------------------------------------------------
  // Running a step

  /** Every object's octree has a sphere in every node, as an octree over
      a non-empty mesh does. */
  predicate AllLive(objs: seq<Object>)
  {
    forall k :: 0 <= k < |objs| ==> Live(objs[k].octree)
  }

  predicate ValidEvent(e: Event, n: nat)
  {
    match e
    case Moved(i) => i < n
    case Checked(i, j) => i < n && j < n && i != j
  }

  /** What a step may do to an object: flags are raised but never lowered,
      on the object and on every node of its octree; the octree keeps its
      shape, and a colliding object keeps its placement. */
  ghost predicate Evolves(o: Object, o': Object)
  {
    && SameShape(o'.octree, o.octree)
    && FlagsKept(o.octree, o'.octree)
    && (o.colliding ==> o'.colliding && o'.position == o.position && o'.angle == o.angle)
    && o'.initialPosition == o.initialPosition && o'.velocity == o.velocity
    && o'.axis == o.axis && o'.rotation == o.rotation
  }

  lemma EvolvesTrans(o: Object, o': Object, o'': Object)
    requires Evolves(o, o') && Evolves(o', o'')
    ensures Evolves(o, o'')
  {
    SameShapeTrans(o''.octree, o'.octree, o.octree);
  }

  function ApplyEvent(objs: seq<Object>, e: Event, place: Placement): (r: seq<Object>)
    requires AllLive(objs) && ValidEvent(e, |objs|)
    ensures |r| == |objs| && AllLive(r)
    ensures forall k :: 0 <= k < |objs| ==> Evolves(objs[k], r[k])
  {
    assert forall k :: 0 <= k < |objs| ==> Evolves(objs[k], objs[k]) by {
      forall k | 0 <= k < |objs| {
        SameShapeRefl(objs[k].octree);
      }
    }
    match e
    case Moved(i) =>
      objs[i := Move(objs[i])]
    case Checked(i, j) =>
      var c := CollisionDetection(objs[i], objs[j], place);
      SameShapeLive(c.0.octree, objs[i].octree);
      SameShapeLive(c.1.octree, objs[j].octree);
      objs[i := c.0][j := c.1]
  }

  /** The events of `es`, one after the other. */
  function Run(objs: seq<Object>, es: seq<Event>, place: Placement): (r: seq<Object>)
    requires AllLive(objs) && forall e :: e in es ==> ValidEvent(e, |objs|)
    ensures |r| == |objs| && AllLive(r)
    ensures forall k :: 0 <= k < |objs| ==> Evolves(objs[k], r[k])
    decreases |es|
  {
    if |es| == 0 then
      assert forall k :: 0 <= k < |objs| ==> Evolves(objs[k], objs[k]) by {
        forall k | 0 <= k < |objs| {
          SameShapeRefl(objs[k].octree);
        }
      }
      objs
    else
      var next := ApplyEvent(objs, es[0], place);
      var r := Run(next, es[1..], place);
      assert forall k :: 0 <= k < |objs| ==> Evolves(objs[k], r[k]) by {
        forall k | 0 <= k < |objs| {
          EvolvesTrans(objs[k], next[k], r[k]);
        }
      }
      r
  }

  /** `collision &= getColliding()` over all objects, from `true`. */
  function AllColliding(objs: seq<Object>): (b: bool)
    ensures b <==> forall k :: 0 <= k < |objs| ==> objs[k].colliding
  {
    if |objs| == 0 then true
    else
      assert forall k :: 1 <= k < |objs| ==> objs[k] == objs[1..][k - 1];
      objs[0].colliding && AllColliding(objs[1..])
  }

  /** The program's state: the objects, the key toggles and `collision`. */
  datatype Scene = Scene(objs: seq<Object>, toggles: seq<bool>, collision: bool)

  predicate Good(s: Scene)
  {
    |s.toggles| == KEYS && AllLive(s.objs)
  }

  /** The first half of `step()`: when space is toggled and there is no
      collision, run the schedule, set `collision` to the AND of the object
      flags and let space stay toggled only without a collision. */
  function MovementPhase(s: Scene, place: Placement): (r: Scene)
    requires Good(s)
    ensures Good(r) && |r.objs| == |s.objs|
    ensures forall k :: 0 <= k < |s.objs| ==> Evolves(s.objs[k], r.objs[k])
  {
    if s.toggles[SPACE] && !s.collision then
      ScheduleInRange(|s.objs|);
      var objs := Run(s.objs, Schedule(|s.objs|), place);
      var all := AllColliding(objs);
      Scene(objs, s.toggles[SPACE := !all], all)
    else
      assert forall k :: 0 <= k < |s.objs| ==> Evolves(s.objs[k], s.objs[k]) by {
        forall k | 0 <= k < |s.objs| {
          SameShapeRefl(s.objs[k].octree);
        }
      }
      s
  }

  /** The second half of `step()`: when space is toggled while `collision`
      holds, untoggle space, `init` every object (with the draws `rolls`)
      and clear `collision`. */
  function ResetPhase(s: Scene, rolls: seq<Roll>): (r: Scene)
    requires Good(s) && |rolls| == |s.objs|
    ensures Good(r) && |r.objs| == |s.objs|
  {
    if s.toggles[SPACE] && s.collision then
      var objs := seq(|s.objs|, k requires 0 <= k < |s.objs| => Init(s.objs[k], rolls[k]));
      assert AllLive(objs) by {
        forall k | 0 <= k < |objs| {
          SameShapeLive(objs[k].octree, s.objs[k].octree);
        }
      }
      Scene(objs, s.toggles[SPACE := false], false)
    else s
  }

  /** `step()`. */
  function Step(s: Scene, place: Placement, rolls: seq<Roll>): (r: Scene)
    requires Good(s) && |rolls| == |s.objs|
    ensures Good(r) && |r.objs| == |s.objs|
    ensures !s.toggles[SPACE] ==> r == s
    ensures s.toggles[SPACE] && !s.collision ==>
      && (r.collision <==> forall k :: 0 <= k < |r.objs| ==> r.objs[k].colliding)
      && r.toggles == s.toggles[SPACE := !r.collision]
      && forall k :: 0 <= k < |s.objs| ==> Evolves(s.objs[k], r.objs[k])
    ensures s.toggles[SPACE] && s.collision ==>
      && !r.collision && r.toggles == s.toggles[SPACE := false]
      && forall k :: 0 <= k < |s.objs| ==> Restarted(s.objs[k], r.objs[k])
  {
    ResetPhase(MovementPhase(s, place), rolls)
  }

  /** `o'` is `o` after `init`: unflagged everywhere, back at its initial
      position, with a fresh angle and spin in range. */
  predicate Restarted(o: Object, o': Object)
  {
    && AllClear(o'.octree) && SameShape(o'.octree, o.octree) && !o'.colliding
    && o'.position == o.initialPosition && o'.initialPosition == o.initialPosition
    && o'.velocity == o.velocity
    && 0 <= o'.angle < 360 && -2 <= o'.rotation <= 2
  }

  /** The reset can never follow the movement in the same call: a step that
      moved the objects is exactly its movement phase. */
  lemma NoResetAfterMoving(s: Scene, place: Placement, rolls: seq<Roll>)
    requires Good(s) && |rolls| == |s.objs| && s.toggles[SPACE] && !s.collision
    ensures Step(s, place, rolls) == MovementPhase(s, place)
    ensures Step(s, place, rolls).collision ==> !Step(s, place, rolls).toggles[SPACE]
  {
  }

  /** An object that was colliding when the step began has not moved. */
  lemma CollidingObjectsStayPut(s: Scene, place: Placement, rolls: seq<Roll>, k: nat)
    requires Good(s) && |rolls| == |s.objs| && k < |s.objs| && s.objs[k].colliding
    requires !(s.toggles[SPACE] && s.collision)
    ensures Step(s, place, rolls).objs[k].position == s.objs[k].position
    ensures Step(s, place, rolls).objs[k].colliding
  {
  }

  /** The whole pause-and-restart cycle: a step that ends with every object
      colliding pauses the scene; further steps change nothing; pressing
      space once and stepping restarts every object. */
  lemma PauseThenRestart(s: Scene, place: Placement, rolls: seq<Roll>)
    requires Good(s) && |rolls| == |s.objs|
    requires s.toggles[SPACE] && !s.collision
    requires Step(s, place, rolls).collision
    ensures var s1 := Step(s, place, rolls);
      && Step(s1, place, rolls) == s1
      && var s2 := s1.(toggles := CharCallback(s1.toggles, SPACE).value);
      && Good(s2) && s2.toggles[SPACE] && s2.collision
      && var s3 := Step(s2, place, rolls);
      && !s3.collision && !s3.toggles[SPACE]
      && forall k :: 0 <= k < |s.objs| ==> Restarted(s1.objs[k], s3.objs[k])
  {
  }
}
