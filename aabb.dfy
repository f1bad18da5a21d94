/** Axis-aligned bounding boxes and the slab test (src/aabb.h). */
module Bounds {
  import opened Geometry

  datatype Aabb = Aabb(x: Interval, y: Interval, z: Interval)

  /** `i` runs from the smaller of `p` and `q` to the larger one. */
  predicate Spans(i: Interval, p: real, q: real) {
    i.min <= i.max && ((i.min == p && i.max == q) || (i.min == q && i.max == p))
  }

  /** The box with corners `a` and `b`, in either order (aabb(point3, point3)). */
  function FromPoints(a: Vec3, b: Vec3): (box: Aabb)
    ensures Spans(box.x, a.x, b.x) && Spans(box.y, a.y, b.y) && Spans(box.z, a.z, b.z)
  {
    Aabb(if a.x <= b.x then Interval(a.x, b.x) else Interval(b.x, a.x),
         if a.y <= b.y then Interval(a.y, b.y) else Interval(b.y, a.y),
         if a.z <= b.z then Interval(a.z, b.z) else Interval(b.z, a.z))
  }

  /** The order of the two corners does not matter. */
  lemma FromPointsSymmetric(a: Vec3, b: Vec3)
    ensures FromPoints(a, b) == FromPoints(b, a)
  {
  }

  /** Every coordinate of a point lies in the matching interval of a box. */
  predicate InBox(box: Aabb, p: Vec3) {
    Contains(box.x, p.x) && Contains(box.y, p.y) && Contains(box.z, p.z)
  }

  /** Both corners lie in the box built from them. */
  lemma FromPointsContainsCorners(a: Vec3, b: Vec3)
    ensures InBox(FromPoints(a, b), a) && InBox(FromPoints(a, b), b)
  {
  }

  /** aabb::axis_interval: 1 selects y and every other argument, 0 included, selects z. */
  function AxisInterval(box: Aabb, n: int): (i: Interval)
    ensures n == 1 ==> i == box.y
    ensures n != 1 ==> i == box.z
  {
    if n == 1 then box.y
    else if n == 2 then box.z
    else box.z
  }

  /** The three slabs the loop in aabb::hit examines, in order. */
  function AsWrittenSlabs(box: Aabb): (s: seq<Interval>)
    ensures |s| == 3 && s[0] == box.z && s[1] == box.y && s[2] == box.z
  {
    [AxisInterval(box, 0), AxisInterval(box, 1), AxisInterval(box, 2)]
  }

  /** The slabs a slab test of `box` is meant to examine: x, y and z. */
  function IntendedSlabs(box: Aabb): seq<Interval> {
    [box.x, box.y, box.z]
  }

  predicate NonzeroDirection(r: Ray) {
    r.direction.x != 0.0 && r.direction.y != 0.0 && r.direction.z != 0.0
  }

  /** max <= min: the test in aabb::hit that ends the loop early. */
  predicate Empty(w: Interval) { w.max <= w.min }

  /** The parameter at which a ray with origin coordinate `o` and direction
      coordinate `d` crosses the plane at `bound`, via the reciprocal `1.0 / d`. */
  function Crossing(bound: real, o: real, d: real): real
    requires d != 0.0
  {
    (bound - o) * (1.0 / d)
  }

  /** The window clipped to the parameters between the two crossings `t0` and
      `t1`, taken in whichever order they come. */
  function Clip(w: Interval, t0: real, t1: real): (w': Interval)
    ensures w.min <= w'.min && w'.max <= w.max
  {
    if t0 < t1 then
      Interval(if t0 > w.min then t0 else w.min, if t1 < w.max then t1 else w.max)
    else
      Interval(if t1 > w.min then t1 else w.min, if t0 < w.max then t0 else w.max)
  }

  /** Both branches of the clip intersect the window with `[min(t0,t1), max(t0,t1)]`. */
  lemma ClipIsIntersection(w: Interval, t0: real, t1: real)
    ensures Clip(w, t0, t1) == Interval(Max(w.min, Min(t0, t1)), Min(w.max, Max(t0, t1)))
  {
  }

  /** The two plane crossings of slab `n`, for each of the three slabs, in the
      order the loop in aabb::hit computes them (`t0` for min, `t1` for max). */
  function SlabCrossings(slabs: seq<Interval>, r: Ray): (cs: seq<(real, real)>)
    requires |slabs| == 3 && NonzeroDirection(r)
    ensures |cs| == 3
  {
    seq(3, n requires 0 <= n < 3 =>
      (Crossing(slabs[n].min, Component(r.origin, n), Component(r.direction, n)),
       Crossing(slabs[n].max, Component(r.origin, n), Component(r.direction, n))))
  }

  /** The local window after the first `k` iterations, each clipping the
      window to its pair of crossings. */
  function Window(cs: seq<(real, real)>, w: Interval, k: int): Interval
    requires 0 <= k <= |cs|
  {
    if k == 0 then w else Clip(Window(cs, w, k - 1), cs[k - 1].0, cs[k - 1].1)
  }

  /** The slab test accepts when no iteration leaves the window empty. */
  predicate Accepts(slabs: seq<Interval>, r: Ray, w: Interval)
    requires |slabs| == 3 && NonzeroDirection(r)
  {
    forall k :: 1 <= k <= 3 ==> !Empty(Window(SlabCrossings(slabs, r), w, k))
  }

  /** aabb::hit. `rayT` is a value parameter: the caller's window is never changed. */
  method Hit(box: Aabb, r: Ray, rayT: Interval) returns (hit: bool)
    requires NonzeroDirection(r)
    ensures hit == Accepts(AsWrittenSlabs(box), r, rayT)
  {
    ghost var cs := SlabCrossings(AsWrittenSlabs(box), r);
    var origin := r.origin;
    var direction := r.direction;
    var w := rayT;
    for axis := 0 to 3
      invariant w == Window(cs, rayT, axis)
      invariant axis > 0 ==> !Empty(w)
    {
      var ax := AxisInterval(box, axis);
      var o, d := Component(origin, axis), Component(direction, axis);
      var adinv := 1.0 / d;
      var t0 := (ax.min - o) * adinv;
      var t1 := (ax.max - o) * adinv;
      AsWrittenCrossings(box, r, axis, t0, t1);
      ghost var before := w;
      if t0 < t1 {
        if t0 > w.min { w := w.(min := t0); }
        if t1 < w.max { w := w.(max := t1); }
      } else {
        if t1 > w.min { w := w.(min := t1); }
        if t0 < w.max { w := w.(max := t0); }
      }
      assert w == Clip(before, t0, t1);
      assert Window(cs, rayT, axis + 1) == Clip(Window(cs, rayT, axis), cs[axis].0, cs[axis].1);
      if w.max <= w.min {
        assert Empty(Window(cs, rayT, axis + 1));
        return false;
      }
    }
    AcceptsIffFinalWindow(AsWrittenSlabs(box), r, rayT);
    return true;
  }

  /** The crossings the loop computes for `axis`, through the reciprocal of
      the direction coordinate, are those of the slab `AxisInterval(box, axis)`. */
  lemma AsWrittenCrossings(box: Aabb, r: Ray, axis: int, t0: real, t1: real)
    requires NonzeroDirection(r) && 0 <= axis < 3
    requires var ax, o, d := AxisInterval(box, axis), Component(r.origin, axis), Component(r.direction, axis);
      t0 == (ax.min - o) * (1.0 / d) && t1 == (ax.max - o) * (1.0 / d)
    ensures SlabCrossings(AsWrittenSlabs(box), r)[axis] == (t0, t1)
  {
    var ax, o, d := AxisInterval(box, axis), Component(r.origin, axis), Component(r.direction, axis);
    assert AsWrittenSlabs(box)[axis] == ax;
    assert t0 == Crossing(ax.min, o, d) && t1 == Crossing(ax.max, o, d);
  }

  /** Across iterations the window only narrows: min never decreases and max never increases. */
  lemma {:induction false} WindowNarrows(cs: seq<(real, real)>, w: Interval, j: int, k: int)
    requires 0 <= j <= k <= |cs|
    ensures Window(cs, w, j).min <= Window(cs, w, k).min
    ensures Window(cs, w, k).max <= Window(cs, w, j).max
  {
    if j < k {
      WindowNarrows(cs, w, j, k - 1);
    }
  }

  /** Returning early is the same as looking only at the final window:
      once the window is empty it stays empty. */
  lemma AcceptsIffFinalWindow(slabs: seq<Interval>, r: Ray, w: Interval)
    requires |slabs| == 3 && NonzeroDirection(r)
    ensures Accepts(slabs, r, w) <==> !Empty(Window(SlabCrossings(slabs, r), w, 3))
  {
    var cs := SlabCrossings(slabs, r);
    WindowNarrows(cs, w, 1, 3);
    WindowNarrows(cs, w, 2, 3);
  }

  /** For a well-formed slab and nonzero `d`, the parameter `t` lies between
      the two plane crossings exactly when `o + t*d` lies in the slab
      (closed form) and strictly between them exactly when `o + t*d` lies
      strictly inside it. */
  lemma SlabParameter(ax: Interval, o: real, d: real, t: real)
    requires d != 0.0 && ax.min <= ax.max
    ensures var t0, t1 := Crossing(ax.min, o, d), Crossing(ax.max, o, d);
      && (Min(t0, t1) <= t <= Max(t0, t1) <==> Contains(ax, o + t * d))
      && (Min(t0, t1) < t < Max(t0, t1) <==> Surrounds(ax, o + t * d))
  {
    var t0, t1 := Crossing(ax.min, o, d), Crossing(ax.max, o, d);
    CrossingTimesDirection(ax.min, o, d);
    CrossingTimesDirection(ax.max, o, d);
    if d > 0.0 {
      ScaledBetween(t0, t1, t, d, ax.min - o, ax.max - o, t * d);
    } else {
      ScaledBetween(t1, t0, t, -d, o - ax.max, o - ax.min, -(t * d));
    }
  }

  /** A crossing times the direction coordinate is the distance to the plane. */
  lemma CrossingTimesDirection(bound: real, o: real, d: real)
    requires d != 0.0
    ensures Crossing(bound, o, d) * d == bound - o
  {
    assert (1.0 / d) * d == 1.0;
  }

  /** With a positive factor `k`, order among `a`, `t`, `b` is order among their multiples. */
  lemma ScaledBetween(a: real, b: real, t: real, k: real, ak: real, bk: real, tk: real)
    requires k > 0.0 && ak <= bk
    requires a * k == ak && b * k == bk && t * k == tk
    ensures a <= b
    ensures a <= t <==> ak <= tk
    ensures t <= b <==> tk <= bk
    ensures a < t <==> ak < tk
    ensures t < b <==> tk < bk
  {
    MulMonotone(a, b, k);
    MulMonotone(a, t, k);
    MulMonotone(t, b, k);
  }

  /** Multiplying by a positive factor keeps (strict) order in both directions. */
  lemma MulMonotone(a: real, b: real, d: real)
    requires d > 0.0
    ensures a <= b <==> a * d <= b * d
    ensures a < b <==> a * d < b * d
  {
    assert (b - a) * d == b * d - a * d;
  }

  /** One iteration keeps a parameter exactly when the window before it
      keeps it and the point at that parameter lies in the slab. */
  lemma StepKeeps(ax: Interval, o: real, d: real, w: Interval, t: real)
    requires d != 0.0 && ax.min <= ax.max
    ensures var w' := Clip(w, Crossing(ax.min, o, d), Crossing(ax.max, o, d));
      Surrounds(w', t) <==> Surrounds(w, t) && Surrounds(ax, o + t * d)
  {
    ClipIsIntersection(w, Crossing(ax.min, o, d), Crossing(ax.max, o, d));
    SlabParameter(ax, o, d, t);
  }

  /** Closed-form variant of StepKeeps. */
  lemma StepKeepsClosed(ax: Interval, o: real, d: real, w: Interval, t: real)
    requires d != 0.0 && ax.min <= ax.max
    ensures var w' := Clip(w, Crossing(ax.min, o, d), Crossing(ax.max, o, d));
      Contains(w', t) <==> Contains(w, t) && Contains(ax, o + t * d)
  {
    ClipIsIntersection(w, Crossing(ax.min, o, d), Crossing(ax.max, o, d));
    SlabParameter(ax, o, d, t);
  }

  /** Coordinate `n` of the point of `r` at `t`: `origin[n] + t * direction[n]`. */
  function Coord(r: Ray, n: int, t: real): real
    requires 0 <= n < 3
  {
    Component(r.origin, n) + t * Component(r.direction, n)
  }

  /** The point at `t` lies strictly inside the first `k` slabs, slab `n` along coordinate `n`. */
  predicate InsideFirst(slabs: seq<Interval>, r: Ray, t: real, k: int)
    requires |slabs| == 3 && 0 <= k <= 3
  {
    forall n :: 0 <= n < k ==> Surrounds(slabs[n], Coord(r, n, t))
  }

  /** The point at `t` lies in the first `k` slabs, boundaries included. */
  predicate InFirst(slabs: seq<Interval>, r: Ray, t: real, k: int)
    requires |slabs| == 3 && 0 <= k <= 3
  {
    forall n :: 0 <= n < k ==> Contains(slabs[n], Coord(r, n, t))
  }

  /** Every coordinate of a direction with no zero coordinate is nonzero. */
  lemma NonzeroComponent(r: Ray, n: int)
    requires NonzeroDirection(r) && 0 <= n < 3
    ensures Component(r.direction, n) != 0.0
  {
  }

  /** Coordinate `n` of the point at `t`, with the origin's and the
      direction's coordinates named `o` and `d`. */
  lemma CoordComponents(r: Ray, n: int, t: real, o: real, d: real)
    requires 0 <= n < 3 && o == Component(r.origin, n) && d == Component(r.direction, n)
    ensures Coord(r, n, t) == o + t * d
  {
  }

  /** The window after `k` iterations is one clip of the window after `k - 1`. */
  lemma WindowStep(slabs: seq<Interval>, r: Ray, w: Interval, k: int, o: real, d: real)
    requires |slabs| == 3 && NonzeroDirection(r) && 0 < k <= 3
    requires o == Component(r.origin, k - 1) && d == Component(r.direction, k - 1)
    ensures Window(SlabCrossings(slabs, r), w, k)
              == Clip(Window(SlabCrossings(slabs, r), w, k - 1), Crossing(slabs[k - 1].min, o, d), Crossing(slabs[k - 1].max, o, d))
  {
    var cs := SlabCrossings(slabs, r);
    assert cs[k - 1] == (Crossing(slabs[k - 1].min, o, d), Crossing(slabs[k - 1].max, o, d));
  }

  /** Iteration `k` keeps a parameter exactly when iteration `k - 1` kept it
      and the point lies in slab `k - 1` (strictly, or boundaries included). */
  lemma WindowStepKeeps(slabs: seq<Interval>, r: Ray, w: Interval, k: int, t: real)
    requires |slabs| == 3 && NonzeroDirection(r) && 0 < k <= 3
    requires slabs[k - 1].min <= slabs[k - 1].max
    ensures var cs := SlabCrossings(slabs, r);
      Surrounds(Window(cs, w, k), t) <==> Surrounds(Window(cs, w, k - 1), t) && Surrounds(slabs[k - 1], Coord(r, k - 1, t))
    ensures var cs := SlabCrossings(slabs, r);
      Contains(Window(cs, w, k), t) <==> Contains(Window(cs, w, k - 1), t) && Contains(slabs[k - 1], Coord(r, k - 1, t))
  {
    var cs := SlabCrossings(slabs, r);
    var o, d := Component(r.origin, k - 1), Component(r.direction, k - 1);
    WindowStep(slabs, r, w, k, o, d);
    NonzeroComponent(r, k - 1);
    CoordComponents(r, k - 1, t, o, d);
    StepFacts(slabs[k - 1], o, d, Window(cs, w, k - 1), Window(cs, w, k), t, Coord(r, k - 1, t));
  }

  /** StepKeeps and StepKeepsClosed for a window `next` known to be the clip
      of `prev`, with the coordinate of the point named `p`. */
  lemma StepFacts(ax: Interval, o: real, d: real, prev: Interval, next: Interval, t: real, p: real)
    requires d != 0.0 && ax.min <= ax.max && p == o + t * d
    requires next == Clip(prev, Crossing(ax.min, o, d), Crossing(ax.max, o, d))
    ensures Surrounds(next, t) <==> Surrounds(prev, t) && Surrounds(ax, p)
    ensures Contains(next, t) <==> Contains(prev, t) && Contains(ax, p)
  {
    StepKeeps(ax, o, d, prev, t);
    StepKeepsClosed(ax, o, d, prev, t);
  }

  /** The window after `k` iterations keeps a parameter exactly when the
      caller's window does and the point lies strictly inside the first `k` slabs. */
  lemma {:induction false} WindowHolds(slabs: seq<Interval>, r: Ray, w: Interval, k: int, t: real)
    requires |slabs| == 3 && NonzeroDirection(r) && 0 <= k <= 3
    requires forall n :: 0 <= n < 3 ==> slabs[n].min <= slabs[n].max
    ensures Surrounds(Window(SlabCrossings(slabs, r), w, k), t) <==>
      Surrounds(w, t) && InsideFirst(slabs, r, t, k)
  {
    if k > 0 {
      WindowHolds(slabs, r, w, k - 1, t);
      WindowStepKeeps(slabs, r, w, k, t);
    }
  }

  /** Closed-form variant of WindowHolds, in the direction soundness needs. */
  lemma {:induction false} WindowContains(slabs: seq<Interval>, r: Ray, w: Interval, k: int, t: real)
    requires |slabs| == 3 && NonzeroDirection(r) && 0 <= k <= 3
    requires forall n :: 0 <= n < 3 ==> slabs[n].min <= slabs[n].max
    ensures Contains(Window(SlabCrossings(slabs, r), w, k), t) ==>
      Contains(w, t) && InFirst(slabs, r, t, k)
  {
    if k > 0 {
      WindowContains(slabs, r, w, k - 1, t);
      WindowStepKeeps(slabs, r, w, k, t);
    }
  }

  /** Soundness: an accepted ray has a parameter strictly inside the caller's
      window whose point lies in every examined slab. */
  lemma AcceptsSound(slabs: seq<Interval>, r: Ray, w: Interval)
    requires |slabs| == 3 && NonzeroDirection(r)
    requires forall n :: 0 <= n < 3 ==> slabs[n].min <= slabs[n].max
    requires Accepts(slabs, r, w)
    ensures exists t :: Surrounds(w, t) && InFirst(slabs, r, t, 3)
  {
    AcceptsIffFinalWindow(slabs, r, w);
    var cs := SlabCrossings(slabs, r);
    var last := Window(cs, w, 3);
    var t := (last.min + last.max) / 2.0;
    WindowContains(slabs, r, w, 3, t);
    WindowNarrows(cs, w, 0, 3);
    assert Surrounds(w, t);
  }

  /** Completeness for interior points: a parameter strictly inside the
      window whose point lies strictly inside every slab makes the test accept. */
  lemma AcceptsComplete(slabs: seq<Interval>, r: Ray, w: Interval, t: real)
    requires |slabs| == 3 && NonzeroDirection(r)
    requires forall n :: 0 <= n < 3 ==> slabs[n].min <= slabs[n].max
    requires Surrounds(w, t) && InsideFirst(slabs, r, t, 3)
    ensures Accepts(slabs, r, w)
  {
    forall k | 1 <= k <= 3
      ensures !Empty(Window(SlabCrossings(slabs, r), w, k))
    {
      WindowHolds(slabs, r, w, k, t);
    }
  }

  /** The x interval of the box never influences aabb::hit. */
  lemma HitIgnoresX(box: Aabb, box': Aabb, r: Ray, w: Interval)
    requires NonzeroDirection(r) && box.y == box'.y && box.z == box'.z
    ensures Accepts(AsWrittenSlabs(box), r, w) == Accepts(AsWrittenSlabs(box'), r, w)
  {
    assert AsWrittenSlabs(box) == AsWrittenSlabs(box');
  }

  /** As written, aabb::hit accepts a ray none of whose points in the window lies in the box:
      the box spans x in [10,11], the ray passes x in (0.4, 0.6). */
  lemma AsWrittenAcceptsMiss()
    ensures var box := Aabb(Interval(10.0, 11.0), Interval(0.0, 1.0), Interval(0.0, 1.0));
      var r := Ray(Vec3(0.5, 0.5, 0.5), Vec3(1.0, 1.0, 1.0));
      var w := Interval(-0.1, 0.1);
      && Accepts(AsWrittenSlabs(box), r, w)
      && forall t :: Surrounds(w, t) ==> !InBox(box, At(r, t))
  {
    var box := Aabb(Interval(10.0, 11.0), Interval(0.0, 1.0), Interval(0.0, 1.0));
    var r := Ray(Vec3(0.5, 0.5, 0.5), Vec3(1.0, 1.0, 1.0));
    var w := Interval(-0.1, 0.1);
    var slabs := AsWrittenSlabs(box);
    assert InsideFirst(slabs, r, 0.0, 3) by {
      assert Coord(r, 0, 0.0) == 0.5 && Coord(r, 1, 0.0) == 0.5 && Coord(r, 2, 0.0) == 0.5;
    }
    AcceptsComplete(slabs, r, w, 0.0);
  }

  /** With the intended slabs x, y, z the test is sound for the box itself. */
  lemma IntendedAcceptsSound(box: Aabb, r: Ray, w: Interval)
    requires NonzeroDirection(r)
    requires box.x.min <= box.x.max && box.y.min <= box.y.max && box.z.min <= box.z.max
    requires Accepts(IntendedSlabs(box), r, w)
    ensures exists t :: Surrounds(w, t) && InBox(box, At(r, t))
  {
    AcceptsSound(IntendedSlabs(box), r, w);
    var t :| Surrounds(w, t) && InFirst(IntendedSlabs(box), r, t, 3);
    InFirstIsInBox(box, r, t);
  }

  /** A point in the three slabs `x`, `y`, `z` of a box is in the box. */
  lemma InFirstIsInBox(box: Aabb, r: Ray, t: real)
    requires InFirst(IntendedSlabs(box), r, t, 3)
    ensures InBox(box, At(r, t))
  {
    var slabs, p := IntendedSlabs(box), At(r, t);
    assert Coord(r, 0, t) == p.x && Coord(r, 1, t) == p.y && Coord(r, 2, t) == p.z;
    assert Contains(slabs[0], p.x) && Contains(slabs[1], p.y) && Contains(slabs[2], p.z);
  }

  /** With the intended slabs, a parameter strictly inside the window whose
      point lies strictly inside the box makes the test accept. */
  lemma IntendedAcceptsComplete(box: Aabb, r: Ray, w: Interval, t: real)
    requires NonzeroDirection(r)
    requires box.x.min <= box.x.max && box.y.min <= box.y.max && box.z.min <= box.z.max
    requires Surrounds(w, t)
    requires var p := At(r, t); Surrounds(box.x, p.x) && Surrounds(box.y, p.y) && Surrounds(box.z, p.z)
    ensures Accepts(IntendedSlabs(box), r, w)
  {
    var slabs := IntendedSlabs(box);
    assert Coord(r, 0, t) == At(r, t).x && Coord(r, 1, t) == At(r, t).y && Coord(r, 2, t) == At(r, t).z;
    AcceptsComplete(slabs, r, w, t);
  }

  /** Completeness needs a point strictly inside the box: a ray that only
      touches an edge of the box, at a parameter inside the window, is
      rejected even with the slabs x, y, z, because the window narrows to the
      single parameter `0` and `[0, 0]` counts as empty. */
  lemma IntendedRejectsGrazing()
    ensures var box := Aabb(Interval(0.0, 1.0), Interval(0.0, 1.0), Interval(0.0, 1.0));
      var r := Ray(Vec3(1.0, 1.0, 0.5), Vec3(1.0, -1.0, 1.0));
      var w := Interval(-10.0, 10.0);
      && Surrounds(w, 0.0) && InBox(box, At(r, 0.0))
      && !Accepts(IntendedSlabs(box), r, w)
  {
    var box := Aabb(Interval(0.0, 1.0), Interval(0.0, 1.0), Interval(0.0, 1.0));
    var r := Ray(Vec3(1.0, 1.0, 0.5), Vec3(1.0, -1.0, 1.0));
    var w := Interval(-10.0, 10.0);
    var cs := SlabCrossings(IntendedSlabs(box), r);
    assert cs[0] == (-1.0, 0.0) && cs[1] == (1.0, 0.0);
    assert Window(cs, w, 1) == Interval(-1.0, 0.0);
    assert Empty(Window(cs, w, 2));
  }

  /** Axis-wise union of two boxes. aabb.h does not define the aabb(aabb, aabb)
      constructor that quad.h calls; this is the assumed meaning. */
  function Enclose(a: Aabb, b: Aabb): (c: Aabb)
    ensures forall p :: InBox(a, p) || InBox(b, p) ==> InBox(c, p)
  {
    Aabb(Interval(Min(a.x.min, b.x.min), Max(a.x.max, b.x.max)),
         Interval(Min(a.y.min, b.y.min), Max(a.y.max, b.y.max)),
         Interval(Min(a.z.min, b.z.min), Max(a.z.max, b.z.max)))
  }
}
