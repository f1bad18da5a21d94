/** The closest-hit scan over a list of hittables (src/hittable_list.h). */
module HittableLists {
  import opened Geometry
  import opened Hittable

  /** A child hittable seen only through the hits it can report for a ray.
      Assumed behaviour of a child's hit(): it answers with its candidate of
      smallest `t` strictly inside the window it is given, if there is one. */
  datatype Child = Child(candidates: Ray -> seq<HitData>)

  /** `t` lies strictly inside `(tMin, tMax)`. */
  predicate InWindow(t: real, tMin: real, tMax: real) { tMin < t < tMax }

  /** The answer of a child with candidate list `c` to the window `(tMin, tMax)`:
      the first candidate of smallest `t` in the window. */
  function ChildHit(c: seq<HitData>, tMin: real, tMax: real): (res: Option<HitData>)
    ensures res.Some? <==> exists j :: 0 <= j < |c| && InWindow(c[j].t, tMin, tMax)
    ensures res.Some? ==> res.value in c && InWindow(res.value.t, tMin, tMax)
    ensures res.Some? ==> forall j :: 0 <= j < |c| && InWindow(c[j].t, tMin, tMax) ==> res.value.t <= c[j].t
  {
    if c == [] then None
    else
      var rest := ChildHit(c[1..], tMin, tMax);
      assert forall j :: 1 <= j < |c| ==> c[j] == c[1..][j - 1];
      if InWindow(c[0].t, tMin, tMax) && (rest.None? || c[0].t <= rest.value.t) then Some(c[0])
      else rest
  }

  /** The answer of `child` to the window `(tMin, tMax)` for `r`. */
  function Answer(child: Child, r: Ray, tMin: real, tMax: real): Option<HitData> {
    ChildHit(child.candidates(r), tMin, tMax)
  }

  /** The scan of hittable_list::hit from child `objects[0]` on, with the
      current bound `closest` and best record so far `best`. */
  function Scan(objects: seq<Child>, r: Ray, tMin: real, closest: real, best: Option<HitData>): Option<HitData>
    decreases |objects|
  {
    if objects == [] then best
    else match Answer(objects[0], r, tMin, closest)
      case Some(h) => Scan(objects[1..], r, tMin, h.t, Some(h))
      case None => Scan(objects[1..], r, tMin, closest, best)
  }

  /** Some child has a candidate for `r` strictly inside `(tMin, tMax)`. */
  predicate AnyInWindow(objects: seq<Child>, r: Ray, tMin: real, tMax: real) {
    exists i, j :: 0 <= i < |objects| && 0 <= j < |objects[i].candidates(r)| &&
      InWindow(objects[i].candidates(r)[j].t, tMin, tMax)
  }

  /** `h` is a candidate of some child for `r`. */
  predicate Reported(objects: seq<Child>, r: Ray, h: HitData) {
    exists i :: 0 <= i < |objects| && h in objects[i].candidates(r)
  }

  /** `h` is no farther than any candidate of any child strictly inside `(tMin, tMax)`. */
  predicate NoCloser(objects: seq<Child>, r: Ray, tMin: real, tMax: real, h: HitData) {
    forall i, j ::
      (0 <= i < |objects| && 0 <= j < |objects[i].candidates(r)| &&
       InWindow(objects[i].candidates(r)[j].t, tMin, tMax)) ==> h.t <= objects[i].candidates(r)[j].t
  }

  /** What a scan started with bound `closest` and record `best` may produce
      as `res`: a record at least as close as every in-window candidate; a new
      record is a reported candidate strictly inside the window; and the record
      is absent only when it was absent at the start and no child has a candidate. */
  predicate ScanOutcome(objects: seq<Child>, r: Ray, tMin: real, closest: real, best: Option<HitData>, res: Option<HitData>) {
    && (res.Some? <==> best.Some? || AnyInWindow(objects, r, tMin, closest))
    && (res.Some? ==> NoCloser(objects, r, tMin, closest, res.value))
    && (res.Some? ==> res.value.t <= closest)
    && (res != best ==> res.Some? && InWindow(res.value.t, tMin, closest) && Reported(objects, r, res.value))
  }

  /** The scan produces such an outcome. */
  lemma {:induction false} ScanMeaning(objects: seq<Child>, r: Ray, tMin: real, closest: real, best: Option<HitData>)
    requires best.Some? ==> best.value.t == closest
    ensures ScanOutcome(objects, r, tMin, closest, best, Scan(objects, r, tMin, closest, best))
    decreases |objects|
  {
    if objects != [] {
      match Answer(objects[0], r, tMin, closest)
      case Some(h) =>
        ScanMeaning(objects[1..], r, tMin, h.t, Some(h));
        HeadAccepted(objects, r, tMin, closest, best, h, Scan(objects[1..], r, tMin, h.t, Some(h)));
      case None =>
        ScanMeaning(objects[1..], r, tMin, closest, best);
        HeadSilent(objects, r, tMin, closest, best, Scan(objects[1..], r, tMin, closest, best));
    }
  }

  /** One step of ScanMeaning: the first child answers `h`, and the rest of
      the scan, started from `h`, produces `res`. */
  lemma HeadAccepted(objects: seq<Child>, r: Ray, tMin: real, closest: real, best: Option<HitData>, h: HitData, res: Option<HitData>)
    requires objects != [] && Answer(objects[0], r, tMin, closest) == Some(h)
    requires ScanOutcome(objects[1..], r, tMin, h.t, Some(h), res)
    ensures ScanOutcome(objects, r, tMin, closest, best, res)
  {
    var rest := objects[1..];
    assert forall i :: 1 <= i < |objects| ==> objects[i] == rest[i - 1];
    assert res.Some?;
    forall i, j | 0 <= i < |objects| && 0 <= j < |objects[i].candidates(r)| &&
        InWindow(objects[i].candidates(r)[j].t, tMin, closest)
      ensures res.value.t <= objects[i].candidates(r)[j].t
    {
      if i > 0 && objects[i].candidates(r)[j].t < h.t {
        assert InWindow(rest[i - 1].candidates(r)[j].t, tMin, h.t);
      }
    }
    assert AnyInWindow(objects, r, tMin, closest) by {
      var j :| 0 <= j < |objects[0].candidates(r)| && InWindow(objects[0].candidates(r)[j].t, tMin, closest);
    }
    if res != Some(h) {
      var i :| 0 <= i < |rest| && res.value in rest[i].candidates(r);
      assert res.value in objects[i + 1].candidates(r);
    } else {
      assert h in objects[0].candidates(r);
    }
  }

  /** One step of ScanMeaning: the first child has no answer, and the rest of
      the scan, started from the same bound and record, produces `res`. */
  lemma HeadSilent(objects: seq<Child>, r: Ray, tMin: real, closest: real, best: Option<HitData>, res: Option<HitData>)
    requires objects != [] && Answer(objects[0], r, tMin, closest).None?
    requires ScanOutcome(objects[1..], r, tMin, closest, best, res)
    ensures ScanOutcome(objects, r, tMin, closest, best, res)
  {
    var rest := objects[1..];
    assert forall i :: 1 <= i < |objects| ==> objects[i] == rest[i - 1];
    if AnyInWindow(objects, r, tMin, closest) {
      var i, j :| 0 <= i < |objects| && 0 <= j < |objects[i].candidates(r)| &&
        InWindow(objects[i].candidates(r)[j].t, tMin, closest);
      assert i > 0;
      assert InWindow(rest[i - 1].candidates(r)[j].t, tMin, closest);
    }
    if res != best {
      var i :| 0 <= i < |rest| && res.value in rest[i].candidates(r);
      assert res.value in objects[i + 1].candidates(r);
    }
  }

  /** hittable_list::hit finds the nearest hit: it reports one exactly when
      some child has a candidate strictly inside `(tMin, tMax)`, and then the
      record is such a candidate of some child and no candidate in the window is closer. */
  lemma ScanFindsClosest(objects: seq<Child>, r: Ray, tMin: real, tMax: real)
    ensures var res := Scan(objects, r, tMin, tMax, None);
      && (res.Some? <==> AnyInWindow(objects, r, tMin, tMax))
      && (res.Some? ==> InWindow(res.value.t, tMin, tMax) && Reported(objects, r, res.value))
      && (res.Some? ==> NoCloser(objects, r, tMin, tMax, res.value))
  {
    ScanMeaning(objects, r, tMin, tMax, None);
  }

  /** Each entry of `s` is at most the one before it. */
  predicate NonIncreasing(s: seq<real>) { forall k :: 0 < k < |s| ==> s[k] <= s[k - 1] }

  /** Each entry of `s` is below the one before it. */
  predicate Decreasing(s: seq<real>) { forall k :: 0 < k < |s| ==> s[k] < s[k - 1] }

  /** Every entry of `s` lies strictly inside `(lo, hi)`. */
  predicate AllInWindow(s: seq<real>, lo: real, hi: real) { forall k :: 0 <= k < |s| ==> InWindow(s[k], lo, hi) }

  /** Appending a value no larger than the last entry keeps `s` non-increasing. */
  lemma NonIncreasingAppend(s: seq<real>, x: real)
    requires NonIncreasing(s) && (s != [] ==> x <= s[|s| - 1])
    ensures NonIncreasing(s + [x])
  {
    var s' := s + [x];
    forall k | 0 < k < |s'| ensures s'[k] <= s'[k - 1] {
      if k < |s| { assert s'[k] == s[k] && s'[k - 1] == s[k - 1]; }
    }
  }

  /** Appending a value below the last entry and inside the window keeps `s`
      decreasing and inside the window. */
  lemma DecreasingAppend(s: seq<real>, x: real, lo: real, hi: real)
    requires Decreasing(s) && AllInWindow(s, lo, hi) && (s != [] ==> x < s[|s| - 1]) && InWindow(x, lo, hi)
    ensures Decreasing(s + [x]) && AllInWindow(s + [x], lo, hi)
  {
    var s' := s + [x];
    forall k | 0 < k < |s'| ensures s'[k] < s'[k - 1] {
      if k < |s| { assert s'[k] == s[k] && s'[k - 1] == s[k - 1]; }
    }
    forall k | 0 <= k < |s'| ensures InWindow(s'[k], lo, hi) {
      if k < |s| { assert s'[k] == s[k]; }
    }
  }

  /** hittable_list: a list of children queried in insertion order. */
  class HittableList {
    var objects: seq<Child>

    /** hittable_list(): no children. */
    constructor ()
      ensures objects == []
    {
      objects := [];
    }

    /** hittable_list(object): the list holding exactly `child`. */
    constructor Single(child: Child)
      ensures objects == [child]
    {
      objects := [];
      new;
      Add(child);
    }

    /** hittable_list::clear */
    method Clear()
      modifies this
      ensures objects == []
    {
      objects := [];
    }

    /** hittable_list::add: `child` goes at the end; earlier children stay where they are. */
    method Add(child: Child)
      modifies this
      ensures objects == old(objects) + [child]
      ensures |objects| == |old(objects)| + 1 && objects[|objects| - 1] == child
      ensures forall i :: 0 <= i < |old(objects)| ==> objects[i] == old(objects)[i]
    {
      objects := objects + [child];
    }

    /** hittable_list::hit. Each child is queried with `tMin` and the current
        `closestSoFar` (recorded in the ghost `bounds`, which starts at `tMax`
        and never grows); every accepted hit lowers `closestSoFar` strictly
        (the ghost `accepted`) and overwrites `rec`, which is untouched when no child hits. */
    method Hit(r: Ray, tMin: real, tMax: real, rec: HitRecord)
      returns (hitAnything: bool, ghost bounds: seq<real>, ghost accepted: seq<real>)
      modifies rec
      ensures hitAnything == Scan(objects, r, tMin, tMax, None).Some?
      ensures hitAnything ==> rec.Data() == Scan(objects, r, tMin, tMax, None).value
      ensures !hitAnything ==> rec.Data() == old(rec.Data())
      ensures |bounds| == |objects| && (|bounds| > 0 ==> bounds[0] == tMax)
      ensures NonIncreasing(bounds)
      ensures hitAnything <==> accepted != []
      ensures hitAnything ==> accepted[|accepted| - 1] == rec.t
      ensures AllInWindow(accepted, tMin, tMax) && Decreasing(accepted)
    {
      hitAnything := false;
      var closestSoFar := tMax;
      ghost var best: Option<HitData> := None;
      ghost var initial := rec.Data();
      bounds, accepted := [], [];
      for i := 0 to |objects|
        invariant Scan(objects, r, tMin, tMax, None) == Scan(objects[i..], r, tMin, closestSoFar, best)
        invariant hitAnything == best.Some? && hitAnything == (accepted != [])
        invariant best.Some? ==> rec.Data() == best.value && closestSoFar == best.value.t
        invariant best.None? ==> rec.Data() == initial && closestSoFar == tMax
        invariant closestSoFar <= tMax && (i == 0 ==> closestSoFar == tMax)
        invariant |bounds| == i && (i > 0 ==> bounds[0] == tMax)
        invariant NonIncreasing(bounds)
        invariant i > 0 ==> closestSoFar <= bounds[i - 1]
        invariant accepted != [] ==> accepted[|accepted| - 1] == closestSoFar
        invariant AllInWindow(accepted, tMin, tMax) && Decreasing(accepted)
      {
        NonIncreasingAppend(bounds, closestSoFar);
        bounds := bounds + [closestSoFar];
        var res := Answer(objects[i], r, tMin, closestSoFar);
        if res.Some? {
          DecreasingAppend(accepted, res.value.t, tMin, tMax);
          hitAnything := true;
          closestSoFar := res.value.t;
          rec.Assign(res.value);
          best := res;
          accepted := accepted + [closestSoFar];
        }
      }
    }
  }
}
