/** The fingertip trail: short-lived points that fade out by countdown. */
module Trails {
  import opened Sequences

  /** Lifetime, in frames, of a fresh trail point (also its full opacity). */
  const TrailLifetime: int := 90

  datatype TrailPoint = TrailPoint(x: real, y: real, lifetime: int)

  /** Every point's lifetime lies in `[lo, hi]`. */
  predicate LifetimesWithin(ts: seq<TrailPoint>, lo: int, hi: int) {
    forall t :: t in ts ==> lo <= t.lifetime <= hi
  }

  /** Appends a point with the full lifetime at the end of the trail. */
  function AddTrailPoint(ts: seq<TrailPoint>, x: real, y: real): (r: seq<TrailPoint>)
    ensures |r| == |ts| + 1 && r[..|ts|] == ts
    ensures r[|ts|].x == x && r[|ts|].y == y && r[|ts|].lifetime == TrailLifetime
    ensures LifetimesWithin(ts, 0, TrailLifetime) ==> LifetimesWithin(r, 0, TrailLifetime)
  {
    ts + [TrailPoint(x, y, TrailLifetime)]
  }

  /** A point is kept by the frame's filter only while its lifetime is positive. */
  predicate Alive(t: TrailPoint) {
    t.lifetime > 0
  }

  /** The point after one frame's countdown. */
  function Aged(t: TrailPoint): TrailPoint {
    t.(lifetime := t.lifetime - 1)
  }

  /** Every point of the sequence after one frame's countdown. */
  function AgeAll(ts: seq<TrailPoint>): (r: seq<TrailPoint>)
    ensures |r| == |ts| && forall i :: 0 <= i < |ts| ==> r[i] == Aged(ts[i])
  {
    seq(|ts|, i requires 0 <= i < |ts| => Aged(ts[i]))
  }

  /** One frame of the trail: drop the expired points FIRST, then count every
      survivor down by one. */
  function UpdateTrails(ts: seq<TrailPoint>): (r: seq<TrailPoint>)
    ensures |r| <= |ts|
    ensures forall i :: 0 <= i < |r| ==> r[i].lifetime >= 0
    ensures forall hi :: LifetimesWithin(ts, 0, hi) ==> LifetimesWithin(r, 0, hi - 1)
  {
    var kept := Filter(ts, Alive);
    FilterMembers(ts, Alive);
    assert forall i :: 0 <= i < |kept| ==> kept[i] in kept && kept[i] in ts;
    AgeAll(kept)
  }

  /** UpdateTrails keeps exactly the positive-lifetime points, in order, each
      with its lifetime lowered by exactly one. */
  lemma {:induction false} UpdateTrailsSelects(ts: seq<TrailPoint>)
    ensures var r, idx := UpdateTrails(ts), FilterIndices(ts, Alive);
      && |r| == |idx|
      && (forall k :: 0 <= k < |r| ==>
            r[k].x == ts[idx[k]].x && r[k].y == ts[idx[k]].y
            && r[k].lifetime == ts[idx[k]].lifetime - 1)
      && (forall i :: 0 <= i < |ts| ==> (i in idx <==> ts[i].lifetime > 0))
  {
    FilterSelectsIndices(ts, Alive);
  }

  /** Points age independently of one another. */
  lemma UpdateTrailsConcat(a: seq<TrailPoint>, b: seq<TrailPoint>)
    ensures UpdateTrails(a + b) == UpdateTrails(a) + UpdateTrails(b)
  {
    var ka, kb := Filter(a, Alive), Filter(b, Alive);
    calc {
      UpdateTrails(a + b);
      AgeAll(Filter(a + b, Alive));
      { FilterConcat(a, b, Alive); }
      AgeAll(ka + kb);
      { AgeAllConcat(ka, kb); }
      AgeAll(ka) + AgeAll(kb);
    }
  }

  lemma AgeAllConcat(a: seq<TrailPoint>, b: seq<TrailPoint>)
    ensures AgeAll(a + b) == AgeAll(a) + AgeAll(b)
  {
  }

  /** `n` consecutive frames of UpdateTrails. */
  function Passes(ts: seq<TrailPoint>, n: nat): seq<TrailPoint>
  {
    if n == 0 then ts else UpdateTrails(Passes(ts, n - 1))
  }

  /** Independence carries over to any number of frames. */
  lemma {:induction false} PassesConcat(a: seq<TrailPoint>, b: seq<TrailPoint>, n: nat)
    ensures Passes(a + b, n) == Passes(a, n) + Passes(b, n)
  {
    if n > 0 {
      PassesConcat(a, b, n - 1);
      UpdateTrailsConcat(Passes(a, n - 1), Passes(b, n - 1));
    }
  }

  /** A point with lifetime `L >= 0` is still present, with lifetime `L - n`,
      after `n <= L` frames. */
  lemma {:induction false} PointCountsDown(t: TrailPoint, n: nat)
    requires n <= t.lifetime
    ensures Passes([t], n) == [t.(lifetime := t.lifetime - n)]
  {
    if n > 0 {
      PointCountsDown(t, n - 1);
      var p := t.(lifetime := t.lifetime - (n - 1));
      assert Filter([p], Alive) == [p] by {
        assert [] + [p] == [p];
      }
    }
  }

  /** ... and is gone on frame `L + 1`. */
  lemma PointExpires(t: TrailPoint)
    requires t.lifetime >= 0
    ensures Passes([t], t.lifetime + 1) == []
  {
    PointCountsDown(t, t.lifetime);
    var p := t.(lifetime := 0);
    assert Filter([p], Alive) == [] by {
      assert [p][..0] == [];
    }
  }

  /** A freshly added point survives exactly 90 frames of the trail update,
      whatever else is on the trail, and is removed on the 91st. */
  lemma {:induction false} FreshPointLifespan(before: seq<TrailPoint>, x: real, y: real, n: nat)
    requires n <= TrailLifetime + 1
    ensures var r := Passes(AddTrailPoint(before, x, y), n);
      r == Passes(before, n)
           + (if n <= TrailLifetime then [TrailPoint(x, y, TrailLifetime - n)] else [])
  {
    var t := TrailPoint(x, y, TrailLifetime);
    PassesConcat(before, [t], n);
    if n <= TrailLifetime {
      PointCountsDown(t, n);
    } else {
      PointExpires(t);
    }
  }
}
