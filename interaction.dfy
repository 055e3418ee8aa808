/**
  The application-state helpers of main.go that do not draw: the button hit rectangle,
  the two-slot selection, the nearest-body hit test, the bounded force histories and the
  fading trails.
*/
module Interaction {
  import opened Vectors
  import opened Colors
  import opened Physics
  import Drawing

  /** The number of segments a trail keeps at most (maxTrailSegments). */
  const MaxTrailSegments: nat := 600

  /** The life a new trail segment starts with (trailMaxLife). */
  const TrailMaxLife: real := 120.0

  /** The history cap advanceOneStep falls back to when forceHistoryMax is 0. */
  const DefaultHistoryMax: nat := 600

  /** The distance a click must beat before any body is hit (minD). */
  const FarAway: real := 1000000000000000000.0

  // ---------------------------------------------------------------------------
  // pointInRect

  /** Only a rectangle of non-negative width and height contains any point. */
  predicate PointInRect(px: int, py: int, rx: int, ry: int, rw: int, rh: int)
    ensures PointInRect(px, py, rx, ry, rw, rh) ==> 0 <= rw && 0 <= rh
  {
    px >= rx && px <= rx + rw && py >= ry && py <= ry + rh
  }

  /** The rectangle is closed: all four corners are inside, and one pixel past any edge is not. */
  lemma PointInRectEdges(rx: int, ry: int, rw: int, rh: int)
    requires 0 <= rw && 0 <= rh
    ensures PointInRect(rx, ry, rx, ry, rw, rh) && PointInRect(rx + rw, ry, rx, ry, rw, rh)
    ensures PointInRect(rx, ry + rh, rx, ry, rw, rh) && PointInRect(rx + rw, ry + rh, rx, ry, rw, rh)
    ensures !PointInRect(rx - 1, ry, rx, ry, rw, rh) && !PointInRect(rx + rw + 1, ry, rx, ry, rw, rh)
    ensures !PointInRect(rx, ry - 1, rx, ry, rw, rh) && !PointInRect(rx, ry + rh + 1, rx, ry, rw, rh)
  {
  }

  /** The world position of the pixel (mx, my): the screen centre is the origin, so adding it back gives the pixel. */
  function MouseWorld(mx: int, my: int): (p: Vec2)
    ensures p.x + 960.0 == mx as real && p.y + 500.0 == my as real
  {
    Vec2(mx as real - Drawing.ScreenWidth as real / 2.0, my as real - Drawing.ScreenHeight as real / 2.0)
  }

  /** The pixel of the screen centre, and no other pixel, is the world origin. */
  lemma MouseWorldCentre(mx: int, my: int)
    ensures MouseWorld(mx, my) == Zero <==> mx == 960 && my == 500
  {
  }

  // ---------------------------------------------------------------------------
  // The selection selA / selB

  /**
    What a selection may be for `n` bodies: each slot is -1 or an index, and a second
    body is selected only next to a different first one.
  */
  predicate SelectionOk(a: int, b: int, n: int)
  {
    -1 <= a < n && -1 <= b < n && (b != -1 ==> a != -1 && a != b)
  }

  /** The bodies a selection names. */
  function Selected(a: int, b: int): set<int>
  {
    (if a != -1 then {a} else {}) + (if b != -1 then {b} else {})
  }

  /**
    The selection after a click that hit body `c`. When a second slot is only ever used
    next to a different first one, the clicked body is selected afterwards exactly when
    it was not selected before.
  */
  function NextSelection(a: int, b: int, c: nat): (s: (int, int))
    ensures (b != -1 ==> a != -1 && a != b) ==> ((s.0 == c || s.1 == c) <==> (a != c && b != c))
  {
    if a == -1 then (c, b)
    else if b == -1 then
      if c == a then (-1, b) else (a, c)
    else if c == a then (-1, -1)
    else if c == b then (a, -1)
    else (c, -1)
  }

  /** The start selection (-1, -1) is well formed for any number of bodies. */
  lemma NoSelectionOk(n: nat)
    ensures SelectionOk(-1, -1, n) && Selected(-1, -1) == {}
  {
  }

  /** Every click on a body keeps the selection well formed. */
  lemma NextSelectionOk(a: int, b: int, c: nat, n: int)
    requires SelectionOk(a, b, n) && c < n
    ensures SelectionOk(NextSelection(a, b, c).0, NextSelection(a, b, c).1, n)
  {
  }

  /**
    A click toggles the body it hits: it is selected afterwards exactly when it was not
    selected before, and never more than two bodies are selected.
  */
  lemma NextSelectionToggles(a: int, b: int, c: nat, n: int)
    requires SelectionOk(a, b, n) && c < n
    ensures var (a', b') := NextSelection(a, b, c);
      (c in Selected(a', b') <==> c !in Selected(a, b)) &&
      |Selected(a', b')| <= 2
  {
  }

  /** A click on the only selected body, or on the first of two, clears the whole selection. */
  lemma NextSelectionClears(a: int, b: int, n: int)
    requires SelectionOk(a, b, n) && 0 <= a
    ensures NextSelection(a, b, a) == (-1, -1)
  {
  }

  // ---------------------------------------------------------------------------
  // The hit test of a click

  /** The distance from the click point to the body's centre. */
  function Dist(b: Body, mouse: Vec2, sqrt: real -> real): real
  {
    b.pos.Sub(mouse).Len(sqrt)
  }

  /** A body the click can hit: inside its radius and nearer than the initial minD. */
  predicate Hittable(b: Body, mouse: Vec2, sqrt: real -> real)
  {
    var d := Dist(b, mouse, sqrt);
    d <= b.radius && d < FarAway
  }

  /**
    The hit-test loop of Game.Update: -1 when no body can be hit; otherwise a hittable
    body nearest to the click, the first of them when several are equally near.
  */
  method HitTest(bodies: seq<Body>, mouse: Vec2, sqrt: real -> real) returns (clicked: int)
    ensures -1 <= clicked < |bodies|
    ensures clicked == -1 <==> forall k :: 0 <= k < |bodies| ==> !Hittable(bodies[k], mouse, sqrt)
    ensures clicked != -1 ==>
      Hittable(bodies[clicked], mouse, sqrt) &&
      forall k :: 0 <= k < |bodies| && Hittable(bodies[k], mouse, sqrt) ==>
        Dist(bodies[clicked], mouse, sqrt) <= Dist(bodies[k], mouse, sqrt) &&
        (k < clicked ==> Dist(bodies[clicked], mouse, sqrt) < Dist(bodies[k], mouse, sqrt))
  {
    clicked := -1;
    var minD := FarAway;
    for i := 0 to |bodies|
      invariant -1 <= clicked < i
      invariant clicked == -1 ==> minD == FarAway && forall k :: 0 <= k < i ==> !Hittable(bodies[k], mouse, sqrt)
      invariant clicked != -1 ==> Hittable(bodies[clicked], mouse, sqrt) && minD == Dist(bodies[clicked], mouse, sqrt)
      invariant forall k :: 0 <= k < i && Hittable(bodies[k], mouse, sqrt) ==>
        minD <= Dist(bodies[k], mouse, sqrt) && (k < clicked ==> minD < Dist(bodies[k], mouse, sqrt))
    {
      var b := bodies[i];
      var d := b.pos.Sub(mouse).Len(sqrt);
      if d <= b.radius && d < minD {
        clicked := i;
        minD := d;
      }
    }
  }

  // ---------------------------------------------------------------------------
  // Bounded histories

  /** The last `n` entries of `h` (all of them when there are fewer), in order. */
  function KeepLast<T>(h: seq<T>, n: nat): (r: seq<T>)
    ensures |r| == if |h| > n then n else |h|
    ensures r == h[|h| - |r|..]
  {
    if |h| > n then h[|h| - n..] else h
  }

  /** Appending and trimming keeps the newest entry last, after the kept part of the old ones. */
  lemma KeepLastAppend<T>(h: seq<T>, x: T, n: nat)
    requires 0 < n
    ensures KeepLast(h + [x], n) == KeepLast(h, n - 1) + [x]
  {
    var r := KeepLast(h + [x], n);
    assert r[..|r| - 1] == KeepLast(h, n - 1);
  }

  /** Trimming twice to the same cap trims once. */
  lemma KeepLastIdempotent<T>(h: seq<T>, n: nat)
    ensures KeepLast(KeepLast(h, n), n) == KeepLast(h, n)
  {
  }

  /** The softening added to d² in the force readout (eps). */
  const ForceEps: real := 0.000001

  /** The offset added to d before dividing the separation into a direction. */
  const DirEps: real := 0.000000000001

  /**
    The readout formula over a separation (dx, dy) of length d: the magnitude
    G·m1·m2 / (d² + eps) and its components, each coordinate divided by d + 1e-12.
  */
  function ForceReadout(m1: real, m2: real, dx: real, dy: real, d: real): (f: (real, real, real))
    requires 0.0 <= d
    ensures dx == 0.0 ==> f.1 == 0.0
    ensures dy == 0.0 ==> f.2 == 0.0
  {
    Square(d);
    var F := G * m1 * m2 / (d * d + ForceEps);
    (F, F * (dx / (d + DirEps)), F * (dy / (d + DirEps)))
  }

  /**
    The force readout advanceOneStep takes of the selected pair, over the separation from
    the first body to the second and its Hypot length.
  */
  function PairForce(b1: Body, b2: Body, sqrt: real -> real): (f: (real, real, real))
    requires IsSqrt(sqrt)
    ensures b1.pos == b2.pos ==> f.1 == 0.0 && f.2 == 0.0
  {
    var v := Vec2(b2.pos.x - b1.pos.x, b2.pos.y - b1.pos.y);
    LenZeroIff(v, sqrt);
    ForceReadout(b1.mass, b2.mass, v.x, v.y, v.Len(sqrt))
  }

  /**
    Between bodies of non-negative mass the readout is never negative and never exceeds
    G·m1·m2 / eps, however close the bodies are.
  */
  lemma PairForceBounded(b1: Body, b2: Body, sqrt: real -> real)
    requires IsSqrt(sqrt) && 0.0 <= b1.mass && 0.0 <= b2.mass
    ensures 0.0 <= PairForce(b1, b2, sqrt).0 <= G * b1.mass * b2.mass / ForceEps
  {
    var v := Vec2(b2.pos.x - b1.pos.x, b2.pos.y - b1.pos.y);
    LenZeroIff(v, sqrt);
    var d := v.Len(sqrt);
    Square(d);
    var a := G * b1.mass * b2.mass;
    assert 0.0 <= a by {
      assert 0.0 <= b1.mass * b2.mass;
    }
    DivBelow(a, d * d, ForceEps);
  }

  /** F·(u/k) and F·(w/k) for k > 0: their cross product with (u, w) vanishes, and for F >= 0 each has the sign of its coordinate. */
  lemma ScaledAlong(F: real, u: real, w: real, k: real)
    requires 0.0 < k
    ensures (F * (u / k)) * w == (F * (w / k)) * u
    ensures 0.0 <= F ==> 0.0 <= (F * (u / k)) * u && 0.0 <= (F * (w / k)) * w
  {
    var c := F / k;
    assert F * (u / k) == c * u;
    assert F * (w / k) == c * w;
    assert (c * u) * w == (c * w) * u;
    if 0.0 <= F {
      assert 0.0 <= c;
      assert (c * u) * u == c * (u * u);
      assert (c * w) * w == c * (w * w);
    }
  }

  /** The readout formula's components are parallel to (dx, dy), and point its way when F >= 0. */
  lemma ForceReadoutAlong(m1: real, m2: real, dx: real, dy: real, d: real)
    requires 0.0 <= d
    ensures var f := ForceReadout(m1, m2, dx, dy, d);
      f.1 * dy == f.2 * dx && (0.0 <= f.0 ==> 0.0 <= f.1 * dx && 0.0 <= f.2 * dy)
  {
    Square(d);
    var F := G * m1 * m2 / (d * d + ForceEps);
    ScaledAlong(F, dx, dy, d + DirEps);
  }

  /**
    The components point along the separation (dx, dy) from the first body to the second:
    their cross product with it is zero, and an attracting readout points the same way.
  */
  lemma PairForceAlongSeparation(b1: Body, b2: Body, sqrt: real -> real)
    requires IsSqrt(sqrt)
    ensures var dx := b2.pos.x - b1.pos.x;
      var dy := b2.pos.y - b1.pos.y;
      var f := PairForce(b1, b2, sqrt);
      f.1 * dy == f.2 * dx &&
      (0.0 <= f.0 ==> 0.0 <= f.1 * dx && 0.0 <= f.2 * dy)
  {
    var v := Vec2(b2.pos.x - b1.pos.x, b2.pos.y - b1.pos.y);
    LenZeroIff(v, sqrt);
    ForceReadoutAlong(b1.mass, b2.mass, v.x, v.y, v.Len(sqrt));
  }

  /** The readout formula for the swapped pair: same magnitude, both components reversed. */
  lemma ForceReadoutSwap(m1: real, m2: real, dx: real, dy: real, d: real)
    requires 0.0 <= d
    ensures var f := ForceReadout(m1, m2, dx, dy, d);
      var g := ForceReadout(m2, m1, -dx, -dy, d);
      g.0 == f.0 && g.1 == -f.1 && g.2 == -f.2
  {
    Square(d);
    assert G * m2 * m1 == G * m1 * m2;
    var F := G * m1 * m2 / (d * d + ForceEps);
    var k := d + DirEps;
    var f := ForceReadout(m1, m2, dx, dy, d);
    var g := ForceReadout(m2, m1, -dx, -dy, d);
    assert f.0 == F;
    assert g.0 == F;
    assert g.1 == F * ((-dx) / k);
    assert g.2 == F * ((-dy) / k);
    assert f.1 == F * (dx / k) && f.2 == F * (dy / k);
    NegDiv(dx, k);
    NegDiv(dy, k);
    var qx, qy := dx / k, dy / k;
    assert F * (-qx) == -(F * qx);
    assert F * (-qy) == -(F * qy);
  }

  /** Swapping the bodies keeps the magnitude and reverses both components. */
  lemma PairForceSwap(b1: Body, b2: Body, sqrt: real -> real)
    requires IsSqrt(sqrt)
    ensures PairForce(b2, b1, sqrt).0 == PairForce(b1, b2, sqrt).0
    ensures PairForce(b2, b1, sqrt).1 == -PairForce(b1, b2, sqrt).1
    ensures PairForce(b2, b1, sqrt).2 == -PairForce(b1, b2, sqrt).2
  {
    var v := Vec2(b2.pos.x - b1.pos.x, b2.pos.y - b1.pos.y);
    var w := Vec2(b1.pos.x - b2.pos.x, b1.pos.y - b2.pos.y);
    assert w == Vec2(-v.x, -v.y);
    var n := v.Norm2();
    assert w.Norm2() == n;
    assert v.Len(sqrt) == sqrt(n);
    assert w.Len(sqrt) == sqrt(n);
    LenZeroIff(v, sqrt);
    ForceReadoutSwap(b1.mass, b2.mass, v.x, v.y, v.Len(sqrt));
  }

  /** The cap advanceOneStep uses: forceHistoryMax, or 600 when it is 0. */
  function HistoryCap(max: nat): (c: nat)
    ensures 0 < c && (max != 0 ==> c == max)
    ensures max == 0 ==> c == DefaultHistoryMax
  {
    if max == 0 then DefaultHistoryMax else max
  }

  // ---------------------------------------------------------------------------
  // Trails

  datatype TrailSegment = TrailSegment(x0: real, y0: real, x1: real, y1: real, life: real, color: RGBA)

  /** The segment advanceOneStep draws from the previous position to the body's new one, in screen coordinates. */
  function NewSegment(last: Vec2, b: Body): (s: TrailSegment)
    ensures s.x1 - s.x0 == b.pos.x - last.x && s.y1 - s.y0 == b.pos.y - last.y
  {
    var cx := Drawing.ScreenWidth as real / 2.0;
    var cy := Drawing.ScreenHeight as real / 2.0;
    TrailSegment(cx + last.x, cy + last.y, cx + b.pos.x, cy + b.pos.y, TrailMaxLife, b.color)
  }

  /** A new segment runs from `last` to the body, shifted by the screen centre, at full life in the body's colour. */
  lemma NewSegmentShape(last: Vec2, b: Body)
    ensures var s := NewSegment(last, b);
      s.x1 - s.x0 == b.pos.x - last.x && s.y1 - s.y0 == b.pos.y - last.y &&
      s.x0 == 960.0 + last.x && s.y0 == 500.0 + last.y &&
      s.life == 120.0 && s.color == b.color
  {
  }

  /** The segment after one frame of fading. */
  function Aged(s: TrailSegment, dt: real): TrailSegment
  {
    s.(life := s.life - dt)
  }

  /** The faded segments of `t` whose life is still positive, in their order. */
  function Survivors(t: seq<TrailSegment>, dt: real): (r: seq<TrailSegment>)
    ensures |r| <= |t|
    ensures forall k :: 0 <= k < |r| ==> r[k].life > 0.0
  {
    if |t| == 0 then []
    else
      var s := Aged(t[|t| - 1], dt);
      if s.life > 0.0 then Survivors(t[..|t| - 1], dt) + [s] else Survivors(t[..|t| - 1], dt)
  }

  /** The filter works segment by segment: the survivors of a concatenation are the concatenated survivors. */
  lemma {:induction false} SurvivorsConcat(t: seq<TrailSegment>, u: seq<TrailSegment>, dt: real)
    ensures Survivors(t + u, dt) == Survivors(t, dt) + Survivors(u, dt)
    decreases |u|
  {
    if |u| == 0 {
      assert t + u == t;
    } else {
      var v := u[..|u| - 1];
      assert (t + u)[..|t + u| - 1] == t + v;
      assert (t + u)[|t + u| - 1] == u[|u| - 1];
      SurvivorsConcat(t, v, dt);
    }
  }

  /** A segment survives exactly when its faded copy still has life left. */
  lemma {:induction false} SurvivorsMembers(t: seq<TrailSegment>, dt: real, s: TrailSegment)
    ensures s in Survivors(t, dt) <==> s.life > 0.0 && exists j :: 0 <= j < |t| && Aged(t[j], dt) == s
  {
    if |t| > 0 {
      var p := t[..|t| - 1];
      SurvivorsMembers(p, dt, s);
      if s.life > 0.0 && Aged(t[|t| - 1], dt) != s {
        if exists j :: 0 <= j < |t| && Aged(t[j], dt) == s {
          var j :| 0 <= j < |t| && Aged(t[j], dt) == s;
          assert p[j] == t[j];
        }
      }
      if exists j :: 0 <= j < |p| && Aged(p[j], dt) == s {
        var j :| 0 <= j < |p| && Aged(p[j], dt) == s;
        assert t[j] == p[j];
      }
    }
  }

  /** Appending one segment appends its faded copy to the survivors when it still has life left. */
  lemma SurvivorsSnoc(p: seq<TrailSegment>, x: TrailSegment, dt: real)
    ensures Survivors(p + [x], dt) ==
      if Aged(x, dt).life > 0.0 then Survivors(p, dt) + [Aged(x, dt)] else Survivors(p, dt)
  {
    assert (p + [x])[..|p|] == p;
  }

  /**
    One iteration of the compaction loop: segment j fades by dt and, if it has life left,
    is written to position n, which then grows by one.
  */
  method FadeInto(a: array<TrailSegment>, j: int, n: int, dt: real) returns (m: int)
    requires 0 <= n <= j < a.Length
    modifies a
    ensures n <= m <= j + 1
    ensures var s := Aged(old(a[j]), dt);
      a[..m] == old(a[..n]) + (if s.life > 0.0 then [s] else [])
    ensures a[j + 1..] == old(a[j + 1..])
  {
    ghost var kept := a[..n];
    a[j] := a[j].(life := a[j].life - dt);
    m := n;
    if a[j].life > 0.0 {
      a[m] := a[j];
      m := m + 1;
    }
    assert a[..n] == kept;
  }

  /**
    The compaction loop of advanceOneStep on one trail, in place: each segment fades by
    dt and the ones with life left are moved to the front; the trail becomes the first
    `n` entries.
  */
  method CompactTrail(a: array<TrailSegment>, dt: real) returns (n: int)
    modifies a
    ensures 0 <= n <= a.Length
    ensures a[..n] == Survivors(old(a[..]), dt)
  {
    ghost var t := a[..];
    n := 0;
    for j := 0 to a.Length
      invariant n <= j
      invariant a[..n] == Survivors(t[..j], dt)
      invariant a[j..] == t[j..]
    {
      assert t[..j + 1] == t[..j] + [t[j]];
      SurvivorsSnoc(t[..j], t[j], dt);
      assert a[j] == t[j];
      n := FadeInto(a, j, n, dt);
    }
    assert t[..a.Length] == t;
  }

  /** One body's trail after a step: the new segment appended, capped at 600, then faded and filtered. */
  function TrailStep(t: seq<TrailSegment>, last: Vec2, b: Body, dt: real): (r: seq<TrailSegment>)
    ensures |r| <= MaxTrailSegments
    ensures forall k :: 0 <= k < |r| ==> r[k].life > 0.0
  {
    Survivors(KeepLast(t + [NewSegment(last, b)], MaxTrailSegments), dt)
  }

  /** A trail that lives through a step ends with the segment just drawn, faded once. */
  lemma TrailStepNewest(t: seq<TrailSegment>, last: Vec2, b: Body, dt: real)
    requires TrailMaxLife - dt > 0.0
    ensures var r := TrailStep(t, last, b, dt);
      0 < |r| && r[|r| - 1] == Aged(NewSegment(last, b), dt)
  {
    var s := NewSegment(last, b);
    KeepLastAppend(t, s, MaxTrailSegments);
    SurvivorsConcat(KeepLast(t, MaxTrailSegments - 1), [s], dt);
  }

  /** Segments at most dt from fading out are gone after the step. */
  lemma TrailStepDropsFaded(t: seq<TrailSegment>, last: Vec2, b: Body, dt: real, s: TrailSegment)
    requires s in TrailStep(t, last, b, dt)
    ensures s.life > 0.0
    ensures exists j :: 0 <= j < |t| + 1 && Aged((t + [NewSegment(last, b)])[j], dt) == s
  {
    var u := t + [NewSegment(last, b)];
    var kept := KeepLast(u, MaxTrailSegments);
    SurvivorsMembers(kept, dt, s);
    var j :| 0 <= j < |kept| && Aged(kept[j], dt) == s;
    assert kept[j] == u[|u| - |kept| + j];
  }

  // ---------------------------------------------------------------------------
  // Arithmetic helpers: single proof steps of the lemmas above, not models of any
  // function of gravity-sim

  /** a / (x + e) lies between 0 and a / e for a non-negative numerator and offset. */
  lemma DivBelow(a: real, x: real, e: real)
    requires 0.0 <= a && 0.0 <= x && 0.0 < e
    ensures 0.0 <= a / (x + e) <= a / e
  {
    var q := a / (x + e);
    assert q * (x + e) == a;
    var p := a / e;
    assert p * e == a;
  }
}
