/**
  The integer geometry of main.go's drawing helpers: the screen size, math.Round, the
  Bresenham loop of drawLine as a generator of the points it visits and sets, and the
  value range drawForceGraph gives its vertical axis.
*/
module Drawing {
  import opened Wrappers

  const ScreenWidth: int := 1920
  const ScreenHeight: int := 1000

  function Abs(n: int): (r: int)
    ensures 0 <= r && (r == n || r == -n)
  {
    if n < 0 then -n else n
  }

  function Max(a: int, b: int): (m: int)
    ensures m >= a && m >= b && (m == a || m == b)
  {
    if a >= b then a else b
  }

  /** math.Round: the nearest integer, halves rounded away from zero. */
  function Round(x: real): (n: int)
    ensures -0.5 <= n as real - x <= 0.5
    ensures n as real - x == 0.5 ==> x > 0.0
    ensures n as real - x == -0.5 ==> x < 0.0
  {
    if x >= 0.0 then (x + 0.5).Floor else -((-x + 0.5).Floor)
  }

  /** Rounding commutes with negation. */
  lemma RoundOdd(x: real)
    ensures Round(-x) == -Round(x)
  {
  }

  /** A pixel drawLine is allowed to set. */
  predicate OnScreen(p: (int, int))
  {
    0 <= p.0 && 0 <= p.1 && p.0 < ScreenWidth && p.1 < ScreenHeight
  }

  /** The on-screen points of `s`, in order: the pixels img.Set receives. */
  function OnScreenPoints(s: seq<(int, int)>): (t: seq<(int, int)>)
    ensures |t| <= |s|
  {
    if |s| == 0 then []
    else if OnScreen(s[|s| - 1]) then OnScreenPoints(s[..|s| - 1]) + [s[|s| - 1]]
    else OnScreenPoints(s[..|s| - 1])
  }

  /** The pixels set are exactly the visited points that lie on the screen. */
  lemma {:induction false} OnScreenPointsMembers(s: seq<(int, int)>, p: (int, int))
    ensures p in OnScreenPoints(s) <==> p in s && OnScreen(p)
  {
    if |s| > 0 {
      OnScreenPointsMembers(s[..|s| - 1], p);
      assert s == s[..|s| - 1] + [s[|s| - 1]];
    }
  }

  /** Two consecutive points of a line: a move of at most one pixel on each axis, never zero. */
  predicate Adjacent(p: (int, int), q: (int, int))
  {
    p != q && -1 <= q.0 - p.0 <= 1 && -1 <= q.1 - p.1 <= 1
  }

  /** The point lies in the box spanned by the two end points. */
  predicate InBox(p: (int, int), a: (int, int), b: (int, int))
  {
    (a.0 <= p.0 <= b.0 || b.0 <= p.0 <= a.0) && (a.1 <= p.1 <= b.1 || b.1 <= p.1 <= a.1)
  }

  /** The shape every line has: from `a` to `b` in max(|dx|, |dy|) single-pixel moves inside their box. */
  predicate IsLine(s: seq<(int, int)>, a: (int, int), b: (int, int))
  {
    |s| == Max(Abs(b.0 - a.0), Abs(b.1 - a.1)) + 1 &&
    s[0] == a && s[|s| - 1] == b &&
    (forall k :: 0 < k < |s| ==> Adjacent(s[k - 1], s[k])) &&
    (forall k :: 0 <= k < |s| ==> InBox(s[k], a, b))
  }

  /**
    The step rule of Bresenham's loop with dx >= 0 and dy = -ddy <= 0, `nx`/`ny` moves
    made so far and deviation d = dx*ny - ddy*nx: short of the end point, a move is
    made only along an axis with room left, some move is made, and the longer axis
    always moves.
  */
  lemma StepRule(dx: int, ddy: int, nx: int, ny: int, d: int)
    requires 0 <= nx <= dx && 0 <= ny <= ddy && !(nx == dx && ny == ddy)
    requires d == dx * ny + (-ddy) * nx
    requires -Max(dx, ddy) <= 2 * d <= Max(dx, ddy)
    ensures 2 * (dx - ddy + d) >= -ddy ==> nx < dx
    ensures 2 * (dx - ddy + d) <= dx ==> ny < ddy
    ensures dx >= ddy ==> 2 * (dx - ddy + d) >= -ddy
    ensures ddy > dx ==> 2 * (dx - ddy + d) <= dx
  {
    if nx == dx {
      var u := ddy - ny;
      assert d == -(dx * u) by {
        assert dx * ny + (-ddy) * dx == -(dx * (ddy - ny));
      }
      MulAtLeast(dx, u);
    }
    if ny == ddy {
      var u := dx - nx;
      assert d == ddy * u by {
        assert dx * ddy + (-ddy) * nx == ddy * (dx - nx);
      }
      MulAtLeast(ddy, u);
    }
  }

  /**
    dx*ny + dy*nx, accumulated the way the loop does: dy per move along x, dx per move
    along y.
  */
  ghost function Deviation(dx: int, dy: int, nx: nat, ny: nat): int
  {
    if nx > 0 then Deviation(dx, dy, nx - 1, ny) + dy
    else if ny > 0 then Deviation(dx, dy, 0, ny - 1) + dx
    else 0
  }

  lemma {:induction false} DeviationIs(dx: int, dy: int, nx: nat, ny: nat)
    ensures Deviation(dx, dy, nx, ny) == dx * ny + dy * nx
  {
    if nx > 0 {
      DeviationIs(dx, dy, nx - 1, ny);
      MulPlusOne(dy, nx - 1);
    } else if ny > 0 {
      DeviationIs(dx, dy, 0, ny - 1);
      MulPlusOne(dx, ny - 1);
    }
  }

  /**
    The state of drawLine's loop at point (ix, iy) after `nx` moves along x and `ny`
    along y: dx, dy, sx, sy as the loop sets them up, and err = dx + dy + d where
    d = dx*ny + dy*nx is the deviation from the ideal line, at most half the longer
    side of the box either way.
  */
  ghost predicate LoopState(x0: int, y0: int, x1: int, y1: int, dx: int, dy: int, sx: int, sy: int,
                            ix: int, iy: int, err: int, nx: int, ny: int, d: int)
  {
    dx == Abs(x1 - x0) && dy == -Abs(y1 - y0) &&
    sx == (if x0 >= x1 then -1 else 1) && sy == (if y0 >= y1 then -1 else 1) &&
    0 <= nx <= dx && 0 <= ny <= -dy &&
    ix == (if sx == 1 then x0 + nx else x0 - nx) &&
    iy == (if sy == 1 then y0 + ny else y0 - ny) &&
    d == Deviation(dx, dy, nx, ny) && err == dx + dy + d &&
    -Max(dx, -dy) <= 2 * d <= Max(dx, -dy)
  }

  /** A loop state lies in the box of the end points, and reaches the end exactly when both counts are full. */
  lemma LoopStateInBox(x0: int, y0: int, x1: int, y1: int, dx: int, dy: int, sx: int, sy: int,
                       ix: int, iy: int, err: int, nx: int, ny: int, d: int)
    requires LoopState(x0, y0, x1, y1, dx, dy, sx, sy, ix, iy, err, nx, ny, d)
    ensures InBox((ix, iy), (x0, y0), (x1, y1))
    ensures (ix == x1 && iy == y1) <==> (nx == dx && ny == -dy)
    ensures ix == x1 && iy == y1 ==> Max(Abs(x1 - x0), Abs(y1 - y0)) == if dx >= -dy then nx else ny
  {
  }

  /**
    One pass of the loop of drawLine after the pixel test: err decides whether x moves by
    sx and whether y moves by sy. Short of the end point, the new state is again a loop
    state, one pixel away, and the longer axis has moved.
  */
  method BresenhamStep(ghost x0: int, ghost y0: int, ghost x1: int, ghost y1: int,
                       dx: int, dy: int, sx: int, sy: int, ix: int, iy: int, err: int,
                       ghost nx: int, ghost ny: int, ghost d: int)
    returns (ix': int, iy': int, err': int, ghost nx': int, ghost ny': int, ghost d': int)
    requires LoopState(x0, y0, x1, y1, dx, dy, sx, sy, ix, iy, err, nx, ny, d)
    requires !(ix == x1 && iy == y1)
    ensures LoopState(x0, y0, x1, y1, dx, dy, sx, sy, ix', iy', err', nx', ny', d')
    ensures Adjacent((ix, iy), (ix', iy'))
    ensures nx <= nx' && ny <= ny' && nx + ny < nx' + ny'
    ensures dx >= -dy ==> nx' == nx + 1
    ensures -dy > dx ==> ny' == ny + 1
  {
    LoopStateInBox(x0, y0, x1, y1, dx, dy, sx, sy, ix, iy, err, nx, ny, d);
    DeviationIs(dx, dy, nx, ny);
    StepRule(dx, -dy, nx, ny, d);
    ix', iy', err', nx', ny', d' := ix, iy, err, nx, ny, d;
    var e2 := 2 * err;
    if e2 >= dy {
      err' := err' + dy;
      ix' := ix' + sx;
      MulPlusOne(dy, nx);
      nx', d' := nx' + 1, d' + dy;
    }
    if e2 <= dx {
      err' := err' + dx;
      iy' := iy' + sy;
      MulPlusOne(dx, ny);
      ny', d' := ny' + 1, d' + dx;
    }
    DeviationIs(dx, dy, nx', ny');
  }

  /**
    The points visited so far from `a` towards `b`, the current one `cur` not yet among
    them: each lies in the box of the end points and is adjacent to the next one, the
    first is `a` and the last is next to `cur`.
  */
  ghost predicate Chain(s: seq<(int, int)>, a: (int, int), b: (int, int), cur: (int, int))
  {
    if |s| == 0 then cur == a
    else InBox(s[|s| - 1], a, b) && Adjacent(s[|s| - 1], cur) && Chain(s[..|s| - 1], a, b, s[|s| - 1])
  }

  /** Visiting a current point of the box and moving to an adjacent one extends the chain. */
  lemma ChainExtend(s: seq<(int, int)>, a: (int, int), b: (int, int), cur: (int, int), next: (int, int))
    requires Chain(s, a, b, cur) && InBox(cur, a, b) && Adjacent(cur, next)
    ensures Chain(s + [cur], a, b, next)
  {
    assert (s + [cur])[..|s|] == s;
  }

  /** What a chain says point by point. */
  lemma {:induction false} ChainPoints(s: seq<(int, int)>, a: (int, int), b: (int, int), cur: (int, int))
    requires Chain(s, a, b, cur)
    ensures |s| > 0 ==> s[0] == a
    ensures forall k :: 0 < k < |s| ==> Adjacent(s[k - 1], s[k])
    ensures forall k :: 0 <= k < |s| ==> InBox(s[k], a, b)
  {
    if |s| > 0 {
      var p := s[..|s| - 1];
      ChainPoints(p, a, b, s[|s| - 1]);
      assert forall k :: 0 <= k < |p| ==> s[k] == p[k];
    }
  }

  /** A chain of the right length whose current point is `b` closes into a line. */
  lemma LineClosed(s: seq<(int, int)>, a: (int, int), b: (int, int))
    requires Chain(s, a, b, b) && InBox(b, a, b)
    requires |s| == Max(Abs(b.0 - a.0), Abs(b.1 - a.1))
    ensures IsLine(s + [b], a, b)
  {
    var t := s + [b];
    ChainExtend(s, a, b, b, (b.0 + 1, b.1));
    ChainPoints(t, a, b, (b.0 + 1, b.1));
  }

  /** The points set after visiting `p` at the end of `s`. */
  lemma OnScreenPointsSnoc(s: seq<(int, int)>, p: (int, int))
    ensures OnScreenPoints(s + [p]) == if OnScreen(p) then OnScreenPoints(s) + [p] else OnScreenPoints(s)
  {
    assert (s + [p])[..|s|] == s;
  }

  /** The pixel test of drawLine's loop: (ix, iy) is visited, and set when it is on the screen. */
  method Visit(visited: seq<(int, int)>, plotted: seq<(int, int)>, ix: int, iy: int)
    returns (visited': seq<(int, int)>, plotted': seq<(int, int)>)
    requires plotted == OnScreenPoints(visited)
    ensures visited' == visited + [(ix, iy)]
    ensures plotted' == OnScreenPoints(visited')
  {
    OnScreenPointsSnoc(visited, (ix, iy));
    visited', plotted' := visited + [(ix, iy)], plotted;
    if ix >= 0 && iy >= 0 && ix < ScreenWidth && iy < ScreenHeight {
      plotted' := plotted' + [(ix, iy)];
    }
  }

  /**
    The loop of drawLine on rounded end points (x0, y0) and (x1, y1): every point visited
    in order, and the ones set, which are the visited points on the screen.
  */
  method Bresenham(x0: int, y0: int, x1: int, y1: int)
    returns (visited: seq<(int, int)>, plotted: seq<(int, int)>)
    ensures IsLine(visited, (x0, y0), (x1, y1))
    ensures plotted == OnScreenPoints(visited)
  {
    var ix0, iy0 := x0, y0;
    var dx := Abs(x1 - ix0);
    var sx := 1;
    if ix0 >= x1 {
      sx := -1;
    }
    var dy := -Abs(y1 - iy0);
    var sy := 1;
    if iy0 >= y1 {
      sy := -1;
    }
    var err := dx + dy;
    ghost var nx, ny, d := 0, 0, 0;
    visited, plotted := [], [];
    while true
      invariant LoopState(x0, y0, x1, y1, dx, dy, sx, sy, ix0, iy0, err, nx, ny, d)
      invariant |visited| == (if dx >= -dy then nx else ny)
      invariant Chain(visited, (x0, y0), (x1, y1), (ix0, iy0))
      invariant plotted == OnScreenPoints(visited)
      decreases (dx - nx) + (-dy - ny)
    {
      LoopStateInBox(x0, y0, x1, y1, dx, dy, sx, sy, ix0, iy0, err, nx, ny, d);
      ghost var prev := visited;
      visited, plotted := Visit(visited, plotted, ix0, iy0);
      if ix0 == x1 && iy0 == y1 {
        LineClosed(prev, (x0, y0), (x1, y1));
        break;
      }
      ghost var cur := (ix0, iy0);
      ix0, iy0, err, nx, ny, d := BresenhamStep(x0, y0, x1, y1, dx, dy, sx, sy, ix0, iy0, err, nx, ny, d);
      ChainExtend(prev, (x0, y0), (x1, y1), cur, (ix0, iy0));
    }
  }

  /** drawLine: the end points are rounded with math.Round and joined by Bresenham's loop. */
  method DrawLine(x0: real, y0: real, x1: real, y1: real)
    returns (visited: seq<(int, int)>, plotted: seq<(int, int)>)
    ensures IsLine(visited, (Round(x0), Round(y0)), (Round(x1), Round(y1)))
    ensures plotted == OnScreenPoints(visited)
  {
    visited, plotted := Bresenham(Round(x0), Round(y0), Round(x1), Round(y1));
  }

  // ---------------------------------------------------------------------------
  // The vertical range of drawForceGraph

  /** The running minimum of the loop of drawForceGraph, taken left to right. */
  function MinOf(s: seq<real>): real
    requires |s| > 0
  {
    if |s| == 1 then s[0]
    else
      var m := MinOf(s[..|s| - 1]);
      if s[|s| - 1] < m then s[|s| - 1] else m
  }

  /** The running maximum of the same loop. */
  function MaxOf(s: seq<real>): real
    requires |s| > 0
  {
    if |s| == 1 then s[0]
    else
      var m := MaxOf(s[..|s| - 1]);
      if s[|s| - 1] > m then s[|s| - 1] else m
  }

  /** MinOf and MaxOf are attained in `s` and bound every element of it. */
  lemma {:induction false} MinMaxBounds(s: seq<real>)
    requires |s| > 0
    ensures MinOf(s) in s && MaxOf(s) in s
    ensures forall k :: 0 <= k < |s| ==> MinOf(s) <= s[k] <= MaxOf(s)
  {
    if |s| > 1 {
      var p := s[..|s| - 1];
      MinMaxBounds(p);
      assert forall k :: 0 <= k < |p| ==> s[k] == p[k];
    }
  }

  function AbsReal(x: real): real
  {
    if x < 0.0 then -x else x
  }

  /**
    The axis range drawn for data whose minimum is `lo` and maximum `hi`: symmetric about
    zero when both signs occur, widened by 1 on each side when flat, otherwise padded by
    5% of its width on each side.
  */
  function AxisRangeOf(lo: real, hi: real): (real, real)
  {
    var (a, b) :=
      if lo < 0.0 && hi > 0.0 then
        var m := if AbsReal(lo) > AbsReal(hi) then AbsReal(lo) else AbsReal(hi);
        (-m, m)
      else (lo, hi);
    if a == b then (a - 1.0, b + 1.0)
    else
      var pad := 0.05 * (b - a);
      (a - pad, b + pad)
  }

  /**
    The range is never empty, contains [lo, hi], and is symmetric about zero when lo is
    negative and hi positive.
  */
  lemma AxisRangeContains(lo: real, hi: real)
    requires lo <= hi
    ensures var r := AxisRangeOf(lo, hi);
      r.0 < r.1 && r.0 <= lo && hi <= r.1 &&
      (lo < 0.0 && hi > 0.0 ==> r.0 == -r.1)
  {
  }

  /**
    The range computation of drawForceGraph: nothing for empty data, else the range of
    the data's minimum and maximum as found by its loop.
  */
  method AxisRange(data: seq<real>) returns (r: Option<(real, real)>)
    ensures |data| == 0 ==> r == None
    ensures |data| > 0 ==> r == Some(AxisRangeOf(MinOf(data), MaxOf(data)))
  {
    if |data| == 0 {
      return None;
    }
    var minV := data[0];
    var maxV := data[0];
    for i := 0 to |data|
      invariant i == 0 ==> minV == data[0] && maxV == data[0]
      invariant i > 0 ==> minV == MinOf(data[..i]) && maxV == MaxOf(data[..i])
    {
      var v := data[i];
      assert data[..i + 1][..i] == data[..i];
      if v < minV {
        minV := v;
      }
      if v > maxV {
        maxV := v;
      }
    }
    assert data[..|data|] == data;
    if minV < 0.0 && maxV > 0.0 {
      var b := if AbsReal(minV) > AbsReal(maxV) then AbsReal(minV) else AbsReal(maxV);
      minV := -b;
      maxV := b;
    }
    if minV == maxV {
      maxV := maxV + 1.0;
      minV := minV - 1.0;
    } else {
      var pad := 0.05 * (maxV - minV);
      maxV := maxV + pad;
      minV := minV - pad;
    }
    return Some((minV, maxV));
  }

  /** Every data value lies inside the axis range, which is never empty. */
  lemma AxisRangeCoversData(data: seq<real>, k: nat)
    requires k < |data|
    ensures var r := AxisRangeOf(MinOf(data), MaxOf(data));
      r.0 < r.1 && r.0 <= data[k] <= r.1
  {
    MinMaxBounds(data);
    AxisRangeContains(MinOf(data), MaxOf(data));
  }

  // ---------------------------------------------------------------------------
  // Arithmetic helpers: single proof steps of the lemmas above, not models of any
  // function of gravity-sim

  lemma MulPlusOne(a: int, b: int)
    ensures a * (b + 1) == a * b + a
  {
  }

  lemma MulAtLeast(a: int, u: int)
    requires 0 <= a && 1 <= u
    ensures a * u >= a
  {
  }
}
