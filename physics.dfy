/**
  Bodies and the softened gravity sum of pkg/physics/body.go and pkg/physics/gravity.go.

  A Go `Body` is a value (it is copied into slices and passed by value), so it is a
  datatype here, and the pointer-receiver `Body.Update` is a function returning the
  updated body.
*/
module Physics {
  import opened Vectors
  import opened Colors

  /** The gravitational constant of gravity.go, 6.67430e-1 (scaled for display). */
  const G: real := 0.667430

  /** The softening length of ComputeAcceleration. */
  const Epsilon: real := 5.0

  datatype Body = Body(
    mass: real,
    pos: Vec2,
    vel: Vec2,
    acc: Vec2,
    radius: real,
    color: RGBA,
    locked: bool,
    anti: bool)
  {
    /**
      One semi-implicit Euler step of this body against `bodies`: the acceleration is
      recomputed; a locked body has its velocity zeroed and keeps its position; an
      unlocked body updates its velocity first and then moves with the NEW velocity.
    */
    function Update(dt: real, bodies: seq<Body>, sqrt: real -> real): (b: Body)
      requires mass != 0.0
      ensures b.acc == AccelSum(this, bodies, sqrt)
      ensures SameProperties(b, this)
      ensures locked ==> b.pos == pos && b.vel == Zero
      ensures !locked ==> b.vel == vel.Add(b.acc.Mul(dt)) && b.pos == pos.Add(b.vel.Mul(dt))
    {
      var a := AccelSum(this, bodies, sqrt);
      if locked then
        this.(acc := a, vel := Vec2(0.0, 0.0))
      else
        var v := vel.Add(a.Mul(dt));
        this.(acc := a, vel := v, pos := pos.Add(v.Mul(dt)))
    }
  }

  /** The fields no step ever changes: Mass, Radius, ColorC, Locked and Anti. */
  predicate SameProperties(b: Body, c: Body)
  {
    b.mass == c.mass && b.radius == c.radius && b.color == c.color &&
    b.locked == c.locked && b.anti == c.anti
  }

  /** The softened squared distance |dir|^2 + epsilon^2, with |dir| taken by `sqrt`. */
  function SoftDist2(dir: Vec2, sqrt: real -> real): (d2: real)
    ensures d2 >= Epsilon * Epsilon
  {
    var l := dir.Len(sqrt);
    SquareNonNegative(l);
    l * l + Epsilon * Epsilon
  }

  /**
    The acceleration per unit of direction that source `b2` gives at softened squared
    distance `d2`: G * m2 / d2, negated for an anti-gravity source.
  */
  function Pull(b2: Body, d2: real): real
    requires d2 != 0.0
  {
    var k := G * b2.mass / d2;
    if b2.anti then -k else k
  }

  /** The signed force magnitude G * m1 * m2 / d2 of gravity.go, negated for an anti-gravity source. */
  function Magnitude(m1: real, m2: real, anti: bool, d2: real): real
    requires d2 != 0.0
  {
    var fmag := G * m1 * m2 / d2;
    if anti then -fmag else fmag
  }

  /** The acceleration that source `b2` gives `b1` (one iteration of the loop in gravity.go). */
  function Contribution(b1: Body, b2: Body, sqrt: real -> real): (a: Vec2)
    requires b1.mass != 0.0
    ensures b2.mass == 0.0 ==> a == Zero
  {
    var dir := b2.pos.Sub(b1.pos);
    dir.Normalize(sqrt).Mul(Magnitude(b1.mass, b2.mass, b2.anti, SoftDist2(dir, sqrt)) / b1.mass)
  }

  /**
    The sum, in slice order, of the contributions of every element of `others`. The
    element that is a copy of `b1` is not skipped: gravity.go's test `&b1 == &b2`
    compares two distinct local variables and never holds.
  */
  function AccelSum(b1: Body, others: seq<Body>, sqrt: real -> real): (a: Vec2)
    requires b1.mass != 0.0
  {
    if |others| == 0 then Zero
    else AccelSum(b1, others[..|others| - 1], sqrt).Add(Contribution(b1, others[|others| - 1], sqrt))
  }

  /** ComputeAcceleration: the loop of gravity.go accumulating into `force`. */
  method ComputeAcceleration(b1: Body, others: seq<Body>, sqrt: real -> real) returns (force: Vec2)
    requires b1.mass != 0.0
    ensures force == AccelSum(b1, others, sqrt)
  {
    force := Vec2(0.0, 0.0);
    var epsilon := 5.0;
    for j := 0 to |others|
      invariant force == AccelSum(b1, others[..j], sqrt)
    {
      var b2 := others[j];
      var dir := b2.pos.Sub(b1.pos);
      var d2 := dir.Len(sqrt) * dir.Len(sqrt) + epsilon * epsilon;
      assert d2 == SoftDist2(dir, sqrt);
      var fmag := G * b1.mass * b2.mass / d2;
      if b2.anti {
        fmag := -fmag;
      }
      assert fmag == Magnitude(b1.mass, b2.mass, b2.anti, d2);
      var acc := dir.Normalize(sqrt).Mul(fmag / b1.mass);
      force := force.Add(acc);
      assert others[..j + 1][..j] == others[..j];
    }
    assert others[..|others|] == others;
  }

  // ---------------------------------------------------------------------------
  // Properties of the contribution of one source body

  /**
    A contribution is Normalize(dir) scaled by Pull: the observer's own mass cancels out.
  */
  lemma ContributionFactor(b1: Body, b2: Body, sqrt: real -> real)
    requires b1.mass != 0.0
    ensures var dir := b2.pos.Sub(b1.pos);
      Contribution(b1, b2, sqrt) == dir.Normalize(sqrt).Mul(Pull(b2, SoftDist2(dir, sqrt)))
  {
    var dir := b2.pos.Sub(b1.pos);
    MagnitudePerMass(b1.mass, b2, SoftDist2(dir, sqrt));
  }

  /** Magnitude / m1 is Pull for either value of the Anti flag. */
  lemma MagnitudePerMass(m1: real, b2: Body, d2: real)
    requires m1 != 0.0 && d2 != 0.0
    ensures Magnitude(m1, b2.mass, b2.anti, d2) / m1 == Pull(b2, d2)
  {
    var f := G * m1 * b2.mass / d2;
    MassCancels(G, m1, b2.mass, d2);
    if b2.anti {
      NegDiv(f, m1);
    }
  }

  /** The magnitude divided by the observer's mass no longer depends on that mass. */
  lemma MassCancels(g: real, m1: real, m2: real, d2: real)
    requires m1 != 0.0 && d2 != 0.0
    ensures (g * m1 * m2 / d2) / m1 == g * m2 / d2
  {
    var f := g * m1 * m2 / d2;
    var q := g * m2 / d2;
    assert f == q * m1 by {
      assert f * d2 == g * m1 * m2;
      assert q * d2 == g * m2;
      assert (q * m1) * d2 == g * m1 * m2;
    }
  }

  /** An ordinary source of non-negative mass pulls towards itself with a non-negative factor. */
  lemma AttractionTowardsSource(b1: Body, b2: Body, sqrt: real -> real)
    requires b1.mass != 0.0
    requires !b2.anti && 0.0 <= b2.mass
    ensures var dir := b2.pos.Sub(b1.pos);
      var k := G * b2.mass / SoftDist2(dir, sqrt);
      0.0 <= k && Contribution(b1, b2, sqrt) == dir.Normalize(sqrt).Mul(k)
  {
    ContributionFactor(b1, b2, sqrt);
  }

  /** Flipping the source's Anti flag negates exactly its contribution. */
  lemma AntiNegates(b1: Body, b2: Body, sqrt: real -> real)
    requires b1.mass != 0.0
    ensures Contribution(b1, b2.(anti := !b2.anti), sqrt) == Contribution(b1, b2, sqrt).Mul(-1.0)
  {
    var flipped := b2.(anti := !b2.anti);
    ContributionFactor(b1, b2, sqrt);
    ContributionFactor(b1, flipped, sqrt);
    var dir := b2.pos.Sub(b1.pos);
    assert flipped.pos.Sub(b1.pos) == dir;
    var d2 := SoftDist2(dir, sqrt);
    assert Pull(flipped, d2) == -Pull(b2, d2);
    MulNeg(dir.Normalize(sqrt), Pull(b2, d2));
  }

  /**
    A source at the observer's own position (in particular the observer's own copy in the
    slice) contributes nothing: dir is zero and Normalize maps it to zero.
  */
  lemma CoLocatedContributesNothing(b1: Body, b2: Body, sqrt: real -> real)
    requires b1.mass != 0.0
    requires b2.pos == b1.pos
    requires sqrt(0.0) == 0.0
    ensures Contribution(b1, b2, sqrt) == Zero
  {
    assert b2.pos.Sub(b1.pos) == Zero;
  }

  lemma SelfContributesNothing(b1: Body, sqrt: real -> real)
    requires b1.mass != 0.0
    requires sqrt(0.0) == 0.0
    ensures Contribution(b1, b1, sqrt) == Zero
  {
    CoLocatedContributesNothing(b1, b1, sqrt);
  }

  // ---------------------------------------------------------------------------
  // Properties of the sum

  lemma AccelEmpty(b1: Body, sqrt: real -> real)
    requires b1.mass != 0.0
    ensures AccelSum(b1, [], sqrt) == Zero
  {
  }

  /** Sources that all have mass 0 give no acceleration. */
  lemma {:induction false} AccelMassless(b1: Body, others: seq<Body>, sqrt: real -> real)
    requires b1.mass != 0.0
    requires forall k :: 0 <= k < |others| ==> others[k].mass == 0.0
    ensures AccelSum(b1, others, sqrt) == Zero
    decreases |others|
  {
    if |others| > 0 {
      var init := others[..|others| - 1];
      assert forall k :: 0 <= k < |init| ==> init[k].mass == 0.0 by {
        forall k | 0 <= k < |init| ensures init[k].mass == 0.0 {
          assert init[k] == others[k];
        }
      }
      AccelMassless(b1, init, sqrt);
    }
  }

  /** Appending a body to `others` adds exactly that body's contribution. */
  lemma AccelAppend(b1: Body, others: seq<Body>, b: Body, sqrt: real -> real)
    requires b1.mass != 0.0
    ensures AccelSum(b1, others + [b], sqrt) == AccelSum(b1, others, sqrt).Add(Contribution(b1, b, sqrt))
  {
    assert (others + [b])[..|others|] == others;
  }

  /** The sum over a concatenation is the sum of the sums. */
  lemma {:induction false} AccelConcat(b1: Body, s: seq<Body>, t: seq<Body>, sqrt: real -> real)
    requires b1.mass != 0.0
    ensures AccelSum(b1, s + t, sqrt) == AccelSum(b1, s, sqrt).Add(AccelSum(b1, t, sqrt))
  {
    if |t| == 0 {
      assert s + t == s;
    } else {
      var t' := t[..|t| - 1];
      var last := t[|t| - 1];
      assert t == t' + [last];
      assert s + t == (s + t') + [last];
      AccelConcat(b1, s, t', sqrt);
      AccelAppend(b1, s + t', last, sqrt);
      AccelAppend(b1, t', last, sqrt);
    }
  }

  /** One body's contribution is the sum over the one-element slice. */
  lemma AccelSingle(b1: Body, b: Body, sqrt: real -> real)
    requires b1.mass != 0.0
    ensures AccelSum(b1, [b], sqrt) == Contribution(b1, b, sqrt)
  {
    AccelAppend(b1, [], b, sqrt);
  }

  /** Replacing element k changes the sum by exactly the difference of the two contributions. */
  lemma AccelReplace(b1: Body, s: seq<Body>, k: nat, c: Body, sqrt: real -> real)
    requires b1.mass != 0.0
    requires k < |s|
    ensures AccelSum(b1, s[k := c], sqrt)
         == AccelSum(b1, s, sqrt).Sub(Contribution(b1, s[k], sqrt)).Add(Contribution(b1, c, sqrt))
  {
    var pre, post := s[..k], s[k + 1..];
    assert s == pre + [s[k]] + post;
    assert s[k := c] == pre + [c] + post;
    AccelConcat(b1, pre + [s[k]], post, sqrt);
    AccelConcat(b1, pre + [c], post, sqrt);
    AccelAppend(b1, pre, s[k], sqrt);
    AccelAppend(b1, pre, c, sqrt);
  }

  /**
    Flipping Anti on source k negates that body's contribution and leaves every other
    contribution in place: the sum moves by twice that contribution.
  */
  lemma AccelAntiFlip(b1: Body, s: seq<Body>, k: nat, sqrt: real -> real)
    requires b1.mass != 0.0
    requires k < |s|
    ensures AccelSum(b1, s[k := s[k].(anti := !s[k].anti)], sqrt)
         == AccelSum(b1, s, sqrt).Sub(Contribution(b1, s[k], sqrt).Mul(2.0))
  {
    AccelReplace(b1, s, k, s[k].(anti := !s[k].anti), sqrt);
    AntiNegates(b1, s[k], sqrt);
  }

  /**
    The observer enters the sum only through its position: its mass (when nonzero),
    velocity, acceleration, Locked and Anti flags never affect the result.
  */
  lemma {:induction false} AccelDependsOnlyOnPosition(b1: Body, c1: Body, s: seq<Body>, sqrt: real -> real)
    requires b1.mass != 0.0 && c1.mass != 0.0
    requires b1.pos == c1.pos
    ensures AccelSum(b1, s, sqrt) == AccelSum(c1, s, sqrt)
  {
    if |s| > 0 {
      AccelDependsOnlyOnPosition(b1, c1, s[..|s| - 1], sqrt);
      ContributionFactor(b1, s[|s| - 1], sqrt);
      ContributionFactor(c1, s[|s| - 1], sqrt);
    }
  }

  /**
    Two ordinary bodies: the acceleration of b1 over the slice [b1, b2] points along the
    unit vector towards b2 with magnitude G * m2 / (d^2 + epsilon^2).
  */
  lemma TwoBodyPull(b1: Body, b2: Body, sqrt: real -> real)
    requires IsSqrt(sqrt)
    requires b1.mass != 0.0 && !b2.anti
    ensures var dir := b2.pos.Sub(b1.pos);
      AccelSum(b1, [b1, b2], sqrt) == dir.Normalize(sqrt).Mul(G * b2.mass / (dir.Norm2() + Epsilon * Epsilon))
  {
    var dir := b2.pos.Sub(b1.pos);
    ExactRoots(dir, sqrt);
    SelfTermVanishes(b1, b2, sqrt);
    OrdinaryContribution(b1, b2, sqrt);
  }

  /** An exact root is exact at 0 and at the squared length of `dir`. */
  lemma ExactRoots(dir: Vec2, sqrt: real -> real)
    requires IsSqrt(sqrt)
    ensures sqrt(0.0) == 0.0
    ensures sqrt(dir.Norm2()) * sqrt(dir.Norm2()) == dir.Norm2()
  {
    RootOf(sqrt, 0.0);
    NormNonNegative(dir);
    RootOf(sqrt, dir.Norm2());
  }

  /**
    Over [b1, b2] the observer's own copy adds nothing, so the sum is b2's contribution
    alone.
  */
  lemma SelfTermVanishes(b1: Body, b2: Body, sqrt: real -> real)
    requires b1.mass != 0.0
    requires sqrt(0.0) == 0.0
    ensures AccelSum(b1, [b1, b2], sqrt) == Contribution(b1, b2, sqrt)
  {
    assert [b1, b2] == [b1] + [b2];
    AccelAppend(b1, [b1], b2, sqrt);
    AccelSingle(b1, b1, sqrt);
    SelfContributesNothing(b1, sqrt);
    AddZero(Contribution(b1, b2, sqrt));
  }

  /**
    With an exact root of |dir|^2, an ordinary source's contribution is the unit vector
    towards it scaled by G * m2 / (|dir|^2 + epsilon^2).
  */
  lemma OrdinaryContribution(b1: Body, b2: Body, sqrt: real -> real)
    requires b1.mass != 0.0 && !b2.anti
    requires var n := b2.pos.Sub(b1.pos).Norm2(); sqrt(n) * sqrt(n) == n
    ensures var dir := b2.pos.Sub(b1.pos);
      Contribution(b1, b2, sqrt) == dir.Normalize(sqrt).Mul(G * b2.mass / (dir.Norm2() + Epsilon * Epsilon))
  {
    var dir := b2.pos.Sub(b1.pos);
    ContributionFactor(b1, b2, sqrt);
    SoftDist2Exact(dir, sqrt);
    var e := dir.Norm2() + Epsilon * Epsilon;
    OrdinaryPull(b2, SoftDist2(dir, sqrt), e);
    MulByEqual(dir.Normalize(sqrt), Pull(b2, SoftDist2(dir, sqrt)), G * b2.mass / e);
  }

  /** The pull of an ordinary source at a squared distance `d2` also written `e`. */
  lemma OrdinaryPull(b2: Body, d2: real, e: real)
    requires !b2.anti && d2 == e && e != 0.0
    ensures Pull(b2, d2) == G * b2.mass / e
  {
  }

  /** With an exact root of |dir|^2 the softened distance is |dir|^2 + epsilon^2. */
  lemma SoftDist2Exact(dir: Vec2, sqrt: real -> real)
    requires sqrt(dir.Norm2()) * sqrt(dir.Norm2()) == dir.Norm2()
    ensures SoftDist2(dir, sqrt) == dir.Norm2() + Epsilon * Epsilon
  {
  }

  /** With dt = 0 a step changes no position, and no velocity of an unlocked body. */
  lemma UpdateZeroDt(b: Body, bodies: seq<Body>, sqrt: real -> real)
    requires b.mass != 0.0
    ensures b.Update(0.0, bodies, sqrt).pos == b.pos
    ensures !b.locked ==> b.Update(0.0, bodies, sqrt).vel == b.vel
  {
  }

  // ---------------------------------------------------------------------------
  // Arithmetic helpers: single proof steps of the lemmas above, not models of any
  // function of gravity-sim

  lemma NegDiv(a: real, m: real)
    requires m != 0.0
    ensures (-a) / m == -(a / m)
  {
  }

  lemma MulNeg(u: Vec2, k: real)
    ensures u.Mul(-k) == u.Mul(k).Mul(-1.0)
  {
  }
}
