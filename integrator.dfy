/**
  IntegrateEulerSymplectic of pkg/physics/integrator.go: one in-place sweep over the body
  array. Body i's acceleration is computed from the array as it is at that moment, so the
  bodies before i already carry their new state and the bodies from i on their old one.
*/
module Integrator {
  import opened Vectors
  import opened Physics

  /** Every body has a nonzero mass, the divisor of gravity.go. */
  predicate AllMassive(s: seq<Body>)
  {
    forall k :: 0 <= k < |s| ==> s[k].mass != 0.0
  }

  /**
    The array after the first `i` iterations of the loop: iteration i replaces body i by
    its Update against the whole array of that moment.
  */
  function Sweep(s: seq<Body>, dt: real, sqrt: real -> real, i: nat): (t: seq<Body>)
    requires i <= |s| && AllMassive(s)
    ensures |t| == |s|
    ensures forall k :: 0 <= k < |s| ==> SameProperties(t[k], s[k])
    ensures forall k :: i <= k < |s| ==> t[k] == s[k]
    decreases i
  {
    if i == 0 then s
    else
      var t := Sweep(s, dt, sqrt, i - 1);
      t[i - 1 := t[i - 1].Update(dt, t, sqrt)]
  }

  /** The whole sweep: the state IntegrateEulerSymplectic leaves behind. */
  function Step(s: seq<Body>, dt: real, sqrt: real -> real): (t: seq<Body>)
    requires AllMassive(s)
    ensures |t| == |s| && AllMassive(t)
    ensures forall k :: 0 <= k < |s| ==> SameProperties(t[k], s[k])
  {
    Sweep(s, dt, sqrt, |s|)
  }

  /**
    The body of the loop of IntegrateEulerSymplectic for one body `b` read from `bodies`:
    Acc is recomputed; a locked body has its velocity zeroed; an unlocked one updates
    velocity, then position with the new velocity. The same effect as Body.Update.
  */
  method StepBody(b: Body, bodies: seq<Body>, dt: real, sqrt: real -> real) returns (nb: Body)
    requires b.mass != 0.0
    ensures nb == b.Update(dt, bodies, sqrt)
  {
    var acc := ComputeAcceleration(b, bodies, sqrt);
    nb := b.(acc := acc);
    if nb.locked {
      nb := nb.(vel := Vec2(0.0, 0.0));
    } else {
      nb := nb.(vel := nb.vel.Add(nb.acc.Mul(dt)));
      nb := nb.(pos := nb.pos.Add(nb.vel.Mul(dt)));
    }
  }

  /**
    IntegrateEulerSymplectic: sweeps the array in place, body i being stepped against the
    array of that moment, and returns the same array.
  */
  method Integrate(a: array<Body>, dt: real, sqrt: real -> real) returns (r: array<Body>)
    requires AllMassive(a[..])
    modifies a
    ensures r == a
    ensures a[..] == Step(old(a[..]), dt, sqrt)
  {
    ghost var s := a[..];
    for i := 0 to a.Length
      invariant a[..] == Sweep(s, dt, sqrt, i)
    {
      ghost var t := a[..];
      assert a[i] == t[i] && SameProperties(t[i], s[i]);
      var nb := StepBody(a[i], a[..], dt, sqrt);
      a[i] := nb;
      assert a[..] == t[i := nb];
      assert Sweep(s, dt, sqrt, i + 1) == t[i := nb];
    }
    assert a[..] == Sweep(s, dt, sqrt, |s|);
    return a;
  }

  /** Once iteration i is behind, the bodies before i are never touched again. */
  lemma {:induction false} Settled(s: seq<Body>, dt: real, sqrt: real -> real, i: nat, j: nat)
    requires i <= j <= |s| && AllMassive(s)
    ensures Sweep(s, dt, sqrt, j)[..i] == Sweep(s, dt, sqrt, i)[..i]
    decreases j
  {
    if j > i {
      var t := Sweep(s, dt, sqrt, j - 1);
      var u := Sweep(s, dt, sqrt, j);
      assert u == t[j - 1 := u[j - 1]];
      PrefixKept(t, j - 1, u[j - 1], i);
      assert u[..i] == t[..i];
      Settled(s, dt, sqrt, i, j - 1);
    }
  }

  /** Writing at index p leaves the prefix before any i <= p alone. */
  lemma PrefixKept<T>(t: seq<T>, p: nat, x: T, i: nat)
    requires i <= p < |t|
    ensures t[p := x][..i] == t[..i]
  {
  }

  /** After i iterations the array is the final prefix [..i] followed by the untouched rest. */
  lemma MidSweep(s: seq<Body>, dt: real, sqrt: real -> real, i: nat)
    requires i <= |s| && AllMassive(s)
    ensures Sweep(s, dt, sqrt, i) == Step(s, dt, sqrt)[..i] + s[i..]
  {
    var t := Sweep(s, dt, sqrt, i);
    Settled(s, dt, sqrt, i, |s|);
    assert t == t[..i] + t[i..];
    assert t[i..] == s[i..];
  }

  /**
    The mixed snapshot: body k of the result is body k of the input updated against the
    array whose bodies before k are already final and whose bodies from k on are original.
  */
  lemma MixedSnapshot(s: seq<Body>, dt: real, sqrt: real -> real, k: nat)
    requires k < |s| && AllMassive(s)
    ensures Step(s, dt, sqrt)[k] == s[k].Update(dt, Step(s, dt, sqrt)[..k] + s[k..], sqrt)
  {
    var final := Step(s, dt, sqrt);
    Settled(s, dt, sqrt, k + 1, |s|);
    assert final[k] == final[..k + 1][k] == Sweep(s, dt, sqrt, k + 1)[k];
    MidSweep(s, dt, sqrt, k);
  }

  /** The first body is stepped against the untouched input. */
  lemma FirstSeesOldState(s: seq<Body>, dt: real, sqrt: real -> real)
    requires 0 < |s| && AllMassive(s)
    ensures Step(s, dt, sqrt)[0] == s[0].Update(dt, s, sqrt)
  {
    MixedSnapshot(s, dt, sqrt, 0);
    assert Step(s, dt, sqrt)[..0] + s[0..] == s;
  }

  /**
    What one sweep does to body k: Acc is the sum over the mixed array; a locked body
    keeps its position and gets zero velocity; an unlocked one gets Vel + Acc*dt and then
    moves with that new velocity.
  */
  lemma StepEffect(s: seq<Body>, dt: real, sqrt: real -> real, k: nat)
    requires k < |s| && AllMassive(s)
    ensures var b := Step(s, dt, sqrt)[k];
      b.acc == AccelSum(s[k], Step(s, dt, sqrt)[..k] + s[k..], sqrt) &&
      (s[k].locked ==> b.pos == s[k].pos && b.vel == Zero) &&
      (!s[k].locked ==> b.vel == s[k].vel.Add(b.acc.Mul(dt)) && b.pos == s[k].pos.Add(b.vel.Mul(dt)))
  {
    MixedSnapshot(s, dt, sqrt, k);
  }

  /** With dt = 0 no body moves and no unlocked body changes velocity. */
  lemma StepZeroDt(s: seq<Body>, sqrt: real -> real, k: nat)
    requires k < |s| && AllMassive(s)
    ensures Step(s, 0.0, sqrt)[k].pos == s[k].pos
    ensures !s[k].locked ==> Step(s, 0.0, sqrt)[k].vel == s[k].vel
  {
    MixedSnapshot(s, 0.0, sqrt, k);
    UpdateZeroDt(s[k], Step(s, 0.0, sqrt)[..k] + s[k..], sqrt);
  }

  /** `n` consecutive sweeps with the same dt, as Simulator.Update called n times. */
  function Steps(s: seq<Body>, dt: real, sqrt: real -> real, n: nat): (t: seq<Body>)
    requires AllMassive(s)
    ensures |t| == |s| && AllMassive(t)
    ensures forall k :: 0 <= k < |s| ==> SameProperties(t[k], s[k])
  {
    if n == 0 then s else Step(Steps(s, dt, sqrt, n - 1), dt, sqrt)
  }

  /** A locked body never leaves its place, however many sweeps run. */
  lemma {:induction false} LockedStaysPut(s: seq<Body>, dt: real, sqrt: real -> real, n: nat, k: nat)
    requires k < |s| && AllMassive(s) && s[k].locked
    ensures Steps(s, dt, sqrt, n)[k].pos == s[k].pos
  {
    if n > 0 {
      var t := Steps(s, dt, sqrt, n - 1);
      LockedStaysPut(s, dt, sqrt, n - 1, k);
      LockedStepKeepsPlace(t, dt, sqrt, k);
    }
  }

  /** One sweep leaves a locked body where it is. */
  lemma LockedStepKeepsPlace(s: seq<Body>, dt: real, sqrt: real -> real, k: nat)
    requires k < |s| && AllMassive(s) && s[k].locked
    ensures Step(s, dt, sqrt)[k].pos == s[k].pos
  {
    StepEffect(s, dt, sqrt, k);
  }
}
