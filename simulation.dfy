/**
  The Simulator of pkg/simulation/simulator.go and the part of LoadConfig in
  pkg/simulation/config.go that runs after the file has been read and decoded.
*/
module Simulation {
  import opened Wrappers
  import opened Vectors
  import opened Colors
  import opened Physics
  import opened Integrator
  import opened Config

  /** The body NewSimulator builds from one configuration entry. */
  function FromConfig(c: BodyConfig): (b: Body)
    ensures b.acc == Zero && !b.locked && !b.anti && b.color.a == 255
  {
    Body(c.mass, Vec2(c.pos.0, c.pos.1), Vec2(c.vel.0, c.vel.1), Vec2(0.0, 0.0),
         c.radius, ParseColor(c.color), false, false)
  }

  /** The body slice NewSimulator builds: one body per entry, in the same order. */
  function Built(s: seq<BodyConfig>): (t: seq<Body>)
    ensures |t| == |s|
  {
    seq(|s|, k requires 0 <= k < |s| => FromConfig(s[k]))
  }

  class Simulator {
    var name: string
    var dt: real
    var bodies: array<Body>

    /** NewSimulator: Name and Dt are copied and one body is made per configuration entry. */
    constructor (cfg: EnvironmentConfig)
      ensures name == cfg.name && dt == cfg.dt
      ensures fresh(bodies) && bodies[..] == Built(cfg.bodies)
    {
      name := cfg.name;
      dt := cfg.dt;
      bodies := new Body[|cfg.bodies|](k requires 0 <= k < |cfg.bodies| => FromConfig(cfg.bodies[k]));
    }

    /** Update: the bodies are replaced by one integrator sweep with step Dt. */
    method Update(sqrt: real -> real)
      requires AllMassive(bodies[..])
      modifies this, bodies
      ensures name == old(name) && dt == old(dt) && bodies == old(bodies)
      ensures bodies[..] == Step(old(bodies[..]), dt, sqrt)
    {
      bodies := Integrate(bodies, dt, sqrt);
    }
  }

  /** Each body of a new simulator copies its entry; it starts unaccelerated, unlocked and attracting. */
  lemma BuiltEntries(s: seq<BodyConfig>, k: nat)
    requires k < |s|
    ensures var b := Built(s)[k];
      b.mass == s[k].mass && b.pos == Vec2(s[k].pos.0, s[k].pos.1) &&
      b.vel == Vec2(s[k].vel.0, s[k].vel.1) && b.radius == s[k].radius &&
      b.color == ParseColor(s[k].color) &&
      b.acc == Zero && !b.locked && !b.anti
  {
  }

  /** Building the bodies of two lists one after the other is building those of their concatenation. */
  lemma BuiltConcat(s: seq<BodyConfig>, t: seq<BodyConfig>)
    ensures Built(s + t) == Built(s) + Built(t)
  {
  }

  /** No body built from a configuration has the zero colour: parseColor always sets alpha 255. */
  lemma BuiltNeverTransparent(s: seq<BodyConfig>, k: nat)
    requires k < |s|
    ensures Built(s)[k].color != Transparent
  {
  }

  /** The configuration that reaches NewSimulator: with AutoOrbit the velocities are assigned first. */
  function Prepared(env: EnvironmentConfig, sqrt: real -> real): (p: EnvironmentConfig)
    requires env.autoOrbit ==> OrbitsDefined(env.bodies, sqrt)
    ensures p.name == env.name && p.dt == env.dt && |p.bodies| == |env.bodies|
  {
    if env.autoOrbit then env.(bodies := WithOrbits(env.bodies, sqrt)) else env
  }

  /**
    LoadConfig from its decoding onwards: a decoding error is returned as the error; a
    decoded configuration has its orbits set in place when AutoOrbit holds and becomes a
    new simulator.
  */
  method LoadConfig(decoded: Result<EnvironmentConfig, string>, sqrt: real -> real)
    returns (r: Result<Simulator, string>)
    requires decoded.Success? && decoded.value.autoOrbit ==> OrbitsDefined(decoded.value.bodies, sqrt)
    ensures decoded.Failure? ==> r == Failure(decoded.error)
    ensures decoded.Success? ==>
      r.Success? && fresh(r.value) && fresh(r.value.bodies) &&
      r.value.name == decoded.value.name && r.value.dt == decoded.value.dt &&
      r.value.bodies[..] == Built(Prepared(decoded.value, sqrt).bodies)
  {
    if decoded.Failure? {
      return Failure(decoded.error);
    }
    var env := decoded.value;
    if env.autoOrbit {
      var a := new BodyConfig[|env.bodies|](k requires 0 <= k < |env.bodies| => env.bodies[k]);
      assert a[..] == env.bodies;
      SetOrbitalVelocities(a, sqrt);
      env := env.(bodies := a[..]);
    }
    var sim := new Simulator(env);
    return Success(sim);
  }

  /** Without AutoOrbit every configured velocity reaches the simulator unchanged. */
  lemma LoadKeepsVelocities(env: EnvironmentConfig, sqrt: real -> real, k: nat)
    requires !env.autoOrbit && k < |env.bodies|
    ensures |Built(Prepared(env, sqrt).bodies)| == |env.bodies|
    ensures Built(Prepared(env, sqrt).bodies)[k].vel == Vec2(env.bodies[k].vel.0, env.bodies[k].vel.1)
  {
  }

  /**
    With AutoOrbit a resting satellite starts with its orbit velocity around body 0, and
    every other body with its configured velocity.
  */
  lemma LoadAssignsOrbits(env: EnvironmentConfig, sqrt: real -> real, k: nat)
    requires env.autoOrbit && OrbitsDefined(env.bodies, sqrt) && k < |env.bodies|
    ensures var s := env.bodies;
      var v := Built(Prepared(env, sqrt).bodies)[k].vel;
      (k > 0 && AtRest(s[k]) ==> v == Vec2(OrbitAround(s[0], s[k], sqrt).0, OrbitAround(s[0], s[k], sqrt).1)) &&
      (k == 0 || !AtRest(s[k]) ==> v == Vec2(s[k].vel.0, s[k].vel.1))
  {
    OrbitsEffect(env.bodies, sqrt, k);
  }
}
