/**
  The environment configuration of pkg/simulation/config.go after JSON decoding: the
  records, the hex colour parser and the automatic orbital velocities.
*/
module Config {
  import opened Vectors
  import opened Colors
  import Physics

  /** One body entry of the configuration; Pos and Vel are Go's [2]float64 arrays. */
  datatype BodyConfig = BodyConfig(
    mass: real,
    pos: (real, real),
    vel: (real, real),
    color: string,
    radius: real)

  datatype EnvironmentConfig = EnvironmentConfig(
    name: string,
    dt: real,
    bodies: seq<BodyConfig>,
    autoOrbit: bool)

  // ---------------------------------------------------------------------------
  // parseColor

  predicate IsHexDigit(c: char)
  {
    '0' <= c <= '9' || 'a' <= c <= 'f' || 'A' <= c <= 'F'
  }

  /** The value of one hex digit, upper or lower case. */
  function HexValue(c: char): (v: nat)
    requires IsHexDigit(c)
    ensures v < 16
  {
    if '0' <= c <= '9' then c as int - '0' as int
    else if 'a' <= c <= 'f' then c as int - 'a' as int + 10
    else c as int - 'A' as int + 10
  }

  /** The lower-case hex digit of a value below 16. */
  function HexChar(v: nat): (c: char)
    requires v < 16
    ensures IsHexDigit(c) && HexValue(c) == v
  {
    if v < 10 then ('0' as int + v) as char else ('a' as int + v - 10) as char
  }

  /** The byte written by the two hex digits `hi` `lo`. */
  function HexByte(hi: char, lo: char): Byte
    requires IsHexDigit(hi) && IsHexDigit(lo)
  {
    16 * HexValue(hi) + HexValue(lo)
  }

  /** The strings parseColor decodes: "#" followed by exactly six hex digits. */
  predicate IsHexColor(s: string)
  {
    |s| == 7 && s[0] == '#' && forall k :: 1 <= k < 7 ==> IsHexDigit(s[k])
  }

  /** parseColor: "#rrggbb" gives {r, g, b, 255}; anything else the default colour. */
  function ParseColor(s: string): (c: RGBA)
    ensures c.a == 255
    ensures !IsHexColor(s) ==> c == DefaultColor
  {
    if IsHexColor(s) then RGBA(HexByte(s[1], s[2]), HexByte(s[3], s[4]), HexByte(s[5], s[6]), 255)
    else DefaultColor
  }

  /** The canonical "#rrggbb" spelling of a colour, lower-case digits, alpha dropped. */
  function FormatColor(c: RGBA): (s: string)
    ensures IsHexColor(s)
  {
    ['#', HexChar(c.r / 16), HexChar(c.r % 16), HexChar(c.g / 16), HexChar(c.g % 16),
     HexChar(c.b / 16), HexChar(c.b % 16)]
  }

  /** Two hex digits written from a byte read back as that byte. */
  lemma HexByteOfChars(v: Byte)
    ensures HexByte(HexChar(v / 16), HexChar(v % 16)) == v
  {
  }

  /** Every opaque colour survives formatting and parsing. */
  lemma ParseFormat(c: RGBA)
    ensures ParseColor(FormatColor(c)) == c.(a := 255)
  {
    HexByteOfChars(c.r);
    HexByteOfChars(c.g);
    HexByteOfChars(c.b);
  }

  /** A hex digit in lower case. */
  function LowerHex(c: char): (d: char)
    requires IsHexDigit(c)
    ensures IsHexDigit(d) && HexValue(d) == HexValue(c)
    ensures !('A' <= d <= 'F')
  {
    if 'A' <= c <= 'F' then (c as int - 'A' as int + 'a' as int) as char else c
  }

  /** A hex byte written with digits `hi` `lo` formats back as their lower-case spelling. */
  lemma HexCharsOfByte(hi: char, lo: char)
    requires IsHexDigit(hi) && IsHexDigit(lo)
    ensures HexChar(HexByte(hi, lo) / 16) == LowerHex(hi)
    ensures HexChar(HexByte(hi, lo) % 16) == LowerHex(lo)
  {
    var b := HexByte(hi, lo);
    assert b / 16 == HexValue(hi) && b % 16 == HexValue(lo);
    HexCharOfValue(LowerHex(hi));
    HexCharOfValue(LowerHex(lo));
  }

  /** A lower-case hex digit is the one HexChar writes for its value. */
  lemma HexCharOfValue(d: char)
    requires IsHexDigit(d) && !('A' <= d <= 'F')
    ensures HexChar(HexValue(d)) == d
  {
  }

  /**
    parseColor reads every "#rrggbb" string as exactly the colour whose canonical spelling
    is that string in lower case: upper- and lower-case digits are the same.
  */
  lemma FormatParse(s: string)
    requires IsHexColor(s)
    ensures FormatColor(ParseColor(s)) == ['#'] + seq(6, k requires 0 <= k < 6 => LowerHex(s[k + 1]))
  {
    HexCharsOfByte(s[1], s[2]);
    HexCharsOfByte(s[3], s[4]);
    HexCharsOfByte(s[5], s[6]);
  }

  // ---------------------------------------------------------------------------
  // SetOrbitalVelocities

  /** The gravitational constant that SetOrbitalVelocities declares locally. */
  const OrbitG: real := 0.667430

  /** A satellite is given an orbit only if both velocity components are exactly zero. */
  predicate AtRest(b: BodyConfig)
  {
    b.vel.0 == 0.0 && b.vel.1 == 0.0
  }

  /** math.Hypot(dx, dy), computed with the root function `sqrt`. */
  function Hypot(dx: real, dy: real, sqrt: real -> real): real
  {
    sqrt(dx * dx + dy * dy)
  }

  /** The distance from the central body to `b`, as SetOrbitalVelocities computes r. */
  function Radius(central: BodyConfig, b: BodyConfig, sqrt: real -> real): real
  {
    Hypot(b.pos.0 - central.pos.0, b.pos.1 - central.pos.1, sqrt)
  }

  /**
    The circular-orbit velocity given to a resting satellite at offset (dx, dy) from a
    central body of mass m0: speed sqrt(G * m0 / r), direction the offset turned a quarter
    turn anticlockwise.
  */
  function OrbitVelocity(dx: real, dy: real, m0: real, sqrt: real -> real): (v: (real, real))
    requires Hypot(dx, dy, sqrt) != 0.0
    ensures dx == 0.0 ==> v.1 == 0.0
    ensures dy == 0.0 ==> v.0 == 0.0
  {
    var r := Hypot(dx, dy, sqrt);
    var speed := sqrt(OrbitG * m0 / r);
    (-dy / r * speed, dx / r * speed)
  }

  /** The orbit velocity is perpendicular to the offset (dx, dy): their dot product is 0. */
  lemma OrbitPerpendicular(dx: real, dy: real, m0: real, sqrt: real -> real)
    requires Hypot(dx, dy, sqrt) != 0.0
    ensures var v := OrbitVelocity(dx, dy, m0, sqrt);
      v.0 * dx + v.1 * dy == 0.0
  {
    var r := Hypot(dx, dy, sqrt);
    var speed := sqrt(OrbitG * m0 / r);
    Perpendicular(dx, dy, r, speed);
  }

  /** The velocity SetOrbitalVelocities gives `b` around `central`. */
  function OrbitAround(central: BodyConfig, b: BodyConfig, sqrt: real -> real): (v: (real, real))
    requires Radius(central, b, sqrt) != 0.0
    ensures v.0 * (b.pos.0 - central.pos.0) + v.1 * (b.pos.1 - central.pos.1) == 0.0
  {
    OrbitPerpendicular(b.pos.0 - central.pos.0, b.pos.1 - central.pos.1, central.mass, sqrt);
    OrbitVelocity(b.pos.0 - central.pos.0, b.pos.1 - central.pos.1, central.mass, sqrt)
  }

  /** The turned offset is orthogonal to the offset. */
  lemma Perpendicular(dx: real, dy: real, r: real, v: real)
    requires r != 0.0
    ensures (-dy / r * v) * dx + (dx / r * v) * dy == 0.0
  {
    var q := v / r;
    assert -dy / r * v == -dy * q;
    assert dx / r * v == dx * q;
  }

  /** Every resting satellite sits at a nonzero distance from the central body. */
  predicate OrbitsDefined(s: seq<BodyConfig>, sqrt: real -> real)
  {
    forall k :: 1 <= k < |s| && AtRest(s[k]) ==> Radius(s[0], s[k], sqrt) != 0.0
  }

  /** Entry k after SetOrbitalVelocities. */
  function Orbited(s: seq<BodyConfig>, sqrt: real -> real, k: nat): BodyConfig
    requires k < |s| && OrbitsDefined(s, sqrt)
  {
    if k == 0 || !AtRest(s[k]) then s[k] else s[k].(vel := OrbitAround(s[0], s[k], sqrt))
  }

  /** The slice after SetOrbitalVelocities. */
  function WithOrbits(s: seq<BodyConfig>, sqrt: real -> real): (t: seq<BodyConfig>)
    requires OrbitsDefined(s, sqrt)
    ensures |t| == |s|
  {
    seq(|s|, k requires 0 <= k < |s| => Orbited(s, sqrt, k))
  }

  /**
    The velocity computation of one iteration of SetOrbitalVelocities: dx, dy, r by
    math.Hypot, v = sqrt(G * M0 / r), and the turned offset scaled to speed v.
  */
  method SatelliteVelocity(central: BodyConfig, b: BodyConfig, sqrt: real -> real)
    returns (vel: (real, real))
    requires Radius(central, b, sqrt) != 0.0
    ensures vel == OrbitAround(central, b, sqrt)
  {
    var dx := b.pos.0 - central.pos.0;
    var dy := b.pos.1 - central.pos.1;
    var r := Hypot(dx, dy, sqrt);
    var v := sqrt(OrbitG * central.mass / r);
    assert OrbitVelocity(dx, dy, central.mass, sqrt).0 == -dy / r * v;
    assert OrbitVelocity(dx, dy, central.mass, sqrt).1 == dx / r * v;
    vel := (-dy / r * v, dx / r * v);
  }

  /**
    SetOrbitalVelocities: in place, every entry after the first whose velocity is zero
    gets the circular-orbit velocity around entry 0.
  */
  method SetOrbitalVelocities(a: array<BodyConfig>, sqrt: real -> real)
    requires OrbitsDefined(a[..], sqrt)
    modifies a
    ensures a[..] == WithOrbits(old(a[..]), sqrt)
  {
    if a.Length == 0 {
      return;
    }
    ghost var s := a[..];
    var central := a[0];
    for i := 1 to a.Length
      invariant a[0] == central == s[0]
      invariant forall k :: 0 <= k < i ==> a[k] == Orbited(s, sqrt, k)
      invariant forall k :: i <= k < a.Length ==> a[k] == s[k]
    {
      var b := a[i].vel.0 == 0.0 && a[i].vel.1 == 0.0;
      if !b {
        continue;
      }
      var vel := SatelliteVelocity(central, a[i], sqrt);
      a[i] := a[i].(vel := (vel.0, a[i].vel.1));
      a[i] := a[i].(vel := (a[i].vel.0, vel.1));
      assert a[i] == Orbited(s, sqrt, i);
    }
    assert forall k :: 0 <= k < a.Length ==> a[..][k] == WithOrbits(s, sqrt)[k];
  }

  // ---------------------------------------------------------------------------
  // Properties of WithOrbits

  /** Nothing happens to an empty slice. */
  lemma OrbitsEmpty(sqrt: real -> real)
    ensures WithOrbits([], sqrt) == []
  {
  }

  /**
    The central body is never modified; neither is a satellite that already moves; a
    resting satellite changes only its velocity, which becomes OrbitVelocity.
  */
  lemma OrbitsEffect(s: seq<BodyConfig>, sqrt: real -> real, k: nat)
    requires OrbitsDefined(s, sqrt) && k < |s|
    ensures var t := WithOrbits(s, sqrt)[k];
      (k == 0 || !AtRest(s[k]) ==> t == s[k]) &&
      t.mass == s[k].mass && t.pos == s[k].pos && t.color == s[k].color && t.radius == s[k].radius &&
      (k > 0 && AtRest(s[k]) ==> t.vel == OrbitAround(s[0], s[k], sqrt))
  {
  }

  /** Every assigned velocity is perpendicular to the satellite's offset from the centre. */
  lemma OrbitsPerpendicular(s: seq<BodyConfig>, sqrt: real -> real, k: nat)
    requires OrbitsDefined(s, sqrt) && 0 < k < |s| && AtRest(s[k])
    ensures var v := WithOrbits(s, sqrt)[k].vel;
      v.0 * (s[k].pos.0 - s[0].pos.0) + v.1 * (s[k].pos.1 - s[0].pos.1) == 0.0
  {
    OrbitPerpendicular(s[k].pos.0 - s[0].pos.0, s[k].pos.1 - s[0].pos.1, s[0].mass, sqrt);
  }

  /**
    With an exact root, the assigned speed squared is G * M0 / r: the speed of a circular
    orbit of radius r around mass M0.
  */
  lemma OrbitSpeed(dx: real, dy: real, m0: real, sqrt: real -> real)
    requires IsSqrt(sqrt)
    requires Hypot(dx, dy, sqrt) != 0.0
    requires 0.0 <= m0
    ensures var v := OrbitVelocity(dx, dy, m0, sqrt);
      var r := Hypot(dx, dy, sqrt);
      0.0 < r && v.0 * v.0 + v.1 * v.1 == OrbitG * m0 / r
  {
    var r := Hypot(dx, dy, sqrt);
    HypotSquares(dx, dy, sqrt);
    var m := OrbitG * m0 / r;
    DivNonNegative(OrbitG, m0, r);
    var w := Root(sqrt, m);
    assert w * w == m;
    var v := OrbitVelocity(dx, dy, m0, sqrt);
    assert v.0 == -dy / r * w;
    assert v.1 == dx / r * w;
    TurnedLength(dx, dy, r, w, v.0, v.1);
  }

  /**
    With an exact root the orbit turns anticlockwise: the cross product of the offset with
    the velocity is r times the speed, never negative, and positive around a positive mass.
  */
  lemma OrbitAnticlockwise(dx: real, dy: real, m0: real, sqrt: real -> real)
    requires IsSqrt(sqrt)
    requires Hypot(dx, dy, sqrt) != 0.0
    requires 0.0 <= m0
    ensures var v := OrbitVelocity(dx, dy, m0, sqrt);
      var r := Hypot(dx, dy, sqrt);
      dx * v.1 - dy * v.0 == r * sqrt(OrbitG * m0 / r) && 0.0 <= dx * v.1 - dy * v.0
    ensures 0.0 < m0 ==> var v := OrbitVelocity(dx, dy, m0, sqrt); 0.0 < dx * v.1 - dy * v.0
  {
    var r := Hypot(dx, dy, sqrt);
    HypotSquares(dx, dy, sqrt);
    var m := OrbitG * m0 / r;
    DivNonNegative(OrbitG, m0, r);
    RootOf(sqrt, m);
    var w := sqrt(m);
    var v := OrbitVelocity(dx, dy, m0, sqrt);
    assert v.0 == -dy / r * w;
    assert v.1 == dx / r * w;
    TurnedCross(dx, dy, r, w);
    if 0.0 < m0 {
      assert 0.0 < m;
      assert 0.0 < w;
    }
  }

  /** With an exact root, Hypot is positive when nonzero and squares back to dx^2 + dy^2. */
  lemma HypotSquares(dx: real, dy: real, sqrt: real -> real)
    requires IsSqrt(sqrt)
    requires Hypot(dx, dy, sqrt) != 0.0
    ensures var r := Hypot(dx, dy, sqrt);
      0.0 < r && r * r == dx * dx + dy * dy
  {
    var n := dx * dx + dy * dy;
    assert Vec2(dx, dy).Norm2() == n;
    NormNonNegative(Vec2(dx, dy));
    var r := Root(sqrt, n);
    assert Hypot(dx, dy, sqrt) == r;
    assert 0.0 <= r && r * r == n;
  }

  /**
    A body of mass 1000 at the origin and a resting satellite at (100, 0): the satellite
    is sent straight up (along +y) at speed sqrt(6.6743).
  */
  lemma OrbitExample(sqrt: real -> real)
    requires sqrt(10000.0) == 100.0
    ensures var sun := BodyConfig(1000.0, (0.0, 0.0), (0.0, 0.0), "#ffff00", 20.0);
      var planet := BodyConfig(1.0, (100.0, 0.0), (0.0, 0.0), "#00aaff", 5.0);
      WithOrbits([sun, planet], sqrt)[1].vel == (0.0, sqrt(6.6743))
  {
    var sun := BodyConfig(1000.0, (0.0, 0.0), (0.0, 0.0), "#ffff00", 20.0);
    var planet := BodyConfig(1.0, (100.0, 0.0), (0.0, 0.0), "#00aaff", 5.0);
    assert Radius(sun, planet, sqrt) == 100.0;
    assert OrbitG * 1000.0 / 100.0 == 6.6743;
  }

  // ---------------------------------------------------------------------------
  // Arithmetic helpers: single proof steps of the lemmas above, not models of any
  // function of gravity-sim

  lemma DivNonNegative(g: real, a: real, r: real)
    requires 0.0 <= g && 0.0 <= a && 0.0 < r
    ensures 0.0 <= g * a / r
  {
  }

  /** a = -dy/r * v and b = dx/r * v give a^2 + b^2 = v^2 when r^2 = dx^2 + dy^2. */
  lemma TurnedLength(dx: real, dy: real, r: real, v: real, a: real, b: real)
    requires r != 0.0 && r * r == dx * dx + dy * dy
    requires a == -dy / r * v && b == dx / r * v
    ensures a * a + b * b == v * v
  {
    var q := v / r;
    DivTimes(-dy, r, v);
    DivTimes(dx, r, v);
    SquareOfEqual(a, -dy * q);
    SquareOfEqual(b, dx * q);
    SumOfScaledSquares(-dy, dx, q);
    assert (-dy) * (-dy) + dx * dx == r * r;
    ScaledSquare(r, q);
    assert r * q == v;
    SquareOfEqual(r * q, v);
  }

  /** dx * (dx/r * w) - dy * (-dy/r * w) = r * w when r^2 = dx^2 + dy^2. */
  lemma TurnedCross(dx: real, dy: real, r: real, w: real)
    requires r != 0.0 && r * r == dx * dx + dy * dy
    ensures dx * (dx / r * w) - dy * (-dy / r * w) == r * w
  {
    var q := w / r;
    DivTimes(dx, r, w);
    DivTimes(-dy, r, w);
    assert dx * (dx / r * w) - dy * (-dy / r * w) == (dx * dx + dy * dy) * q;
    assert (r * r) * q == r * (r * q);
    assert r * q == w;
  }

  lemma SquareOfEqual(x: real, y: real)
    requires x == y
    ensures x * x == y * y
  {
  }

  lemma DivTimes(a: real, r: real, v: real)
    requires r != 0.0
    ensures a / r * v == a * (v / r)
  {
  }

  lemma SumOfScaledSquares(a: real, b: real, q: real)
    ensures (a * q) * (a * q) + (b * q) * (b * q) == (a * a + b * b) * (q * q)
  {
  }

  lemma ScaledSquare(r: real, q: real)
    ensures (r * r) * (q * q) == (r * q) * (r * q)
  {
  }
}
