/**
  The 2D vector value type of pkg/physics/body.go.

  Go's math.Sqrt is library code outside the model, so every operation that needs a
  square root takes it as a parameter `sqrt`. Facts about structure hold for any such
  function; facts about lengths assume `IsSqrt(sqrt)`, the exact non-negative root.
*/
module Vectors {

  /** `sqrt` applied to `x`; the name gives IsSqrt a term of its own to match on. */
  ghost function Root(sqrt: real -> real, x: real): real
  {
    sqrt(x)
  }

  /** `sqrt` returns the non-negative square root of every non-negative real. */
  ghost predicate IsSqrt(sqrt: real -> real)
  {
    forall x :: 0.0 <= x ==> 0.0 <= Root(sqrt, x) && Root(sqrt, x) * Root(sqrt, x) == x
  }

  datatype Vec2 = Vec2(x: real, y: real)
  {
    function Add(o: Vec2): (r: Vec2)
      ensures this == Zero ==> r == o
      ensures o == Zero ==> r == this
    {
      Vec2(x + o.x, y + o.y)
    }

    function Sub(o: Vec2): (r: Vec2)
      ensures o == this ==> r == Zero
    {
      Vec2(x - o.x, y - o.y)
    }

    function Mul(s: real): (r: Vec2)
      ensures s == 0.0 ==> r == Zero
      ensures s == 1.0 ==> r == this
    {
      Vec2(x * s, y * s)
    }

    /** The squared Euclidean length, computed without a root. */
    function Norm2(): real
    {
      x * x + y * y
    }

    /** The Euclidean length, the root of the squared length; LenZeroIff states its metric facts. */
    function Len(sqrt: real -> real): real
    {
      sqrt(x * x + y * y)
    }

    /** `this` scaled to unit length; the zero-length vector maps to (0,0) without dividing. */
    function Normalize(sqrt: real -> real): (r: Vec2)
      ensures Len(sqrt) == 0.0 ==> r == Zero
    {
      var l := Len(sqrt);
      if l == 0.0 then Vec2(0.0, 0.0) else Vec2(x / l, y / l)
    }
  }

  const Zero := Vec2(0.0, 0.0)

  /** Sub undoes Add and Add undoes Sub. */
  lemma AddSubInverse(v: Vec2, o: Vec2)
    ensures v.Add(o).Sub(o) == v
    ensures v.Sub(o).Add(o) == v
  {
  }

  /** Zero is the identity of Add. */
  lemma AddZero(v: Vec2)
    ensures Zero.Add(v) == v && v.Add(Zero) == v
  {
  }

  lemma NormNonNegative(v: Vec2)
    ensures 0.0 <= v.Norm2()
    ensures v.Norm2() == 0.0 <==> v == Zero
  {
    Square(v.x);
    Square(v.y);
  }

  /** The root of a non-negative real is non-negative, squares back, and is zero only at zero. */
  lemma RootOf(sqrt: real -> real, x: real)
    requires IsSqrt(sqrt)
    requires 0.0 <= x
    ensures 0.0 <= sqrt(x) && sqrt(x) * sqrt(x) == x
    ensures sqrt(x) == 0.0 <==> x == 0.0
  {
    var l := Root(sqrt, x);
    assert 0.0 <= l && l * l == x;
    Square(l);
  }

  /** Len is non-negative and zero exactly for the zero vector. */
  lemma LenZeroIff(v: Vec2, sqrt: real -> real)
    requires IsSqrt(sqrt)
    ensures 0.0 <= v.Len(sqrt)
    ensures v.Len(sqrt) == 0.0 <==> v == Zero
    ensures v.Len(sqrt) * v.Len(sqrt) == v.Norm2()
  {
    var n := v.Norm2();
    assert v.Len(sqrt) == sqrt(n);
    NormNonNegative(v);
    RootOf(sqrt, n);
  }

  /** The zero vector normalises to the zero vector, whatever the root function. */
  lemma NormalizeZero(sqrt: real -> real)
    requires sqrt(0.0) == 0.0
    ensures Zero.Normalize(sqrt) == Zero
  {
  }

  /** A nonzero vector normalises to a vector of squared length 1 which, scaled back by the length, is the vector. */
  lemma NormalizeUnit(v: Vec2, sqrt: real -> real)
    requires IsSqrt(sqrt)
    requires v != Zero
    ensures v.Len(sqrt) > 0.0
    ensures v.Normalize(sqrt).Norm2() == 1.0
    ensures v.Normalize(sqrt).Mul(v.Len(sqrt)) == v
  {
    LenZeroIff(v, sqrt);
    var l := v.Len(sqrt);
    var u := v.Normalize(sqrt);
    assert u == Vec2(v.x / l, v.y / l);
    assert u.x * l == v.x && u.y * l == v.y;
    calc {
      u.Norm2() * (l * l);
      (u.x * l) * (u.x * l) + (u.y * l) * (u.y * l);
      v.Norm2();
      l * l;
    }
  }

  // ---------------------------------------------------------------------------
  // Arithmetic helpers: single proof steps of the lemmas above, not models of any
  // function of gravity-sim

  lemma SquareNonNegative(a: real)
    ensures 0.0 <= a * a
  {
  }

  lemma ZeroProduct(a: real, b: real)
    ensures a * b == 0.0 <==> a == 0.0 || b == 0.0
  {
  }

  lemma MulByEqual(v: Vec2, a: real, b: real)
    requires a == b
    ensures v.Mul(a) == v.Mul(b)
  {
  }

  lemma Square(a: real)
    ensures 0.0 <= a * a
    ensures a * a == 0.0 <==> a == 0.0
  {
    ZeroProduct(a, a);
    if a < 0.0 {
      var b := -a;
      assert a * a == b * b;
    }
  }
}
