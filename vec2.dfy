/** Two-dimensional vectors over the reals (float64 is modelled as real).

    Norm needs a square root, which Dafny's reals do not provide; it takes the
    square-root routine as a parameter, and the lemmas that depend on what a
    square root is require IsSqrt of it. */
module Vector {

  /** An immutable 2D vector; every operation returns a new value. */
  datatype Vec2 = Vec2(x: real, y: real) {

    /** Componentwise sum; adding the zero vector changes nothing. */
    function Add(b: Vec2): (r: Vec2)
      ensures b == Zero ==> r == this
    {
      Vec2(x + b.x, y + b.y)
    }

    /** Componentwise difference `this - b`, which is the zero vector exactly
        when the two vectors are equal. */
    function Sub(b: Vec2): (r: Vec2)
      ensures r == Zero <==> this == b
    {
      Vec2(x - b.x, y - b.y)
    }

    /** Multiplies each component by the scalar s; scaling by 0 gives the zero
        vector and scaling by 1 changes nothing. */
    function Scale(s: real): (r: Vec2)
      ensures s == 0.0 ==> r == Zero
      ensures s == 1.0 ==> r == this
    {
      Vec2(x * s, y * s)
    }

    /** Divides each component by the scalar s; over the reals s must not be
        0. Scaling the result by s gives this vector back. */
    function Div(s: real): (r: Vec2)
      requires s != 0.0
      ensures r.Scale(s) == this
    {
      Vec2(x / s, y / s)
    }

    /** x² + y², the radicand of Norm (math.Pow(v, 2) is v * v over the reals). */
    function SquaredNorm(): real {
      x * x + y * y
    }

    /** Euclidean magnitude, with `sqrt` standing for math.Sqrt: for a true
        square root, the non-negative number whose square is x² + y². */
    function Norm(sqrt: real -> real): (r: real)
      ensures IsSqrt(sqrt) ==> IsRoot(r, SquaredNorm())
    {
      SquaredNormZero(this);
      sqrt(SquaredNorm())
    }

    /** The unit vector in the direction of this one: this scaled by 1 / Norm,
        which for a true square root has norm 1. */
    function Normalize(sqrt: real -> real): (r: Vec2)
      requires Norm(sqrt) != 0.0
      ensures IsSqrt(sqrt) ==> r.Norm(sqrt) == 1.0
    {
      ScaledToUnit(sqrt, this);
      Scale(1.0 / Norm(sqrt))
    }
  }

  const Zero := Vec2(0.0, 0.0)

  /** r is the non-negative square root of a. */
  predicate IsRoot(r: real, a: real) {
    0.0 <= r && r * r == a
  }

  /** `sqrt` returns the non-negative square root of every non-negative real. */
  ghost predicate IsSqrt(sqrt: real -> real) {
    forall a :: 0.0 <= a ==> 0.0 <= sqrt(a) && sqrt(a) * sqrt(a) == a
  }

  /** Sub undoes Add and Add undoes Sub. */
  lemma AddSubInverse(a: Vec2, b: Vec2)
    ensures a.Sub(b).Add(b) == a
    ensures a.Add(b).Sub(b) == a
  {
  }

  /** Zero is the identity of Add, and Add is commutative. */
  lemma AddZero(a: Vec2, b: Vec2)
    ensures a.Add(Zero) == a
    ensures a.Add(b) == b.Add(a)
  {
  }

  /** Scaling by 0 gives the zero vector; scaling by 1 changes nothing. */
  lemma ScaleZeroOne(v: Vec2)
    ensures v.Scale(0.0) == Zero
    ensures v.Scale(1.0) == v
  {
  }

  /** Div undoes Scale and Scale undoes Div, for any non-zero scalar. */
  lemma ScaleDivInverse(v: Vec2, s: real)
    requires s != 0.0
    ensures v.Scale(s).Div(s) == v
    ensures v.Div(s).Scale(s) == v
  {
  }

  /** Squares of non-negative reals keep their order. */
  lemma SquareLess(a: real, b: real)
    requires 0.0 <= a < b
    ensures a * a < b * b
  {
    var aa, ab, bb := a * a, a * b, b * b;
    assert aa <= ab by {
      assert 0.0 <= a * (b - a);
      assert a * (b - a) == a * b - a * a;
    }
    assert ab < bb by {
      assert 0.0 < b * (b - a);
      assert b * (b - a) == b * b - a * b;
    }
  }

  /** What IsSqrt promises at one point. */
  lemma SqrtOf(sqrt: real -> real, a: real)
    requires IsSqrt(sqrt) && 0.0 <= a
    ensures 0.0 <= sqrt(a) && sqrt(a) * sqrt(a) == a
  {
  }

  /** Multiplying out the square of a product. */
  lemma SquareOfProduct(a: real, k: real)
    ensures (a * k) * (a * k) == (k * k) * (a * a)
  {
  }

  /** The non-negative square root of a non-negative real is unique. */
  lemma SqrtUnique(sqrt: real -> real, a: real, r: real)
    requires IsSqrt(sqrt) && 0.0 <= a
    requires 0.0 <= r && r * r == a
    ensures sqrt(a) == r
  {
    var q := sqrt(a);
    assert 0.0 <= q && q * q == a;
    if q < r {
      SquareLess(q, r);
    } else if r < q {
      SquareLess(r, q);
    }
  }

  /** A non-negative r whose square is x² + y² is the norm of (x, y). */
  lemma NormIs(sqrt: real -> real, w: Vec2, r: real)
    requires IsSqrt(sqrt)
    requires 0.0 <= r && r * r == w.SquaredNorm()
    ensures w.Norm(sqrt) == r
  {
    SqrtUnique(sqrt, w.SquaredNorm(), r);
  }

  /** x² + y² is never negative, and it is 0 exactly for the zero vector. */
  lemma SquaredNormZero(v: Vec2)
    ensures 0.0 <= v.SquaredNorm()
    ensures v.SquaredNorm() == 0.0 <==> v == Zero
  {
    var xx, yy := v.x * v.x, v.y * v.y;
    if v.x < 0.0 { SquareLess(0.0, -v.x); } else if 0.0 < v.x { SquareLess(0.0, v.x); }
    if v.y < 0.0 { SquareLess(0.0, -v.y); } else if 0.0 < v.y { SquareLess(0.0, v.y); }
    assert 0.0 <= xx && 0.0 <= yy;
    assert v != Zero ==> 0.0 < xx || 0.0 < yy;
  }

  /** A norm is never negative. */
  lemma NormNonNegative(sqrt: real -> real, v: Vec2)
    requires IsSqrt(sqrt)
    ensures 0.0 <= v.Norm(sqrt)
  {
    SquaredNormZero(v);
    SqrtOf(sqrt, v.SquaredNorm());
  }

  /** The zero vector has norm 0 ... */
  lemma NormOfZero(sqrt: real -> real)
    requires IsSqrt(sqrt)
    ensures Zero.Norm(sqrt) == 0.0
  {
    NormIs(sqrt, Zero, 0.0);
  }

  /** ... and it is the only vector that has. */
  lemma NormPositive(sqrt: real -> real, v: Vec2)
    requires IsSqrt(sqrt) && v != Zero
    ensures 0.0 < v.Norm(sqrt)
  {
    SquaredNormZero(v);
    SqrtOf(sqrt, v.SquaredNorm());
  }

  /** Scaling a vector of non-zero norm by 1 / norm gives, for a true square
      root, a vector of norm 1. */
  lemma ScaledToUnit(sqrt: real -> real, v: Vec2)
    requires v.Norm(sqrt) != 0.0
    ensures IsSqrt(sqrt) ==> v.Scale(1.0 / v.Norm(sqrt)).Norm(sqrt) == 1.0
  {
    if IsSqrt(sqrt) {
      var n := v.Norm(sqrt);
      var k := 1.0 / n;
      var w := v.Scale(k);
      NormNonNegative(sqrt, v);
      SqrtOf(sqrt, v.SquaredNorm());
      assert k * n == 1.0;
      SquareOfProduct(v.x, k);
      SquareOfProduct(v.y, k);
      assert w.SquaredNorm() == (k * k) * (n * n);
      SquareOfProduct(k, n);
      NormIs(sqrt, w, 1.0);
    }
  }

  /** Normalize gives a vector of norm 1 that, scaled back by the norm, is v. */
  lemma NormalizeUnit(sqrt: real -> real, v: Vec2)
    requires IsSqrt(sqrt) && v.Norm(sqrt) != 0.0
    ensures v.Normalize(sqrt).Norm(sqrt) == 1.0
    ensures v.Normalize(sqrt).Scale(v.Norm(sqrt)) == v
  {
    var n := v.Norm(sqrt);
    var k := 1.0 / n;
    var w := v.Normalize(sqrt);
    ScaledToUnit(sqrt, v);
    assert k * n == 1.0;
    assert w.x * n == v.x * (k * n);
    assert w.y * n == v.y * (k * n);
  }
}
