/**
 * 2-D vectors of the boid simulation (vector.cpp), with exact real
 * coordinates in place of doubles.
 *
 * The functions of <cmath> that the model cannot compute (sqrt, atan2,
 * atan) are not interpreted: they are fields of a MathLib value that every
 * operation needing them takes as a parameter. The only thing assumed of
 * them is MathLib.Valid(): sqrt gives the non-negative square root.
 */
module Geometry {

  /** The <cmath> functions used by the core, left uninterpreted. */
  datatype MathLib = MathLib(sqrt: real -> real, atan2: (real, real) -> real, atan: real -> real) {
    /** sqrt returns the non-negative square root of a non-negative argument. */
    ghost predicate Valid() {
      forall a: real :: 0.0 <= a ==> 0.0 <= sqrt(a) && Sq(sqrt(a)) == a
    }
  }

  /** The square of a real. Squares are always written through it, never as e * e. */
  function Sq(x: real): real {
    x * x
  }

  /** A product of two reals, used by the arithmetic lemmas below. */
  function Product(a: real, b: real): real {
    a * b
  }

  /** The product of two positive reals is positive. */
  lemma ProductPositive(a: real, b: real)
    requires 0.0 < a && 0.0 < b
    ensures 0.0 < Product(a, b)
  {
  }

  /** Multiplying both sides of a <= b by a non-negative factor keeps the order. */
  lemma ProductMonotonic(a: real, b: real, c: real)
    requires a <= b && 0.0 <= c
    ensures Product(a, c) <= Product(b, c)
  {
  }

  /** Multiplying both sides of a < b by a positive factor keeps the strict order. */
  lemma ProductStrict(a: real, b: real, c: real)
    requires a < b && 0.0 < c
    ensures Product(a, c) < Product(b, c)
  {
  }

  /** Multiplication is commutative. */
  lemma ProductCommutes(a: real, b: real)
    ensures Product(a, b) == Product(b, a)
  {
  }

  /** The square of a positive real is positive. */
  lemma SqOfPositive(p: real)
    requires 0.0 < p
    ensures 0.0 < Sq(p)
  {
    ProductPositive(p, p);
  }

  /** A number and its opposite have the same square. */
  lemma SqOpposite(x: real)
    ensures Sq(-x) == Sq(x)
  {
  }

  /** A square is never negative. */
  lemma SqNonNegative(x: real)
    ensures 0.0 <= Sq(x)
  {
    SqPositive(x);
  }

  /** The square of a non-zero real is positive, so only zero squares to zero. */
  lemma SqPositive(x: real)
    ensures x != 0.0 <==> 0.0 < Sq(x)
  {
    if 0.0 < x {
      SqOfPositive(x);
    } else if x < 0.0 {
      SqOfPositive(-x);
      SqOpposite(x);
    }
  }

  /** Squaring is strictly increasing on the non-negative reals. */
  lemma SqLess(s: real, r: real)
    requires 0.0 <= s < r
    ensures Sq(s) < Sq(r)
  {
    ProductMonotonic(s, r, s);
    ProductStrict(s, r, r);
    ProductCommutes(r, s);
  }

  /** For non-negative s and r, comparing them is comparing their squares. */
  lemma SqMonotonic(s: real, r: real)
    requires 0.0 <= s && 0.0 <= r
    ensures s < r <==> Sq(s) < Sq(r)
    ensures s == r <==> Sq(s) == Sq(r)
  {
    if s < r {
      SqLess(s, r);
    } else if r < s {
      SqLess(r, s);
    }
  }

  /** A number whose absolute value is at most d has a square at most d squared. */
  lemma SqBounded(f: real, d: real)
    requires -d <= f <= d
    ensures Sq(f) <= Sq(d)
  {
    if 0.0 <= f {
      if f < d {
        SqLess(f, d);
      }
    } else {
      SqOpposite(f);
      if -f < d {
        SqLess(-f, d);
      }
    }
  }

  /** The square of a product is the product of the squares. */
  lemma SqProduct(a: real, b: real)
    ensures Sq(a * b) == Sq(a) * Sq(b)
  {
  }

  /** Dividing by n and multiplying by n again gives the dividend back. */
  lemma DivThenMul(a: real, n: real)
    requires n != 0.0
    ensures (a / n) * n == a
  {
  }

  /** Squaring a quotient: (a / n)^2 * n^2 = a^2. */
  lemma SqOfQuotient(a: real, n: real)
    requires n != 0.0
    ensures Sq(a / n) * Sq(n) == Sq(a)
  {
    SqProduct(a / n, n);
    DivThenMul(a, n);
  }

  /** Cancelling a positive common factor: p * s + q * s = s forces p + q = 1. */
  lemma CancelToUnit(p: real, q: real, s: real)
    requires 0.0 < s
    ensures p * s + q * s == s ==> p + q == 1.0
  {
  }

  /** If a^2 + b^2 = n^2 with n non-zero, then (a / n)^2 + (b / n)^2 = 1. */
  lemma QuotientSquares(a: real, b: real, n: real)
    requires n != 0.0 && Sq(a) + Sq(b) == Sq(n)
    ensures Sq(a / n) + Sq(b / n) == 1.0
  {
    SqOfQuotient(a, n);
    SqOfQuotient(b, n);
    SqPositive(n);
    CancelToUnit(Sq(a / n), Sq(b / n), Sq(n));
  }

  /** A fraction of a non-negative amount lies between zero and the amount. */
  lemma FractionOf(f: real, amount: real)
    requires 0.0 <= f <= 1.0 && 0.0 <= amount
    ensures 0.0 <= f * amount <= amount
  {
  }

  /** sqrt of the square of a non-negative number is that number: the root is unique. */
  lemma SqrtOfSquare(m: MathLib, a: real)
    requires m.Valid() && 0.0 <= a
    ensures m.sqrt(Sq(a)) == a
  {
    SqNonNegative(a);
    var q := m.sqrt(Sq(a));
    assert 0.0 <= q && Sq(q) == Sq(a);
    SqMonotonic(q, a);
  }

  /** Comparing a square root with a non-negative bound is comparing the radicand with its square. */
  lemma SqrtLess(m: MathLib, a: real, r: real)
    requires m.Valid() && 0.0 <= a && 0.0 <= r
    ensures m.sqrt(a) < r <==> a < Sq(r)
    ensures m.sqrt(a) <= r <==> a <= Sq(r)
  {
    var q := m.sqrt(a);
    assert 0.0 <= q && Sq(q) == a;
    SqMonotonic(q, r);
  }

  /** sqrt is monotonic on the non-negative reals. */
  lemma SqrtMonotonic(m: MathLib, a: real, b: real)
    requires m.Valid() && 0.0 <= a <= b
    ensures m.sqrt(a) <= m.sqrt(b)
  {
    var p, q := m.sqrt(a), m.sqrt(b);
    assert 0.0 <= p && Sq(p) == a;
    assert 0.0 <= q && Sq(q) == b;
    SqMonotonic(q, p);
  }

  datatype Vector = Vector(x: real, y: real) {

    /** operator*(double). */
    function Scale(s: real): Vector {
      Vector(x * s, y * s)
    }

    /** operator+(const Vector&): component-wise. */
    function Plus(o: Vector): Vector {
      Vector(x + o.x, y + o.y)
    }

    /** operator*(const Vector&): component-wise product. */
    function Times(o: Vector): Vector {
      Vector(x * o.x, y * o.y)
    }

    /** operator+(double): the source body multiplies both components, exactly as operator* does. */
    function PlusScalar(s: real): (r: Vector)
      ensures r == Scale(s)
    {
      Vector(x * s, y * s)
    }

    /** operator-(double): subtracts the scalar from each component; += of the same scalar undoes it. */
    function MinusScalar(s: real): (r: Vector)
      ensures r.AddAssignScalar(s) == this
    {
      Vector(x - s, y - s)
    }

    /** operator/(double); the source's division by zero (an IEEE infinity or NaN) is not modelled. */
    function DivScalar(s: real): (r: Vector)
      requires s != 0.0
      ensures r.Scale(s) == this
    {
      Vector(x / s, y / s)
    }

    /** operator-(const Vector&): component-wise; adding the subtrahend back restores the operand. */
    function Minus(o: Vector): (r: Vector)
      ensures r.Plus(o) == this
    {
      Vector(x - o.x, y - o.y)
    }

    /** operator/(const Vector&): component-wise quotient, undone by operator*(const Vector&). */
    function Div(o: Vector): (r: Vector)
      requires o.x != 0.0 && o.y != 0.0
      ensures r.Times(o) == this
    {
      Vector(x / o.x, y / o.y)
    }

    /** The value of *this after `*= s`; `/=` by the same non-zero scalar restores the operand. */
    function MulAssign(s: real): (r: Vector)
      ensures r == Scale(s)
      ensures s != 0.0 ==> r.DivScalar(s) == this
    {
      Vector(x * s, y * s)
    }

    /** The value of *this after `/= s`. */
    function DivAssign(s: real): (r: Vector)
      requires s != 0.0
      ensures r == DivScalar(s)
    {
      Vector(x / s, y / s)
    }

    /** The value of *this after `+= s`: this one adds the scalar, unlike operator+(double). */
    function AddAssignScalar(s: real): (r: Vector)
      ensures r == Plus(Vector(s, s))
    {
      Vector(x + s, y + s)
    }

    /** The value of *this after `+= o`; subtracting o again restores the operand. */
    function AddAssign(o: Vector): (r: Vector)
      ensures r == Plus(o)
      ensures r.Minus(o) == this
    {
      Vector(x + o.x, y + o.y)
    }

    /** The value of *this after `-= s`. */
    function SubAssignScalar(s: real): (r: Vector)
      ensures r == MinusScalar(s)
    {
      Vector(x - s, y - s)
    }

    /** The value of *this after `-= o`. */
    function SubAssign(o: Vector): (r: Vector)
      ensures r == Minus(o)
    {
      Vector(x - o.x, y - o.y)
    }

    /** The squared Euclidean length: never negative, and zero only for the zero vector. */
    function NormSq(): (r: real)
      ensures 0.0 <= r
      ensures r == 0.0 <==> this == Zero
    {
      SqPositive(x);
      SqPositive(y);
      Sq(x) + Sq(y)
    }

    /** norm(): the Euclidean length, the non-negative root of the squared length. */
    function Norm(m: MathLib): (r: real)
      requires m.Valid()
      ensures 0.0 <= r && Sq(r) == NormSq()
      ensures r == 0.0 <==> this == Zero
    {
      var r := m.sqrt(NormSq());
      SqPositive(r);
      r
    }

    /** Scaling a vector by k multiplies its squared length by k squared. */
    lemma ScaledNormSq(k: real)
      ensures Scale(k).NormSq() == NormSq() * Sq(k)
    {
      SqProduct(x, k);
      SqProduct(y, k);
    }

    /**
     * normalize(): a zero vector is left as it is; any other vector is
     * divided by its norm, which yields a unit vector in the same direction.
     */
    function Normalize(m: MathLib): (r: Vector)
      requires m.Valid()
      ensures this == Zero ==> r == this
      ensures this != Zero ==> r.NormSq() == 1.0 && r.Scale(Norm(m)) == this
    {
      var magnitude := Norm(m);
      if magnitude != 0.0 then
        UnitAfterDivision(magnitude);
        DivAssign(magnitude)
      else
        this
    }

    /** Dividing by a positive number whose square is the squared length gives squared length one. */
    lemma UnitAfterDivision(n: real)
      requires n != 0.0 && Sq(n) == NormSq()
      ensures DivScalar(n).NormSq() == 1.0
    {
      QuotientSquares(x, y, n);
    }

    /**
     * limit(max): a vector no longer than max is left as it is; a longer
     * one is scaled by max / norm, so that its new length is exactly max.
     */
    function Limit(max: real, m: MathLib): (r: Vector)
      requires m.Valid() && 0.0 <= max
      ensures Norm(m) <= max ==> r == this
      ensures Norm(m) > max ==> r == Scale(max / Norm(m)) && r.Norm(m) == max
      ensures r.NormSq() <= Sq(max)
    {
      var magnitude := Norm(m);
      SqrtLess(m, NormSq(), max);
      if magnitude > max then
        ScaledToLength(magnitude, max, m);
        MulAssign(max / magnitude)
      else
        this
    }

    /** Scaling by max / n, where n is the positive length, gives length max. */
    lemma ScaledToLength(n: real, max: real, m: MathLib)
      requires m.Valid() && 0.0 <= max && 0.0 < n && Sq(n) == NormSq()
      ensures Scale(max / n).NormSq() == Sq(max)
      ensures Scale(max / n).Norm(m) == max
    {
      var k := max / n;
      ScaledNormSq(k);
      SqProduct(k, n);
      DivThenMul(max, n);
      assert Scale(k).NormSq() == Sq(k * n);
      SqrtOfSquare(m, max);
    }

    /** fmod(mod): the results of ::fmod are discarded, so the vector is unchanged. */
    function FMod(mod: real): (r: Vector)
      ensures r == this
    {
      this
    }

    /** distance(other): the Euclidean distance, the norm of the difference. */
    function Distance(o: Vector, m: MathLib): (r: real)
      requires m.Valid()
      ensures r == Minus(o).Norm(m)
      ensures 0.0 <= r && Sq(r) == Sq(x - o.x) + Sq(y - o.y)
    {
      var dx := x - o.x;
      var dy := y - o.y;
      m.sqrt(Sq(dx) + Sq(dy))
    }

    /**
     * toroidal_distance2(other, width, height): a coordinate difference is
     * replaced by extent - difference only when it exceeds half the
     * extent; a difference below minus half the extent is kept as it is.
     */
    function ToroidalDistance2(o: Vector, width: real, height: real): (r: real)
      ensures 0.0 <= r
      ensures r == Sq(Fold(x - o.x, width)) + Sq(Fold(y - o.y, height))
    {
      var dx := Fold(x - o.x, width);
      var dy := Fold(y - o.y, height);
      SqNonNegative(dx);
      SqNonNegative(dy);
      Sq(dx) + Sq(dy)
    }

    /** toroidal_distance(other, width, height): the root of toroidal_distance2. */
    function ToroidalDistance(o: Vector, width: real, height: real, m: MathLib): (r: real)
      requires m.Valid()
      ensures 0.0 <= r && Sq(r) == ToroidalDistance2(o, width, height)
    {
      m.sqrt(ToroidalDistance2(o, width, height))
    }

    /** angle(): the heading of the vector itself. */
    function Angle(m: MathLib): real {
      m.atan2(y, x)
    }

    /** angle(other): the bearing from this point to other. */
    function AngleTo(o: Vector, m: MathLib): real {
      m.atan2(o.y - y, o.x - x)
    }
  }

  /** Only the zero vector has no length. */
  lemma NoLengthIsZero(v: Vector)
    requires v.NormSq() <= 0.0
    ensures v == Zero
  {
    SqNonNegative(v.x);
    SqNonNegative(v.y);
    SqPositive(v.x);
    SqPositive(v.y);
  }

  /** operator+(const Vector&) is commutative and undone by operator-(const Vector&). */
  lemma PlusCancels(a: Vector, o: Vector)
    ensures a.Plus(o) == o.Plus(a)
    ensures a.Plus(o).Minus(o) == a
  {
  }

  /** operator*(const Vector&) is commutative and undone by operator/ when no component of o is zero. */
  lemma TimesCancels(a: Vector, o: Vector)
    ensures a.Times(o) == o.Times(a)
    ensures o.x != 0.0 && o.y != 0.0 ==> a.Times(o).Div(o) == a
  {
    if o.x != 0.0 && o.y != 0.0 {
      MulThenDivide(a.x, o.x);
      MulThenDivide(a.y, o.y);
    }
  }

  /** Multiplying by a non-zero factor and dividing by it again gives the number back. */
  lemma MulThenDivide(a: real, n: real)
    requires n != 0.0
    ensures (a * n) / n == a
  {
  }

  /** angle(other) is the heading, angle(), of the difference other - this. */
  lemma BearingIsHeading(a: Vector, b: Vector, m: MathLib)
    ensures a.AngleTo(b, m) == b.Minus(a).Angle(m)
  {
  }

  /** For non-negative extents the toroidal squared distance never exceeds the Euclidean one. */
  lemma ToroidalWithinEuclidean(a: Vector, b: Vector, width: real, height: real)
    requires 0.0 <= width && 0.0 <= height
    ensures a.ToroidalDistance2(b, width, height) <= a.Minus(b).NormSq()
  {
    FoldedNotLonger(a.x - b.x, width);
    FoldedNotLonger(a.y - b.y, height);
  }

  /** The same for the distances themselves: toroidal_distance <= distance. */
  lemma ToroidalDistanceWithinDistance(a: Vector, b: Vector, width: real, height: real, m: MathLib)
    requires m.Valid() && 0.0 <= width && 0.0 <= height
    ensures a.ToroidalDistance(b, width, height, m) <= a.Distance(b, m)
  {
    ToroidalWithinEuclidean(a, b, width, height);
    SqrtMonotonic(m, a.ToroidalDistance2(b, width, height), a.Minus(b).NormSq());
  }

  /** Vector(): the zero vector. */
  const Zero := Vector(0.0, 0.0)

  /** One coordinate difference of toroidal_distance2, folded only when above half the extent. */
  function Fold(d: real, extent: real): real {
    if d > extent / 2.0 then extent - d else d
  }

  /** Folding a difference never makes it longer when the extent is non-negative. */
  lemma FoldedNotLonger(d: real, extent: real)
    requires 0.0 <= extent
    ensures Sq(Fold(d, extent)) <= Sq(d)
  {
    if d > extent / 2.0 {
      SqBounded(extent - d, d);
    }
  }


  /**
   * Vector::random(max, offset): each component is frand() * max + offset
   * with frand() = rand() / RAND_MAX, a fraction in [0, 1] chosen here
   * without constraint.
   */
  method Random(max: real := 1.0, offset: real := 0.0) returns (v: Vector)
    ensures 0.0 <= max ==> offset <= v.x <= offset + max && offset <= v.y <= offset + max
  {
    var fx: real :| 0.0 <= fx <= 1.0;
    var fy: real :| 0.0 <= fy <= 1.0;
    if 0.0 <= max {
      FractionOf(fx, max);
      FractionOf(fy, max);
    }
    v := Vector(fx * max + offset, fy * max + offset);
  }

  /** The fold of toroidal_distance2 is one-sided: the distance from a to b differs from b to a. */
  lemma ToroidalFoldIsOneSided()
    ensures Vector(0.9, 0.5).ToroidalDistance2(Vector(0.1, 0.5), 1.0, 1.0) == 0.04
    ensures Vector(0.1, 0.5).ToroidalDistance2(Vector(0.9, 0.5), 1.0, 1.0) == 0.64
  {
    assert Fold(0.8, 1.0) == 0.2 && Fold(-0.8, 1.0) == -0.8;
    assert Sq(0.2) == 0.04 && Sq(-0.8) == 0.64 && Sq(0.0) == 0.0;
  }
}
