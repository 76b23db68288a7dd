/**
  Short Weierstrass curves y^2 = x^3 - 3x + b over a prime field: affine points, the
  chord-and-tangent law, and what the Jacobian and co-Z coordinate formulas compute in
  terms of that law. Modulus and coefficient stay symbolic throughout.
 */
module Curves {
  import opened Congruence
  import opened Words

  datatype Point = Infinity | Affine(x: int, y: int)

  /** The curve with coefficient coefB over the integers modulo `modulus`. */
  datatype Curve = Curve(modulus: int, coefB: int) {

    /** a == b in the field. */
    ghost predicate Eq(a: int, b: int) {
      modulus > 0 && Cong(a, b, modulus)
    }

    // ---------- Congruences in the field ----------

    lemma EqAdd(a: int, a': int, b: int, b': int)
      requires Eq(a, a') && Eq(b, b')
      ensures Eq(a + b, a' + b')
    {
      CongAdd(a, a', b, b', modulus);
    }

    lemma EqSub(a: int, a': int, b: int, b': int)
      requires Eq(a, a') && Eq(b, b')
      ensures Eq(a - b, a' - b')
    {
      CongSub(a, a', b, b', modulus);
    }

    lemma EqMul(a: int, a': int, b: int, b': int)
      requires Eq(a, a') && Eq(b, b')
      ensures Eq(a * b, a' * b')
    {
      CongMul(a, a', b, b', modulus);
    }

    // ---------- Invertible elements ----------

    ghost predicate Invertible(a: int) {
      exists r :: Eq(r * a, 1)
    }

    ghost predicate ZeroOrInvertible(a: int) {
      Eq(a, 0) || Invertible(a)
    }

    /** Every nonzero element is invertible; the assumption that the modulus is prime, as the proofs use it. */
    ghost predicate PrimeField() {
      modulus > 3 && modulus % 2 == 1 && forall a :: ZeroOrInvertible(a)
    }

    lemma Inverse(a: int) returns (r: int)
      requires PrimeField() && !Eq(a, 0)
      ensures Eq(r * a, 1)
    {
      assert ZeroOrInvertible(a);
      assert Invertible(a);
      r :| Eq(r * a, 1);
    }

    lemma Cancel(a: int, b: int, c: int)
      requires PrimeField() && !Eq(c, 0) && Eq(a * c, b * c)
      ensures Eq(a, b)
    {
      var r := Inverse(c);
      EqMul(a * c, b * c, r, r);
      EqMul(r * c, 1, a, a);
      EqMul(r * c, 1, b, b);
      assert (r * c) * a == (a * c) * r && (r * c) * b == (b * c) * r;
    }

    lemma ProductNonzero(a: int, b: int)
      requires PrimeField() && !Eq(a, 0) && !Eq(b, 0)
      ensures !Eq(a * b, 0)
    {
      if Eq(a * b, 0) {
        assert 0 * b == 0;
        Cancel(a, 0, b);
      }
    }

    lemma EqDiff(a: int, b: int)
      ensures Eq(a - b, 0) <==> Eq(a, b)
    {
      if Eq(a, b) {
        EqSub(a, b, b, b);
      }
      if Eq(a - b, 0) {
        EqAdd(a - b, 0, b, b);
      }
    }

    // ---------- Points and the addition law ----------

    ghost predicate OnCurveXY(x: int, y: int) {
      Eq(y * y, x * x * x - 3 * x + coefB)
    }

    /** A point with reduced coordinates, on the curve or not. */
    ghost predicate Reduced(p: Point) {
      p.Affine? ==> 0 <= p.x < modulus && 0 <= p.y < modulus
    }

    /** A point of the curve with reduced coordinates. */
    ghost predicate OnCurve(p: Point) {
      p.Affine? ==> Reduced(p) && OnCurveXY(p.x, p.y)
    }

    ghost function Inv(a: int): (r: int)
      ensures (exists s :: Eq(s * a, 1)) ==> Eq(r * a, 1)
    {
      if exists s :: Eq(s * a, 1) then
        var s :| Eq(s * a, 1);
        s
      else 0
    }

    /** The third point of the line of slope m through p, whose other intersection has abscissa x2, mirrored. */
    ghost function Third(p: Point, x2: int, m: int): (r: Point)
      requires modulus > 0 && p.Affine?
      ensures r.Affine? && 0 <= r.x < modulus && 0 <= r.y < modulus
    {
      var x3 := (m * m - p.x - x2) % modulus;
      Affine(x3, (m * (p.x - x3) - p.y) % modulus)
    }

    ghost function Neg(p: Point): Point
      requires modulus > 0
    {
      match p
      case Infinity => Infinity
      case Affine(x, y) => Affine(x, (-y) % modulus)
    }

    ghost function Slope(p: Point, q: Point): int
      requires p.Affine? && q.Affine?
    {
      if p.x == q.x then (3 * (p.x * p.x) - 3) * Inv(2 * p.y) else (q.y - p.y) * Inv(q.x - p.x)
    }

    /** The chord-and-tangent addition law. */
    ghost function Add(p: Point, q: Point): Point
      requires modulus > 0
    {
      if p.Infinity? then q
      else if q.Infinity? then p
      else if q == Neg(p) then Infinity
      else Third(p, q.x, Slope(p, q))
    }

    ghost predicate CommuteAt(p: Point, q: Point)
      requires modulus > 0
    {
      OnCurve(p) && OnCurve(q) ==> Add(p, q) == Add(q, p)
    }

    ghost predicate AssociateAt(p: Point, q: Point, r: Point)
      requires modulus > 0
    {
      OnCurve(p) && OnCurve(q) && OnCurve(r) ==> Add(Add(p, q), r) == Add(p, Add(q, r))
    }

    /** The curve points form an abelian group under the law; an assumption where it is needed. */
    ghost predicate GroupLaw() {
      && modulus > 0
      && (forall p, q :: CommuteAt(p, q))
      && (forall p, q, r :: AssociateAt(p, q, r))
    }

    // ---------- The law stays on the curve ----------

    lemma CubeIdentity(a: int, m: int, x1: int, y1: int, d: int)
      // (x1 + d)^3 - 3 (x1 + d) and the square of the line, expanded around x1
      ensures (x1 + d) * (x1 + d) * (x1 + d) == x1 * x1 * x1 + d * (3 * (x1 * x1) + d * (3 * x1 + d))
      ensures (m * d + y1) * (m * d + y1) == y1 * y1 + d * (m * m * d + 2 * (m * y1))
    {
      var s := x1 * x1;
      assert (x1 + d) * (x1 + d) == s + d * (2 * x1 + d);
      assert (s + d * (2 * x1 + d)) * (x1 + d) == s * x1 + s * d + (d * (2 * x1 + d)) * (x1 + d);
      assert (d * (2 * x1 + d)) * (x1 + d) == d * ((2 * x1 + d) * (x1 + d));
      assert (2 * x1 + d) * (x1 + d) == 2 * s + d * (3 * x1 + d);
      assert (m * d) * (m * d) == d * (m * m * d);
      assert 2 * ((m * d) * y1) == d * (2 * (m * y1));
    }

    /** The slope equation of the line meeting the curve in x1 and x2 (a tangent if they agree). */
    ghost function SlopeEquation(x1: int, x2: int, y1: int, m: int): int {
      x1 * x1 + x1 * x2 + x2 * x2 - 3 - m * m * (x2 - x1) - 2 * (m * y1)
    }

    lemma ThirdIdentity(x1: int, y1: int, x2: int, m: int, b: int)
      ensures var x3 := m * m - x1 - x2; var d := x3 - x1; var y3 := -(m * d + y1);
        x3 * x3 * x3 - 3 * x3 + b - y3 * y3
        == (x1 * x1 * x1 - 3 * x1 + b - y1 * y1) + d * SlopeEquation(x1, x2, y1, m)
    {
      var x3 := m * m - x1 - x2;
      var d := x3 - x1;
      CubeIdentity(0, m, x1, y1, d);
      assert x3 == x1 + d;
      var inner := 3 * (x1 * x1) + d * (3 * x1 + d) - 3 - (m * m * d + 2 * (m * y1));
      assert inner == SlopeEquation(x1, x2, y1, m) by {
        InnerIdentity(m * m, x1, x2, d, m * y1);
        assert m * m * d == (m * m) * d && m * m * (x2 - x1) == (m * m) * (x2 - x1);
      }
      var u, v := 3 * (x1 * x1) + d * (3 * x1 + d), m * m * d + 2 * (m * y1);
      assert d * u - 3 * d - d * v == d * (u - 3 - v);
      var y3 := -(m * d + y1);
      assert y3 * y3 == (m * d + y1) * (m * d + y1);
    }

    lemma InnerIdentity(s: int, x1: int, x2: int, d: int, t: int)
      requires d == s - 2 * x1 - x2
      ensures 3 * (x1 * x1) + d * (3 * x1 + d) - 3 - (s * d + 2 * t)
           == x1 * x1 + x1 * x2 + x2 * x2 - 3 - s * (x2 - x1) - 2 * t
    {
      assert s == d + 2 * x1 + x2;
      assert s * d == d * d + 2 * (x1 * d) + x2 * d;
      assert s * (x2 - x1) == d * x2 - d * x1 + 2 * (x1 * x2) - 2 * (x1 * x1) + x2 * x2 - x1 * x2;
    }

    lemma Canonical(a: int, b: int)
      requires 0 <= a < modulus && 0 <= b < modulus && Eq(a, b)
      ensures a == b
    {
      CongSmall(a, b, modulus);
      CongSmall(b, b, modulus);
    }

    lemma InvLaw(a: int)
      requires PrimeField() && !Eq(a, 0)
      ensures Eq(Inv(a) * a, 1)
    {
      var r := Inverse(a);
    }

    /** The slope satisfies its defining equation, by division. */
    lemma QuotientLaw(n: int, d: int)
      requires PrimeField() && !Eq(d, 0)
      ensures Eq((n * Inv(d)) * d, n)
    {
      InvLaw(d);
      EqMul(n, n, Inv(d) * d, 1);
      assert n * (Inv(d) * d) == (n * Inv(d)) * d;
    }

    /** Two points that are not mirror images: either they differ in x, or they agree and y is not its own negative. */
    lemma TwoCases(p: Point, q: Point)
      requires PrimeField() && OnCurve(p) && OnCurve(q) && p.Affine? && q.Affine? && q != Neg(p)
      ensures p.x == q.x ==> p == q && !Eq(2 * p.y, 0)
      ensures p.x != q.x ==> !Eq(q.x - p.x, 0)
    {
      if p.x == q.x {
        CongRefl(p.x * p.x * p.x - 3 * p.x + coefB, q.x * q.x * q.x - 3 * q.x + coefB, modulus);
        SameSquare(p.y, q.y);
        if Eq(q.y, -p.y) {
          CongMod(-p.y, modulus);
          Canonical(q.y, (-p.y) % modulus);
          assert false;
        }
        Canonical(p.y, q.y);
        EqDiff(p.y, -p.y);
        assert p.y - -p.y == 2 * p.y;
      } else {
        EqDiff(q.x, p.x);
        if Eq(q.x, p.x) {
          Canonical(q.x, p.x);
        }
      }
    }

    lemma SameSquare(a: int, b: int)
      requires PrimeField() && Eq(a * a, b * b)
      ensures Eq(b, a) || Eq(b, -a)
    {
      EqDiff(b, a);
      if !Eq(b, a) {
        EqDiff(b * b, a * a);
        FactorDifference(a, b);
        Cancel(b + a, 0, b - a);
        EqDiff(b, -a);
      }
    }

    lemma FactorDifference(a: int, b: int)
      ensures (b + a) * (b - a) == b * b - a * a && b - -a == b + a
      ensures 0 * (b - a) == 0
    {
    }

    /** The line through the points is a chord, or the tangent of a point that is not its own mirror image. */
    ghost predicate HasLine(p: Point, q: Point)
      requires modulus > 0
    {
      p.Affine? && q.Affine? && Reduced(p) && Reduced(q) && (p.x != q.x || (p == q && q != Neg(p)))
    }

    lemma Divisors(p: Point, q: Point)
      requires PrimeField() && HasLine(p, q)
      ensures p.x == q.x ==> !Eq(2 * p.y, 0)
      ensures p.x != q.x ==> !Eq(q.x - p.x, 0)
    {
      if p.x == q.x {
        EqDiff(p.y, -p.y);
        assert p.y - -p.y == 2 * p.y;
        CongMod(-p.y, modulus);
        if Eq(p.y, -p.y) {
          Canonical(p.y, (-p.y) % modulus);
          assert false;
        }
      } else {
        EqDiff(q.x, p.x);
        if Eq(q.x, p.x) {
          Canonical(q.x, p.x);
        }
      }
    }

    lemma SlopeLaw(p: Point, q: Point)
      requires PrimeField() && HasLine(p, q)
      ensures p.x != q.x ==> Eq(Slope(p, q) * (q.x - p.x), q.y - p.y)
      ensures p.x == q.x ==> Eq(Slope(p, q) * (2 * p.y), 3 * (p.x * p.x) - 3)
    {
      Divisors(p, q);
      if p.x == q.x {
        QuotientLaw(3 * (p.x * p.x) - 3, 2 * p.y);
      } else {
        QuotientLaw(q.y - p.y, q.x - p.x);
      }
    }

    lemma ChordEquation(p: Point, q: Point, m: int)
      requires PrimeField() && OnCurve(p) && OnCurve(q) && p.Affine? && q.Affine?
      requires !Eq(q.x - p.x, 0) && Eq(m * (q.x - p.x), q.y - p.y)
      ensures Eq(SlopeEquation(p.x, q.x, p.y, m), 0)
    {
      var x1, y1, x2, y2 := p.x, p.y, q.x, q.y;
      var d := x2 - x1;
      // y2 = m d + y1, so the line meets the curve in both points
      EqAdd(m * d, y2 - y1, y1, y1);
      EqMul(m * d + y1, y2, m * d + y1, y2);
      CubeIdentity(0, m, x1, y1, d);
      var f1 := x1 * x1 * x1 - 3 * x1 + coefB;
      var f2 := x2 * x2 * x2 - 3 * x2 + coefB;
      EqSub(y2 * y2, f2, y1 * y1, f1);
      EqSub((m * d + y1) * (m * d + y1), y2 * y2, y1 * y1, y1 * y1);
      var g := SlopeEquation(x1, x2, y1, m);
      ChordExpansion(x1, x2, d, m, y1);
      EqDiff(f2 - f1, (m * d + y1) * (m * d + y1) - y1 * y1);
      assert 0 * d == 0;
      Cancel(g, 0, d);
    }

    lemma ChordExpansion(x1: int, x2: int, d: int, m: int, y1: int)
      requires d == x2 - x1
      ensures (x2 * x2 * x2 - 3 * x2 + coefB) - (x1 * x1 * x1 - 3 * x1 + coefB)
              - ((m * d + y1) * (m * d + y1) - y1 * y1) == SlopeEquation(x1, x2, y1, m) * d
    {
      CubeIdentity(0, m, x1, y1, d);
      assert x2 == x1 + d;
      var u := 3 * (x1 * x1) + d * (3 * x1 + d);
      var v := m * m * d + 2 * (m * y1);
      assert u == x1 * x1 + x1 * x2 + x2 * x2;
      assert SlopeEquation(x1, x2, y1, m) == u - 3 - v;
      assert (u - 3 - v) * d == d * u - 3 * d - d * v;
    }

    /** Coordinates may be replaced by congruent ones. */
    lemma OnCurveEq(x: int, x': int, y: int, y': int)
      requires Eq(x, x') && Eq(y, y') && OnCurveXY(x, y)
      ensures OnCurveXY(x', y')
    {
      EqMul(y, y', y, y');
      EqMul(x, x', x, x');
      EqMul(x * x, x' * x', x, x');
      EqMul(3, 3, x, x');
      EqSub(x * x * x, x' * x' * x', 3 * x, 3 * x');
      EqAdd(x * x * x - 3 * x, x' * x' * x' - 3 * x', coefB, coefB);
    }

    /** f3 = f1 + d * g, with f1 and g zero in the field. */
    lemma ZeroCombination(f3: int, f1: int, d: int, g: int)
      requires f3 == f1 + d * g && Eq(f1, 0) && Eq(g, 0)
      ensures Eq(f3, 0)
    {
      EqMul(d, d, g, 0);
      EqAdd(f1, 0, d * g, 0);
    }

    lemma ThirdExact(x1: int, y1: int, x2: int, m: int, x3: int, y3: int)
      requires OnCurveXY(x1, y1) && Eq(SlopeEquation(x1, x2, y1, m), 0)
      requires x3 == m * m - x1 - x2 && y3 == -(m * (x3 - x1) + y1)
      ensures OnCurveXY(x3, y3)
    {
      ThirdIdentity(x1, y1, x2, m, coefB);
      EqDiff(y1 * y1, x1 * x1 * x1 - 3 * x1 + coefB);
      EqSub(0, 0, y1 * y1 - (x1 * x1 * x1 - 3 * x1 + coefB), 0);
      ZeroCombination(x3 * x3 * x3 - 3 * x3 + coefB - y3 * y3, x1 * x1 * x1 - 3 * x1 + coefB - y1 * y1,
                      x3 - x1, SlopeEquation(x1, x2, y1, m));
      EqDiff(x3 * x3 * x3 - 3 * x3 + coefB, y3 * y3);
    }

    lemma ThirdResidues(p: Point, x2: int, m: int, x3: int, y3: int)
      requires modulus > 0 && p.Affine? && x3 == m * m - p.x - x2 && y3 == -(m * (x3 - p.x) + p.y)
      ensures Eq(x3, Third(p, x2, m).x) && Eq(y3, Third(p, x2, m).y)
    {
      var r := Third(p, x2, m);
      CongMod(x3, modulus);
      EqSub(p.x, p.x, x3, r.x);
      EqMul(m, m, p.x - x3, p.x - r.x);
      EqSub(m * (p.x - x3), m * (p.x - r.x), p.y, p.y);
      CongMod(m * (p.x - r.x) - p.y, modulus);
      Mirror(m, x3, p.x, p.y);
    }

    lemma Mirror(m: int, x3: int, x: int, y: int)
      ensures -(m * (x3 - x) + y) == m * (x - x3) - y
    {
    }

    lemma ThirdOnCurve(p: Point, x2: int, m: int)
      requires OnCurve(p) && p.Affine? && Eq(SlopeEquation(p.x, x2, p.y, m), 0)
      ensures OnCurve(Third(p, x2, m))
    {
      var r := Third(p, x2, m);
      var x3 := m * m - p.x - x2;
      var y3 := -(m * (x3 - p.x) + p.y);
      ThirdExact(p.x, p.y, x2, m, x3, y3);
      ThirdResidues(p, x2, m, x3, y3);
      OnCurveEq(x3, r.x, y3, r.y);
    }

    /** The sum of two curve points is a curve point. */
    lemma AddOnCurve(p: Point, q: Point)
      requires PrimeField() && OnCurve(p) && OnCurve(q)
      ensures OnCurve(Add(p, q))
    {
      if p.Affine? && q.Affine? && q != Neg(p) {
        TwoCases(p, q);
        SlopeLaw(p, q);
        var m := Slope(p, q);
        if p.x == q.x {
          assert m * (2 * p.y) == 2 * (m * p.y);
          EqDiff(3 * (p.x * p.x) - 3, 2 * (m * p.y));
          assert SlopeEquation(p.x, q.x, p.y, m) == 3 * (p.x * p.x) - 3 - 2 * (m * p.y) by {
            assert m * m * (q.x - p.x) == 0;
          }
        } else {
          ChordEquation(p, q, m);
        }
        ThirdOnCurve(p, q.x, m);
      }
    }

    lemma NegOnCurve(p: Point)
      requires modulus > 0 && OnCurve(p)
      ensures OnCurve(Neg(p))
    {
      if p.Affine? {
        NegOnCurveXY(p.x, p.y);
      }
    }

    lemma NegOnCurveXY(x: int, y: int)
      requires modulus > 0 && OnCurveXY(x, y)
      ensures var y' := (-y) % modulus; 0 <= y' < modulus && OnCurveXY(x, y')
    {
      var y', right := (-y) % modulus, x * x * x - 3 * x + coefB;
      CongMod(-y, modulus);
      EqMul(y', -y, y', -y);
      SquareOfNeg(y);
      EqTrans(y' * y', y * y, right);
    }

    lemma EqTrans(a: int, b: int, e: int)
      requires Eq(a, b) && Eq(b, e)
      ensures Eq(a, e)
    {
    }

    lemma SquareOfNeg(y: int)
      ensures (-y) * (-y) == y * y
    {
    }

    // ---------- Jacobian and co-Z coordinates ----------

    /** The triple (X, Y, Z) stands for the affine point (X / Z^2, Y / Z^3). */
    ghost predicate Rep(X: int, Y: int, Z: int, p: Point) {
      p.Affine? && !Eq(Z, 0) && Eq(X, p.x * (Z * Z)) && Eq(Y, p.y * (Z * (Z * Z)))
    }

    lemma PowersOfProduct(z: int, e: int)
      ensures (z * z) * (e * e) == (z * e) * (z * e)
      ensures (z * (z * z)) * (e * (e * e)) == (z * e) * ((z * e) * (z * e))
    {
      var w := z * e;
      assert (z * z) * (e * e) == w * w;
      assert (z * (z * z)) * (e * (e * e)) == w * ((z * z) * (e * e));
    }

    lemma MulAssoc3(a: int, b: int, c: int)
      ensures (a * b) * c == a * (b * c)
    {
    }

    /** Multiplying X by e^2 and Y by e^3 changes the denominator to Z e and keeps the point. */
    lemma Rescale(X: int, Y: int, Z: int, e: int, p: Point)
      requires PrimeField() && Rep(X, Y, Z, p) && !Eq(e, 0)
      ensures Rep(X * (e * e), Y * (e * (e * e)), Z * e, p)
    {
      ProductNonzero(Z, e);
      PowersOfProduct(Z, e);
      EqMul(X, p.x * (Z * Z), e * e, e * e);
      MulAssoc3(p.x, Z * Z, e * e);
      EqMul(Y, p.y * (Z * (Z * Z)), e * (e * e), e * (e * e));
      MulAssoc3(p.y, Z * (Z * Z), e * (e * e));
    }

    lemma RepEq(X: int, X': int, Y: int, Y': int, Z: int, Z': int, p: Point)
      requires Rep(X, Y, Z, p) && Eq(X, X') && Eq(Y, Y') && Eq(Z, Z')
      ensures Rep(X', Y', Z', p)
    {
      EqMul(Z, Z', Z, Z');
      EqMul(Z, Z', Z * Z, Z' * Z');
      EqMul(p.x, p.x, Z * Z, Z' * Z');
      EqMul(p.y, p.y, Z * (Z * Z), Z' * (Z' * Z'));
    }

    /**
      The common core of all the formulas. D is the scaled slope m Z; B, C and E are x1, x2 and
      y1 over the denominator Z. Then (D^2 - B - C, D (B - X3) - E) is the third point over Z.
     */
    lemma LineFormula(D: int, B: int, C: int, E: int, Z: int, p: Point, x2: int, m: int, X3: int, Y3: int)
      requires p.Affine? && !Eq(Z, 0) && Eq(D, m * Z)
      requires Eq(B, p.x * (Z * Z)) && Eq(C, x2 * (Z * Z)) && Eq(E, p.y * (Z * (Z * Z)))
      requires Eq(X3, D * D - B - C) && Eq(Y3, D * (B - X3) - E)
      ensures Rep(X3, Y3, Z, Third(p, x2, m))
    {
      var r, S := Third(p, x2, m), Z * Z;
      var x3 := m * m - p.x - x2;
      EqMul(D, m * Z, D, m * Z);
      EqSub(D * D, (m * Z) * (m * Z), B, p.x * S);
      EqSub(D * D - B, (m * Z) * (m * Z) - p.x * S, C, x2 * S);
      SquareTerm(m, Z, p.x, x2);
      CongMod(x3, modulus);
      EqMul(x3, r.x, S, S);
      // ordinate
      EqSub(B, p.x * S, X3, r.x * S);
      EqMul(D, m * Z, B - X3, p.x * S - r.x * S);
      EqSub(D * (B - X3), (m * Z) * (p.x * S - r.x * S), E, p.y * (Z * S));
      CubeTerm(m, Z, p.x, r.x, p.y);
      CongMod(m * (p.x - r.x) - p.y, modulus);
      EqMul(m * (p.x - r.x) - p.y, r.y, Z * S, Z * S);
    }

    lemma SquareTerm(m: int, Z: int, x1: int, x2: int)
      ensures (m * Z) * (m * Z) - x1 * (Z * Z) - x2 * (Z * Z) == (m * m - x1 - x2) * (Z * Z)
    {
      PowersOfProduct(m, Z);
      var S := Z * Z;
      assert (m * m - x1 - x2) * S == (m * m) * S - x1 * S - x2 * S;
    }

    lemma CubeTerm(m: int, Z: int, x1: int, x3: int, y1: int)
      ensures (m * Z) * (x1 * (Z * Z) - x3 * (Z * Z)) - y1 * (Z * (Z * Z)) == (m * (x1 - x3) - y1) * (Z * (Z * Z))
    {
      var S := Z * Z;
      var T := Z * S;
      assert x1 * S - x3 * S == (x1 - x3) * S;
      assert (m * Z) * ((x1 - x3) * S) == (m * (x1 - x3)) * T;
      assert (m * (x1 - x3) - y1) * T == (m * (x1 - x3)) * T - y1 * T;
    }

    /** With a common denominator, the difference of the ordinates is the slope over the new denominator. */
    lemma ScaledSlope(X1: int, Y1: int, X2: int, Y2: int, Z: int, x1: int, y1: int, x2: int, y2: int, m: int)
      requires Eq(X1, x1 * (Z * Z)) && Eq(X2, x2 * (Z * Z))
      requires Eq(Y1, y1 * (Z * (Z * Z))) && Eq(Y2, y2 * (Z * (Z * Z)))
      requires Eq(m * (x2 - x1), y2 - y1)
      ensures Eq(Y2 - Y1, m * (Z * (X2 - X1)))
      ensures Eq(X2 - X1, (x2 - x1) * (Z * Z))
    {
      var S := Z * Z;
      var T := Z * S;
      EqSub(X2, x2 * S, X1, x1 * S);
      assert x2 * S - x1 * S == (x2 - x1) * S;
      EqSub(Y2, y2 * T, Y1, y1 * T);
      assert y2 * T - y1 * T == (y2 - y1) * T;
      EqMul(m * (x2 - x1), y2 - y1, T, T);
      EqMul(m * Z, m * Z, X2 - X1, (x2 - x1) * S);
      SlopeRegroup(m, Z, x2 - x1, X2 - X1);
    }

    lemma SlopeRegroup(m: int, Z: int, d: int, e: int)
      ensures (m * Z) * (d * (Z * Z)) == (m * d) * (Z * (Z * Z))
      ensures (m * Z) * e == m * (Z * e)
    {
      MulAssoc3(m, Z, e);
      var S := Z * Z;
      assert (m * Z) * (d * S) == (m * d) * (Z * S);
    }

    /** The values one co-Z addition starts from, and the two products B = X1 A, C = X2 A with A = (X2 - X1)^2. */
    ghost predicate Shared(X1: int, Y1: int, X2: int, Y2: int, Z: int, p: Point, q: Point) {
      && Rep(X1, Y1, Z, p) && Rep(X2, Y2, Z, q) && Reduced(p) && Reduced(q) && p.x != q.x
    }

    lemma SharedScale(X1: int, Y1: int, X2: int, Y2: int, Z: int, p: Point, q: Point)
      requires PrimeField() && Shared(X1, Y1, X2, Y2, Z, p, q)
      ensures !Eq(X2 - X1, 0) && !Eq(Z * (X2 - X1), 0)
    {
      var e := X2 - X1;
      EqDiff(q.x, p.x);
      if Eq(q.x, p.x) {
        Canonical(q.x, p.x);
      }
      EqSub(X2, q.x * (Z * Z), X1, p.x * (Z * Z));
      DistributeDiff(q.x, p.x, Z * Z);
      ProductNonzero(Z, Z);
      ProductNonzero(q.x - p.x, Z * Z);
      ProductNonzero(Z, e);
    }

    lemma DistributeDiff(a: int, b: int, c: int)
      ensures a * c - b * c == (a - b) * c
    {
    }

    /** Co-Z addition: (P, Q) over Z becomes (P, P + Q) over Z (X2 - X1). */
    lemma AddMeaning(X1: int, Y1: int, X2: int, Y2: int, Z: int, p: Point, q: Point,
                     B: int, C: int, E: int, X3: int, Y3: int)
      requires PrimeField() && Shared(X1, Y1, X2, Y2, Z, p, q)
      requires var e := X2 - X1; Eq(B, X1 * (e * e)) && Eq(C, X2 * (e * e)) && Eq(E, Y1 * (e * (e * e)))
      requires Eq(X3, (Y2 - Y1) * (Y2 - Y1) - B - C) && Eq(Y3, (Y2 - Y1) * (B - X3) - E)
      ensures Rep(B, E, Z * (X2 - X1), p) && Rep(X3, Y3, Z * (X2 - X1), Add(p, q))
    {
      var e := X2 - X1;
      SharedScale(X1, Y1, X2, Y2, Z, p, q);
      Rescale(X1, Y1, Z, e, p);
      Rescale(X2, Y2, Z, e, q);
      RepEq(X1 * (e * e), B, Y1 * (e * (e * e)), E, Z * e, Z * e, p);
      SlopeLaw(p, q);
      ScaledSlope(X1, Y1, X2, Y2, Z, p.x, p.y, q.x, q.y, Slope(p, q));
      LineFormula(Y2 - Y1, B, C, E, Z * e, p, q.x, Slope(p, q), X3, Y3);
    }

    /** Conjugate co-Z subtraction: the same data with -Q in place of Q give P - Q. */
    lemma SubMeaning(X1: int, Y1: int, X2: int, Y2: int, Z: int, p: Point, q: Point,
                     B: int, C: int, E: int, X3: int, Y3: int)
      requires PrimeField() && Shared(X1, Y1, X2, Y2, Z, p, q)
      requires var e := X2 - X1; Eq(B, X1 * (e * e)) && Eq(C, X2 * (e * e)) && Eq(E, Y1 * (e * (e * e)))
      requires Eq(X3, (Y2 + Y1) * (Y2 + Y1) - B - C) && Eq(Y3, (Y2 + Y1) * (X3 - B) - E)
      ensures Rep(X3, Y3, Z * (X2 - X1), Add(p, Neg(q)))
    {
      MirrorRep(X2, Y2, Z, q);
      CongMod(-q.y, modulus);
      MirrorProducts(Y1, Y2, B, X3);
      AddMeaning(X1, Y1, X2, -Y2, Z, p, Neg(q), B, C, E, X3, Y3);
    }

    lemma MirrorRep(X: int, Y: int, Z: int, q: Point)
      requires Rep(X, Y, Z, q)
      ensures Rep(X, -Y, Z, Neg(q))
    {
      var T := Z * (Z * Z);
      CongMod(-q.y, modulus);
      EqSub(0, 0, Y, q.y * T);
      EqMul(Neg(q).y, -q.y, T, T);
      NegTimes(q.y, T);
    }

    lemma NegTimes(a: int, b: int)
      ensures (-a) * b == -(a * b)
    {
    }

    lemma MirrorProducts(Y1: int, Y2: int, B: int, X3: int)
      ensures (-Y2 - Y1) * (-Y2 - Y1) == (Y2 + Y1) * (Y2 + Y1)
      ensures (-Y2 - Y1) * (B - X3) == (Y2 + Y1) * (X3 - B)
    {
    }

    /** Doubling: Z3 = Y Z, and B = (3/2)(X^2 - Z^4) is the tangent slope over Z3. */
    lemma DoubleMeaning(X: int, Y: int, Z: int, p: Point, B: int, A: int, Q: int, X3: int, Y3: int)
      requires PrimeField() && Rep(X, Y, Z, p) && Reduced(p) && p != Neg(p)
      requires Eq(2 * B, 3 * (X * X - (Z * Z) * (Z * Z)))
      requires Eq(A, X * (Y * Y)) && Eq(Q, (Y * Y) * (Y * Y))
      requires Eq(X3, B * B - A - A) && Eq(Y3, B * (A - X3) - Q)
      ensures Rep(X3, Y3, Y * Z, Add(p, p))
    {
      var m, W := Slope(p, p), Z * Z;
      SlopeLaw(p, p);
      Divisors(p, p);
      TangentScale(X, Y, Z, p, m, B);
      DoubledPowers(X, Y, Z, p, A, Q);
      LineFormula(B, A, A, Q, Y * Z, p, p.x, m, X3, Y3);
    }

    lemma TwoNonzero()
      requires modulus > 2
      ensures !Eq(2, 0)
    {
    }

    lemma TangentProducts(xx: int, y: int, Z: int, m: int)
      ensures 3 * (xx * ((Z * Z) * (Z * Z)) - (Z * Z) * (Z * Z)) == (3 * xx - 3) * ((Z * Z) * (Z * Z))
      ensures (y * (Z * (Z * Z))) * Z == y * ((Z * Z) * (Z * Z))
      ensures (m * (2 * y)) * ((Z * Z) * (Z * Z)) == 2 * (m * (y * ((Z * Z) * (Z * Z))))
    {
      var V := (Z * Z) * (Z * Z);
      assert (Z * (Z * Z)) * Z == V;
      MulAssoc3(y, Z * (Z * Z), Z);
      MulAssoc3(m, 2 * y, V);
      MulAssoc3(2, y, V);
      MulAssoc3(m, 2, y * V);
    }

    lemma TangentScale(X: int, Y: int, Z: int, p: Point, m: int, B: int)
      requires PrimeField() && Rep(X, Y, Z, p) && !Eq(2 * p.y, 0)
      requires Eq(m * (2 * p.y), 3 * (p.x * p.x) - 3)
      requires Eq(2 * B, 3 * (X * X - (Z * Z) * (Z * Z)))
      ensures Eq(B, m * (Y * Z)) && !Eq(Y * Z, 0)
    {
      var W := Z * Z;
      var V := W * W;
      EqMul(X, p.x * W, X, p.x * W);
      PowersOfProduct(p.x, W);
      EqSub(X * X, (p.x * p.x) * V, V, V);
      EqMul(3, 3, X * X - V, (p.x * p.x) * V - V);
      TangentProducts(p.x * p.x, p.y, Z, m);
      EqMul(m * (2 * p.y), 3 * (p.x * p.x) - 3, V, V);
      EqMul(Y, p.y * (Z * W), Z, Z);
      EqMul(m, m, Y * Z, p.y * V);
      EqMul(2, 2, m * (Y * Z), m * (p.y * V));
      TwoNonzero();
      assert 2 * B == B * 2 && 2 * (m * (Y * Z)) == (m * (Y * Z)) * 2;
      Cancel(B, m * (Y * Z), 2);
      if Eq(p.y, 0) {
        EqMul(2, 2, p.y, 0);
      }
      ProductNonzero(Z, Z);
      ProductNonzero(W, W);
      ProductNonzero(p.y, V);
    }

    lemma DoubledPowers(X: int, Y: int, Z: int, p: Point, A: int, Q: int)
      requires Rep(X, Y, Z, p) && Eq(A, X * (Y * Y)) && Eq(Q, (Y * Y) * (Y * Y))
      ensures Eq(A, p.x * ((Y * Z) * (Y * Z)))
      ensures Eq(Q, p.y * ((Y * Z) * ((Y * Z) * (Y * Z))))
    {
      var W := Z * Z;
      EqMul(X, p.x * W, Y * Y, Y * Y);
      PowersOfProduct(Y, Z);
      assert (p.x * W) * (Y * Y) == p.x * ((Y * Y) * W);
      // Y^4 = y Z^3 * Y^3 = y (Y Z)^3
      EqMul(Y, p.y * (Z * W), Y * (Y * Y), Y * (Y * Y));
      assert Y * (Y * (Y * Y)) == (Y * Y) * (Y * Y);
      assert (p.y * (Z * W)) * (Y * (Y * Y)) == p.y * ((Y * (Y * Y)) * (Z * W));
    }

    /** Multiplying by powers of the inverse of Z recovers the affine coordinates. */
    lemma Normalize(X: int, Y: int, Z: int, p: Point, z: int, x: int, y: int)
      requires Rep(X, Y, Z, p) && Eq(Z * z, 1)
      requires 0 <= x < modulus && 0 <= y < modulus && Eq(x, X * (z * z)) && Eq(y, Y * (z * (z * z)))
      requires 0 <= p.x < modulus && 0 <= p.y < modulus
      ensures Affine(x, y) == p
    {
      PowersOfProduct(Z, z);
      EqMul(Z * z, 1, Z * z, 1);
      EqMul(Z * z, 1, (Z * z) * (Z * z), 1 * 1);
      EqMul(X, p.x * (Z * Z), z * z, z * z);
      MulAssoc3(p.x, Z * Z, z * z);
      EqMul(p.x, p.x, (Z * Z) * (z * z), 1);
      EqMul(Y, p.y * (Z * (Z * Z)), z * (z * z), z * (z * z));
      MulAssoc3(p.y, Z * (Z * Z), z * (z * z));
      EqMul(p.y, p.y, (Z * (Z * Z)) * (z * (z * z)), 1);
      Canonical(x, p.x);
      Canonical(y, p.y);
    }

    // ---------- Multiples of a point ----------

    /** n * p */
    ghost function Times(n: nat, p: Point): Point
      requires modulus > 0
    {
      if n == 0 then Infinity else Add(p, Times(n - 1, p))
    }

    lemma {:induction false} TimesOnCurve(n: nat, p: Point)
      requires PrimeField() && OnCurve(p)
      ensures OnCurve(Times(n, p))
    {
      if n > 0 {
        TimesOnCurve(n - 1, p);
        AddOnCurve(p, Times(n - 1, p));
      }
    }

    lemma Commute(p: Point, q: Point)
      requires GroupLaw() && OnCurve(p) && OnCurve(q)
      ensures Add(p, q) == Add(q, p)
    {
      assert CommuteAt(p, q);
    }

    lemma Associate(p: Point, q: Point, r: Point)
      requires GroupLaw() && OnCurve(p) && OnCurve(q) && OnCurve(r)
      ensures Add(Add(p, q), r) == Add(p, Add(q, r))
    {
      assert AssociateAt(p, q, r);
    }

    lemma {:induction false} TimesSum(a: nat, b: nat, p: Point)
      requires PrimeField() && GroupLaw() && OnCurve(p)
      ensures Times(a + b, p) == Add(Times(a, p), Times(b, p))
    {
      if a > 0 {
        TimesSum(a - 1, b, p);
        assert a + b - 1 == (a - 1) + b;
        TimesOnCurve(a - 1, p);
        TimesOnCurve(b, p);
        Associate(p, Times(a - 1, p), Times(b, p));
      }
    }

    lemma AddInverse(p: Point)
      requires modulus > 0
      ensures Add(p, Neg(p)) == Infinity
    {
    }

    /** In a group, p + q = 0 makes q the inverse of p. */
    lemma InverseUnique(p: Point, q: Point)
      requires PrimeField() && GroupLaw() && OnCurve(p) && OnCurve(q) && Add(p, q) == Infinity
      ensures q == Neg(p)
    {
    }

    /** (m + 1) p - m p == p and m p - (m + 1) p == -p */
    lemma LadderDifference(m: nat, p: Point)
      requires PrimeField() && GroupLaw() && OnCurve(p)
      ensures Add(Times(m + 1, p), Neg(Times(m, p))) == p
      ensures Add(Times(m, p), Neg(Times(m + 1, p))) == Neg(p)
    {
      TimesOnCurve(m, p);
      TimesOnCurve(m + 1, p);
      SumMinus(p, Times(m, p));
      MinusSum(p, Times(m, p), Times(m + 1, p));
    }

    lemma SumMinus(p: Point, a: Point)
      requires PrimeField() && GroupLaw() && OnCurve(p) && OnCurve(a)
      ensures Add(Add(p, a), Neg(a)) == p
    {
      NegOnCurve(a);
      Associate(p, a, Neg(a));
      AddInverse(a);
    }

    lemma MinusSum(p: Point, a: Point, b: Point)
      requires PrimeField() && GroupLaw() && OnCurve(p) && OnCurve(a) && OnCurve(b) && b == Add(p, a)
      ensures Add(a, Neg(b)) == Neg(p)
    {
      NegOnCurve(b);
      Associate(p, a, Neg(b));
      AddInverse(b);
      AddOnCurve(a, Neg(b));
      InverseUnique(p, Add(a, Neg(b)));
    }

    /** p + q == p only for q = 0 */
    lemma AbsorbUnique(p: Point, q: Point)
      requires PrimeField() && GroupLaw() && OnCurve(p) && OnCurve(q) && Add(p, q) == p
      ensures q == Infinity
    {
      NegOnCurve(p);
      Associate(Neg(p), p, q);
      Commute(Neg(p), p);
      AddInverse(p);
    }

    /** Points with one abscissa are equal or opposite. */
    lemma SameAbscissa(p: Point, q: Point)
      requires PrimeField() && OnCurve(p) && OnCurve(q) && p.Affine? && q.Affine? && p.x == q.x
      ensures q == p || q == Neg(p)
    {
      if q != Neg(p) {
        TwoCases(p, q);
      }
    }

    /** The step from the prefix m stays clear of the exceptional cases of the formulas. */
    ghost predicate Safe(p: Point, m: nat)
      requires modulus > 0
    {
      Times(2 * m, p) != Infinity && Times(2 * m + 1, p) != Infinity && Times(2 * m + 2, p) != Infinity
    }

    /** In a safe step all additions are of points with different abscissas. */
    lemma SafeStep(p: Point, m: nat)
      requires PrimeField() && GroupLaw() && OnCurve(p) && p.Affine? && Safe(p, m)
      requires Times(m, p).Affine? && Times(m + 1, p).Affine?
      ensures Times(m, p).x != Times(m + 1, p).x
      ensures Times(2 * m + 1, p).Affine? && Times(2 * m + 1, p).x != p.x
    {
      TimesOnCurve(m, p);
      TimesOnCurve(m + 1, p);
      TimesOnCurve(2 * m, p);
      TimesOnCurve(2 * m + 1, p);
      TimesSumTo(m, m + 1, 2 * m + 1, p);
      TimesNext(m, m + 1, p);
      TimesNext(2 * m, 2 * m + 1, p);
      TimesNext(2 * m + 1, 2 * m + 2, p);
      SafePoints(p, Times(m, p), Times(m + 1, p), Times(2 * m, p), Times(2 * m + 1, p), Times(2 * m + 2, p));
    }

    lemma TimesSumTo(a: nat, b: nat, n: nat, p: Point)
      requires PrimeField() && GroupLaw() && OnCurve(p) && a + b == n
      ensures Times(n, p) == Add(Times(a, p), Times(b, p))
    {
      TimesSum(a, b, p);
    }

    lemma TimesNext(n: nat, k: nat, p: Point)
      requires modulus > 0 && k == n + 1
      ensures Times(k, p) == Add(p, Times(n, p))
    {
    }

    lemma SafePoints(p: Point, a: Point, b: Point, c: Point, d: Point, e: Point)
      requires PrimeField() && GroupLaw() && OnCurve(p) && OnCurve(a) && OnCurve(b) && OnCurve(c) && OnCurve(d)
      requires p.Affine? && a.Affine? && b.Affine? && c != Infinity && d != Infinity && e != Infinity
      requires b == Add(p, a) && d == Add(a, b) && d == Add(p, c) && e == Add(p, d)
      ensures a.x != b.x && d.Affine? && d.x != p.x
    {
      DifferentAbscissas(p, a, b);
      OtherAbscissa(p, c, d);
    }

    /** a and p + a have different abscissas if their sum is not zero. */
    lemma DifferentAbscissas(p: Point, a: Point, b: Point)
      requires PrimeField() && GroupLaw() && OnCurve(p) && OnCurve(a) && OnCurve(b)
      requires p.Affine? && a.Affine? && b.Affine? && b == Add(p, a) && Add(a, b) != Infinity
      ensures a.x != b.x
    {
      if a.x == b.x {
        SameAbscissa(a, b);
        AddInverse(a);
        Commute(p, a);
        AbsorbUnique(a, p);
      }
    }

    /** p and p + a have different abscissas if neither a nor 2 p + a is zero. */
    lemma OtherAbscissa(p: Point, a: Point, d: Point)
      requires PrimeField() && GroupLaw() && OnCurve(p) && OnCurve(a) && OnCurve(d)
      requires p.Affine? && d.Affine? && d == Add(p, a) && a != Infinity && Add(p, d) != Infinity
      ensures d.x != p.x
    {
      if d.x == p.x {
        SameAbscissa(p, d);
        AddInverse(p);
        AbsorbUnique(p, a);
      }
    }
  }
}
