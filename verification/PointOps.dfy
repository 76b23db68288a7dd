/** The point formulas of the Montgomery ladder, executed in place on digit arrays. */
module PointOps {
  import opened Words
  import opened Vli
  import opened VliMod
  import opened Congruence
  import opened Curves
  import opened Field

  /** Four field elements in four different buffers, none of them the prime's. */
  ghost predicate Quad(a: Ptr, b: Ptr, d: Ptr, e: Ptr, p: Ptr, c: Curve)
    reads a.buf, b.buf, d.buf, e.buf, p.buf
  {
    && IsField(c, p) && Elem(a, c) && Elem(b, c) && Elem(d, c) && Elem(e, c)
    && a.buf != b.buf && a.buf != d.buf && a.buf != e.buf && b.buf != d.buf && b.buf != e.buf && d.buf != e.buf
    && p.buf != a.buf && p.buf != b.buf && p.buf != d.buf && p.buf != e.buf
  }

  /** (B, E, X3, Y3) is what the addition formula yields on (X1, Y1, X2, Y2). */
  ghost predicate Sum(c: Curve, X1: int, Y1: int, X2: int, Y2: int, B: int, E: int, X3: int, Y3: int) {
    var e := X2 - X1;
    && c.Eq(B, X1 * (e * e)) && c.Eq(E, Y1 * (e * (e * e)))
    && c.Eq(X3, (Y2 - Y1) * (Y2 - Y1) - B - X2 * (e * e))
    && c.Eq(Y3, (Y2 - Y1) * (B - X3) - E)
  }

  /** (X3', Y3') is what the conjugate formula yields: the difference of the two points. */
  ghost predicate Difference(c: Curve, X1: int, Y1: int, X2: int, Y2: int, X3: int, Y3: int) {
    var e := X2 - X1;
    && c.Eq(X3, (Y2 + Y1) * (Y2 + Y1) - X1 * (e * e) - X2 * (e * e))
    && c.Eq(Y3, (Y2 + Y1) * (X3 - X1 * (e * e)) - Y1 * (e * (e * e)))
  }

  /** The common first part: A = (x2 - x1)^2, B = x1 A, C = x2 A. */
  method ScaleAbscissas(X1: Ptr, X2: Ptr, t5: Ptr, p: Ptr, ghost c: Curve)
    requires IsField(c, p) && Elem(X1, c) && Elem(X2, c) && t5.Ok()
    requires X1.buf != X2.buf && X1.buf != t5.buf && X2.buf != t5.buf
    requires p.buf != X1.buf && p.buf != X2.buf && p.buf != t5.buf
    modifies X1.buf, X2.buf, t5.buf
    ensures Elem(X1, c) && Elem(X2, c) && Elem(t5, c)
    ensures var x1, x2 := old(X1.V()), old(X2.V()); c.Eq(X1.V(), x1 * ((x2 - x1) * (x2 - x1)))
    ensures var x1, x2 := old(X1.V()), old(X2.V()); c.Eq(X2.V(), x2 * ((x2 - x1) * (x2 - x1)))
  {
    ghost var x1: int, x2: int := X1.V(), X2.V();
    FSub(t5, X2, X1, p, c);    // x2 - x1
    ghost var e := t5.V();
    FSquare(t5, t5, p, c);     // A
    ghost var a := t5.V();
    FMul(X1, X1, t5, p, c);    // B
    FMul(X2, X2, t5, p, c);    // C
    SquaredGap(c, x1, x2, e, a, X1.V(), X2.V());
  }

  lemma SquaredGap(c: Curve, x1: int, x2: int, e: int, a: int, b: int, d: int)
    requires c.Eq(e, x2 - x1) && c.Eq(a, e * e) && c.Eq(b, x1 * a) && c.Eq(d, x2 * a)
    ensures c.Eq(b, x1 * ((x2 - x1) * (x2 - x1))) && c.Eq(d, x2 * ((x2 - x1) * (x2 - x1)))
  {
    c.EqMul(e, x2 - x1, e, x2 - x1);
    c.EqMul(x1, x1, a, (x2 - x1) * (x2 - x1));
    c.EqMul(x2, x2, a, (x2 - x1) * (x2 - x1));
  }

  /** y1 (C - B) = y1 (x2 - x1)^3 */
  lemma CubedGap(c: Curve, x1: int, y1: int, x2: int, B: int, C: int, g: int, E: int)
    requires c.Eq(B, x1 * ((x2 - x1) * (x2 - x1))) && c.Eq(C, x2 * ((x2 - x1) * (x2 - x1)))
    requires c.Eq(g, C - B) && c.Eq(E, y1 * g)
    ensures c.Eq(E, y1 * ((x2 - x1) * ((x2 - x1) * (x2 - x1))))
  {
    var e := x2 - x1;
    var s := e * e;
    c.EqSub(C, x2 * s, B, x1 * s);
    assert x2 * s - x1 * s == e * s;
    c.EqMul(y1, y1, g, e * s);
  }

  lemma AbscissaStep(c: Curve, D: int, d: int, t: int, u: int, B: int, C: int, C': int, X3: int)
    requires c.Eq(D, d) && c.Eq(t, D * D) && c.Eq(u, t - B) && c.Eq(X3, u - C) && c.Eq(C, C')
    ensures c.Eq(X3, d * d - B - C')
  {
    c.EqMul(D, d, D, d);
    c.EqSub(t, d * d, B, B);
    c.EqSub(u, d * d - B, C, C');
  }

  lemma OrdinateStep(c: Curve, D: int, d: int, h: int, h': int, w: int, E: int, Y3: int)
    requires c.Eq(D, d) && c.Eq(h, h') && c.Eq(w, D * h) && c.Eq(Y3, w - E)
    ensures c.Eq(Y3, d * h' - E)
  {
    c.EqMul(D, d, h, h');
    c.EqSub(w, d * h', E, E);
  }

  /** Input P, Q over one denominator; output P rescaled and P + Q. */
  method XYcZAdd(X1: Ptr, Y1: Ptr, X2: Ptr, Y2: Ptr, p: Ptr, ghost c: Curve)
    requires Quad(X1, Y1, X2, Y2, p, c)
    modifies X1.buf, Y1.buf, X2.buf, Y2.buf
    ensures Quad(X1, Y1, X2, Y2, p, c)
    ensures Sum(c, old(X1.V()), old(Y1.V()), old(X2.V()), old(Y2.V()), X1.V(), Y1.V(), X2.V(), Y2.V())
  {
    ghost var x1: int, y1: int, x2: int, y2: int := X1.V(), Y1.V(), X2.V(), Y2.V();
    var t5 := NewVli();
    ScaleAbscissas(X1, X2, t5, p, c);
    AddTail(X1, Y1, X2, Y2, t5, p, c, x1, x2);
  }

  /** The steps of the addition after B and C are known. */
  method AddTail(X1: Ptr, Y1: Ptr, X2: Ptr, Y2: Ptr, t5: Ptr, p: Ptr, ghost c: Curve, ghost x1: int, ghost x2: int)
    requires Quad(X1, Y1, X2, Y2, p, c) && t5.Ok() && t5.buf !in {X1.buf, Y1.buf, X2.buf, Y2.buf, p.buf}
    requires c.Eq(X1.V(), x1 * ((x2 - x1) * (x2 - x1))) && c.Eq(X2.V(), x2 * ((x2 - x1) * (x2 - x1)))
    modifies Y1.buf, X2.buf, Y2.buf, t5.buf
    ensures Quad(X1, Y1, X2, Y2, p, c)
    ensures Sum(c, x1, old(Y1.V()), x2, old(Y2.V()), X1.V(), Y1.V(), X2.V(), Y2.V())
  {
    ghost var y1: int, y2: int, B: int, C: int := Y1.V(), Y2.V(), X1.V(), X2.V();
    FSub(Y2, Y2, Y1, p, c);    // y2 - y1
    SquareLess(t5, Y2, X1, X2, p, c, y2 - y1, x2 * ((x2 - x1) * (x2 - x1)));    // x3
    ghost var D := Y2.V();
    ScaleOrdinate(Y1, X1, X2, p, c, x1, x2);
    FSub(X2, X1, t5, p, c);    // B - x3
    LineStep(Y2, X2, Y1, p, c, y2 - y1, B - t5.V());    // y3
    Set(X2, t5);
  }

  /** t := D^2 - B - C */
  method SquareLess(t: Ptr, D: Ptr, B: Ptr, C: Ptr, p: Ptr, ghost c: Curve, ghost d: int, ghost C': int)
    requires IsField(c, p) && t.Ok() && Elem(D, c) && Elem(B, c) && Elem(C, c)
    requires t.buf !in {D.buf, B.buf, C.buf, p.buf}
    requires c.Eq(D.V(), d) && c.Eq(C.V(), C')
    modifies t.buf
    ensures Elem(t, c) && c.Eq(t.V(), d * d - B.V() - C')
  {
    FSquare(t, D, p, c);
    ghost var s := t.V();
    FSub(t, t, B, p, c);
    ghost var u := t.V();
    FSub(t, t, C, p, c);
    AbscissaStep(c, D.V(), d, s, u, B.V(), C.V(), C', t.V());
  }

  /** y := y (C - B), the third power of the gap; C is overwritten by C - B. */
  method ScaleOrdinate(y: Ptr, B: Ptr, C: Ptr, p: Ptr, ghost c: Curve, ghost x1: int, ghost x2: int)
    requires IsField(c, p) && Elem(y, c) && Elem(B, c) && Elem(C, c)
    requires y.buf !in {B.buf, C.buf, p.buf} && C.buf !in {B.buf, p.buf}
    requires c.Eq(B.V(), x1 * ((x2 - x1) * (x2 - x1))) && c.Eq(C.V(), x2 * ((x2 - x1) * (x2 - x1)))
    modifies y.buf, C.buf
    ensures Elem(y, c) && Elem(C, c)
    ensures c.Eq(y.V(), old(y.V()) * ((x2 - x1) * ((x2 - x1) * (x2 - x1))))
  {
    ghost var y1: int, C0: int := y.V(), C.V();
    FSub(C, C, B, p, c);
    FMul(y, y, C, p, c);
    CubedGap(c, x1, y1, x2, B.V(), C0, C.V(), y.V());
  }

  /** D := D h - E, the ordinate of the third point. */
  method LineStep(D: Ptr, h: Ptr, E: Ptr, p: Ptr, ghost c: Curve, ghost d: int, ghost h': int)
    requires IsField(c, p) && Elem(D, c) && Elem(h, c) && Elem(E, c)
    requires D.buf !in {h.buf, E.buf, p.buf}
    requires c.Eq(D.V(), d) && c.Eq(h.V(), h')
    modifies D.buf
    ensures Elem(D, c) && c.Eq(D.V(), d * h' - E.V())
  {
    ghost var D0 := D.V();
    FMul(D, D, h, p, c);
    ghost var w := D.V();
    FSub(D, D, E, p, c);
    OrdinateStep(c, D0, d, h.V(), h', w, E.V(), D.V());
  }

  /** Input P, Q over one denominator; output P - Q and P + Q. */
  method XYcZAddC(X1: Ptr, Y1: Ptr, X2: Ptr, Y2: Ptr, p: Ptr, ghost c: Curve)
    requires Quad(X1, Y1, X2, Y2, p, c)
    modifies X1.buf, Y1.buf, X2.buf, Y2.buf
    ensures Quad(X1, Y1, X2, Y2, p, c)
    ensures Difference(c, old(X1.V()), old(Y1.V()), old(X2.V()), old(Y2.V()), X1.V(), Y1.V())
    ensures exists B, E :: Sum(c, old(X1.V()), old(Y1.V()), old(X2.V()), old(Y2.V()), B, E, X2.V(), Y2.V())
  {
    ghost var x1: int, y1: int, x2: int, y2: int := X1.V(), Y1.V(), X2.V(), Y2.V();
    var t5 := NewVli();
    ScaleAbscissas(X1, X2, t5, p, c);
    AddCTail(X1, Y1, X2, Y2, t5, p, c, x1, x2);
  }

  lemma SumOfAbscissas(c: Curve, B: int, C: int, B': int, C': int, q: int, D: int, d: int, s: int, X3: int)
    requires c.Eq(B, B') && c.Eq(C, C') && c.Eq(q, B + C) && c.Eq(D, d) && c.Eq(s, D * D) && c.Eq(X3, s - q)
    ensures c.Eq(X3, d * d - B - C') && c.Eq(X3, d * d - B' - C')
  {
    c.EqMul(D, d, D, d);
    c.EqAdd(B, B, C, C');
    c.EqAdd(B, B', C, C');
    c.EqSub(s, d * d, q, B + C');
    c.EqSub(s, d * d, q, B' + C');
  }

  /** The conjugate addition after B and C are known. */
  method AddCTail(X1: Ptr, Y1: Ptr, X2: Ptr, Y2: Ptr, t5: Ptr, p: Ptr, ghost c: Curve, ghost x1: int, ghost x2: int)
    requires Quad(X1, Y1, X2, Y2, p, c) && t5.Ok() && t5.buf !in {X1.buf, Y1.buf, X2.buf, Y2.buf, p.buf}
    requires c.Eq(X1.V(), x1 * ((x2 - x1) * (x2 - x1))) && c.Eq(X2.V(), x2 * ((x2 - x1) * (x2 - x1)))
    modifies X1.buf, Y1.buf, X2.buf, Y2.buf, t5.buf
    ensures Quad(X1, Y1, X2, Y2, p, c)
    ensures Difference(c, x1, old(Y1.V()), x2, old(Y2.V()), X1.V(), Y1.V())
    ensures exists B, E :: Sum(c, x1, old(Y1.V()), x2, old(Y2.V()), B, E, X2.V(), Y2.V())
  {
    ghost var y1: int, y2: int, B: int := Y1.V(), Y2.V(), X1.V();
    FAdd(t5, Y2, Y1, p, c);    // y2 + y1
    FSub(Y2, Y2, Y1, p, c);    // y2 - y1
    var t6 := NewVli();
    var t7 := NewVli();
    SumPart(X1, Y1, X2, Y2, t6, t7, p, c, x1, y1, x2, y2);
    ghost var E: int := Y1.V();
    ConjugateTail(X1, Y1, t5, t6, t7, p, c, x1, y1, x2, y2);
    assert Sum(c, x1, y1, x2, y2, B, E, X2.V(), Y2.V());
  }

  /** The sum, with B + C left in t6; Y2 holds y2 - y1 before. */
  method SumPart(X1: Ptr, Y1: Ptr, X2: Ptr, Y2: Ptr, t6: Ptr, t7: Ptr, p: Ptr, ghost c: Curve, ghost x1: int,
                 ghost y1: int, ghost x2: int, ghost y2: int)
    requires Quad(X1, Y1, X2, Y2, p, c) && t6.Ok() && t6.buf !in {X1.buf, Y1.buf, X2.buf, Y2.buf, p.buf}
    requires t7.Ok() && t7.buf !in {X1.buf, Y1.buf, X2.buf, Y2.buf, t6.buf, p.buf}
    requires c.Eq(X1.V(), x1 * ((x2 - x1) * (x2 - x1))) && c.Eq(X2.V(), x2 * ((x2 - x1) * (x2 - x1)))
    requires Y1.V() == y1 && c.Eq(Y2.V(), y2 - y1)
    modifies Y1.buf, X2.buf, Y2.buf, t6.buf, t7.buf
    ensures Quad(X1, Y1, X2, Y2, p, c) && Elem(t6, c)
    ensures Sum(c, x1, y1, x2, y2, X1.V(), Y1.V(), X2.V(), Y2.V())
    ensures c.Eq(t6.V(), X1.V() + x2 * ((x2 - x1) * (x2 - x1)))
  {
    ghost var e, B: int := x2 - x1, X1.V();
    ScaleWithSum(Y1, X1, X2, t6, p, c, x1, x2);    // Y1 = y1 (C - B), t6 = B + C
    SumAbscissa(X2, Y2, t6, p, c, y2 - y1, B, x1 * (e * e), x2 * (e * e));    // x3
    FSub(t7, X1, X2, p, c);    // B - x3
    LineStep(Y2, t7, Y1, p, c, y2 - y1, B - X2.V());    // y3
  }

  /** The last steps: x3' and y3' from F = (y2 + y1)^2. */
  method ConjugateTail(X1: Ptr, Y1: Ptr, t5: Ptr, t6: Ptr, t7: Ptr, p: Ptr, ghost c: Curve,
                       ghost x1: int, ghost y1: int, ghost x2: int, ghost y2: int)
    requires Quad(X1, Y1, t5, t6, p, c) && t7.Ok() && t7.buf !in {X1.buf, Y1.buf, t5.buf, t6.buf, p.buf}
    requires c.Eq(X1.V(), x1 * ((x2 - x1) * (x2 - x1)))
    requires c.Eq(Y1.V(), y1 * ((x2 - x1) * ((x2 - x1) * (x2 - x1))))
    requires c.Eq(t5.V(), y2 + y1)
    requires c.Eq(t6.V(), X1.V() + x2 * ((x2 - x1) * (x2 - x1)))
    modifies X1.buf, Y1.buf, t6.buf, t7.buf
    ensures Elem(X1, c) && Elem(Y1, c)
    ensures Difference(c, x1, y1, x2, y2, X1.V(), Y1.V())
  {
    ghost var e := x2 - x1;
    ghost var B: int, E: int, q: int := X1.V(), Y1.V(), t6.V();
    SumAbscissa(t7, t5, t6, p, c, y2 + y1, B, x1 * (e * e), x2 * (e * e));    // x3'
    FSub(t6, t7, X1, p, c);    // x3' - B
    ghost var h := t6.V();
    FMul(t6, t6, t5, p, c);
    ghost var w := t6.V();
    FSub(Y1, t6, Y1, p, c);    // y3'
    ConjugateOrdinate(c, t5.V(), y2 + y1, h, t7.V(), B, x1 * (e * e), w, E, y1 * (e * (e * e)), Y1.V());
    Set(X1, t7);
  }

  lemma ConjugateOrdinate(c: Curve, S: int, s: int, h: int, X3: int, B: int, B': int, w: int, E: int, E': int, Y3: int)
    requires c.Eq(S, s) && c.Eq(h, X3 - B) && c.Eq(B, B') && c.Eq(w, h * S) && c.Eq(E, E') && c.Eq(Y3, w - E)
    ensures c.Eq(Y3, s * (X3 - B') - E')
  {
    c.EqSub(X3, X3, B, B');
    c.EqMul(h, X3 - B', S, s);
    assert (X3 - B') * s == s * (X3 - B');
    c.EqSub(w, s * (X3 - B'), E, E');
  }

  /** y := y (C - B) and q := B + C. */
  method ScaleWithSum(y: Ptr, B: Ptr, C: Ptr, q: Ptr, p: Ptr, ghost c: Curve, ghost x1: int, ghost x2: int)
    requires IsField(c, p) && Elem(y, c) && Elem(B, c) && Elem(C, c) && q.Ok()
    requires y.buf !in {B.buf, C.buf, p.buf} && q.buf !in {y.buf, B.buf, C.buf, p.buf}
    requires c.Eq(B.V(), x1 * ((x2 - x1) * (x2 - x1))) && c.Eq(C.V(), x2 * ((x2 - x1) * (x2 - x1)))
    modifies y.buf, q.buf
    ensures Elem(y, c) && Elem(q, c)
    ensures c.Eq(y.V(), old(y.V()) * ((x2 - x1) * ((x2 - x1) * (x2 - x1))))
    ensures c.Eq(q.V(), B.V() + x2 * ((x2 - x1) * (x2 - x1)))
  {
    ghost var y1 := y.V();
    FSub(q, C, B, p, c);
    FMul(y, y, q, p, c);
    CubedGap(c, x1, y1, x2, B.V(), C.V(), q.V(), y.V());
    FAdd(q, B, C, p, c);
    c.EqAdd(B.V(), B.V(), C.V(), x2 * ((x2 - x1) * (x2 - x1)));
  }

  /** t := D^2 - q, with q = B + C. */
  method SumAbscissa(t: Ptr, D: Ptr, q: Ptr, p: Ptr, ghost c: Curve, ghost d: int, ghost B: int, ghost B': int,
                     ghost C': int)
    requires IsField(c, p) && t.Ok() && Elem(D, c) && Elem(q, c) && t.buf !in {D.buf, q.buf, p.buf}
    requires c.Eq(D.V(), d) && c.Eq(q.V(), B + C') && c.Eq(B, B')
    modifies t.buf
    ensures Elem(t, c) && c.Eq(t.V(), d * d - B - C') && c.Eq(t.V(), d * d - B' - C')
  {
    FSquare(t, D, p, c);
    ghost var s := t.V();
    FSub(t, t, q, p, c);
    SumOfAbscissas(c, B, C', B', C', q.V(), D.V(), d, s, t.V());
  }

  // ---------- Doubling and change of denominator ----------

  /** (X3, Y3, Z3) is what the doubling formula yields on (X, Y, Z). */
  ghost predicate Doubled(c: Curve, X: int, Y: int, Z: int, X3: int, Y3: int, Z3: int) {
    c.Eq(Z3, Y * Z) && exists B, A, Q :: DoublingBy(c, X, Y, Z, B, A, Q, X3, Y3)
  }

  ghost predicate DoublingBy(c: Curve, X: int, Y: int, Z: int, B: int, A: int, Q: int, X3: int, Y3: int) {
    && c.Eq(2 * B, 3 * (X * X - (Z * Z) * (Z * Z)))
    && c.Eq(A, X * (Y * Y)) && c.Eq(Q, (Y * Y) * (Y * Y))
    && c.Eq(X3, B * B - A - A) && c.Eq(Y3, B * (A - X3) - Q)
  }

  /** X := 3/2 (X^2 - Z^4), written as 3/2 (X + Z^2)(X - Z^2); Z is used up. */
  method TangentSlope(X: Ptr, Z: Ptr, p: Ptr, ghost c: Curve)
    requires IsField(c, p) && Elem(X, c) && Z.Ok() && X.buf != Z.buf && p.buf !in {X.buf, Z.buf}
    modifies X.buf, Z.buf
    ensures Elem(X, c) && Elem(Z, c)
    ensures var x, z := old(X.V()), old(Z.V()); c.Eq(2 * X.V(), 3 * (x * x - (z * z) * (z * z)))
  {
    ghost var x: int, z: int := X.V(), Z.V();
    FourthPowers(X, Z, p, c);
    ghost var t: int := X.V();
    FAdd(Z, X, X, p, c);
    ghost var t2: int := Z.V();
    FAdd(X, X, Z, p, c);      // 3 (x^2 - z^4)
    ghost var t3: int := X.V();
    FHalve(X, p, c);
    Tripled(c, t, x * x - (z * z) * (z * z), t2, t3);
  }

  lemma Tripled(c: Curve, t: int, u: int, t2: int, t3: int)
    requires c.Eq(t, u) && c.Eq(t2, t + t) && c.Eq(t3, t + t2)
    ensures c.Eq(t3, 3 * u)
  {
    c.EqAdd(t, u, t, u);
    var w := u + u;
    assert c.Eq(t2, w);
    c.EqAdd(t, u, t2, w);
    var v := u + w;
    assert c.Eq(t3, v);
    assert v == 3 * u;
  }

  /** X := X^2 - Z^4, written as (X + Z^2)(X - Z^2). */
  method FourthPowers(X: Ptr, Z: Ptr, p: Ptr, ghost c: Curve)
    requires IsField(c, p) && Elem(X, c) && Z.Ok() && X.buf != Z.buf && p.buf !in {X.buf, Z.buf}
    modifies X.buf, Z.buf
    ensures Elem(X, c) && Elem(Z, c)
    ensures var x, z := old(X.V()), old(Z.V()); c.Eq(X.V(), x * x - (z * z) * (z * z))
  {
    ghost var x: int, z: int := X.V(), Z.V();
    FSquare(Z, Z, p, c);      // z^2
    ghost var w: int := Z.V();
    FAdd(X, X, Z, p, c);      // x + z^2
    ghost var s: int := X.V();
    FAdd(Z, Z, Z, p, c);      // 2 z^2
    ghost var w2: int := Z.V();
    FSub(Z, X, Z, p, c);      // x - z^2
    ghost var d: int := Z.V();
    FMul(X, X, Z, p, c);      // x^2 - z^4
    SlopeSteps(c, x, z, w, s, w2, d, X.V());
  }

  lemma SlopeSteps(c: Curve, x: int, z: int, w: int, s: int, w2: int, d: int, t: int)
    requires c.Eq(w, z * z) && c.Eq(s, x + w) && c.Eq(w2, w + w) && c.Eq(d, s - w2) && c.Eq(t, s * d)
    ensures c.Eq(t, x * x - (z * z) * (z * z))
  {
    var zz := z * z;
    c.EqAdd(x, x, w, zz);
    c.EqAdd(w, zz, w, zz);
    c.EqSub(s, x + zz, w2, zz + zz);
    c.EqMul(s, x + zz, d, x - zz);
    DifferenceOfSquares(x, zz);
  }

  lemma DifferenceOfSquares(a: int, b: int)
    ensures (a + b) * (a - b) == a * a - b * b
  {
  }

  /** a := x y^2 and q := y^4 */
  method TangentPowers(x: Ptr, y: Ptr, q: Ptr, a: Ptr, p: Ptr, ghost c: Curve)
    requires IsField(c, p) && Elem(x, c) && Elem(y, c) && q.Ok() && a.Ok()
    requires q.buf !in {x.buf, y.buf, a.buf, p.buf} && a.buf !in {x.buf, y.buf, p.buf}
    modifies q.buf, a.buf
    ensures Elem(q, c) && Elem(a, c)
    ensures c.Eq(a.V(), x.V() * (y.V() * y.V())) && c.Eq(q.V(), (y.V() * y.V()) * (y.V() * y.V()))
  {
    FSquare(q, y, p, c);
    ghost var s: int := q.V();
    FMul(a, x, q, p, c);
    FSquare(q, q, p, c);
    c.EqMul(x.V(), x.V(), s, y.V() * y.V());
    c.EqMul(s, y.V() * y.V(), s, y.V() * y.V());
  }

  /** Doubling in place; a zero Z (the point at infinity) is left alone. Z need not be reduced. */
  method EccPointDoubleJacobian(X1: Ptr, Y1: Ptr, Z1: Ptr, p: Ptr, ghost c: Curve)
    requires IsField(c, p) && Elem(X1, c) && Elem(Y1, c) && Z1.Ok()
    requires X1.buf != Y1.buf && X1.buf != Z1.buf && Y1.buf != Z1.buf && p.buf !in {X1.buf, Y1.buf, Z1.buf}
    modifies X1.buf, Y1.buf, Z1.buf
    ensures Elem(X1, c) && Elem(Y1, c) && Z1.Ok() && (old(Z1.V()) != 0 ==> Elem(Z1, c))
    ensures old(Z1.V()) == 0 ==> X1.V() == old(X1.V()) && Y1.V() == old(Y1.V()) && Z1.V() == 0
    ensures old(Z1.V()) != 0 ==>
      Doubled(c, old(X1.V()), old(Y1.V()), old(Z1.V()), X1.V(), Y1.V(), Z1.V())
  {
    ghost var x: int, y: int, z: int := X1.V(), Y1.V(), Z1.V();
    var t4 := NewVli();
    var t5 := NewVli();
    var infinite := IsZero(Z1);
    if infinite {
      return;
    }
    TangentPowers(X1, Y1, t4, t5, p, c);
    FMul(Y1, Y1, Z1, p, c);    // z3
    TangentSlope(X1, Z1, p, c);
    DoubleTail(X1, Y1, Z1, t4, t5, p, c, x, y, z);
  }

  method DoubleTail(X1: Ptr, Y1: Ptr, Z1: Ptr, t4: Ptr, t5: Ptr, p: Ptr, ghost c: Curve, ghost x: int, ghost y: int,
                    ghost z: int)
    requires Quad(X1, Z1, t4, t5, p, c) && Elem(Y1, c) && Y1.buf !in {X1.buf, Z1.buf, t4.buf, t5.buf, p.buf}
    requires c.Eq(2 * X1.V(), 3 * (x * x - (z * z) * (z * z)))
    requires c.Eq(t5.V(), x * (y * y)) && c.Eq(t4.V(), (y * y) * (y * y)) && c.Eq(Y1.V(), y * z)
    modifies X1.buf, Y1.buf, Z1.buf, t4.buf, t5.buf
    ensures Elem(X1, c) && Elem(Y1, c) && Elem(Z1, c)
    ensures Doubled(c, x, y, z, X1.V(), Y1.V(), Z1.V())
  {
    ghost var B: int, A: int, Q: int := X1.V(), t5.V(), t4.V();
    SquareLess(Z1, X1, t5, t5, p, c, B, A);    // x3
    ghost var x3: int := Z1.V();
    FSub(t5, t5, Z1, p, c);    // A - x3
    TangentOrdinate(X1, t5, t4, p, c, A - x3);    // y3
    DoubledIntro(c, x, y, z, B, A, Q, x3, t4.V(), Y1.V());
    Set(X1, Z1);
    Set(Z1, Y1);
    Set(Y1, t4);
  }

  lemma DoubledIntro(c: Curve, x: int, y: int, z: int, B: int, A: int, Q: int, x3: int, y3: int, z3: int)
    requires c.Eq(z3, y * z) && DoublingBy(c, x, y, z, B, A, Q, x3, y3)
    ensures Doubled(c, x, y, z, x3, y3, z3)
  {
  }

  /** q := B h - q; B is overwritten. */
  method TangentOrdinate(B: Ptr, h: Ptr, q: Ptr, p: Ptr, ghost c: Curve, ghost h': int)
    requires IsField(c, p) && Elem(B, c) && Elem(h, c) && Elem(q, c) && c.Eq(h.V(), h')
    requires B.buf !in {h.buf, q.buf, p.buf} && q.buf !in {h.buf, p.buf}
    modifies B.buf, q.buf
    ensures Elem(B, c) && Elem(q, c) && c.Eq(q.V(), old(B.V()) * h' - old(q.V()))
  {
    ghost var b: int, Q: int := B.V(), q.V();
    FMul(B, B, h, p, c);
    ghost var w: int := B.V();
    FSub(q, B, q, p, c);
    OrdinateStep(c, b, b, h.V(), h', w, Q, q.V());
  }

  /** (X, Y) := (X z^2, Y z^3) */
  method ApplyZ(X: Ptr, Y: Ptr, Z: Ptr, p: Ptr, ghost c: Curve)
    requires IsField(c, p) && Elem(X, c) && Elem(Y, c) && Z.Ok()
    requires X.buf != Y.buf && X.buf != Z.buf && Y.buf != Z.buf && p.buf !in {X.buf, Y.buf}
    modifies X.buf, Y.buf
    ensures Elem(X, c) && Elem(Y, c)
    ensures c.Eq(X.V(), old(X.V()) * (Z.V() * Z.V())) && c.Eq(Y.V(), old(Y.V()) * (Z.V() * (Z.V() * Z.V())))
  {
    ghost var x: int, y: int, z: int := X.V(), Y.V(), Z.V();
    var t1 := NewVli();
    FSquare(t1, Z, p, c);
    ghost var s: int := t1.V();
    FMul(X, X, t1, p, c);
    FMul(t1, t1, Z, p, c);
    ghost var u: int := t1.V();
    FMul(Y, Y, t1, p, c);
    ApplySteps(c, x, y, z, s, u);
  }

  lemma ApplySteps(c: Curve, x: int, y: int, z: int, s: int, u: int)
    requires c.Eq(s, z * z) && c.Eq(u, s * z)
    ensures c.Eq(x * s, x * (z * z)) && c.Eq(y * u, y * (z * (z * z)))
  {
    c.EqMul(x, x, s, z * z);
    c.EqMul(s, z * z, z, z);
    assert (z * z) * z == z * (z * z);
    c.EqMul(y, y, u, z * (z * z));
  }
}
