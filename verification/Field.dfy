/**
  Arithmetic in the P-256 field on four-digit integers. The contracts are congruences
  modulo the prime p points to, which stays symbolic.
 */
module Field {
  import opened Words
  import opened Vli
  import opened VliReduce
  import opened VliMod
  import opened Congruence
  import opened Curves

  /** p points to the P-256 prime, the modulus of c. */
  ghost predicate IsField(c: Curve, p: Ptr)
    reads p.buf
  {
    p.Ok() && IsP256(c.modulus) && p.V() == c.modulus
  }

  /** x holds a reduced field element. */
  ghost predicate Elem(x: Ptr, c: Curve)
    reads x.buf
  {
    x.Ok() && x.V() < c.modulus
  }

  method FAdd(r: Ptr, x: Ptr, y: Ptr, p: Ptr, ghost c: Curve)
    requires IsField(c, p) && r.Ok() && Elem(x, c) && Elem(y, c)
    requires SameOrApart(r, x) && SameOrApart(r, y) && r.buf != p.buf
    modifies r.buf
    ensures Elem(r, c) && c.Eq(r.V(), old(x.V()) + old(y.V())) && OnlyWindow(r)
  {
    ReducedSum(x.V(), y.V(), p.V());
    CongMod(x.V() + y.V(), p.V());
    ModAdd(r, x, y, p);
  }

  method FSub(r: Ptr, x: Ptr, y: Ptr, p: Ptr, ghost c: Curve)
    requires IsField(c, p) && r.Ok() && Elem(x, c) && Elem(y, c)
    requires SameOrApart(r, x) && SameOrApart(r, y) && r.buf != p.buf
    modifies r.buf
    ensures Elem(r, c) && c.Eq(r.V(), old(x.V()) - old(y.V())) && OnlyWindow(r)
  {
    ReducedSum(x.V(), y.V(), p.V());
    CongMod(x.V() - y.V(), p.V());
    ModSub(r, x, y, p);
  }

  method FMul(r: Ptr, x: Ptr, y: Ptr, p: Ptr, ghost c: Curve)
    requires IsField(c, p) && r.Ok() && x.Ok() && y.Ok() && r.buf != p.buf
    modifies r.buf
    ensures Elem(r, c) && c.Eq(r.V(), old(x.V()) * old(y.V())) && OnlyWindow(r)
  {
    P256Shape(c.modulus);
    CongMod(x.V() * y.V(), p.V());
    ModMultFast(r, x, y, p);
  }

  method FSquare(r: Ptr, x: Ptr, p: Ptr, ghost c: Curve)
    requires IsField(c, p) && r.Ok() && x.Ok() && r.buf != p.buf
    modifies r.buf
    ensures Elem(r, c) && c.Eq(r.V(), old(x.V()) * old(x.V())) && OnlyWindow(r)
  {
    P256Shape(c.modulus);
    CongMod(x.V() * x.V(), p.V());
    ModSquareFast(r, x, p);
  }

  /** x := x / 2: an odd number is made even by adding the prime, the carry becoming the top bit. */
  method FHalve(x: Ptr, p: Ptr, ghost c: Curve)
    requires IsField(c, p) && Elem(x, c) && x.buf != p.buf
    modifies x.buf
    ensures Elem(x, c) && c.Eq(2 * x.V(), old(x.V())) && OnlyWindow(x)
  {
    ghost var v := x.V();
    P256Shape(c.modulus);
    HalveMod(x, p);
    HalfElement(x.V(), v, c.modulus);
  }

  lemma HalfElement(h: int, v: int, m: int)
    requires 0 <= v < m && 2 * h == v + (if v % 2 == 1 then m else 0)
    ensures h < m && Cong(2 * h, v, m)
  {
    if v % 2 == 1 {
      CongIntro(2 * h, v, 1, m);
    }
  }

  // ---------- The coefficient ----------

  /** The coefficient b of P-256. */
  const B256: int := 0x5AC635D8_AA3A93E7_B3EBBD55_769886BC_651D06B0_CC53B0F6_3BCE3C3E_27D2604B

  ghost predicate IsCoefficient(v: int) {
    forall k: nat {:trigger Shown(k)} :: Shown(k) ==> v == B256
  }

  /** The origin is not a point of the curve. */
  lemma OriginOffCurve(c: Curve)
    requires IsP256(c.modulus) && IsCoefficient(c.coefB)
    ensures c.modulus > 0 && !c.OnCurve(Affine(0, 0))
  {
    assert Shown(0) && 0 < c.coefB < c.modulus;
    ZeroResidue(c.coefB, c.modulus);
  }

  lemma ZeroResidue(v: int, m: int)
    requires 0 < v < m
    ensures !Cong(0, v, m)
  {
    DivModUnique(v, m, 0, v);
    DivModUnique(0, m, 0, 0);
  }
}
