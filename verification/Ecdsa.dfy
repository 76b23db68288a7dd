/**
  ECDSA over P-256 (section 6.4 of FIPS 186-4): the scalar arithmetic of signing, the
  simultaneous double-and-add of verification, and the round trip between them.
 */
module Ecdsa {
  import opened Words
  import opened Vli
  import opened VliReduce
  import opened VliMod
  import opened VliModMult
  import opened Congruence
  import opened Curves
  import opened Field
  import opened PointOps
  import opened Ladder
  import opened Shamir
  import opened Options

  /** The order of the base point, a symbol to every proof: odd and of full bit length. */
  const ORDER: int := 0xFFFFFFFF_00000000_FFFFFFFF_FFFFFFFF_BCE6FAAD_A7179E84_F3B9CAC2_FC632551

  ghost predicate IsOrder(n: int) {
    forall k: nat {:trigger Shown(k)} :: Shown(k) ==> n == ORDER
  }

  lemma OrderShape(n: int)
    requires IsOrder(n)
    ensures TWO256 / 2 <= n < TWO256 && n % 2 == 1
  {
    assert Shown(0);
  }

  /** Every 256-bit scalar is one the multiplication works with. */
  lemma ScalarsBelowTwiceOrder(n: int)
    requires IsOrder(n)
    ensures TWO256 <= 2 * n - 2
  {
    assert Shown(0);
  }

  /** The prime is less than twice the order, so one subtraction reduces an abscissa. */
  lemma PrimeBelowTwiceOrder(p: int, n: int)
    requires IsP256(p) && IsOrder(n)
    ensures n < p < 2 * n
  {
    assert Shown(0);
  }

  // ---------- Scalars ----------

  lemma FullLength(n: nat)
    requires TWO256 / 2 <= n < TWO256
    ensures BitLen(n) == 256
  {
    Pow2Of256();
    assert Pow2(256) == 2 * Pow2(255);
    BitLenUnique(n, 256);
  }

  lemma AtMost512(x: nat, y: nat)
    requires x < TWO256 && y < TWO256
    ensures x * y >= 0 && BitLen(x * y) <= 512
  {
    MulNonneg(x, y);
    MulStep(x, y, TWO256);
    MulMono(TWO256, x, TWO256);
    Pow2Of256();
    Pow2Double(256, TWO256);
    if BitLen(x * y) > 512 {
      Pow2Monotone(512, BitLen(x * y) - 1);
      assert false;
    }
  }

  /** Modular multiplication by the order: the shifted modulus always fits. */
  method MulOrder(r: Ptr, x: Ptr, y: Ptr, n: Ptr)
    requires r.Ok() && x.Ok() && y.Ok() && n.Ok() && r.buf != n.buf && IsOrder(n.V())
    modifies r.buf
    ensures n.V() > 0 && r.V() < n.V() && Cong(r.V(), old(x.V()) * old(y.V()), n.V()) && OnlyWindow(r)
  {
    OrderShape(n.V());
    FullLength(n.V());
    AtMost512(x.V(), y.V());
    CongMod(x.V() * y.V(), n.V());
    ModMult(r, x, y, n);
  }

  /** r is an inverse of x modulo m. */
  ghost predicate IsInverse(r: int, x: int, m: int) {
    m > 0 && Cong(r * x, 1, m)
  }

  method InvOrder(r: Ptr, x: Ptr, n: Ptr)
    requires r.Ok() && x.Ok() && n.Ok() && IsOrder(n.V()) && (x.V() != 0 ==> Coprime(x.V(), n.V()))
    modifies r.buf
    ensures old(x.V()) != 0 ==> IsInverse(r.V(), old(x.V()), old(n.V()))
    ensures old(x.V()) == 0 ==> r.V() == 0
    ensures OnlyWindow(r)
  {
    OrderShape(n.V());
    ghost var v, m := x.V(), n.V();
    ModInv(r, x, n);
    if v != 0 {
      ghost var g :| IsGcd(g, v, m) && Cofactor(r.V(), g, v, m);
      assert Common(g, v, m);
    }
  }

  /**
    s := (e + r d) / k, as ecdsa_sign computes it; the hash e need not be below the order. A nonce of 0 has no
    inverse, and gives 0.
   */
  method SignScalar(s: Ptr, r: Ptr, d: Ptr, e: Ptr, k: Ptr, n: Ptr)
    requires s.Ok() && r.Ok() && d.Ok() && e.Ok() && k.Ok() && n.Ok() && IsOrder(n.V())
    requires s.buf !in {r.buf, d.buf, e.buf, k.buf, n.buf} && k.buf !in {r.buf, d.buf, e.buf, n.buf}
    requires k.V() != 0 ==> Coprime(k.V(), n.V())
    modifies s.buf, k.buf
    ensures n.V() > 0 && s.V() < n.V()
    ensures old(k.V()) != 0 ==> Cong(s.V() * old(k.V()), e.V() + r.V() * d.V(), n.V())
    ensures old(k.V()) == 0 ==> s.V() == 0
  {
    ghost var k0: int, m: int := k.V(), n.V();
    OrderShape(n.V());
    MulOrder(s, r, d, n);
    ghost var rd: int := s.V();
    ModAdd(s, e, s, n);
    ghost var sum: int := s.V();
    InvOrder(k, k, n);
    ghost var i: int := k.V();
    MulOrder(s, s, k, n);
    if k0 == 0 {
      ZeroTimes(sum, i, s.V(), m);
    } else {
      SignSteps(m, r.V(), d.V(), e.V(), rd, sum, i, k0, s.V());
    }
  }

  lemma ZeroTimes(sum: int, i: int, s: nat, n: int)
    requires n > 0 && i == 0 && s < n && Cong(s, sum * i, n)
    ensures s == 0
  {
    assert sum * i == 0;
    CongSmall(s, 0, n);
    DivModUnique(0, n, 0, 0);
  }

  lemma SignSteps(n: int, r: int, d: int, e: int, rd: int, sum: int, i: int, k: int, s: int)
    requires n > 0 && Cong(rd, r * d, n) && (sum == e + rd || sum == e + rd - n)
    requires IsInverse(i, k, n) && Cong(s, sum * i, n)
    ensures Cong(s * k, e + r * d, n)
  {
    CongIntro(sum, e + rd, if sum == e + rd then 0 else -1, n);
    CongAdd(e, e, rd, r * d, n);
    CongMul(s, sum * i, k, k, n);
    CongMul(sum, sum, i * k, 1, n);
    assert (sum * i) * k == sum * (i * k);
  }

  /** u1 := e / s and u2 := r / s, as ecdsa_verify computes them. */
  method VerifyScalars(u1: Ptr, u2: Ptr, e: Ptr, r: Ptr, s: Ptr, n: Ptr)
    requires u1.Ok() && u2.Ok() && e.Ok() && r.Ok() && s.Ok() && n.Ok() && IsOrder(n.V())
    requires u1.buf !in {u2.buf, e.buf, r.buf, s.buf, n.buf} && u2.buf !in {e.buf, r.buf, s.buf, n.buf}
    requires s.V() != 0 && Coprime(s.V(), n.V())
    modifies u1.buf, u2.buf
    ensures Scalars(u1.V(), u2.V(), e.V(), r.V(), s.V(), n.V())
    ensures exists z :: IsInverse(z, s.V(), n.V())
  {
    var z := NewVli();
    InvOrder(z, s, n);
    MulOrder(u1, e, z, n);
    MulOrder(u2, r, z, n);
    QuotientSteps(n.V(), e.V(), z.V(), s.V(), u1.V());
    QuotientSteps(n.V(), r.V(), z.V(), s.V(), u2.V());
  }

  lemma QuotientSteps(n: int, e: int, z: int, s: int, u: int)
    requires IsInverse(z, s, n) && Cong(u, e * z, n)
    ensures Cong(u * s, e, n)
  {
    CongMul(u, e * z, s, s, n);
    CongMul(e, e, z * s, 1, n);
    assert (e * z) * s == e * (z * s);
  }

  /** Cancellation of a factor that has an inverse. */
  lemma CancelUnit(a: int, b: int, s: int, z: int, n: int)
    requires IsInverse(z, s, n) && Cong(a * s, b * s, n)
    ensures Cong(a, b, n)
  {
    CongMul(a * s, b * s, z, z, n);
    CongMul(z * s, 1, a, a, n);
    CongMul(z * s, 1, b, b, n);
    assert (a * s) * z == (z * s) * a && (b * s) * z == (z * s) * b;
  }

  /** The scalars of verification recombine to the nonce: u1 + u2 d = k modulo n. */
  lemma NonceRecovered(n: int, d: int, e: int, r: int, k: int, s: int, z: int, u1: int, u2: int)
    requires n > 0 && Cong(s * k, e + r * d, n) && IsInverse(z, s, n)
    requires Cong(u1 * s, e, n) && Cong(u2 * s, r, n)
    ensures Cong(u1 + u2 * d, k, n)
  {
    CongMul(u2 * s, r, d, d, n);
    CongAdd(u1 * s, e, (u2 * s) * d, r * d, n);
    assert (u1 + u2 * d) * s == u1 * s + (u2 * s) * d;
    assert k * s == s * k;
    CancelUnit(u1 + u2 * d, k, s, z, n);
  }

  // ---------- Verification ----------

  /** u1 and u2 are the scalars of verification, as determined by the hash and the signature. */
  ghost predicate Scalars(u1: nat, u2: nat, e: int, r: int, s: int, n: int) {
    n > 0 && u1 < n && u2 < n && Cong(u1 * s, e, n) && Cong(u2 * s, r, n)
  }

  lemma ScalarsUnique(u1: nat, u2: nat, v1: nat, v2: nat, e: int, r: int, s: int, n: int, z: int)
    requires Scalars(u1, u2, e, r, s, n) && Scalars(v1, v2, e, r, s, n) && IsInverse(z, s, n)
    ensures u1 == v1 && u2 == v2
  {
    CancelUnit(u1, v1, s, z, n);
    CancelUnit(u2, v2, s, z, n);
    CongSmall(u1, v1, n);
    CongSmall(v1, v1, n);
    CongSmall(u2, v2, n);
    CongSmall(v2, v2, n);
  }

  /** The acceptance condition of section 6.4.2 of FIPS 186-4. */
  ghost predicate Accepts(c: Curve, n: int, e: int, r: int, s: int, G: Point, Q: Point)
    requires c.modulus > 0
  {
    && 0 < r < n && 0 < s < n
    && exists u1: nat, u2: nat :: Scalars(u1, u2, e, r, s, n) && AbscissaIs(Lin(c, u1, u2, G, Q), r, n)
  }

  ghost predicate AbscissaIs(S: Point, r: int, n: int) {
    n > 0 && S.Affine? && S.x % n == r
  }

  /** x mod n for a field element x, by at most one subtraction. */
  method ReduceAbscissa(x: Ptr, n: Ptr, ghost c: Curve)
    requires x.Ok() && n.Ok() && x.buf != n.buf && IsOrder(n.V()) && IsP256(c.modulus) && x.V() < c.modulus
    modifies x.buf
    ensures n.V() > 0 && x.V() == old(x.V()) % n.V() && OnlyWindow(x)
  {
    PrimeBelowTwiceOrder(c.modulus, n.V());
    ghost var v := x.V();
    var order := Cmp(n, x);
    if order != 1 {
      var _ := Sub(x, x, n);
    }
    DivModUnique(v, n.V(), if v >= n.V() then 1 else 0, x.V());
  }

  /** r and s are nonzero and below the order. */
  method InRange(r: Ptr, s: Ptr, n: Ptr) returns (ok: bool)
    requires r.Ok() && s.Ok() && n.Ok()
    ensures ok <==> 0 < r.V() < n.V() && 0 < s.V() < n.V()
  {
    var zeroR := IsZero(r);
    var zeroS := IsZero(s);
    if zeroR || zeroS {
      return false;
    }
    var orderR := Cmp(n, r);
    var orderS := Cmp(n, s);
    ok := orderR == 1 && orderS == 1;
  }

  /** What ecdsa_verify tests: the abscissa of the value that its loop computes, instead of that of the combination. */
  ghost predicate Verifies(c: Curve, n: int, e: int, r: int, s: int, G: Point, Q: Point)
    requires TwoPoints(c, G, Q)
  {
    && 0 < r < n && 0 < s < n
    && exists u1: nat, u2: nat :: Scalars(u1, u2, e, r, s, n) && AbscissaIs(ShamirValue(c, u1, u2, G, Q), r, n)
  }

  /** u2 is not zero, because r is not. */
  lemma SecondScalarPositive(u1: nat, u2: nat, e: int, r: int, s: int, n: int)
    requires Scalars(u1, u2, e, r, s, n) && 0 < r < n
    ensures u2 > 0
  {
    if u2 == 0 {
      assert u2 * s == 0;
      CongSmall(r, 0, n);
      DivModUnique(0, n, 0, 0);
    }
  }

  /** ecdsa_verify from the decoded numbers on, for any hash, any r and s, and any key with reduced coordinates. */
  method EcdsaVerify(e: Ptr, r: Ptr, s: Ptr, gx: Ptr, gy: Ptr, qx: Ptr, qy: Ptr, p: Ptr, n: Ptr,
                     ghost c: Curve, ghost G: Point, ghost Q: Point)
    returns (ok: bool)
    requires c.PrimeField() && IsField(c, p) && n.Ok() && IsOrder(n.V()) && PrimeOrder(n.V())
    requires e.Ok() && r.Ok() && s.Ok() && Holder(gx, gy, c, G) && Holder(qx, qy, c, Q)
    ensures TwoPoints(c, G, Q) && (ok <==> Verifies(c, n.V(), e.V(), r.V(), s.V(), G, Q))
  {
    ok := InRange(r, s, n);
    if !ok {
      return;
    }
    var u1 := NewVli();
    var u2 := NewVli();
    VerifyScalars(u1, u2, e, r, s, n);
    SecondScalarPositive(u1.V(), u2.V(), e.V(), r.V(), s.V(), n.V());
    var t := SumTable(gx, gy, qx, qy, p, c, G, Q);
    ok := CheckAbscissa(u1, u2, r, t, p, n, c, G, Q);
    VerifiedBy(c, n.V(), e.V(), r.V(), s.V(), G, Q, u1.V(), u2.V());
  }

  lemma VerifiedBy(c: Curve, n: int, e: int, r: int, s: int, G: Point, Q: Point, u1: nat, u2: nat)
    requires TwoPoints(c, G, Q) && 0 < r < n && 0 < s < n && Scalars(u1, u2, e, r, s, n)
    requires exists z :: IsInverse(z, s, n)
    ensures Verifies(c, n, e, r, s, G, Q) <==> AbscissaIs(ShamirValue(c, u1, u2, G, Q), r, n)
  {
    var z :| IsInverse(z, s, n);
    if Verifies(c, n, e, r, s, G, Q) {
      var v1: nat, v2: nat :| Scalars(v1, v2, e, r, s, n) && AbscissaIs(ShamirValue(c, v1, v2, G, Q), r, n);
      ScalarsUnique(u1, u2, v1, v2, e, r, s, n, z);
    }
  }

  lemma AcceptedBy(c: Curve, n: int, e: int, r: int, s: int, G: Point, Q: Point, u1: nat, u2: nat)
    requires c.modulus > 0 && 0 < r < n && 0 < s < n && Scalars(u1, u2, e, r, s, n)
    requires exists z :: IsInverse(z, s, n)
    ensures Accepts(c, n, e, r, s, G, Q) <==> AbscissaIs(Lin(c, u1, u2, G, Q), r, n)
  {
    var z :| IsInverse(z, s, n);
    if Accepts(c, n, e, r, s, G, Q) {
      var v1: nat, v2: nat :| Scalars(v1, v2, e, r, s, n) && AbscissaIs(Lin(c, v1, v2, G, Q), r, n);
      ScalarsUnique(u1, u2, v1, v2, e, r, s, n, z);
    }
  }

  /** The abscissa of the value of the loop is r modulo the order. */
  method CheckAbscissa(u1: Ptr, u2: Ptr, r: Ptr, t: Table, p: Ptr, n: Ptr, ghost c: Curve, ghost G: Point,
                       ghost Q: Point)
    returns (ok: bool)
    requires c.PrimeField() && IsField(c, p) && n.Ok() && IsOrder(n.V()) && u1.Ok() && u2.Ok() && r.Ok()
    requires TableOk(t, c, G, Q) && (u1.V() > 0 || u2.V() > 0) && r.V() > 0
    ensures ok <==> AbscissaIs(ShamirValue(c, u1.V(), u2.V(), G, Q), r.V(), n.V())
  {
    var rx := NewVli();
    var ry := NewVli();
    ShamirMult(rx, ry, u1, u2, t, p, c, G, Q);
    ReduceAbscissa(rx, n, c);
    var order := Cmp(rx, r);
    ok := order == 0;
    OrderShape(n.V());
    DivModUnique(0, n.V(), 0, 0);
  }

  /**
    ecdsa_verify against the standard: it accepts exactly what the standard accepts and its loop gets through without
    an exceptional round, if no bit needs the sum of two points with one abscissa.
   */
  lemma VerifiesExactly(c: Curve, n: int, e: int, r: int, s: int, G: Point, Q: Point, u1: nat, u2: nat)
    requires Group(c, G, Q) && TwoPoints(c, G, Q) && 0 < n <= TWO256 && 0 < r < n && 0 < s < n
    requires Scalars(u1, u2, e, r, s, n) && (exists z :: IsInverse(z, s, n))
    requires forall i: nat :: EntryUsable(u1, u2, i, G, Q)
    ensures Verifies(c, n, e, r, s, G, Q) <==> Accepts(c, n, e, r, s, G, Q) && ShamirSafe(c, u1, u2, G, Q)
  {
    SecondScalarPositive(u1, u2, e, r, s, n);
    JointLengthOf(u1, u2);
    ShamirValueExactly(c, u1, u2, JointBits(u1, u2), G, Q);
    VerifiedBy(c, n, e, r, s, G, Q, u1, u2);
    AcceptedBy(c, n, e, r, s, G, Q, u1, u2);
  }

  /** For a key that is neither the base point nor its mirror image, nothing is accepted that the standard refuses. */
  lemma VerifiesSoundly(c: Curve, n: int, e: int, r: int, s: int, G: Point, Q: Point)
    requires Group(c, G, Q) && TwoPoints(c, G, Q) && 0 < n <= TWO256 && PrimeOrder(n) && G.x != Q.x
    ensures Verifies(c, n, e, r, s, G, Q) ==> Accepts(c, n, e, r, s, G, Q)
  {
    if Verifies(c, n, e, r, s, G, Q) {
      var u1: nat, u2: nat :| Scalars(u1, u2, e, r, s, n) && AbscissaIs(ShamirValue(c, u1, u2, G, Q), r, n);
      HasInverse(s, n);
      AllUsable(u1, u2, G, Q);
      VerifiesExactly(c, n, e, r, s, G, Q, u1, u2);
    }
  }

  lemma AllUsable(u1: nat, u2: nat, G: Point, Q: Point)
    requires G.Affine? && Q.Affine? && G.x != Q.x
    ensures forall i: nat :: EntryUsable(u1, u2, i, G, Q)
  {
  }

  // ---------- Signing ----------

  /** The nonce modulo the order; any 256-bit number is below twice the order. */
  method ReduceNonce(k: Ptr, n: Ptr)
    requires k.Ok() && n.Ok() && k.buf != n.buf && IsOrder(n.V())
    modifies k.buf
    ensures n.V() > 0 && k.V() == old(k.V()) % n.V() && OnlyWindow(k)
  {
    OrderShape(n.V());
    ghost var v := k.V();
    var order := Cmp(n, k);
    if order != 1 {
      var _ := Sub(k, k, n);
    }
    DivModUnique(v, n.V(), if v >= n.V() then 1 else 0, k.V());
  }

  /**
    One attempt of ecdsa_sign with a given nonce, not 0. With the nonce k modulo the order, r is the abscissa of the
    point that EccPointMult returns for k, modulo the order; the attempt fails when that is 0. Otherwise s satisfies
    s k = e + r d modulo the order, and is 0 exactly when e + r d is; for the nonce n, reduced to 0, s is 0.
   */
  method EcdsaSign(r: Ptr, s: Ptr, k: Ptr, d: Ptr, e: Ptr, gx: Ptr, gy: Ptr, p: Ptr, n: Ptr, ghost c: Curve,
                   ghost G: Point)
    returns (done: bool)
    requires IsField(c, p) && n.Ok() && IsOrder(n.V()) && r.Ok() && s.Ok() && k.Ok() && d.Ok() && e.Ok()
    requires r.buf !in {k.buf, d.buf, e.buf, p.buf, n.buf} && s.buf !in {r.buf, k.buf, d.buf, e.buf, n.buf}
    requires k.buf !in {d.buf, e.buf, gx.buf, gy.buf, p.buf, n.buf}
    requires Elem(gx, c) && Elem(gy, c) && Setting(c, G) && G == Affine(gx.V(), gy.V())
    requires HasOrder(c, G, n.V()) && PrimeOrder(n.V()) && k.V() != 0
    modifies r.buf, s.buf, k.buf
    ensures n.V() > 0 && AbscissaIs(LadderValue(c, old(k.V()) % n.V(), G), r.V(), n.V())
    ensures done <==> r.V() != 0
    ensures done ==> s.V() < n.V() && SigningHolds(old(k.V()) % n.V(), s.V(), e.V(), r.V(), d.V(), n.V())
  {
    OrderShape(n.V());
    ReduceNonce(k, n);
    ghost var k1: nat := k.V();
    Abscissa(r, k, gx, gy, p, n, c, G);
    var zero := IsZero(r);
    if zero {
      return false;
    }
    SignScalar(s, r, d, e, k, n);
    if k1 != 0 {
      ZeroSignature(n.V(), e.V() + r.V() * d.V(), k1, s.V());
    }
    done := true;
  }

  /** What a signing attempt makes of the reduced nonce k. */
  ghost predicate SigningHolds(k: int, s: int, e: int, r: int, d: int, n: int) {
    && n > 0
    && (k != 0 ==> Cong(s * k, e + r * d, n) && (s == 0 <==> Cong(e + r * d, 0, n)))
    && (k == 0 ==> s == 0)
  }

  /** Every number between 0 and n is coprime to n; the assumption that the order is prime, as the proofs use it. */
  ghost predicate PrimeOrder(n: int) {
    forall x :: 0 < x < n ==> Coprime(x, n)
  }

  /** The second half of a signature is 0 exactly when what it is to be divided by the nonce is. */
  lemma ZeroSignature(n: int, v: int, k: nat, s: nat)
    requires 0 < k < n && s < n && Coprime(k, n) && Cong(s * k, v, n)
    ensures s == 0 <==> Cong(v, 0, n)
  {
    assert 0 * k == 0;
    if Cong(v, 0, n) {
      var z := CoprimeInverse(k, n);
      CancelUnit(s, 0, k, z, n);
      CongSmall(s, 0, n);
      DivModUnique(0, n, 0, 0);
    }
  }

  /** r := the abscissa that EccPointMult gives for k and G, modulo the order. */
  method Abscissa(r: Ptr, k: Ptr, gx: Ptr, gy: Ptr, p: Ptr, n: Ptr, ghost c: Curve, ghost G: Point)
    requires IsField(c, p) && n.Ok() && IsOrder(n.V()) && r.Ok() && k.Ok()
    requires r.buf !in {k.buf, p.buf, n.buf}
    requires Elem(gx, c) && Elem(gy, c) && Setting(c, G) && G == Affine(gx.V(), gy.V())
    requires HasOrder(c, G, n.V()) && k.V() < n.V()
    modifies r.buf
    ensures n.V() > 0 && AbscissaIs(LadderValue(c, k.V(), G), r.V(), n.V())
  {
    OrderShape(n.V());
    OrderWorkable(c, k.V(), G, n.V());
    var y := NewVli();
    EccPointMult(r, y, gx, gy, k, None, p, c, G);
    ReduceAbscissa(r, n, c);
  }

  // ---------- Round trip ----------

  lemma ScalarsExist(n: int, e: int, r: int, s: int, z: int) returns (u1: nat, u2: nat)
    requires IsInverse(z, s, n)
    ensures Scalars(u1, u2, e, r, s, n)
  {
    CongMod(e * z, n);
    CongMod(r * z, n);
    u1, u2 := (e * z) % n, (r * z) % n;
    QuotientSteps(n, e, z, s, u1);
    QuotientSteps(n, r, z, s, u2);
  }

  /**
    A pair (r, s) that satisfies the signing equation for the nonce k is accepted under the key Q = d G exactly when
    e + r d is not 0 modulo the order and r is the abscissa of k G.
   */
  lemma AcceptedExactly(c: Curve, n: nat, e: nat, r: int, s: nat, k: nat, d: nat, G: Point, Q: Point)
    requires Group(c, G, Q) && n > 0 && c.Times(n, G) == Infinity && Q == c.Times(d, G) && PrimeOrder(n)
    requires 0 < r < n && s < n && 0 < k < n && Cong(s * k, e + r * d, n)
    ensures Accepts(c, n, e, r, s, G, Q) <==> !Cong(e + r * d, 0, n) && AbscissaIs(c.Times(k, G), r, n)
  {
    ZeroSignature(n, e + r * d, k, s);
    if s != 0 {
      var z := CoprimeInverse(s, n);
      AcceptedByNonce(c, n, e, r, s, k, d, G, Q, z);
    }
  }

  /** For an invertible s the scalars of verification exist, and their combination is the multiple by the nonce. */
  lemma AcceptedByNonce(c: Curve, n: nat, e: nat, r: int, s: nat, k: nat, d: nat, G: Point, Q: Point, z: int)
    requires Group(c, G, Q) && n > 0 && c.Times(n, G) == Infinity && Q == c.Times(d, G)
    requires 0 < r < n && 0 < s < n && Cong(s * k, e + r * d, n) && IsInverse(z, s, n)
    ensures Accepts(c, n, e, r, s, G, Q) <==> AbscissaIs(c.Times(k, G), r, n)
  {
    var u1, u2 := ScalarsExist(n, e, r, s, z);
    NonceRecovered(n, d, e, r, k, s, z, u1, u2);
    SameMultiple(c, n, k, d, G, Q, u1, u2);
    AcceptedBy(c, n, e, r, s, G, Q, u1, u2);
  }

  /**
    Sign, then verify, with ecdsa_verify itself, for every nonce that is not 0 modulo the order and every hash, reduced
    or not. The nonce n - 1 never gives a signature. One made with 2 to n - 2 is accepted exactly when e + r d is not 0
    modulo the order and the loop for its scalars meets no exceptional round. For 1 it is, besides, only when G and 3 G
    have abscissas of the same residue.
   */
  lemma SignedIsAccepted(c: Curve, n: nat, e: nat, r: nat, s: nat, k: nat, d: nat, G: Point, Q: Point,
                         u1: nat, u2: nat)
    requires Group(c, G, Q) && IsP256(c.modulus) && IsCoefficient(c.coefB) && G.Affine? && G.x != 0 && Q.Affine?
    requires HasOrder(c, G, n) && n % 2 == 1 && 3 < n <= TWO256 && Q == c.Times(d, G) && PrimeOrder(n)
    requires 0 < k < n && AbscissaIs(LadderValue(c, k, G), r, n) && r != 0 && s < n && SigningHolds(k, s, e, r, d, n)
    requires s != 0 ==> Scalars(u1, u2, e, r, s, n)
    requires forall i: nat :: !EntryMissing(BitAt(u1, i), BitAt(u2, i), d, n)
    ensures k != n - 1
    ensures k >= 2 ==>
      (Verifies(c, n, e, r, s, G, Q) <==> !Cong(e + r * d, 0, n) && ScalarsSafe(u1, u2, d, n))
    ensures k == 1 ==>
      (Verifies(c, n, e, r, s, G, Q)
       <==> !Cong(e + r * d, 0, n) && ScalarsSafe(u1, u2, d, n) && G.x % n == c.Times(3, G).x % n)
  {
    SignedIsValid(c, n, e, r, s, k, d, G, Q);
    if s != 0 {
      VerifiesByScalars(c, n, e, r, s, d, G, Q, u1, u2);
    }
  }

  /** ecdsa_verify for a key d G: what it accepts beside the standard's condition depends on the scalars and d alone. */
  lemma VerifiesByScalars(c: Curve, n: nat, e: nat, r: nat, s: nat, d: nat, G: Point, Q: Point, u1: nat, u2: nat)
    requires Group(c, G, Q) && G.Affine? && Q.Affine? && 0 < r < n && 0 < s < n && Scalars(u1, u2, e, r, s, n)
    requires HasOrder(c, G, n) && n % 2 == 1 && n <= TWO256 && Q == c.Times(d, G) && PrimeOrder(n)
    requires forall i: nat :: !EntryMissing(BitAt(u1, i), BitAt(u2, i), d, n)
    ensures Verifies(c, n, e, r, s, G, Q) <==> Accepts(c, n, e, r, s, G, Q) && ScalarsSafe(u1, u2, d, n)
  {
    ShamirSafeExactly(c, u1, u2, d, n, G, Q);
    EntriesExactly(c, u1, u2, d, n, G, Q);
    HasInverse(s, n);
    VerifiesExactly(c, n, e, r, s, G, Q, u1, u2);
  }

  lemma HasInverse(s: nat, n: nat)
    requires 0 < s < n && PrimeOrder(n)
    ensures exists z :: IsInverse(z, s, n)
  {
    var z := CoprimeInverse(s, n);
    assert IsInverse(z, s, n);
  }

  /** The same for the condition of the standard. */
  lemma SignedIsValid(c: Curve, n: nat, e: nat, r: nat, s: nat, k: nat, d: nat, G: Point, Q: Point)
    requires Group(c, G, Q) && IsP256(c.modulus) && IsCoefficient(c.coefB) && G.Affine? && G.x != 0
    requires HasOrder(c, G, n) && n % 2 == 1 && n > 3 && Q == c.Times(d, G) && PrimeOrder(n)
    requires 0 < k < n && AbscissaIs(LadderValue(c, k, G), r, n) && r != 0 && s < n && SigningHolds(k, s, e, r, d, n)
    ensures k != n - 1
    ensures k >= 2 ==> (Accepts(c, n, e, r, s, G, Q) <==> !Cong(e + r * d, 0, n))
    ensures k == 1 ==> (Accepts(c, n, e, r, s, G, Q) <==> !Cong(e + r * d, 0, n) && G.x % n == c.Times(3, G).x % n)
  {
    OddOrderExact(c, k, G, n);
    if k == n - 1 {
      DivModUnique(0, n, 0, 0);
    }
    AcceptedExactly(c, n, e, r, s, k, d, G, Q);
    SmallMultiples(c, G);
  }

  lemma EntriesExactly(c: Curve, u1: nat, u2: nat, d: nat, n: nat, G: Point, Q: Point)
    requires Group(c, G, Q) && HasOrder(c, G, n) && Q == c.Times(d, G) && G.Affine? && Q.Affine?
    ensures (forall i: nat :: EntryUsable(u1, u2, i, G, Q))
      <==> forall i: nat :: !EntryMissing(BitAt(u1, i), BitAt(u2, i), d, n)
  {
    EntryExactly(c, d, n, G, Q);
    forall i: nat
      ensures EntryUsable(u1, u2, i, G, Q) <==> !EntryMissing(BitAt(u1, i), BitAt(u2, i), d, n)
    {
    }
  }

  /**
    Signing succeeds with s = 0, and verification refuses that, for the nonce n, which passes the test for 0, and for
    every nonce if e + r d is 0 modulo the order: the source does not try another nonce when s is 0.
   */
  lemma RefusedSignature(c: Curve, n: nat, e: nat, r: nat, s: nat, k: nat, d: nat, G: Point, Q: Point)
    requires TwoPoints(c, G, Q) && n > 0 && SigningHolds(k, s, e, r, d, n)
    requires k == 0 || Cong(e + r * d, 0, n)
    ensures s == 0 && !Verifies(c, n, e, r, s, G, Q) && !Accepts(c, n, e, r, s, G, Q)
  {
  }

  lemma SmallBits()
    ensures BitAt(1, 0) == 1 && BitAt(1, 1) == 0 && BitAt(2, 0) == 0 && BitAt(2, 1) == 1
    ensures JointBits(1, 1) == 1 && JointBits(2, 1) == 2
  {
    assert Pow2(0) == 1 && Pow2(1) == 2 && Pow2(2) == 4;
    assert Quot(1, 1) == 1 && Quot(1, 2) == 0 && Quot(1, 4) == 0;
    assert Quot(2, 1) == 2 && Quot(2, 2) == 1 && Quot(2, 4) == 0;
    BitLenUnique(1, 1);
    BitLenUnique(2, 2);
  }

  /** For the key 2 G and the scalars 2 and 1 the loop adds 2 G to 2 G, which loses the denominator. */
  lemma DoubleKeyValue(c: Curve, G: Point, Q: Point)
    requires TwoPoints(c, G, Q) && G != c.Neg(G) && Q == c.Add(G, G)
    ensures ShamirValue(c, 2, 1, G, Q) == Infinity
  {
    SmallBits();
    assert Walk(c, 2, 1, 2, 1, G, Q) == G;
    assert Walk(c, 2, 1, 2, 0, G, Q) == Turn(c, G, Q);
  }

  /**
    A valid signature that is refused: key 2 G, nonce 4 and the hash 2 r. Its second half is r, and verification runs
    its loop with the scalars 2 and 1.
   */
  lemma ValidRefused(c: Curve, n: nat, r: nat, G: Point)
    requires c.PrimeField() && c.GroupLaw() && c.OnCurve(G) && G.Affine? && HasOrder(c, G, n) && PrimeOrder(n)
    requires n % 2 == 1 && n > 4 && 0 < r < n && AbscissaIs(c.Times(4, G), r, n)
    ensures var Q := c.Times(2, G);
      && Q.Affine? && TwoPoints(c, G, Q) && SigningHolds(4, r, 2 * r, r, 2, n)
      && Accepts(c, n, 2 * r, r, r, G, Q) && !Verifies(c, n, 2 * r, r, r, G, Q)
  {
    var Q := c.Times(2, G);
    c.TimesOnCurve(2, G);
    assert Coprime(4, n);
    FourTimes(n, r);
    ZeroSignature(n, 2 * r + r * 2, 4, r);
    AcceptedExactly(c, n, 2 * r, r, r, 4, 2, G, Q);
    HasInverse(r, n);
    VerifiedBy(c, n, 2 * r, r, r, G, Q, 2, 1);
    DoubleIsTwice(c, G, n);
    DoubleKeyValue(c, G, Q);
  }

  lemma FourTimes(n: nat, r: nat)
    requires n > 2
    ensures Cong(r * 4, 2 * r + r * 2, n) && Scalars(2, 1, 2 * r, r, r, n)
  {
    assert r * 4 == 2 * r + r * 2 && 1 * r == r;
  }

  lemma DoubleIsTwice(c: Curve, G: Point, n: nat)
    requires c.PrimeField() && c.GroupLaw() && c.OnCurve(G) && G.Affine? && HasOrder(c, G, n) && n > 2
    ensures c.Times(2, G) == c.Add(G, G) && G != c.Neg(G)
  {
    assert c.Times(2, G).Affine?;
    assert c.Times(1, G) == c.Add(G, Infinity) == G;
    assert c.Times(2, G) == c.Add(G, c.Times(1, G));
  }

  /** Another one, for the base point as the key: nonce 2, hash r. The table has no sum for the scalars 1 and 1. */
  lemma ValidRefusedBase(c: Curve, n: nat, r: nat, G: Point)
    requires c.PrimeField() && c.GroupLaw() && c.OnCurve(G) && G.Affine? && HasOrder(c, G, n) && PrimeOrder(n)
    requires n > 2 && 0 < r < n && AbscissaIs(c.Times(2, G), r, n)
    ensures SigningHolds(2, r, r, r, 1, n) && Accepts(c, n, r, r, r, G, G) && !Verifies(c, n, r, r, r, G, G)
  {
    assert c.Times(1, G) == c.Add(G, Infinity) == G;
    assert Coprime(2, n) && r * 2 == r + r * 1;
    ZeroSignature(n, r + r * 1, 2, r);
    AcceptedExactly(c, n, r, r, r, 2, 1, G, G);
    HasInverse(r, n);
    VerifiedBy(c, n, r, r, r, G, G, 1, 1);
    SmallBits();
    assert Walk(c, 1, 1, 1, 0, G, G) == Affine(0, 0);
    DivModUnique(0, n, 0, 0);
  }

  /** For every r and every key there is such a hash. */
  lemma RefusedHash(n: nat, r: nat, d: nat) returns (e: nat)
    requires n > 0
    ensures e < n && Cong(e + r * d, 0, n)
  {
    var v: int := r * d;
    CongMod(-v, n);
    e := (-v) % n;
    CongAdd(e, -v, v, v, n);
    assert -v + v == 0;
  }

  /** u1 G + u2 Q is k G when the scalars recombine to the nonce. */
  lemma SameMultiple(c: Curve, n: int, k: nat, d: nat, G: Point, Q: Point, u1: nat, u2: nat)
    requires Group(c, G, Q) && n > 0 && c.Times(n, G) == Infinity && Q == c.Times(d, G)
    requires Cong(u1 + u2 * d, k, n)
    ensures Lin(c, u1, u2, G, Q) == c.Times(k, G)
  {
    MulNonneg(u2, d);
    SameMultipleOf(c, n, k, d, G, Q, u1, u2, u2 * d, u1 + u2 * d);
  }

  lemma SameMultipleOf(c: Curve, n: int, k: nat, d: nat, G: Point, Q: Point, u1: nat, u2: nat, v: nat, m: nat)
    requires Group(c, G, Q) && n > 0 && c.Times(n, G) == Infinity && Q == c.Times(d, G)
    requires v == u2 * d && m == u1 + v && Cong(m, k, n)
    ensures Lin(c, u1, u2, G, Q) == c.Times(k, G)
  {
    LinAsMultiple(c, d, G, Q, u1, u2, v);
    TimesModOrder(c, m, k, n, G);
  }
}
