/**
  Simultaneous double-and-add (Shamir's trick): the loop of ECDSA verification with its table of two points and their
  sum. Once its denominator is 0 it stays 0. The value the loop computes is defined for any two points; it is
  u1 G + u2 Q exactly when no round meets an exceptional case.
 */
module Shamir {
  import opened Words
  import opened Vli
  import opened VliReduce
  import opened VliMod
  import opened VliModMult
  import opened Congruence
  import opened Curves
  import opened Field
  import opened PointOps
  import opened Ladder

  // ---------- Linear combinations of two points ----------

  /** a G + b Q */
  ghost function Lin(c: Curve, a: nat, b: nat, G: Point, Q: Point): Point
    requires c.modulus > 0
  {
    c.Add(c.Times(a, G), c.Times(b, Q))
  }

  ghost predicate Group(c: Curve, G: Point, Q: Point) {
    c.PrimeField() && c.GroupLaw() && c.OnCurve(G) && c.OnCurve(Q)
  }

  /** (a + b) + (d + e) == (a + d) + (b + e) */
  lemma Rearrange(c: Curve, a: Point, b: Point, d: Point, e: Point)
    requires c.PrimeField() && c.GroupLaw() && c.OnCurve(a) && c.OnCurve(b) && c.OnCurve(d) && c.OnCurve(e)
    ensures c.Add(c.Add(a, b), c.Add(d, e)) == c.Add(c.Add(a, d), c.Add(b, e))
  {
    c.AddOnCurve(d, e);
    c.AddOnCurve(b, e);
    c.Associate(a, b, c.Add(d, e));
    c.Associate(b, d, e);
    c.Commute(b, d);
    c.Associate(d, b, e);
    c.Associate(a, d, c.Add(b, e));
  }

  lemma LinSum(c: Curve, a: nat, b: nat, d: nat, e: nat, G: Point, Q: Point)
    requires Group(c, G, Q)
    ensures c.Add(Lin(c, a, b, G, Q), Lin(c, d, e, G, Q)) == Lin(c, a + d, b + e, G, Q)
  {
    c.TimesOnCurve(a, G);
    c.TimesOnCurve(b, Q);
    c.TimesOnCurve(d, G);
    c.TimesOnCurve(e, Q);
    Rearrange(c, c.Times(a, G), c.Times(b, Q), c.Times(d, G), c.Times(e, Q));
    c.TimesSum(a, d, G);
    c.TimesSum(b, e, Q);
  }

  /** The four table entries: nothing, G, Q and G + Q. */
  lemma TableEntries(c: Curve, G: Point, Q: Point)
    requires c.modulus > 0
    ensures Lin(c, 0, 0, G, Q) == Infinity && Lin(c, 1, 0, G, Q) == G
    ensures Lin(c, 0, 1, G, Q) == Q && Lin(c, 1, 1, G, Q) == c.Add(G, Q)
  {
    assert c.Times(0, G) == Infinity && c.Times(0, Q) == Infinity;
    assert c.Times(1, G) == c.Add(G, Infinity) && c.Times(1, Q) == c.Add(Q, Infinity);
  }

  /** b (d G) == (b d) G */
  lemma {:induction false} TimesTimes(c: Curve, b: nat, d: nat, G: Point)
    requires c.PrimeField() && c.GroupLaw() && c.OnCurve(G)
    ensures b * d >= 0 && c.Times(b, c.Times(d, G)) == c.Times(b * d, G)
  {
    MulNonneg(b, d);
    if b > 0 {
      TimesTimes(c, b - 1, d, G);
      assert b * d == d + (b - 1) * d;
      c.TimesSum(d, (b - 1) * d, G);
    }
  }

  /** Multiples of a point of order n depend on the multiplier modulo n only. */
  lemma TimesModOrder(c: Curve, a: nat, b: nat, n: nat, G: Point)
    requires c.PrimeField() && c.GroupLaw() && c.OnCurve(G) && n > 0 && c.Times(n, G) == Infinity && Cong(a, b, n)
    ensures c.Times(a, G) == c.Times(b, G)
  {
    TimesRemainder(c, a, n, G);
    TimesRemainder(c, b, n, G);
  }

  lemma {:induction false} TimesRemainder(c: Curve, a: nat, n: nat, G: Point)
    requires c.PrimeField() && c.GroupLaw() && c.OnCurve(G) && n > 0 && c.Times(n, G) == Infinity
    ensures c.Times(a, G) == c.Times(a % n, G)
    decreases a
  {
    if a < n {
      DivModUnique(a, n, 0, a);
    } else {
      TimesRemainder(c, a - n, n, G);
      c.TimesSumTo(n, a - n, a, G);
      CongIntro(a, a - n, 1, n);
    }
  }

  lemma LinAsMultiple(c: Curve, d: nat, G: Point, Q: Point, u1: nat, u2: nat, v: nat)
    requires Group(c, G, Q) && Q == c.Times(d, G) && v == u2 * d
    ensures Lin(c, u1, u2, G, Q) == c.Times(u1 + v, G)
  {
    TimesTimes(c, u2, d, G);
    c.TimesSum(u1, v, G);
  }

  // ---------- What a round computes ----------

  /** Two affine points with reduced coordinates, on the curve or not. */
  ghost predicate TwoPoints(c: Curve, G: Point, Q: Point) {
    c.modulus > 0 && G.Affine? && Q.Affine? && c.Reduced(G) && c.Reduced(Q)
  }

  lemma ReducedAdd(c: Curve, S: Point, T: Point)
    requires c.modulus > 0 && c.Reduced(S) && c.Reduced(T)
    ensures c.Reduced(c.Add(S, T))
  {
  }

  /**
    The double of S. Infinity stands for a denominator of 0, which doubling gives a point that is its own mirror image.
   */
  ghost function Doubling(c: Curve, S: Point): Point
    requires c.modulus > 0
  {
    if S.Infinity? || S == c.Neg(S) then Infinity else c.Add(S, S)
  }

  /** S plus a table entry; the denominator becomes 0 where the abscissas agree. */
  ghost function Adding(c: Curve, S: Point, T: Point): Point
    requires c.modulus > 0 && T.Affine?
  {
    if S.Infinity? || T.x == S.x then Infinity else c.Add(T, S)
  }

  /** One round of the loop, with a table entry or none. */
  ghost function Turn(c: Curve, S: Point, T: Point): Point
    requires c.modulus > 0
  {
    if T.Infinity? then Doubling(c, S) else Adding(c, Doubling(c, S), T)
  }

  /** (rx, ry, z) stands for the point S, and a denominator of 0 for Infinity. */
  ghost predicate Stands(rx: Ptr, ry: Ptr, z: Ptr, p: Ptr, c: Curve, S: Point)
    reads rx.buf, ry.buf, z.buf, p.buf
  {
    && IsField(c, p) && Elem(rx, c) && Elem(ry, c) && Elem(z, c)
    && rx.buf != ry.buf && rx.buf != z.buf && ry.buf != z.buf && p.buf !in {rx.buf, ry.buf, z.buf}
    && c.Reduced(S) && if S.Infinity? then z.V() == 0 else c.Rep(rx.V(), ry.V(), z.V(), S)
  }

  lemma RepNonzero(c: Curve, X: int, Y: int, Z: int, S: Point)
    requires c.modulus > 0 && c.Rep(X, Y, Z, S)
    ensures Z != 0
  {
  }

  method DoubleRound(rx: Ptr, ry: Ptr, z: Ptr, p: Ptr, ghost c: Curve, ghost S: Point)
    requires c.PrimeField() && Stands(rx, ry, z, p, c, S)
    modifies rx.buf, ry.buf, z.buf
    ensures Stands(rx, ry, z, p, c, Doubling(c, S))
  {
    ghost var x: int, y: int, w: int := rx.V(), ry.V(), z.V();
    EccPointDoubleJacobian(rx, ry, z, p, c);
    if S.Affine? {
      RepNonzero(c, x, y, w, S);
      DoubledStands(c, x, y, w, S, rx.V(), ry.V(), z.V());
    }
  }

  lemma DoubledStands(c: Curve, x: int, y: int, z: int, S: Point, X3: int, Y3: int, Z3: int)
    requires c.PrimeField() && c.Reduced(S) && c.Rep(x, y, z, S) && Doubled(c, x, y, z, X3, Y3, Z3)
    requires 0 <= Z3 < c.modulus
    ensures if S == c.Neg(S) then Z3 == 0 else c.Rep(X3, Y3, Z3, c.Add(S, S)) && c.Reduced(c.Add(S, S))
  {
    if S == c.Neg(S) {
      OwnMirror(c, S);
      var T := z * (z * z);
      c.EqMul(y, S.y * T, z, z);
      assert (0 * T) * z == 0;
      c.Canonical(Z3, 0);
    } else {
      DoubledMeaning(c, x, y, z, S, X3, Y3, Z3);
    }
  }

  lemma OwnMirror(c: Curve, S: Point)
    requires c.PrimeField() && S.Affine? && c.Reduced(S) && S == c.Neg(S)
    ensures S.y == 0
  {
    CongMod(-S.y, c.modulus);
    c.EqDiff(S.y, -S.y);
    assert S.y - -S.y == S.y * 2 && 0 * 2 == 0;
    c.TwoNonzero();
    c.Cancel(S.y, 0, 2);
    c.Canonical(S.y, 0);
  }

  /** Adds the affine table point T = (x, y). */
  method AddRound(rx: Ptr, ry: Ptr, z: Ptr, x: Ptr, y: Ptr, p: Ptr, ghost c: Curve, ghost S: Point, ghost T: Point)
    requires c.PrimeField() && Stands(rx, ry, z, p, c, S) && Holder(x, y, c, T)
    modifies rx.buf, ry.buf, z.buf
    ensures Stands(rx, ry, z, p, c, Adding(c, S, T))
  {
    var tx := NewVli();
    var ty := NewVli();
    Set(tx, x);
    Set(ty, y);
    ApplyZ(tx, ty, z, p, c);
    AddScaled(rx, ry, z, tx, ty, p, c, S, T);
  }

  /** Adds T, given over the denominator z, and multiplies z by the difference of the abscissas. */
  method AddScaled(rx: Ptr, ry: Ptr, z: Ptr, tx: Ptr, ty: Ptr, p: Ptr, ghost c: Curve, ghost S: Point, ghost T: Point)
    requires c.PrimeField() && Stands(rx, ry, z, p, c, S) && Elem(tx, c) && Elem(ty, c) && tx.buf != ty.buf
    requires tx.buf !in {rx.buf, ry.buf, z.buf, p.buf} && ty.buf !in {rx.buf, ry.buf, z.buf, p.buf}
    requires T.Affine? && c.Reduced(T) && (S.Affine? ==> c.Rep(tx.V(), ty.V(), z.V(), T))
    modifies rx.buf, ry.buf, z.buf, tx.buf, ty.buf
    ensures Stands(rx, ry, z, p, c, Adding(c, S, T))
  {
    ghost var apart := S.Affine? && T.x != S.x;
    ghost var x: int, tx0: int, w: int := rx.V(), tx.V(), z.V();
    var tz := NewVli();
    FSub(tz, rx, tx, p, c);
    ghost var Z := AddStep(tx, ty, rx, ry, p, c, w, T, S, apart);
    ghost var t: int := tz.V();
    FMul(z, z, tz, p, c);
    if apart {
      ReducedAdd(c, T, S);
      NewDenominator(c, w, t, x - tx0, z.V());
      c.RepEq(rx.V(), rx.V(), ry.V(), ry.V(), Z, z.V(), c.Add(T, S));
    } else {
      LostDenominator(c, w, x, tx0, t, z.V(), S, T);
    }
  }

  lemma NewDenominator(c: Curve, w: int, t: int, e: int, z: int)
    requires c.Eq(t, e) && c.Eq(z, w * t)
    ensures c.Eq(w * e, z)
  {
    c.EqMul(w, w, t, e);
  }

  /** The denominator was 0, or it becomes 0 because the abscissas agree. */
  lemma LostDenominator(c: Curve, w: int, x: int, tx: int, t: int, z: int, S: Point, T: Point)
    requires c.modulus > 0 && c.Eq(t, x - tx) && c.Eq(z, w * t) && 0 <= z < c.modulus
    requires if S.Infinity? then w == 0
             else T.Affine? && T.x == S.x && c.Eq(x, S.x * (w * w)) && c.Eq(tx, T.x * (w * w))
    ensures z == 0
  {
    if S.Affine? {
      c.EqSub(x, S.x * (w * w), tx, T.x * (w * w));
      c.EqMul(w, w, t, 0);
      assert w * 0 == 0;
    } else {
      assert 0 * t == 0;
    }
    c.Canonical(z, 0);
  }

  // ---------- The table ----------

  /** An affine point held in two buffers. */
  ghost predicate Holder(x: Ptr, y: Ptr, c: Curve, T: Point)
    reads x.buf, y.buf
  {
    Elem(x, c) && Elem(y, c) && T == Affine(x.V(), y.V())
  }

  /** The last table entry: the sum, or (0, 0) for points with one abscissa, for which its formulas give that. */
  ghost function SumEntry(c: Curve, G: Point, Q: Point): (r: Point)
    requires TwoPoints(c, G, Q)
    ensures r.Affine? && c.Reduced(r)
  {
    if G.x != Q.x then c.Add(G, Q) else Affine(0, 0)
  }

  /** The entry for a pair of bits; there is none for two zeros. */
  ghost function EntryPoint(c: Curve, b1: nat, b2: nat, G: Point, Q: Point): (r: Point)
    requires TwoPoints(c, G, Q)
    ensures c.Reduced(r) && (r.Infinity? <==> b1 == 0 && b2 == 0)
  {
    if b1 == 0 then (if b2 == 0 then Infinity else Q) else if b2 == 0 then G else SumEntry(c, G, Q)
  }

  /** The bit of u at i as a number. */
  ghost function BitAt(u: nat, i: nat): (b: nat)
    ensures b <= 1 && Quot(u, Pow2(i)) == 2 * Quot(u, Pow2(i + 1)) + b
  {
    PrefixStepDown(u, i);
    if Bit(u, i) then 1 else 0
  }

  /** The partial result after the bits from i upwards. */
  ghost function Partial(c: Curve, u1: nat, u2: nat, i: nat, G: Point, Q: Point): Point
    requires c.modulus > 0
  {
    Lin(c, Quot(u1, Pow2(i)), Quot(u2, Pow2(i)), G, Q)
  }

  /** The table of affine points; entry 0 is empty. */
  datatype Table = Table(gx: Ptr, gy: Ptr, qx: Ptr, qy: Ptr, sx: Ptr, sy: Ptr)

  ghost predicate TableOk(t: Table, c: Curve, G: Point, Q: Point)
    reads t.gx.buf, t.gy.buf, t.qx.buf, t.qy.buf, t.sx.buf, t.sy.buf
  {
    && TwoPoints(c, G, Q) && Holder(t.gx, t.gy, c, G) && Holder(t.qx, t.qy, c, Q)
    && Holder(t.sx, t.sy, c, SumEntry(c, G, Q))
  }

  /** The table of the two points and, in affine coordinates, their sum. */
  method SumTable(gx: Ptr, gy: Ptr, qx: Ptr, qy: Ptr, p: Ptr, ghost c: Curve, ghost G: Point, ghost Q: Point)
    returns (t: Table)
    requires c.PrimeField() && IsField(c, p) && Holder(gx, gy, c, G) && Holder(qx, qy, c, Q)
    ensures TableOk(t, c, G, Q)
  {
    var sx, sy := CopyPoint(qx, qy, c, Q);
    var tx, ty := CopyPoint(gx, gy, c, G);
    AddAffine(tx, ty, sx, sy, p, c, G, Q);
    t := Table(gx, gy, qx, qy, sx, sy);
  }

  method CopyPoint(x: Ptr, y: Ptr, ghost c: Curve, ghost T: Point) returns (x': Ptr, y': Ptr)
    requires Holder(x, y, c, T)
    ensures Holder(x', y', c, T) && fresh(x'.buf) && fresh(y'.buf) && x'.buf != y'.buf
  {
    x' := NewVli();
    y' := NewVli();
    Set(x', x);
    Set(y', y);
  }

  /** (sx, sy) := G + Q for points with different abscissas, and (0, 0) otherwise. */
  method AddAffine(tx: Ptr, ty: Ptr, sx: Ptr, sy: Ptr, p: Ptr, ghost c: Curve, ghost G: Point, ghost Q: Point)
    requires c.PrimeField() && Quad(tx, ty, sx, sy, p, c)
    requires G == Affine(tx.V(), ty.V()) && Q == Affine(sx.V(), sy.V())
    modifies tx.buf, ty.buf, sx.buf, sy.buf
    ensures Elem(sx, c) && Elem(sy, c)
    ensures TwoPoints(c, G, Q) && Affine(sx.V(), sy.V()) == SumEntry(c, G, Q)
  {
    ghost var apart := G.x != Q.x;
    var z := NewVli();
    ghost var w: int := AddOver(tx, ty, sx, sy, z, p, c, G, Q, apart);
    InvertOrClear(z, p, c, apart);
    Unscale(sx, sy, z, p, c, w, c.Add(G, Q), apart);
  }

  /** s := t + s over the denominator z, which is 0 for points with one abscissa. */
  method AddOver(tx: Ptr, ty: Ptr, sx: Ptr, sy: Ptr, z: Ptr, p: Ptr, ghost c: Curve, ghost G: Point, ghost Q: Point,
                 ghost apart: bool)
    returns (ghost w: int)
    requires c.PrimeField() && Quad(tx, ty, sx, sy, p, c)
    requires z.Ok() && z.buf !in {tx.buf, ty.buf, sx.buf, sy.buf, p.buf}
    requires G == Affine(tx.V(), ty.V()) && Q == Affine(sx.V(), sy.V()) && apart == (G.x != Q.x)
    modifies tx.buf, ty.buf, sx.buf, sy.buf, z.buf
    ensures Quad(tx, ty, sx, sy, p, c) && Elem(z, c) && z.V() == w
    ensures if apart then c.Reduced(c.Add(G, Q)) && c.Rep(sx.V(), sy.V(), w, c.Add(G, Q)) && !c.Eq(w, 0) else w == 0
  {
    FSub(z, sx, tx, p, c);
    w := z.V();
    ghost var Z := AddStep(tx, ty, sx, sy, p, c, 1, G, Q, apart);
    ReducedAdd(c, G, Q);
    if apart {
      c.RepEq(sx.V(), sx.V(), sy.V(), sy.V(), Z, w, c.Add(G, Q));
      RepNonzero(c, sx.V(), sy.V(), w, c.Add(G, Q));
    } else {
      c.Canonical(w, 0);
    }
  }

  /** z := 1 / z, or 0 for 0. */
  method InvertOrClear(z: Ptr, p: Ptr, ghost c: Curve, ghost apart: bool)
    requires c.PrimeField() && IsField(c, p) && Elem(z, c) && z.buf != p.buf
    requires if apart then !c.Eq(z.V(), 0) else z.V() == 0
    modifies z.buf
    ensures Elem(z, c) && if apart then c.Eq(old(z.V()) * z.V(), 1) else z.V() == 0
  {
    ghost var w: nat := z.V();
    P256Shape(c.modulus);
    ModInv(z, z, p);
    if apart {
      InverseFromGcd(c, w, z.V());
      SwapFactors(z.V(), w);
    }
  }

  ghost predicate TableApart(t: Table, rx: Ptr, ry: Ptr, z: Ptr) {
    && t.gx.buf !in {rx.buf, ry.buf, z.buf} && t.gy.buf !in {rx.buf, ry.buf, z.buf}
    && t.qx.buf !in {rx.buf, ry.buf, z.buf} && t.qy.buf !in {rx.buf, ry.buf, z.buf}
    && t.sx.buf !in {rx.buf, ry.buf, z.buf} && t.sy.buf !in {rx.buf, ry.buf, z.buf}
  }

  /** The table index of bit i: bit of u1, plus twice the bit of u2. */
  method TableIndex(u1: Ptr, u2: Ptr, i: nat) returns (index: nat)
    requires u1.Ok() && u2.Ok() && i < 256
    ensures index == BitAt(u1.V(), i) + 2 * BitAt(u2.V(), i)
  {
    var b1 := TestBit(u1, i);
    var b2 := TestBit(u2, i);
    index := (if b1 != 0 then 1 else 0) + (if b2 != 0 then 2 else 0);
  }

  /** The buffers of a nonempty table entry. */
  function Entry(t: Table, index: nat): (Ptr, Ptr)
    requires 1 <= index <= 3
  {
    if index == 1 then (t.gx, t.gy) else if index == 2 then (t.qx, t.qy) else (t.sx, t.sy)
  }

  lemma EntryHeld(t: Table, index: nat, b1: nat, b2: nat, c: Curve, G: Point, Q: Point)
    requires TableOk(t, c, G, Q) && b1 <= 1 && b2 <= 1 && index == b1 + 2 * b2 && index > 0
    ensures var e := Entry(t, index); Holder(e.0, e.1, c, EntryPoint(c, b1, b2, G, Q))
  {
  }

  // ---------- The loop ----------

  /** The table entry of bit i. */
  ghost function EntryAt(c: Curve, u1: nat, u2: nat, i: nat, G: Point, Q: Point): (r: Point)
    requires TwoPoints(c, G, Q)
    ensures c.Reduced(r)
  {
    EntryPoint(c, BitAt(u1, i), BitAt(u2, i), G, Q)
  }

  /** What the loop has computed after the bits from n - 1 down to i. */
  ghost function Walk(c: Curve, u1: nat, u2: nat, n: nat, i: nat, G: Point, Q: Point): Point
    requires TwoPoints(c, G, Q) && i < n
    decreases n - i
  {
    if i == n - 1 then EntryAt(c, u1, u2, i, G, Q)
    else Turn(c, Walk(c, u1, u2, n, i + 1, G, Q), EntryAt(c, u1, u2, i, G, Q))
  }

  /** One round: double, then add the table entry of bit i. */
  method ShamirRound(rx: Ptr, ry: Ptr, z: Ptr, u1: Ptr, u2: Ptr, i: nat, t: Table, p: Ptr, ghost c: Curve,
                     ghost G: Point, ghost Q: Point, ghost S: Point)
    requires c.PrimeField() && u1.Ok() && u2.Ok() && i < 256 && TableOk(t, c, G, Q) && TableApart(t, rx, ry, z)
    requires u1.buf !in {rx.buf, ry.buf, z.buf} && u2.buf !in {rx.buf, ry.buf, z.buf}
    requires Stands(rx, ry, z, p, c, S)
    modifies rx.buf, ry.buf, z.buf
    ensures Stands(rx, ry, z, p, c, Turn(c, S, EntryAt(c, u1.V(), u2.V(), i, G, Q)))
  {
    ghost var b1, b2 := BitAt(u1.V(), i), BitAt(u2.V(), i);
    DoubleRound(rx, ry, z, p, c, S);
    var index := TableIndex(u1, u2, i);
    if index != 0 {
      EntryHeld(t, index, b1, b2, c, G, Q);
      var e := Entry(t, index);
      AddRound(rx, ry, z, e.0, e.1, p, c, Doubling(c, S), EntryPoint(c, b1, b2, G, Q));
    }
  }

  /** n bits suffice for both numbers and one of them needs all of them. */
  ghost predicate JointLength(u1: nat, u2: nat, n: nat) {
    && 1 <= n <= 256 && u1 < Pow2(n) && u2 < Pow2(n) && (u1 >= Pow2(n - 1) || u2 >= Pow2(n - 1))
  }

  /** The longer of the two bit lengths. */
  ghost function JointBits(u1: nat, u2: nat): nat {
    if BitLen(u1) > BitLen(u2) then BitLen(u1) else BitLen(u2)
  }

  method MaxBits(u1: Ptr, u2: Ptr) returns (n: nat)
    requires u1.Ok() && u2.Ok() && (u1.V() > 0 || u2.V() > 0)
    ensures JointLength(u1.V(), u2.V(), n) && n == JointBits(u1.V(), u2.V())
  {
    var n1 := NumBits(u1);
    var n2 := NumBits(u2);
    n := if n1 > n2 then n1 else n2;
    Pow2Monotone(n1, n);
    Pow2Monotone(n2, n);
    assert Pow2(0) == 1;
    BitLenUnique(u1.V(), n1);
    BitLenUnique(u2.V(), n2);
  }

  /** What the loop computes for two scalars, not both 0. */
  ghost function ShamirValue(c: Curve, u1: nat, u2: nat, G: Point, Q: Point): Point
    requires TwoPoints(c, G, Q)
  {
    if JointBits(u1, u2) == 0 then Infinity else Walk(c, u1, u2, JointBits(u1, u2), 0, G, Q)
  }

  /** The prefixes at the top bit are that bit; above every lower bit some prefix is nonzero. */
  lemma TopBits(u: nat, n: nat)
    requires n >= 1 && u < Pow2(n)
    ensures Quot(u, Pow2(n - 1)) == BitAt(u, n - 1) && (BitAt(u, n - 1) == 1 <==> u >= Pow2(n - 1))
  {
    DivModUnique(u, Pow2(n), 0, u);
    if u >= Pow2(n - 1) {
      DivModUnique(u, Pow2(n - 1), 1, u - Pow2(n - 1));
    } else {
      DivModUnique(u, Pow2(n - 1), 0, u);
    }
  }

  lemma PrefixPositive(u: nat, n: nat, i: nat)
    requires i < n && u >= Pow2(n - 1)
    ensures Quot(u, Pow2(i)) > 0
  {
    Pow2Monotone(i, n - 1);
    var q := Quot(u, Pow2(i));
    assert u == Pow2(i) * q + u % Pow2(i);
    assert q == 0 ==> Pow2(i) * q == 0;
  }

  /** The starting point: the table entry of the top bit, over the denominator 1. */
  method ShamirStart(rx: Ptr, ry: Ptr, z: Ptr, u1: Ptr, u2: Ptr, n: nat, t: Table, p: Ptr, ghost c: Curve,
                     ghost G: Point, ghost Q: Point)
    requires u1.Ok() && u2.Ok() && TableOk(t, c, G, Q) && TableApart(t, rx, ry, z) && IsField(c, p)
    requires rx.Ok() && ry.Ok() && z.Ok() && p.buf !in {rx.buf, ry.buf, z.buf}
    requires rx.buf != ry.buf && rx.buf != z.buf && ry.buf != z.buf
    requires u1.buf !in {rx.buf, ry.buf, z.buf} && u2.buf !in {rx.buf, ry.buf, z.buf}
    requires JointLength(u1.V(), u2.V(), n)
    modifies rx.buf, ry.buf, z.buf
    ensures Stands(rx, ry, z, p, c, EntryAt(c, u1.V(), u2.V(), n - 1, G, Q))
  {
    ghost var b1, b2 := BitAt(u1.V(), n - 1), BitAt(u2.V(), n - 1);
    TopBits(u1.V(), n);
    TopBits(u2.V(), n);
    var index := TableIndex(u1, u2, n - 1);
    EntryHeld(t, index, b1, b2, c, G, Q);
    var e := Entry(t, index);
    StartAt(rx, ry, z, e.0, e.1, p, c, EntryPoint(c, b1, b2, G, Q));
  }

  /** An affine point as the start of the loop, over the denominator 1. */
  method StartAt(rx: Ptr, ry: Ptr, z: Ptr, x: Ptr, y: Ptr, p: Ptr, ghost c: Curve, ghost S: Point)
    requires IsField(c, p) && Holder(x, y, c, S) && rx.Ok() && ry.Ok() && z.Ok()
    requires rx.buf != ry.buf && rx.buf != z.buf && ry.buf != z.buf && p.buf !in {rx.buf, ry.buf, z.buf}
    requires x.buf !in {rx.buf, ry.buf, z.buf} && y.buf !in {rx.buf, ry.buf, z.buf}
    modifies rx.buf, ry.buf, z.buf
    ensures Stands(rx, ry, z, p, c, S)
  {
    P256Shape(c.modulus);
    NonzeroElement(c, 1);
    Set(rx, x);
    Set(ry, y);
    SetOne(z);
  }

  /** The affine point of a value; a denominator of 0 leaves (0, 0). */
  ghost function OrOrigin(S: Point): Point {
    if S.Infinity? then Affine(0, 0) else S
  }

  /** The whole loop, for any scalars but two zeros and any two points: the value in affine coordinates. */
  method ShamirMult(rx: Ptr, ry: Ptr, u1: Ptr, u2: Ptr, t: Table, p: Ptr, ghost c: Curve, ghost G: Point,
                    ghost Q: Point)
    requires c.PrimeField() && u1.Ok() && u2.Ok() && TableOk(t, c, G, Q) && IsField(c, p)
    requires rx.Ok() && ry.Ok() && rx.buf != ry.buf && p.buf !in {rx.buf, ry.buf}
    requires TableApart(t, rx, ry, rx) && u1.buf !in {rx.buf, ry.buf} && u2.buf !in {rx.buf, ry.buf}
    requires u1.V() > 0 || u2.V() > 0
    modifies rx.buf, ry.buf
    ensures Elem(rx, c) && Elem(ry, c)
    ensures Affine(rx.V(), ry.V()) == OrOrigin(ShamirValue(c, u1.V(), u2.V(), G, Q))
  {
    var z := NewVli();
    var n := MaxBits(u1, u2);
    ShamirStart(rx, ry, z, u1, u2, n, t, p, c, G, Q);
    ShamirLoop(rx, ry, z, u1, u2, n, t, p, c, G, Q);
    Finish(rx, ry, z, p, c, Walk(c, u1.V(), u2.V(), n, 0, G, Q));
  }

  /** All rounds below the top bit. */
  method ShamirLoop(rx: Ptr, ry: Ptr, z: Ptr, u1: Ptr, u2: Ptr, n: nat, t: Table, p: Ptr, ghost c: Curve,
                    ghost G: Point, ghost Q: Point)
    requires c.PrimeField() && u1.Ok() && u2.Ok() && TableOk(t, c, G, Q) && TableApart(t, rx, ry, z)
    requires u1.buf !in {rx.buf, ry.buf, z.buf} && u2.buf !in {rx.buf, ry.buf, z.buf} && 1 <= n <= 256
    requires Stands(rx, ry, z, p, c, EntryAt(c, u1.V(), u2.V(), n - 1, G, Q))
    modifies rx.buf, ry.buf, z.buf
    ensures Stands(rx, ry, z, p, c, Walk(c, u1.V(), u2.V(), n, 0, G, Q))
  {
    ghost var v1: nat, v2: nat := u1.V(), u2.V();
    for i := n - 1 downto 0
      invariant u1.V() == v1 && u2.V() == v2 && TableOk(t, c, G, Q)
      invariant Stands(rx, ry, z, p, c, Walk(c, v1, v2, n, i, G, Q))
    {
      ShamirRound(rx, ry, z, u1, u2, i, t, p, c, G, Q, Walk(c, v1, v2, n, i + 1, G, Q));
    }
  }

  /** z := 1 / z, then out of Jacobian coordinates. */
  method Finish(rx: Ptr, ry: Ptr, z: Ptr, p: Ptr, ghost c: Curve, ghost S: Point)
    requires c.PrimeField() && Stands(rx, ry, z, p, c, S)
    modifies rx.buf, ry.buf, z.buf
    ensures Elem(rx, c) && Elem(ry, c) && Affine(rx.V(), ry.V()) == OrOrigin(S)
  {
    ghost var w: nat := z.V();
    InvertOrClear(z, p, c, S.Affine?);
    Unscale(rx, ry, z, p, c, w, S, S.Affine?);
  }

  // ---------- When the value is the combination ----------

  /** The table entry for bit i is usable: it is the sum of the two points only if their abscissas differ. */
  ghost predicate EntryUsable(u1: nat, u2: nat, i: nat, G: Point, Q: Point) {
    BitAt(u1, i) == 1 && BitAt(u2, i) == 1 ==> G.Affine? && Q.Affine? && G.x != Q.x
  }

  /** The round for bit i meets no exceptional case. */
  ghost predicate RoundSafe(c: Curve, u1: nat, u2: nat, i: nat, G: Point, Q: Point)
    requires c.modulus > 0
  {
    var S := Partial(c, u1, u2, i + 1, G, Q);
    var T := Lin(c, BitAt(u1, i), BitAt(u2, i), G, Q);
    && S != c.Neg(S)
    && (T.Affine? ==> c.Add(S, S).Affine? && T.x != c.Add(S, S).x)
  }

  lemma RoundMeaning(c: Curve, u1: nat, u2: nat, i: nat, G: Point, Q: Point)
    requires Group(c, G, Q)
    ensures var S := Partial(c, u1, u2, i + 1, G, Q); var T := Lin(c, BitAt(u1, i), BitAt(u2, i), G, Q);
      c.Add(T, c.Add(S, S)) == Partial(c, u1, u2, i, G, Q)
  {
    var a, b := Quot(u1, Pow2(i + 1)), Quot(u2, Pow2(i + 1));
    LinSum(c, a, b, a, b, G, Q);
    LinSum(c, BitAt(u1, i), BitAt(u2, i), a + a, b + b, G, Q);
  }

  /** Bit i is below the top bit of one of the numbers. */
  ghost predicate SomePrefixAbove(u1: nat, u2: nat, i: nat) {
    Quot(u1, Pow2(i + 1)) > 0 || Quot(u2, Pow2(i + 1)) > 0
  }

  /** No bit needs an unusable table entry, and no round below the top bit meets an exceptional case. */
  ghost predicate ShamirSafe(c: Curve, u1: nat, u2: nat, G: Point, Q: Point)
    requires c.modulus > 0
  {
    && (forall i: nat :: EntryUsable(u1, u2, i, G, Q))
    && (forall i: nat :: SomePrefixAbove(u1, u2, i) ==> RoundSafe(c, u1, u2, i, G, Q))
  }

  lemma EntryMeaning(c: Curve, u1: nat, u2: nat, i: nat, G: Point, Q: Point)
    requires TwoPoints(c, G, Q) && EntryUsable(u1, u2, i, G, Q)
    ensures EntryAt(c, u1, u2, i, G, Q) == Lin(c, BitAt(u1, i), BitAt(u2, i), G, Q)
  {
    TableEntries(c, G, Q);
  }

  /** A round gives the combination for one more bit, or loses the denominator in an exceptional case. */
  lemma TurnExactly(c: Curve, u1: nat, u2: nat, i: nat, G: Point, Q: Point)
    requires Group(c, G, Q) && TwoPoints(c, G, Q) && EntryUsable(u1, u2, i, G, Q)
    requires Partial(c, u1, u2, i + 1, G, Q).Affine?
    ensures Turn(c, Partial(c, u1, u2, i + 1, G, Q), EntryAt(c, u1, u2, i, G, Q))
      == if RoundSafe(c, u1, u2, i, G, Q) then Partial(c, u1, u2, i, G, Q) else Infinity
    ensures RoundSafe(c, u1, u2, i, G, Q) ==> Partial(c, u1, u2, i, G, Q).Affine?
  {
    EntryMeaning(c, u1, u2, i, G, Q);
    RoundMeaning(c, u1, u2, i, G, Q);
  }

  /** No round from n - 2 down to i meets an exceptional case. */
  ghost predicate SafeFrom(c: Curve, u1: nat, u2: nat, n: nat, i: nat, G: Point, Q: Point)
    requires c.modulus > 0
  {
    forall j: nat :: i <= j && j + 1 < n ==> RoundSafe(c, u1, u2, j, G, Q)
  }

  lemma {:induction false} WalkExactly(c: Curve, u1: nat, u2: nat, n: nat, i: nat, G: Point, Q: Point)
    requires Group(c, G, Q) && TwoPoints(c, G, Q) && JointLength(u1, u2, n) && i < n
    requires forall j: nat :: EntryUsable(u1, u2, j, G, Q)
    ensures Walk(c, u1, u2, n, i, G, Q)
      == if SafeFrom(c, u1, u2, n, i, G, Q) then Partial(c, u1, u2, i, G, Q) else Infinity
    ensures SafeFrom(c, u1, u2, n, i, G, Q) ==> Partial(c, u1, u2, i, G, Q).Affine?
    decreases n - i
  {
    if i == n - 1 {
      TopBits(u1, n);
      TopBits(u2, n);
      EntryMeaning(c, u1, u2, i, G, Q);
    } else {
      WalkExactly(c, u1, u2, n, i + 1, G, Q);
      SafeFromStep(c, u1, u2, n, i, G, Q);
      if SafeFrom(c, u1, u2, n, i + 1, G, Q) {
        TurnExactly(c, u1, u2, i, G, Q);
      }
    }
  }

  lemma SafeFromStep(c: Curve, u1: nat, u2: nat, n: nat, i: nat, G: Point, Q: Point)
    requires c.modulus > 0 && i + 1 < n && forall j: nat :: EntryUsable(u1, u2, j, G, Q)
    ensures SafeFrom(c, u1, u2, n, i, G, Q)
      <==> SafeFrom(c, u1, u2, n, i + 1, G, Q) && RoundSafe(c, u1, u2, i, G, Q)
  {
  }

  /**
    The loop computes u1 G + u2 Q exactly when no round is exceptional, and otherwise loses its denominator, provided
    that no bit needs the sum of two points with one abscissa.
   */
  lemma ShamirValueExactly(c: Curve, u1: nat, u2: nat, n: nat, G: Point, Q: Point)
    requires Group(c, G, Q) && TwoPoints(c, G, Q) && JointLength(u1, u2, n) && n == JointBits(u1, u2)
    requires forall j: nat :: EntryUsable(u1, u2, j, G, Q)
    ensures ShamirValue(c, u1, u2, G, Q)
      == if ShamirSafe(c, u1, u2, G, Q) then Lin(c, u1, u2, G, Q) else Infinity
    ensures ShamirSafe(c, u1, u2, G, Q) ==> Lin(c, u1, u2, G, Q).Affine?
  {
    WalkExactly(c, u1, u2, n, 0, G, Q);
    assert Quot(u1, Pow2(0)) == u1 && Quot(u2, Pow2(0)) == u2;
    SafeRounds(c, u1, u2, n, G, Q);
  }

  lemma SafeRounds(c: Curve, u1: nat, u2: nat, n: nat, G: Point, Q: Point)
    requires c.modulus > 0 && JointLength(u1, u2, n)
    requires forall j: nat :: EntryUsable(u1, u2, j, G, Q)
    ensures SafeFrom(c, u1, u2, n, 0, G, Q) <==> ShamirSafe(c, u1, u2, G, Q)
  {
    forall j: nat
      ensures SomePrefixAbove(u1, u2, j) <==> j + 1 < n
    {
      if j + 1 < n {
        SomePrefix(u1, u2, n, j + 1);
      } else {
        NoPrefix(u1, n, j + 1);
        NoPrefix(u2, n, j + 1);
      }
    }
  }

  lemma NoPrefix(u: nat, n: nat, i: nat)
    requires u < Pow2(n) && n <= i
    ensures Quot(u, Pow2(i)) == 0
  {
    Pow2Monotone(n, i);
    DivModUnique(u, Pow2(i), 0, u);
  }

  /** One of the scalars has a bit, so the loop has a length. */
  lemma JointLengthOf(u1: nat, u2: nat)
    requires u1 < TWO256 && u2 < TWO256 && (u1 > 0 || u2 > 0)
    ensures JointLength(u1, u2, JointBits(u1, u2))
  {
    var n := JointBits(u1, u2);
    Pow2Of256();
    if n > 256 {
      Pow2Monotone(256, n - 1);
    }
    Pow2Monotone(BitLen(u1), n);
    Pow2Monotone(BitLen(u2), n);
    assert Pow2(0) == 1;
  }

  lemma SomePrefix(u1: nat, u2: nat, n: nat, i: nat)
    requires JointLength(u1, u2, n) && i < n
    ensures Quot(u1, Pow2(i)) > 0 || Quot(u2, Pow2(i)) > 0
  {
    if u1 >= Pow2(n - 1) {
      PrefixPositive(u1, n, i);
    } else {
      PrefixPositive(u2, n, i);
    }
  }

  // ---------- Exceptional rounds in terms of the scalars ----------

  /** A multiple of a point of order n is the identity exactly for the multiples of n. */
  lemma TimesZeroExactly(c: Curve, j: nat, n: nat, G: Point)
    requires c.PrimeField() && c.GroupLaw() && c.OnCurve(G) && HasOrder(c, G, n)
    ensures c.Times(j, G) == Infinity <==> Cong(j, 0, n)
  {
    TimesRemainder(c, j, n, G);
    DivModUnique(0, n, 0, 0);
  }

  /** Two multiples are equal exactly for congruent scalars. */
  lemma TimesEqualExactly(c: Curve, a: nat, b: nat, n: nat, G: Point)
    requires c.PrimeField() && c.GroupLaw() && c.OnCurve(G) && HasOrder(c, G, n)
    ensures c.Times(a, G) == c.Times(b, G) <==> Cong(a, b, n)
    decreases a < b
  {
    if a < b {
      TimesEqualExactly(c, b, a, n, G);
    } else {
      c.TimesOnCurve(b, G);
      c.TimesOnCurve(a - b, G);
      c.TimesSumTo(b, a - b, a, G);
      if c.Times(a, G) == c.Times(b, G) {
        c.AbsorbUnique(c.Times(b, G), c.Times(a - b, G));
      }
      TimesZeroExactly(c, a - b, n, G);
      CongDifference(a, b, n);
    }
  }

  lemma CongDifference(a: int, b: int, n: int)
    requires n > 0
    ensures Cong(a - b, 0, n) <==> Cong(a, b, n)
  {
    if Cong(a, b, n) {
      CongSub(a, b, b, b, n);
    }
    if Cong(a - b, 0, n) {
      CongAdd(a - b, 0, b, b, n);
    }
  }

  /** Two multiples are opposite exactly for scalars that add up to 0. */
  lemma TimesOppositeExactly(c: Curve, a: nat, b: nat, n: nat, G: Point)
    requires c.PrimeField() && c.GroupLaw() && c.OnCurve(G) && HasOrder(c, G, n)
    ensures c.Times(a, G) == c.Neg(c.Times(b, G)) <==> Cong(a + b, 0, n)
  {
    c.TimesOnCurve(a, G);
    c.TimesOnCurve(b, G);
    c.TimesSum(b, a, G);
    TimesZeroExactly(c, a + b, n, G);
    c.AddInverse(c.Times(b, G));
    if c.Add(c.Times(b, G), c.Times(a, G)) == Infinity {
      c.InverseUnique(c.Times(b, G), c.Times(a, G));
    }
  }

  /** Two multiples have one abscissa exactly when the scalars are equal or opposite. */
  lemma TimesAbscissaExactly(c: Curve, a: nat, b: nat, n: nat, G: Point)
    requires c.PrimeField() && c.GroupLaw() && c.OnCurve(G) && HasOrder(c, G, n)
    requires c.Times(a, G).Affine? && c.Times(b, G).Affine?
    ensures c.Times(a, G).x == c.Times(b, G).x <==> Cong(a, b, n) || Cong(a + b, 0, n)
  {
    c.TimesOnCurve(a, G);
    c.TimesOnCurve(b, G);
    TimesEqualExactly(c, a, b, n, G);
    TimesOppositeExactly(c, a, b, n, G);
    if c.Times(a, G).x == c.Times(b, G).x {
      c.SameAbscissa(c.Times(b, G), c.Times(a, G));
    }
  }

  /** Twice a number is 0 modulo an odd n exactly when the number is. */
  lemma HalveZero(m: int, n: int)
    requires n > 0 && n % 2 == 1
    ensures Cong(m + m, 0, n) <==> Cong(m, 0, n)
  {
    if Cong(m + m, 0, n) {
      var k := CongElim(m + m, 0, n);
      assert k % 2 == 0 by {
        EvenFactor(n, k, m);
      }
      assert n * k == n * (2 * (k / 2)) == 2 * (n * (k / 2));
      CongIntro(m, 0, k / 2, n);
    }
    if Cong(m, 0, n) {
      CongAdd(m, 0, m, 0, n);
    }
  }

  lemma EvenFactor(n: int, k: int, m: int)
    requires n % 2 == 1 && n * k == m + m
    ensures k % 2 == 0
  {
    var h := n / 2;
    assert n * k == 2 * (h * k) + k;
  }

  /** The bits at i need the last table entry although the key is the base point or its mirror image. */
  ghost predicate EntryMissing(b1: nat, b2: nat, d: nat, n: nat)
    requires n > 0
  {
    b1 == 1 && b2 == 1 && (Cong(d, 1, n) || Cong(d + 1, 0, n))
  }

  /** In the round that adds t G to twice m G, no point is the identity and the abscissas differ. */
  ghost predicate SumsApart(m: nat, t: nat, n: nat)
    requires n > 0
  {
    !Cong(m, 0, n) && (!Cong(t, 0, n) ==> !Cong(t, m + m, n) && !Cong(t + (m + m), 0, n))
  }

  /** What ShamirSafe says, in terms of the scalars and the private key alone. */
  ghost predicate ScalarsSafe(u1: nat, u2: nat, d: nat, n: nat)
    requires n > 0
  {
    && (forall i: nat :: !EntryMissing(BitAt(u1, i), BitAt(u2, i), d, n))
    && (forall i: nat :: SomePrefixAbove(u1, u2, i) ==>
          SumsApart(Weighted(Quot(u1, Pow2(i + 1)), Quot(u2, Pow2(i + 1)), d),
                    Weighted(BitAt(u1, i), BitAt(u2, i), d), n))
  }

  ghost function Weighted(a: nat, b: nat, d: nat): nat {
    MulNonneg(b, d);
    a + b * d
  }

  /** The loop meets no exceptional case exactly when the prefixes of its scalars do not. */
  lemma ShamirSafeExactly(c: Curve, u1: nat, u2: nat, d: nat, n: nat, G: Point, Q: Point)
    requires Group(c, G, Q) && HasOrder(c, G, n) && n % 2 == 1 && Q == c.Times(d, G) && G.Affine? && Q.Affine?
    ensures ShamirSafe(c, u1, u2, G, Q) <==> ScalarsSafe(u1, u2, d, n)
  {
    forall i: nat
      ensures EntryUsable(u1, u2, i, G, Q) <==> !EntryMissing(BitAt(u1, i), BitAt(u2, i), d, n)
      ensures RoundSafe(c, u1, u2, i, G, Q)
        <==> SumsApart(Weighted(Quot(u1, Pow2(i + 1)), Quot(u2, Pow2(i + 1)), d),
                       Weighted(BitAt(u1, i), BitAt(u2, i), d), n)
    {
      EntryExactly(c, d, n, G, Q);
      RoundExactly(c, u1, u2, i, d, n, G, Q);
    }
  }

  lemma EntryExactly(c: Curve, d: nat, n: nat, G: Point, Q: Point)
    requires Group(c, G, Q) && HasOrder(c, G, n) && Q == c.Times(d, G) && G.Affine? && Q.Affine?
    ensures G.x == Q.x <==> Cong(d, 1, n) || Cong(d + 1, 0, n)
  {
    SmallMultiples(c, G);
    TimesAbscissaExactly(c, d, 1, n, G);
  }

  lemma RoundExactly(c: Curve, u1: nat, u2: nat, i: nat, d: nat, n: nat, G: Point, Q: Point)
    requires Group(c, G, Q) && HasOrder(c, G, n) && n % 2 == 1 && Q == c.Times(d, G)
    ensures RoundSafe(c, u1, u2, i, G, Q)
      <==> SumsApart(Weighted(Quot(u1, Pow2(i + 1)), Quot(u2, Pow2(i + 1)), d),
                     Weighted(BitAt(u1, i), BitAt(u2, i), d), n)
  {
    var m, t := Weighted(Quot(u1, Pow2(i + 1)), Quot(u2, Pow2(i + 1)), d), Weighted(BitAt(u1, i), BitAt(u2, i), d);
    WeightedMultiple(c, Quot(u1, Pow2(i + 1)), Quot(u2, Pow2(i + 1)), d, G, Q);
    WeightedMultiple(c, BitAt(u1, i), BitAt(u2, i), d, G, Q);
    RoundAsMultiples(c, u1, u2, i, n, G, Q, m, t);
  }

  lemma WeightedMultiple(c: Curve, a: nat, b: nat, d: nat, G: Point, Q: Point)
    requires Group(c, G, Q) && Q == c.Times(d, G)
    ensures Lin(c, a, b, G, Q) == c.Times(Weighted(a, b, d), G)
  {
    LinAsMultiple(c, d, G, Q, a, b, b * d);
  }

  lemma RoundAsMultiples(c: Curve, u1: nat, u2: nat, i: nat, n: nat, G: Point, Q: Point, m: nat, t: nat)
    requires Group(c, G, Q) && HasOrder(c, G, n) && n % 2 == 1
    requires Lin(c, Quot(u1, Pow2(i + 1)), Quot(u2, Pow2(i + 1)), G, Q) == c.Times(m, G)
    requires Lin(c, BitAt(u1, i), BitAt(u2, i), G, Q) == c.Times(t, G)
    ensures RoundSafe(c, u1, u2, i, G, Q) <==> SumsApart(m, t, n)
  {
    SumsExactly(c, m, t, n, G);
  }

  lemma SumsExactly(c: Curve, m: nat, t: nat, n: nat, G: Point)
    requires c.PrimeField() && c.GroupLaw() && c.OnCurve(G) && HasOrder(c, G, n) && n % 2 == 1
    ensures var S, T := c.Times(m, G), c.Times(t, G);
      SumsApart(m, t, n)
      <==> S != c.Neg(S) && (T.Affine? ==> c.Add(S, S).Affine? && T.x != c.Add(S, S).x)
  {
    TimesOppositeExactly(c, m, m, n, G);
    HalveZero(m, n);
    c.TimesSum(m, m, G);
    if !Cong(m, 0, n) {
      AbscissasExactly(c, t, m + m, n, G);
    }
  }

  lemma AbscissasExactly(c: Curve, t: nat, w: nat, n: nat, G: Point)
    requires c.PrimeField() && c.GroupLaw() && c.OnCurve(G) && HasOrder(c, G, n) && !Cong(w, 0, n)
    ensures var W, T := c.Times(w, G), c.Times(t, G);
      (!Cong(t, 0, n) ==> !Cong(t, w, n) && !Cong(t + w, 0, n)) <==> (T.Affine? ==> W.Affine? && T.x != W.x)
  {
    TimesZeroExactly(c, w, n, G);
    TimesZeroExactly(c, t, n, G);
    if c.Times(t, G).Affine? {
      TimesAbscissaExactly(c, t, w, n, G);
    }
  }
}
