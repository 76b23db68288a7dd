/**
  Scalar multiplication by the Montgomery ladder on co-Z points: two points R0 = m P and
  R1 = (m + 1) P over one unstored denominator Z, m being the scanned prefix of the scalar.
 */
module Ladder {
  import opened Options
  import opened Words
  import opened Vli
  import opened VliReduce
  import opened VliMod
  import opened Congruence
  import opened Curves
  import opened Field
  import opened PointOps

  // ---------- The formulas as steps on points ----------

  /** All four coordinates are 0, which no addition changes. */
  ghost predicate Zeros(X1: Ptr, Y1: Ptr, X2: Ptr, Y2: Ptr)
    reads X1.buf, Y1.buf, X2.buf, Y2.buf
  {
    && X1.Ok() && Y1.Ok() && X2.Ok() && Y2.Ok()
    && X1.V() == 0 && Y1.V() == 0 && X2.V() == 0 && Y2.V() == 0
  }

  /** Two coordinate pairs over one denominator stand for opposite points. */
  ghost predicate Opposite(c: Curve, x1: int, y1: int, x2: int, y2: int) {
    c.Eq(x2 - x1, 0) && c.Eq(y2 + y1, 0)
  }

  /**
    (P1, P2) becomes (P1 - P2, P1 + P2) over a new common denominator. For opposite points the formulas break
    down, and the first pair becomes (0, 0).
   */
  method ConjugateStep(X1: Ptr, Y1: Ptr, X2: Ptr, Y2: Ptr, p: Ptr, ghost c: Curve, ghost Z: int, ghost P1: Point,
                       ghost P2: Point, ghost apart: bool)
    returns (ghost Z': int)
    requires Quad(X1, Y1, X2, Y2, p, c) && c.PrimeField()
    requires if apart then c.Shared(X1.V(), Y1.V(), X2.V(), Y2.V(), Z, P1, P2)
             else Opposite(c, X1.V(), Y1.V(), X2.V(), Y2.V())
    modifies X1.buf, Y1.buf, X2.buf, Y2.buf
    ensures Quad(X1, Y1, X2, Y2, p, c)
    ensures apart ==>
      c.Rep(X1.V(), Y1.V(), Z', c.Add(P1, c.Neg(P2))) && c.Rep(X2.V(), Y2.V(), Z', c.Add(P1, P2))
    ensures !apart ==> X1.V() == 0 && Y1.V() == 0
    ensures old(Zeros(X1, Y1, X2, Y2)) ==> Zeros(X1, Y1, X2, Y2)
  {
    ghost var x1: int, y1: int, x2: int, y2: int := X1.V(), Y1.V(), X2.V(), Y2.V();
    ghost var zeros := Zeros(X1, Y1, X2, Y2);
    XYcZAddC(X1, Y1, X2, Y2, p, c);
    Z' := Z * (x2 - x1);
    if apart {
      SumMeaning(c, x1, y1, x2, y2, Z, P1, P2, X2.V(), Y2.V());
      DifferenceMeaning(c, x1, y1, x2, y2, Z, P1, P2, X1.V(), Y1.V());
    } else {
      OppositeVanish(c, x1, y1, x2, y2, X1.V(), Y1.V());
    }
    if zeros {
      ghost var B, E :| Sum(c, x1, y1, x2, y2, B, E, X2.V(), Y2.V());
      ZeroSum(c, B, E, X2.V(), Y2.V());
      OppositeVanish(c, x1, y1, x2, y2, X1.V(), Y1.V());
    }
  }

  /** The addition formula on zeros. */
  lemma ZeroSum(c: Curve, B: int, E: int, X3: nat, Y3: nat)
    requires Sum(c, 0, 0, 0, 0, B, E, X3, Y3) && X3 < c.modulus && Y3 < c.modulus
    ensures c.Eq(B, 0) && c.Eq(E, 0) && X3 == 0 && Y3 == 0
  {
    c.EqSub(0, 0, B, 0);
    c.Canonical(X3, 0);
    c.EqSub(0, 0, E, 0);
    c.Canonical(Y3, 0);
  }

  lemma OppositeVanish(c: Curve, x1: int, y1: int, x2: int, y2: int, X3: nat, Y3: nat)
    requires Difference(c, x1, y1, x2, y2, X3, Y3) && Opposite(c, x1, y1, x2, y2)
    requires X3 < c.modulus && Y3 < c.modulus
    ensures X3 == 0 && Y3 == 0
  {
    var e, t := x2 - x1, y2 + y1;
    c.EqMul(e, 0, e, 0);
    c.EqMul(e, 0, e * e, 0);
    c.EqMul(x1, x1, e * e, 0);
    c.EqMul(x2, x2, e * e, 0);
    c.EqMul(y1, y1, e * (e * e), 0);
    c.EqMul(t, 0, t, 0);
    c.EqSub(t * t, 0, x1 * (e * e), 0);
    c.EqSub(t * t - x1 * (e * e), 0, x2 * (e * e), 0);
    c.EqMul(t, 0, X3 - x1 * (e * e), X3 - x1 * (e * e));
    assert 0 * (X3 - x1 * (e * e)) == 0;
    c.EqSub(t * (X3 - x1 * (e * e)), 0, y1 * (e * (e * e)), 0);
    c.Canonical(X3, 0);
    c.Canonical(Y3, 0);
  }

  lemma SumMeaning(c: Curve, x1: int, y1: int, x2: int, y2: int, Z: int, P1: Point, P2: Point, X3: int, Y3: int)
    requires c.PrimeField() && c.Shared(x1, y1, x2, y2, Z, P1, P2)
    requires exists B, E :: Sum(c, x1, y1, x2, y2, B, E, X3, Y3)
    ensures c.Rep(X3, Y3, Z * (x2 - x1), c.Add(P1, P2))
  {
    var B, E :| Sum(c, x1, y1, x2, y2, B, E, X3, Y3);
    var e := x2 - x1;
    c.AddMeaning(x1, y1, x2, y2, Z, P1, P2, B, x2 * (e * e), E, X3, Y3);
  }

  lemma DifferenceMeaning(c: Curve, x1: int, y1: int, x2: int, y2: int, Z: int, P1: Point, P2: Point, X3: int, Y3: int)
    requires c.PrimeField() && c.Shared(x1, y1, x2, y2, Z, P1, P2)
    requires Difference(c, x1, y1, x2, y2, X3, Y3)
    ensures c.Rep(X3, Y3, Z * (x2 - x1), c.Add(P1, c.Neg(P2)))
  {
    var e := x2 - x1;
    c.SubMeaning(x1, y1, x2, y2, Z, P1, P2, x1 * (e * e), x2 * (e * e), y1 * (e * (e * e)), X3, Y3);
  }

  /** (P1, P2) becomes (P1, P1 + P2) over a new common denominator, if their abscissas differ. */
  method AddStep(X1: Ptr, Y1: Ptr, X2: Ptr, Y2: Ptr, p: Ptr, ghost c: Curve, ghost Z: int, ghost P1: Point,
                 ghost P2: Point, ghost apart: bool)
    returns (ghost Z': int)
    requires Quad(X1, Y1, X2, Y2, p, c) && c.PrimeField()
    requires apart ==> c.Shared(X1.V(), Y1.V(), X2.V(), Y2.V(), Z, P1, P2)
    modifies X1.buf, Y1.buf, X2.buf, Y2.buf
    ensures Quad(X1, Y1, X2, Y2, p, c) && Z' == Z * (old(X2.V()) as int - old(X1.V()))
    ensures apart ==> c.Rep(X1.V(), Y1.V(), Z', P1) && c.Rep(X2.V(), Y2.V(), Z', c.Add(P1, P2))
    ensures old(Zeros(X1, Y1, X2, Y2)) ==> Zeros(X1, Y1, X2, Y2)
  {
    ghost var x1: int, y1: int, x2: int, y2: int := X1.V(), Y1.V(), X2.V(), Y2.V();
    ghost var zeros := Zeros(X1, Y1, X2, Y2);
    XYcZAdd(X1, Y1, X2, Y2, p, c);
    Z' := Z * (x2 - x1);
    if apart {
      ghost var e := x2 - x1;
      c.AddMeaning(x1, y1, x2, y2, Z, P1, P2, X1.V(), x2 * (e * e), Y1.V(), X2.V(), Y2.V());
    }
    if zeros {
      ZeroSum(c, X1.V(), Y1.V(), X2.V(), Y2.V());
      c.Canonical(X1.V(), 0);
      c.Canonical(Y1.V(), 0);
    }
  }

  // ---------- The pair of ladder points ----------

  /** Two coordinate pairs in four separate buffers. */
  ghost predicate Pair(Rx: seq<Ptr>, Ry: seq<Ptr>, p: Ptr, c: Curve)
    requires |Rx| == |Ry| == 2
    reads Rx[0].buf, Ry[0].buf, Rx[1].buf, Ry[1].buf, p.buf
  {
    Quad(Rx[0], Ry[0], Rx[1], Ry[1], p, c)
  }

  /** R0 = m P and R1 = (m + 1) P over the denominator Z. */
  ghost predicate Holds(Rx: seq<Ptr>, Ry: seq<Ptr>, p: Ptr, c: Curve, Z: int, m: nat, P0: Point)
    requires |Rx| == |Ry| == 2
    reads Rx[0].buf, Ry[0].buf, Rx[1].buf, Ry[1].buf, p.buf
  {
    && Pair(Rx, Ry, p, c) && c.modulus > 0
    && c.Rep(Rx[0].V(), Ry[0].V(), Z, c.Times(m, P0))
    && c.Rep(Rx[1].V(), Ry[1].V(), Z, c.Times(m + 1, P0))
  }

  /** The pair is lost: a denominator of 0 modulo the prime left nothing but zeros. */
  ghost predicate Lost(Rx: seq<Ptr>, Ry: seq<Ptr>, p: Ptr, c: Curve)
    requires |Rx| == |Ry| == 2
    reads Rx[0].buf, Ry[0].buf, Rx[1].buf, Ry[1].buf, p.buf
  {
    Pair(Rx, Ry, p, c) && Zeros(Rx[0], Ry[0], Rx[1], Ry[1])
  }

  /** The ladder's pair, unless the initial denominator lost it. */
  ghost predicate Keeps(Rx: seq<Ptr>, Ry: seq<Ptr>, p: Ptr, c: Curve, Z: int, m: nat, P0: Point, live: bool)
    requires |Rx| == |Ry| == 2
    reads Rx[0].buf, Ry[0].buf, Rx[1].buf, Ry[1].buf, p.buf
  {
    if live then Holds(Rx, Ry, p, c, Z, m, P0) else Lost(Rx, Ry, p, c)
  }

  /** What the proofs assume of the field, the group and the base point. */
  ghost predicate Setting(c: Curve, P0: Point) {
    c.PrimeField() && c.GroupLaw() && c.OnCurve(P0) && P0.Affine?
  }

  /** The sign with which the base point appears after the conjugate step. */
  ghost function Signed(c: Curve, P0: Point, plus: bool): Point
    requires c.modulus > 0
  {
    if plus then P0 else c.Neg(P0)
  }

  /** The points of a round are curve points with different abscissas. */
  lemma RoundApart(c: Curve, P0: Point, m: nat)
    requires Setting(c, P0) && c.Safe(P0, m)
    requires c.Times(m, P0).Affine? && c.Times(m + 1, P0).Affine?
    ensures c.OnCurve(c.Times(m, P0)) && c.OnCurve(c.Times(m + 1, P0)) && c.OnCurve(c.Times(2 * m + 1, P0))
    ensures c.OnCurve(c.Neg(P0)) && c.Neg(P0).Affine? && c.Neg(P0).x == P0.x
    ensures c.Times(m, P0).x != c.Times(m + 1, P0).x
    ensures c.Times(2 * m + 1, P0).Affine? && c.Times(2 * m + 1, P0).x != P0.x
  {
    c.TimesOnCurve(m, P0);
    c.TimesOnCurve(m + 1, P0);
    c.TimesOnCurve(2 * m + 1, P0);
    c.NegOnCurve(P0);
    c.SafeStep(P0, m);
  }

  /** The sums and differences a round forms, for the bit 1. */
  lemma RoundPlus(c: Curve, P0: Point, m: nat)
    requires Setting(c, P0)
    ensures c.Add(c.Times(m + 1, P0), c.Neg(c.Times(m, P0))) == P0
    ensures c.Add(c.Times(m + 1, P0), c.Times(m, P0)) == c.Times(2 * m + 1, P0)
    ensures c.Add(c.Times(2 * m + 1, P0), P0) == c.Times(2 * m + 2, P0)
  {
    c.LadderDifference(m, P0);
    c.TimesSumTo(m + 1, m, 2 * m + 1, P0);
    c.TimesNext(2 * m + 1, 2 * m + 2, P0);
    c.TimesOnCurve(2 * m + 1, P0);
    c.Commute(P0, c.Times(2 * m + 1, P0));
  }

  /** The sums and differences a round forms, for the bit 0. */
  lemma RoundMinus(c: Curve, P0: Point, m: nat)
    requires Setting(c, P0)
    ensures c.Add(c.Times(m, P0), c.Neg(c.Times(m + 1, P0))) == c.Neg(P0)
    ensures c.Add(c.Times(m, P0), c.Times(m + 1, P0)) == c.Times(2 * m + 1, P0)
    ensures c.Add(c.Times(2 * m + 1, P0), c.Neg(P0)) == c.Times(2 * m, P0)
  {
    c.LadderDifference(m, P0);
    c.TimesSumTo(m, m + 1, 2 * m + 1, P0);
    c.TimesNext(2 * m, 2 * m + 1, P0);
    c.TimesOnCurve(2 * m, P0);
    c.Commute(P0, c.Times(2 * m, P0));
    c.SumMinus(c.Times(2 * m, P0), P0);
  }

  /** The two points of a pair whose sum is the identity are opposite. */
  lemma OppositePair(c: Curve, X0: nat, Y0: nat, X1: nat, Y1: nat, Z: int, m: nat, P0: Point)
    requires Setting(c, P0) && c.Times(2 * m + 1, P0) == Infinity
    requires c.Rep(X0, Y0, Z, c.Times(m, P0)) && c.Rep(X1, Y1, Z, c.Times(m + 1, P0))
    ensures Opposite(c, X0, Y0, X1, Y1) && Opposite(c, X1, Y1, X0, Y0)
  {
    c.TimesOnCurve(m, P0);
    c.TimesOnCurve(m + 1, P0);
    c.TimesSumTo(m, m + 1, 2 * m + 1, P0);
    c.InverseUnique(c.Times(m, P0), c.Times(m + 1, P0));
    OppositeCoordinates(c, X0, Y0, X1, Y1, Z, c.Times(m, P0));
  }

  lemma OppositeCoordinates(c: Curve, X0: nat, Y0: nat, X1: nat, Y1: nat, Z: int, q: Point)
    requires c.modulus > 0 && c.Rep(X0, Y0, Z, q) && c.Rep(X1, Y1, Z, c.Neg(q))
    ensures Opposite(c, X0, Y0, X1, Y1) && Opposite(c, X1, Y1, X0, Y0)
  {
    var T := Z * (Z * Z);
    var y := c.Neg(q).y;
    CongMod(-q.y, c.modulus);
    c.EqSub(X1, q.x * (Z * Z), X0, q.x * (Z * Z));
    c.EqSub(X0, q.x * (Z * Z), X1, q.x * (Z * Z));
    c.EqMul(y, -q.y, T, T);
    c.EqAdd(Y1, -q.y * T, Y0, q.y * T);
    assert -q.y * T + q.y * T == 0;
  }

  /** A round works, or its two points are opposite, which is where it fails. */
  ghost predicate SafeOrOpposite(c: Curve, P0: Point, m: nat, apart: bool)
    requires c.modulus > 0
  {
    if apart then c.Safe(P0, m) else c.Times(2 * m + 1, P0) == Infinity
  }

  /**
    The conjugate half of a round: R[a] = +-P, R[1 - a] = (2m + 1) P; or R[a] = (0, 0) for opposite points, and for
    a lost pair, which stays lost.
   */
  method FirstHalf(Rx: seq<Ptr>, Ry: seq<Ptr>, a: nat, p: Ptr, ghost c: Curve, ghost Z: int, ghost m: nat,
                   ghost P0: Point, ghost apart: bool, ghost live: bool)
    returns (ghost Z': int)
    requires |Rx| == |Ry| == 2 && a <= 1
    requires Setting(c, P0) && (apart ==> live) && Keeps(Rx, Ry, p, c, Z, m, P0, live)
    requires live ==> SafeOrOpposite(c, P0, m, apart)
    modifies Rx[0].buf, Ry[0].buf, Rx[1].buf, Ry[1].buf
    ensures Pair(Rx, Ry, p, c)
    ensures apart ==> Halfway(Rx, Ry, a, c, Z', m, P0)
    ensures !apart ==> Rx[a].V() == 0 && Ry[a].V() == 0
    ensures !live ==> Lost(Rx, Ry, p, c)
  {
    if !live {
      ZerosOpposite(c);
    } else if apart {
      RoundApart(c, P0, m);
      RoundPlus(c, P0, m);
      RoundMinus(c, P0, m);
    } else {
      OppositePair(c, Rx[0].V(), Ry[0].V(), Rx[1].V(), Ry[1].V(), Z, m, P0);
    }
    if a == 1 {
      Z' := ConjugateStep(Rx[1], Ry[1], Rx[0], Ry[0], p, c, Z, c.Times(m + 1, P0), c.Times(m, P0), apart);
    } else {
      Z' := ConjugateStep(Rx[0], Ry[0], Rx[1], Ry[1], p, c, Z, c.Times(m, P0), c.Times(m + 1, P0), apart);
    }
  }

  lemma ZerosOpposite(c: Curve)
    requires c.modulus > 0
    ensures Opposite(c, 0, 0, 0, 0)
  {
  }

  /** The pair between the two halves of a round. */
  ghost predicate Halfway(Rx: seq<Ptr>, Ry: seq<Ptr>, a: nat, c: Curve, Z: int, m: nat, P0: Point)
    requires |Rx| == |Ry| == 2 && a <= 1
    reads Rx[0].buf, Ry[0].buf, Rx[1].buf, Ry[1].buf
  {
    && Rx[0].Ok() && Rx[1].Ok() && Ry[0].Ok() && Ry[1].Ok() && c.modulus > 0
    && c.Times(m, P0).Affine? && c.Times(m + 1, P0).Affine?
    && c.Rep(Rx[a].V(), Ry[a].V(), Z, Signed(c, P0, a == 1))
    && c.Rep(Rx[1 - a].V(), Ry[1 - a].V(), Z, c.Times(2 * m + 1, P0))
  }

  /** The additive half of a round: the pair for the prefix 2m + a. */
  method SecondHalf(Rx: seq<Ptr>, Ry: seq<Ptr>, a: nat, p: Ptr, ghost c: Curve, ghost Z: int, ghost m: nat,
                    ghost P0: Point, ghost apart: bool)
    returns (ghost Z': int)
    requires |Rx| == |Ry| == 2 && a <= 1 && Pair(Rx, Ry, p, c) && Setting(c, P0)
    requires apart ==> c.Safe(P0, m) && Halfway(Rx, Ry, a, c, Z, m, P0)
    modifies Rx[0].buf, Ry[0].buf, Rx[1].buf, Ry[1].buf
    ensures Pair(Rx, Ry, p, c) && (apart ==> Holds(Rx, Ry, p, c, Z', 2 * m + a, P0))
    ensures old(Lost(Rx, Ry, p, c)) ==> Lost(Rx, Ry, p, c)
    ensures Z' == Z * (old(Rx[a].V()) as int - old(Rx[1 - a].V()))
  {
    if a == 1 {
      Z' := AddLower(Rx, Ry, p, c, Z, m, P0, apart);
    } else {
      Z' := AddUpper(Rx, Ry, p, c, Z, m, P0, apart);
    }
  }

  /** R1 := (2m + 1) P + P and R0 := (2m + 1) P. */
  method AddLower(Rx: seq<Ptr>, Ry: seq<Ptr>, p: Ptr, ghost c: Curve, ghost Z: int, ghost m: nat, ghost P0: Point,
                  ghost apart: bool)
    returns (ghost Z': int)
    requires |Rx| == |Ry| == 2 && Pair(Rx, Ry, p, c) && Setting(c, P0)
    requires apart ==> c.Safe(P0, m) && Halfway(Rx, Ry, 1, c, Z, m, P0)
    modifies Rx[0].buf, Ry[0].buf, Rx[1].buf, Ry[1].buf
    ensures Pair(Rx, Ry, p, c) && (apart ==> Holds(Rx, Ry, p, c, Z', 2 * m + 1, P0))
    ensures old(Lost(Rx, Ry, p, c)) ==> Lost(Rx, Ry, p, c)
    ensures Z' == Z * (old(Rx[1].V()) as int - old(Rx[0].V()))
  {
    if apart {
      RoundApart(c, P0, m);
      RoundPlus(c, P0, m);
    }
    Z' := AddStep(Rx[0], Ry[0], Rx[1], Ry[1], p, c, Z, c.Times(2 * m + 1, P0), P0, apart);
  }

  /** R0 := (2m + 1) P - P and R1 := (2m + 1) P. */
  method AddUpper(Rx: seq<Ptr>, Ry: seq<Ptr>, p: Ptr, ghost c: Curve, ghost Z: int, ghost m: nat, ghost P0: Point,
                  ghost apart: bool)
    returns (ghost Z': int)
    requires |Rx| == |Ry| == 2 && Pair(Rx, Ry, p, c) && Setting(c, P0)
    requires apart ==> c.Safe(P0, m) && Halfway(Rx, Ry, 0, c, Z, m, P0)
    modifies Rx[0].buf, Ry[0].buf, Rx[1].buf, Ry[1].buf
    ensures Pair(Rx, Ry, p, c) && (apart ==> Holds(Rx, Ry, p, c, Z', 2 * m, P0))
    ensures old(Lost(Rx, Ry, p, c)) ==> Lost(Rx, Ry, p, c)
    ensures Z' == Z * (old(Rx[0].V()) as int - old(Rx[1].V()))
  {
    if apart {
      RoundApart(c, P0, m);
      RoundMinus(c, P0, m);
    }
    Z' := AddStep(Rx[1], Ry[1], Rx[0], Ry[0], p, c, Z, c.Times(2 * m + 1, P0), c.Neg(P0), apart);
  }

  // ---------- Start of the ladder ----------

  /**
    (X1, Y1) becomes 2P and (X2, Y2) becomes P, over the denominator the doubling produced. A given denominator
    need not be reduced; one that is 0 modulo the prime leaves only zeros.
   */
  method XYcZInitialDouble(X1: Ptr, Y1: Ptr, X2: Ptr, Y2: Ptr, initialZ: Option<Ptr>, p: Ptr, ghost c: Curve,
                           ghost P0: Point)
    returns (ghost Z: int)
    requires IsField(c, p) && X2.Ok() && Y2.Ok() && Elem(X1, c) && Elem(Y1, c)
    requires X1.buf != Y1.buf && X1.buf != X2.buf && X1.buf != Y2.buf && Y1.buf != X2.buf && Y1.buf != Y2.buf
    requires X2.buf != Y2.buf && p.buf !in {X1.buf, Y1.buf, X2.buf, Y2.buf}
    requires initialZ.Some? ==> initialZ.value.Ok()
    requires Setting(c, P0) && P0 == Affine(X1.V(), Y1.V()) && P0 != c.Neg(P0)
    modifies X1.buf, Y1.buf, X2.buf, Y2.buf
    ensures Quad(X2, Y2, X1, Y1, p, c)
    ensures old(Usable(initialZ, c)) ==> c.Rep(X1.V(), Y1.V(), Z, c.Add(P0, P0)) && c.Rep(X2.V(), Y2.V(), Z, P0)
    ensures !old(Usable(initialZ, c)) ==> Zeros(X2, Y2, X1, Y1)
  {
    var z := InitialZ(initialZ, c);
    ghost var live := !c.Eq(z.V(), 0);
    Set(X2, X1);
    Set(Y2, Y1);
    ApplyZ(X1, Y1, z, p, c);
    ghost var x: int, y: int, w: int := X1.V(), Y1.V(), z.V();
    if live {
      assert c.Rep(x, y, w, P0);
    } else {
      ZeroScaled(c, P0.x, P0.y, w, x, y);
    }
    EccPointDoubleJacobian(X1, Y1, z, p, c);
    if live {
      DoubledMeaning(c, x, y, w, P0, X1.V(), Y1.V(), z.V());
    } else if w != 0 {
      DoubledZero(c, w, X1.V(), Y1.V(), z.V());
    }
    Z := z.V();
    ApplyZ(X2, Y2, z, p, c);
    if !live {
      ZeroScaled(c, P0.x, P0.y, 0, X2.V(), Y2.V());
    }
  }

  /** Coordinates multiplied by powers of a denominator that is 0 modulo the prime. */
  lemma ZeroScaled(c: Curve, x: int, y: int, z: int, X: nat, Y: nat)
    requires X < c.modulus && Y < c.modulus && c.Eq(z, 0) && c.Eq(X, x * (z * z)) && c.Eq(Y, y * (z * (z * z)))
    ensures X == 0 && Y == 0
  {
    c.EqMul(z, 0, z, 0);
    c.EqMul(z, 0, z * z, 0);
    c.EqMul(x, x, z * z, 0);
    c.EqMul(y, y, z * (z * z), 0);
    c.Canonical(X, 0);
    c.Canonical(Y, 0);
  }

  /** Doubling zeros. */
  lemma DoubledZero(c: Curve, z: int, X3: nat, Y3: nat, Z3: nat)
    requires c.PrimeField() && c.modulus > 2 && c.Eq(z, 0) && Doubled(c, 0, 0, z, X3, Y3, Z3)
    requires X3 < c.modulus && Y3 < c.modulus && Z3 < c.modulus
    ensures X3 == 0 && Y3 == 0 && Z3 == 0
  {
    var B, A, Q :| DoublingBy(c, 0, 0, z, B, A, Q, X3, Y3);
    ZeroSlope(c, z, B);
    ZeroDoubling(c, B, A, Q, X3, Y3);
    assert 0 * z == 0;
    c.Canonical(Z3, 0);
  }

  lemma ZeroSlope(c: Curve, z: int, B: int)
    requires c.PrimeField() && c.modulus > 2 && c.Eq(z, 0) && c.Eq(2 * B, 3 * (0 - (z * z) * (z * z)))
    ensures c.Eq(B, 0)
  {
    var w := z * z;
    c.EqMul(z, 0, z, 0);
    c.EqMul(w, 0, w, 0);
    c.EqSub(0, 0, w * w, 0);
    c.EqMul(3, 3, 0 - w * w, 0);
    c.TwoNonzero();
    c.Cancel(B, 0, 2);
  }

  lemma ZeroDoubling(c: Curve, B: int, A: int, Q: int, X3: nat, Y3: nat)
    requires c.Eq(B, 0) && c.Eq(A, 0) && c.Eq(Q, 0) && X3 < c.modulus && Y3 < c.modulus
    requires c.Eq(X3, B * B - A - A) && c.Eq(Y3, B * (A - X3) - Q)
    ensures X3 == 0 && Y3 == 0
  {
    c.EqMul(B, 0, B, 0);
    c.EqSub(B * B, 0, A, 0);
    c.EqSub(B * B - A, 0, A, 0);
    c.Canonical(X3, 0);
    var D := A - X3;
    c.EqMul(B, 0, D, D);
    assert 0 * D == 0;
    c.EqSub(B * D, 0, Q, 0);
    c.Canonical(Y3, 0);
  }

  /** No denominator is given, or one that is not 0 modulo the prime. */
  ghost predicate Usable(initialZ: Option<Ptr>, c: Curve)
    requires initialZ.Some? ==> initialZ.value.Ok()
    reads if initialZ.Some? then {initialZ.value.buf} else {}
  {
    initialZ.Some? ==> !c.Eq(initialZ.value.V(), 0)
  }

  lemma NonzeroElement(c: Curve, v: nat)
    requires 0 < v < c.modulus
    ensures !c.Eq(v, 0)
  {
    DivModUnique(v, c.modulus, 0, v);
    DivModUnique(0, c.modulus, 0, 0);
  }

  lemma DoubledMeaning(c: Curve, x: int, y: int, z: int, P0: Point, X3: int, Y3: int, Z3: int)
    requires c.PrimeField() && c.Reduced(P0) && c.Rep(x, y, z, P0) && P0 != c.Neg(P0)
    requires Doubled(c, x, y, z, X3, Y3, Z3)
    ensures c.Rep(X3, Y3, Z3, c.Add(P0, P0))
  {
    var B, A, Q :| DoublingBy(c, x, y, z, B, A, Q, X3, Y3);
    c.DoubleMeaning(x, y, z, P0, B, A, Q, X3, Y3);
    c.RepEq(X3, X3, Y3, Y3, y * z, Z3, c.Add(P0, P0));
  }

  /** A copy of the given denominator, which need not be reduced, or 1. */
  method InitialZ(initialZ: Option<Ptr>, ghost c: Curve) returns (z: Ptr)
    requires IsP256(c.modulus) && (initialZ.Some? ==> initialZ.value.Ok())
    ensures fresh(z.buf) && z.Ok() && (c.Eq(z.V(), 0) <==> !Usable(initialZ, c))
  {
    P256Shape(c.modulus);
    NonzeroElement(c, 1);
    z := NewVli();
    SetOne(z);
    if initialZ.Some? {
      Set(z, initialZ.value);
    }
  }

  // ---------- End of the ladder ----------

  /** An inverse modulo a prime, from the result of the Euclidean algorithm. */
  lemma InverseFromGcd(c: Curve, u: nat, r: int)
    requires c.PrimeField() && !c.Eq(u, 0)
    requires exists g :: IsGcd(g, u, c.modulus) && Cofactor(r, g, u, c.modulus)
    ensures c.Eq(r * u, 1) && 0 <= r < c.modulus
  {
    var g :| IsGcd(g, u, c.modulus) && Cofactor(r, g, u, c.modulus);
    var s := c.Inverse(u);
    var k := CongElim(s * u, 1, c.modulus);
    UnitGcd(g, u, c.modulus, s, k);
  }

  lemma UnitGcd(g: int, u: int, m: int, s: int, k: int)
    requires Common(g, u, m) && s * u == 1 + m * k
    ensures g == 1
  {
    var a := DividesElim(g, u);
    var b := DividesElim(g, m);
    assert s * (g * a) == g * (s * a) && (g * b) * k == g * (b * k);
    var t := s * a - b * k;
    assert g * t == 1;
    UnitFactor(g, t);
  }

  lemma UnitFactor(g: int, t: int)
    requires g > 0 && g * t == 1
    ensures g == 1
  {
    DivModUnique(1, g, t, 0);
  }

  /** The denominator can be recovered: the base point's abscissa is not 0 and the two points differ in theirs. */
  ghost predicate Recoverable(Rx: seq<Ptr>, Ry: seq<Ptr>, a: nat, c: Curve, Z: int, P0: Point)
    requires |Rx| == |Ry| == 2 && a <= 1 && c.modulus > 0
    reads Rx[0].buf, Ry[0].buf, Rx[1].buf, Ry[1].buf
  {
    && Rx[0].Ok() && Rx[1].Ok() && Ry[a].Ok() && P0.Affine? && P0.x != 0
    && c.Rep(Rx[a].V(), Ry[a].V(), Z, Signed(c, P0, a == 1))
    && !c.Eq(Rx[1].V() as int - Rx[0].V(), 0)
  }

  /**
    z := 1 / Z for the denominator Z after the last addition, recovered from the base point. The abscissa of the
    base point and the ordinate of R[a] are factors of the number to invert: if one of them is 0, so is z.
   */
  method FinalZ(Rx: seq<Ptr>, Ry: seq<Ptr>, a: nat, x: Ptr, y: Ptr, p: Ptr, ghost c: Curve, ghost Z: int,
                ghost P0: Point, ghost live: bool)
    returns (z: Ptr)
    requires |Rx| == |Ry| == 2 && a <= 1 && Pair(Rx, Ry, p, c) && Elem(x, c) && Elem(y, c)
    requires Setting(c, P0) && P0 == Affine(x.V(), y.V()) && P0 != c.Neg(P0)
    requires if live then Recoverable(Rx, Ry, a, c, Z, P0) else x.V() == 0 || Ry[a].V() == 0
    ensures fresh(z.buf) && Elem(z, c)
    ensures live ==> c.Eq(z.V() * (Z * (Rx[a].V() as int - Rx[1 - a].V())), 1)
    ensures !live ==> z.V() == 0
  {
    ghost var u: int;
    z, u := InverseFactor(Rx, Ry, a, x, p, c, Z, P0, live);
    ghost var r: int := z.V();
    FMul(z, z, y, p, c);
    ghost var z4: int := z.V();
    FMul(z, z, Rx[a], p, c);
    if live {
      InverseOfZ(c, Rx[0].V(), Rx[1].V(), Ry[a].V(), u, r, z4, Rx[a].V(), Rx[1 - a].V(), z.V(), Z, a, P0);
    } else {
      ZeroProduct(c, r, y.V(), z4, Rx[a].V(), z.V());
    }
  }

  /** z := 1 / (xP Ya (X1 - X0)), or 0 if that product is 0. */
  method InverseFactor(Rx: seq<Ptr>, Ry: seq<Ptr>, a: nat, x: Ptr, p: Ptr, ghost c: Curve, ghost Z: int,
                       ghost P0: Point, ghost live: bool)
    returns (z: Ptr, ghost u: int)
    requires |Rx| == |Ry| == 2 && a <= 1 && Pair(Rx, Ry, p, c) && Elem(x, c)
    requires Setting(c, P0) && P0.x == x.V() && P0 != c.Neg(P0)
    requires if live then Recoverable(Rx, Ry, a, c, Z, P0) else x.V() == 0 || Ry[a].V() == 0
    ensures fresh(z.buf) && Elem(z, c)
    ensures live ==> c.Eq(u, ((Rx[1].V() as int - Rx[0].V()) * Ry[a].V()) * P0.x) && c.Eq(z.V() * u, 1)
    ensures !live ==> z.V() == 0
  {
    P256Shape(c.modulus);
    z := NewVli();
    Denominator(z, Rx[0], Rx[1], Ry[a], x, p, c);
    u := z.V();
    if live {
      DenominatorNonzero(c, Rx[0].V(), Rx[1].V(), Ry[a].V(), u, Rx[a].V(), Z, a, P0);
    } else {
      DenominatorZero(c, Rx[1].V() as int - Rx[0].V(), Ry[a].V(), x.V(), z.V());
    }
    ModInv(z, z, p);
    if live {
      InverseFromGcd(c, u, z.V());
    }
  }

  lemma DenominatorZero(c: Curve, D: int, Ya: int, x: int, u: nat)
    requires u < c.modulus && c.Eq(u, (D * Ya) * x) && (x == 0 || Ya == 0)
    ensures u == 0
  {
    assert D * 0 == 0 && 0 * x == 0 && (D * Ya) * 0 == 0;
    c.Canonical(u, 0);
  }

  lemma ZeroProduct(c: Curve, r: int, y: int, z4: nat, x: int, z: nat)
    requires r == 0 && c.Eq(z4, r * y) && c.Eq(z, z4 * x) && z4 < c.modulus && z < c.modulus
    ensures z == 0
  {
    assert 0 * y == 0;
    c.Canonical(z4, 0);
    assert 0 * x == 0;
    c.Canonical(z, 0);
  }

  /** z := xP Yb (X1 - X0) */
  method Denominator(z: Ptr, X0: Ptr, X1: Ptr, Yb: Ptr, x: Ptr, p: Ptr, ghost c: Curve)
    requires IsField(c, p) && z.Ok() && Elem(X0, c) && Elem(X1, c) && Elem(Yb, c) && Elem(x, c)
    requires z.buf !in {X0.buf, X1.buf, Yb.buf, x.buf, p.buf}
    modifies z.buf
    ensures Elem(z, c) && c.Eq(z.V(), ((X1.V() as int - X0.V()) * Yb.V()) * x.V())
  {
    FSub(z, X1, X0, p, c);
    ghost var z0: int := z.V();
    FMul(z, z, Yb, p, c);
    ghost var z1: int := z.V();
    FMul(z, z, x, p, c);
    DenominatorSteps(c, X0.V(), X1.V(), Yb.V(), z0, z1, z.V(), x.V());
  }

  lemma DenominatorSteps(c: Curve, X0: int, X1: int, Ya: int, z0: int, z1: int, u: int, x: int)
    requires c.Eq(z0, X1 - X0) && c.Eq(z1, z0 * Ya) && c.Eq(u, z1 * x)
    ensures c.Eq(u, ((X1 - X0) * Ya) * x)
  {
    c.EqMul(z0, X1 - X0, Ya, Ya);
    c.EqMul(z1, (X1 - X0) * Ya, x, x);
  }

  lemma DenominatorNonzero(c: Curve, X0: int, X1: int, Ya: int, u: int, Xa: int, Z: int, a: nat, P0: Point)
    requires Setting(c, P0) && P0 != c.Neg(P0) && P0.x != 0
    requires c.Rep(Xa, Ya, Z, Signed(c, P0, a == 1)) && !c.Eq(X1 - X0, 0)
    requires c.Eq(u, ((X1 - X0) * Ya) * P0.x)
    ensures !c.Eq(u, 0)
  {
    NonzeroElement(c, P0.x);
    c.TwoCases(P0, P0);
    var q := Signed(c, P0, a == 1);
    SignedOrdinate(c, P0, a);
    c.ProductNonzero(Z, Z);
    c.ProductNonzero(Z, Z * Z);
    c.ProductNonzero(q.y, Z * (Z * Z));
    c.ProductNonzero(X1 - X0, Ya);
    c.ProductNonzero((X1 - X0) * Ya, P0.x);
  }

  /** The ordinate of +-P is +-y, and nonzero. */
  lemma SignedOrdinate(c: Curve, P0: Point, a: nat)
    requires Setting(c, P0) && P0 != c.Neg(P0)
    ensures c.Eq(Signed(c, P0, a == 1).y, if a == 1 then P0.y else -P0.y) && !c.Eq(Signed(c, P0, a == 1).y, 0)
  {
    c.TwoCases(P0, P0);
    CongMod(-P0.y, c.modulus);
    if c.Eq(P0.y, 0) {
      c.EqMul(2, 2, P0.y, 0);
    }
    if c.Eq(-P0.y, 0) {
      c.EqSub(0, 0, -P0.y, 0);
    }
  }

  /** z = Xa yP / u is the inverse of Z (Xa - X(1-a)). */
  lemma InverseOfZ(c: Curve, X0: int, X1: int, Ya: int, u: int, r: int, z4: int, Xa: int, Xb: int, z: int,
                   Z: int, a: nat, P0: Point)
    requires Setting(c, P0) && P0 != c.Neg(P0) && a <= 1
    requires if a == 1 then Xa == X1 && Xb == X0 else Xa == X0 && Xb == X1
    requires c.Rep(Xa, Ya, Z, Signed(c, P0, a == 1))
    requires c.Eq(u, ((X1 - X0) * Ya) * P0.x)
    requires c.Eq(r * u, 1) && c.Eq(z4, r * P0.y) && c.Eq(z, z4 * Xa)
    ensures c.Eq(z * (Z * (Xa - Xb)), 1)
  {
    var x, y, T := P0.x, P0.y, Z * (Z * Z);
    var D := X1 - X0;
    var s := if a == 1 then 1 else -1;
    SignedOrdinate(c, P0, a);
    // Ya = s y Z^3
    var qy := Signed(c, P0, a == 1).y;
    c.EqMul(qy, s * y, T, T);
    assert c.Eq(Ya, (s * y) * T);
    c.EqMul(D, D, Ya, (s * y) * T);
    c.EqMul(D * Ya, D * ((s * y) * T), x, x);
    c.EqMul(r, r, u, (D * ((s * y) * T)) * x);
    // z = r y x Z^2
    c.EqMul(z4, r * y, Xa, x * (Z * Z));
    c.EqMul(z, (r * y) * (x * (Z * Z)), Z * (s * D), Z * (s * D));
    InverseRegroup(r, x, y, s, D, Z);
    assert Xa - Xb == s * D;
  }

  lemma InverseRegroup(r: int, x: int, y: int, s: int, D: int, Z: int)
    ensures ((r * y) * (x * (Z * Z))) * (Z * (s * D)) == r * ((D * ((s * y) * (Z * (Z * Z)))) * x)
  {
    var W := Z * Z;
    var T := Z * W;
    var h := s * D;
    assert (x * W) * (Z * h) == (x * h) * T;
    assert ((r * y) * (x * W)) * (Z * h) == (r * y) * ((x * W) * (Z * h));
    assert (r * y) * ((x * h) * T) == r * (y * ((x * h) * T));
    assert D * ((s * y) * T) == h * (y * T);
    assert (h * (y * T)) * x == y * ((x * h) * T);
  }

  // ---------- The whole multiplication ----------

  /** Every prefix of the scalar is safe for the base point. */
  ghost predicate NonExceptional(c: Curve, k: nat, P0: Point)
    requires c.modulus > 0
  {
    forall m: nat, i: nat :: 1 <= m && 1 <= i && m == Quot(k, Pow2(i)) ==> c.Safe(P0, m)
  }

  /**
    What the rounds need: the base point is not its own inverse, every prefix but the longest is safe, and the
    longest is safe or gives two opposite points.
   */
  ghost predicate Workable(c: Curve, k: nat, P0: Point)
    requires c.modulus > 0
  {
    && P0 != c.Neg(P0)
    && (forall m: nat, i: nat :: 1 <= m && 2 <= i && m == Quot(k, Pow2(i)) ==> c.Safe(P0, m))
    && (c.Safe(P0, k / 2) || c.Times(2 * (k / 2) + 1, P0) == Infinity)
  }

  /** The point the routine returns for a multiplier of at least 2. */
  ghost function LastValue(c: Curve, n: nat, P0: Point): Point
    requires c.modulus > 0 && P0.Affine?
  {
    if P0.x == 0 || c.Times(2 * (n / 2) + 1, P0) == Infinity then Affine(0, 0) else c.Times(n, P0)
  }

  /** The point the routine returns for a scalar. */
  ghost function LadderValue(c: Curve, k: nat, P0: Point): Point
    requires c.modulus > 0 && P0.Affine?
  {
    LastValue(c, Effective(k), P0)
  }

  /**
    The multiplier the routine computes with. The ladder starts from the prefix 1 and always
    consumes bit 0, so the scalars 0 and 1 are treated as 2 and 3.
   */
  ghost function Effective(k: nat): (n: nat)
    ensures k >= 2 <==> n == k
  {
    if k < 2 then k + 2 else k
  }

  lemma TopPrefix(k: nat, n: nat)
    requires IsBitLength(k, n) && n >= 1
    ensures Quot(k, Pow2(n - 1)) == 1
  {
    DivModUnique(k, Pow2(n - 1), 1, k - Pow2(n - 1));
  }

  /** All rounds but the last: afterwards the prefix is the scalar without its lowest bit. */
  method Rounds(Rx: seq<Ptr>, Ry: seq<Ptr>, scalar: Ptr, p: Ptr, ghost c: Curve, ghost Z: int, ghost P0: Point,
                ghost live: bool)
    returns (ghost Z': int)
    requires |Rx| == |Ry| == 2 && scalar.Ok()
    requires scalar.buf !in {Rx[0].buf, Ry[0].buf, Rx[1].buf, Ry[1].buf}
    requires Setting(c, P0) && Keeps(Rx, Ry, p, c, Z, 1, P0, live) && Workable(c, Effective(scalar.V()), P0)
    modifies Rx[0].buf, Ry[0].buf, Rx[1].buf, Ry[1].buf
    ensures Keeps(Rx, Ry, p, c, Z', Effective(scalar.V()) / 2, P0, live)
  {
    var bits := NumBits(scalar);
    SmallScalar(scalar.V(), bits);
    if bits < 2 {
      Z' := Z;
      return;
    }
    TopPrefix(scalar.V(), bits);
    Z' := RoundsFrom(Rx, Ry, scalar, bits - 2, p, c, Z, P0, live);
    assert Pow2(1) == 2;
  }

  /** The rounds for the bits from start down to 1. */
  method RoundsFrom(Rx: seq<Ptr>, Ry: seq<Ptr>, scalar: Ptr, start: nat, p: Ptr, ghost c: Curve, ghost Z: int,
                    ghost P0: Point, ghost live: bool)
    returns (ghost Z': int)
    requires |Rx| == |Ry| == 2 && scalar.Ok() && scalar.V() >= 2 && start <= 254
    requires scalar.buf !in {Rx[0].buf, Ry[0].buf, Rx[1].buf, Ry[1].buf}
    requires Setting(c, P0) && Workable(c, scalar.V(), P0) && Quot(scalar.V(), Pow2(start + 1)) == 1
    requires Keeps(Rx, Ry, p, c, Z, 1, P0, live)
    modifies Rx[0].buf, Ry[0].buf, Rx[1].buf, Ry[1].buf
    ensures Keeps(Rx, Ry, p, c, Z', Quot(scalar.V(), Pow2(1)), P0, live)
  {
    var i: int := start;
    Z' := Z;
    while i > 0
      invariant 0 <= i <= 254 && Quot(scalar.V(), Pow2(i + 1)) >= 1
      invariant Keeps(Rx, Ry, p, c, Z', Quot(scalar.V(), Pow2(i + 1)), P0, live)
    {
      Z' := Round(Rx, Ry, scalar, i, p, c, Z', P0, live);
      i := i - 1;
    }
  }

  /** The round for bit i. */
  method Round(Rx: seq<Ptr>, Ry: seq<Ptr>, scalar: Ptr, i: nat, p: Ptr, ghost c: Curve, ghost Z: int, ghost P0: Point,
               ghost live: bool)
    returns (ghost Z': int)
    requires |Rx| == |Ry| == 2 && scalar.Ok() && 0 < i < 256 && scalar.V() >= 2
    requires scalar.buf !in {Rx[0].buf, Ry[0].buf, Rx[1].buf, Ry[1].buf}
    requires Setting(c, P0) && Workable(c, scalar.V(), P0) && Quot(scalar.V(), Pow2(i + 1)) >= 1
    requires Keeps(Rx, Ry, p, c, Z, Quot(scalar.V(), Pow2(i + 1)), P0, live)
    modifies Rx[0].buf, Ry[0].buf, Rx[1].buf, Ry[1].buf
    ensures Quot(scalar.V(), Pow2(i)) >= 1
    ensures Keeps(Rx, Ry, p, c, Z', Quot(scalar.V(), Pow2(i)), P0, live)
  {
    ghost var m := Quot(scalar.V(), Pow2(i + 1));
    SafePrefix(c, scalar.V(), P0, m, i + 1);
    var bit := TestBit(scalar, i);
    var a := if bit != 0 then 1 else 0;
    Z' := BothHalves(Rx, Ry, a, p, c, Z, m, P0, live);
    KeepsPrefix(Rx, Ry, p, c, Z', scalar.V(), i, m, a, P0, live);
  }

  lemma KeepsPrefix(Rx: seq<Ptr>, Ry: seq<Ptr>, p: Ptr, c: Curve, Z: int, k: nat, i: nat, m: nat, a: nat, P0: Point,
                    live: bool)
    requires |Rx| == |Ry| == 2 && m == Quot(k, Pow2(i + 1)) && m >= 1 && a == (if Bit(k, i) then 1 else 0)
    requires Keeps(Rx, Ry, p, c, Z, 2 * m + a, P0, live)
    ensures Quot(k, Pow2(i)) >= 1 && Keeps(Rx, Ry, p, c, Z, Quot(k, Pow2(i)), P0, live)
  {
    PrefixStepDown(k, i);
  }

  lemma SafePrefix(c: Curve, k: nat, P0: Point, m: nat, i: nat)
    requires c.modulus > 0 && Workable(c, k, P0) && i >= 2 && m >= 1 && m == Quot(k, Pow2(i))
    ensures c.Safe(P0, m)
  {
  }

  method BothHalves(Rx: seq<Ptr>, Ry: seq<Ptr>, a: nat, p: Ptr, ghost c: Curve, ghost Z: int, ghost m: nat,
                    ghost P0: Point, ghost live: bool)
    returns (ghost Z': int)
    requires |Rx| == |Ry| == 2 && a <= 1 && Setting(c, P0) && c.Safe(P0, m) && Keeps(Rx, Ry, p, c, Z, m, P0, live)
    modifies Rx[0].buf, Ry[0].buf, Rx[1].buf, Ry[1].buf
    ensures Keeps(Rx, Ry, p, c, Z', 2 * m + a, P0, live)
  {
    Z' := FirstHalf(Rx, Ry, a, p, c, Z, m, P0, live, live);
    Z' := SecondHalf(Rx, Ry, a, p, c, Z', m, P0, live);
  }

  lemma SmallScalar(k: nat, n: nat)
    requires IsBitLength(k, n)
    ensures n >= 2 <==> k >= 2
  {
    if n >= 2 {
      Pow2Monotone(1, n - 1);
    } else {
      Pow2Monotone(n, 1);
    }
  }

  /** The multiples 1 and 2 of a point that is not its own inverse. */
  lemma SmallMultiples(c: Curve, P0: Point)
    requires c.modulus > 0 && P0.Affine?
    ensures c.Times(1, P0) == P0 && c.Times(2, P0) == c.Add(P0, P0)
    ensures c.Times(2, P0) != Infinity ==> P0 != c.Neg(P0)
  {
    assert c.Times(0, P0) == Infinity;
  }

  /** A scalar without exceptional prefixes can be worked with. */
  lemma NonExceptionalWorkable(c: Curve, n: nat, P0: Point)
    requires c.modulus > 0 && P0.Affine? && n >= 2 && NonExceptional(c, n, P0)
    ensures Workable(c, n, P0) && c.Safe(P0, n / 2) && c.Times(2, P0) != Infinity
  {
    assert Pow2(1) == 2;
    PrefixSafe(c, n, P0, n / 2, 1);
    SomeTopPrefix(n);
    var i: nat :| i >= 1 && Quot(n, Pow2(i)) == 1;
    PrefixSafe(c, n, P0, 1, i);
    SmallMultiples(c, P0);
  }

  lemma PrefixSafe(c: Curve, k: nat, P0: Point, m: nat, i: nat)
    requires c.modulus > 0 && NonExceptional(c, k, P0) && 1 <= m && 1 <= i && m == Quot(k, Pow2(i))
    ensures c.Safe(P0, m)
  {
  }

  lemma SomeTopPrefix(n: nat)
    requires n >= 2
    ensures exists i: nat :: i >= 1 && Quot(n, Pow2(i)) == 1
    decreases n
  {
    if n < 4 {
      assert Quot(n, Pow2(1)) == 1;
    } else {
      SomeTopPrefix(n / 2);
      var i: nat :| i >= 1 && Quot(n / 2, Pow2(i)) == 1;
      HalveDiv(n, Pow2(i));
      assert Quot(n, Pow2(i + 1)) == 1;
    }
  }

  lemma LowestBit(k: nat)
    ensures Bit(k, 0) <==> Effective(k) % 2 == 1
    ensures 2 * (Effective(k) / 2) + (if Bit(k, 0) then 1 else 0) == Effective(k)
  {
    assert Quot(k, 1) == k;
  }

  /** After the conjugate half the two abscissas differ, whichever way round. */
  lemma AbscissasDiffer(c: Curve, X: seq<int>, Y: seq<int>, a: nat, Z: int, P0: Point, q: Point)
    requires |X| == |Y| == 2 && a <= 1 && Setting(c, P0)
    requires c.Rep(X[a], Y[a], Z, Signed(c, P0, a == 1)) && c.Rep(X[1 - a], Y[1 - a], Z, q)
    requires c.OnCurve(q) && q.x != P0.x
    ensures !c.Eq(X[1] - X[0], 0)
  {
    c.NegOnCurve(P0);
    if a == 1 {
      c.SharedScale(X[0], Y[0], X[1], Y[1], Z, q, P0);
    } else {
      c.SharedScale(X[0], Y[0], X[1], Y[1], Z, c.Neg(P0), q);
    }
  }

  /**
    (resultX, resultY) := LadderValue(k, P) for a curve point P = (x, y), or (0, 0) for a given denominator that is
    0 modulo the prime. LadderValueExact and OddOrderExact say when LadderValue(k, P) is k P.
   */
  method EccPointMult(resultX: Ptr, resultY: Ptr, x: Ptr, y: Ptr, scalar: Ptr, initialZ: Option<Ptr>, p: Ptr,
                      ghost c: Curve, ghost P0: Point)
    requires IsField(c, p) && resultX.Ok() && resultY.Ok() && scalar.Ok() && Elem(x, c) && Elem(y, c)
    requires resultX.buf != resultY.buf && p.buf !in {resultX.buf, resultY.buf}
    requires initialZ.Some? ==> initialZ.value.Ok()
    requires Setting(c, P0) && P0 == Affine(x.V(), y.V()) && Workable(c, Effective(scalar.V()), P0)
    modifies resultX.buf, resultY.buf
    ensures Elem(resultX, c) && Elem(resultY, c)
    ensures Affine(resultX.V(), resultY.V())
      == if old(Usable(initialZ, c)) then LadderValue(c, old(scalar.V()), P0) else Affine(0, 0)
  {
    var rx, ry := LadderResult(x, y, scalar, initialZ, p, c, P0);
    Set(resultX, rx);
    Set(resultY, ry);
  }

  /** The ladder on local copies. */
  method LadderResult(x: Ptr, y: Ptr, scalar: Ptr, initialZ: Option<Ptr>, p: Ptr, ghost c: Curve, ghost P0: Point)
    returns (rx: Ptr, ry: Ptr)
    requires IsField(c, p) && scalar.Ok() && Elem(x, c) && Elem(y, c)
    requires initialZ.Some? ==> initialZ.value.Ok()
    requires Setting(c, P0) && P0 == Affine(x.V(), y.V()) && Workable(c, Effective(scalar.V()), P0)
    ensures fresh(rx.buf) && fresh(ry.buf) && rx.buf != ry.buf && Elem(rx, c) && Elem(ry, c)
    ensures Affine(rx.V(), ry.V()) == if Usable(initialZ, c) then LadderValue(c, scalar.V(), P0) else Affine(0, 0)
  {
    ghost var half: nat := Effective(scalar.V()) / 2;
    ghost var live := Usable(initialZ, c);
    ghost var Z: int;
    var Rx, Ry;
    Rx, Ry, Z := LadderStart(x, y, initialZ, p, c, P0);
    Z := Rounds(Rx, Ry, scalar, p, c, Z, P0, live);
    LastRound(Rx, Ry, scalar, x, y, p, c, Z, half, P0, live);
    rx, ry := Rx[0], Ry[0];
  }

  /** The round for the lowest bit of the scalar. */
  method LastRound(Rx: seq<Ptr>, Ry: seq<Ptr>, scalar: Ptr, x: Ptr, y: Ptr, p: Ptr, ghost c: Curve, ghost Z: int,
                   ghost half: nat, ghost P0: Point, ghost live: bool)
    requires |Rx| == |Ry| == 2 && scalar.Ok() && Elem(x, c) && Elem(y, c) && half == Effective(scalar.V()) / 2
    requires x.buf !in {Rx[0].buf, Ry[0].buf, Rx[1].buf, Ry[1].buf}
    requires y.buf !in {Rx[0].buf, Ry[0].buf, Rx[1].buf, Ry[1].buf}
    requires Setting(c, P0) && P0 == Affine(x.V(), y.V()) && Workable(c, Effective(scalar.V()), P0)
    requires Keeps(Rx, Ry, p, c, Z, half, P0, live)
    modifies Rx[0].buf, Ry[0].buf, Rx[1].buf, Ry[1].buf
    ensures Elem(Rx[0], c) && Elem(Ry[0], c)
    ensures Affine(Rx[0].V(), Ry[0].V()) == if live then LadderValue(c, old(scalar.V()), P0) else Affine(0, 0)
  {
    var bit := TestBit(scalar, 0);
    LowestBit(scalar.V());
    var a: nat := if bit != 0 then 1 else 0;
    ghost var apart := live && c.Safe(P0, half);
    LadderFinish(Rx, Ry, a, x, y, p, c, Z, half, P0, apart, live, Effective(scalar.V()));
  }

  /** R1 := 2P and R0 := P in fresh buffers. */
  method LadderStart(x: Ptr, y: Ptr, initialZ: Option<Ptr>, p: Ptr, ghost c: Curve, ghost P0: Point)
    returns (Rx: seq<Ptr>, Ry: seq<Ptr>, ghost Z: int)
    requires IsField(c, p) && Elem(x, c) && Elem(y, c)
    requires initialZ.Some? ==> initialZ.value.Ok()
    requires Setting(c, P0) && P0 == Affine(x.V(), y.V()) && P0 != c.Neg(P0)
    ensures |Rx| == |Ry| == 2 && fresh(Rx[0].buf) && fresh(Rx[1].buf) && fresh(Ry[0].buf) && fresh(Ry[1].buf)
    ensures Keeps(Rx, Ry, p, c, Z, 1, P0, Usable(initialZ, c))
  {
    var x0 := NewVli();
    var y0 := NewVli();
    var x1 := NewVli();
    var y1 := NewVli();
    Set(x1, x);
    Set(y1, y);
    Z := XYcZInitialDouble(x1, y1, x0, y0, initialZ, p, c, P0);
    SmallMultiples(c, P0);
    Rx, Ry := [x0, x1], [y0, y1];
  }

  /** The last round, with the denominator recovered between its halves and removed at the end. */
  method LadderFinish(Rx: seq<Ptr>, Ry: seq<Ptr>, a: nat, x: Ptr, y: Ptr, p: Ptr, ghost c: Curve, ghost Z: int,
                      ghost m: nat, ghost P0: Point, ghost apart: bool, ghost live: bool, ghost k: nat)
    requires |Rx| == |Ry| == 2 && a <= 1 && Elem(x, c) && Elem(y, c) && k == 2 * m + a
    requires x.buf !in {Rx[0].buf, Ry[0].buf, Rx[1].buf, Ry[1].buf}
    requires y.buf !in {Rx[0].buf, Ry[0].buf, Rx[1].buf, Ry[1].buf}
    requires Setting(c, P0) && P0 == Affine(x.V(), y.V()) && P0 != c.Neg(P0)
    requires (apart ==> live) && (live ==> SafeOrOpposite(c, P0, m, apart)) && Keeps(Rx, Ry, p, c, Z, m, P0, live)
    modifies Rx[0].buf, Ry[0].buf, Rx[1].buf, Ry[1].buf
    ensures Elem(Rx[0], c) && Elem(Ry[0], c)
    ensures Affine(Rx[0].V(), Ry[0].V()) == if live then LastValue(c, k, P0) else Affine(0, 0)
  {
    ghost var Z1 := FirstHalf(Rx, Ry, a, p, c, Z, m, P0, apart, live);
    LadderTail(Rx, Ry, a, x, y, p, c, Z1, m, P0, apart, k);
    assert k / 2 == m;
  }

  /** The rest of the last round, for the resulting multiple k. */
  method LadderTail(Rx: seq<Ptr>, Ry: seq<Ptr>, a: nat, x: Ptr, y: Ptr, p: Ptr, ghost c: Curve, ghost Z: int,
                    ghost m: nat, ghost P0: Point, ghost apart: bool, ghost k: nat)
    requires |Rx| == |Ry| == 2 && a <= 1 && Pair(Rx, Ry, p, c) && Elem(x, c) && Elem(y, c) && k == 2 * m + a
    requires Setting(c, P0) && P0 == Affine(x.V(), y.V()) && P0 != c.Neg(P0)
    requires if apart then c.Safe(P0, m) && Halfway(Rx, Ry, a, c, Z, m, P0) else Ry[a].V() == 0
    modifies Rx[0].buf, Ry[0].buf, Rx[1].buf, Ry[1].buf
    ensures Elem(Rx[0], c) && Elem(Ry[0], c)
    ensures Affine(Rx[0].V(), Ry[0].V()) == if apart && P0.x != 0 then c.Times(k, P0) else Affine(0, 0)
  {
    ghost var live := apart && P0.x != 0;
    c.TimesOnCurve(k, P0);
    var z;
    ghost var Z';
    z, Z' := LadderClose(Rx, Ry, a, x, y, p, c, Z, m, P0, apart, live);
    Unscale(Rx[0], Ry[0], z, p, c, Z', c.Times(k, P0), live);
  }

  /** Division by the powers of the denominator: z holds 1 / Z, or 0, which leaves nothing. */
  method Unscale(X: Ptr, Y: Ptr, z: Ptr, p: Ptr, ghost c: Curve, ghost Z: int, ghost q: Point, ghost live: bool)
    requires IsField(c, p) && Elem(X, c) && Elem(Y, c) && Elem(z, c)
    requires X.buf != Y.buf && X.buf != z.buf && Y.buf != z.buf && p.buf !in {X.buf, Y.buf}
    requires if live then c.Reduced(q) && c.Rep(X.V(), Y.V(), Z, q) && c.Eq(Z * z.V(), 1) else z.V() == 0
    modifies X.buf, Y.buf
    ensures Elem(X, c) && Elem(Y, c) && Affine(X.V(), Y.V()) == if live then q else Affine(0, 0)
  {
    ghost var x: int, y: int := X.V(), Y.V();
    ApplyZ(X, Y, z, p, c);
    if live {
      c.Normalize(x, y, Z, q, z.V(), X.V(), Y.V());
    } else {
      assert x * (0 * 0) == 0 && y * (0 * (0 * 0)) == 0;
      c.Canonical(X.V(), 0);
      c.Canonical(Y.V(), 0);
    }
  }

  /** The additive half of the last round, and the inverse of the denominator it produces. */
  method LadderClose(Rx: seq<Ptr>, Ry: seq<Ptr>, a: nat, x: Ptr, y: Ptr, p: Ptr, ghost c: Curve, ghost Z: int,
                     ghost m: nat, ghost P0: Point, ghost apart: bool, ghost live: bool)
    returns (z: Ptr, ghost Z': int)
    requires |Rx| == |Ry| == 2 && a <= 1 && Pair(Rx, Ry, p, c) && Elem(x, c) && Elem(y, c)
    requires Setting(c, P0) && P0 == Affine(x.V(), y.V()) && P0 != c.Neg(P0) && live == (apart && P0.x != 0)
    requires if apart then c.Safe(P0, m) && Halfway(Rx, Ry, a, c, Z, m, P0) else Ry[a].V() == 0
    modifies Rx[0].buf, Ry[0].buf, Rx[1].buf, Ry[1].buf
    ensures fresh(z.buf) && Elem(z, c) && Pair(Rx, Ry, p, c)
    ensures if live then Holds(Rx, Ry, p, c, Z', 2 * m + a, P0) && c.Eq(Z' * z.V(), 1) else z.V() == 0
  {
    if live {
      HalfwayApart(Rx, Ry, a, c, Z, m, P0);
    }
    z := FinalZ(Rx, Ry, a, x, y, p, c, Z, P0, live);
    Z' := SecondHalf(Rx, Ry, a, p, c, Z, m, P0, apart);
    SwapFactors(z.V(), Z');
  }

  lemma HalfwayApart(Rx: seq<Ptr>, Ry: seq<Ptr>, a: nat, c: Curve, Z: int, m: nat, P0: Point)
    requires |Rx| == |Ry| == 2 && a <= 1 && Setting(c, P0) && P0.x != 0
    requires c.Safe(P0, m) && Halfway(Rx, Ry, a, c, Z, m, P0)
    ensures Recoverable(Rx, Ry, a, c, Z, P0)
  {
    RoundApart(c, P0, m);
    AbscissasDiffer(c, [Rx[0].V(), Rx[1].V()], [Ry[0].V(), Ry[1].V()], a, Z, P0, c.Times(2 * m + 1, P0));
  }

  lemma SwapFactors(a: int, b: int)
    ensures a * b == b * a
  {
  }

  // ---------- Scalars for which no prefix is exceptional ----------

  /** n is the order of p: the least positive multiplier giving the identity. */
  ghost predicate HasOrder(c: Curve, p: Point, n: nat)
    requires c.modulus > 0
  {
    n > 0 && c.Times(n, p) == Infinity && forall j: nat :: 0 < j < n ==> c.Times(j, p) != Infinity
  }

  /** For a point of odd order n, every scalar from 2 to n - 2 is unexceptional. */
  lemma OrderIsSafe(c: Curve, k: nat, P0: Point, n: nat)
    requires c.modulus > 0 && HasOrder(c, P0, n) && n % 2 == 1 && 2 <= k <= n - 2
    ensures NonExceptional(c, k, P0)
  {
    forall m: nat, i: nat | 1 <= m && 1 <= i && m == Quot(k, Pow2(i))
      ensures c.Safe(P0, m)
    {
      PrefixAtMostHalf(k, i);
      assert 2 * m + 2 < n;
    }
  }

  lemma PrefixAtMostHalf(k: nat, i: nat)
    requires i >= 1
    ensures 2 * Quot(k, Pow2(i)) <= k && (i >= 2 ==> 4 * Quot(k, Pow2(i)) <= k)
  {
    HalveDiv(k, Pow2(i - 1));
    DivNonneg(k / 2, Pow2(i - 1));
    if i >= 2 {
      PrefixAtMostHalf(k / 2, i - 1);
    }
  }

  /** A multiple below twice an odd order is the identity only for 0 and the order itself. */
  lemma OrderGap(c: Curve, j: nat, P0: Point, n: nat)
    requires Setting(c, P0) && HasOrder(c, P0, n) && 0 < j < 2 * n
    ensures c.Times(j, P0) == Infinity <==> j == n
  {
    if j > n {
      c.TimesOnCurve(j - n, P0);
      c.TimesSumTo(n, j - n, j, P0);
    }
  }

  /** Twice the order is even, so an odd order separates the exceptional step from the unexceptional ones. */
  lemma OrderStep(c: Curve, h: nat, P0: Point, n: nat)
    requires Setting(c, P0) && HasOrder(c, P0, n) && n % 2 == 1 && 1 <= h <= n - 2
    ensures c.Times(2 * h + 1, P0) == Infinity <==> 2 * h + 1 == n
    ensures 2 * h + 1 != n ==> c.Safe(P0, h)
  {
    OrderGap(c, 2 * h, P0, n);
    OrderGap(c, 2 * h + 1, P0, n);
    OrderGap(c, 2 * h + 2, P0, n);
  }

  lemma LowPrefixSafe(c: Curve, e: nat, P0: Point, n: nat, m: nat, i: nat)
    requires c.modulus > 0 && HasOrder(c, P0, n) && n % 2 == 1 && e < 2 * n - 2
    requires 1 <= m && 2 <= i && m == Quot(e, Pow2(i))
    ensures c.Safe(P0, m)
  {
    PrefixAtMostHalf(e, i);
    assert 2 * m + 2 < n;
  }

  /** For a point of odd order n, the routine can work with every scalar below 2 n - 2. */
  lemma OrderWorkable(c: Curve, k: nat, P0: Point, n: nat)
    requires Setting(c, P0) && HasOrder(c, P0, n) && n % 2 == 1 && k < 2 * n - 2
    ensures n >= 3 && 1 <= Effective(k) / 2 <= n - 2 && Workable(c, Effective(k), P0)
  {
    var e := Effective(k);
    SmallMultiples(c, P0);
    forall m: nat, i: nat | 1 <= m && 2 <= i && m == Quot(e, Pow2(i))
      ensures c.Safe(P0, m)
    {
      LowPrefixSafe(c, e, P0, n, m, i);
    }
    OrderStep(c, e / 2, P0, n);
  }

  // ---------- When the result is the multiple ----------

  /** Two multiples that differ by less than the order are different. */
  lemma NextButOne(c: Curve, k: nat, P0: Point)
    requires Setting(c, P0) && c.Times(2, P0) != Infinity
    ensures c.Times(k + 2, P0) != c.Times(k, P0)
  {
    c.TimesOnCurve(k, P0);
    c.TimesOnCurve(2, P0);
    c.TimesSumTo(k, 2, k + 2, P0);
    if c.Times(k + 2, P0) == c.Times(k, P0) {
      c.AbsorbUnique(c.Times(k, P0), c.Times(2, P0));
    }
  }

  /**
    For a scalar with no exceptional prefix the routine returns the multiple exactly when the scalar is at least 2
    and the abscissa of the point is not 0.
   */
  lemma LadderValueExact(c: Curve, k: nat, P0: Point)
    requires Setting(c, P0) && IsP256(c.modulus) && IsCoefficient(c.coefB)
    requires NonExceptional(c, Effective(k), P0)
    ensures Workable(c, Effective(k), P0)
    ensures LadderValue(c, k, P0) == if P0.x == 0 then Affine(0, 0) else c.Times(Effective(k), P0)
    ensures LadderValue(c, k, P0) == c.Times(k, P0) <==> k >= 2 && P0.x != 0
  {
    NonExceptionalWorkable(c, Effective(k), P0);
    OriginOffCurve(c);
    c.TimesOnCurve(k, P0);
    NextButOne(c, k, P0);
  }

  /**
    For a point of odd order n and every scalar below 2 n - 2. The routine doubles the point for the scalar 0, takes
    it three times for 1, and returns (0, 0) for n - 1 and n as for an abscissa of 0.
   */
  lemma OddOrderExact(c: Curve, k: nat, P0: Point, n: nat)
    requires Setting(c, P0) && IsP256(c.modulus) && IsCoefficient(c.coefB)
    requires HasOrder(c, P0, n) && n % 2 == 1 && k < 2 * n - 2
    ensures Workable(c, Effective(k), P0)
    ensures LadderValue(c, k, P0)
      == if P0.x == 0 || Effective(k) == n - 1 || Effective(k) == n then Affine(0, 0) else c.Times(Effective(k), P0)
    ensures LadderValue(c, k, P0) == c.Times(k, P0) <==> k >= 2 && k != n - 1 && k != n && P0.x != 0
  {
    OrderWorkable(c, k, P0, n);
    OrderStep(c, Effective(k) / 2, P0, n);
    OriginOffCurve(c);
    c.TimesOnCurve(k, P0);
    NextButOne(c, k, P0);
  }

  /** The curve has a point with abscissa 0. */
  lemma AbscissaZero()
    ensures Curve(P, B256).OnCurve(Affine(0, ROOT_OF_B)) && ROOT_OF_B != 0
  {
    CongIntro(ROOT_OF_B * ROOT_OF_B, B256, ROOT_QUOTIENT, P);
  }

  /** A square root of the coefficient, and its square's quotient by the prime. */
  const ROOT_OF_B: int := 0x66485c78_0e2f83d7_2433bd5d_84a06bb6_541c2af3_1dae8717_28bf856a_174f93f4
  const ROOT_QUOTIENT: int := 0x28ddbe23_f91a186c_de31693e_44d95773_76ba56e1_c52cb3f3_35f4c8db_a9b83fbb
}
