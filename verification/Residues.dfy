/** Powers modulo a prime: Fermat's theorem, and which numbers are squares. */
module Residues {
  import opened Words
  import opened Congruence
  import opened Curves

  ghost function Exp(a: int, n: nat): int {
    if n == 0 then 1 else a * Exp(a, n - 1)
  }

  lemma {:induction false} ExpSum(a: int, m: nat, n: nat)
    ensures Exp(a, m + n) == Exp(a, m) * Exp(a, n)
  {
    if m > 0 {
      ExpSum(a, m - 1, n);
      assert m + n - 1 == (m - 1) + n;
      assert a * (Exp(a, m - 1) * Exp(a, n)) == (a * Exp(a, m - 1)) * Exp(a, n);
    }
  }

  lemma {:induction false} ExpSquare(s: int, n: nat)
    ensures Exp(s * s, n) == Exp(s, 2 * n)
  {
    if n > 0 {
      ExpSquare(s, n - 1);
      assert Exp(s, 2 * n) == s * Exp(s, 2 * n - 1) == s * (s * Exp(s, 2 * n - 2));
      Regroup3(s, s, Exp(s, 2 * n - 2));
    }
  }

  lemma Regroup3(a: int, b: int, d: int)
    ensures a * (b * d) == (a * b) * d
  {
  }

  lemma {:induction false} ExpEq(c: Curve, a: int, b: int, n: nat)
    requires c.Eq(a, b)
    ensures c.Eq(Exp(a, n), Exp(b, n))
  {
    if n > 0 {
      ExpEq(c, a, b, n - 1);
      c.EqMul(a, b, Exp(a, n - 1), Exp(b, n - 1));
    }
  }

  // ---------- Binomial coefficients ----------

  ghost function Binom(n: nat, k: nat): nat {
    if k == 0 then 1 else if n == 0 then 0 else Binom(n - 1, k - 1) + Binom(n - 1, k)
  }

  lemma {:induction false} BinomEnds(n: nat, k: nat)
    requires k >= n
    ensures Binom(n, k) == if k == n then 1 else 0
  {
    if n > 0 {
      BinomEnds(n - 1, k - 1);
      BinomEnds(n - 1, k);
    }
  }

  lemma {:induction false} BinomAbsorb(n: nat, k: nat)
    requires n > 0 && k > 0
    ensures k * Binom(n, k) == n * Binom(n - 1, k - 1)
    decreases n
  {
    if n == 1 {
      BinomEnds(0, k - 1);
      BinomEnds(0, k);
    } else {
      BinomAbsorb(n - 1, k);
      if k > 1 {
        BinomAbsorb(n - 1, k - 1);
        AbsorbStep(n, k, Binom(n - 1, k - 1), Binom(n - 1, k), Binom(n - 2, k - 2), Binom(n - 2, k - 1));
      }
    }
  }

  lemma AbsorbStep(n: int, k: int, left: int, right: int, a: int, b: int)
    requires (k - 1) * left == (n - 1) * a && k * right == (n - 1) * b && left == a + b
    ensures k * (left + right) == n * left
  {
    assert k * left == left + (k - 1) * left;
    assert (n - 1) * a + (n - 1) * b == (n - 1) * (a + b);
  }

  /** The first k terms of (a + 1)^n, by powers of a. */
  ghost function Terms(a: int, n: nat, k: nat): int {
    if k == 0 then 0 else Terms(a, n, k - 1) + Binom(n, k - 1) * Exp(a, k - 1)
  }

  lemma {:induction false} TermsUp(a: int, n: nat, k: nat)
    ensures Terms(a, n + 1, k + 1) == a * Terms(a, n, k) + Terms(a, n, k + 1)
  {
    if k > 0 {
      TermsUp(a, n, k - 1);
      TermStep(a, Binom(n, k - 1), Binom(n, k), Exp(a, k - 1), Terms(a, n, k - 1));
    } else {
      assert Terms(a, n + 1, 1) == Terms(a, n + 1, 0) + 1 && Terms(a, n, 1) == Terms(a, n, 0) + 1;
      assert a * 0 == 0;
    }
  }

  lemma TermStep(a: int, b: int, b': int, e: int, s: int)
    ensures a * s + (b + b') * (a * e) == a * (s + b * e) + b' * (a * e)
  {
    assert b * (a * e) == a * (b * e);
  }

  lemma NoMoreTerms(a: int, n: nat)
    ensures Terms(a, n, n + 2) == Terms(a, n, n + 1)
  {
    BinomEnds(n, n + 1);
    assert 0 * Exp(a, n + 1) == 0;
  }

  lemma {:induction false} Binomial(a: int, n: nat)
    ensures Terms(a, n, n + 1) == Exp(a + 1, n)
  {
    if n == 0 {
      assert Terms(a, 0, 1) == Terms(a, 0, 0) + Binom(0, 0) * Exp(a, 0);
    } else {
      Binomial(a, n - 1);
      TermsUp(a, n - 1, n);
      NoMoreTerms(a, n - 1);
      OneMore(a, Exp(a + 1, n - 1));
    }
  }

  lemma OneMore(a: int, e: int)
    ensures a * e + e == (a + 1) * e
  {
  }

  // ---------- Fermat's theorem ----------

  lemma MiddleVanishes(c: Curve, k: nat)
    requires c.PrimeField() && 0 < k < c.modulus
    ensures c.Eq(Binom(c.modulus, k), 0)
  {
    BinomAbsorb(c.modulus, k);
    CongIntro(k * Binom(c.modulus, k), 0, Binom(c.modulus - 1, k - 1), c.modulus);
    if !c.Eq(Binom(c.modulus, k), 0) {
      if c.Eq(k, 0) {
        c.Canonical(k, 0);
      }
      c.ProductNonzero(k, Binom(c.modulus, k));
    }
  }

  lemma {:induction false} FirstTermStays(c: Curve, a: int, k: nat)
    requires c.PrimeField() && 1 <= k <= c.modulus
    ensures c.Eq(Terms(a, c.modulus, k), 1)
  {
    if k == 1 {
      assert Terms(a, c.modulus, 1) == Terms(a, c.modulus, 0) + 1;
    } else {
      FirstTermStays(c, a, k - 1);
      MiddleVanishes(c, k - 1);
      c.EqMul(Binom(c.modulus, k - 1), 0, Exp(a, k - 1), Exp(a, k - 1));
      assert 0 * Exp(a, k - 1) == 0;
      c.EqAdd(Terms(a, c.modulus, k - 1), 1, Binom(c.modulus, k - 1) * Exp(a, k - 1), 0);
    }
  }

  /** (a + 1)^p = a^p + 1 modulo p. */
  lemma NextPower(c: Curve, a: int)
    requires c.PrimeField()
    ensures c.Eq(Exp(a + 1, c.modulus), Exp(a, c.modulus) + 1)
  {
    var p := c.modulus;
    Binomial(a, p);
    FirstTermStays(c, a, p);
    BinomEnds(p, p);
    assert Terms(a, p, p + 1) == Terms(a, p, p) + 1 * Exp(a, p);
    c.EqAdd(Terms(a, p, p), 1, Exp(a, p), Exp(a, p));
  }

  lemma {:induction false} FermatNat(c: Curve, a: nat)
    requires c.PrimeField()
    ensures c.Eq(Exp(a, c.modulus), a)
  {
    if a == 0 {
      assert 0 * Exp(0, c.modulus - 1) == 0;
    } else {
      FermatNat(c, a - 1);
      NextPower(c, a - 1);
      c.EqAdd(Exp(a - 1, c.modulus), a - 1, 1, 1);
    }
  }

  /** Fermat's theorem: the power p - 1 of a nonzero element is 1. */
  lemma Fermat(c: Curve, a: int)
    requires c.PrimeField() && !c.Eq(a, 0)
    ensures c.Eq(Exp(a, c.modulus - 1), 1)
  {
    var r := a % c.modulus;
    CongMod(a, c.modulus);
    FermatNat(c, r);
    ExpEq(c, a, r, c.modulus);
    var e := Exp(a, c.modulus - 1);
    assert e * a == Exp(a, c.modulus) && 1 * a == a;
    c.Cancel(e, 1, a);
  }

  // ---------- Squares ----------

  ghost predicate RootOf(c: Curve, s: int, a: int) {
    c.Eq(s * s, a)
  }

  ghost predicate IsSquare(c: Curve, a: int) {
    exists s :: RootOf(c, s, a)
  }

  /** The square of a^((p + 1) / 4) is a a^((p - 1) / 2). */
  lemma PowerSquared(c: Curve, a: int, r: int)
    requires c.modulus > 0 && c.modulus % 4 == 3 && c.Eq(r, Exp(a, (c.modulus + 1) / 4))
    ensures c.Eq(r * r, a * Exp(a, (c.modulus - 1) / 2))
  {
    var e := (c.modulus + 1) / 4;
    c.EqMul(r, Exp(a, e), r, Exp(a, e));
    ExpSum(a, e, e);
    assert e + e == 1 + (c.modulus - 1) / 2;
  }

  lemma ZeroSquared(c: Curve, s: int)
    requires c.modulus > 0
    ensures c.Eq(s, 0) ==> c.Eq(s * s, 0)
  {
    if c.Eq(s, 0) {
      c.EqMul(s, 0, s, s);
      assert 0 * s == 0;
    }
  }

  /** Euler's criterion, in the direction that needs Fermat's theorem. */
  lemma SquarePower(c: Curve, a: int)
    requires c.PrimeField() && IsSquare(c, a) && !c.Eq(a, 0)
    ensures c.Eq(Exp(a, (c.modulus - 1) / 2), 1)
  {
    var s :| RootOf(c, s, a);
    ZeroSquared(c, s);
    Fermat(c, s);
    ExpEq(c, a, s * s, (c.modulus - 1) / 2);
    ExpSquare(s, (c.modulus - 1) / 2);
  }

  /** For a prime that is 3 modulo 4, a^((p + 1) / 4) is a square root of a exactly when a is a square. */
  lemma SqrtExactly(c: Curve, a: int, r: int)
    requires c.PrimeField() && c.modulus % 4 == 3 && c.Eq(r, Exp(a, (c.modulus + 1) / 4))
    ensures c.Eq(r * r, a) <==> IsSquare(c, a)
  {
    if c.Eq(r * r, a) {
      assert RootOf(c, r, a);
    }
    if IsSquare(c, a) {
      var e := Exp(a, (c.modulus - 1) / 2);
      PowerSquared(c, a, r);
      if c.Eq(a, 0) {
        c.EqMul(a, 0, e, e);
        assert 0 * e == 0;
      } else {
        SquarePower(c, a);
        c.EqMul(a, a, e, 1);
      }
    }
  }
}
