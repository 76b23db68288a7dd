/** Congruences, common divisors and inverses: the number theory the contracts speak of. */
module Congruence {
  import opened Words

  /** a and b leave the same remainder modulo m. */
  ghost predicate Cong(a: int, b: int, m: int)
    requires m > 0
  {
    a % m == b % m
  }

  lemma CongIntro(a: int, b: int, k: int, m: int)
    requires m > 0 && a == b + m * k
    ensures Cong(a, b, m)
  {
    var q, r := b / m, b % m;
    assert b == m * q + r;
    assert m * (q + k) == m * q + m * k;
    DivModUnique(a, m, q + k, r);
  }

  lemma CongElim(a: int, b: int, m: int) returns (k: int)
    requires m > 0 && Cong(a, b, m)
    ensures a == b + m * k
  {
    k := a / m - b / m;
    assert a == m * (a / m) + a % m && b == m * (b / m) + b % m;
    assert m * k == m * (a / m) - m * (b / m);
  }

  lemma CongRefl(a: int, b: int, m: int)
    requires m > 0 && a == b
    ensures Cong(a, b, m)
  {
  }

  lemma CongMod(a: int, m: int)
    requires m > 0
    ensures Cong(a % m, a, m) && 0 <= a % m < m
  {
    CongIntro(a, a % m, a / m, m);
  }

  lemma CongAdd(a: int, a': int, b: int, b': int, m: int)
    requires m > 0 && Cong(a, a', m) && Cong(b, b', m)
    ensures Cong(a + b, a' + b', m)
  {
    var k := CongElim(a, a', m);
    var l := CongElim(b, b', m);
    assert m * (k + l) == m * k + m * l;
    CongIntro(a + b, a' + b', k + l, m);
  }

  lemma CongSub(a: int, a': int, b: int, b': int, m: int)
    requires m > 0 && Cong(a, a', m) && Cong(b, b', m)
    ensures Cong(a - b, a' - b', m)
  {
    var k := CongElim(a, a', m);
    var l := CongElim(b, b', m);
    assert m * (k - l) == m * k - m * l;
    CongIntro(a - b, a' - b', k - l, m);
  }

  lemma CongMul(a: int, a': int, b: int, b': int, m: int)
    requires m > 0 && Cong(a, a', m) && Cong(b, b', m)
    ensures Cong(a * b, a' * b', m)
  {
    var k := CongElim(a, a', m);
    var l := CongElim(b, b', m);
    ExpandProduct(a', b', m, k, l);
    CongIntro(a * b, a' * b', a' * l + k * b' + k * (m * l), m);
  }

  lemma ExpandProduct(a: int, b: int, m: int, k: int, l: int)
    ensures (a + m * k) * (b + m * l) == a * b + m * (a * l + k * b + k * (m * l))
  {
    calc {
      (a + m * k) * (b + m * l);
      a * (b + m * l) + (m * k) * (b + m * l);
      a * b + a * (m * l) + (m * k) * b + (m * k) * (m * l);
      { assert a * (m * l) == m * (a * l); }
      { assert (m * k) * b == m * (k * b); }
      { assert (m * k) * (m * l) == m * (k * (m * l)); }
      a * b + m * (a * l) + m * (k * b) + m * (k * (m * l));
    }
  }

  /** A residue below m is determined by its congruence class. */
  lemma CongSmall(a: int, b: int, m: int)
    requires m > 0 && Cong(a, b, m) && 0 <= a < m
    ensures a == b % m
  {
    DivModUnique(a, m, 0, a);
  }

  // ---------- Divisors ----------

  ghost predicate Divides(d: int, a: int)
    requires d > 0
  {
    a % d == 0
  }

  lemma DividesIntro(d: int, k: int)
    requires d > 0
    ensures Divides(d, d * k)
  {
    ModMultiple(k, d);
  }

  lemma DividesElim(d: int, a: int) returns (k: int)
    requires d > 0 && Divides(d, a)
    ensures a == d * k
  {
    k := a / d;
  }

  lemma DividesSum(d: int, a: int, b: int)
    requires d > 0 && Divides(d, b)
    ensures Divides(d, a) <==> Divides(d, a + b)
  {
    CongIntro(a + b, a, b / d, d);
  }

  ghost predicate Common(d: int, a: int, b: int) {
    d > 0 && Divides(d, a) && Divides(d, b)
  }

  /** (a, b) and (x, y) have the same common divisors. */
  ghost predicate SameDivisors(a: int, b: int, x: int, y: int) {
    forall d :: Common(d, a, b) <==> Common(d, x, y)
  }

  /** g is the greatest common divisor of x and y: a common divisor that all others divide. */
  ghost predicate IsGcd(g: int, x: int, y: int) {
    Common(g, x, y) && forall d :: Common(d, x, y) ==> Divides(d, g)
  }

  ghost predicate Coprime(x: int, y: int) {
    forall d :: Common(d, x, y) ==> d == 1
  }

  lemma GcdOfEqual(a: int, x: int, y: int)
    requires a > 0 && SameDivisors(a, a, x, y)
    ensures IsGcd(a, x, y)
  {
    DivModUnique(a, a, 1, 0);
    assert Common(a, a, a);
    forall d | Common(d, x, y)
      ensures Divides(d, a)
    {
      assert Common(d, a, a);
    }
  }

  /** An odd divisor of 2c divides c. */
  lemma OddDivisorHalves(d: int, c: int)
    requires d > 0 && d % 2 == 1 && Divides(d, 2 * c)
    ensures Divides(d, c)
  {
    var k := DividesElim(d, 2 * c);
    var e := d / 2;
    assert d == 2 * e + 1;
    assert d * k == 2 * (e * k) + k;
    var h := k / 2;
    assert k == 2 * h;
    assert d * k == 2 * (d * h);
    DividesIntro(d, h);
  }

  lemma DivisorOfOdd(d: int, b: int)
    requires d > 0 && Divides(d, b) && b % 2 == 1
    ensures d % 2 == 1
  {
    var k := DividesElim(d, b);
    var e := d / 2;
    assert d == 2 * e + d % 2;
    assert d * k == 2 * (e * k) + (d % 2) * k;
  }

  lemma HalvingKeepsDivisors(a: int, b: int)
    requires a % 2 == 0 && b % 2 == 1
    ensures SameDivisors(a / 2, b, a, b)
  {
    forall d
      ensures Common(d, a / 2, b) <==> Common(d, a, b)
    {
      if Common(d, a, b) {
        DivisorOfOdd(d, b);
        OddDivisorHalves(d, a / 2);
      }
      if Common(d, a / 2, b) {
        DividesSum(d, a / 2, a / 2);
      }
    }
  }

  lemma SubtractingKeepsDivisors(a: int, b: int)
    ensures SameDivisors(a - b, b, a, b)
  {
    forall d
      ensures Common(d, a - b, b) <==> Common(d, a, b)
    {
      if d > 0 && Divides(d, b) {
        DividesSum(d, a - b, b);
      }
    }
  }

  lemma HalvedDifferenceKeepsDivisors(a: int, b: int)
    requires a % 2 == 1 && b % 2 == 1
    ensures SameDivisors((a - b) / 2, b, a, b)
  {
    SubtractingKeepsDivisors(a, b);
    HalvingKeepsDivisors(a - b, b);
    forall d
      ensures Common(d, (a - b) / 2, b) <==> Common(d, a, b)
    {
      assert Common(d, (a - b) / 2, b) <==> Common(d, a - b, b);
      assert Common(d, a - b, b) <==> Common(d, a, b);
    }
  }

  lemma DivisorsSwap(a: int, b: int, x: int, y: int)
    requires SameDivisors(a, b, x, y)
    ensures SameDivisors(b, a, x, y)
  {
    forall d
      ensures Common(d, b, a) <==> Common(d, x, y)
    {
      assert Common(d, b, a) <==> Common(d, a, b);
    }
  }

  lemma DivisorsChain(a: int, b: int, c: int, d: int, x: int, y: int)
    requires SameDivisors(a, b, c, d) && SameDivisors(c, d, x, y)
    ensures SameDivisors(a, b, x, y)
  {
    forall e
      ensures Common(e, a, b) <==> Common(e, x, y)
    {
      assert Common(e, a, b) <==> Common(e, c, d);
    }
  }

  /** Some combination of two numbers is a common divisor of them. */
  lemma {:induction false} Bezout(a: nat, b: nat) returns (u: int, v: int)
    requires a > 0 || b > 0
    ensures Common(u * a + v * b, a, b)
    decreases a + b
  {
    if b == 0 {
      u, v := 1, 0;
      DividesIntro(a, 1);
      DividesIntro(a, 0);
    } else if a == 0 {
      u, v := 0, 1;
      DividesIntro(b, 1);
      DividesIntro(b, 0);
    } else if a >= b {
      var w;
      u, w := Bezout(a - b, b);
      v := w - u;
      Combination(u, w, a, b);
      DividesSum(u * a + v * b, a - b, b);
    } else {
      var w;
      w, v := Bezout(a, b - a);
      u := w - v;
      Combination(v, w, b, a);
      DividesSum(u * a + v * b, b - a, a);
    }
  }

  lemma Combination(u: int, w: int, a: int, b: int)
    ensures u * a + (w - u) * b == u * (a - b) + w * b
  {
  }

  /** A number without common divisors with m is invertible modulo m. */
  lemma CoprimeInverse(x: nat, m: nat) returns (z: int)
    requires m > 0 && Coprime(x, m)
    ensures Cong(z * x, 1, m)
  {
    var v;
    z, v := Bezout(x, m);
    CongIntro(z * x, 1, -v, m);
  }
}
