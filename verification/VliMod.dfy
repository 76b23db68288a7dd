/** Modular addition, subtraction, multiplication and inversion on four-digit integers. */
module VliMod {
  import opened Words
  import opened Vli
  import opened VliMult
  import opened VliReduce
  import opened Congruence

  /**
    result := left + right mod mod. Reduced operands give the reduced sum; an unreduced
    left operand (a message hash) still gives a congruent result.
   */
  method ModAdd(result: Ptr, left: Ptr, right: Ptr, mod: Ptr)
    requires result.Ok() && left.Ok() && right.Ok() && mod.Ok()
    requires SameOrApart(result, left) && SameOrApart(result, right) && result.buf != mod.buf
    requires left.V() + right.V() < TWO256 + mod.V()
    modifies result.buf
    ensures var sum := old(left.V() + right.V()); result.V() == if sum >= mod.V() then sum - mod.V() else sum
    ensures OnlyWindow(result)
  {
    var carry := Add(result, left, right);
    var order := Cmp(result, mod);
    if carry != 0 || order >= 0 {
      var _ := Sub(result, result, mod);
    }
  }

  /** result := left - right mod mod. */
  method ModSub(result: Ptr, left: Ptr, right: Ptr, mod: Ptr)
    requires result.Ok() && left.Ok() && right.Ok() && mod.Ok()
    requires SameOrApart(result, left) && SameOrApart(result, right) && result.buf != mod.buf
    requires right.V() <= left.V() + mod.V()
    modifies result.buf
    ensures var diff := old(left.V() - right.V()); result.V() == if diff < 0 then diff + mod.V() else diff
    ensures OnlyWindow(result)
  {
    var borrow := Sub(result, left, right);
    if borrow != 0 {
      var _ := Add(result, result, mod);
    }
  }

  lemma ReducedSum(a: nat, b: nat, m: nat)
    requires a < m && b < m
    ensures (a + b) % m == if a + b >= m then a + b - m else a + b
    ensures (a - b) % m == if a - b < 0 then a - b + m else a - b
  {
    DivModUnique(a + b, m, if a + b >= m then 1 else 0, if a + b >= m then a + b - m else a + b);
    DivModUnique(a - b, m, if a - b < 0 then -1 else 0, if a - b < 0 then a - b + m else a - b);
  }

  /** result := left * right mod p. */
  method ModMultFast(result: Ptr, left: Ptr, right: Ptr, p: Ptr)
    requires result.Ok() && left.Ok() && right.Ok() && p.Ok() && IsP256(p.V()) && result.buf != p.buf
    modifies result.buf
    ensures p.V() > 0 && result.V() == old(left.V() * right.V()) % p.V()
    ensures OnlyWindow(result)
  {
    var product := new u64[8];
    Mult(product, left, right);
    MmodFast(result, product, p);
  }

  /** result := left^2 mod p. */
  method ModSquareFast(result: Ptr, left: Ptr, p: Ptr)
    requires result.Ok() && left.Ok() && p.Ok() && IsP256(p.V()) && result.buf != p.buf
    modifies result.buf
    ensures p.V() > 0 && result.V() == old(left.V() * left.V()) % p.V()
    ensures OnlyWindow(result)
  {
    var product := new u64[8];
    Square(product, left);
    MmodFast(result, product, p);
  }

  // ---------- Inversion ----------

  /** Even(p), read off the lowest digit. */
  method Even(p: Ptr) returns (e: bool)
    requires p.Ok()
    ensures e <==> p.V() % 2 == 0
  {
    LowBitOfValue(p.Digits());
    assert p.Digits()[0] == p.buf[p.off];
    var b := KeepBit(p.buf[p.off]);
    e := b == 0;
  }

  /** x & 1 */
  method KeepBit(x: u64) returns (b: u64)
    ensures b == x % 2
  {
    AndLow(x, 1);
    Pow2Literals();
    b := And(x, 1);
  }

  /** x | 0x8000000000000000 */
  method SetTopBit(x: u64) returns (r: u64)
    requires x < 0x8000_0000_0000_0000
    ensures r == x + 0x8000_0000_0000_0000
  {
    Pow2Literals();
    OrDisjoint(0x8000_0000_0000_0000, x, 63);
    OrCommutes(x, 0x8000_0000_0000_0000);
    r := Or(x, 0x8000_0000_0000_0000);
  }

  lemma TopDigitAdd(X: seq<u64>, Y: seq<u64>, d: int)
    requires |X| == |Y| == DIGITS && X[0] == Y[0] && X[1] == Y[1] && X[2] == Y[2] && Y[3] == X[3] + d
    ensures Val(Y) == Val(X) + BASE3 * d
  {
    Val4(X);
    Val4(Y);
  }

  lemma HalfBound(X: seq<u64>, v: nat)
    requires |X| == DIGITS && Val(X) == v / 2 && v < TWO256
    ensures X[3] < 0x8000_0000_0000_0000
  {
    Val4(X);
  }

  /** p |= 2^255, for a value below 2^255. */
  method SetBit255(p: Ptr)
    requires p.Ok() && 2 * p.V() < TWO256
    modifies p.buf
    ensures p.V() == old(p.V()) + TWO256 / 2 && OnlyWindow(p)
  {
    ghost var X := p.Digits();
    HalfBound(X, 2 * p.V());
    assert X[3] == p.buf[p.off + 3];
    var d := SetTopBit(p.buf[p.off + 3]);
    p.buf[p.off + 3] := d;
    TopDigitAdd(X, p.Digits(), 0x8000_0000_0000_0000);
  }

  /** u := u / 2 modulo the odd number mod, the carry of u + mod becoming the top bit. */
  method HalveMod(u: Ptr, mod: Ptr)
    requires u.Ok() && mod.Ok() && u.buf != mod.buf
    requires mod.V() % 2 == 1
    modifies u.buf
    ensures 2 * u.V() == old(u.V()) + (if old(u.V()) % 2 == 1 then mod.V() else 0)
    ensures OnlyWindow(u)
  {
    var carry: u64 := 0;
    var even := Even(u);
    if !even {
      carry := Add(u, u, mod);
    }
    RShift1(u);
    if carry != 0 {
      SetBit255(u);
    }
  }

  /** u := u - v modulo mod; the carry out of u + mod is dropped because the borrow cancels it. */
  method SubtractMod(u: Ptr, v: Ptr, mod: Ptr)
    requires u.Ok() && v.Ok() && mod.Ok() && u.buf != mod.buf && u.buf != v.buf
    requires v.V() <= mod.V()
    modifies u.buf
    ensures u.V() == old(u.V()) - v.V() + (if old(u.V()) < v.V() then mod.V() else 0)
    ensures OnlyWindow(u)
  {
    var order := Cmp(u, v);
    if order < 0 {
      var _ := Add(u, u, mod);
    }
    var _ := Sub(u, u, v);
  }

  /**
    The relation kept between a remainder a and its cofactor u: a = u * x modulo m, with
    u reduced (a modulus of 1 leaves u == 1 as the only unreduced value).
   */
  ghost predicate Cofactor(u: int, a: int, x: int, m: int) {
    m > 0 && 0 <= u <= m && (m > 1 ==> u < m) && Cong(u * x, a, m)
  }

  /** Halving a and u modulo an odd number keeps a = u * x. */
  lemma HalveCofactor(u: int, u': int, a: int, x: int, m: int)
    requires m % 2 == 1 && Cofactor(u, a, x, m) && a % 2 == 0
    requires 2 * u' == u + (if u % 2 == 1 then m else 0)
    ensures Cofactor(u', a / 2, x, m)
  {
    var k := CongElim(u * x, a, m);
    var o := if u % 2 == 1 then 1 else 0;
    var e := k + o * x;
    DoubleCofactor(u, u', o, a, x, m, k, e);
    OddTimes(m, e, u' * x - a / 2);
    CongIntro(u' * x, a / 2, e / 2, m);
  }

  lemma DoubleCofactor(u: int, u': int, o: int, a: int, x: int, m: int, k: int, e: int)
    requires 2 * u' == u + o * m && u * x == a + m * k && e == k + o * x
    ensures 2 * (u' * x) == a + m * e
  {
    assert (2 * u') * x == (u + o * m) * x;
    assert (u + o * m) * x == u * x + m * (o * x);
    assert m * e == m * k + m * (o * x);
  }

  lemma OddTimes(m: int, e: int, c: int)
    requires m % 2 == 1 && 2 * c == m * e
    ensures e % 2 == 0 && c == m * (e / 2)
  {
    var h := m / 2;
    assert m * e == 2 * (h * e) + e;
    assert m * (2 * (e / 2)) == 2 * (m * (e / 2));
  }

  lemma SubtractCofactor(u: int, u': int, v: int, a: int, b: int, x: int, m: int)
    requires Cofactor(u, a, x, m) && Cofactor(v, b, x, m)
    requires u' == DiffMod(u, v, m)
    ensures Cofactor(u', a - b, x, m)
  {
    CongSub(u * x, a, v * x, b, m);
    var o := if u < v then 1 else 0;
    DifferenceTimes(u, v, o, m, x);
    CongIntro(u' * x, u * x - v * x, o * x, m);
  }

  lemma DifferenceTimes(u: int, v: int, o: int, m: int, x: int)
    ensures (u - v + o * m) * x == u * x - v * x + m * (o * x)
  {
  }

  /** Branch "a even": a and u are halved. */
  method HalvePair(a: Ptr, u: Ptr, mod: Ptr, ghost x: int)
    requires a.Ok() && u.Ok() && mod.Ok() && a.buf != u.buf && a.buf != mod.buf && u.buf != mod.buf
    requires mod.V() % 2 == 1 && a.V() % 2 == 0 && Cofactor(u.V(), a.V(), x, mod.V())
    modifies a.buf, u.buf
    ensures a.V() == old(a.V()) / 2 && Cofactor(u.V(), a.V(), x, mod.V())
  {
    ghost var u0, a0 := u.V(), a.V();
    RShift1(a);
    HalveMod(u, mod);
    HalveCofactor(u0, u.V(), a0, x, mod.V());
  }

  /** Branch "a, b odd and a > b": a := (a - b) / 2, and likewise for the cofactors. */
  method SubtractPair(a: Ptr, b: Ptr, u: Ptr, v: Ptr, mod: Ptr, ghost x: int)
    requires a.Ok() && b.Ok() && u.Ok() && v.Ok() && mod.Ok()
    requires a.buf != b.buf && a.buf != u.buf && a.buf != v.buf && a.buf != mod.buf
    requires u.buf != b.buf && u.buf != v.buf && u.buf != mod.buf
    requires mod.V() % 2 == 1 && a.V() % 2 == 1 && b.V() % 2 == 1 && a.V() > b.V()
    requires Cofactor(u.V(), a.V(), x, mod.V()) && Cofactor(v.V(), b.V(), x, mod.V())
    modifies a.buf, u.buf
    ensures a.V() == (old(a.V()) - b.V()) / 2 && Cofactor(u.V(), a.V(), x, mod.V())
  {
    ghost var u0: int, v0: int, a0: int, b0: int, m: int := u.V(), v.V(), a.V(), b.V(), mod.V();
    SubtractHalve(a, b);
    SubtractHalveMod(u, v, mod);
    SubtractHalveCofactor(u0, u.V(), v0, a0, b0, a.V(), x, m);
  }

  method SubtractHalve(a: Ptr, b: Ptr)
    requires a.Ok() && b.Ok() && a.buf != b.buf && a.V() > b.V()
    modifies a.buf
    ensures a.V() == (old(a.V()) - b.V()) / 2
  {
    var _ := Sub(a, a, b);
    RShift1(a);
  }

  /** u - v modulo m. */
  ghost function DiffMod(u: int, v: int, m: int): int {
    u - v + (if u < v then m else 0)
  }

  method SubtractHalveMod(u: Ptr, v: Ptr, mod: Ptr)
    requires u.Ok() && v.Ok() && mod.Ok() && u.buf != mod.buf && u.buf != v.buf
    requires v.V() <= mod.V() && mod.V() % 2 == 1
    modifies u.buf
    ensures var w := DiffMod(old(u.V()), v.V(), mod.V()); 2 * u.V() == w + (if w % 2 == 1 then mod.V() else 0)
  {
    SubtractMod(u, v, mod);
    HalveMod(u, mod);
  }

  lemma SubtractHalveCofactor(u: int, u': int, v: int, a: int, b: int, a': int, x: int, m: int)
    requires m % 2 == 1 && a % 2 == 1 && b % 2 == 1 && a' == (a - b) / 2
    requires Cofactor(u, a, x, m) && Cofactor(v, b, x, m)
    requires var w := DiffMod(u, v, m); 2 * u' == w + (if w % 2 == 1 then m else 0)
    ensures Cofactor(u', a', x, m)
  {
    var w := DiffMod(u, v, m);
    SubtractCofactor(u, w, v, a, b, x, m);
    SameParityDifference(a, b);
    HalveCofactor(w, u', a - b, x, m);
  }

  lemma SameParityDifference(a: int, b: int)
    requires a % 2 == 1 && b % 2 == 1
    ensures (a - b) % 2 == 0
  {
  }

  /** The invariant of the inversion loop. */
  ghost predicate InvLoop(a: int, b: int, u: int, v: int, x: int, m: int) {
    && a > 0 && b > 0 && (a % 2 == 1 || b % 2 == 1)
    && Cofactor(u, a, x, m) && Cofactor(v, b, x, m) && SameDivisors(a, b, x, m)
  }

  lemma InvStart(x: int, m: int)
    requires x > 0 && m > 0 && m % 2 == 1
    ensures InvLoop(x, m, 1, 0, x, m)
  {
    CongIntro(0, m, -1, m);
  }

  lemma InvHalveA(a: int, b: int, u: int, v: int, u': int, x: int, m: int)
    requires InvLoop(a, b, u, v, x, m) && a % 2 == 0 && Cofactor(u', a / 2, x, m)
    ensures InvLoop(a / 2, b, u', v, x, m)
  {
    HalvingKeepsDivisors(a, b);
    DivisorsChain(a / 2, b, a, b, x, m);
  }

  lemma InvSwap(a: int, b: int, u: int, v: int, x: int, m: int)
    requires InvLoop(a, b, u, v, x, m)
    ensures InvLoop(b, a, v, u, x, m)
  {
    DivisorsSwap(a, b, x, m);
  }

  lemma InvSubtractA(a: int, b: int, u: int, v: int, u': int, x: int, m: int)
    requires InvLoop(a, b, u, v, x, m) && a % 2 == 1 && b % 2 == 1 && a > b && Cofactor(u', (a - b) / 2, x, m)
    ensures InvLoop((a - b) / 2, b, u', v, x, m)
  {
    HalvedDifferenceKeepsDivisors(a, b);
    DivisorsChain((a - b) / 2, b, a, b, x, m);
  }

  lemma InvHalveB(a: int, b: int, u: int, v: int, v': int, x: int, m: int)
    requires InvLoop(a, b, u, v, x, m) && b % 2 == 0 && Cofactor(v', b / 2, x, m)
    ensures InvLoop(a, b / 2, u, v', x, m)
  {
    InvSwap(a, b, u, v, x, m);
    InvHalveA(b, a, v, u, v', x, m);
    InvSwap(b / 2, a, v', u, x, m);
  }

  lemma InvSubtractB(a: int, b: int, u: int, v: int, v': int, x: int, m: int)
    requires InvLoop(a, b, u, v, x, m) && a % 2 == 1 && b % 2 == 1 && b > a && Cofactor(v', (b - a) / 2, x, m)
    ensures InvLoop(a, (b - a) / 2, u, v', x, m)
  {
    InvSwap(a, b, u, v, x, m);
    InvSubtractA(b, a, v, u, v', x, m);
    InvSwap((b - a) / 2, a, v', u, x, m);
  }

  /**
    result := 1 / input mod mod by the binary Euclidean algorithm.
    For every odd modulus the result r satisfies r * input = gcd(input, mod); input 0 gives 0.
   */
  method ModInv(result: Ptr, input: Ptr, mod: Ptr)
    requires result.Ok() && input.Ok() && mod.Ok()
    requires mod.V() % 2 == 1
    modifies result.buf
    ensures old(input.V()) == 0 ==> result.V() == 0
    ensures old(input.V()) != 0 ==>
      exists g :: IsGcd(g, old(input.V()), old(mod.V())) && Cofactor(result.V(), g, old(input.V()), old(mod.V()))
    ensures OnlyWindow(result)
  {
    var zero := IsZero(input);
    if zero {
      Clear(result);
      return;
    }
    var u := InverseOf(input, mod);
    Set(result, u);
  }

  /** The inversion of a nonzero input into a fresh number. */
  method InverseOf(input: Ptr, mod: Ptr) returns (u: Ptr)
    requires input.Ok() && mod.Ok() && mod.V() % 2 == 1 && input.V() != 0
    ensures u.Ok() && fresh(u.buf)
    ensures exists g :: IsGcd(g, input.V(), mod.V()) && Cofactor(u.V(), g, input.V(), mod.V())
  {
    var a := NewVli();
    var b := NewVli();
    u := NewVli();
    var v := NewVli();
    Set(a, input);
    Set(b, mod);
    SetOne(u);
    Clear(v);
    InvStart(input.V(), mod.V());
    var order := Cmp(a, b);
    while order != 0
      invariant order == 0 <==> a.V() == b.V()
      invariant order > 0 <==> a.V() > b.V()
      invariant InvLoop(a.V(), b.V(), u.V(), v.V(), input.V(), mod.V())
      decreases a.V() + b.V()
    {
      InvStep(a, b, u, v, mod, order, input.V());
      order := Cmp(a, b);
    }
    GcdOfEqual(a.V(), input.V(), mod.V());
  }

  /** r := 1 */
  method SetOne(r: Ptr)
    requires r.Ok()
    modifies r.buf
    ensures r.V() == 1 && OnlyWindow(r)
  {
    Clear(r);
    Val4(r.Digits());
    r.buf[r.off] := 1;
    Val4(r.Digits());
  }

  /** One round of the loop. */
  method InvStep(a: Ptr, b: Ptr, u: Ptr, v: Ptr, mod: Ptr, order: int, ghost x: int)
    requires a.Ok() && b.Ok() && u.Ok() && v.Ok() && mod.Ok()
    requires a.buf != b.buf && a.buf != u.buf && a.buf != v.buf && a.buf != mod.buf
    requires b.buf != u.buf && b.buf != v.buf && b.buf != mod.buf
    requires u.buf != v.buf && u.buf != mod.buf && v.buf != mod.buf
    requires mod.V() % 2 == 1 && InvLoop(a.V(), b.V(), u.V(), v.V(), x, mod.V())
    requires order != 0 && a.V() != b.V() && (order > 0 <==> a.V() > b.V())
    modifies a.buf, b.buf, u.buf, v.buf
    ensures InvLoop(a.V(), b.V(), u.V(), v.V(), x, mod.V())
    ensures a.V() + b.V() < old(a.V() + b.V())
  {
    ghost var a0, b0, u0, v0, m := a.V(), b.V(), u.V(), v.V(), mod.V();
    var evenA := Even(a);
    if evenA {
      HalvePair(a, u, mod, x);
      InvHalveA(a0, b0, u0, v0, u.V(), x, m);
      return;
    }
    var evenB := Even(b);
    if evenB {
      HalvePair(b, v, mod, x);
      InvHalveB(a0, b0, u0, v0, v.V(), x, m);
    } else if order > 0 {
      SubtractPair(a, b, u, v, mod, x);
      InvSubtractA(a0, b0, u0, v0, u.V(), x, m);
    } else {
      SubtractPair(b, a, v, u, mod, x);
      InvSubtractB(a0, b0, u0, v0, v.V(), x, m);
    }
  }

  method NewVli() returns (p: Ptr)
    ensures p.Ok() && p.off == 0 && p.buf.Length == DIGITS && fresh(p.buf)
  {
    var buf := new u64[DIGITS];
    p := Ptr(buf, 0);
  }
}
