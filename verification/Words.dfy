/**
  Machine words and little-endian digit arrays.

  A 64-bit digit is an integer below 2^64; the shift, mask and `|` operators of the
  program are the functions Shl, Shr, And and Or below, with the wrap-around written out.
  A pointer into a digit buffer is a buffer and an offset, so that one array may be
  passed both as a source and as the destination, and in two overlapping halves.
 */
module Words {

  const BASE: int := 0x1_0000_0000_0000_0000

  type u64 = x: int | 0 <= x < 0x1_0000_0000_0000_0000

  /** The number of 64-bit digits of a 256-bit integer. */
  const DIGITS: nat := 4

  const BASE2: int := 0x1_0000000000000000_0000000000000000
  const BASE3: int := 0x1_0000000000000000_0000000000000000_0000000000000000
  const TWO256: int := 0x1_0000000000000000_0000000000000000_0000000000000000_0000000000000000

  // ---------- Powers of two and bit operators ----------

  function Pow2(k: nat): (r: nat)
    ensures r >= 1
  {
    if k == 0 then 1 else 2 * Pow2(k - 1)
  }

  lemma {:induction false} Pow2Add(a: nat, b: nat)
    ensures Pow2(a + b) == Pow2(a) * Pow2(b)
  {
    if a == 0 {
    } else {
      Pow2Add(a - 1, b);
      assert a + b - 1 == (a - 1) + b;
      assert 2 * (Pow2(a - 1) * Pow2(b)) == (2 * Pow2(a - 1)) * Pow2(b);
    }
  }

  lemma {:induction false} Pow2Monotone(a: nat, b: nat)
    requires a <= b
    ensures Pow2(a) <= Pow2(b)
  {
    if a < b {
      Pow2Monotone(a, b - 1);
    }
  }

  /** Bitwise or. */
  function Or(a: nat, b: nat): nat
    decreases a + b
  {
    if a == 0 then b
    else if b == 0 then a
    else 2 * Or(a / 2, b / 2) + (if a % 2 == 1 || b % 2 == 1 then 1 else 0)
  }

  /** Bitwise and. */
  function And(a: nat, b: nat): nat
  {
    if a == 0 || b == 0 then 0
    else 2 * And(a / 2, b / 2) + (if a % 2 == 1 && b % 2 == 1 then 1 else 0)
  }

  /** Or of operands without common bits is their sum. */
  lemma {:induction false} OrDisjoint(a: nat, b: nat, k: nat)
    requires a % Pow2(k) == 0 && b < Pow2(k)
    ensures Or(a, b) == a + b
  {
    if k == 0 || a == 0 || b == 0 {
    } else {
      HalveMultiple(a, Pow2(k - 1));
      OrDisjoint(a / 2, b / 2, k - 1);
    }
  }

  lemma HalveMultiple(a: nat, m: nat)
    requires m >= 1 && a % (2 * m) == 0
    ensures a % 2 == 0 && (a / 2) % m == 0
  {
    HalveDiv(a, m);
  }

  lemma ModMultiple(q: int, m: int)
    requires m >= 1
    ensures (m * q) % m == 0
  {
    DivModUnique(m * q, m, q, 0);
  }

  /** Products with a positive factor keep strict order, by at least one step. */
  lemma MulStep(m: int, a: int, b: int)
    requires m >= 0 && a < b
    ensures m * a + m <= m * b
  {
    var c := b - a - 1;
    assert m * b == m * a + m + m * c;
    assert m * c >= 0;
  }

  /** Quotient and remainder are determined by their defining equation. */
  lemma DivModUnique(x: int, m: int, q: int, r: int)
    requires m >= 1 && x == m * q + r && 0 <= r < m
    ensures x / m == q && x % m == r
  {
    var q', r' := x / m, x % m;
    assert x == m * q' + r' && 0 <= r' < m;
    if q < q' {
      MulStep(m, q, q');
      assert false;
    } else if q' < q {
      MulStep(m, q', q);
      assert false;
    }
  }

  /** Writing x as 2 * (x / 2) + x % 2 commutes with division by an even number. */
  lemma HalveDiv(x: nat, m: nat)
    requires m >= 1
    ensures x / (2 * m) == (x / 2) / m
    ensures x % (2 * m) == 2 * ((x / 2) % m) + x % 2
  {
    var h := x / 2;
    var q, r := h / m, h % m;
    assert h == m * q + r;
    assert x == 2 * h + x % 2;
    assert 2 * (m * q) == (2 * m) * q;
    DivModUnique(x, 2 * m, q, 2 * r + x % 2);
  }

  /** Masking with 2^k - 1 keeps the low k bits. */
  lemma {:induction false} AndLow(x: nat, k: nat)
    ensures And(x, Pow2(k) - 1) == x % Pow2(k)
  {
    if k == 0 {
    } else if x == 0 {
      DivModUnique(0, Pow2(k), 0, 0);
    } else {
      AndLow(x / 2, k - 1);
      AndLowUp(x, Pow2(k - 1));
    }
  }

  lemma AndLowUp(x: nat, m: nat)
    requires m >= 1 && x > 0 && And(x / 2, m - 1) == (x / 2) % m
    ensures And(x, 2 * m - 1) == x % (2 * m)
  {
    AndLowStep(x, m, 2 * m - 1);
    HalveDiv(x, m);
  }

  lemma AndLowStep(x: nat, m: nat, mask: nat)
    requires m >= 1 && x > 0 && mask == 2 * m - 1
    ensures And(x, mask) == 2 * And(x / 2, m - 1) + x % 2
  {
    assert mask / 2 == m - 1 && mask % 2 == 1;
  }

  function Quot(x: nat, d: nat): nat
    requires d >= 1
  {
    DivNonneg(x, d);
    x / d
  }

  /** Masking with m * 2^k looks only at the bits from k upwards. */
  lemma {:induction false} AndShifted(x: nat, m: nat, k: nat)
    ensures m * Pow2(k) >= 0
    ensures And(x, m * Pow2(k)) == Pow2(k) * And(Quot(x, Pow2(k)), m)
  {
    MulNonneg(m, Pow2(k));
    if k == 0 {
      assert Quot(x, 1) == x && m * 1 == m;
    } else {
      AndShifted(x / 2, m, k - 1);
      HalveDiv(x, Pow2(k - 1));
      AndShiftedStep(x, m, Pow2(k - 1), m * Pow2(k - 1), Quot(x, Pow2(k)));
    }
  }

  lemma AndShiftedStep(x: nat, m: nat, p: nat, mp: nat, h: nat)
    requires p >= 1 && mp == m * p
    requires And(x / 2, mp) == p * And(h, m)
    ensures m * (2 * p) == 2 * mp
    ensures And(x, 2 * mp) == (2 * p) * And(h, m)
  {
    DoubleMask(x, mp);
    MulAssoc(m, p, And(h, m));
  }

  lemma MulNonneg(a: nat, b: nat)
    ensures a * b >= 0
  {
  }

  lemma MulAssoc(m: int, p: int, a: int)
    ensures m * (2 * p) == 2 * (m * p) && (2 * p) * a == 2 * (p * a)
  {
  }

  lemma DoubleMask(x: nat, m: nat)
    ensures And(x, 2 * m) == 2 * And(x / 2, m)
  {
    if x != 0 && m != 0 {
      assert (2 * m) / 2 == m && (2 * m) % 2 == 0;
    }
  }

  /** x << s on a 64-bit digit. */
  function Shl(x: u64, s: nat): (r: u64)
  {
    (x * Pow2(s)) % BASE
  }

  /** x >> s on a 64-bit digit. */
  function Shr(x: u64, s: nat): (r: u64)
  {
    DivNonneg(x, Pow2(s));
    Quot(x, Pow2(s))
  }

  lemma DivNonneg(x: nat, d: nat)
    requires d >= 1
    ensures 0 <= x / d <= x
  {
    var q := x / d;
    assert x == d * q + x % d;
    if q < 0 {
      MulStep(d, q, 0);
      assert false;
    }
    if q > x {
      MulStep(q, 0, d);
      assert false;
    }
  }

  lemma Pow2Double(k: nat, v: nat)
    requires Pow2(k) == v
    ensures Pow2(2 * k) == v * v
  {
    Pow2Add(k, k);
  }

  lemma Pow2Literals()
    ensures Pow2(1) == 2 && Pow2(32) == 0x1_0000_0000 && Pow2(63) == 0x8000_0000_0000_0000 && Pow2(64) == BASE
  {
    Pow2Double(1, 2);
    Pow2Double(2, 4);
    Pow2Double(4, 16);
    Pow2Double(8, 256);
    Pow2Double(16, 65536);
    Pow2Double(32, 0x1_0000_0000);
    Pow2Half(63);
  }

  lemma Pow2Of256()
    ensures Pow2(256) == TWO256
  {
    Pow2Literals();
    Pow2Double(64, BASE);
    Pow2Double(128, BASE2);
  }

  lemma Pow2Half(k: nat)
    ensures Pow2(k + 1) == 2 * Pow2(k)
  {
  }

  lemma MaskLow32(x: nat)
    ensures And(x, 0xffff_ffff) == x % 0x1_0000_0000
  {
    Pow2Literals();
    AndLow(x, 32);
  }

  lemma MaskHigh32(x: u64)
    ensures And(x, 0xffff_ffff_0000_0000) == x - x % 0x1_0000_0000
  {
    Pow2Literals();
    var h := Quot(x, 0x1_0000_0000);
    AndShifted(x, 0xffff_ffff, 32);
    MaskLow32(h);
    assert h % 0x1_0000_0000 == h;
  }

  /** A left shift splits into the kept low part and the bits shifted out. */
  lemma ShiftSplit(x: u64, s: nat)
    requires 0 < s < 64
    ensures Shl(x, s) + BASE * Shr(x, 64 - s) == x * Pow2(s)
    ensures Shl(x, s) % Pow2(s) == 0 && Shr(x, 64 - s) < Pow2(s)
  {
    Pow2Literals();
    Pow2Add(s, 64 - s);
    SplitProduct(x, Pow2(s), Pow2(64 - s));
  }

  lemma SplitProduct(x: nat, p: nat, t: nat)
    requires p >= 1 && t >= 1 && x < p * t
    ensures x * p == (p * t) * (x / t) + p * (x % t)
    ensures (x * p) % (p * t) == p * (x % t) && (p * (x % t)) % p == 0
    ensures x / t < p
  {
    var h, l := x / t, x % t;
    ScaleSum(p, t, h, l);
    MulStep(p, l, t);
    MulNonneg(p, l);
    DivModUnique(x * p, p * t, h, p * l);
    ModMultiple(l, p);
    if h >= p {
      MulMono(t, p, h);
      assert false;
    }
  }

  lemma ScaleSum(p: int, t: int, h: int, l: int)
    ensures (t * h + l) * p == (p * t) * h + p * l
  {
  }

  lemma MulMono(m: nat, a: int, b: int)
    requires a <= b
    ensures m * a <= m * b
  {
    if a < b {
      MulStep(m, a, b);
    }
  }

  lemma OrCommutes(a: nat, b: nat)
    ensures Or(a, b) == Or(b, a)
    decreases a + b
  {
    if a != 0 && b != 0 {
      OrCommutes(a / 2, b / 2);
    }
  }
}
