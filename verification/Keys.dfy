/** Octet strings, square roots and compressed points (sections 2.3.4, 2.3.7 and 2.3.8 of SEC 1). */
module Keys {
  import opened Words
  import opened Vli
  import opened VliReduce
  import opened VliMod
  import opened Congruence
  import opened Curves
  import opened Field
  import opened Residues

  type u8 = x: int | 0 <= x < 256

  // ---------- Big-endian octet strings ----------

  ghost function BigEndian(b: seq<u8>): nat {
    if |b| == 0 then 0 else 256 * BigEndian(b[..|b| - 1]) + b[|b| - 1]
  }

  /** The digit read from eight octets by shifting and or-ing. */
  method DigitOfOctets(b: seq<u8>) returns (d: u64)
    requires |b| == 8
    ensures d == BigEndian(b)
  {
    d := 0;
    for i := 0 to 8
      invariant d == BigEndian(b[..i]) && d < Pow2(8 * i)
    {
      OctetStep(d, b[i], i);
      assert b[..i + 1][..i] == b[..i];
      d := Or(256 * d, b[i]);
    }
    assert b[..8] == b;
  }

  lemma OctetStep(d: nat, o: u8, i: nat)
    requires i < 8 && d < Pow2(8 * i)
    ensures Or(256 * d, o) == 256 * d + o < Pow2(8 * i + 8) <= BASE
  {
    Pow2Double(1, 2);
    Pow2Double(2, 4);
    Pow2Double(4, 16);
    Pow2Literals();
    Pow2Add(8, 8 * i);
    Pow2Monotone(8 * i + 8, 64);
    ModMultiple(d, 256);
    OrDisjoint(256 * d, o, 8);
  }

  lemma Pow2Octet(n: nat)
    ensures Pow2(8 * (n + 1)) == 256 * Pow2(8 * n)
  {
    Pow2Double(1, 2);
    Pow2Double(2, 4);
    Pow2Double(4, 16);
    Pow2Add(8, 8 * n);
  }

  lemma ScaleOctet(v: int, p: int)
    ensures 256 * (v * p) == v * (256 * p)
  {
  }

  lemma {:induction false} BigEndianConcat(a: seq<u8>, b: seq<u8>)
    ensures BigEndian(a + b) == BigEndian(a) * Pow2(8 * |b|) + BigEndian(b)
  {
    if b == [] {
      assert a + b == a;
    } else {
      var n := |b| - 1;
      BigEndianConcat(a, b[..n]);
      assert (a + b)[..|a + b| - 1] == a + b[..n];
      Pow2Octet(n);
      ScaleOctet(BigEndian(a), Pow2(8 * n));
    }
  }

  /** The value of four digits given as big-endian groups of eight octets. */
  lemma FourGroups(b: seq<u8>, d: seq<u64>)
    requires |b| == 32 && |d| == DIGITS
    requires d[3] == BigEndian(b[0..8]) && d[2] == BigEndian(b[8..16])
    requires d[1] == BigEndian(b[16..24]) && d[0] == BigEndian(b[24..32])
    ensures Val(d) == BigEndian(b)
  {
    Val4(d);
    AppendGroup(b[0..8], b[8..16]);
    assert b[0..8] + b[8..16] == b[0..16];
    AppendGroup(b[0..16], b[16..24]);
    assert b[0..16] + b[16..24] == b[0..24];
    AppendGroup(b[0..24], b[24..32]);
    assert b[0..24] + b[24..32] == b;
  }

  lemma AppendGroup(a: seq<u8>, g: seq<u8>)
    requires |g| == 8
    ensures BigEndian(a + g) == BASE * BigEndian(a) + BigEndian(g)
  {
    Pow2Literals();
    var v := BigEndian(a);
    BigEndianConcat(a, g);
    assert Pow2(8 * |g|) == BASE;
  }

  /** Digit k of the big-endian number b. */
  ghost function GroupDigit(b: seq<u8>, k: nat): (d: u64)
    requires |b| == 32 && k < DIGITS
  {
    GroupBound(b[8 * (3 - k)..8 * (4 - k)]);
    BigEndian(b[8 * (3 - k)..8 * (4 - k)])
  }

  lemma GroupBound(g: seq<u8>)
    requires |g| == 8
    ensures BigEndian(g) < BASE
  {
    OctetsBound(g);
    Pow2Literals();
  }

  lemma {:induction false} OctetsBound(g: seq<u8>)
    ensures BigEndian(g) < Pow2(8 * |g|)
  {
    if |g| > 0 {
      OctetsBound(g[..|g| - 1]);
      Pow2Octet(|g| - 1);
    }
  }

  /** Octets to integer: the digits of the big-endian number in 32 octets. */
  method Bytes2Native(native: Ptr, bytes: array<u8>, off: nat)
    requires native.Ok() && off + 32 <= bytes.Length
    modifies native.buf
    ensures native.V() == BigEndian(bytes[off..off + 32]) && OnlyWindow(native)
  {
    var octets := bytes[off..off + 32];
    ghost var b := octets;
    for i := 0 to DIGITS
      invariant OnlyPrefix(native, i)
      invariant forall j :: native.off <= j < native.off + i ==> native.buf[j] == GroupDigit(b, j - native.off)
    {
      var start := 8 * (DIGITS - 1 - i);
      var d := DigitOfOctets(octets[start..start + 8]);
      native.buf[native.off + i] := d;
    }
    ghost var D := [GroupDigit(b, 0), GroupDigit(b, 1), GroupDigit(b, 2), GroupDigit(b, 3)];
    DigitsAre(native, D);
    FourGroups(b, D);
  }

  /** The big-endian octets of a digit. */
  ghost function Octets(d: nat, n: nat): (s: seq<u8>)
    ensures |s| == n
  {
    if n == 0 then [] else Octets(d / 256, n - 1) + [d % 256]
  }

  lemma BelowQuotient(d: nat, m: nat)
    requires d < 256 * m
    ensures d / 256 < m
  {
  }

  lemma {:induction false} OctetsValue(d: nat, n: nat)
    requires d < Pow2(8 * n)
    ensures BigEndian(Octets(d, n)) == d
  {
    if n > 0 {
      Pow2Octet(n - 1);
      BelowQuotient(d, Pow2(8 * (n - 1)));
      OctetsValue(d / 256, n - 1);
      var s := Octets(d, n);
      assert s[..n - 1] == Octets(d / 256, n - 1);
    }
  }

  lemma {:induction false} OctetAt(d: nat, n: nat, k: nat)
    requires k < n
    ensures Octets(d, n)[k] == Quot(d, Pow2(8 * (n - 1 - k))) % 256
  {
    if k == n - 1 {
      assert Quot(d, 1) == d;
    } else {
      OctetAt(d / 256, n - 1, k);
      var e := 8 * (n - 2 - k);
      Pow2Double(1, 2);
      Pow2Double(2, 4);
      Pow2Double(4, 16);
      Pow2Add(8, e);
      DivByProduct(d, 256, Pow2(e));
      assert 8 * (n - 1 - k) == 8 + e;
      assert Octets(d, n)[k] == Octets(d / 256, n - 1)[k];
    }
  }

  /** Integer to octets: the inverse of Bytes2Native. */
  method Native2Bytes(bytes: array<u8>, off: nat, native: Ptr)
    requires native.Ok() && off + 32 <= bytes.Length
    modifies bytes
    ensures BigEndian(bytes[off..off + 32]) == native.V()
    ensures forall j :: 0 <= j < bytes.Length && !(off <= j < off + 32) ==> bytes[j] == old(bytes[j])
  {
    ghost var D := native.Digits();
    for i := 0 to DIGITS
      invariant forall j :: 0 <= j < bytes.Length && !(off + 8 * (4 - i) <= j < off + 32) ==> bytes[j] == old(bytes[j])
      invariant i >= 1 ==> bytes[off + 24..off + 32] == Octets(D[0], 8)
      invariant i >= 2 ==> bytes[off + 16..off + 24] == Octets(D[1], 8)
      invariant i >= 3 ==> bytes[off + 8..off + 16] == Octets(D[2], 8)
      invariant i >= 4 ==> bytes[off..off + 8] == Octets(D[3], 8)
    {
      WriteDigit(bytes, off + 8 * (DIGITS - 1 - i), native.buf[native.off + i]);
    }
    ghost var b := bytes[off..off + 32];
    SliceOfSlice(bytes, off, 0);
    SliceOfSlice(bytes, off, 8);
    SliceOfSlice(bytes, off, 16);
    SliceOfSlice(bytes, off, 24);
    DigitsAsOctets(D, b);
  }

  lemma SliceOfSlice(bytes: array<u8>, off: nat, i: nat)
    requires off + 32 <= bytes.Length && i <= 24
    ensures bytes[off..off + 32][i..i + 8] == bytes[off + i..off + i + 8]
  {
    var b, w := bytes[off..off + 32][i..i + 8], bytes[off + i..off + i + 8];
    forall j | 0 <= j < 8
      ensures b[j] == w[j]
    {
      assert b[j] == bytes[off..off + 32][i + j] == bytes[off + i + j];
    }
  }

  /** Eight octets of one digit, most significant first. */
  method WriteDigit(bytes: array<u8>, start: nat, d: u64)
    requires start + 8 <= bytes.Length
    modifies bytes
    ensures bytes[start..start + 8] == Octets(d, 8)
    ensures forall j :: 0 <= j < bytes.Length && !(start <= j < start + 8) ==> bytes[j] == old(bytes[j])
  {
    for k := 0 to 8
      invariant forall j :: 0 <= j < bytes.Length && !(start <= j < start + k) ==> bytes[j] == old(bytes[j])
      invariant forall j :: start <= j < start + k ==> bytes[j] == Octets(d, 8)[j - start]
    {
      OctetAt(d, 8, k);
      bytes[start + k] := Shr(d, 8 * (7 - k)) % 256;
    }
  }

  lemma DigitsAsOctets(D: seq<u64>, b: seq<u8>)
    requires |D| == DIGITS && |b| == 32
    requires b[24..32] == Octets(D[0], 8) && b[16..24] == Octets(D[1], 8)
    requires b[8..16] == Octets(D[2], 8) && b[0..8] == Octets(D[3], 8)
    ensures BigEndian(b) == Val(D)
  {
    Pow2Literals();
    OctetsValue(D[0], 8);
    OctetsValue(D[1], 8);
    OctetsValue(D[2], 8);
    OctetsValue(D[3], 8);
    FourGroups(b, D);
  }

  // ---------- Square roots ----------

  /** One round: square, and multiply if the bit is set. */
  lemma ExpRound(c: Curve, a: int, e: nat, r: int, s: int, t: int, bit: bool)
    requires c.Eq(r, Exp(a, e)) && c.Eq(s, r * r) && c.Eq(t, if bit then s * a else s)
    ensures c.Eq(t, Exp(a, 2 * e + if bit then 1 else 0))
  {
    c.EqMul(r, Exp(a, e), r, Exp(a, e));
    ExpSum(a, e, e);
    assert e + e == 2 * e;
    if bit {
      c.EqMul(s, Exp(a, 2 * e), a, a);
      assert Exp(a, 2 * e + 1) == a * Exp(a, 2 * e);
      assert Exp(a, 2 * e) * a == a * Exp(a, 2 * e);
    }
  }

  /** a := a^((p + 1) / 4), by scanning the bits of p + 1 down to bit 2. */
  method ModSqrt(a: Ptr, p: Ptr, ghost c: Curve)
    requires IsField(c, p) && Elem(a, c) && a.buf != p.buf
    modifies a.buf
    ensures Elem(a, c) && c.Eq(a.V(), Exp(old(a.V()), (c.modulus + 1) / 4)) && OnlyWindow(a)
  {
    var p1 := PrimePlusOne(p, c);
    var result := NewVli();
    SetOne(result);
    SqrtLoop(result, p1, a, p, c);
    QuarterPrefix(c.modulus + 1);
    Set(a, result);
  }

  /** p1 = curve_p + 1 */
  method PrimePlusOne(p: Ptr, ghost c: Curve) returns (p1: Ptr)
    requires IsField(c, p)
    ensures p1.Ok() && fresh(p1.buf) && p1.V() == c.modulus + 1 && p1.V() >= TWO256 / 2
  {
    P256Shape(c.modulus);
    p1 := NewVli();
    SetOne(p1);
    var _ := Add(p1, p, p1);
  }

  lemma QuarterPrefix(v: nat)
    ensures Quot(v, Pow2(2)) == v / 4
  {
    assert Pow2(2) == 4;
  }

  method SqrtLoop(result: Ptr, p1: Ptr, a: Ptr, p: Ptr, ghost c: Curve)
    requires IsField(c, p) && Elem(a, c) && Elem(result, c) && p1.Ok()
    requires result.buf !in {a.buf, p.buf, p1.buf} && result.V() == 1 && p1.V() >= TWO256 / 2
    modifies result.buf
    ensures Elem(result, c) && c.Eq(result.V(), Exp(a.V(), Quot(p1.V(), Pow2(2))))
  {
    var bits := NumBits(p1);
    ManyBits(p1.V(), bits);
    var i := bits - 1;
    assert Exp(a.V(), 0) == 1;
    while i > 1
      invariant 1 <= i <= 255 && Elem(result, c)
      invariant c.Eq(result.V(), Exp(a.V(), Quot(p1.V(), Pow2(i + 1))))
    {
      SqrtRound(result, p1, i, a, p, c);
      i := i - 1;
    }
  }

  lemma ManyBits(v: nat, n: nat)
    requires TWO256 / 2 <= v && IsBitLength(v, n)
    ensures n >= 3 && Quot(v, Pow2(n)) == 0
  {
    DivModUnique(v, Pow2(n), 0, v);
    if n < 3 {
      Pow2Monotone(n, 32);
      Pow2Literals();
      assert false;
    }
  }

  method SqrtRound(result: Ptr, p1: Ptr, i: nat, a: Ptr, p: Ptr, ghost c: Curve)
    requires IsField(c, p) && Elem(a, c) && Elem(result, c) && p1.Ok() && i < 256
    requires result.buf !in {a.buf, p.buf, p1.buf}
    requires c.Eq(result.V(), Exp(a.V(), Quot(p1.V(), Pow2(i + 1))))
    modifies result.buf
    ensures Elem(result, c) && c.Eq(result.V(), Exp(a.V(), Quot(p1.V(), Pow2(i))))
  {
    ghost var r: int := result.V();
    ghost var e := Quot(p1.V(), Pow2(i + 1));
    PrefixStepDown(p1.V(), i);
    FSquare(result, result, p, c);
    ghost var s: int := result.V();
    var bit := TestBit(p1, i);
    if bit != 0 {
      FMul(result, result, a, p, c);
    }
    ExpRound(c, a.V(), e, r, s, result.V(), bit != 0);
  }

  // ---------- Compressed points ----------

  /** x^3 - 3x + b */
  ghost function Cubic(c: Curve, x: int): int {
    x * x * x - 3 * x + c.coefB
  }

  lemma CubicSteps(c: Curve, x: int, s: int, t: int, u: int, v: int)
    requires c.Eq(s, x * x) && c.Eq(t, s - 3) && c.Eq(u, t * x) && c.Eq(v, u + c.coefB)
    ensures c.Eq(v, Cubic(c, x))
  {
    c.EqSub(s, x * x, 3, 3);
    c.EqMul(t, x * x - 3, x, x);
    assert (x * x - 3) * x == x * x * x - 3 * x;
    c.EqAdd(u, x * x * x - 3 * x, c.coefB, c.coefB);
  }

  /** The constant _3. */
  method Three() returns (three: Ptr)
    ensures three.Ok() && fresh(three.buf) && three.V() == 3
  {
    three := NewVli();
    SetOne(three);
    Val4(three.Digits());
    three.buf[three.off] := 3;
    Val4(three.Digits());
  }

  method CubicOf(y: Ptr, x: Ptr, b: Ptr, p: Ptr, ghost c: Curve)
    requires IsField(c, p) && y.Ok() && x.Ok() && Elem(b, c) && b.V() == c.coefB
    requires y.buf !in {x.buf, b.buf, p.buf}
    modifies y.buf
    ensures Elem(y, c) && c.Eq(y.V(), Cubic(c, x.V()))
  {
    P256Shape(c.modulus);
    var three := Three();
    FSquare(y, x, p, c);
    ghost var s: int := y.V();
    FSub(y, y, three, p, c);
    ghost var t: int := y.V();
    FMul(y, y, x, p, c);
    ghost var u: int := y.V();
    FAdd(y, y, b, p, c);
    CubicSteps(c, x.V(), s, t, u, y.V());
  }

  /**
    Decompression: over a prime field the result is a point of the curve exactly when the curve has a point
    with that abscissa. The ordinate always has the parity of the first octet; a zero root asked to be odd
    becomes the prime itself, which is why y may equal the modulus.
   */
  method EccPointDecompress(x: Ptr, y: Ptr, compressed: array<u8>, b: Ptr, p: Ptr, ghost c: Curve)
    requires compressed.Length == 33 && IsField(c, p) && x.Ok() && y.Ok() && Elem(b, c) && b.V() == c.coefB
    requires y.buf !in {x.buf, b.buf, p.buf} && x.buf !in {b.buf, p.buf}
    modifies x.buf, y.buf
    ensures x.V() == BigEndian(compressed[1..33])
    ensures c.PrimeField() ==> (c.OnCurveXY(x.V(), y.V()) <==> exists s :: c.OnCurveXY(x.V(), s))
    ensures y.V() <= c.modulus && y.V() % 2 == compressed[0] % 2
  {
    Bytes2Native(x, compressed, 1);
    CubicOf(y, x, b, p, c);
    ghost var a: int := y.V();
    ModSqrt(y, p, c);
    ghost var r: int := y.V();
    FixParity(y, compressed[0] % 2, p, c);
    if y.V() != r {
      MirrorRoot(c, r, y.V());
    }
    if c.PrimeField() {
      RootMeaning(c, x.V(), a, r);
      SameSquare(c, x.V(), r, y.V());
    }
  }

  /** Whether an ordinate lies on the curve depends on its square only. */
  lemma SameSquare(c: Curve, x: int, r: int, y: int)
    requires c.Eq(y * y, r * r) && (c.OnCurveXY(x, r) <==> IsSquare(c, Cubic(c, x)))
    ensures c.OnCurveXY(x, y) <==> exists s :: c.OnCurveXY(x, s)
  {
    if s :| c.OnCurveXY(x, s) {
      assert RootOf(c, s, Cubic(c, x));
    }
  }

  lemma RootMeaning(c: Curve, x: int, a: int, r: int)
    requires c.PrimeField() && IsP256(c.modulus) && c.Eq(a, Cubic(c, x)) && c.Eq(r, Exp(a, (c.modulus + 1) / 4))
    ensures c.OnCurveXY(x, r) <==> IsSquare(c, Cubic(c, x))
  {
    P256Shape(c.modulus);
    ExpEq(c, a, Cubic(c, x), (c.modulus + 1) / 4);
    SqrtExactly(c, Cubic(c, x), r);
  }

  lemma MirrorRoot(c: Curve, r: int, y: int)
    requires c.modulus > 0 && y == c.modulus - r
    ensures c.Eq(y * y, r * r)
  {
    CongIntro(y, -r, 1, c.modulus);
    c.EqMul(y, -r, y, -r);
    assert (-r) * (-r) == r * r;
  }

  lemma ParityFlip(y: int, m: int)
    requires m % 2 == 1
    ensures (m - y) % 2 == 1 - y % 2
  {
  }

  method LowBit(y: Ptr) returns (b: u64)
    requires y.Ok()
    ensures b == y.V() % 2
  {
    LowBitOfValue(y.Digits());
    assert y.Digits()[0] == y.buf[y.off];
    b := KeepBit(y.buf[y.off]);
  }

  /** Replaces y by p - y if its lowest bit is not the wanted one. */
  method FixParity(y: Ptr, parity: nat, p: Ptr, ghost c: Curve)
    requires IsField(c, p) && Elem(y, c) && y.buf != p.buf && parity < 2
    modifies y.buf
    ensures y.V() == (if old(y.V()) % 2 == parity then old(y.V()) else c.modulus - old(y.V()))
    ensures y.V() % 2 == parity
  {
    P256Shape(c.modulus);
    ParityFlip(y.V(), c.modulus);
    var low := LowBit(y);
    if low != parity {
      var _ := Sub(y, p, y);
    }
  }
}
