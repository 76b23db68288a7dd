/**
  Fast reduction of a 512-bit product modulo the P-256 prime
  (section D.2.3 of FIPS 186-4): nine shuffles of the 32-bit words c0 .. c15 of the
  product are added and subtracted in place, and the remaining small multiple of the
  prime is removed by repeated addition or subtraction.
 */
module VliReduce {
  import opened Words
  import opened Vli

  /** 2^256 - 2^224 + 2^192 + 2^96 - 1 */
  const P: int := 0xFFFFFFFF_00000001_00000000_00000000_00000000_FFFFFFFF_FFFFFFFF_FFFFFFFF

  /** A name to ask for the numeral with: `assert Shown(0)`. */
  ghost predicate Shown(n: nat) {
    true
  }

  /**
    v is the P-256 prime. The quantifier keeps the 256-bit numeral out of every proof that
    does not ask for it; those proofs treat the modulus as a symbol.
   */
  ghost predicate IsP256(v: int) {
    forall n: nat {:trigger Shown(n)} :: Shown(n) ==> v == P
  }

  lemma P256Shape(v: int)
    requires IsP256(v)
    ensures TWO256 / 2 < v < TWO256 - 1 && v % 4 == 3 && v % 2 == 1
  {
    assert Shown(0);
  }

  const B32: int := 0x1_0000_0000

  function Lo(x: u64): (r: u64)
    ensures r < B32
  {
    x % B32
  }

  function Hi(x: u64): (r: u64)
    ensures r < B32 && x == Lo(x) + B32 * r
  {
    x / B32
  }

  // ---------- Word shuffles on digits ----------

  /** x & 0xffffffff00000000 */
  method KeepHi(x: u64) returns (r: u64)
    ensures r == B32 * Hi(x)
  {
    MaskHigh32(x);
    r := And(x, 0xffff_ffff_0000_0000);
  }

  /** x & 0xffffffff */
  method KeepLo(x: u64) returns (r: u64)
    ensures r == Lo(x)
  {
    MaskLow32(x);
    r := And(x, 0xffff_ffff);
  }

  /** x << 32 */
  method Up(x: u64) returns (r: u64)
    ensures r == B32 * Lo(x)
  {
    Pow2Literals();
    DivModUnique(x * B32, BASE, Hi(x), B32 * Lo(x));
    r := Shl(x, 32);
  }

  /** x >> 32 */
  method Down(x: u64) returns (r: u64)
    ensures r == Hi(x)
  {
    Pow2Literals();
    r := Shr(x, 32);
  }

  /** x | y, with x in the low and y in the high half */
  method Join(x: u64, y: u64) returns (r: u64)
    requires x < B32 && y % B32 == 0
    ensures r == x + y
  {
    Pow2Literals();
    OrDisjoint(y, x, 32);
    OrCommutes(x, y);
    assert y == B32 * Hi(y) && Hi(y) <= B32 - 1;
    r := Or(x, y);
  }

  // ---------- The nine terms ----------

  ghost function Word4(d0: int, d1: int, d2: int, d3: int): int {
    d0 + BASE * d1 + BASE2 * d2 + BASE3 * d3
  }

  /** (c15, c14, c13, c12, c11, 0, 0, 0) */
  ghost function S1(p: seq<u64>): (v: int)
    requires |p| == 8
    ensures 0 <= v < TWO256
  {
    var d0, d1, d2, d3 := 0, B32 * Hi(p[5]), p[6], p[7];
    Word4(d0, d1, d2, d3)
  }

  /** (0, c15, c14, c13, c12, 0, 0, 0) */
  ghost function S2(p: seq<u64>): (v: int)
    requires |p| == 8
    ensures 0 <= v < TWO256
  {
    var d0, d1, d2, d3 := 0, B32 * Lo(p[6]), Hi(p[6]) + B32 * Lo(p[7]), Hi(p[7]);
    Word4(d0, d1, d2, d3)
  }

  /** (c15, c14, 0, 0, 0, c10, c9, c8) */
  ghost function S3(p: seq<u64>): (v: int)
    requires |p| == 8
    ensures 0 <= v < TWO256
  {
    var d0, d1, d2, d3 := p[4], Lo(p[5]), 0, p[7];
    Word4(d0, d1, d2, d3)
  }

  /** (c8, c13, c15, c14, c13, c11, c10, c9) */
  ghost function S4(p: seq<u64>): (v: int)
    requires |p| == 8
    ensures 0 <= v < TWO256
  {
    var d0, d1, d2, d3 := Hi(p[4]) + B32 * Lo(p[5]), Hi(p[5]) + B32 * Hi(p[6]), p[7], Hi(p[6]) + B32 * Lo(p[4]);
    Word4(d0, d1, d2, d3)
  }

  /** (c10, c8, 0, 0, 0, c13, c12, c11) */
  ghost function D1(p: seq<u64>): (v: int)
    requires |p| == 8
    ensures 0 <= v < TWO256
  {
    var d0, d1, d2, d3 := Hi(p[5]) + B32 * Lo(p[6]), Hi(p[6]), 0, Lo(p[4]) + B32 * Lo(p[5]);
    Word4(d0, d1, d2, d3)
  }

  /** (c11, c9, 0, 0, c15, c14, c13, c12) */
  ghost function D2(p: seq<u64>): (v: int)
    requires |p| == 8
    ensures 0 <= v < TWO256
  {
    var d0, d1, d2, d3 := p[6], p[7], 0, Hi(p[4]) + B32 * Hi(p[5]);
    Word4(d0, d1, d2, d3)
  }

  /** (c12, 0, c10, c9, c8, c15, c14, c13) */
  ghost function D3(p: seq<u64>): (v: int)
    requires |p| == 8
    ensures 0 <= v < TWO256
  {
    var d0, d1, d2, d3 := Hi(p[6]) + B32 * Lo(p[7]), Hi(p[7]) + B32 * Lo(p[4]), Hi(p[4]) + B32 * Lo(p[5]), B32 * Lo(p[6]);
    Word4(d0, d1, d2, d3)
  }

  /** (c13, 0, c11, c10, c9, 0, c15, c14) */
  ghost function D4(p: seq<u64>): (v: int)
    requires |p| == 8
    ensures 0 <= v < TWO256
  {
    var d0, d1, d2, d3 := p[7], B32 * Hi(p[4]), p[5], B32 * Hi(p[6]);
    Word4(d0, d1, d2, d3)
  }

  lemma Val8(p: seq<u64>)
    requires |p| == 8
    ensures Val(p) == Val(p[..4]) + TWO256 * Word4(p[4], p[5], p[6], p[7])
  {
    PrefixStep(p, 4);
    PrefixStep(p, 5);
    PrefixStep(p, 6);
    PrefixStep(p, 7);
    assert p[..8] == p;
    AtLiterals(p[4]);
    AtLiterals(p[5]);
    AtLiterals(p[6]);
    AtLiterals(p[7]);
    assert At(p[5], 5) == BASE * At(p[5], 4);
    assert At(p[6], 6) == BASE * At(p[6], 5) && At(p[6], 5) == BASE * At(p[6], 4);
    assert At(p[7], 7) == BASE * At(p[7], 6) && At(p[7], 6) == BASE * At(p[7], 5) && At(p[7], 5) == BASE * At(p[7], 4);
  }

  // Higher powers of 2^32, the weights of the 32-bit words.
  const W2: int := 0x1_00000000_00000000
  const W3: int := 0x1_00000000_00000000_00000000
  const W4: int := 0x1_00000000_00000000_00000000_00000000
  const W5: int := 0x1_00000000_00000000_00000000_00000000_00000000
  const W6: int := 0x1_00000000_00000000_00000000_00000000_00000000_00000000
  const W7: int := 0x1_00000000_00000000_00000000_00000000_00000000_00000000_00000000
  const W8: int := 0x1_00000000_00000000_00000000_00000000_00000000_00000000_00000000_00000000
  const W9: int := 0x1_00000000_00000000_00000000_00000000_00000000_00000000_00000000_00000000_00000000
  const W10: int := 0x1_00000000_00000000_00000000_00000000_00000000_00000000_00000000_00000000_00000000_00000000
  const W11: int := 0x1_00000000_00000000_00000000_00000000_00000000_00000000_00000000_00000000_00000000_00000000_00000000
  const W12: int := 0x1_00000000_00000000_00000000_00000000_00000000_00000000_00000000_00000000_00000000_00000000_00000000_00000000
  const W13: int := 0x1_00000000_00000000_00000000_00000000_00000000_00000000_00000000_00000000_00000000_00000000_00000000_00000000_00000000
  const W14: int := 0x1_00000000_00000000_00000000_00000000_00000000_00000000_00000000_00000000_00000000_00000000_00000000_00000000_00000000_00000000
  const W15: int := 0x1_00000000_00000000_00000000_00000000_00000000_00000000_00000000_00000000_00000000_00000000_00000000_00000000_00000000_00000000_00000000

  ghost function S1Words(c8: int, c9: int, c10: int, c11: int, c12: int, c13: int, c14: int, c15: int): int {
    W3 * c11 + W4 * c12 + W5 * c13 + W6 * c14 + W7 * c15
  }

  ghost function S2Words(c8: int, c9: int, c10: int, c11: int, c12: int, c13: int, c14: int, c15: int): int {
    W3 * c12 + W4 * c13 + W5 * c14 + W6 * c15
  }

  ghost function S3Words(c8: int, c9: int, c10: int, c11: int, c12: int, c13: int, c14: int, c15: int): int {
    c8 + B32 * c9 + W2 * c10 + W6 * c14 + W7 * c15
  }

  ghost function S4Words(c8: int, c9: int, c10: int, c11: int, c12: int, c13: int, c14: int, c15: int): int {
    c9 + B32 * c10 + W2 * c11 + W3 * c13 + W4 * c14 + W5 * c15 + W6 * c13 + W7 * c8
  }

  ghost function D1Words(c8: int, c9: int, c10: int, c11: int, c12: int, c13: int, c14: int, c15: int): int {
    c11 + B32 * c12 + W2 * c13 + W6 * c8 + W7 * c10
  }

  ghost function D2Words(c8: int, c9: int, c10: int, c11: int, c12: int, c13: int, c14: int, c15: int): int {
    c12 + B32 * c13 + W2 * c14 + W3 * c15 + W6 * c9 + W7 * c11
  }

  ghost function D3Words(c8: int, c9: int, c10: int, c11: int, c12: int, c13: int, c14: int, c15: int): int {
    c13 + B32 * c14 + W2 * c15 + W3 * c8 + W4 * c9 + W5 * c10 + W7 * c12
  }

  ghost function D4Words(c8: int, c9: int, c10: int, c11: int, c12: int, c13: int, c14: int, c15: int): int {
    c14 + B32 * c15 + W3 * c9 + W4 * c10 + W5 * c11 + W7 * c13
  }

  /** The multiple of P between the product and the combination of the nine terms. */
  ghost function Quotient(c8: int, c9: int, c10: int, c11: int, c12: int, c13: int, c14: int, c15: int): int {
    c8 + (B32 + 1) * c9 + (W2 + B32) * c10 + (W3 + W2 - 1) * c11 + (W4 + W3 - B32 - 1) * c12
      + (W5 + W4 - W2 - B32 - 1) * c13 + (W6 + W5 - W3 - W2 - B32 - 1) * c14 + (W7 + W6 - W4 - W3 - W2 - B32) * c15
  }

  lemma ShuffleWords(c8: int, c9: int, c10: int, c11: int, c12: int, c13: int, c14: int, c15: int)
    ensures W8 * c8 + W9 * c9 + W10 * c10 + W11 * c11 + W12 * c12 + W13 * c13 + W14 * c14 + W15 * c15
         == 2 * S1Words(c8, c9, c10, c11, c12, c13, c14, c15) + 2 * S2Words(c8, c9, c10, c11, c12, c13, c14, c15)
           + S3Words(c8, c9, c10, c11, c12, c13, c14, c15) + S4Words(c8, c9, c10, c11, c12, c13, c14, c15)
           - D1Words(c8, c9, c10, c11, c12, c13, c14, c15) - D2Words(c8, c9, c10, c11, c12, c13, c14, c15)
           - D3Words(c8, c9, c10, c11, c12, c13, c14, c15) - D4Words(c8, c9, c10, c11, c12, c13, c14, c15)
            + P * Quotient(c8, c9, c10, c11, c12, c13, c14, c15)
  {
  }

  lemma TermsAsWords(p: seq<u64>)
    requires |p| == 8
    ensures S1(p) == S1Words(Lo(p[4]), Hi(p[4]), Lo(p[5]), Hi(p[5]), Lo(p[6]), Hi(p[6]), Lo(p[7]), Hi(p[7]))
    ensures S2(p) == S2Words(Lo(p[4]), Hi(p[4]), Lo(p[5]), Hi(p[5]), Lo(p[6]), Hi(p[6]), Lo(p[7]), Hi(p[7]))
    ensures S3(p) == S3Words(Lo(p[4]), Hi(p[4]), Lo(p[5]), Hi(p[5]), Lo(p[6]), Hi(p[6]), Lo(p[7]), Hi(p[7]))
    ensures S4(p) == S4Words(Lo(p[4]), Hi(p[4]), Lo(p[5]), Hi(p[5]), Lo(p[6]), Hi(p[6]), Lo(p[7]), Hi(p[7]))
    ensures D1(p) == D1Words(Lo(p[4]), Hi(p[4]), Lo(p[5]), Hi(p[5]), Lo(p[6]), Hi(p[6]), Lo(p[7]), Hi(p[7]))
    ensures D2(p) == D2Words(Lo(p[4]), Hi(p[4]), Lo(p[5]), Hi(p[5]), Lo(p[6]), Hi(p[6]), Lo(p[7]), Hi(p[7]))
    ensures D3(p) == D3Words(Lo(p[4]), Hi(p[4]), Lo(p[5]), Hi(p[5]), Lo(p[6]), Hi(p[6]), Lo(p[7]), Hi(p[7]))
    ensures D4(p) == D4Words(Lo(p[4]), Hi(p[4]), Lo(p[5]), Hi(p[5]), Lo(p[6]), Hi(p[6]), Lo(p[7]), Hi(p[7]))
  {
  }

  /** The nine terms are congruent to the product modulo P. */
  lemma ShuffleIdentity(p: seq<u64>)
    requires |p| == 8
    ensures Val(p) == Val(p[..4]) + 2 * S1(p) + 2 * S2(p) + S3(p) + S4(p) - D1(p) - D2(p) - D3(p) - D4(p)
                      + P * Quotient(Lo(p[4]), Hi(p[4]), Lo(p[5]), Hi(p[5]), Lo(p[6]), Hi(p[6]), Lo(p[7]), Hi(p[7]))
  {
    Val8(p);
    TermsAsWords(p);
    ShuffleWords(Lo(p[4]), Hi(p[4]), Lo(p[5]), Hi(p[5]), Lo(p[6]), Hi(p[6]), Lo(p[7]), Hi(p[7]));
    HighWords(p[4], p[5], p[6], p[7]);
  }

  lemma HighWords(p4: u64, p5: u64, p6: u64, p7: u64)
    ensures TWO256 * Word4(p4, p5, p6, p7) ==
      W8 * Lo(p4) + W9 * Hi(p4) + W10 * Lo(p5) + W11 * Hi(p5) + W12 * Lo(p6) + W13 * Hi(p6) + W14 * Lo(p7)
        + W15 * Hi(p7)
  {
  }

  // ---------- Loading the terms into the temporary digits ----------

  method LoadS1(tmp: array<u64>, product: array<u64>)
    requires tmp.Length == 4 && product.Length == 8 && tmp != product
    modifies tmp
    ensures Val(tmp[..]) == S1(product[..]) && tmp[0] == 0
  {
    tmp[0] := 0;
    var t := KeepHi(product[5]);
    tmp[1] := t;
    tmp[2] := product[6];
    tmp[3] := product[7];
    Val4(tmp[..]);
  }

  method LoadS2(tmp: array<u64>, product: array<u64>)
    requires tmp.Length == 4 && product.Length == 8 && tmp != product
    requires tmp[0] == 0  // left by the doubled S1
    modifies tmp
    ensures Val(tmp[..]) == S2(product[..])
  {
    var t := Up(product[6]);
    tmp[1] := t;
    var a := Down(product[6]);
    var b := Up(product[7]);
    t := Join(a, b);
    tmp[2] := t;
    t := Down(product[7]);
    tmp[3] := t;
    Val4(tmp[..]);
  }

  method LoadS3(tmp: array<u64>, product: array<u64>)
    requires tmp.Length == 4 && product.Length == 8 && tmp != product
    modifies tmp
    ensures Val(tmp[..]) == S3(product[..])
  {
    tmp[0] := product[4];
    var t := KeepLo(product[5]);
    tmp[1] := t;
    tmp[2] := 0;
    tmp[3] := product[7];
    Val4(tmp[..]);
  }

  method LoadS4(tmp: array<u64>, product: array<u64>)
    requires tmp.Length == 4 && product.Length == 8 && tmp != product
    modifies tmp
    ensures Val(tmp[..]) == S4(product[..])
  {
    var a := Down(product[4]);
    var b := Up(product[5]);
    var t := Join(a, b);
    tmp[0] := t;
    a := Down(product[5]);
    b := KeepHi(product[6]);
    t := Join(a, b);
    tmp[1] := t;
    tmp[2] := product[7];
    a := Down(product[6]);
    b := Up(product[4]);
    t := Join(a, b);
    tmp[3] := t;
    Val4(tmp[..]);
  }

  method LoadD1(tmp: array<u64>, product: array<u64>)
    requires tmp.Length == 4 && product.Length == 8 && tmp != product
    modifies tmp
    ensures Val(tmp[..]) == D1(product[..])
  {
    var a := Down(product[5]);
    var b := Up(product[6]);
    var t := Join(a, b);
    tmp[0] := t;
    t := Down(product[6]);
    tmp[1] := t;
    tmp[2] := 0;
    a := KeepLo(product[4]);
    b := Up(product[5]);
    t := Join(a, b);
    tmp[3] := t;
    Val4(tmp[..]);
  }

  method LoadD2(tmp: array<u64>, product: array<u64>)
    requires tmp.Length == 4 && product.Length == 8 && tmp != product
    modifies tmp
    ensures Val(tmp[..]) == D2(product[..])
  {
    tmp[0] := product[6];
    tmp[1] := product[7];
    tmp[2] := 0;
    var a := Down(product[4]);
    var b := KeepHi(product[5]);
    var t := Join(a, b);
    tmp[3] := t;
    Val4(tmp[..]);
  }

  method LoadD3(tmp: array<u64>, product: array<u64>)
    requires tmp.Length == 4 && product.Length == 8 && tmp != product
    modifies tmp
    ensures Val(tmp[..]) == D3(product[..])
  {
    var a := Down(product[6]);
    var b := Up(product[7]);
    var t := Join(a, b);
    tmp[0] := t;
    a := Down(product[7]);
    b := Up(product[4]);
    t := Join(a, b);
    tmp[1] := t;
    a := Down(product[4]);
    b := Up(product[5]);
    t := Join(a, b);
    tmp[2] := t;
    t := Up(product[6]);
    tmp[3] := t;
    Val4(tmp[..]);
  }

  method LoadD4(tmp: array<u64>, product: array<u64>)
    requires tmp.Length == 4 && product.Length == 8 && tmp != product
    modifies tmp
    ensures Val(tmp[..]) == D4(product[..])
  {
    tmp[0] := product[7];
    var t := KeepHi(product[4]);
    tmp[1] := t;
    tmp[2] := product[5];
    t := KeepHi(product[6]);
    tmp[3] := t;
    Val4(tmp[..]);
  }

  // ---------- Adding the terms ----------

  /** The number held by the digits and the signed carry together. */
  ghost function Total(r: Ptr, carry: int): int
    requires r.Ok()
    reads r.buf
  {
    r.V() + carry * TWO256
  }

  /** r += tmp, the carry counted in carry. */
  method Plus(r: Ptr, tmp: array<u64>, carry: int) returns (carry': int)
    requires r.Ok() && tmp.Length == 4 && r.buf != tmp
    modifies r.buf
    ensures Total(r, carry') == old(Total(r, carry)) + Val(tmp[..]) && OnlyWindow(r)
  {
    assert tmp[0..4] == tmp[..];
    var c := Add(r, r, Ptr(tmp, 0));
    carry' := carry + c;
  }

  method Minus(r: Ptr, tmp: array<u64>, carry: int) returns (carry': int)
    requires r.Ok() && tmp.Length == 4 && r.buf != tmp
    modifies r.buf
    ensures Total(r, carry') == old(Total(r, carry)) - Val(tmp[..]) && OnlyWindow(r)
  {
    assert tmp[0..4] == tmp[..];
    var b := Sub(r, r, Ptr(tmp, 0));
    carry' := carry - b;
  }

  /** tmp *= 2, the bit shifted out counted in carry; then r += tmp. */
  method PlusDouble(r: Ptr, tmp: array<u64>, carry: int) returns (carry': int)
    requires r.Ok() && tmp.Length == 4 && r.buf != tmp
    modifies r.buf, tmp
    ensures Total(r, carry') == old(Total(r, carry)) + 2 * old(Val(tmp[..])) && OnlyWindow(r)
    ensures tmp[0] == (2 * old(tmp[0])) % BASE
  {
    assert tmp[0..4] == tmp[..];
    Pow2Literals();
    var t := Ptr(tmp, 0);
    ghost var X := t.Digits();
    var c := LShift(t, t, 1);
    DoubledLowDigit(X, t.Digits(), c);
    carry' := carry + c;
    assert tmp[0..4] == tmp[..];
    carry' := Plus(r, tmp, carry');
  }

  lemma DoubledLowDigit(x: seq<u64>, d: seq<u64>, c: int)
    requires |x| == |d| == 4 && Val(d) + c * TWO256 == Val(x) * 2
    ensures d[0] == (2 * x[0]) % BASE
  {
    Val4(x);
    Val4(d);
    var x0: int, x1: int, x2: int, x3: int := x[0], x[1], x[2], x[3];
    var q := 2 * x1 + BASE * (2 * x2) + BASE2 * (2 * x3) - d[1] - BASE * d[2] - BASE2 * d[3] - c * BASE3;
    DivModUnique(2 * x0, BASE, -q, d[0]);
  }

  /** The four added terms. */
  method AddTerms(r: Ptr, tmp: array<u64>, product: array<u64>) returns (carry: int)
    requires r.Ok() && tmp.Length == 4 && product.Length == 8
    requires r.buf != tmp && r.buf != product && tmp != product
    modifies r.buf, tmp
    ensures Total(r, carry) ==
      old(r.V() + 2 * S1(product[..]) + 2 * S2(product[..]) + S3(product[..]) + S4(product[..]))
    ensures OnlyWindow(r)
  {
    LoadS1(tmp, product);
    carry := PlusDouble(r, tmp, 0);
    LoadS2(tmp, product);
    carry := PlusDouble(r, tmp, carry);
    LoadS3(tmp, product);
    carry := Plus(r, tmp, carry);
    LoadS4(tmp, product);
    carry := Plus(r, tmp, carry);
  }

  /** The four subtracted terms. */
  method SubTerms(r: Ptr, tmp: array<u64>, product: array<u64>, carry: int) returns (carry': int)
    requires r.Ok() && tmp.Length == 4 && product.Length == 8
    requires r.buf != tmp && r.buf != product && tmp != product
    modifies r.buf, tmp
    ensures Total(r, carry') ==
      old(Total(r, carry) - D1(product[..]) - D2(product[..]) - D3(product[..]) - D4(product[..]))
    ensures OnlyWindow(r)
  {
    LoadD1(tmp, product);
    carry' := Minus(r, tmp, carry);
    LoadD2(tmp, product);
    carry' := Minus(r, tmp, carry');
    carry' := SubLastTerms(r, tmp, product, carry');
  }

  method SubLastTerms(r: Ptr, tmp: array<u64>, product: array<u64>, carry: int) returns (carry': int)
    requires r.Ok() && tmp.Length == 4 && product.Length == 8
    requires r.buf != tmp && r.buf != product && tmp != product
    modifies r.buf, tmp
    ensures Total(r, carry') == old(Total(r, carry) - D3(product[..]) - D4(product[..]))
    ensures OnlyWindow(r)
  {
    LoadD3(tmp, product);
    carry' := Minus(r, tmp, carry);
    LoadD4(tmp, product);
    carry' := Minus(r, tmp, carry');
  }

  /** Removes the remaining multiple of P; ends with no carry and a value below P. */
  method Correct(r: Ptr, carry: int, p: Ptr)
    requires r.Ok() && p.Ok() && r.buf != p.buf && p.V() == P
    modifies r.buf
    ensures r.V() == old(Total(r, carry)) % P && OnlyWindow(r)
  {
    ghost var t := Total(r, carry);
    ghost var k := 0;
    var c := carry;
    if c < 0 {
      while c < 0
        invariant Total(r, c) == t + P * k && OnlyWindow(r)
        invariant c >= 0 ==> Total(r, c) < P
        decreases -Total(r, c)
      {
        var a := Add(r, r, p);
        c := c + a;
        k := k + 1;
      }
    } else {
      var order := Cmp(p, r);
      while c != 0 || order != 1
        invariant c >= 0 && Total(r, c) == t + P * k && OnlyWindow(r)
        invariant order == 1 <==> r.V() < P
        decreases Total(r, c)
      {
        var b := Sub(r, r, p);
        c := c - b;
        k := k - 1;
        order := Cmp(p, r);
      }
    }
    DivModUnique(t, P, -k, r.V());
  }

  /** result := product mod P, exactly, for every 512-bit product. */
  method MmodFast(result: Ptr, product: array<u64>, p: Ptr)
    requires result.Ok() && product.Length == 8 && p.Ok() && IsP256(p.V())
    requires result.buf != product && result.buf != p.buf
    modifies result.buf
    ensures p.V() > 0 && result.V() == Val(product[..]) % p.V() && OnlyWindow(result)
  {
    assert Shown(0);
    var carry := Shuffle(result, product);
    Correct(result, carry, p);
  }

  /** The combination of the nine terms, congruent to the product. */
  method Shuffle(result: Ptr, product: array<u64>) returns (carry: int)
    requires result.Ok() && product.Length == 8 && result.buf != product
    modifies result.buf
    ensures Total(result, carry) % P == Val(product[..]) % P && OnlyWindow(result)
  {
    var tmp := new u64[4];
    assert product[0..4] == product[..][..4];
    Set(result, Ptr(product, 0));
    carry := AddTerms(result, tmp, product);
    carry := SubTerms(result, tmp, product, carry);
    TermsResidue(product[..], Total(result, carry));
  }

  lemma TermsResidue(s: seq<u64>, total: int)
    requires |s| == 8
    requires total == Val(s[..4]) + 2 * S1(s) + 2 * S2(s) + S3(s) + S4(s) - D1(s) - D2(s) - D3(s) - D4(s)
    ensures total % P == Val(s) % P
  {
    ShuffleIdentity(s);
    SameResidue(Val(s), total, QuotientOf(s));
  }

  ghost function QuotientOf(p: seq<u64>): int
    requires |p| == 8
  {
    Quotient(Lo(p[4]), Hi(p[4]), Lo(p[5]), Hi(p[5]), Lo(p[6]), Hi(p[6]), Lo(p[7]), Hi(p[7]))
  }

  lemma SameResidue(a: int, b: int, k: int)
    requires a == b + P * k
    ensures a % P == b % P
  {
    var q, r := b / P, b % P;
    assert b == P * q + r;
    DivModUnique(a, P, q + k, r);
  }
}
