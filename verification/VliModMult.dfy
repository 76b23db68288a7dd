/**
  (left * right) mod m for an arbitrary modulus m, by shifting m up to the size of the
  double-width product and subtracting it back out bit by bit.
 */
module VliModMult {
  import opened Words
  import opened Vli
  import opened VliMult
  import opened VliMod
  import opened Congruence

  // ---------- Double-width numbers ----------

  /** The 512-bit number in the two halves of an eight-digit buffer. */
  ghost function Wide(a: array<u64>): (v: nat)
    requires a.Length == 8
    reads a
  {
    Ptr(a, 0).V() + TWO256 * Ptr(a, 4).V()
  }

  lemma {:induction false} ValConcat(a: seq<u64>, b: seq<u64>)
    ensures Val(a + b) == Val(a) + At(Val(b), |a|)
  {
    if b == [] {
      assert a + b == a;
      AtZero(|a|);
    } else {
      var n := |b| - 1;
      ValConcat(a, b[..n]);
      assert a + b == (a + b[..n]) + [b[n]];
      ValSnoc(a + b[..n], b[n]);
      AtSum(Val(b[..n]), At(b[n], n), |a|);
      AtAt(b[n], n, |a|);
    }
  }

  lemma AtZero(n: nat)
    ensures At(0, n) == 0
  {
  }

  lemma {:induction false} AtAt(d: int, m: nat, n: nat)
    ensures At(At(d, m), n) == At(d, n + m)
  {
    if n > 0 {
      AtAt(d, m, n - 1);
    }
  }

  lemma {:induction false} AtPow2(d: int, n: nat)
    ensures At(d, n) == d * Pow2(64 * n)
  {
    if n > 0 {
      AtPow2(d, n - 1);
      Pow2Literals();
      assert 64 * n == 64 + 64 * (n - 1);
      Pow2Add(64, 64 * (n - 1));
      assert BASE * (d * Pow2(64 * (n - 1))) == d * (BASE * Pow2(64 * (n - 1)));
    }
  }

  lemma {:induction false} ValZeros(s: seq<u64>)
    requires forall i :: 0 <= i < |s| ==> s[i] == 0
    ensures Val(s) == 0
  {
    if s != [] {
      ValZeros(s[..|s| - 1]);
      AtZero(|s| - 1);
    }
  }

  lemma WideVal(a: array<u64>)
    requires a.Length == 8
    ensures Wide(a) == Val(a[..])
  {
    assert a[..] == a[0..4] + a[4..8];
    ValConcat(a[0..4], a[4..8]);
    AtLiterals(Val(a[4..8]));
  }

  // ---------- Bit lengths ----------

  /** The number of bits of v, 0 for 0. */
  ghost function BitLen(v: nat): (n: nat)
    ensures IsBitLength(v, n)
  {
    BitLenBounds(v);
    if v == 0 then 0 else 1 + BitLen(v / 2)
  }

  lemma {:induction false} BitLenBounds(v: nat)
    ensures v == 0 || (forall n: nat :: IsBitLength(v / 2, n) ==> IsBitLength(v, n + 1))
  {
    forall n: nat | v > 0 && IsBitLength(v / 2, n)
      ensures IsBitLength(v, n + 1)
    {
      if n == 0 {
        assert v < 2;
      }
    }
  }

  lemma BitLenUnique(v: nat, n: nat)
    requires IsBitLength(v, n)
    ensures n == BitLen(v)
  {
    var k := BitLen(v);
    if n < k {
      Pow2Monotone(n, k - 1);
    } else if k < n {
      Pow2Monotone(k, n - 1);
    }
  }

  lemma WideBitLength(lo: nat, hi: nat, n: nat)
    requires lo < TWO256 && IsBitLength(hi, n) && n > 0
    ensures IsBitLength(lo + TWO256 * hi, 256 + n)
  {
    Pow2Of256();
    Pow2Add(256, n);
    Pow2Add(256, n - 1);
  }

  /** The number of bits of a product in double width. */
  method WideNumBits(a: array<u64>) returns (n: nat)
    requires a.Length == 8
    ensures n == BitLen(Wide(a)) && n <= 512
  {
    var high := NumBits(Ptr(a, 4));
    if high != 0 {
      n := high + DIGITS * 64;
      WideBitLength(Ptr(a, 0).V(), Ptr(a, 4).V(), high);
    } else {
      n := NumBits(Ptr(a, 0));
    }
    BitLenUnique(Wide(a), n);
  }

  // ---------- The shifted modulus ----------

  /** The index of the highest digit that the shifted modulus is written to. */
  function TopDigit(shift: nat): nat {
    shift / 64 + (if shift % 64 == 0 then DIGITS - 1 else DIGITS)
  }

  /** The index lies in the buffer of eight digits exactly for shifts of at most 256 bits. */
  lemma ShiftFits(shift: nat)
    ensures TopDigit(shift) < 8 <==> shift <= 256
  {
  }

  /** m << shift, stored in double width. */
  method ShiftedModulus(mod: Ptr, shift: nat) returns (mm: array<u64>)
    requires mod.Ok() && TopDigit(shift) < 8
    ensures fresh(mm) && mm.Length == 8 && Wide(mm) == mod.V() * Pow2(shift)
  {
    mm := NewWide();
    var digitShift, bitShift := shift / 64, shift % 64;
    ShiftInTwo(mod.V(), bitShift, digitShift);
    if bitShift != 0 {
      PutShifted(mm, mod, digitShift, bitShift, TopDigit(shift));
    } else {
      PutDigits(mm, mod, TopDigit(shift) - (DIGITS - 1));
    }
    WideVal(mm);
  }

  method PutShifted(mm: array<u64>, mod: Ptr, digitShift: nat, bitShift: nat, top: nat)
    requires mm.Length == 8 && mod.Ok() && mod.buf != mm && top == digitShift + DIGITS < 8 && 0 < bitShift < 64
    requires forall i :: 0 <= i < 8 ==> mm[i] == 0
    modifies mm
    ensures Val(mm[..]) == At(mod.V() * Pow2(bitShift), digitShift)
  {
    var carry := LShift(Ptr(mm, digitShift), mod, bitShift);
    mm[top] := carry;
    ShiftedWithCarry(mm[..], digitShift, carry);
    assert mm[..][digitShift..digitShift + 4] == mm[digitShift..digitShift + 4];
  }

  method PutDigits(mm: array<u64>, mod: Ptr, digitShift: nat)
    requires mm.Length == 8 && mod.Ok() && mod.buf != mm && digitShift + DIGITS <= 8
    requires forall i :: 0 <= i < 8 ==> mm[i] == 0
    modifies mm
    ensures Val(mm[..]) == At(mod.V(), digitShift)
  {
    Set(Ptr(mm, digitShift), mod);
    ShiftedWindow(mm[..], digitShift);
    assert mm[..][digitShift..digitShift + 4] == mm[digitShift..digitShift + 4];
  }

  lemma ShiftInTwo(v: nat, bits: nat, digits: nat)
    ensures At(v * Pow2(bits), digits) == v * Pow2(64 * digits + bits)
    ensures bits == 0 ==> At(v, digits) == v * Pow2(64 * digits)
  {
    AtPow2(v, digits);
    AtPow2(v * Pow2(bits), digits);
    Pow2Add(64 * digits, bits);
    MulRegroup(v, Pow2(bits), Pow2(64 * digits));
  }

  lemma MulRegroup(v: int, a: int, b: int)
    ensures (v * a) * b == v * (b * a)
  {
  }

  method NewWide() returns (mm: array<u64>)
    ensures fresh(mm) && mm.Length == 8 && forall i :: 0 <= i < 8 ==> mm[i] == 0
  {
    mm := new u64[8];
    Clear(Ptr(mm, 0));
    ghost var low := mm[0..4];
    ZeroDigits(low);
    Clear(Ptr(mm, 4));
    assert mm[0..4] == low;
    ZeroDigits(mm[4..8]);
    forall i | 0 <= i < 8
      ensures mm[i] == 0
    {
      assert mm[i] == if i < 4 then mm[0..4][i] else mm[4..8][i - 4];
    }
  }

  lemma ZeroDigits(s: seq<u64>)
    requires |s| == DIGITS && Val(s) == 0
    ensures forall i :: 0 <= i < DIGITS ==> s[i] == 0
  {
    Val4(s);
  }

  /** Zeros, a window of four digits, zeros. */
  lemma ShiftedWindow(s: seq<u64>, k: nat)
    requires |s| == 8 && k <= 4
    requires forall i :: 0 <= i < 8 && !(k <= i < k + 4) ==> s[i] == 0
    ensures Val(s) == At(Val(s[k..k + 4]), k)
  {
    var a, w, b := s[..k], s[k..k + 4], s[k + 4..];
    assert s == a + (w + b);
    ValConcat(a, w + b);
    ValConcat(w, b);
    ValZeros(a);
    ValZeros(b);
    AtZero(4);
  }

  lemma ShiftedWithCarry(s: seq<u64>, k: nat, c: u64)
    requires |s| == 8 && k <= 3 && s[k + 4] == c
    requires forall i :: 0 <= i < 8 && !(k <= i < k + 5) ==> s[i] == 0
    ensures Val(s) == At(Val(s[k..k + 4]) + TWO256 * c, k)
  {
    var a, w, b := s[..k], s[k..k + 4], s[k + 5..];
    assert s == a + ((w + [c]) + b);
    ValConcat(a, (w + [c]) + b);
    ValConcat(w + [c], b);
    ValSnoc(w, c);
    AtLiterals(c);
    ValZeros(a);
    ValZeros(b);
    AtZero(5);
  }

  // ---------- The reduction loop ----------

  /** mm := mm >> 1 across both halves. */
  method WideHalve(mm: array<u64>)
    requires mm.Length == 8
    modifies mm
    ensures Wide(mm) == old(Wide(mm)) / 2
  {
    LowBitOfValue(mm[4..8]);
    assert mm[4..8][0] == mm[4];
    var low := KeepBit(mm[4]);
    ghost var l := mm[0..4];
    RShift1(Ptr(mm, 4));
    assert mm[0..4] == l;
    ghost var h := mm[4..8];
    RShift1(Ptr(mm, 0));
    if low != 0 {
      SetBit255(Ptr(mm, 0));
    }
    assert mm[4..8] == h;
  }

  /** product := product - mm, the borrow passed from the low to the high half; one holds 1. */
  method WideSub(product: array<u64>, mm: array<u64>, one: Ptr)
    requires product.Length == 8 && mm.Length == 8 && one.Ok() && one.V() == 1
    requires product != mm && product != one.buf && Wide(mm) <= Wide(product)
    modifies product
    ensures Wide(product) == old(Wide(product)) - Wide(mm)
  {
    ghost var lo, hi := Ptr(product, 0).V(), Ptr(product, 4).V();
    ghost var high := product[4..8];
    var borrow := Sub(Ptr(product, 0), Ptr(product, 0), Ptr(mm, 0));
    assert product[4..8] == high;
    ghost var low := product[0..4];
    ghost var hi1 := SubHigh(product, mm, one, borrow);
    assert product[0..4] == low;
    BorrowChain(lo, hi, Ptr(mm, 0).V(), Ptr(mm, 4).V(), Val(low), borrow, hi1, Ptr(product, 4).V());
  }

  /** Takes the borrow, if there is one, and then the high half of mm from the high half of product. */
  method SubHigh(product: array<u64>, mm: array<u64>, one: Ptr, borrow: u64) returns (ghost hi1: nat)
    requires product.Length == 8 && mm.Length == 8 && one.Ok() && one.V() == 1
    requires product != mm && product != one.buf && borrow <= 1
    modifies product
    ensures product[0..4] == old(product[0..4]) && hi1 < TWO256
    ensures hi1 + borrow == old(Ptr(product, 4).V()) || hi1 + borrow == old(Ptr(product, 4).V()) + TWO256
    ensures Ptr(product, 4).V() + Ptr(mm, 4).V() == hi1 || Ptr(product, 4).V() + Ptr(mm, 4).V() == hi1 + TWO256
  {
    if borrow != 0 {
      var _ := Sub(Ptr(product, 4), Ptr(product, 4), one);
    }
    hi1 := Ptr(product, 4).V();
    var _ := Sub(Ptr(product, 4), Ptr(product, 4), Ptr(mm, 4));
  }

  /** The two wrap-arounds of the high half cancel, since the whole difference is not negative. */
  lemma BorrowChain(lo: nat, hi: nat, ml: nat, mh: nat, lo': nat, b: nat, hi1: nat, hi2: nat)
    requires lo < TWO256 && hi < TWO256 && ml < TWO256 && mh < TWO256 && lo' < TWO256 && hi1 < TWO256 && hi2 < TWO256
    requires ml + TWO256 * mh <= lo + TWO256 * hi && b <= 1 && lo' + ml == lo + b * TWO256
    requires hi1 + b == hi || hi1 + b == hi + TWO256
    requires hi2 + mh == hi1 || hi2 + mh == hi1 + TWO256
    ensures lo' + TWO256 * hi2 == (lo + TWO256 * hi) - (ml + TWO256 * mh)
  {
  }

  /** mm <= product, comparing the high halves first. */
  method WideLeq(mm: array<u64>, product: array<u64>) returns (b: bool)
    requires product.Length == 8 && mm.Length == 8
    ensures b <==> Wide(mm) <= Wide(product)
  {
    var high := Cmp(Ptr(mm, 4), Ptr(product, 4));
    var low := Cmp(Ptr(mm, 0), Ptr(product, 0));
    b := high < 0 || (high == 0 && low <= 0);
  }

  /** The shifted modulus after the shift count j has reached -1. */
  ghost function Scaled(m: nat, j: int): nat
    requires j >= -1
  {
    if j < 0 then m / 2 else MulNonneg(m, Pow2(j)); m * Pow2(j)
  }

  lemma ScaledHalf(m: nat, j: nat)
    ensures Scaled(m, j) / 2 == Scaled(m, j - 1)
    ensures j > 0 ==> Scaled(m, j) == 2 * Scaled(m, j - 1)
  {
    if j > 0 {
      assert m * (2 * Pow2(j - 1)) == 2 * (m * Pow2(j - 1));
    }
  }

  /** What the loop keeps: product = x modulo m, and at most one more subtraction is due at this size. */
  ghost predicate Reducing(product: nat, x: nat, m: nat, j: int) {
    && m > 0 && j >= -1 && Cong(product, x, m)
    && (if j < 0 then product < m else product < 2 * Scaled(m, j))
  }

  lemma ReduceStep(product: nat, product': nat, x: nat, m: nat, j: nat)
    requires Reducing(product, x, m, j)
    requires product' == if Scaled(m, j) <= product then product - Scaled(m, j) else product
    ensures Reducing(product', x, m, j - 1)
  {
    ScaledHalf(m, j);
    if Scaled(m, j) <= product {
      var k: int := Pow2(j);
      CongIntro(product', product, -k, m);
    }
  }

  /** The loop guard, `productBits > 256 || modMultiple >= mod`, holds exactly while j >= 0. */
  lemma GuardMeaning(lo: nat, hi: nat, m: nat, bits: nat, j: int)
    requires IsBitLength(m, bits) && 0 < bits <= 256 && j >= -1 && lo < TWO256
    requires lo + TWO256 * hi == Scaled(m, j)
    ensures (bits + j > 256 || lo >= m) <==> j >= 0
  {
    if 0 <= j && bits + j <= 256 {
      ScaledSize(m, bits, j);
      Pow2Monotone(bits + j, 256);
      Pow2Of256();
      MulMono(m, 1, Pow2(j));
    }
  }

  lemma ScaledSize(m: nat, bits: nat, j: nat)
    requires IsBitLength(m, bits) && bits > 0
    ensures Scaled(m, j) < Pow2(bits + j) <= 2 * Scaled(m, j)
  {
    Pow2Add(bits, j);
    Pow2Add(bits - 1, j);
    assert Pow2(bits + j) == 2 * Pow2(bits - 1 + j);
    MulStep(Pow2(j), m, Pow2(bits));
    MulMono(Pow2(j), Pow2(bits - 1), m);
    assert m * Pow2(j) == Pow2(j) * m;
    assert Pow2(bits) * Pow2(j) == Pow2(j) * Pow2(bits);
    assert Pow2(bits - 1) * Pow2(j) == Pow2(j) * Pow2(bits - 1);
  }

  /** Subtracts all multiples of m from the product. */
  method ReduceLoop(product: array<u64>, mm: array<u64>, mod: Ptr, one: Ptr, productBits: nat, ghost bits: nat,
                    ghost x: nat)
    requires product.Length == 8 && mm.Length == 8 && mod.Ok() && one.Ok() && one.V() == 1
    requires product != mm && product != mod.buf && product != one.buf && mm != mod.buf && mm != one.buf
    requires IsBitLength(mod.V(), bits) && 0 < bits <= 256 && productBits >= bits
    requires Wide(mm) == Scaled(mod.V(), productBits - bits)
    requires Reducing(Wide(product), x, mod.V(), productBits - bits)
    modifies product, mm
    ensures Cong(Wide(product), x, mod.V()) && Wide(product) < mod.V()
  {
    var pb := productBits;
    var more := StillAbove(mm, mod, pb, bits, pb - bits);
    while more
      invariant pb - bits >= -1 && Wide(mm) == Scaled(mod.V(), pb - bits)
      invariant Reducing(Wide(product), x, mod.V(), pb - bits)
      invariant more <==> pb - bits >= 0
      decreases pb
    {
      ReduceRound(product, mm, one, pb - bits, x, mod.V());
      pb := pb - 1;
      more := StillAbove(mm, mod, pb, bits, pb - bits);
    }
  }

  /** The loop guard. */
  method StillAbove(mm: array<u64>, mod: Ptr, pb: nat, ghost bits: nat, ghost j: int) returns (more: bool)
    requires mm.Length == 8 && mod.Ok() && IsBitLength(mod.V(), bits) && 0 < bits <= 256
    requires j >= -1 && pb == bits + j && Wide(mm) == Scaled(mod.V(), j)
    ensures more <==> j >= 0
  {
    GuardMeaning(Ptr(mm, 0).V(), Ptr(mm, 4).V(), mod.V(), bits, j);
    var order := Cmp(Ptr(mm, 0), mod);
    more := pb > DIGITS * 64 || order >= 0;
  }

  /** One round: subtract if possible, then halve the shifted modulus. */
  method ReduceRound(product: array<u64>, mm: array<u64>, one: Ptr, ghost j: nat, ghost x: nat, ghost m: nat)
    requires product.Length == 8 && mm.Length == 8 && one.Ok() && one.V() == 1
    requires product != mm && product != one.buf && mm != one.buf
    requires Wide(mm) == Scaled(m, j) && Reducing(Wide(product), x, m, j)
    modifies product, mm
    ensures Wide(mm) == Scaled(m, j - 1) && Reducing(Wide(product), x, m, j - 1)
  {
    ghost var p0 := Wide(product);
    var due := WideLeq(mm, product);
    if due {
      WideSub(product, mm, one);
    }
    ReduceStep(p0, Wide(product), x, m, j);
    ScaledHalf(m, j);
    WideHalve(mm);
  }

  /**
    result := left * right mod mod. The shifted modulus fits its eight digits exactly when the
    product is at most 256 bits longer than the modulus.
   */
  method ModMult(result: Ptr, left: Ptr, right: Ptr, mod: Ptr)
    requires result.Ok() && left.Ok() && right.Ok() && mod.Ok() && result.buf != mod.buf
    requires mod.V() > 0 && BitLen(left.V() * right.V()) <= BitLen(mod.V()) + 256
    modifies result.buf
    ensures result.V() == old(left.V() * right.V()) % mod.V()
    ensures OnlyWindow(result)
  {
    var product := new u64[8];
    Mult(product, left, right);
    WideVal(product);
    ReduceWide(result, product, mod);
  }

  /** The part of the routine after the multiplication. */
  method ReduceWide(result: Ptr, product: array<u64>, mod: Ptr)
    requires result.Ok() && mod.Ok() && product.Length == 8
    requires result.buf != mod.buf && result.buf != product && product != mod.buf
    requires mod.V() > 0 && BitLen(Wide(product)) <= BitLen(mod.V()) + 256
    modifies result.buf, product
    ensures result.V() == old(Wide(product)) % mod.V()
    ensures OnlyWindow(result)
  {
    ghost var x := Wide(product);
    var modBits := NumBits(mod);
    BitLenUnique(mod.V(), modBits);
    var productBits := WideNumBits(product);
    if productBits < modBits {
      ShorterIsSmaller(x, mod.V());
      WideSmall(Ptr(product, 0).V(), Ptr(product, 4).V(), mod.V());
      Set(result, Ptr(product, 0));
      return;
    }
    ReduceLong(result, product, mod, productBits, modBits);
  }

  method ReduceLong(result: Ptr, product: array<u64>, mod: Ptr, productBits: nat, modBits: nat)
    requires result.Ok() && mod.Ok() && product.Length == 8
    requires result.buf != mod.buf && result.buf != product && product != mod.buf
    requires mod.V() > 0 && IsBitLength(mod.V(), modBits) && modBits <= 256
    requires BitLen(Wide(product)) == productBits && modBits <= productBits <= modBits + 256
    modifies result.buf, product
    ensures result.V() == old(Wide(product)) % mod.V()
    ensures OnlyWindow(result)
  {
    ghost var x, m := Wide(product), mod.V();
    ShiftFits(productBits - modBits);
    var mm := ShiftedModulus(mod, productBits - modBits);
    SetOne(result);
    ReducingStart(x, m, modBits, productBits - modBits);
    ReduceLoop(product, mm, mod, result, productBits, modBits, x);
    ghost var r := Wide(product);
    WideSmall(Ptr(product, 0).V(), Ptr(product, 4).V(), m);
    CongSmall(r, x, m);
    Set(result, Ptr(product, 0));
  }

  /** Such a shift does come up: for the square of any number of 256 bits modulo 1. */
  lemma ShortModulus(x: nat)
    requires TWO256 / 2 <= x < TWO256
    ensures x * x >= 0 && BitLen(x * x) > BitLen(1) + 256
  {
    Pow2Of256();
    Pow2Half(255);
    MulNonneg(x, x);
    SquareLength(255, x, x * x);
    BitLenUnique(1, 1);
  }

  lemma SquareLength(k: nat, x: nat, square: nat)
    requires x >= Pow2(k) && square == x * x
    ensures BitLen(square) > 2 * k
  {
    Pow2Add(k, k);
    MulMono(Pow2(k), Pow2(k), x);
    MulMono(x, Pow2(k), x);
    if BitLen(square) <= 2 * k {
      Pow2Monotone(BitLen(square), 2 * k);
    }
  }

  lemma WideSmall(lo: nat, hi: nat, m: nat)
    requires lo + TWO256 * hi < m <= TWO256
    ensures hi == 0
  {
  }

  lemma ReducingStart(x: nat, m: nat, bits: nat, j: nat)
    requires m > 0 && IsBitLength(m, bits) && BitLen(x) == bits + j
    ensures Reducing(x, x, m, j) && Scaled(m, j) == m * Pow2(j)
  {
    ScaledSize(m, bits, j);
  }

  lemma ShorterIsSmaller(x: nat, m: nat)
    requires BitLen(x) < BitLen(m)
    ensures x < m && x % m == x
  {
    Pow2Monotone(BitLen(x), BitLen(m) - 1);
    DivModUnique(x, m, 0, x);
  }
}
