/**
  Exact 512-bit products, one column of digit products at a time.
  The accumulator of a column is the pair (r2, r01), the number r01 + 2^128 * r2.
 */
module VliMult {
  import opened Words
  import opened Vli

  const TWO128: int := 0x1_0000000000000000_0000000000000000

  type u128 = x: int | 0 <= x < 0x1_0000000000000000_0000000000000000

  /** The digit products X[j] * Y[k - j] with j < i. */
  ghost function Col(X: seq<u64>, Y: seq<u64>, k: nat, i: nat): (c: nat)
    requires |X| == |Y| == DIGITS && i <= DIGITS
  {
    if i == 0 then 0 else
      Col(X, Y, k, i - 1) + (if i - 1 <= k && k - (i - 1) < DIGITS then Prod(X[i - 1], Y[k - (i - 1)]) else 0)
  }

  ghost function Prod(a: u64, b: u64): (p: u128)
  {
    ProdBound(a, b);
    a as int * b as int
  }

  lemma ProdBound(a: u64, b: u64)
    ensures 0 <= a as int * b as int <= (BASE - 1) * (BASE - 1)
  {
    MulNonneg(a, b);
    MulMono(a, b, BASE - 1);
    MulMono(BASE - 1, a, BASE - 1);
  }

  /** The first k columns, each at its position. */
  ghost function Cols(X: seq<u64>, Y: seq<u64>, k: nat): (c: nat)
    requires |X| == |Y| == DIGITS
  {
    if k == 0 then 0 else Cols(X, Y, k - 1) + At(Col(X, Y, k - 1, DIGITS), k - 1)
  }

  /** One column of the product: accumulates X[i] * Y[k - i] into (r2, r01) without losing a carry. */
  method MultColumn(left: Ptr, right: Ptr, k: nat, start: u128) returns (r01: u128, r2: u64)
    requires left.Ok() && right.Ok() && k < 2 * DIGITS - 1
    ensures r01 + TWO128 * r2 == start + Col(left.Digits(), right.Digits(), k, DIGITS)
    ensures r2 <= DIGITS
  {
    r01, r2 := start, 0;
    ghost var X, Y := left.Digits(), right.Digits();
    var min := if k < DIGITS then 0 else k + 1 - DIGITS;
    var i := min;
    ColBelow(X, Y, k, min);
    while i <= k && i < DIGITS
      invariant min <= i <= DIGITS && i <= k + 1 && r2 <= i - min
      invariant r01 + TWO128 * r2 == start + Col(X, Y, k, i)
    {
      assert Col(X, Y, k, i + 1) == Col(X, Y, k, i) + Prod(X[i], Y[k - i]);
      var product := WideProduct(left.buf[left.off + i], right.buf[right.off + k - i]);
      AddWord(r01, product);
      r01 := (r01 + product) % TWO128;
      r2 := r2 + (if r01 < product then 1 else 0);
      i := i + 1;
    }
    ColAbove(X, Y, k, i);
  }

  lemma {:induction false} ColBelow(X: seq<u64>, Y: seq<u64>, k: nat, i: nat)
    requires |X| == |Y| == DIGITS && i <= DIGITS
    requires i + DIGITS <= k + 1 || i == 0
    ensures Col(X, Y, k, i) == 0
  {
    if i > 0 {
      ColBelow(X, Y, k, i - 1);
    }
  }

  lemma {:induction false} ColAbove(X: seq<u64>, Y: seq<u64>, k: nat, i: nat)
    requires |X| == |Y| == DIGITS && i <= DIGITS && (i == DIGITS || i == k + 1)
    ensures Col(X, Y, k, DIGITS) == Col(X, Y, k, i)
  {
    assert k + 1 <= 3 ==> Col(X, Y, k, 4) == Col(X, Y, k, 3);
    assert k + 1 <= 2 ==> Col(X, Y, k, 3) == Col(X, Y, k, 2);
    assert k + 1 <= 1 ==> Col(X, Y, k, 2) == Col(X, Y, k, 1);
  }

  /** (uint128_t)a * b */
  function WideProduct(a: u64, b: u64): (p: u128)
    ensures p == Prod(a, b)
  {
    ProdBound(a, b);
    a as int * b as int
  }

  /** Unsigned overflow of a 128-bit addition shows as a sum below the summand. */
  lemma AddWord(a: u128, p: u128)
    ensures (a + p) % TWO128 + TWO128 * (if (a + p) % TWO128 < p then 1 else 0) == a + p
  {
  }

  lemma PairsStep(X: seq<u64>, k: nat, i: nat)
    requires |X| == DIGITS && i < DIGITS && 2 * i <= k && k - i < DIGITS
    ensures Pairs(X, k, i + 1) == Pairs(X, k, i) + (if i < k - i then 2 else 1) * Prod(X[i], X[k - i])
  {
  }

  /** Doubling in a 128-bit word: the lost top bit goes to r2. */
  lemma DoubleWord(p: u128)
    ensures p / 0x8000_0000_0000_0000_0000_0000_0000_0000 <= 1
    ensures (2 * p) % TWO128 + TWO128 * (p / 0x8000_0000_0000_0000_0000_0000_0000_0000) == 2 * p
  {
  }

  /** The pairs the squaring loop visits before i: cross products twice, a square once. */
  ghost function Pairs(X: seq<u64>, k: nat, i: nat): (c: nat)
    requires |X| == DIGITS && i <= DIGITS
    requires i > 0 ==> 2 * (i - 1) <= k
  {
    if i == 0 then 0 else
      Pairs(X, k, i - 1) +
      (if k - (i - 1) >= DIGITS then 0
       else if i - 1 < k - (i - 1) then 2 * Prod(X[i - 1], X[k - (i - 1)])
       else Prod(X[i - 1], X[k - (i - 1)]))
  }

  /** Doubles a cross product; the bit it loses goes to r2. */
  method DoubleProduct(product: u128, r2: u64) returns (doubled: u128, r2': u64)
    requires r2 <= 2 * DIGITS
    ensures doubled + TWO128 * r2' == 2 * product + TWO128 * r2 && r2 <= r2' <= r2 + 1
  {
    DoubleWord(product);
    r2' := r2 + product / 0x8000_0000_0000_0000_0000_0000_0000_0000;
    doubled := (2 * product) % TWO128;
  }

  /** One column of the square. */
  method SquareColumn(left: Ptr, k: nat, start: u128) returns (r01: u128, r2: u64)
    requires left.Ok() && k < 2 * DIGITS - 1
    ensures r01 + TWO128 * r2 == start + Col(left.Digits(), left.Digits(), k, DIGITS)
    ensures r2 <= 2 * DIGITS
  {
    r01, r2 := start, 0;
    ghost var X := left.Digits();
    var min := if k < DIGITS then 0 else k + 1 - DIGITS;
    var i := min;
    PairsBelow(X, k, min);
    while i <= k && i <= k - i
      invariant min <= i <= DIGITS && 2 * i <= k + 2 && r2 <= 2 * (i - min)
      invariant r01 + TWO128 * r2 == start + Pairs(X, k, i)
    {
      PairsStep(X, k, i);
      var product := WideProduct(left.buf[left.off + i], left.buf[left.off + k - i]);
      if i < k - i {
        product, r2 := DoubleProduct(product, r2);
      }
      AddWord(r01, product);
      r01 := (r01 + product) % TWO128;
      r2 := r2 + (if r01 < product then 1 else 0);
      i := i + 1;
    }
    PairsAll(X, k, i);
  }

  lemma {:induction false} PairsBelow(X: seq<u64>, k: nat, i: nat)
    requires |X| == DIGITS && i <= DIGITS && k < 2 * DIGITS - 1
    requires i + DIGITS <= k + 1 || i == 0
    ensures (i > 0 ==> 2 * (i - 1) <= k) && Pairs(X, k, i) == 0
  {
    if i > 0 {
      PairsBelow(X, k, i - 1);
    }
  }

  lemma ProdCommutes(a: u64, b: u64)
    ensures Prod(a, b) == Prod(b, a)
  {
  }

  /** Visiting half of a column with doubled cross terms gives the whole column. */
  lemma PairsAll(X: seq<u64>, k: nat, i: nat)
    requires |X| == DIGITS && i <= DIGITS && k < 2 * DIGITS - 1
    requires k < 2 * i <= k + 2
    ensures Pairs(X, k, i) == Col(X, X, k, DIGITS)
  {
    ProdCommutes(X[0], X[1]);
    ProdCommutes(X[0], X[2]);
    ProdCommutes(X[0], X[3]);
    ProdCommutes(X[1], X[2]);
    ProdCommutes(X[1], X[3]);
    ProdCommutes(X[2], X[3]);
    PairsPrefix(X, k);
    ColumnValue(X, X, k);
  }

  /** The pairs visited after one, two, three and four steps. */
  lemma PairsPrefix(X: seq<u64>, k: nat)
    requires |X| == DIGITS && k < 2 * DIGITS - 1
    ensures k < DIGITS ==> Pairs(X, k, 1) == if k == 0 then Prod(X[0], X[0]) else 2 * Prod(X[0], X[k])
    ensures k == 2 || k == 3 ==>
      Pairs(X, k, 2) == 2 * Prod(X[0], X[k]) + (if k == 2 then Prod(X[1], X[1]) else 2 * Prod(X[1], X[2]))
    ensures k == 4 ==> Pairs(X, k, 3) == 2 * Prod(X[1], X[3]) + Prod(X[2], X[2])
    ensures k == 5 ==> Pairs(X, k, 3) == 2 * Prod(X[2], X[3])
    ensures k == 6 ==> Pairs(X, k, 4) == Prod(X[3], X[3])
  {
    assert Pairs(X, k, 0) == 0;
    assert k >= 4 ==> Pairs(X, k, 1) == 0;
    assert k >= 4 ==> Pairs(X, k, 2) == if k == 4 then 2 * Prod(X[1], X[3]) else 0;
    assert k == 6 ==> Pairs(X, k, 3) == 0;
  }

  /** A column spelled out. */
  lemma ColumnValue(X: seq<u64>, Y: seq<u64>, k: nat)
    requires |X| == |Y| == DIGITS && k < 7
    ensures Col(X, Y, k, DIGITS) ==
      if k == 0 then Prod(X[0], Y[0])
      else if k == 1 then Prod(X[0], Y[1]) + Prod(X[1], Y[0])
      else if k == 2 then Prod(X[0], Y[2]) + Prod(X[1], Y[1]) + Prod(X[2], Y[0])
      else if k == 3 then Prod(X[0], Y[3]) + Prod(X[1], Y[2]) + Prod(X[2], Y[1]) + Prod(X[3], Y[0])
      else if k == 4 then Prod(X[1], Y[3]) + Prod(X[2], Y[2]) + Prod(X[3], Y[1])
      else if k == 5 then Prod(X[2], Y[3]) + Prod(X[3], Y[2])
      else Prod(X[3], Y[3])
  {
    assert Col(X, Y, k, 0) == 0;
    var c1, c2, c3 := Col(X, Y, k, 1), Col(X, Y, k, 2), Col(X, Y, k, 3);
    assert c1 == if k < 4 then Prod(X[0], Y[k]) else 0;
    assert c2 == c1 + (if 1 <= k < 5 then Prod(X[1], Y[k - 1]) else 0);
    assert c3 == c2 + (if 2 <= k < 6 then Prod(X[2], Y[k - 2]) else 0);
  }

  /** Splitting the accumulator into the finished digit and the carry into the next column. */
  lemma SplitAccumulator(r01: u128, r2: u64)
    requires r2 <= 2 * DIGITS
    ensures Or(r01 / BASE, (r2 * BASE) % TWO128) == (r01 + TWO128 * r2) / BASE < TWO128
    ensures r01 % BASE == (r01 + TWO128 * r2) % BASE
  {
    var t := r01 + TWO128 * r2;
    assert t == r01 + BASE * (BASE * r2);
    DivModUnique(t, BASE, r01 / BASE + BASE * r2, r01 % BASE);
    assert (r2 * BASE) % TWO128 == r2 * BASE;
    Pow2Literals();
    ModMultiple(r2, BASE);
    OrDisjoint(r2 * BASE, r01 / BASE, 64);
    OrCommutes(r2 * BASE, r01 / BASE);
  }

  /** (r01 >> 64) | (r2 << 64) */
  method NextColumn(r01: u128, r2: u64) returns (r: u128)
    requires r2 <= 2 * DIGITS
    ensures r == (r01 + TWO128 * r2) / BASE
  {
    SplitAccumulator(r01, r2);
    r := Or(r01 / BASE, (r2 * BASE) % TWO128);
  }

  lemma ColumnDone(s: seq<u64>, X: seq<u64>, Y: seq<u64>, k: nat, start: int, t: nat, d: u64, next: int)
    requires |X| == |Y| == DIGITS && |s| == k
    requires Val(s) + At(start, k) == Cols(X, Y, k)
    requires t == start + Col(X, Y, k, DIGITS) && d == t % BASE && next == t / BASE
    ensures Val(s + [d]) + At(next, k + 1) == Cols(X, Y, k + 1)
  {
    ValSnoc(s, d);
    AtSum(start, Col(X, Y, k, DIGITS), k);
    AtCarry(d, next, k);
  }

  // ---------- The whole product ----------

  lemma AtTwo(d: int, k: nat)
    ensures At(d, k + 2) == BASE2 * At(d, k)
  {
    assert At(d, k + 2) == BASE * At(d, k + 1);
  }

  /** All seven columns together are the product of the two values. */
  lemma ColsAll(X: seq<u64>, Y: seq<u64>)
    requires |X| == |Y| == DIGITS
    ensures Cols(X, Y, 7) == Val(X) * Val(Y)
  {
    ColsLiteral(X, Y);
    Val4(X);
    Val4(Y);
    ColumnValue(X, Y, 0);
    ColumnValue(X, Y, 1);
    ColumnValue(X, Y, 2);
    ColumnValue(X, Y, 3);
    ColumnValue(X, Y, 4);
    ColumnValue(X, Y, 5);
    ColumnValue(X, Y, 6);
    ProductOfRows(X[0], X[1], X[2], X[3], Y[0], Y[1], Y[2], Y[3], Val(Y));
    RowSum(X[0], X[1], X[2], X[3], Val(X), Val(Y));
  }

  lemma ColsLiteral(X: seq<u64>, Y: seq<u64>)
    requires |X| == |Y| == DIGITS
    ensures Cols(X, Y, 7) == Col(X, Y, 0, DIGITS) + BASE * Col(X, Y, 1, DIGITS) + BASE2 * Col(X, Y, 2, DIGITS)
                             + BASE3 * Col(X, Y, 3, DIGITS)
                             + TWO256 * (Col(X, Y, 4, DIGITS) + BASE * Col(X, Y, 5, DIGITS) + BASE2 * Col(X, Y, 6, DIGITS))
  {
    ColsStep(X, Y, 0);
    ColsStep(X, Y, 1);
    ColsStep(X, Y, 2);
    ColsStep(X, Y, 3);
    ColsStep(X, Y, 4);
    ColsStep(X, Y, 5);
    ColsStep(X, Y, 6);
    AtTwo(Col(X, Y, 5, DIGITS), 3);
    AtTwo(Col(X, Y, 6, DIGITS), 4);
  }

  lemma ColsStep(X: seq<u64>, Y: seq<u64>, k: nat)
    requires |X| == |Y| == DIGITS
    ensures Cols(X, Y, k + 1) == Cols(X, Y, k) + At(Col(X, Y, k, DIGITS), k)
    ensures At(Col(X, Y, k, DIGITS), 0) == Col(X, Y, k, DIGITS)
    ensures At(Col(X, Y, k, DIGITS), 1) == BASE * Col(X, Y, k, DIGITS)
    ensures At(Col(X, Y, k, DIGITS), 2) == BASE2 * Col(X, Y, k, DIGITS)
    ensures At(Col(X, Y, k, DIGITS), 3) == BASE3 * Col(X, Y, k, DIGITS)
    ensures At(Col(X, Y, k, DIGITS), 4) == TWO256 * Col(X, Y, k, DIGITS)
  {
    AtLiterals(Col(X, Y, k, DIGITS));
  }

  /** One row per digit of the left factor. */
  ghost function Row(x: int, y0: int, y1: int, y2: int, y3: int): int {
    x * y0 + BASE * (x * y1) + BASE2 * (x * y2) + BASE3 * (x * y3)
  }

  lemma RowValue(x: int, y0: int, y1: int, y2: int, y3: int, y: int)
    requires y == y0 + BASE * y1 + BASE2 * y2 + BASE3 * y3
    ensures Row(x, y0, y1, y2, y3) == x * y
  {
    assert x * (y0 + BASE * y1 + BASE2 * y2 + BASE3 * y3)
        == x * y0 + x * (BASE * y1) + x * (BASE2 * y2) + x * (BASE3 * y3);
  }

  lemma ProductOfRows(x0: int, x1: int, x2: int, x3: int, y0: int, y1: int, y2: int, y3: int, y: int)
    requires y == y0 + BASE * y1 + BASE2 * y2 + BASE3 * y3
    ensures x0 * y + BASE * (x1 * y) + BASE2 * (x2 * y) + BASE3 * (x3 * y)
        == x0 * y0 + BASE * (x0 * y1 + x1 * y0) + BASE2 * (x0 * y2 + x1 * y1 + x2 * y0)
           + BASE3 * (x0 * y3 + x1 * y2 + x2 * y1 + x3 * y0)
           + TWO256 * (x1 * y3 + x2 * y2 + x3 * y1 + BASE * (x2 * y3 + x3 * y2) + BASE2 * (x3 * y3))
  {
    RowValue(x0, y0, y1, y2, y3, y);
    RowValue(x1, y0, y1, y2, y3, y);
    RowValue(x2, y0, y1, y2, y3, y);
    RowValue(x3, y0, y1, y2, y3, y);
  }

  lemma RowSum(x0: int, x1: int, x2: int, x3: int, x: int, y: int)
    requires x == x0 + BASE * x1 + BASE2 * x2 + BASE3 * x3
    ensures x * y == x0 * y + BASE * (x1 * y) + BASE2 * (x2 * y) + BASE3 * (x3 * y)
  {
    RowValue(y, x0, x1, x2, x3, x);
    assert y * x == x * y && y * x0 == x0 * y && y * x1 == x1 * y && y * x2 == x2 * y && y * x3 == x3 * y;
  }

  lemma AtBelow(d: int, e: int, n: nat)
    ensures At(d, n) < At(e, n) <==> d < e
  {
  }

  /** The top digit: what is left of the accumulator after seven columns fits in one word. */
  lemma TopDigit(R: seq<u64>, X: seq<u64>, Y: seq<u64>, r01: u128)
    requires |X| == |Y| == DIGITS && |R| == 7
    requires Val(R) + At(r01, 7) == Cols(X, Y, 7)
    ensures r01 < BASE && Val(R + [r01]) == Cols(X, Y, 7)
  {
    ColsAll(X, Y);
    Val4(X);
    Val4(Y);
    MulStep(Val(X), Val(Y), TWO256);
    MulMono(TWO256, Val(X), TWO256);
    AtLiterals(BASE);
    AtTwo(BASE, 3);
    AtTwo(BASE, 5);
    AtBelow(r01, BASE, 7);
    ValSnoc(R, r01);
  }

  /** The end of one turn of the loop over the columns: stores a digit and shifts the accumulator. */
  method StoreColumn(product: array<u64>, k: nat, acc: u128, r2: u64, ghost start: int, ghost X: seq<u64>,
                     ghost Y: seq<u64>)
    returns (r01: u128)
    requires product.Length == 2 * DIGITS && k < 2 * DIGITS - 1 && |X| == |Y| == DIGITS && r2 <= 2 * DIGITS
    requires Val(product[..k]) + At(start, k) == Cols(X, Y, k)
    requires acc + TWO128 * r2 == start + Col(X, Y, k, DIGITS)
    modifies product
    ensures Val(product[..k + 1]) + At(r01, k + 1) == Cols(X, Y, k + 1)
  {
    ghost var done := product[..k];
    product[k] := acc % BASE;
    r01 := NextColumn(acc, r2);
    ColumnDone(done, X, Y, k, start, acc + TWO128 * r2, acc % BASE, r01);
    assert product[..k + 1] == done + [acc % BASE];
  }

  /** After the loop: the accumulator is the top digit. */
  method StoreTop(product: array<u64>, r01: u128, ghost X: seq<u64>, ghost Y: seq<u64>)
    requires product.Length == 2 * DIGITS && |X| == |Y| == DIGITS
    requires Val(product[..7]) + At(r01, 7) == Cols(X, Y, 7)
    modifies product
    ensures Val(product[..]) == Cols(X, Y, 7)
  {
    ghost var done := product[..7];
    TopDigit(done, X, Y, r01);
    product[2 * DIGITS - 1] := r01 % BASE;
    assert product[..] == done + [r01];
  }

  /** product := left * right, all 512 bits of it. */
  method Mult(product: array<u64>, left: Ptr, right: Ptr)
    requires product.Length == 2 * DIGITS && left.Ok() && right.Ok()
    requires product != left.buf && product != right.buf
    modifies product
    ensures Val(product[..]) == left.V() * right.V()
  {
    ghost var X, Y := left.Digits(), right.Digits();
    var r01: u128 := 0;
    for k := 0 to 2 * DIGITS - 1
      invariant left.Digits() == X && right.Digits() == Y
      invariant Val(product[..k]) + At(r01, k) == Cols(X, Y, k)
    {
      var acc, r2 := MultColumn(left, right, k, r01);
      r01 := StoreColumn(product, k, acc, r2, r01, X, Y);
    }
    StoreTop(product, r01, X, Y);
    ColsAll(X, Y);
  }

  /** product := left^2, all 512 bits of it: the same number as Mult(product, left, left). */
  method Square(product: array<u64>, left: Ptr)
    requires product.Length == 2 * DIGITS && left.Ok() && product != left.buf
    modifies product
    ensures Val(product[..]) == left.V() * left.V()
  {
    ghost var X := left.Digits();
    var r01: u128 := 0;
    for k := 0 to 2 * DIGITS - 1
      invariant left.Digits() == X
      invariant Val(product[..k]) + At(r01, k) == Cols(X, X, k)
    {
      var acc, r2 := SquareColumn(left, k, r01);
      r01 := StoreColumn(product, k, acc, r2, r01, X, X);
    }
    StoreTop(product, r01, X, X);
    ColsAll(X, X);
  }
}
