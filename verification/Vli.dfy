/**
  Very large integers: four little-endian 64-bit digits, overwritten in place.

  Each method follows one routine of the program loop by loop. Its contract speaks only
  of the integers the digits denote, `V()`, so that callers never look at digits again.
 */
module Vli {
  import opened Words

  // ---------- The integer denoted by a digit sequence ----------

  /** d * 2^(64 n), written so that only multiplication by the constant BASE occurs. */
  ghost function At(d: int, n: nat): (r: int)
    ensures d >= 0 ==> r >= 0
  {
    if n == 0 then d else BASE * At(d, n - 1)
  }

  ghost function Val(s: seq<u64>): (v: nat) {
    if |s| == 0 then 0 else Val(s[..|s| - 1]) + At(s[|s| - 1], |s| - 1)
  }

  lemma {:induction false} AtSum(a: int, b: int, n: nat)
    ensures At(a + b, n) == At(a, n) + At(b, n)
  {
    if n > 0 {
      AtSum(a, b, n - 1);
    }
  }

  lemma {:induction false} AtCarry(d: int, c: int, n: nat)
    ensures At(d + BASE * c, n) == At(d, n) + At(c, n + 1)
  {
    if n > 0 {
      AtCarry(d, c, n - 1);
    }
  }

  lemma {:induction false} AtTimes(d: int, k: int, n: nat)
    ensures At(d * k, n) == At(d, n) * k
  {
    if n > 0 {
      AtTimes(d, k, n - 1);
      assert (BASE * At(d, n - 1)) * k == BASE * (At(d, n - 1) * k);
    }
  }

  lemma ValSnoc(s: seq<u64>, d: u64)
    ensures Val(s + [d]) == Val(s) + At(d, |s|)
  {
    assert (s + [d])[..|s|] == s;
  }

  lemma PrefixStep(s: seq<u64>, i: nat)
    requires i < |s|
    ensures Val(s[..i + 1]) == Val(s[..i]) + At(s[i], i)
  {
    assert s[..i + 1][..i] == s[..i];
  }

  lemma AtLiterals(d: int)
    ensures At(d, 0) == d && At(d, 1) == BASE * d && At(d, 2) == BASE2 * d && At(d, 3) == BASE3 * d
    ensures At(d, 4) == TWO256 * d
  {
    assert At(d, 2) == BASE * At(d, 1);
    assert At(d, 3) == BASE * At(d, 2);
    assert At(d, 4) == BASE * At(d, 3);
  }

  /** The value of four digits as a linear expression. */
  lemma Val4(s: seq<u64>)
    requires |s| == 4
    ensures Val(s) == s[0] + BASE * s[1] + BASE2 * s[2]
                      + BASE3 * s[3]
    ensures Val(s) < TWO256
  {
    AtLiterals(s[0]);
    AtLiterals(s[1]);
    AtLiterals(s[2]);
    AtLiterals(s[3]);
    PrefixStep(s, 0);
    PrefixStep(s, 1);
    PrefixStep(s, 2);
    PrefixStep(s, 3);
    assert s[..4] == s;
  }

  lemma LowBitOfValue(s: seq<u64>)
    requires |s| == DIGITS
    ensures Val(s) % 2 == s[0] % 2
  {
    Val4(s);
  }

  // ---------- Pointers to four digits ----------

  datatype Ptr = Ptr(buf: array<u64>, off: nat) {

    predicate Ok() {
      off + DIGITS <= buf.Length
    }

    function Digits(): (s: seq<u64>)
      requires Ok()
      reads buf
      ensures |s| == DIGITS
    {
      buf[off..off + DIGITS]
    }

    /** The 256-bit integer pointed to. */
    ghost function V(): (v: nat)
      requires Ok()
      reads buf
      ensures v < TWO256
    {
      Val4(Digits());
      Val(Digits())
    }
  }

  /** The windows coincide or do not overlap: in-place use is allowed, a partial overlap is not. */
  ghost predicate SameOrApart(p: Ptr, q: Ptr) {
    p.buf == q.buf ==> p.off == q.off || p.off + DIGITS <= q.off || q.off + DIGITS <= p.off
  }

  /** Nothing outside the window of r has changed. */
  twostate predicate OnlyWindow(r: Ptr)
    reads r.buf
  {
    forall i :: 0 <= i < r.buf.Length && !(r.off <= i < r.off + DIGITS) ==> r.buf[i] == old(r.buf[i])
  }

  /** Nothing but the first n digits of the window of r has changed. */
  twostate predicate OnlyPrefix(r: Ptr, n: nat)
    reads r.buf
  {
    forall i :: 0 <= i < r.buf.Length && !(r.off <= i < r.off + n) ==> r.buf[i] == old(r.buf[i])
  }

  /** A window that agrees digit by digit with X denotes X. */
  lemma DigitsAre(p: Ptr, X: seq<u64>)
    requires p.Ok() && |X| == DIGITS
    requires forall j :: p.off <= j < p.off + DIGITS ==> p.buf[j] == X[j - p.off]
    ensures p.Digits() == X
  {
    var s := p.Digits();
    assert s[0] == p.buf[p.off] && s[1] == p.buf[p.off + 1];
    assert s[2] == p.buf[p.off + 2] && s[3] == p.buf[p.off + 3];
  }

  // ---------- Simple routines ----------

  method Clear(r: Ptr)
    requires r.Ok()
    modifies r.buf
    ensures r.V() == 0 && OnlyWindow(r)
  {
    for i := 0 to DIGITS
      invariant OnlyWindow(r)
      invariant forall j :: r.off <= j < r.off + i ==> r.buf[j] == 0
    {
      r.buf[r.off + i] := 0;
    }
    DigitsAre(r, [0, 0, 0, 0]);
    Val4(r.Digits());
  }

  method IsZero(p: Ptr) returns (z: bool)
    requires p.Ok()
    ensures z <==> p.V() == 0
  {
    Val4(p.Digits());
    for i := 0 to DIGITS
      invariant forall j :: 0 <= j < i ==> p.Digits()[j] == 0
    {
      assert p.buf[p.off + i] == p.Digits()[i];
      if p.buf[p.off + i] != 0 {
        return false;
      }
    }
    return true;
  }

  method Set(dest: Ptr, src: Ptr)
    requires dest.Ok() && src.Ok() && SameOrApart(dest, src)
    modifies dest.buf
    ensures dest.Digits() == old(src.Digits()) && dest.V() == old(src.V())
    ensures OnlyWindow(dest)
  {
    ghost var X := src.Digits();
    for i := 0 to DIGITS
      invariant OnlyPrefix(dest, i)
      invariant forall j :: dest.off <= j < dest.off + i ==> dest.buf[j] == X[j - dest.off]
    {
      dest.buf[dest.off + i] := src.buf[src.off + i];
    }
    DigitsAre(dest, X);
  }

  /** Sign of left - right. */
  method Cmp(left: Ptr, right: Ptr) returns (c: int)
    requires left.Ok() && right.Ok()
    ensures c == if left.V() > right.V() then 1 else if left.V() < right.V() then -1 else 0
  {
    var x, y := left.Digits(), right.Digits();
    var i := DIGITS - 1;
    while i >= 0
      invariant -1 <= i < DIGITS
      invariant forall j :: i < j < DIGITS ==> x[j] == y[j]
    {
      if x[i] > y[i] {
        TopDecides(y, x, i);
        return 1;
      } else if x[i] < y[i] {
        TopDecides(x, y, i);
        return -1;
      }
      i := i - 1;
    }
    assert x == y;
    return 0;
  }

  lemma TopDecides(x: seq<u64>, y: seq<u64>, i: nat)
    requires |x| == |y| == DIGITS && i < DIGITS && x[i] < y[i]
    requires forall j :: i < j < DIGITS ==> x[j] == y[j]
    ensures Val(x) < Val(y)
  {
    Val4(x);
    Val4(y);
  }

  // ---------- Addition and subtraction ----------

  /** The carry into digit i of X + Y. */
  ghost function CarryAt(X: seq<u64>, Y: seq<u64>, i: nat): (c: int)
    requires i <= |X| && i <= |Y|
    ensures 0 <= c <= 1
  {
    if i == 0 then 0 else (X[i - 1] + Y[i - 1] + CarryAt(X, Y, i - 1)) / BASE
  }

  ghost function SumAt(X: seq<u64>, Y: seq<u64>, i: nat): (d: u64)
    requires i < |X| && i < |Y|
  {
    (X[i] + Y[i] + CarryAt(X, Y, i)) % BASE
  }

  lemma {:induction false} AddValue(X: seq<u64>, Y: seq<u64>, R: seq<u64>, n: nat)
    requires n <= |X| == |Y| == |R|
    requires forall i :: 0 <= i < n ==> R[i] == SumAt(X, Y, i)
    ensures Val(R[..n]) + At(CarryAt(X, Y, n), n) == Val(X[..n]) + Val(Y[..n])
  {
    if n > 0 {
      var i := n - 1;
      AddValue(X, Y, R, i);
      PrefixStep(R, i);
      PrefixStep(X, i);
      PrefixStep(Y, i);
      CarryStep(X[i], Y[i], CarryAt(X, Y, i), R[i], CarryAt(X, Y, n), i);
    }
  }

  /** What one digit of a sum and the carry out of it are worth. */
  lemma CarryStep(x: int, y: int, c: int, d: int, c': int, i: nat)
    requires d == (x + y + c) % BASE && c' == (x + y + c) / BASE
    ensures At(d, i) + At(c', i + 1) == At(x, i) + At(y, i) + At(c, i)
  {
    AtSum(x, y, i);
    AtSum(x + y, c, i);
    AtCarry(d, c', i);
  }

  lemma AddTotal(X: seq<u64>, Y: seq<u64>, R: seq<u64>)
    requires |X| == |Y| == |R| == DIGITS
    requires forall i :: 0 <= i < DIGITS ==> R[i] == SumAt(X, Y, i)
    ensures Val(R) + TWO256 * CarryAt(X, Y, DIGITS) == Val(X) + Val(Y)
  {
    AddValue(X, Y, R, DIGITS);
    AtLiterals(CarryAt(X, Y, DIGITS));
    assert X[..DIGITS] == X && Y[..DIGITS] == Y && R[..DIGITS] == R;
  }

  /** The carry rule of one digit: the test skips digits where sum and left operand agree. */
  ghost function CarryRule(sum: int, x: int, c: int): int {
    if sum != x then (if sum < x then 1 else 0) else c
  }

  lemma AddDigit(X: seq<u64>, Y: seq<u64>, i: nat, c: u64)
    requires i < |X| == |Y| && c == CarryAt(X, Y, i)
    ensures SumAt(X, Y, i) == (X[i] + Y[i] + c) % BASE
    ensures CarryAt(X, Y, i + 1) == CarryRule(SumAt(X, Y, i), X[i], c)
  {
  }

  /** r := x + y, returning the carry; r may be x or y. */
  method Add(r: Ptr, x: Ptr, y: Ptr) returns (carry: u64)
    requires r.Ok() && x.Ok() && y.Ok() && SameOrApart(r, x) && SameOrApart(r, y)
    modifies r.buf
    ensures carry <= 1 && r.V() + carry * TWO256 == old(x.V() + y.V())
    ensures OnlyWindow(r)
  {
    carry := 0;
    ghost var X, Y := x.Digits(), y.Digits();
    for i := 0 to DIGITS
      invariant OnlyPrefix(r, i) && carry == CarryAt(X, Y, i)
      invariant forall j :: r.off <= j < r.off + i ==> r.buf[j] == SumAt(X, Y, j - r.off)
    {
      var xi := x.buf[x.off + i];
      assert xi == X[i] && y.buf[y.off + i] == Y[i];
      AddDigit(X, Y, i, carry);
      var sum := (xi + y.buf[y.off + i] + carry) % BASE;
      if sum != xi {
        carry := if sum < xi then 1 else 0;
      }
      r.buf[r.off + i] := sum;
    }
    AddResult(r, X, Y);
  }

  lemma AddResult(r: Ptr, X: seq<u64>, Y: seq<u64>)
    requires r.Ok() && |X| == |Y| == DIGITS
    requires forall j :: r.off <= j < r.off + DIGITS ==> r.buf[j] == SumAt(X, Y, j - r.off)
    ensures r.V() + TWO256 * CarryAt(X, Y, DIGITS) == Val(X) + Val(Y)
  {
    var R := [SumAt(X, Y, 0), SumAt(X, Y, 1), SumAt(X, Y, 2), SumAt(X, Y, 3)];
    DigitsAre(r, R);
    AddTotal(X, Y, R);
  }

  /** The borrow into digit i of X - Y. */
  ghost function BorrowAt(X: seq<u64>, Y: seq<u64>, i: nat): (b: int)
    requires i <= |X| && i <= |Y|
    ensures 0 <= b <= 1
  {
    if i == 0 then 0 else -((X[i - 1] - Y[i - 1] - BorrowAt(X, Y, i - 1)) / BASE)
  }

  ghost function DiffAt(X: seq<u64>, Y: seq<u64>, i: nat): (d: u64)
    requires i < |X| && i < |Y|
  {
    (X[i] - Y[i] - BorrowAt(X, Y, i)) % BASE
  }

  lemma {:induction false} SubValue(X: seq<u64>, Y: seq<u64>, R: seq<u64>, n: nat)
    requires n <= |X| == |Y| == |R|
    requires forall i :: 0 <= i < n ==> R[i] == DiffAt(X, Y, i)
    ensures Val(R[..n]) + Val(Y[..n]) == Val(X[..n]) + At(BorrowAt(X, Y, n), n)
  {
    if n > 0 {
      var i := n - 1;
      SubValue(X, Y, R, i);
      PrefixStep(R, i);
      PrefixStep(X, i);
      PrefixStep(Y, i);
      BorrowStep(X[i], Y[i], BorrowAt(X, Y, i), R[i], BorrowAt(X, Y, n), i);
    }
  }

  /** What one digit of a difference and the borrow out of it are worth. */
  lemma BorrowStep(x: int, y: int, b: int, d: int, b': int, i: nat)
    requires d == (x - y - b) % BASE && b' == -((x - y - b) / BASE)
    ensures At(d, i) + At(y, i) + At(b, i) == At(x, i) + At(b', i + 1)
  {
    AtSum(d, y, i);
    AtSum(d + y, b, i);
    AtCarry(x, b', i);
  }

  lemma SubTotal(X: seq<u64>, Y: seq<u64>, R: seq<u64>)
    requires |X| == |Y| == |R| == DIGITS
    requires forall i :: 0 <= i < DIGITS ==> R[i] == DiffAt(X, Y, i)
    ensures Val(R) + Val(Y) == Val(X) + TWO256 * BorrowAt(X, Y, DIGITS)
  {
    SubValue(X, Y, R, DIGITS);
    AtLiterals(BorrowAt(X, Y, DIGITS));
    assert X[..DIGITS] == X && Y[..DIGITS] == Y && R[..DIGITS] == R;
  }

  /** The borrow rule of one digit: the test skips digits where difference and left operand agree. */
  ghost function BorrowRule(diff: int, x: int, b: int): int {
    if diff != x then (if diff > x then 1 else 0) else b
  }

  lemma SubDigit(X: seq<u64>, Y: seq<u64>, i: nat, b: u64)
    requires i < |X| == |Y| && b == BorrowAt(X, Y, i)
    ensures DiffAt(X, Y, i) == (X[i] - Y[i] - b) % BASE
    ensures BorrowAt(X, Y, i + 1) == BorrowRule(DiffAt(X, Y, i), X[i], b)
  {
  }

  /** r := x - y, returning the borrow; r may be x or y. */
  method Sub(r: Ptr, x: Ptr, y: Ptr) returns (borrow: u64)
    requires r.Ok() && x.Ok() && y.Ok() && SameOrApart(r, x) && SameOrApart(r, y)
    modifies r.buf
    ensures borrow <= 1 && r.V() + old(y.V()) == old(x.V()) + borrow * TWO256
    ensures OnlyWindow(r)
  {
    borrow := 0;
    ghost var X, Y := x.Digits(), y.Digits();
    for i := 0 to DIGITS
      invariant OnlyPrefix(r, i) && borrow == BorrowAt(X, Y, i)
      invariant forall j :: r.off <= j < r.off + i ==> r.buf[j] == DiffAt(X, Y, j - r.off)
    {
      var xi := x.buf[x.off + i];
      assert xi == X[i] && y.buf[y.off + i] == Y[i];
      SubDigit(X, Y, i, borrow);
      var diff := (xi - y.buf[y.off + i] - borrow) % BASE;
      if diff != xi {
        borrow := if diff > xi then 1 else 0;
      }
      r.buf[r.off + i] := diff;
    }
    SubResult(r, X, Y);
  }

  lemma SubResult(r: Ptr, X: seq<u64>, Y: seq<u64>)
    requires r.Ok() && |X| == |Y| == DIGITS
    requires forall j :: r.off <= j < r.off + DIGITS ==> r.buf[j] == DiffAt(X, Y, j - r.off)
    ensures r.V() + Val(Y) == Val(X) + TWO256 * BorrowAt(X, Y, DIGITS)
  {
    var R := [DiffAt(X, Y, 0), DiffAt(X, Y, 1), DiffAt(X, Y, 2), DiffAt(X, Y, 3)];
    DigitsAre(r, R);
    SubTotal(X, Y, R);
  }

  // ---------- Shifts ----------

  /** r := x << s, returning the bits shifted out; r may be x. */
  method LShift(r: Ptr, x: Ptr, s: nat) returns (carry: u64)
    requires r.Ok() && x.Ok() && SameOrApart(r, x) && 0 < s < 64
    modifies r.buf
    ensures carry < Pow2(s) && r.V() + carry * TWO256 == old(x.V()) * Pow2(s)
    ensures OnlyWindow(r)
  {
    carry := 0;
    ghost var X := x.Digits();
    ghost var R: seq<u64> := [];
    for i := 0 to DIGITS
      invariant OnlyPrefix(r, i) && carry < Pow2(s) && |R| == i
      invariant forall j :: r.off <= j < r.off + i ==> r.buf[j] == R[j - r.off]
      invariant Val(R) + At(carry, i) == Val(X[..i]) * Pow2(s)
    {
      var temp, carryIn := x.buf[x.off + i], carry;
      assert temp == X[i];
      var digit: u64;
      digit, carry := ShiftOut(temp, s, carryIn);
      r.buf[r.off + i] := digit;
      ShiftPrefix(R, X, s, digit, carryIn, carry);
      R := R + [digit];
    }
    AtLiterals(carry);
    DigitsAre(r, R);
    assert X[..DIGITS] == X;
  }

  /** ((x << s) | c, x >> (64 - s)) */
  method ShiftOut(x: u64, s: nat, c: u64) returns (d: u64, out: u64)
    requires 0 < s < 64 && c < Pow2(s)
    ensures d + out * BASE == x * Pow2(s) + c && out < Pow2(s)
  {
    ShiftDigit(x, s, c);
    d, out := Or(Shl(x, s), c), Shr(x, 64 - s);
  }

  lemma ShiftDigit(x: u64, s: nat, c0: u64)
    requires 0 < s < 64 && c0 < Pow2(s)
    ensures Or(Shl(x, s), c0) == Shl(x, s) + c0 < BASE
    ensures Or(Shl(x, s), c0) + Shr(x, 64 - s) * BASE == x * Pow2(s) + c0
    ensures Shr(x, 64 - s) < Pow2(s)
  {
    ShiftSplit(x, s);
    OrDisjoint(Shl(x, s), c0, s);
    Pow2Literals();
    Pow2Add(s, 64 - s);
    RoomAbove(Shl(x, s), Pow2(s), Pow2(64 - s));
  }

  /** The largest multiple of p below p * t leaves room for p more. */
  lemma RoomAbove(a: nat, p: nat, t: nat)
    requires p >= 1 && t >= 1 && a % p == 0 && a < p * t
    ensures a + p <= p * t
  {
    var q := a / p;
    assert a == p * q;
    if q >= t {
      MulMono(p, t, q);
      assert false;
    }
    MulStep(p, q, t);
  }

  lemma ShiftPrefix(R: seq<u64>, X: seq<u64>, s: nat, d: u64, c0: int, c: int)
    requires |X| > |R|
    requires Val(R) + At(c0, |R|) == Val(X[..|R|]) * Pow2(s)
    requires d + c * BASE == X[|R|] * Pow2(s) + c0
    ensures Val(R + [d]) + At(c, |R| + 1) == Val(X[..|R| + 1]) * Pow2(s)
  {
    var i := |R|;
    ValSnoc(R, d);
    PrefixStep(X, i);
    AtTimes(X[i], Pow2(s), i);
    AtSum(X[i] * Pow2(s), c0, i);
    AtCarry(d, c, i);
    DistributeShift(Val(X[..i]), At(X[i], i), Pow2(s));
  }

  lemma DistributeShift(v: int, x: int, q: int)
    ensures (v + x) * q == v * q + x * q
  {
  }

  /** p := p >> 1. */
  method RShift1(p: Ptr)
    requires p.Ok()
    modifies p.buf
    ensures p.V() == old(p.V()) / 2
    ensures OnlyWindow(p)
  {
    ghost var X := p.Digits();
    var carry: u64 := 0;
    var i := DIGITS;
    while i > 0
      invariant 0 <= i <= DIGITS && OnlyWindow(p)
      invariant forall j :: p.off <= j < p.off + i ==> p.buf[j] == X[j - p.off]
      invariant forall j :: p.off + i <= j < p.off + DIGITS ==> p.buf[j] == HalfDigit(X, j - p.off)
      invariant carry == if i == DIGITS then 0 else (X[i] % 2) * 0x8000_0000_0000_0000
    {
      i := i - 1;
      var temp := p.buf[p.off + i];
      var digit := HighBitIn(temp, carry);
      p.buf[p.off + i] := digit;
      carry := LowBitOut(temp);
    }
    HalfResult(p, X);
  }

  lemma HalfResult(p: Ptr, X: seq<u64>)
    requires p.Ok() && |X| == DIGITS
    requires forall j :: p.off <= j < p.off + DIGITS ==> p.buf[j] == HalfDigit(X, j - p.off)
    ensures p.V() == Val(X) / 2
  {
    var Y := [HalfDigit(X, 0), HalfDigit(X, 1), HalfDigit(X, 2), HalfDigit(X, 3)];
    DigitsAre(p, Y);
    HalfValue(X, Y);
  }

  lemma HalfValue(X: seq<u64>, Y: seq<u64>)
    requires |X| == |Y| == DIGITS
    requires forall k :: 0 <= k < DIGITS ==> Y[k] == HalfDigit(X, k)
    ensures Val(Y) == Val(X) / 2
  {
    Val4(X);
    Val4(Y);
    assert Y[0] == HalfDigit(X, 0) && Y[1] == HalfDigit(X, 1) && Y[2] == HalfDigit(X, 2) && Y[3] == HalfDigit(X, 3);
  }

  /** Digit k after the shift: its own upper bits and the low bit of its neighbour. */
  ghost function HalfDigit(X: seq<u64>, k: nat): (d: u64)
    requires k < |X|
  {
    X[k] / 2 + (if k + 1 < |X| then (X[k + 1] % 2) * 0x8000_0000_0000_0000 else 0)
  }

  /** (x >> 1) | carry */
  method HighBitIn(x: u64, c: u64) returns (d: u64)
    requires c == 0 || c == 0x8000_0000_0000_0000
    ensures d == x / 2 + c
  {
    ShiftOne(x, c);
    d := Or(Shr(x, 1), c);
  }

  /** x << 63 */
  method LowBitOut(x: u64) returns (c: u64)
    ensures c == (x % 2) * 0x8000_0000_0000_0000
  {
    ShiftOne(x, 0);
    c := Shl(x, 63);
  }

  lemma ShiftOne(x: u64, c: u64)
    requires c == 0 || c == 0x8000_0000_0000_0000
    ensures Or(Shr(x, 1), c) == x / 2 + c < BASE
    ensures Shl(x, 63) == (x % 2) * 0x8000_0000_0000_0000
  {
    Pow2Literals();
    OrDisjoint(c, x / 2, 63);
    OrCommutes(c, x / 2);
    DivModUnique(x * 0x8000_0000_0000_0000, BASE, x / 2, (x % 2) * 0x8000_0000_0000_0000);
  }

  // ---------- Bits ----------

  /** Bit i of a natural number. */
  ghost predicate Bit(v: nat, i: nat) {
    Quot(v, Pow2(i)) % 2 == 1
  }

  lemma DivByProduct(v: nat, a: nat, b: nat)
    requires a >= 1 && b >= 1
    ensures a * b >= 1 && v / (a * b) == Quot(v, a) / b
  {
    var q, r := v / a, v % a;
    DivNonneg(v, a);
    DivNonneg(q, b);
    var q', r' := q / b, q % b;
    assert v == a * q + r && q == b * q' + r';
    Regroup(a, b, q', r', r);
    MulStep(a, r', b);
    MulNonneg(a, r');
    DivModUnique(v, a * b, q', a * r' + r);
  }

  /** Taking one more bit off a number's end. */
  lemma PrefixStepDown(k: nat, i: nat)
    ensures Quot(k, Pow2(i)) == 2 * Quot(k, Pow2(i + 1)) + (if Bit(k, i) then 1 else 0)
  {
    DivByProduct(k, Pow2(i), 2);
    assert Pow2(i) * 2 == Pow2(i + 1);
  }

  lemma Regroup(a: int, b: int, q: int, s: int, r: int)
    requires a >= 1 && b >= 1
    ensures a * (b * q + s) + r == (a * b) * q + (a * s + r) && a * b >= 1
  {
    MulNonneg(a - 1, b - 1);
  }

  /** The weight of digit q and its value as a power of two. */
  ghost function Weight(q: nat): (w: nat)
    requires q < DIGITS
    ensures w >= 1 && w == Pow2(64 * q)
  {
    Pow2Literals();
    Pow2Add(64, 64);
    Pow2Add(64, 128);
    if q == 0 then 1 else if q == 1 then BASE else if q == 2 then BASE2 else BASE3
  }

  /** A four-digit value cut below digit q. */
  lemma CutAt(s: seq<u64>, q: nat) returns (low: nat, high: nat)
    requires |s| == DIGITS && q < DIGITS
    ensures low < Weight(q) && Val(s) == Weight(q) * (s[q] + BASE * high) + low
    ensures (forall j :: q < j < DIGITS ==> s[j] == 0) ==> high == 0
  {
    Val4(s);
    if q == 0 {
      low, high := 0, s[1] + BASE * s[2] + BASE2 * s[3];
    } else if q == 1 {
      low, high := s[0], s[2] + BASE * s[3];
    } else if q == 2 {
      low, high := s[0] + BASE * s[1], s[3];
    } else {
      low, high := s[0] + BASE * s[1] + BASE2 * s[2], 0;
    }
  }

  lemma BitOfDigit(s: seq<u64>, q: nat, t: nat)
    requires |s| == DIGITS && q < DIGITS && t < 64
    ensures Bit(Val(s), 64 * q + t) <==> Quot(s[q], Pow2(t)) % 2 == 1
  {
    var low, high := CutAt(s, q);
    var y := s[q] + BASE * high;
    Pow2Add(64 * q, t);
    QuotOfCut(Val(s), Weight(q), Pow2(t), y, low);
    Pow2Literals();
    Pow2Add(t, 64 - t);
    SkipHighDigits(s[q], high, Pow2(t), Pow2(63 - t));
  }

  lemma QuotOfCut(v: nat, w: nat, p: nat, y: nat, low: nat)
    requires w >= 1 && p >= 1 && v == w * y + low && low < w
    ensures w * p >= 1 && Quot(v, w * p) == Quot(y, p)
  {
    DivModUnique(v, w, y, low);
    DivByProduct(v, w, p);
  }

  lemma SkipHighDigits(d: nat, high: nat, p: nat, h: nat)
    requires p >= 1 && p * (2 * h) == BASE
    ensures ((d + BASE * high) / p) % 2 == (d / p) % 2
  {
    var q, r := d / p, d % p;
    assert d == p * q + r;
    assert BASE * high == p * (2 * (h * high)) by {
      assert (p * (2 * h)) * high == p * (2 * (h * high));
    }
    assert p * (q + 2 * (h * high)) == p * q + p * (2 * (h * high));
    DivModUnique(d + BASE * high, p, q + 2 * (h * high), r);
    SameParity(q, h * high);
  }

  lemma SameParity(q: int, k: int)
    ensures (q + 2 * k) % 2 == q % 2
  {
  }

  lemma AndBit(x: nat, t: nat)
    ensures And(x, Pow2(t)) != 0 <==> Quot(x, Pow2(t)) % 2 == 1
  {
    AndShifted(x, 1, t);
    var y := Quot(x, Pow2(t));
    assert And(y, 1) == y % 2;
    if y % 2 == 0 {
      assert Pow2(t) * 0 == 0;
    } else {
      assert Pow2(t) * 1 == Pow2(t);
    }
  }

  /** Nonzero exactly if the given bit is set. */
  method TestBit(p: Ptr, bit: nat) returns (b: u64)
    requires p.Ok() && bit < 256
    ensures b != 0 <==> Bit(p.V(), bit)
  {
    BitOfDigit(p.Digits(), bit / 64, bit % 64);
    b := DigitBit(p.buf[p.off + bit / 64], bit % 64);
  }

  /** digit & (1 << t) */
  method DigitBit(x: u64, t: nat) returns (b: u64)
    requires t < 64
    ensures b != 0 <==> Quot(x, Pow2(t)) % 2 == 1
  {
    AndBit(x, t);
    Pow2Monotone(t, 63);
    Pow2Literals();
    AndBound(x, Shl(1, t));
    b := And(x, Shl(1, t));
  }

  lemma AndBound(x: nat, m: nat)
    ensures And(x, m) <= x
  {
  }

  /** The number of digits up to the highest nonzero one. */
  method NumDigits(p: Ptr) returns (n: nat)
    requires p.Ok()
    ensures n <= DIGITS && (n > 0 ==> p.Digits()[n - 1] != 0)
    ensures forall j :: n <= j < DIGITS ==> p.Digits()[j] == 0
  {
    var s := p.Digits();
    var i := DIGITS - 1;
    while i >= 0 && s[i] == 0
      invariant -1 <= i < DIGITS
      invariant forall j :: i < j < DIGITS ==> s[j] == 0
    {
      i := i - 1;
    }
    return i + 1;
  }

  /** The number of bits of the value: v < 2^n and, unless v is 0, v >= 2^(n-1). */
  ghost predicate IsBitLength(v: nat, n: nat) {
    v < Pow2(n) && (n > 0 ==> v >= Pow2(n - 1))
  }

  method NumBits(p: Ptr) returns (n: nat)
    requires p.Ok()
    ensures n <= 256 && IsBitLength(p.V(), n)
  {
    var digits := NumDigits(p);
    if digits == 0 {
      Val4(p.Digits());
      return 0;
    }
    var digit := p.buf[p.off + digits - 1];
    ghost var d := digit;
    var i := 0;
    while digit != 0
      invariant digit == Quot(d, Pow2(i)) && (i == 0 ==> d != 0) && (i > 0 ==> Quot(d, Pow2(i - 1)) != 0)
      decreases digit
    {
      Pow2Literals();
      DivByProduct(d, Pow2(i), 2);
      digit := Shr(digit, 1);
      i := i + 1;
    }
    BitLengthOfDigit(d, i);
    BitLengthOfDigits(p.Digits(), digits - 1, i);
    return (digits - 1) * 64 + i;
  }

  lemma BitLengthOfDigit(d: u64, i: nat)
    requires Quot(d, Pow2(i)) == 0 && i > 0 && Quot(d, Pow2(i - 1)) != 0
    ensures i <= 64 && Pow2(i - 1) <= d < Pow2(i)
  {
    var p := Pow2(i - 1);
    assert d == p * Quot(d, p) + d % p;
    MulMono(p, 1, Quot(d, p));
    assert d == Pow2(i) * 0 + d % Pow2(i);
    if i > 64 {
      Pow2Literals();
      Pow2Monotone(64, i - 1);
      assert false;
    }
  }

  lemma BitLengthOfDigits(s: seq<u64>, q: nat, i: nat)
    requires |s| == DIGITS && q < DIGITS && i > 0 && Pow2(i - 1) <= s[q] < Pow2(i)
    requires forall j :: q < j < DIGITS ==> s[j] == 0
    ensures IsBitLength(Val(s), 64 * q + i)
  {
    var low, high := CutAt(s, q);
    Pow2Add(64 * q, i);
    Pow2Add(64 * q, i - 1);
    MulMono(Weight(q), s[q] as int + 1, Pow2(i));
    MulMono(Weight(q), Pow2(i - 1), s[q]);
    assert Weight(q) * (s[q] as int + 1) == Weight(q) * s[q] + Weight(q);
  }
}
