/** JSON values and the text the compact writer gives them, byte by byte. */
module JsonText {
  import opened Options

  type byte = x: int | 0 <= x < 256
  type Bytes = seq<byte>

  const QUOTE: byte := 0x22
  const BACKSLASH: byte := 0x5C
  const COMMA: byte := 0x2C
  const COLON: byte := 0x3A
  const OPEN_BRACKET: byte := 0x5B
  const CLOSE_BRACKET: byte := 0x5D
  const OPEN_BRACE: byte := 0x7B
  const CLOSE_BRACE: byte := 0x7D
  const MINUS: byte := 0x2D
  const SPACE: byte := 0x20
  const NEWLINE: byte := 0x0A
  const ZERO: byte := 0x30

  const NULL_TEXT: Bytes := [0x6E, 0x75, 0x6C, 0x6C]
  const TRUE_TEXT: Bytes := [0x74, 0x72, 0x75, 0x65]
  const FALSE_TEXT: Bytes := [0x66, 0x61, 0x6C, 0x73, 0x65]

  const MAX_INT: int := 0x7FFF_FFFF_FFFF_FFFF
  const MAX_UINT: int := 0xFFFF_FFFF_FFFF_FFFF

  function Ascii(s: string): Bytes
    requires forall i :: 0 <= i < |s| ==> s[i] as int < 128
  {
    seq(|s|, i requires 0 <= i < |s| => s[i] as int)
  }

  /** The bytes above are these characters. */
  lemma Characters()
    ensures NULL_TEXT == Ascii("null") && TRUE_TEXT == Ascii("true") && FALSE_TEXT == Ascii("false")
    ensures [QUOTE, BACKSLASH, COMMA, COLON] == Ascii("\"\\,:")
    ensures [OPEN_BRACKET, CLOSE_BRACKET, OPEN_BRACE, CLOSE_BRACE] == Ascii("[]{}")
    ensures [MINUS, SPACE, NEWLINE, ZERO] == Ascii("- \n0")
  {
  }

  lemma Regrouped<T>(a: seq<T>, b: seq<T>, c: seq<T>)
    ensures a + b + c == a + (b + c)
  {
  }

  // ---------- Values ----------

  /** An array is dense; the members of an object are kept in the order of their names, as in a std::map. */
  datatype Value =
    | Null
    | Bool(b: bool)
    | Int(i: int)
    | UInt(u: nat)
    | Real(r: real)
    | String(s: Bytes)
    | Array(elems: seq<Value>)
    | Object(members: seq<Member>)

  datatype Member = Member(name: Bytes, value: Value)

  /** strcmp on unsigned bytes. */
  predicate Less(a: Bytes, b: Bytes) {
    if b == [] then false
    else if a == [] then true
    else a[0] < b[0] || (a[0] == b[0] && Less(a[1..], b[1..]))
  }

  /** The first byte in which they differ decides, and a prefix comes before what it is a prefix of. */
  lemma {:induction false} LessExactly(a: Bytes, b: Bytes)
    ensures Less(a, b) <==> exists i: nat :: DiffersAt(a, b, i)
  {
    if b != [] && a != [] {
      LessExactly(a[1..], b[1..]);
      if i: nat :| DiffersAt(a[1..], b[1..], i) && a[0] == b[0] {
        assert a[..i + 1] == [a[0]] + a[1..][..i] && b[..i + 1] == [b[0]] + b[1..][..i];
        assert DiffersAt(a, b, i + 1);
      }
      if i: nat :| DiffersAt(a, b, i) {
        if i > 0 {
          assert a[0] == a[..i][0] == b[..i][0] == b[0];
          assert a[1..][..i - 1] == a[..i][1..] && b[1..][..i - 1] == b[..i][1..];
          assert DiffersAt(a[1..], b[1..], i - 1);
        }
      } else {
        assert !DiffersAt(a, b, 0);
      }
    } else if b != [] {
      assert DiffersAt(a, b, 0);
    }
  }

  predicate DiffersAt(a: Bytes, b: Bytes, i: nat) {
    i <= |a| && i < |b| && a[..i] == b[..i] && (i == |a| || a[i] < b[i])
  }

  lemma {:induction false} LessIrreflexive(a: Bytes)
    ensures !Less(a, a)
  {
    if a != [] {
      LessIrreflexive(a[1..]);
    }
  }

  lemma {:induction false} LessTransitive(a: Bytes, b: Bytes, c: Bytes)
    requires Less(a, b) && Less(b, c)
    ensures Less(a, c)
  {
    if a != [] && a[0] == b[0] && b[0] == c[0] {
      LessTransitive(a[1..], b[1..], c[1..]);
    }
  }

  lemma {:induction false} LessTotal(a: Bytes, b: Bytes)
    ensures Less(a, b) || a == b || Less(b, a)
  {
    if a != [] && b != [] && a[0] == b[0] {
      LessTotal(a[1..], b[1..]);
      assert a == [a[0]] + a[1..] && b == [b[0]] + b[1..];
    }
  }

  predicate Sorted(ms: seq<Member>) {
    forall i, j :: 0 <= i < j < |ms| ==> Less(ms[i].name, ms[j].name)
  }

  /** The position of the first member whose name is not below the given one: std::map::lower_bound. */
  function LowerBound(ms: seq<Member>, name: Bytes): (k: nat)
    ensures k <= |ms|
    ensures forall i :: 0 <= i < k ==> Less(ms[i].name, name)
    ensures k < |ms| ==> !Less(ms[k].name, name)
  {
    if ms == [] || !Less(ms[0].name, name) then 0 else 1 + LowerBound(ms[1..], name)
  }

  /** The value operator[] refers to: the member of that name, or a new null. */
  function Lookup(ms: seq<Member>, name: Bytes): Value {
    var k := LowerBound(ms, name);
    if k < |ms| && ms[k].name == name then ms[k].value else Null
  }

  /** Assignment through operator[]: replaces the member of that name or inserts it in order. */
  function Put(ms: seq<Member>, name: Bytes, v: Value): (r: seq<Member>) {
    var k := LowerBound(ms, name);
    if k < |ms| && ms[k].name == name then ms[k := Member(name, v)]
    else ms[..k] + [Member(name, v)] + ms[k..]
  }

  /** Assignment keeps names sorted, and changes that one name only. */
  lemma PutLookup(ms: seq<Member>, name: Bytes, v: Value, other: Bytes)
    requires Sorted(ms)
    ensures Sorted(Put(ms, name, v))
    ensures Lookup(Put(ms, name, v), other) == if other == name then v else Lookup(ms, other)
  {
    PutSorted(ms, name, v);
    if other == name {
      LookupAt(Put(ms, name, v), LowerBound(ms, name));
    } else if i :| 0 <= i < |ms| && ms[i].name == other {
      PutKeeps(ms, name, v, i);
    } else {
      PutAddsNoOther(ms, name, v, other);
    }
  }

  ghost predicate HasMember(ms: seq<Member>, name: Bytes) {
    exists i :: 0 <= i < |ms| && ms[i].name == name
  }

  /** Assignment adds that one name. */
  lemma PutNames(ms: seq<Member>, name: Bytes, v: Value, other: Bytes)
    ensures HasMember(Put(ms, name, v), other) <==> other == name || HasMember(ms, other)
  {
    var r, k := Put(ms, name, v), LowerBound(ms, name);
    assert r[k].name == name;
    if i :| 0 <= i < |ms| && ms[i].name == other {
      assert r[if |r| == |ms| || i < k then i else i + 1].name == other || other == name;
    }
  }

  lemma PutKeeps(ms: seq<Member>, name: Bytes, v: Value, i: nat)
    requires Sorted(ms) && i < |ms| && ms[i].name != name
    ensures Lookup(Put(ms, name, v), ms[i].name) == Lookup(ms, ms[i].name)
  {
    PutSorted(ms, name, v);
    LookupAt(ms, i);
    var r, k := Put(ms, name, v), LowerBound(ms, name);
    LookupAt(r, if |r| == |ms| || i < k then i else i + 1);
  }

  lemma PutAddsNoOther(ms: seq<Member>, name: Bytes, v: Value, other: Bytes)
    requires (forall i :: 0 <= i < |ms| ==> ms[i].name != other) && other != name
    ensures Lookup(Put(ms, name, v), other) == Lookup(ms, other)
  {
    LookupNone(ms, other);
    LookupNone(Put(ms, name, v), other);
  }

  lemma PutSorted(ms: seq<Member>, name: Bytes, v: Value)
    requires Sorted(ms)
    ensures Sorted(Put(ms, name, v))
  {
    var r := Put(ms, name, v);
    var k := LowerBound(ms, name);
    if !(k < |ms| && ms[k].name == name) {
      forall i | k <= i < |ms|
        ensures Less(name, ms[i].name)
      {
        LessTotal(name, ms[k].name);
        if i > k {
          LessTransitive(name, ms[k].name, ms[i].name);
        }
      }
    }
  }

  lemma LookupAt(ms: seq<Member>, i: nat)
    requires Sorted(ms) && i < |ms|
    ensures LowerBound(ms, ms[i].name) == i && Lookup(ms, ms[i].name) == ms[i].value
  {
    var k := LowerBound(ms, ms[i].name);
    LessIrreflexive(ms[i].name);
  }

  lemma LookupNone(ms: seq<Member>, name: Bytes)
    requires forall i :: 0 <= i < |ms| ==> ms[i].name != name
    ensures Lookup(ms, name) == Null
  {
  }

  // ---------- Numbers as text ----------

  /** The decimal digits of n, without leading zeros. */
  function Digits(n: nat): (t: Bytes)
    ensures |t| > 0 && forall i :: 0 <= i < |t| ==> IsDigit(t[i])
  {
    if n < 10 then [ZERO + n] else Digits(n / 10) + [ZERO + n % 10]
  }

  predicate IsDigit(c: byte) {
    0x30 <= c <= 0x39
  }

  /**
    uintToString: stores the terminator, then the digits from the lowest up, backwards from `end`;
    the number's text is what lies between the returned position and the terminator.
   */
  method UintToString(value: nat, buffer: array<byte>, end: nat) returns (current: nat)
    requires value <= MAX_UINT && 21 <= end <= buffer.Length
    modifies buffer
    ensures end <= current + 21 && current < end && buffer[current..end] == Digits(value) + [0]
    ensures forall i :: 0 <= i < current || end <= i < buffer.Length ==> buffer[i] == old(buffer[i])
  {
    DigitCount(value, 20);
    current := end - 1;
    buffer[current] := 0;
    var v := value;
    ghost var done: Bytes := [0];
    while true
      invariant current < end && buffer[current..end] == done && |done| == end - current
      invariant Digits(value) + [0] == Digits(v) + done
      invariant forall i :: 0 <= i < current || end <= i < buffer.Length ==> buffer[i] == old(buffer[i])
      invariant |Digits(v)| <= current && |Digits(v)| + (end - current) <= 21
      decreases v
    {
      current := current - 1;
      buffer[current] := ZERO + v % 10;
      done := [ZERO + v % 10] + done;
      if v / 10 == 0 {
        assert Digits(v) == [ZERO + v % 10];
        return;
      }
      assert Digits(v) == Digits(v / 10) + [ZERO + v % 10];
      v := v / 10;
    }
  }

  lemma SnocSame(a: Bytes, x: byte, b: Bytes, y: byte, whole: Bytes)
    requires whole == a + [x] && whole == b + [y]
    ensures a == b
  {
    assert whole[..|whole| - 1] == a;
    assert whole[..|whole| - 1] == b;
  }

  /** valueToString for the two integer types, each with its own 64-byte buffer. */
  method IntToString(value: int) returns (t: Bytes)
    requires -MAX_INT - 1 <= value <= MAX_INT
    ensures t == IntText(value)
  {
    var buffer := new byte[64];
    var magnitude := if value < 0 then -value else value;
    var current := UintToString(magnitude, buffer, 64);
    ghost var text := buffer[current..64];
    if value < 0 {
      current := current - 1;
      buffer[current] := MINUS;
      assert buffer[current + 1..64] == text;
    }
    t := buffer[current..63];
    assert buffer[current..64] == IntText(value) + [0];
    SnocSame(t, buffer[63], IntText(value), 0, buffer[current..64]);
  }

  method UIntToString(value: nat) returns (t: Bytes)
    requires value <= MAX_UINT
    ensures t == Digits(value)
  {
    var buffer := new byte[64];
    var current := UintToString(value, buffer, 64);
    t := buffer[current..63];
    SnocSame(t, buffer[63], Digits(value), 0, buffer[current..64]);
  }

  ghost function Pow10(k: nat): (r: nat)
    ensures r >= 1
  {
    if k == 0 then 1 else 10 * Pow10(k - 1)
  }

  lemma {:induction false} DigitsBelow(n: nat, k: nat)
    requires k > 0 && n < Pow10(k)
    ensures |Digits(n)| <= k
    decreases k
  {
    assert Pow10(1) == 10 * Pow10(0);
    if n >= 10 {
      DigitsBelow(n / 10, k - 1);
    }
  }

  lemma Pow10Double(k: nat, v: nat)
    requires Pow10(k) == v
    ensures Pow10(k + 5) == 100000 * v
  {
    assert Pow10(k + 2) == 100 * v;
    assert Pow10(k + 4) == 10000 * v;
  }

  lemma DigitCount(n: nat, k: nat)
    requires n <= MAX_UINT && k == 20
    ensures |Digits(n)| <= k
  {
    Pow10Double(0, 1);
    Pow10Double(5, 100000);
    Pow10Double(10, 1_00000_00000);
    Pow10Double(15, 1_00000_00000_00000);
    DigitsBelow(n, 20);
  }

  /** The text of a signed integer. */
  function IntText(i: int): Bytes {
    if i < 0 then [MINUS] + Digits(-i) else Digits(i)
  }

  // ---------- Strings as text ----------

  predicate IsControl(c: byte) {
    0 < c <= 0x1F
  }

  function HexDigit(d: nat): (c: byte)
    requires d < 16
  {
    if d < 10 then ZERO + d else 0x41 + (d - 10)
  }

  /** The text of one byte inside a string literal. */
  function EscapeByte(c: byte): (t: Bytes)
    ensures |t| > 0
  {
    if c == QUOTE then [BACKSLASH, QUOTE]
    else if c == BACKSLASH then [BACKSLASH, BACKSLASH]
    else if c == 0x08 then [BACKSLASH, 0x62]
    else if c == 0x0C then [BACKSLASH, 0x66]
    else if c == 0x0A then [BACKSLASH, 0x6E]
    else if c == 0x0D then [BACKSLASH, 0x72]
    else if c == 0x09 then [BACKSLASH, 0x74]
    else if IsControl(c) then [BACKSLASH, 0x75, ZERO, ZERO, HexDigit(c / 16), HexDigit(c % 16)]
    else [c]
  }

  function EscapeAll(s: Bytes): Bytes {
    if s == [] then [] else EscapeByte(s[0]) + EscapeAll(s[1..])
  }

  function Quote(s: Bytes): (t: Bytes)
    ensures |t| >= 2
  {
    [QUOTE] + EscapeAll(s) + [QUOTE]
  }

  predicate NulFree(s: Bytes) {
    forall i :: 0 <= i < |s| ==> s[i] != 0
  }

  /** What a C string shows of a byte string. */
  function UpToNul(s: Bytes): (r: Bytes)
    ensures NulFree(r)
    ensures NulFree(s) ==> r == s
  {
    if s == [] || s[0] == 0 then [] else [s[0]] + UpToNul(s[1..])
  }

  lemma {:induction false} UpToNulStops(s: Bytes)
    ensures var n := |UpToNul(s)|;
      n <= |s| && s[..n] == UpToNul(s) && (n < |s| ==> s[n] == 0)
  {
    if s != [] && s[0] != 0 {
      UpToNulStops(s[1..]);
      var n := |UpToNul(s[1..])|;
      assert s[..n + 1] == [s[0]] + s[1..][..n];
    }
  }

  lemma {:induction false} UpToNulPrefix(s: Bytes, n: nat)
    requires n <= |s| && NulFree(s[..n]) && (n == |s| || s[n] == 0)
    ensures UpToNul(s) == s[..n]
    decreases n
  {
    if n > 0 {
      assert s[0] == s[..n][0] != 0;
      assert s[1..][..n - 1] == s[..n][1..];
      UpToNulPrefix(s[1..], n - 1);
      assert s[..n] == [s[0]] + s[1..][..n - 1];
    }
  }

  predicate NeedsEscape(c: byte) {
    c == QUOTE || c == BACKSLASH || c == 0x08 || c == 0x0C || c == 0x0A || c == 0x0D || c == 0x09 || IsControl(c)
  }

  lemma {:induction false} EscapePlain(s: Bytes)
    requires forall i :: 0 <= i < |s| ==> !NeedsEscape(s[i])
    ensures EscapeAll(s) == s
  {
    if s != [] {
      EscapePlain(s[1..]);
      assert s == [s[0]] + s[1..];
    }
  }

  lemma {:induction false} EscapeSnoc(s: Bytes, c: byte)
    ensures EscapeAll(s + [c]) == EscapeAll(s) + EscapeByte(c)
  {
    if s == [] {
      assert s + [c] == [c];
      assert EscapeAll([c]) == EscapeByte(c) + EscapeAll([]);
    } else {
      EscapeSnoc(s[1..], c);
      assert (s + [c])[1..] == s[1..] + [c];
      Regrouped(EscapeByte(s[0]), EscapeAll(s[1..]), EscapeByte(c));
    }
  }

  /** strpbrk and containsControlCharacter: whether a C string can be quoted as it is, and its length. */
  method ScanPlain(value: Bytes) returns (plain: bool, n: nat)
    ensures n <= |value| && NulFree(value[..n]) && (n == |value| || value[n] == 0)
    ensures forall j :: 0 <= j < n ==> value[j] != 0
    ensures plain ==> forall j :: 0 <= j < n ==> !NeedsEscape(value[j])
  {
    plain := true;
    n := 0;
    while n < |value| && value[n] != 0
      invariant n <= |value| && forall j :: 0 <= j < n ==> value[j] != 0
      invariant plain ==> forall j :: 0 <= j < n ==> !NeedsEscape(value[j])
    {
      if NeedsEscape(value[n]) {
        plain := false;
      }
      n := n + 1;
    }
  }

  /**
    valueToQuotedString: the short cut for strings without special characters, and the escaping loop; both
    stop at the first NUL.
   */
  method ValueToQuotedString(value: Bytes) returns (result: Bytes)
    ensures result == Quote(UpToNul(value))
  {
    var plain, n := ScanPlain(value);
    UpToNulPrefix(value, n);
    ghost var shown := value[..n];
    if plain {
      EscapePlain(shown);
      return [QUOTE] + value[..n] + [QUOTE];
    }
    result := [QUOTE];
    var c := 0;
    while c < |value| && value[c] != 0
      invariant c <= n && result == [QUOTE] + EscapeAll(shown[..c])
    {
      assert c < n && shown[c] == value[c];
      EscapeSnoc(shown[..c], value[c]);
      assert shown[..c + 1] == shown[..c] + [value[c]];
      Regrouped([QUOTE], EscapeAll(shown[..c]), EscapeByte(value[c]));
      result := result + EscapeByte(value[c]);
      c := c + 1;
    }
    assert c == n;
    assert shown[..n] == shown;
    result := result + [QUOTE];
  }

  // ---------- The compact writer ----------

  /** How doubles are scanned and shown; both are calls into the C library. */
  datatype Doubles = Doubles(scan: Bytes -> Option<real>, show: real -> Bytes)

  function Scalar(d: Doubles, v: Value): Bytes
    requires !v.Array? && !v.Object?
  {
    match v
    case Null => NULL_TEXT
    case Bool(b) => if b then TRUE_TEXT else FALSE_TEXT
    case Int(i) => IntText(i)
    case UInt(u) => Digits(u)
    case Real(r) => d.show(r)
    case String(s) => Quote(UpToNul(s))
  }

  /** What separates a name from its value. */
  function Separator(yaml: bool): Bytes {
    if yaml then [COLON, SPACE] else [COLON]
  }

  function Fast(d: Doubles, yaml: bool, v: Value): Bytes
    decreases v, 1
  {
    match v
    case Array(es) => [OPEN_BRACKET] + FastElems(d, yaml, es) + [CLOSE_BRACKET]
    case Object(ms) => [OPEN_BRACE] + FastMembers(d, yaml, ms) + [CLOSE_BRACE]
    case _ => Scalar(d, v)
  }

  function FastElems(d: Doubles, yaml: bool, es: seq<Value>): Bytes
    decreases es, 0
  {
    if es == [] then []
    else Fast(d, yaml, es[0]) + (if |es| == 1 then [] else [COMMA] + FastElems(d, yaml, es[1..]))
  }

  function FastMember(d: Doubles, yaml: bool, m: Member): Bytes
    decreases m, 0
  {
    Quote(UpToNul(m.name)) + Separator(yaml) + Fast(d, yaml, m.value)
  }

  function FastMembers(d: Doubles, yaml: bool, ms: seq<Member>): Bytes
    decreases ms, 0
  {
    if ms == [] then []
    else FastMember(d, yaml, ms[0]) + (if |ms| == 1 then [] else [COMMA] + FastMembers(d, yaml, ms[1..]))
  }
}
