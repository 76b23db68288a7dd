/**
  The texts of RFC 8259 as trees: what is written, what it means to the reader, and the tree each writer's text is.
 */
module JsonSyntax {
  import opened Options
  import opened JsonText
  import opened JsonGrammar
  import opened JsonLayout
  import opened JsonUnicode

  // ---------- Numbers (section 6 of RFC 8259) ----------

  const POINT: byte := 0x2E
  const PLUS: byte := 0x2B

  /** The part of a number from its e on. */
  datatype Exponent = Exponent(capital: bool, sign: Bytes, digits: Bytes)

  /** A number: the digits after the point are empty if there is no point. */
  datatype Numeral = Numeral(negative: bool, whole: nat, fraction: Bytes, exponent: Option<Exponent>)

  predicate AllDigits(t: Bytes) {
    forall i :: 0 <= i < |t| ==> IsDigit(t[i])
  }

  predicate GoodNumeral(n: Numeral) {
    && AllDigits(n.fraction)
    && match n.exponent
       case None => true
       case Some(e) => (e.sign == [] || e.sign == [PLUS] || e.sign == [MINUS]) && AllDigits(e.digits) && e.digits != []
  }

  function WholeText(n: Numeral): Bytes {
    (if n.negative then [MINUS] else []) + Digits(n.whole)
  }

  function FractionText(n: Numeral): Bytes {
    if n.fraction == [] then [] else [POINT] + n.fraction
  }

  function ExponentText(n: Numeral): Bytes {
    match n.exponent
    case None => []
    case Some(e) => [if e.capital then 0x45 else 0x65] + e.sign + e.digits
  }

  function NumeralText(n: Numeral): Bytes {
    WholeText(n) + (FractionText(n) + ExponentText(n))
  }

  /** An integer in the type the library gives it. */
  function Integer(negative: bool, n: nat): Value {
    if negative then Int(-(n as int)) else if n <= MAX_INT then Int(n) else UInt(n)
  }

  /**
    What a number is read as: an integer if it is written as one and is below the bound, and otherwise whatever the C
    library makes of its text.
   */
  function NumeralValue(d: Doubles, n: Numeral): Option<Value> {
    if n.fraction != [] || n.exponent.Some? || n.whole >= 10 * Threshold(n.negative) then DoubleOf(d, NumeralText(n))
    else Some(Integer(n.negative, n.whole))
  }

  lemma ByteClasses(c: byte)
    ensures IsSpace(c) <==> c as char in " \t\n\r"
    ensures IsDigit(c) <==> c as char in "0123456789"
    ensures IsNumberByte(c) <==> c as char in "0123456789+-.eE"
    ensures IsMark(c) <==> c as char in "[]{},:"
  {
  }

  predicate NumberBytes(t: Bytes) {
    forall i :: 0 <= i < |t| ==> IsNumberByte(t[i])
  }

  /** Reading the digits of a number gives the number, unless one digit too many might not fit. */
  lemma {:induction false} AccumulateDigits(pre: Bytes, n: nat, rest: Bytes, threshold: nat)
    requires threshold > 0
    ensures var text := pre + Digits(n) + rest;
      Accumulate(text, |pre|, 0, threshold)
      == if n / 10 < threshold then Accumulate(text, |pre| + |Digits(n)|, n, threshold) else TooLarge
    decreases n
  {
    var text := pre + Digits(n) + rest;
    if n < 10 {
      assert text[|pre|] == ZERO + n;
    } else {
      var rest' := [ZERO + n % 10] + rest;
      AccumulateDigits(pre, n / 10, rest', threshold);
      assert text == pre + Digits(n / 10) + rest';
      var k := |pre| + |Digits(n / 10)|;
      assert text[k] == rest'[0] == ZERO + n % 10;
      assert 10 * (n / 10) + n % 10 == n;
    }
  }

  lemma WholeBytes(n: Numeral)
    ensures !IsDouble(WholeText(n)) && NumberBytes(WholeText(n)) && |WholeText(n)| > 0
    ensures WholeText(n)[0] == if n.negative then MINUS else Digits(n.whole)[0]
  {
    var pre: Bytes := if n.negative then [MINUS] else [];
    var text := WholeText(n);
    forall i | 0 <= i < |text|
      ensures !IsDoubleByte(text[i]) && (text[i] == MINUS ==> i == 0) && IsNumberByte(text[i])
    {
      if i >= |pre| {
        assert text[i] == Digits(n.whole)[i - |pre|];
      }
    }
  }

  /** An integer's text is read as that integer below the bound, and as a double from there on. */
  lemma WholeRead(d: Doubles, n: Numeral)
    ensures var text := WholeText(n);
      |text| > 0 && NumberOf(d, text)
      == if n.whole >= 10 * Threshold(n.negative) then DoubleOf(d, text) else Some(Integer(n.negative, n.whole))
  {
    var pre: Bytes := if n.negative then [MINUS] else [];
    var text := WholeText(n);
    WholeBytes(n);
    AccumulateDigits(pre, n.whole, [], Threshold(n.negative));
    assert text + [] == text;
  }

  lemma PartBytes(n: Numeral)
    requires GoodNumeral(n)
    ensures NumberBytes(FractionText(n)) && NumberBytes(ExponentText(n))
  {
    if n.exponent.Some? {
      var e := n.exponent.value;
      var t := ExponentText(n);
      forall i | 0 <= i < |t|
        ensures IsNumberByte(t[i])
      {
        if i > |e.sign| {
          assert t[i] == e.digits[i - 1 - |e.sign|];
        } else if i > 0 {
          assert t[i] == e.sign[i - 1];
        }
      }
    }
  }

  lemma NumeralBytes(n: Numeral)
    requires GoodNumeral(n)
    ensures NumberBytes(NumeralText(n)) && |NumeralText(n)| > 0
    ensures IsDigit(NumeralText(n)[0]) || NumeralText(n)[0] == MINUS
  {
    WholeBytes(n);
    PartBytes(n);
    var w, f, e := WholeText(n), FractionText(n), ExponentText(n);
    forall i | 0 <= i < |NumeralText(n)|
      ensures IsNumberByte(NumeralText(n)[i])
    {
      if i < |w| {
        assert NumeralText(n)[i] == w[i];
      } else if i < |w| + |f| {
        assert NumeralText(n)[i] == f[i - |w|];
      } else {
        assert NumeralText(n)[i] == e[i - |w| - |f|];
      }
    }
  }

  /** The reader gives a number its value. */
  lemma NumeralRead(d: Doubles, n: Numeral)
    requires GoodNumeral(n)
    ensures |NumeralText(n)| > 0 && NumberOf(d, NumeralText(n)) == NumeralValue(d, n)
  {
    NumeralBytes(n);
    if n.fraction == [] && n.exponent.None? {
      WholeRead(d, n);
      assert NumeralText(n) == WholeText(n);
    } else {
      var k := |WholeText(n)|;
      assert NumeralText(n)[k] == (FractionText(n) + ExponentText(n))[0];
      assert IsDoubleByte(NumeralText(n)[k]);
    }
  }

  // ---------- Texts ----------

  /** A JSON text. The fields of an object come in any order, and a name may come more than once. */
  datatype Tree =
    | NullTree
    | BoolTree(b: bool)
    | NumberTree(n: Numeral)
    | StringTree(ps: seq<Piece>)
    | ArrayTree(items: seq<Tree>)
    | ObjectTree(fields: seq<Field>)

  datatype Field = Field(name: seq<Piece>, value: Tree)

  predicate GoodTree(t: Tree)
    decreases t, 1
  {
    match t
    case NumberTree(n) => GoodNumeral(n)
    case StringTree(ps) => GoodLiteral(ps)
    case ArrayTree(items) => GoodItems(items)
    case ObjectTree(fields) => GoodFields(fields)
    case _ => true
  }

  predicate GoodItems(items: seq<Tree>)
    decreases items, 0
  {
    items == [] || (GoodTree(items[0]) && GoodItems(items[1..]))
  }

  predicate GoodFields(fields: seq<Field>)
    decreases fields, 0
  {
    fields == [] || (GoodLiteral(fields[0].name) && GoodTree(fields[0].value) && GoodFields(fields[1..]))
  }

  function LeafText(t: Tree): Bytes
    requires !t.ArrayTree? && !t.ObjectTree?
  {
    match t
    case NullTree => NULL_TEXT
    case BoolTree(b) => if b then TRUE_TEXT else FALSE_TEXT
    case NumberTree(n) => NumeralText(n)
    case StringTree(ps) => LiteralText(ps)
  }

  /** The tokens of a text, followed by others. */
  ghost function TreeTokens(t: Tree, rest: seq<Bytes>): seq<Bytes>
    decreases t, 2
  {
    match t
    case ArrayTree(items) => [[OPEN_BRACKET]] + ItemTokens(items, [[CLOSE_BRACKET]] + rest)
    case ObjectTree(fields) => [[OPEN_BRACE]] + FieldTokens(fields, [[CLOSE_BRACE]] + rest)
    case _ => [LeafText(t)] + rest
  }

  ghost function ItemTokens(items: seq<Tree>, rest: seq<Bytes>): seq<Bytes>
    decreases items, 1
  {
    if items == [] then rest else TreeTokens(items[0], AfterItem(items, rest))
  }

  ghost function AfterItem(items: seq<Tree>, rest: seq<Bytes>): seq<Bytes>
    requires items != []
    decreases items, 0
  {
    if |items| == 1 then rest else [[COMMA]] + ItemTokens(items[1..], rest)
  }

  ghost function FieldTokens(fields: seq<Field>, rest: seq<Bytes>): seq<Bytes>
    decreases fields, 1
  {
    if fields == [] then rest
    else [LiteralText(fields[0].name)] + ([[COLON]] + TreeTokens(fields[0].value, AfterField(fields, rest)))
  }

  ghost function AfterField(fields: seq<Field>, rest: seq<Bytes>): seq<Bytes>
    requires fields != []
    decreases fields, 0
  {
    if |fields| == 1 then rest else [[COMMA]] + FieldTokens(fields[1..], rest)
  }

  // ---------- Meaning ----------

  /**
    The value of a text, if it has one: an unpaired high surrogate and a number that the C library refuses have none.
    Strings and names are C strings, and of several fields with one name the last one counts.
   */
  function Meaning(d: Doubles, t: Tree): Option<Value>
    requires GoodTree(t)
    decreases t, 1
  {
    match t
    case NullTree => Some(Null)
    case BoolTree(b) => Some(Bool(b))
    case NumberTree(n) => NumeralValue(d, n)
    case StringTree(ps) => (
      match Contents(ps)
      case None => None
      case Some(s) => Some(String(UpToNul(s))))
    case ArrayTree(items) => AsArray([], Meanings(d, items))
    case ObjectTree(fields) => AsObject(Fields(d, [], fields))
  }

  function Meanings(d: Doubles, items: seq<Tree>): Option<seq<Value>>
    requires GoodItems(items)
    decreases items, 0
  {
    if items == [] then Some([])
    else
      match Meaning(d, items[0])
      case None => None
      case Some(w) =>
        match Meanings(d, items[1..])
        case None => None
        case Some(ws) => Some([w] + ws)
  }

  /** The members after the given ones are joined by those of the fields. */
  function Fields(d: Doubles, ms: seq<Member>, fields: seq<Field>): Option<seq<Member>>
    requires GoodFields(fields)
    decreases fields, 0
  {
    if fields == [] then Some(ms)
    else
      match Contents(fields[0].name)
      case None => None
      case Some(name) =>
        match Meaning(d, fields[0].value)
        case None => None
        case Some(w) => Fields(d, Put(ms, UpToNul(name), w), fields[1..])
  }

  function AsArray(es: seq<Value>, r: Option<seq<Value>>): Option<Value> {
    match r
    case None => None
    case Some(ws) => Some(Array(es + ws))
  }

  function AsObject(r: Option<seq<Member>>): Option<Value> {
    match r
    case None => None
    case Some(ms) => Some(Object(ms))
  }

  /** Whether a field of this name occurs. */
  predicate Names(fields: seq<Field>, name: Bytes)
    requires GoodFields(fields)
  {
    fields != []
    && ((Contents(fields[0].name).Some? && UpToNul(Contents(fields[0].name).value) == name) || Names(fields[1..], name))
  }

  /** The last field of a name. */
  function LastOf(fields: seq<Field>, name: Bytes): (t: Tree)
    requires GoodFields(fields) && Names(fields, name)
    ensures GoodTree(t)
  {
    if Names(fields[1..], name) then LastOf(fields[1..], name) else fields[0].value
  }

  /**
    An object has its members in the order of their names, one for each name a field has, with the value of the last
    field of that name; a name without a field keeps what it had.
   */
  lemma {:induction false} LastFieldCounts(d: Doubles, ms: seq<Member>, fields: seq<Field>, name: Bytes)
    requires GoodFields(fields) && Sorted(ms) && Fields(d, ms, fields).Some?
    ensures var r := Fields(d, ms, fields).value;
      && Sorted(r) && (HasMember(r, name) <==> Names(fields, name) || HasMember(ms, name))
      && if Names(fields, name) then Meaning(d, LastOf(fields, name)) == Some(Lookup(r, name))
         else Lookup(r, name) == Lookup(ms, name)
    decreases fields
  {
    if fields != [] {
      var key, w := UpToNul(Contents(fields[0].name).value), Meaning(d, fields[0].value).value;
      PutLookup(ms, key, w, name);
      PutNames(ms, key, w, name);
      LastFieldCounts(d, Put(ms, key, w), fields[1..], name);
    }
  }
}
