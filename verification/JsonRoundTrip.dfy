/** Reading any text of RFC 8259, and reading back what the writers print. */
module JsonRoundTrip {
  import opened JsonText
  import opened Options
  import opened JsonGrammar
  import opened JsonLayout
  import opened JsonUnicode
  import opened JsonSyntax
  import opened JsonLoose
  import opened JsonAccepts

  // ---------- The tokens of a text ----------

  /** Where a number can end: before white space, what the writers put after a value, or the end of the document. */
  ghost predicate Stops(doc: Bytes, p: nat) {
    p <= |doc| && (p < |doc| ==> IsSpace(doc[p]) || doc[p] == COMMA || doc[p] == CLOSE_BRACKET || doc[p] == CLOSE_BRACE)
  }

  lemma {:induction false} ScanToStop(doc: Bytes, p: nat, end: nat)
    requires p <= end && Stops(doc, end)
    requires forall i :: p <= i < end ==> IsNumberByte(doc[i])
    ensures ScanNumber(doc, p) == end
    decreases end - p
  {
    if p < end {
      ScanToStop(doc, p + 1, end);
    }
  }

  /** A run of number bytes is one token, if something ends it. */
  lemma NumberToken(doc: Bytes, p: nat, text: Bytes)
    requires IsNumber(text) && Here(doc, p, text) && Stops(doc, p + |text|)
    ensures TokenAt(doc, p).end == p + |text|
  {
    forall i | p <= i < p + |text|
      ensures IsNumberByte(doc[i])
    {
      HereAt(doc, p, text, i - p);
    }
    ScanToStop(doc, p + 1, p + |text|);
  }

  lemma WordToken(doc: Bytes, q: nat, word: Bytes)
    requires (word == NULL_TEXT || word == TRUE_TEXT || word == FALSE_TEXT) && Here(doc, q, word)
    ensures TokenAt(doc, q).end == q + |word|
  {
    HereAt(doc, q, word, 0);
    assert word == word[..1] + word[1..];
    HereSplit(doc, q, word[..1], word[1..]);
    HereSlice(doc, q + 1, word[1..]);
  }

  /** A text that is one token. */
  ghost predicate IsLexeme(t: Bytes) {
    || (|t| == 1 && IsMark(t[0])) || t == NULL_TEXT || t == TRUE_TEXT || t == FALSE_TEXT || IsNumber(t)
    || exists ps :: GoodLiteral(ps) && t == LiteralText(ps)
  }

  /** What may follow a value: the end, or a comma or closing bracket of either kind. */
  ghost predicate Ends(rest: seq<Bytes>) {
    rest == [] || rest[0] == [COMMA] || rest[0] == [CLOSE_BRACKET] || rest[0] == [CLOSE_BRACE]
  }

  /** Every text is one token, and after each number there is something that ends it. */
  ghost predicate Apart(ts: seq<Bytes>)
    decreases |ts|
  {
    ts == [] || (IsLexeme(ts[0]) && (IsNumber(ts[0]) ==> Ends(ts[1..])) && Apart(ts[1..]))
  }

  lemma ApartCons(t: Bytes, rest: seq<Bytes>)
    requires IsLexeme(t) && (IsNumber(t) ==> Ends(rest)) && Apart(rest)
    ensures Apart([t] + rest)
  {
    assert ([t] + rest)[1..] == rest;
  }

  lemma EndStops(doc: Bytes, p: nat, rest: seq<Bytes>)
    requires LaidAt(doc, p, rest) && Ends(rest)
    ensures Stops(doc, p)
  {
    if rest == [] {
      LaidEnd(doc, p);
    } else {
      var q := LaidSkip(doc, p, rest);
      HereAt(doc, q, rest[0], 0);
    }
  }

  lemma LexemeToken(doc: Bytes, q: nat, text: Bytes)
    requires q <= |doc| && IsLexeme(text) && Here(doc, q, text) && (IsNumber(text) ==> Stops(doc, q + |text|))
    ensures TextOf(doc, TokenAt(doc, q)) == text && TokenAt(doc, q).end == q + |text|
  {
    HereSlice(doc, q, text);
    if |text| == 1 && IsMark(text[0]) {
      HereAt(doc, q, text, 0);
    } else if text == NULL_TEXT || text == TRUE_TEXT || text == FALSE_TEXT {
      WordToken(doc, q, text);
    } else if IsNumber(text) {
      NumberToken(doc, q, text);
    } else {
      var ps :| GoodLiteral(ps) && text == LiteralText(ps);
      LiteralToken(doc, q, ps);
    }
  }

  /** What is laid out in a document are its tokens. */
  lemma {:induction false} LaidPast(doc: Bytes, p: nat, ts: seq<Bytes>)
    requires p <= |doc| && LaidAt(doc, p, ts) && Apart(ts)
    ensures Past(doc, p, ts).Some?
    decreases |ts|
  {
    if ts != [] {
      var text, rest := ts[0], ts[1..];
      assert ts == [text] + rest;
      var q := LaidStep(doc, p, text, rest);
      LaidToken(doc, p, q, text, rest);
      LaidPast(doc, q + |text|, rest);
    }
  }

  lemma LaidToken(doc: Bytes, p: nat, q: nat, text: Bytes, rest: seq<Bytes>)
    requires p <= |doc| && SkipSpaces(doc, p) == q && Here(doc, q, text) && LaidAt(doc, q + |text|, rest)
    requires IsLexeme(text) && (IsNumber(text) ==> Ends(rest))
    ensures TextOf(doc, NextToken(doc, p)) == text && NextToken(doc, p).end == q + |text|
  {
    if IsNumber(text) {
      EndStops(doc, q + |text|, rest);
    }
    LexemeToken(doc, q, text);
  }

  lemma LeafLexeme(t: Tree)
    requires GoodTree(t) && !t.ArrayTree? && !t.ObjectTree?
    ensures IsLexeme(LeafText(t))
  {
    if t.NumberTree? {
      NumeralBytes(t.n);
    }
  }

  lemma {:induction false} TreeApart(t: Tree, rest: seq<Bytes>)
    requires GoodTree(t) && Apart(rest) && Ends(rest)
    ensures Apart(TreeTokens(t, rest))
    decreases t, 1
  {
    match t
    case ArrayTree(items) =>
      ApartCons([CLOSE_BRACKET], rest);
      ItemsApart(items, [[CLOSE_BRACKET]] + rest);
      ApartCons([OPEN_BRACKET], ItemTokens(items, [[CLOSE_BRACKET]] + rest));
    case ObjectTree(fields) =>
      ApartCons([CLOSE_BRACE], rest);
      FieldsApart(fields, [[CLOSE_BRACE]] + rest);
      ApartCons([OPEN_BRACE], FieldTokens(fields, [[CLOSE_BRACE]] + rest));
    case _ =>
      LeafLexeme(t);
      ApartCons(LeafText(t), rest);
  }

  lemma {:induction false} ItemsApart(items: seq<Tree>, rest: seq<Bytes>)
    requires GoodItems(items) && Apart(rest) && Ends(rest)
    ensures Apart(ItemTokens(items, rest))
    decreases items, 0
  {
    if items != [] {
      if |items| > 1 {
        ItemsApart(items[1..], rest);
        ApartCons([COMMA], ItemTokens(items[1..], rest));
      }
      TreeApart(items[0], AfterItem(items, rest));
    }
  }

  lemma {:induction false} FieldsApart(fields: seq<Field>, rest: seq<Bytes>)
    requires GoodFields(fields) && Apart(rest) && Ends(rest)
    ensures Apart(FieldTokens(fields, rest))
    decreases fields, 0
  {
    if fields != [] {
      var name, after := fields[0].name, AfterField(fields, rest);
      if |fields| > 1 {
        FieldsApart(fields[1..], rest);
        ApartCons([COMMA], FieldTokens(fields[1..], rest));
      }
      TreeApart(fields[0].value, after);
      ApartCons([COLON], TreeTokens(fields[0].value, after));
      ApartCons(LiteralText(name), [[COLON]] + TreeTokens(fields[0].value, after));
    }
  }

  // ---------- Any text of RFC 8259 ----------

  /** A text of RFC 8259 is a loose text. */
  function Strict(t: Tree): Loose
    decreases t, 1
  {
    Loose([], match t
      case NullTree => LooseNull
      case BoolTree(b) => LooseBool(b)
      case NumberTree(n) => LooseNumeral(NumeralText(n))
      case StringTree(ps) => LooseString(ps)
      case ArrayTree(items) => if items == [] then EmptyArray else LooseArray(StrictItems(items))
      case ObjectTree(fields) => LooseObject(StrictFields(fields)))
  }

  function StrictItems(items: seq<Tree>): Items
    requires items != []
    decreases items, 0
  {
    var first := Item(Strict(items[0]), []);
    if |items| == 1 then LastItem(first) else MoreItems(first, [COMMA], StrictItems(items[1..]))
  }

  function StrictFields(fields: seq<Field>): Entries
    decreases fields, 0
  {
    if fields == [] then NoEntry([])
    else
      var first := Entry([], fields[0].name, Strict(fields[0].value), []);
      if |fields| == 1 then LastEntry(first) else MoreEntries(first, [COMMA], StrictFields(fields[1..]))
  }

  lemma {:induction false} StrictGood(f: Features, t: Tree)
    requires GoodTree(t)
    ensures GoodLoose(f, Strict(t))
    decreases t, 1
  {
    match t
    case NumberTree(n) => NumeralBytes(n);
    case ArrayTree(items) =>
      if items != [] {
        StrictItemsGood(f, items);
      }
    case ObjectTree(fields) => StrictFieldsGood(f, fields, Some([]));
    case _ =>
  }

  lemma {:induction false} StrictItemsGood(f: Features, items: seq<Tree>)
    requires GoodItems(items) && items != []
    ensures GoodElements(f, StrictItems(items))
    decreases items, 0
  {
    StrictGood(f, items[0]);
    if |items| > 1 {
      StrictItemsGood(f, items[1..]);
    }
  }

  lemma {:induction false} StrictFieldsGood(f: Features, fields: seq<Field>, last: Option<Bytes>)
    requires GoodFields(fields) && (fields == [] ==> last == Some([]))
    ensures GoodEntries(f, StrictFields(fields), last)
    decreases fields, 0
  {
    if fields != [] {
      StrictGood(f, fields[0].value);
      if |fields| > 1 {
        StrictFieldsGood(f, fields[1..], Spelling(fields[0].name));
      }
    }
  }

  lemma {:induction false} StrictMeaning(d: Doubles, t: Tree)
    requires GoodTree(t)
    ensures LooseMeaning(d, Strict(t)) == Meaning(d, t)
    decreases t, 1
  {
    match t
    case NumberTree(n) =>
      NumeralBytes(n);
      NumeralRead(d, n);
      LooseNumberRead(d, NumeralText(n));
    case ArrayTree(items) =>
      if items == [] {
        AsArraySame([]);
      } else {
        StrictMeanings(d, items);
      }
    case ObjectTree(fields) => StrictMembers(d, [], fields);
    case _ =>
  }

  lemma {:induction false} StrictMeanings(d: Doubles, items: seq<Tree>)
    requires GoodItems(items) && items != []
    ensures ItemMeanings(d, StrictItems(items)) == Meanings(d, items)
    decreases items, 0
  {
    StrictMeaning(d, items[0]);
    if |items| > 1 {
      StrictMeanings(d, items[1..]);
    } else {
      var none: seq<Value> := [];
      assert items[1..] == [] && Meanings(d, items[1..]) == Some(none);
      assert forall w: Value :: [w] + none == [w];
    }
  }

  lemma {:induction false} StrictMembers(d: Doubles, ms: seq<Member>, fields: seq<Field>)
    requires GoodFields(fields)
    ensures EntryMembers(d, ms, StrictFields(fields)) == Fields(d, ms, fields)
    decreases fields, 0
  {
    if fields != [] {
      var first := StrictFields(fields).entry;
      StrictMeaning(d, fields[0].value);
      var r := EntryMember(d, ms, first);
      if |fields| == 1 {
        assert fields[1..] == [];
      } else if r.Some? {
        StrictMembers(d, r.value, fields[1..]);
      }
    }
  }

  lemma {:induction false} StrictTokens(t: Tree, rest: seq<Bytes>)
    ensures LooseTokens(Strict(t)) + rest == TreeTokens(t, rest)
    decreases t, 1
  {
    NoGap(BodyTokens(Strict(t).body));
    match t
    case ArrayTree(items) =>
      if items == [] {
        Regrouped([[OPEN_BRACKET]], [[CLOSE_BRACKET]], rest);
        assert BodyTokens(EmptyArray) == [[OPEN_BRACKET]] + [[CLOSE_BRACKET]];
      } else {
        StrictItemTokens(items, rest);
        Regrouped([[OPEN_BRACKET]], ItemsTokens(StrictItems(items)), rest);
      }
    case ObjectTree(fields) =>
      StrictFieldTokens(fields, rest);
      Regrouped([[OPEN_BRACE]], EntriesTokens(StrictFields(fields)), rest);
    case _ =>
      assert BodyTokens(Strict(t).body) == [LeafText(t)];
  }

  lemma {:induction false} StrictItemTokens(items: seq<Tree>, rest: seq<Bytes>)
    requires items != []
    ensures ItemsTokens(StrictItems(items)) + rest == ItemTokens(items, [[CLOSE_BRACKET]] + rest)
    decreases items, 0
  {
    var after := AfterItem(items, [[CLOSE_BRACKET]] + rest);
    var tail := if |items| == 1 then [[CLOSE_BRACKET]] else [[COMMA]] + ItemsTokens(StrictItems(items[1..]));
    StrictTokens(items[0], after);
    if |items| > 1 {
      StrictItemTokens(items[1..], rest);
      Regrouped([[COMMA]], ItemsTokens(StrictItems(items[1..])), rest);
    }
    NoGap(tail);
    Regrouped(LooseTokens(Strict(items[0])), tail, rest);
  }

  lemma NoGap(ts: seq<Bytes>)
    ensures [] + ts == ts && ts + [] == ts
  {
  }

  lemma {:induction false} StrictFieldTokens(fields: seq<Field>, rest: seq<Bytes>)
    ensures EntriesTokens(StrictFields(fields)) + rest == FieldTokens(fields, [[CLOSE_BRACE]] + rest)
    decreases fields, 0
  {
    if fields == [] {
      NoGap([[CLOSE_BRACE]]);
    } else {
      var name, value := [LiteralText(fields[0].name)], LooseTokens(Strict(fields[0].value));
      var tail := if |fields| == 1 then [[CLOSE_BRACE]] else [[COMMA]] + EntriesTokens(StrictFields(fields[1..]));
      StrictTokens(fields[0].value, AfterField(fields, [[CLOSE_BRACE]] + rest));
      if |fields| > 1 {
        StrictFieldTokens(fields[1..], rest);
        Regrouped([[COMMA]], EntriesTokens(StrictFields(fields[1..])), rest);
      }
      NoGap(value);
      NoGap(name + ([[COLON]] + value));
      Regrouped4(name, [[COLON]], value, tail, rest);
    }
  }

  lemma Regrouped4(a: seq<Bytes>, b: seq<Bytes>, c: seq<Bytes>, tail: seq<Bytes>, rest: seq<Bytes>)
    ensures a + (b + c) + tail + rest == a + (b + (c + (tail + rest)))
  {
    Regrouped(a + (b + c), tail, rest);
    Regrouped(a, b + c, tail + rest);
    Regrouped(b, c, tail + rest);
  }

  /**
    Parsing a document that is a text of RFC 8259, with any white space: it succeeds exactly if the text has a value and
    that is what the reader insists on at the root, and gives that value.
   */
  lemma TextIsRead(c: Config, doc: Bytes, t: Tree, root: Value)
    requires GoodTree(t) && LaidAt(doc, 0, TreeTokens(t, []))
    ensures var o, m := ParseDocument(c, doc, root), Meaning(c.doubles, t);
      && (o.ok <==> m.Some? && (c.features.strictRoot ==> t.NullTree? || t.ArrayTree? || t.ObjectTree?))
      && (o.ok ==> o.value == m.value && o.errors == [])
  {
    TreeApart(t, []);
    LaidPast(doc, 0, TreeTokens(t, []));
    StrictGood(c.features, t);
    StrictMeaning(c.doubles, t);
    StrictTokens(t, []);
    NoGap(LooseTokens(Strict(t)));
    StartIsRead(c, doc, Strict(t), root);
  }

  lemma AsArraySame(es: seq<Value>)
    ensures AsArray([], Some(es)) == Some(Array(es))
  {
    assert [] + es == es;
  }

  // ---------- The texts of values ----------

  /** The integers that a number token can be turned into without going through a double. */
  predicate ReadableInt(i: int) {
    -9223372036854775799 <= i <= MAX_INT
  }

  predicate ReadableUInt(u: nat) {
    MAX_INT < u < 18446744073709551610
  }

  /**
    Values without doubles as the library can hold them: 64-bit integers, C strings, and members sorted by name.
   */
  predicate Holdable(v: Value) {
    match v
    case Int(i) => -MAX_INT - 1 <= i <= MAX_INT
    case UInt(u) => u <= MAX_UINT
    case Real(_) => false
    case String(s) => NulFree(s)
    case Array(es) => forall i :: 0 <= i < |es| ==> Holdable(es[i])
    case Object(ms) => Sorted(ms) && forall i :: 0 <= i < |ms| ==> NulFree(ms[i].name) && Holdable(ms[i].value)
    case _ => true
  }

  /** All integers in a value are in the range in which the reader keeps their type and value. */
  predicate InRange(v: Value) {
    match v
    case Int(i) => ReadableInt(i)
    case UInt(u) => ReadableUInt(u)
    case Array(es) => forall i :: 0 <= i < |es| ==> InRange(es[i])
    case Object(ms) => forall i :: 0 <= i < |ms| ==> InRange(ms[i].value)
    case _ => true
  }

  /** A byte as the writers show it. */
  function PieceOf(b: byte): (x: Piece)
    ensures b != 0 ==> GoodPiece(x)
  {
    if b == 0x08 then Short(0x62)
    else if b == 0x0C then Short(0x66)
    else if b == 0x0A then Short(0x6E)
    else if b == 0x0D then Short(0x72)
    else if b == 0x09 then Short(0x74)
    else if b == QUOTE || b == BACKSLASH then Short(b)
    else if IsControl(b) then Escaped([ZERO, ZERO, HexDigit(b / 16), HexDigit(b % 16)])
    else Raw(b)
  }

  function PiecesOf(s: Bytes): seq<Piece> {
    if s == [] then [] else [PieceOf(s[0])] + PiecesOf(s[1..])
  }

  /** The numeral the writers show for an integer. */
  function NumeralOf(i: int): Numeral {
    Numeral(i < 0, if i < 0 then -i else i, [], None)
  }

  /** The tree of what the writers print for a value without doubles. */
  function TreeOf(v: Value): Tree
    requires Holdable(v)
    decreases v, 1
  {
    match v
    case Null => NullTree
    case Bool(b) => BoolTree(b)
    case Int(i) => NumberTree(NumeralOf(i))
    case UInt(u) => NumberTree(NumeralOf(u))
    case String(s) => StringTree(PiecesOf(s))
    case Array(es) => ArrayTree(ItemsOf(es))
    case Object(ms) => ObjectTree(FieldsOf(ms))
  }

  function ItemsOf(es: seq<Value>): (items: seq<Tree>)
    requires forall i :: 0 <= i < |es| ==> Holdable(es[i])
    ensures |items| == |es|
    decreases es, 0
  {
    if es == [] then [] else [TreeOf(es[0])] + ItemsOf(es[1..])
  }

  function FieldsOf(ms: seq<Member>): (fields: seq<Field>)
    requires forall i :: 0 <= i < |ms| ==> Holdable(ms[i].value)
    ensures |fields| == |ms|
    decreases ms, 0
  {
    if ms == [] then [] else [Field(PiecesOf(ms[0].name), TreeOf(ms[0].value))] + FieldsOf(ms[1..])
  }

  lemma PieceOfByte(b: byte)
    ensures PieceText(PieceOf(b)) == EscapeByte(b)
    ensures b != 0 ==> Contents([PieceOf(b)]) == Some([b])
  {
    if IsControl(b) && PieceOf(b).Escaped? {
      HexDigitValue(b / 16);
      HexDigitValue(b % 16);
      assert Utf8(b) == [b];
    }
    assert [b] + [] == [b];
  }

  lemma HexDigitValue(h: nat)
    requires h < 16
    ensures HexValue(HexDigit(h)) == Some(h)
  {
  }

  /** A quoted string is a literal, and its contents are the string: escaping is undone by reading. */
  lemma {:induction false} LiteralOf(s: Bytes)
    ensures PiecesText(PiecesOf(s)) == EscapeAll(s) && LiteralText(PiecesOf(s)) == Quote(s)
    ensures NulFree(s) ==> GoodLiteral(PiecesOf(s)) && Contents(PiecesOf(s)) == Some(s)
    decreases s
  {
    if s != [] {
      LiteralOf(s[1..]);
      PieceOfByte(s[0]);
      assert s == [s[0]] + s[1..];
    }
  }

  /** The string codec on its own: for every C string, reading its quoted form gives it back. */
  lemma QuoteReadsBack(s: Bytes, rest: Bytes)
    requires NulFree(s)
    ensures var t := NextToken(Quote(s) + rest, 0);
      t == Token(StringToken, 0, |Quote(s)|) && StringOf(Quote(s) + rest, t) == Done(s)
  {
    var doc := Quote(s) + rest;
    LiteralOf(s);
    assert doc[0..0 + |Quote(s)|] == Quote(s);
    HereSlice(doc, 0, Quote(s));
    LiteralToken(doc, 0, PiecesOf(s));
  }

  /** A 64-bit integer comes back as itself exactly when it is in the readable range of its type. */
  lemma NumberReadsBack(d: Doubles, v: Value)
    requires (v.Int? || v.UInt?) && Holdable(v)
    ensures GoodTree(TreeOf(v)) && LeafText(TreeOf(v)) == Scalar(d, v)
    ensures Meaning(d, TreeOf(v)) == Some(v) <==> InRange(v)
  {
    if v.Int? {
      IntegerText(v.i);
      IntMeaning(d, v.i);
    } else {
      IntegerText(v.u);
      UIntMeaning(d, v.u);
    }
  }

  lemma Bounds()
    ensures 10 * Threshold(true) == 9223372036854775800 && 10 * Threshold(false) == 18446744073709551610
  {
  }

  lemma IntMeaning(d: Doubles, i: int)
    requires -MAX_INT - 1 <= i <= MAX_INT
    ensures NumeralValue(d, NumeralOf(i)) == Some(Int(i)) <==> ReadableInt(i)
  {
    Bounds();
  }

  lemma UIntMeaning(d: Doubles, u: nat)
    requires u <= MAX_UINT
    ensures NumeralValue(d, NumeralOf(u)) == Some(UInt(u)) <==> ReadableUInt(u)
  {
    Bounds();
  }

  lemma IntegerText(i: int)
    ensures NumeralText(NumeralOf(i)) == IntText(i)
  {
    var n := NumeralOf(i);
    assert NumeralText(n) == WholeText(n);
    assert [] + Digits(n.whole) == Digits(n.whole);
  }

  // ---------- The tokens of values ----------

  lemma {:induction false} TreeOfValue(d: Doubles, v: Value, rest: seq<Bytes>)
    requires Holdable(v)
    ensures GoodTree(TreeOf(v)) && TreeTokens(TreeOf(v), rest) == Tokens(d, v, rest)
    decreases v, 1
  {
    match v
    case Int(_) => NumberReadsBack(d, v);
    case UInt(_) => NumberReadsBack(d, v);
    case String(s) => LiteralOf(s);
    case Array(es) => ItemsOfValues(d, es, [[CLOSE_BRACKET]] + rest);
    case Object(ms) => FieldsOfMembers(d, ms, [[CLOSE_BRACE]] + rest);
    case _ =>
  }

  lemma {:induction false} ItemsOfValues(d: Doubles, es: seq<Value>, rest: seq<Bytes>)
    requires forall i :: 0 <= i < |es| ==> Holdable(es[i])
    ensures GoodItems(ItemsOf(es)) && ItemTokens(ItemsOf(es), rest) == ElemTokens(d, es, rest)
    decreases es, 0
  {
    if es != [] {
      ItemsOfValues(d, es[1..], rest);
      TreeOfValue(d, es[0], AfterElem(d, es, rest));
      assert ItemsOf(es)[1..] == ItemsOf(es[1..]);
    }
  }

  lemma {:induction false} FieldsOfMembers(d: Doubles, ms: seq<Member>, rest: seq<Bytes>)
    requires forall i :: 0 <= i < |ms| ==> NulFree(ms[i].name) && Holdable(ms[i].value)
    ensures GoodFields(FieldsOf(ms)) && FieldTokens(FieldsOf(ms), rest) == MemberTokens(d, ms, rest)
    decreases ms, 0
  {
    if ms != [] {
      FieldsOfMembers(d, ms[1..], rest);
      LiteralOf(ms[0].name);
      TreeOfValue(d, ms[0].value, AfterMember(d, ms, rest));
      assert FieldsOf(ms)[1..] == FieldsOf(ms[1..]);
    }
  }

  // ---------- Round trip ----------

  /** What a value's text means is the value exactly if its integers are in range. */
  lemma {:induction false} MeaningSame(d: Doubles, v: Value)
    requires Holdable(v)
    ensures GoodTree(TreeOf(v)) && (Meaning(d, TreeOf(v)) == Some(v) <==> InRange(v))
    decreases v, 1
  {
    match v
    case Int(_) => NumberReadsBack(d, v);
    case UInt(_) => NumberReadsBack(d, v);
    case String(s) => LiteralOf(s);
    case Array(es) =>
      MeaningsSame(d, es);
      ArrayMeans(d, es);
    case Object(ms) => ObjectSame(d, ms);
    case _ =>
  }

  lemma ArrayMeans(d: Doubles, es: seq<Value>)
    requires Holdable(Array(es)) && GoodItems(ItemsOf(es))
    ensures Meaning(d, TreeOf(Array(es))) == Some(Array(es)) <==> Meanings(d, ItemsOf(es)) == Some(es)
  {
    if Meanings(d, ItemsOf(es)).Some? {
      AsArraySame(Meanings(d, ItemsOf(es)).value);
    }
  }

  lemma {:induction false} ObjectSame(d: Doubles, ms: seq<Member>)
    requires Holdable(Object(ms))
    ensures GoodTree(TreeOf(Object(ms)))
    ensures Meaning(d, TreeOf(Object(ms))) == Some(Object(ms)) <==> InRange(Object(ms))
    decreases ms, 1
  {
    FieldsSame(d, [], ms);
    assert [] + ms == ms;
  }

  lemma {:induction false} MeaningsSame(d: Doubles, es: seq<Value>)
    requires forall i :: 0 <= i < |es| ==> Holdable(es[i])
    ensures GoodItems(ItemsOf(es))
    ensures Meanings(d, ItemsOf(es)) == Some(es) <==> forall i :: 0 <= i < |es| ==> InRange(es[i])
    decreases es, 0
  {
    if es != [] {
      MeaningSame(d, es[0]);
      MeaningsSame(d, es[1..]);
      assert ItemsOf(es)[1..] == ItemsOf(es[1..]);
      assert es == [es[0]] + es[1..];
      assert forall i :: 1 <= i < |es| ==> es[i] == es[1..][i - 1];
    }
  }

  /** Members after those read so far, in the order of their names. */
  ghost predicate Pending(ms: seq<Member>, vs: seq<Member>) {
    && Sorted(vs) && (forall i :: 0 <= i < |vs| ==> NulFree(vs[i].name) && Holdable(vs[i].value))
    && forall i, j :: 0 <= i < |ms| && 0 <= j < |vs| ==> Less(ms[i].name, vs[j].name)
  }

  /** Members in the order of their names are appended one by one. */
  lemma PutPending(ms: seq<Member>, vs: seq<Member>, w: Value)
    requires |vs| > 0 && Pending(ms, vs)
    ensures Put(ms, vs[0].name, w) == ms + [Member(vs[0].name, w)]
    ensures Pending(ms + [Member(vs[0].name, w)], vs[1..])
  {
    LessIrreflexive(vs[0].name);
    assert LowerBound(ms, vs[0].name) == |ms|;
  }

  lemma {:induction false} FieldsSame(d: Doubles, ms: seq<Member>, vs: seq<Member>)
    requires Pending(ms, vs)
    ensures GoodFields(FieldsOf(vs))
    ensures var r := Fields(d, ms, FieldsOf(vs));
      && (r.Some? ==> |r.value| == |ms| + |vs| && r.value[..|ms|] == ms)
      && (r == Some(ms + vs) <==> forall i :: 0 <= i < |vs| ==> InRange(vs[i].value))
    decreases vs, 0
  {
    if vs == [] {
      assert ms + vs == ms;
    } else {
      MeaningSame(d, vs[0].value);
      var w := if Meaning(d, TreeOf(vs[0].value)).Some? then Meaning(d, TreeOf(vs[0].value)).value else Null;
      PutPending(ms, vs, w);
      FieldsSame(d, ms + [Member(vs[0].name, w)], vs[1..]);
      FieldsUnfold(d, ms, vs, w);
      FieldsSplit(ms, vs, w, Fields(d, ms, FieldsOf(vs)));
      RestInRange(vs);
    }
  }

  lemma RestInRange(vs: seq<Member>)
    requires |vs| > 0
    ensures (forall i :: 0 <= i < |vs| ==> InRange(vs[i].value))
      <==> InRange(vs[0].value) && forall i :: 0 <= i < |vs[1..]| ==> InRange(vs[1..][i].value)
  {
    assert forall i :: 1 <= i < |vs| ==> vs[i] == vs[1..][i - 1];
  }

  /** The first member is put among those read so far, if its value can be read. */
  lemma FieldsUnfold(d: Doubles, ms: seq<Member>, vs: seq<Member>, w: Value)
    requires |vs| > 0 && Pending(ms, vs) && GoodTree(TreeOf(vs[0].value)) && GoodFields(FieldsOf(vs[1..]))
    requires Meaning(d, TreeOf(vs[0].value)).Some? ==> Meaning(d, TreeOf(vs[0].value)) == Some(w)
    ensures GoodFields(FieldsOf(vs))
    ensures Fields(d, ms, FieldsOf(vs))
      == if Meaning(d, TreeOf(vs[0].value)).None? then None
         else Fields(d, ms + [Member(vs[0].name, w)], FieldsOf(vs[1..]))
  {
    LiteralOf(vs[0].name);
    PutPending(ms, vs, w);
    assert FieldsOf(vs)[1..] == FieldsOf(vs[1..]);
  }

  lemma FieldsSplit(ms: seq<Member>, vs: seq<Member>, w: Value, r: Option<seq<Member>>)
    requires |vs| > 0
    requires r.Some? ==> var n := |ms| + 1;
      |r.value| == n + |vs[1..]| && r.value[..n] == ms + [Member(vs[0].name, w)]
    ensures r.Some? ==> r.value[..|ms|] == ms
    ensures r == Some(ms + vs) <==> r == Some(ms + [Member(vs[0].name, w)] + vs[1..]) && w == vs[0].value
  {
    var m := Member(vs[0].name, w);
    Regrouped(ms, [m], vs[1..]);
    if r.Some? {
      assert r.value[..|ms|] == r.value[..|ms| + 1][..|ms|];
      assert r.value[|ms|] == r.value[..|ms| + 1][|ms|] == m;
      if r == Some(ms + vs) {
        assert (ms + vs)[|ms|] == vs[0];
      }
    }
    if w == vs[0].value {
      assert vs == [m] + vs[1..];
    }
  }

  lemma {:induction false} HoldableShows(d: Doubles, v: Value)
    requires Holdable(v)
    ensures ShowsPlain(d, v)
  {
    match v
    case Array(es) =>
      forall i | 0 <= i < |es|
        ensures ShowsPlain(d, es[i])
      {
        HoldableShows(d, es[i]);
      }
    case Object(ms) =>
      forall i | 0 <= i < |ms|
        ensures ShowsPlain(d, ms[i].value)
      {
        HoldableShows(d, ms[i].value);
      }
    case _ =>
  }

  /** Parsing a document gives a value back, without an error. */
  ghost predicate ReadsBack(c: Config, doc: Bytes, root: Value, v: Value) {
    var o := ParseDocument(c, doc, root);
    o.ok && o.value == v
  }

  /** All integers are in the readable range, and the root is what the reader insists on. */
  ghost predicate Readable(c: Config, v: Value) {
    InRange(v) && (c.features.strictRoot ==> v.Null? || v.Array? || v.Object?)
  }

  /**
    Parsing a document that holds the tokens of a value, in whatever layout, gives the value back exactly
    when all its integers are in the readable range; a reader that insists on a container refuses other roots.
   */
  lemma AnyLayoutReadsBack(c: Config, doc: Bytes, v: Value, root: Value)
    requires Holdable(v) && LaidAt(doc, 0, Tokens(c.doubles, v, []))
    ensures ReadsBack(c, doc, root, v) <==> Readable(c, v)
  {
    TreeOfValue(c.doubles, v, []);
    TextIsRead(c, doc, TreeOf(v), root);
    MeaningSame(c.doubles, v);
  }

  lemma CompactLaid(d: Doubles, yaml: bool, v: Value)
    requires ShowsPlain(d, v)
    ensures LaidAt(Fast(d, yaml, v) + [NEWLINE], 0, Tokens(d, v, []))
  {
    var t := Fast(d, yaml, v);
    var doc := t + [NEWLINE];
    HereSlice(doc, 0, t);
    assert SkipSpaces(doc, |t|) == |doc|;
    LaidEnd(doc, |t|);
    FastLaid(d, yaml, doc, 0, v, |t|, []);
  }

  /** The same for what the compact writer prints, in both its forms. */
  lemma RoundTrip(c: Config, yaml: bool, v: Value, root: Value)
    requires Holdable(v)
    ensures ReadsBack(c, Fast(c.doubles, yaml, v) + [NEWLINE], root, v) <==> Readable(c, v)
  {
    HoldableShows(c.doubles, v);
    CompactLaid(c.doubles, yaml, v);
    AnyLayoutReadsBack(c, Fast(c.doubles, yaml, v) + [NEWLINE], v, root);
  }
}
