/** What every read guarantees, whatever the bytes of the document are. */
module JsonReads {
  import opened JsonText
  import opened Options
  import opened JsonGrammar
  import opened JsonLayout
  import opened JsonUnicode
  import opened JsonSyntax
  import opened JsonLoose
  import opened JsonAccepts
  import opened JsonRoundTrip

  /** Values whose strings are C strings, whose members are sorted, and whose integers are in the readable range. */
  predicate Regular(v: Value) {
    match v
    case Int(i) => ReadableInt(i)
    case UInt(u) => ReadableUInt(u)
    case String(s) => NulFree(s)
    case Array(es) => AllRegular(es)
    case Object(ms) => RegularMembers(ms)
    case _ => true
  }

  predicate AllRegular(es: seq<Value>) {
    forall i :: 0 <= i < |es| ==> Regular(es[i])
  }

  predicate RegularMembers(ms: seq<Member>) {
    Sorted(ms) && forall i :: 0 <= i < |ms| ==> NulFree(ms[i].name) && Regular(ms[i].value)
  }

  predicate NoDoubles(v: Value) {
    match v
    case Real(_) => false
    case Array(es) => forall i :: 0 <= i < |es| ==> NoDoubles(es[i])
    case Object(ms) => forall i :: 0 <= i < |ms| ==> NoDoubles(ms[i].value)
    case _ => true
  }

  /** An accumulated number is below ten times the threshold. */
  lemma {:induction false} AccumulateBound(text: Bytes, k: nat, n: nat, threshold: nat)
    requires k <= |text| && n < 10 * threshold
    ensures var r := Accumulate(text, k, n, threshold); r.Whole? ==> r.n < 10 * threshold
    decreases |text| - k
  {
    if k < |text| && IsDigit(text[k]) && n < threshold {
      AccumulateBound(text, k + 1, 10 * n + (text[k] - ZERO), threshold);
    }
  }

  /** Every integer that is read is in the range that can be printed and read again. */
  lemma NumbersReadable(d: Doubles, text: Bytes)
    requires |text| > 0
    ensures NumberOf(d, text).Some? ==> Regular(NumberOf(d, text).value)
  {
    var negative := text[0] == MINUS;
    AccumulateBound(text, if negative then 1 else 0, 0, Threshold(negative));
  }

  lemma LookupRegular(ms: seq<Member>, name: Bytes)
    requires RegularMembers(ms)
    ensures Regular(Lookup(ms, name))
  {
  }

  lemma PutRegular(ms: seq<Member>, name: Bytes, v: Value)
    requires RegularMembers(ms) && NulFree(name) && Regular(v)
    ensures RegularMembers(Put(ms, name, v))
  {
    PutSorted(ms, name, v);
    var r := Put(ms, name, v);
    forall i | 0 <= i < |r|
      ensures NulFree(r[i].name) && Regular(r[i].value)
    {
      assert r[i] == Member(name, v) || r[i] in ms;
    }
  }

  // ---------- Errors ----------

  /** Where a string with its closing quote at `end` cannot be decoded, and why. */
  predicate Faulty(doc: Bytes, end: nat, m: Message, x: nat)
    requires end <= |doc|
  {
    x <= end && match m
      case BadEscape => x >= 2 && doc[x - 2] == BACKSLASH && doc[x - 1] != 0x75 && ShortEscape(doc[x - 1]).None?
      case FourDigitsExpected => x >= 2 && doc[x - 2] == BACKSLASH && doc[x - 1] == 0x75 && end - x < 4
      case HexDigitExpected => x >= 1 && HexValue(doc[x - 1]).None?
      case SixCharactersExpected => HighBefore(doc, x) && end - x < 6
      case SecondHalfExpected =>
        || (x >= 1 && HighBefore(doc, x - 1) && doc[x - 1] != BACKSLASH)
        || (x >= 2 && HighBefore(doc, x - 2) && doc[x - 2] == BACKSLASH && doc[x - 1] != 0x75)
      case _ => false
  }

  /** The digits of a high surrogate end at a position. */
  predicate HighBefore(doc: Bytes, q: nat) {
    4 <= q <= |doc| && FourHex(doc[q - 4..q]) && IsHigh(UnitOf(doc[q - 4..q]))
  }

  /** What an error says of its token. The missing comma of an array and an empty escape are never reported. */
  ghost predicate Explained(c: Config, doc: Bytes, e: Error) {
    var t := e.token;
    && t.start <= t.end <= |doc| && (e.message != ContainerExpected ==> t == TokenAt(doc, t.start))
    && match e.message
       case ContainerExpected => c.features.strictRoot && TextOf(doc, t) == doc
       case ValueExpected => !StartsValue(t.kind)
       case MissingColon => TextOf(doc, t) != [COLON]
       case MissingCommaOrBrace =>
         TextOf(doc, t) != [COMMA] && TextOf(doc, t) != [CLOSE_BRACE] && !IsComment(TextOf(doc, t))
       case MissingBraceOrName => t.kind != StringToken
       case NotANumber => IsNumber(TextOf(doc, t)) && LooseNumber(c.doubles, TextOf(doc, t)).None?
       case m => t.kind == StringToken && t.end > 0 && e.extra.Some? && Faulty(doc, t.end - 1, m, e.extra.value)
  }

  predicate StartsValue(k: Kind) {
    || k == ObjectBegin || k == ArrayBegin || k == StringToken || k == Number || k == True || k == False
    || k == NullToken
  }

  /** Whatever is read, and even where reading fails, the value left behind is regular and every error is explained. */
  ghost predicate Kept(c: Config, doc: Bytes, o: Outcome) {
    Regular(o.value) && forall i :: 0 <= i < |o.errors| ==> Explained(c, doc, o.errors[i])
  }

  lemma HexFault(doc: Bytes, i: nat, stop: nat, code: nat)
    requires i <= stop <= |doc| && HexDigits(doc, i, stop, code).Failed?
    ensures var u := HexDigits(doc, i, stop, code);
      u.message == HexDigitExpected && i < u.extra <= stop && HexValue(doc[u.extra - 1]).None?
    decreases stop - i
  {
  }

  lemma UnitFault(doc: Bytes, i: nat, end: nat)
    requires i + 2 <= end <= |doc| && doc[i] == BACKSLASH && doc[i + 1] == 0x75 && EscapedUnit(doc, i + 2, end).Failed?
    ensures var u := EscapedUnit(doc, i + 2, end); Faulty(doc, end, u.message, u.extra)
  {
    if end - (i + 2) >= 4 {
      HexFault(doc, i + 2, i + 6, 0);
    }
  }

  lemma CodePointFault(doc: Bytes, i: nat, end: nat)
    requires i + 2 <= end < |doc| && doc[i] == BACKSLASH && doc[i + 1] == 0x75
    requires ScanString(doc, i) == Scan(true, end + 1) && EscapedCodePoint(doc, i + 2, end).Failed?
    ensures var u := EscapedCodePoint(doc, i + 2, end); Faulty(doc, end, u.message, u.extra)
  {
    if EscapedUnit(doc, i + 2, end).Failed? {
      UnitFault(doc, i, end);
    } else {
      var t := DigitsTaken(doc, i, end);
      DigitsBefore(doc, i, t);
      SecondHalfFault(doc, i, t, end);
    }
  }

  lemma DigitsBefore(doc: Bytes, i: nat, t: Bytes)
    requires i + 6 <= |doc| && PieceText(Escaped(t)) == doc[i..i + 6]
    ensures doc[i + 2..i + 6] == t
  {
    assert doc[i..i + 6][2..] == doc[i + 2..i + 6] && PieceText(Escaped(t))[2..] == t;
  }

  lemma SecondHalfFault(doc: Bytes, i: nat, t: Bytes, end: nat)
    requires i + 6 <= end < |doc| && FourHex(t) && doc[i + 2..i + 6] == t
    requires EscapedUnit(doc, i + 2, end) == Done(Unit(UnitOf(t), i + 6))
    requires EscapedCodePoint(doc, i + 2, end).Failed?
    ensures var u := EscapedCodePoint(doc, i + 2, end); Faulty(doc, end, u.message, u.extra)
  {
    var q := i + 6;
    assert HighBefore(doc, q);
    if q + 6 <= end && doc[q] == BACKSLASH && doc[q + 1] == 0x75 {
      UnitFault(doc, q, end);
    }
  }

  /** A code point that was decoded leaves the rest of the literal. */
  lemma AfterCodePoint(doc: Bytes, i: nat, end: nat)
    requires i + 2 <= end < |doc| && doc[i] == BACKSLASH && doc[i + 1] == 0x75
    requires ScanString(doc, i) == Scan(true, end + 1) && EscapedCodePoint(doc, i + 2, end).Done?
    ensures var q := EscapedCodePoint(doc, i + 2, end).value.next;
      i < q <= end && ScanString(doc, q) == Scan(true, end + 1)
  {
    var t := DigitsTaken(doc, i, end);
    if IsHigh(UnitOf(t)) {
      var t2 := DigitsTaken(doc, i + 6, end);
    }
  }

  /** The error of a string literal that cannot be decoded. */
  lemma {:induction false} TextFault(doc: Bytes, i: nat, end: nat)
    requires i <= end < |doc| && ScanString(doc, i) == Scan(true, end + 1) && DecodeText(doc, i, end).Failed?
    ensures var d := DecodeText(doc, i, end); Faulty(doc, end, d.message, d.extra)
    decreases end - i
  {
    if doc[i] != BACKSLASH {
      TextFault(doc, i + 1, end);
    } else if doc[i + 1] != 0x75 {
      if ShortEscape(doc[i + 1]).Some? {
        TextFault(doc, i + 2, end);
      }
    } else if EscapedCodePoint(doc, i + 2, end).Failed? {
      CodePointFault(doc, i, end);
    } else {
      AfterCodePoint(doc, i, end);
      TextFault(doc, EscapedCodePoint(doc, i + 2, end).value.next, end);
    }
  }

  lemma StringFault(c: Config, doc: Bytes, t: Token)
    requires t.start <= |doc| && t == TokenAt(doc, t.start) && t.kind == StringToken && StringOf(doc, t).Failed?
    ensures Explained(c, doc, Error(StringOf(doc, t).message, t, Some(StringOf(doc, t).extra)))
  {
    StringScanned(doc, t);
    TextFault(doc, t.start + 1, t.end - 1);
  }

  lemma ScalarKept(c: Config, doc: Bytes, p: nat, node: Value)
    requires p <= |doc| && Regular(node)
    requires var k := FirstToken(c.features, doc, p).kind; k != ObjectBegin && k != ArrayBegin
    ensures Kept(c, doc, ReadValue(c, doc, p, node))
  {
    var before, m := ValueStarts(c.features, doc, p);
    var t := NextToken(doc, m);
    if t.kind == Number {
      NumberKept(c, doc, p, t, node);
    } else if t.kind == StringToken {
      StringKept(c, doc, p, t, node);
    }
  }

  lemma NumberKept(c: Config, doc: Bytes, p: nat, t: Token, node: Value)
    requires p <= |doc| && Regular(node) && t == FirstToken(c.features, doc, p) && t.kind == Number
    requires t.start <= |doc| && t == TokenAt(doc, t.start)
    ensures Kept(c, doc, ReadValue(c, doc, p, node))
  {
    NumberText(doc, t.start);
    LooseNumberRead(c.doubles, TextOf(doc, t));
    NumbersReadable(c.doubles, TextOf(doc, t));
  }

  lemma StringKept(c: Config, doc: Bytes, p: nat, t: Token, node: Value)
    requires p <= |doc| && Regular(node) && t == FirstToken(c.features, doc, p) && t.kind == StringToken
    requires t.start <= |doc| && t == TokenAt(doc, t.start)
    ensures Kept(c, doc, ReadValue(c, doc, p, node))
  {
    if StringOf(doc, t).Failed? {
      StringFault(c, doc, t);
    }
  }

  lemma {:induction false} ReadKept(c: Config, doc: Bytes, p: nat, node: Value)
    requires p <= |doc| && Regular(node)
    ensures Kept(c, doc, ReadValue(c, doc, p, node))
    decreases |doc| - p, 1
  {
    var t := FirstToken(c.features, doc, p);
    if t.kind == ObjectBegin {
      MembersKept(c, doc, t.end, [], []);
    } else if t.kind == ArrayBegin {
      var q := SkipSpaces(doc, t.end);
      if Peek(doc, q) != CLOSE_BRACKET {
        ElementsKept(c, doc, q, []);
      }
    } else {
      ScalarKept(c, doc, p, node);
    }
  }

  lemma {:induction false} ElementsKept(c: Config, doc: Bytes, p: nat, es: seq<Value>)
    requires p <= |doc| && AllRegular(es)
    ensures Kept(c, doc, ReadElements(c, doc, p, es))
    decreases |doc| - p, 2
  {
    ReadKept(c, doc, p, Null);
    var o := ReadValue(c, doc, p, Null);
    if o.ok {
      var t := SkipComments(doc, o.pos);
      if t.kind != ArrayEnd {
        ElementsKept(c, doc, t.end, es + [o.value]);
      }
    }
  }

  lemma {:induction false} MembersKept(c: Config, doc: Bytes, p: nat, ms: seq<Member>, last: Bytes)
    requires p <= |doc| && RegularMembers(ms)
    ensures Kept(c, doc, ReadMembers(c, doc, p, ms, last))
    decreases |doc| - p, 2
  {
    var lead, m := CommentsTaken(doc, p);
    var t := NextToken(doc, m);
    if t.kind == StringToken {
      if StringOf(doc, t).Done? {
        MemberKept(c, doc, t.end, ms, StringOf(doc, t).value);
      } else {
        StringFault(c, doc, t);
      }
    }
  }

  lemma {:induction false} MemberKept(c: Config, doc: Bytes, p: nat, ms: seq<Member>, name: Bytes)
    requires p <= |doc| && RegularMembers(ms)
    ensures Kept(c, doc, ReadMember(c, doc, p, ms, name))
    decreases |doc| - p, 3
  {
    var colon := NextToken(doc, p);
    MarkText(doc, colon.start, COLON);
    if colon.kind == MemberSeparator {
      var key := UpToNul(name);
      LookupRegular(ms, key);
      ReadKept(c, doc, colon.end, Lookup(ms, key));
      var o := ReadValue(c, doc, colon.end, Lookup(ms, key));
      PutRegular(ms, key, o.value);
      if o.ok {
        EndKept(c, doc, o.pos, Put(ms, key, o.value), name);
      }
    }
  }

  lemma {:induction false} EndKept(c: Config, doc: Bytes, p: nat, ms: seq<Member>, name: Bytes)
    requires p <= |doc| && RegularMembers(ms)
    ensures Kept(c, doc, EndMember(c, doc, p, ms, name))
    decreases |doc| - p, 3
  {
    var comma := NextToken(doc, p);
    MarkText(doc, comma.start, COMMA);
    MarkText(doc, comma.start, CLOSE_BRACE);
    CommentText(doc, comma.start);
    if comma.kind == ArraySeparator || comma.kind == Comment {
      var next := AfterComments(doc, comma);
      if next.kind != ObjectEnd {
        MembersKept(c, doc, next.end, ms, name);
      }
    }
  }

  /**
    Parsing any document, well formed or not: it ends inside the document, succeeds exactly when it
    reports no error, reports at most one error unless the root must be a container, and leaves a
    regular value.
   */
  lemma ParseIsSound(c: Config, doc: Bytes, root: Value)
    requires Regular(root)
    ensures var o := ParseDocument(c, doc, root);
      && o.pos <= |doc| && (o.ok <==> o.errors == []) && Kept(c, doc, o)
      && |o.errors| <= if c.features.strictRoot then 2 else 1
  {
    ReadKept(c, doc, 0, root);
    if c.features.strictRoot {
      var o := ReadValue(c, doc, 0, root);
      ContainerError(c, doc, o, ParseDocument(c, doc, root).pos);
    }
  }

  lemma ContainerError(c: Config, doc: Bytes, o: Outcome, pos: nat)
    requires c.features.strictRoot && Kept(c, doc, o)
    ensures var e := Error(ContainerExpected, Token(ErrorToken, 0, |doc|), None);
      Kept(c, doc, Outcome(false, o.value, pos, o.errors + [e]))
  {
    assert doc[0..|doc|] == doc;
  }

  lemma {:induction false} RegularHoldable(v: Value)
    requires Regular(v) && NoDoubles(v)
    ensures Holdable(v) && InRange(v)
    decreases v
  {
    match v
    case Array(es) =>
      forall i | 0 <= i < |es|
        ensures Holdable(es[i]) && InRange(es[i])
      {
        RegularHoldable(es[i]);
      }
    case Object(ms) =>
      forall i | 0 <= i < |ms|
        ensures Holdable(ms[i].value) && InRange(ms[i].value)
      {
        RegularHoldable(ms[i].value);
      }
    case _ =>
  }

  /** Whatever was read without an error, doubles apart, can be printed and read again unchanged. */
  lemma ReparseStable(c: Config, yaml: bool, doc: Bytes, root: Value)
    requires Regular(root)
    ensures var o := ParseDocument(c, doc, root);
      o.ok && NoDoubles(o.value) ==>
        var again := ParseDocument(c, Fast(c.doubles, yaml, o.value) + [NEWLINE], Null);
        again.ok && again.value == o.value
  {
    ParseIsSound(c, doc, root);
    var o := ParseDocument(c, doc, root);
    if o.ok && NoDoubles(o.value) {
      RegularHoldable(o.value);
      RoundTrip(c, yaml, o.value, Null);
    }
  }

  /** Any token but a closing bracket separates the elements of an array, a colon for one. */
  lemma ColonInArray(c: Config, rest: Bytes)
    ensures var doc: Bytes := [OPEN_BRACKET, ZERO, COLON, ZERO, CLOSE_BRACKET] + rest;
      ReadValue(c, doc, 0, Null) == Outcome(true, Array([Int(0), Int(0)]), 5, [])
  {
    var zero := Item(Loose([], LooseNumeral([ZERO])), []);
    var last := LastItem(zero);
    var items := MoreItems(zero, [COLON], last);
    var t := Loose([], LooseArray(items));
    var doc: Bytes := [OPEN_BRACKET, ZERO, COLON, ZERO, CLOSE_BRACKET] + rest;
    assert GoodBody(c.features, zero.value.body) && GoodLoose(c.features, zero.value);
    assert GoodItem(c.features, zero) && GoodElements(c.features, last) && GoodElements(c.features, items);
    ZeroMeaning(c.doubles);
    assert ItemMeanings(c.doubles, last) == Some([Int(0)]);
    assert LooseMeaning(c.doubles, t) == Some(Array([] + ([Int(0)] + [Int(0)])));
    assert [] + ([Int(0)] + [Int(0)]) == [Int(0), Int(0)];
    ColonTokens(zero);
    ColonPast(doc);
    ReadLoose(c, doc, 0, t, Null, 5);
  }

  lemma ZeroMeaning(d: Doubles)
    ensures LooseNumber(d, [ZERO]) == Some(Int(0))
  {
    assert [ZERO][..0] == [] && Decimal([ZERO]) == 0;
  }

  lemma ColonTokens(zero: Item)
    requires zero == Item(Loose([], LooseNumeral([ZERO])), [])
    ensures LooseTokens(Loose([], LooseArray(MoreItems(zero, [COLON], LastItem(zero)))))
      == [[OPEN_BRACKET], [ZERO], [COLON], [ZERO], [CLOSE_BRACKET]]
  {
    var last := LastItem(zero);
    var items := MoreItems(zero, [COLON], last);
    assert LooseTokens(zero.value) == [[ZERO]];
    assert ItemsTokens(last) == [[ZERO], [CLOSE_BRACKET]];
    assert ItemsTokens(items) == [[ZERO], [COLON]] + ItemsTokens(last);
    assert LooseTokens(Loose([], LooseArray(items))) == [[OPEN_BRACKET]] + ItemsTokens(items);
  }

  lemma MarkAt(doc: Bytes, p: nat)
    requires p < |doc| && IsMark(doc[p])
    ensures TextOf(doc, NextToken(doc, p)) == [doc[p]] && NextToken(doc, p).end == p + 1
  {
  }

  lemma ZeroAt(doc: Bytes, p: nat)
    requires p + 1 < |doc| && doc[p] == ZERO && IsMark(doc[p + 1])
    ensures TextOf(doc, NextToken(doc, p)) == [ZERO] && NextToken(doc, p).end == p + 1
  {
    assert ScanNumber(doc, p + 1) == p + 1;
  }

  lemma ColonPast(doc: Bytes)
    requires |doc| >= 5 && doc[0] == OPEN_BRACKET && doc[1] == doc[3] == ZERO && doc[2] == COLON
    requires doc[4] == CLOSE_BRACKET
    ensures Past(doc, 0, [[OPEN_BRACKET], [ZERO], [COLON], [ZERO], [CLOSE_BRACKET]]) == Some(5)
  {
    var t4, t3 := [[CLOSE_BRACKET]], [[ZERO], [CLOSE_BRACKET]];
    var t2, t1 := [[COLON], [ZERO], [CLOSE_BRACKET]], [[ZERO], [COLON], [ZERO], [CLOSE_BRACKET]];
    var t0 := [[OPEN_BRACKET], [ZERO], [COLON], [ZERO], [CLOSE_BRACKET]];
    assert t4 == [[CLOSE_BRACKET]] + [] && t3 == [[ZERO]] + t4 && t2 == [[COLON]] + t3;
    assert t1 == [[ZERO]] + t2 && t0 == [[OPEN_BRACKET]] + t1;
    MarkAt(doc, 4);
    PastNext(doc, 4, [CLOSE_BRACKET], [], 5);
    ZeroAt(doc, 3);
    PastNext(doc, 3, [ZERO], t4, 5);
    MarkAt(doc, 2);
    PastNext(doc, 2, [COLON], t3, 5);
    ZeroAt(doc, 1);
    PastNext(doc, 1, [ZERO], t2, 5);
    MarkAt(doc, 0);
    PastNext(doc, 0, [OPEN_BRACKET], t1, 5);
  }
}
