/**
  The documents that the reader takes are exactly those that start with the tokens of a loose text with a meaning, and
  what it makes of them is that meaning.
 */
module JsonAccepts {
  import opened Options
  import opened JsonText
  import opened JsonGrammar
  import opened JsonLayout
  import opened JsonUnicode
  import opened JsonSyntax
  import opened JsonLoose

  // ---------- The texts of tokens ----------

  function TextOf(doc: Bytes, t: Token): Bytes
    requires t.start <= t.end <= |doc|
  {
    doc[t.start..t.end]
  }

  /** The kind of the token a mark is. */
  function MarkKind(mark: byte): Kind
    requires IsMark(mark)
  {
    if mark == COMMA then ArraySeparator else if mark == COLON then MemberSeparator
    else if mark == CLOSE_BRACKET then ArrayEnd else if mark == CLOSE_BRACE then ObjectEnd
    else if mark == OPEN_BRACE then ObjectBegin else ArrayBegin
  }

  lemma MarkText(doc: Bytes, s: nat, mark: byte)
    requires s <= |doc| && IsMark(mark)
    ensures var t := TokenAt(doc, s); TextOf(doc, t) == [mark] <==> t.kind == MarkKind(mark)
  {
    var t := TokenAt(doc, s);
    if TextOf(doc, t) == [mark] {
      assert doc[s] == TextOf(doc, t)[0];
    }
  }

  lemma WordText(doc: Bytes, s: nat)
    requires s <= |doc|
    ensures var t := TokenAt(doc, s);
      && (TextOf(doc, t) == NULL_TEXT <==> t.kind == NullToken) && (TextOf(doc, t) == TRUE_TEXT <==> t.kind == True)
      && (TextOf(doc, t) == FALSE_TEXT <==> t.kind == False)
  {
    var t := TokenAt(doc, s);
    var text := TextOf(doc, t);
    if text != [] {
      assert text[0] == doc[s] && text == [doc[s]] + doc[s + 1..t.end];
    }
  }

  lemma {:induction false} NumberRun(doc: Bytes, p: nat)
    requires p <= |doc|
    ensures forall i :: p <= i < ScanNumber(doc, p) ==> IsNumberByte(doc[i])
    decreases |doc| - p
  {
    if p < |doc| && IsNumberByte(doc[p]) {
      NumberRun(doc, p + 1);
    }
  }

  lemma NumberText(doc: Bytes, s: nat)
    requires s <= |doc|
    ensures var t := TokenAt(doc, s); IsNumber(TextOf(doc, t)) <==> t.kind == Number
  {
    var t := TokenAt(doc, s);
    var text := TextOf(doc, t);
    if text != [] {
      NumberRun(doc, s + 1);
      assert text[0] == doc[s];
      assert forall i :: 0 <= i < |text| ==> text[i] == doc[s + i];
    }
  }

  lemma CommentText(doc: Bytes, s: nat)
    requires s <= |doc|
    ensures var t := TokenAt(doc, s); IsComment(TextOf(doc, t)) <==> t.kind == Comment
  {
    var t := TokenAt(doc, s);
    var text := TextOf(doc, t);
    assert forall i :: 0 <= i < |text| ==> text[i] == doc[s + i];
    if s + 2 <= |doc| && doc[s] == SLASH {
      if doc[s + 1] == STAR {
        CommentEnds(doc, s + 2);
        forall i | 2 <= i < |text| - 1
          ensures Closes(text, i) <==> Closes(doc, s + i)
        {
        }
        assert IsComment(text) ==> Closes(doc, s + (|text| - 2));
      } else if doc[s + 1] == SLASH {
        LineCommentEnds(doc, s + 2);
      }
    }
  }

  lemma LiteralRead(doc: Bytes, s: nat, ps: seq<Piece>)
    requires s <= |doc| && GoodLiteral(ps) && TextOf(doc, TokenAt(doc, s)) == LiteralText(ps)
    ensures QuotedAt(doc, s, TokenAt(doc, s).end, Contents(ps))
  {
    HereSlice(doc, s, LiteralText(ps));
    LiteralToken(doc, s, ps);
  }

  lemma CutAt(doc: Bytes, i: nat, q: nat, end: nat)
    requires i <= q <= end <= |doc|
    ensures doc[i..q] + doc[q..end] == doc[i..end]
  {
  }

  lemma OneByte(doc: Bytes, i: nat)
    requires i < |doc|
    ensures doc[i..i + 1] == [doc[i]] && (i + 1 < |doc| ==> doc[i..i + 2] == [doc[i], doc[i + 1]])
  {
  }

  /** The pieces of a literal that can be decoded. */
  lemma {:induction false} PiecesTaken(doc: Bytes, i: nat, end: nat) returns (ps: seq<Piece>)
    requires i <= end < |doc| && ScanString(doc, i) == Scan(true, end + 1) && DecodeText(doc, i, end).Done?
    ensures GoodLiteral(ps) && PiecesText(ps) == doc[i..end] && Contents(ps) == Some(DecodeText(doc, i, end).value)
    decreases end - i, 2
  {
    if i == end {
      ps := [];
    } else if doc[i] != BACKSLASH {
      var more := PiecesTaken(doc, i + 1, end);
      OneByte(doc, i);
      ps := PieceTaken(doc, i, Raw(doc[i]), i + 1, more, end);
    } else if doc[i + 1] == 0x75 {
      ps := UnitTaken(doc, i, end);
    } else {
      var more := PiecesTaken(doc, i + 2, end);
      OneByte(doc, i);
      ps := PieceTaken(doc, i, Short(doc[i + 1]), i + 2, more, end);
    }
  }

  lemma PieceTaken(doc: Bytes, i: nat, x: Piece, q: nat, more: seq<Piece>, end: nat) returns (ps: seq<Piece>)
    requires GoodPiece(x) && GoodLiteral(more) && i <= q <= end <= |doc|
    requires PieceText(x) == doc[i..q] && PiecesText(more) == doc[q..end]
    ensures ps == [x] + more && ps[1..] == more && GoodLiteral(ps) && PiecesText(ps) == doc[i..end]
    ensures x.Raw? ==> Contents(ps) == Then([x.c], Contents(more))
    ensures x.Short? ==> Contents(ps) == Then([ShortEscape(x.letter).value], Contents(more))
  {
    ps := [x] + more;
    assert ps[1..] == more;
    CutAt(doc, i, q, end);
  }

  lemma {:induction false} UnitTaken(doc: Bytes, i: nat, end: nat) returns (ps: seq<Piece>)
    requires i + 2 <= end < |doc| && doc[i] == BACKSLASH && doc[i + 1] == 0x75
    requires ScanString(doc, i) == Scan(true, end + 1) && DecodeText(doc, i, end).Done?
    ensures GoodLiteral(ps) && PiecesText(ps) == doc[i..end] && Contents(ps) == Some(DecodeText(doc, i, end).value)
    decreases end - i, 1
  {
    var t := DigitsTaken(doc, i, end);
    if IsHigh(UnitOf(t)) {
      ps := PairTaken(doc, i, t, end);
    } else {
      var more := PiecesTaken(doc, i + 6, end);
      ps := PieceTaken(doc, i, Escaped(t), i + 6, more, end);
    }
  }

  /** A high surrogate that can be decoded, and the unit after it. */
  lemma {:induction false} PairTaken(doc: Bytes, i: nat, t: Bytes, end: nat) returns (ps: seq<Piece>)
    requires i + 6 <= end < |doc| && FourHex(t) && IsHigh(UnitOf(t)) && PieceText(Escaped(t)) == doc[i..i + 6]
    requires doc[i] == BACKSLASH && doc[i + 1] == 0x75 && EscapedUnit(doc, i + 2, end) == Done(Unit(UnitOf(t), i + 6))
    requires ScanString(doc, i + 6) == Scan(true, end + 1) && DecodeText(doc, i, end).Done?
    ensures GoodLiteral(ps) && PiecesText(ps) == doc[i..end] && Contents(ps) == Some(DecodeText(doc, i, end).value)
    decreases end - i, 0
  {
    var t2 := DigitsTaken(doc, i + 6, end);
    var more := PiecesTaken(doc, i + 12, end);
    var rest := PieceTaken(doc, i + 6, Escaped(t2), i + 12, more, end);
    ps := PieceTaken(doc, i, Escaped(t), i + 6, rest, end);
    PairDecoded(doc, i, t, t2, end);
  }

  lemma PairDecoded(doc: Bytes, i: nat, t: Bytes, t2: Bytes, end: nat)
    requires i + 12 <= end <= |doc| && FourHex(t) && IsHigh(UnitOf(t)) && FourHex(t2)
    requires PieceText(Escaped(t)) == doc[i..i + 6] && PieceText(Escaped(t2)) == doc[i + 6..i + 12]
    ensures DecodeText(doc, i, end) == Prepend(Utf8(Combined(UnitOf(t), UnitOf(t2))), DecodeText(doc, i + 12, end))
  {
    HereSlice(doc, i, PieceText(Escaped(t)));
    HereSlice(doc, i + 6, PieceText(Escaped(t2)));
    PairReads(doc, i, t, t2, end);
  }

  /** A \u and the four digits of a unit that can be decoded. */
  lemma DigitsTaken(doc: Bytes, i: nat, end: nat) returns (t: Bytes)
    requires i + 2 <= end < |doc| && doc[i] == BACKSLASH && doc[i + 1] == 0x75
    requires ScanString(doc, i) == Scan(true, end + 1) && EscapedUnit(doc, i + 2, end).Done?
    ensures i + 6 <= end && FourHex(t) && PieceText(Escaped(t)) == doc[i..i + 6]
    ensures EscapedUnit(doc, i + 2, end) == Done(Unit(UnitOf(t), i + 6))
    ensures ScanString(doc, i + 6) == Scan(true, end + 1)
  {
    t := doc[i + 2..i + 6];
    assert HexDigits(doc, i + 2, i + 6, 0).Done?;
    assert HexValue(doc[i + 2]).Some?;
    assert HexDigits(doc, i + 3, i + 6, HexValue(doc[i + 2]).value).Done?;
    assert HexValue(doc[i + 3]).Some?;
    assert HexDigits(doc, i + 4, i + 6, 16 * HexValue(doc[i + 2]).value + HexValue(doc[i + 3]).value).Done?;
    assert FourHex(t);
    assert doc[i..i + 6] == [BACKSLASH, 0x75] + t;
    HereSlice(doc, i, PieceText(Escaped(t)));
    UnitHere(doc, i, t, end);
  }

  /** A string token that can be decoded is a literal with these contents. */
  lemma LiteralTaken(doc: Bytes, t: Token) returns (ps: seq<Piece>)
    requires t.start <= |doc| && t == TokenAt(doc, t.start) && t.kind == StringToken && StringOf(doc, t).Done?
    ensures GoodLiteral(ps) && LiteralText(ps) == TextOf(doc, t) && Contents(ps) == Some(StringOf(doc, t).value)
  {
    StringScanned(doc, t);
    var i, end := t.start + 1, t.end - 1;
    ps := PiecesTaken(doc, i, end);
    QuotedSlice(doc, t.start, t.end);
  }

  lemma StringScanned(doc: Bytes, t: Token)
    requires t.start <= |doc| && t == TokenAt(doc, t.start) && t.kind == StringToken
    ensures t.start + 2 <= t.end <= |doc| && doc[t.start] == doc[t.end - 1] == QUOTE
    ensures ScanString(doc, t.start + 1) == Scan(true, t.end)
  {
  }

  lemma QuotedSlice(doc: Bytes, s: nat, e: nat)
    requires s + 2 <= e <= |doc| && doc[s] == doc[e - 1] == QUOTE
    ensures doc[s..e] == [QUOTE] + doc[s + 1..e - 1] + [QUOTE]
  {
  }

  // ---------- Tokens one after the other ----------

  /** Where these tokens end, if the next tokens of the document are those. */
  ghost function Past(doc: Bytes, p: nat, ts: seq<Bytes>): (r: Option<nat>)
    requires p <= |doc|
    ensures r.Some? ==> p <= r.value <= |doc|
    decreases |ts|
  {
    if ts == [] then Some(p)
    else
      var t := NextToken(doc, p);
      if TextOf(doc, t) == ts[0] then Past(doc, t.end, ts[1..]) else None
  }

  lemma PastCons(doc: Bytes, p: nat, text: Bytes, rest: seq<Bytes>)
    requires p <= |doc|
    ensures var t := NextToken(doc, p);
      Past(doc, p, [text] + rest) == if TextOf(doc, t) == text then Past(doc, t.end, rest) else None
  {
    assert ([text] + rest)[1..] == rest;
  }

  lemma {:induction false} PastConcat(doc: Bytes, p: nat, a: seq<Bytes>, b: seq<Bytes>)
    requires p <= |doc|
    ensures Past(doc, p, a + b) == match Past(doc, p, a) case None => None case Some(m) => Past(doc, m, b)
    decreases |a|
  {
    if a == [] {
      assert a + b == b;
    } else {
      var t := NextToken(doc, p);
      assert a + b == [a[0]] + (a[1..] + b);
      PastCons(doc, p, a[0], a[1..] + b);
      PastConcat(doc, t.end, a[1..], b);
    }
  }

  /** The first tokens end where the others start. */
  lemma PastSplit(doc: Bytes, p: nat, a: seq<Bytes>, b: seq<Bytes>, end: nat) returns (m: nat)
    requires p <= |doc| && Past(doc, p, a + b) == Some(end)
    ensures Past(doc, p, a) == Some(m) && p <= m <= |doc| && Past(doc, m, b) == Some(end)
  {
    PastConcat(doc, p, a, b);
    m := Past(doc, p, a).value;
  }

  lemma PastJoin(doc: Bytes, p: nat, a: seq<Bytes>, m: nat, b: seq<Bytes>, end: nat)
    requires p <= |doc| && Past(doc, p, a) == Some(m) && m <= |doc| && Past(doc, m, b) == Some(end)
    ensures Past(doc, p, a + b) == Some(end)
  {
    PastConcat(doc, p, a, b);
  }

  lemma PastNext(doc: Bytes, p: nat, text: Bytes, rest: seq<Bytes>, end: nat)
    requires p <= |doc| && TextOf(doc, NextToken(doc, p)) == text && Past(doc, NextToken(doc, p).end, rest) == Some(end)
    ensures Past(doc, p, [text] + rest) == Some(end)
  {
    PastCons(doc, p, text, rest);
  }

  lemma PastFirst(doc: Bytes, p: nat, text: Bytes, rest: seq<Bytes>, end: nat)
    requires p <= |doc| && Past(doc, p, [text] + rest) == Some(end)
    ensures TextOf(doc, NextToken(doc, p)) == text && Past(doc, NextToken(doc, p).end, rest) == Some(end)
  {
    PastCons(doc, p, text, rest);
  }

  /** Looking for a closing bracket behind white space finds what the tokens say. */
  lemma BracketPeek(doc: Bytes, p: nat)
    requires p <= |doc|
    ensures Peek(doc, SkipSpaces(doc, p)) == CLOSE_BRACKET <==> NextToken(doc, p).kind == ArrayEnd
    ensures NextToken(doc, SkipSpaces(doc, p)) == NextToken(doc, p)
  {
  }

  /** The next token, and the same from after the white space before it. */
  lemma PastSpaces(doc: Bytes, p: nat, ts: seq<Bytes>)
    requires p <= |doc| && ts != []
    ensures NextToken(doc, SkipSpaces(doc, p)) == NextToken(doc, p)
    ensures Past(doc, SkipSpaces(doc, p), ts) == Past(doc, p, ts)
  {
  }

  lemma {:induction false} SpacesPrefix(doc: Bytes, p: nat, end: nat)
    requires p <= |doc| && SkipSpaces(doc, p) <= end <= |doc|
    ensures SkipSpaces(doc[..end], p) == SkipSpaces(doc, p)
    decreases |doc| - p
  {
    if p < |doc| && IsSpace(doc[p]) {
      SpacesPrefix(doc, p + 1, end);
    }
  }

  /** The bytes up to the end of the last token are these tokens, with nothing but white space before and between. */
  lemma {:induction false} PastLaid(doc: Bytes, p: nat, ts: seq<Bytes>, end: nat)
    requires p <= |doc| && Past(doc, p, ts) == Some(end)
    ensures LaidAt(doc[..end], p, ts)
    decreases |ts|
  {
    if ts != [] {
      var t := NextToken(doc, p);
      PastLaid(doc, t.end, ts[1..], end);
      SpacesPrefix(doc, p, end);
      PrefixHere(doc, t, end);
    }
  }

  lemma PrefixHere(doc: Bytes, t: Token, end: nat)
    requires t.start <= t.end <= end <= |doc|
    ensures Here(doc[..end], t.start, TextOf(doc, t))
  {
    assert doc[..end][t.start..t.end] == doc[t.start..t.end];
    HereSlice(doc[..end], t.start, TextOf(doc, t));
  }

  // ---------- Comments ----------

  lemma {:induction false} CommentsPassed(doc: Bytes, p: nat, gap: seq<Bytes>, m: nat)
    requires p <= |doc| && AllComments(gap) && Past(doc, p, gap) == Some(m) && NextToken(doc, m).kind != Comment
    ensures SkipComments(doc, p) == NextToken(doc, m)
    decreases |gap|
  {
    if gap != [] {
      var t := NextToken(doc, p);
      CommentText(doc, SkipSpaces(doc, p));
      CommentsPassed(doc, t.end, gap[1..], m);
    }
  }

  lemma {:induction false} CommentsTaken(doc: Bytes, p: nat) returns (gap: seq<Bytes>, m: nat)
    requires p <= |doc|
    ensures AllComments(gap) && m <= |doc| && Past(doc, p, gap) == Some(m) && NextToken(doc, m) == SkipComments(doc, p)
    ensures gap == [] <==> NextToken(doc, p).kind != Comment
    decreases |doc| - p
  {
    var t := NextToken(doc, p);
    if t.kind != Comment {
      gap, m := [], p;
    } else {
      CommentText(doc, SkipSpaces(doc, p));
      var rest;
      rest, m := CommentsTaken(doc, t.end);
      gap := [TextOf(doc, t)] + rest;
      PastNext(doc, p, TextOf(doc, t), rest, m);
    }
  }

  /** The first token of a value, after comments where they are allowed. */
  lemma ValueStart(f: Features, doc: Bytes, p: nat, before: seq<Bytes>, m: nat)
    requires p <= |doc| && AllComments(before) && (before != [] ==> f.allowComments)
    requires Past(doc, p, before) == Some(m) && NextToken(doc, m).kind != Comment
    ensures FirstToken(f, doc, p) == NextToken(doc, m)
  {
    if f.allowComments {
      CommentsPassed(doc, p, before, m);
    }
  }

  lemma ValueStarts(f: Features, doc: Bytes, p: nat) returns (before: seq<Bytes>, m: nat)
    requires p <= |doc|
    ensures AllComments(before) && (before != [] ==> f.allowComments) && m <= |doc|
    ensures Past(doc, p, before) == Some(m) && NextToken(doc, m) == FirstToken(f, doc, p)
  {
    if f.allowComments {
      before, m := CommentsTaken(doc, p);
    } else {
      before, m := [], p;
    }
  }

  // ---------- What reading yields ----------

  /** A read succeeds with the given value, if there is one, and stops at the given position. */
  ghost predicate Rereads(o: Outcome, r: Option<Value>, end: nat) {
    match r
    case None => !o.ok
    case Some(w) => o == Outcome(true, w, end, [])
  }

  // The following state Rereads for each routine.

  ghost predicate ValueYields(c: Config, doc: Bytes, p: nat, node: Value, r: Option<Value>, end: nat) {
    p <= |doc| && Rereads(ReadValue(c, doc, p, node), r, end)
  }

  ghost predicate ElementsYield(c: Config, doc: Bytes, p: nat, es: seq<Value>, r: Option<Value>, end: nat) {
    p <= |doc| && Rereads(ReadElements(c, doc, p, es), r, end)
  }

  ghost predicate MembersYield(
    c: Config, doc: Bytes, p: nat, ms: seq<Member>, last: Bytes, r: Option<Value>, end: nat) {
    p <= |doc| && Rereads(ReadMembers(c, doc, p, ms, last), r, end)
  }

  lemma AsArrayStep(es: seq<Value>, w: Value, r: Option<seq<Value>>)
    ensures AsArray(es + [w], r) == AsArray(es, match r case None => None case Some(ws) => Some([w] + ws))
  {
    if r.Some? {
      Regrouped(es, [w], r.value);
    }
  }

  // ---------- Every loose text is read as what it means ----------

  /** The first token of a text is neither a comment nor a closing bracket. */
  lemma BodyStart(f: Features, doc: Bytes, p: nat, b: Body, end: nat)
    requires p <= |doc| && GoodBody(f, b) && Past(doc, p, BodyTokens(b)) == Some(end)
    ensures var k := NextToken(doc, p).kind; k != Comment && k != ArrayEnd
  {
    var s := SkipSpaces(doc, p);
    var first := BodyTokens(b)[0];
    CommentText(doc, s);
    MarkText(doc, s, CLOSE_BRACKET);
    assert first != [] && first[0] != SLASH && first[0] != CLOSE_BRACKET;
  }

  lemma {:induction false} ReadLoose(c: Config, doc: Bytes, p: nat, t: Loose, node: Value, end: nat)
    requires p <= |doc| && GoodLoose(c.features, t) && Past(doc, p, LooseTokens(t)) == Some(end)
    ensures ValueYields(c, doc, p, node, LooseMeaning(c.doubles, t), end)
    decreases t, 0
  {
    var m := PastSplit(doc, p, t.before, BodyTokens(t.body), end);
    BodyStart(c.features, doc, m, t.body, end);
    ValueStart(c.features, doc, p, t.before, m);
    match t.body
    case EmptyArray => ReadNothing(c, doc, p, m, node, end);
    case LooseArray(items) => ReadLooseArray(c, doc, p, m, items, node, end);
    case LooseObject(entries) => ReadLooseObject(c, doc, p, m, entries, node, end);
    case _ => ReadLooseScalar(c, doc, p, m, t, node, end);
  }

  lemma ReadLooseScalar(c: Config, doc: Bytes, p: nat, m: nat, t: Loose, node: Value, end: nat)
    requires p <= |doc| && GoodLoose(c.features, t)
    requires !t.body.EmptyArray? && !t.body.LooseArray? && !t.body.LooseObject?
    requires m <= |doc| && FirstToken(c.features, doc, p) == NextToken(doc, m)
    requires Past(doc, m, BodyTokens(t.body)) == Some(end)
    ensures ValueYields(c, doc, p, node, LooseMeaning(c.doubles, t), end)
  {
    var s, tok := SkipSpaces(doc, m), NextToken(doc, m);
    assert TextOf(doc, tok) == BodyTokens(t.body)[0] && end == tok.end;
    match t.body
    case LooseNumeral(text) =>
      NumberText(doc, s);
      LooseNumberRead(c.doubles, text);
      NumberYields(c, doc, p, tok, node);
    case LooseString(ps) =>
      LiteralRead(doc, s, ps);
      StringYields(c, doc, p, tok, Spelling(ps), node);
    case _ =>
      WordText(doc, s);
      WordYields(c, doc, p, tok, node);
  }

  lemma NumberYields(c: Config, doc: Bytes, p: nat, t: Token, node: Value)
    requires p <= |doc| && FirstToken(c.features, doc, p) == t && t.kind == Number
    ensures ValueYields(c, doc, p, node, NumberOf(c.doubles, TextOf(doc, t)), t.end)
  {
  }

  /** The value of a string literal's contents. */
  ghost function StringValue(r: Option<Bytes>): Option<Value> {
    match r
    case None => None
    case Some(s) => Some(String(UpToNul(s)))
  }

  lemma StringYields(c: Config, doc: Bytes, p: nat, t: Token, r: Option<Bytes>, node: Value)
    requires p <= |doc| && FirstToken(c.features, doc, p) == t && t.kind == StringToken && Decodes(StringOf(doc, t), r)
    ensures ValueYields(c, doc, p, node, StringValue(r), t.end)
  {
  }

  lemma WordYields(c: Config, doc: Bytes, p: nat, t: Token, node: Value)
    requires p <= |doc| && FirstToken(c.features, doc, p) == t
    ensures t.kind == True ==> ValueYields(c, doc, p, node, Some(Bool(true)), t.end)
    ensures t.kind == False ==> ValueYields(c, doc, p, node, Some(Bool(false)), t.end)
    ensures t.kind == NullToken ==> ValueYields(c, doc, p, node, Some(Null), t.end)
  {
  }

  lemma ReadNothing(c: Config, doc: Bytes, p: nat, m: nat, node: Value, end: nat)
    requires p <= |doc| && m <= |doc| && FirstToken(c.features, doc, p) == NextToken(doc, m)
    requires Past(doc, m, [[OPEN_BRACKET], [CLOSE_BRACKET]]) == Some(end)
    ensures ValueYields(c, doc, p, node, Some(Array([])), end)
  {
    var t := NextToken(doc, m);
    assert [[OPEN_BRACKET], [CLOSE_BRACKET]] == [[OPEN_BRACKET]] + [[CLOSE_BRACKET]];
    PastFirst(doc, m, [OPEN_BRACKET], [[CLOSE_BRACKET]], end);
    MarkText(doc, SkipSpaces(doc, m), OPEN_BRACKET);
    MarkText(doc, SkipSpaces(doc, t.end), CLOSE_BRACKET);
    assert [[CLOSE_BRACKET]] == [[CLOSE_BRACKET]] + [];
    PastFirst(doc, t.end, [CLOSE_BRACKET], [], end);
    PastSpaces(doc, t.end, [[CLOSE_BRACKET]]);
  }

  lemma {:induction false} ReadLooseArray(
    c: Config, doc: Bytes, p: nat, m: nat, items: Items, node: Value, end: nat)
    requires p <= |doc| && m <= |doc| && FirstToken(c.features, doc, p) == NextToken(doc, m)
    requires GoodElements(c.features, items) && Past(doc, m, [[OPEN_BRACKET]] + ItemsTokens(items)) == Some(end)
    ensures ValueYields(c, doc, p, node, AsArray([], ItemMeanings(c.doubles, items)), end)
    decreases items, 1
  {
    var t := NextToken(doc, m);
    PastFirst(doc, m, [OPEN_BRACKET], ItemsTokens(items), end);
    MarkText(doc, SkipSpaces(doc, m), OPEN_BRACKET);
    ItemsStart(c.features, doc, t.end, items, end);
    BracketPeek(doc, t.end);
    PastSpaces(doc, t.end, ItemsTokens(items));
    ReadItems(c, doc, SkipSpaces(doc, t.end), [], items, end);
  }

  lemma ItemsStart(f: Features, doc: Bytes, p: nat, items: Items, end: nat)
    requires p <= |doc| && GoodElements(f, items) && Past(doc, p, ItemsTokens(items)) == Some(end)
    ensures ItemsTokens(items) != [] && NextToken(doc, p).kind != ArrayEnd
  {
    match items
    case LastItem(x) => LooseStart(f, doc, p, x.value, x.gap + [[CLOSE_BRACKET]], end);
    case MoreItems(x, mark, more) => LooseStart(f, doc, p, x.value, x.gap + ([mark] + ItemsTokens(more)), end);
  }

  lemma LooseStart(f: Features, doc: Bytes, p: nat, v: Loose, rest: seq<Bytes>, end: nat)
    requires p <= |doc| && GoodLoose(f, v) && Past(doc, p, LooseTokens(v) + rest) == Some(end)
    ensures LooseTokens(v) != [] && NextToken(doc, p).kind != ArrayEnd
  {
    var m := PastSplit(doc, p, LooseTokens(v), rest, end);
    if v.before == [] {
      assert LooseTokens(v) == BodyTokens(v.body);
      BodyStart(f, doc, p, v.body, m);
    } else {
      assert LooseTokens(v)[0] == v.before[0];
      CommentText(doc, SkipSpaces(doc, p));
    }
  }

  lemma GapStart(doc: Bytes, p: nat, gap: seq<Bytes>, m: nat)
    requires p <= |doc| && AllComments(gap) && Past(doc, p, gap) == Some(m)
    ensures if gap == [] then m == p else NextToken(doc, p).kind == Comment
  {
    CommentText(doc, SkipSpaces(doc, p));
  }

  /** The token after comments. */
  lemma GapRead(doc: Bytes, p: nat, gap: seq<Bytes>, m: nat, mark: Bytes, rest: seq<Bytes>, end: nat)
    returns (t: Token)
    requires p <= |doc| && AllComments(gap) && Past(doc, p, gap) == Some(m) && !IsComment(mark)
    requires Past(doc, m, [mark] + rest) == Some(end)
    ensures t == SkipComments(doc, p) && t == TokenAt(doc, t.start) && TextOf(doc, t) == mark
    ensures if gap == [] then NextToken(doc, p) == t else NextToken(doc, p).kind == Comment
    ensures Past(doc, t.end, rest) == Some(end)
  {
    PastFirst(doc, m, mark, rest, end);
    CommentText(doc, SkipSpaces(doc, m));
    CommentsPassed(doc, p, gap, m);
    GapStart(doc, p, gap, m);
    t := NextToken(doc, m);
  }

  /** A value, the comments after it, and the next token. */
  lemma {:induction false} ReadItem(c: Config, doc: Bytes, p: nat, x: Item, mark: Bytes, rest: seq<Bytes>, end: nat)
    returns (m: nat, t: Token)
    requires p <= |doc| && GoodItem(c.features, x) && !IsComment(mark)
    requires Past(doc, p, LooseTokens(x.value) + (x.gap + ([mark] + rest))) == Some(end)
    ensures ValueYields(c, doc, p, Null, LooseMeaning(c.doubles, x.value), m)
    ensures m <= |doc| && t == SkipComments(doc, m) && TextOf(doc, t) == mark && t == TokenAt(doc, t.start)
    ensures Past(doc, t.end, rest) == Some(end)
    decreases x
  {
    m := PastSplit(doc, p, LooseTokens(x.value), x.gap + ([mark] + rest), end);
    ReadLoose(c, doc, p, x.value, Null, m);
    var q := PastSplit(doc, m, x.gap, [mark] + rest, end);
    t := GapRead(doc, m, x.gap, q, mark, rest, end);
  }

  lemma {:induction false} ReadItems(c: Config, doc: Bytes, p: nat, es: seq<Value>, items: Items, end: nat)
    requires p <= |doc| && GoodElements(c.features, items) && Past(doc, p, ItemsTokens(items)) == Some(end)
    ensures ElementsYield(c, doc, p, es, AsArray(es, ItemMeanings(c.doubles, items)), end)
    decreases items, 0
  {
    var x := items.item;
    var r := LooseMeaning(c.doubles, x.value);
    var w := if r.Some? then r.value else Null;
    match items
    case LastItem(_) =>
      assert [[CLOSE_BRACKET]] == [[CLOSE_BRACKET]] + [];
      var m, t := ReadItem(c, doc, p, x, [CLOSE_BRACKET], [], end);
      MarkText(doc, t.start, CLOSE_BRACKET);
      assert es + [w] == es + [w];
    case MoreItems(_, mark, more) =>
      var m, t := ReadItem(c, doc, p, x, mark, ItemsTokens(more), end);
      MarkText(doc, t.start, CLOSE_BRACKET);
      ReadItems(c, doc, t.end, es + [w], more, end);
      AsArrayStep(es, w, ItemMeanings(c.doubles, more));
  }

  lemma {:induction false} ReadLooseObject(
    c: Config, doc: Bytes, p: nat, m: nat, entries: Entries, node: Value, end: nat)
    requires p <= |doc| && m <= |doc| && FirstToken(c.features, doc, p) == NextToken(doc, m)
    requires GoodEntries(c.features, entries, Some([]))
    requires Past(doc, m, [[OPEN_BRACE]] + EntriesTokens(entries)) == Some(end)
    ensures ValueYields(c, doc, p, node, AsObject(EntryMembers(c.doubles, [], entries)), end)
    decreases entries, 2
  {
    var t := NextToken(doc, m);
    PastFirst(doc, m, [OPEN_BRACE], EntriesTokens(entries), end);
    MarkText(doc, SkipSpaces(doc, m), OPEN_BRACE);
    ReadEntries(c, doc, t.end, [], [], entries, end);
  }

  /** A name and its colon, after comments. */
  lemma NameRead(c: Config, doc: Bytes, p: nat, ms: seq<Member>, last: Bytes, e: Entry, rest: seq<Bytes>, end: nat)
    returns (q: nat)
    requires p <= |doc| && GoodEntry(c.features, e)
    requires Past(doc, p, e.lead + ([LiteralText(e.name)] + ([[COLON]] + rest))) == Some(end)
    ensures q <= |doc| && Past(doc, q, rest) == Some(end)
    ensures match Spelling(e.name)
      case None => !ReadMembers(c, doc, p, ms, last).ok
      case Some(name) => NameThenValue(c, doc, p, ms, last, name, q)
  {
    var after := [[COLON]] + rest;
    var m := PastSplit(doc, p, e.lead, [LiteralText(e.name)] + after, end);
    var s, t := SkipSpaces(doc, m), NextToken(doc, m);
    PastFirst(doc, m, LiteralText(e.name), after, end);
    LiteralRead(doc, s, e.name);
    CommentsPassed(doc, p, e.lead, m);
    PastFirst(doc, t.end, [COLON], rest, end);
    MarkText(doc, SkipSpaces(doc, t.end), COLON);
    q := NextToken(doc, t.end).end;
  }

  /** After a name and a colon, the value decides how reading the members goes on. */
  ghost predicate NameThenValue(
    c: Config, doc: Bytes, p: nat, ms: seq<Member>, last: Bytes, name: Bytes, q: nat)
    requires p <= |doc| && q <= |doc|
  {
    var key := UpToNul(name);
    var o := ReadValue(c, doc, q, Lookup(ms, key));
    if o.ok then ReadMembers(c, doc, p, ms, last) == EndMember(c, doc, o.pos, Put(ms, key, o.value), name)
    else !ReadMembers(c, doc, p, ms, last).ok
  }

  /** A member, and what comes after it. */
  lemma {:induction false} ReadEntry(c: Config, doc: Bytes, p: nat, ms: seq<Member>, last: Bytes, e: Entry,
                                     mark: Bytes, rest: seq<Bytes>, end: nat) returns (q: nat, t: Token)
    requires p <= |doc| && GoodEntry(c.features, e) && !IsComment(mark)
    requires Past(doc, p, EntryTokens(e) + ([mark] + rest)) == Some(end)
    ensures q <= |doc| && match EntryMember(c.doubles, ms, e)
      case None => !ReadMembers(c, doc, p, ms, last).ok
      case Some(ms') =>
        ReadMembers(c, doc, p, ms, last) == EndMember(c, doc, q, ms', Spelling(e.name).value)
    ensures t == SkipComments(doc, q) && t == TokenAt(doc, t.start) && TextOf(doc, t) == mark
    ensures if e.gap == [] then NextToken(doc, q) == t else NextToken(doc, q).kind == Comment
    ensures Past(doc, t.end, rest) == Some(end)
    decreases e
  {
    var m := PastSplit(doc, p, EntryTokens(e), [mark] + rest, end);
    var v := NameRead(c, doc, p, ms, last, e, LooseTokens(e.value) + e.gap, m);
    q := PastSplit(doc, v, LooseTokens(e.value), e.gap, m);
    var node := if Spelling(e.name).Some? then Lookup(ms, UpToNul(Spelling(e.name).value)) else Null;
    ReadLoose(c, doc, v, e.value, node, q);
    EntryYields(c, doc, p, ms, last, e, v, node, q);
    t := GapRead(doc, q, e.gap, m, mark, rest, end);
  }

  lemma EntryYields(c: Config, doc: Bytes, p: nat, ms: seq<Member>, last: Bytes, e: Entry, v: nat, node: Value, q: nat)
    requires p <= |doc| && v <= |doc| && q <= |doc|
    requires match Spelling(e.name)
      case None => !ReadMembers(c, doc, p, ms, last).ok
      case Some(name) => NameThenValue(c, doc, p, ms, last, name, v) && node == Lookup(ms, UpToNul(name))
    requires ValueYields(c, doc, v, node, LooseMeaning(c.doubles, e.value), q)
    ensures match EntryMember(c.doubles, ms, e)
      case None => !ReadMembers(c, doc, p, ms, last).ok
      case Some(ms') =>
        ReadMembers(c, doc, p, ms, last) == EndMember(c, doc, q, ms', Spelling(e.name).value)
  {
  }

  lemma {:induction false} ReadEntries(
    c: Config, doc: Bytes, p: nat, ms: seq<Member>, last: Bytes, entries: Entries, end: nat)
    requires p <= |doc| && GoodEntries(c.features, entries, Some(last))
    requires Past(doc, p, EntriesTokens(entries)) == Some(end)
    ensures MembersYield(c, doc, p, ms, last, AsObject(EntryMembers(c.doubles, ms, entries)), end)
    decreases entries, 1
  {
    match entries
    case NoEntry(lead) =>
      var m := PastSplit(doc, p, lead, [[CLOSE_BRACE]], end);
      MarkText(doc, SkipSpaces(doc, m), CLOSE_BRACE);
      CommentsPassed(doc, p, lead, m);
    case LastEntry(e) =>
      assert [[CLOSE_BRACE]] == [[CLOSE_BRACE]] + [];
      var q, t := ReadEntry(c, doc, p, ms, last, e, [CLOSE_BRACE], [], end);
      MarkText(doc, t.start, CLOSE_BRACE);
    case MoreEntries(e, mark, more) =>
      var q, t := ReadEntry(c, doc, p, ms, last, e, mark, EntriesTokens(more), end);
      MarkText(doc, t.start, CLOSE_BRACE);
      MarkText(doc, t.start, COMMA);
      var r := EntryMember(c.doubles, ms, e);
      if r.Some? {
        ReadEntries(c, doc, t.end, r.value, Spelling(e.name).value, more, end);
      }
  }

  // ---------- Whatever is read is a loose text ----------

  /** Where a value was read, the tokens are those of a text that means it. */
  ghost predicate Written(c: Config, doc: Bytes, p: nat, t: Loose, o: Outcome)
    requires p <= |doc|
  {
    && GoodLoose(c.features, t) && Past(doc, p, LooseTokens(t)) == Some(o.pos)
    && LooseMeaning(c.doubles, t) == Some(o.value)
  }

  lemma {:induction false} ValueTaken(c: Config, doc: Bytes, p: nat, node: Value) returns (t: Loose)
    requires p <= |doc| && ReadValue(c, doc, p, node).ok
    ensures Written(c, doc, p, t, ReadValue(c, doc, p, node))
    decreases |doc| - p, 1
  {
    var before, m := ValueStarts(c.features, doc, p);
    var tok := NextToken(doc, m);
    var b;
    if tok.kind == ObjectBegin {
      b := ObjectTaken(c, doc, p, m, node);
    } else if tok.kind == ArrayBegin {
      b := ArrayTaken(c, doc, p, m, node);
    } else {
      b := ScalarTaken(c, doc, p, m, node);
    }
    t := Loose(before, b);
    LooseWritten(c, doc, p, before, m, b, ReadValue(c, doc, p, node));
  }

  /** The same for a value whose first token comes after a position. */
  ghost predicate BodyWritten(c: Config, doc: Bytes, m: nat, b: Body, o: Outcome)
    requires m <= |doc|
  {
    && GoodBody(c.features, b) && Past(doc, m, BodyTokens(b)) == Some(o.pos)
    && LooseMeaning(c.doubles, Loose([], b)) == Some(o.value)
  }

  lemma LooseWritten(c: Config, doc: Bytes, p: nat, before: seq<Bytes>, m: nat, b: Body, o: Outcome)
    requires p <= |doc| && AllComments(before) && (before != [] ==> c.features.allowComments)
    requires Past(doc, p, before) == Some(m) && BodyWritten(c, doc, m, b, o)
    ensures Written(c, doc, p, Loose(before, b), o)
  {
    PastJoin(doc, p, before, m, BodyTokens(b), o.pos);
  }

  lemma ScalarTaken(c: Config, doc: Bytes, p: nat, m: nat, node: Value) returns (b: Body)
    requires p <= |doc| && m <= |doc| && FirstToken(c.features, doc, p) == NextToken(doc, m)
    requires NextToken(doc, m).kind != ObjectBegin && NextToken(doc, m).kind != ArrayBegin
    requires ReadValue(c, doc, p, node).ok
    ensures BodyWritten(c, doc, m, b, ReadValue(c, doc, p, node))
  {
    var s, t := SkipSpaces(doc, m), NextToken(doc, m);
    var text := TextOf(doc, t);
    if t.kind == Number {
      NumberText(doc, s);
      LooseNumberRead(c.doubles, text);
      NumberYields(c, doc, p, t, node);
      b := LooseNumeral(text);
    } else if t.kind == StringToken {
      assert StringOf(doc, t).Done?;
      var ps := LiteralTaken(doc, t);
      StringYields(c, doc, p, t, Contents(ps), node);
      b := LooseString(ps);
    } else {
      WordText(doc, s);
      WordYields(c, doc, p, t, node);
      b := if t.kind == NullToken then LooseNull else LooseBool(t.kind == True);
    }
    PastNext(doc, m, text, [], t.end);
    assert [text] + [] == [text];
  }

  lemma {:induction false} ArrayTaken(c: Config, doc: Bytes, p: nat, m: nat, node: Value) returns (b: Body)
    requires p <= m <= |doc| && FirstToken(c.features, doc, p) == NextToken(doc, m)
    requires NextToken(doc, m).kind == ArrayBegin && ReadValue(c, doc, p, node).ok
    ensures BodyWritten(c, doc, m, b, ReadValue(c, doc, p, node))
    decreases |doc| - p, 0
  {
    var t := NextToken(doc, m);
    var q := SkipSpaces(doc, t.end);
    ArrayGoesOn(c, doc, p, t, node);
    if NextToken(doc, t.end).kind == ArrayEnd {
      EmptyWritten(c, doc, m);
      b := EmptyArray;
    } else {
      var items := ItemsTaken(c, doc, q, []);
      ArrayWritten(c, doc, m, items, ReadElements(c, doc, q, []));
      b := LooseArray(items);
    }
  }

  /** How reading an array goes on after its opening bracket. */
  lemma ArrayGoesOn(c: Config, doc: Bytes, p: nat, t: Token, node: Value)
    requires p <= |doc| && FirstToken(c.features, doc, p) == t && t.kind == ArrayBegin
    ensures ReadValue(c, doc, p, node)
      == if NextToken(doc, t.end).kind == ArrayEnd then Outcome(true, Array([]), NextToken(doc, t.end).end, [])
         else ReadElements(c, doc, SkipSpaces(doc, t.end), [])
  {
    BracketPeek(doc, t.end);
  }

  lemma EmptyWritten(c: Config, doc: Bytes, m: nat)
    requires m <= |doc| && NextToken(doc, m).kind == ArrayBegin
    requires NextToken(doc, NextToken(doc, m).end).kind == ArrayEnd
    ensures var end := NextToken(doc, NextToken(doc, m).end).end;
      BodyWritten(c, doc, m, EmptyArray, Outcome(true, Array([]), end, []))
  {
    var t := NextToken(doc, m);
    var end := NextToken(doc, t.end).end;
    MarkText(doc, SkipSpaces(doc, m), OPEN_BRACKET);
    MarkText(doc, SkipSpaces(doc, t.end), CLOSE_BRACKET);
    PastNext(doc, t.end, [CLOSE_BRACKET], [], end);
    PastNext(doc, m, [OPEN_BRACKET], [[CLOSE_BRACKET]] + [], end);
    assert [[OPEN_BRACKET]] + ([[CLOSE_BRACKET]] + []) == [[OPEN_BRACKET], [CLOSE_BRACKET]];
  }

  lemma ArrayWritten(c: Config, doc: Bytes, m: nat, items: Items, o: Outcome)
    requires m <= |doc| && NextToken(doc, m).kind == ArrayBegin
    requires ItemsWritten(c, doc, SkipSpaces(doc, NextToken(doc, m).end), [], items, o)
    ensures BodyWritten(c, doc, m, LooseArray(items), o)
  {
    var t := NextToken(doc, m);
    MarkText(doc, SkipSpaces(doc, m), OPEN_BRACKET);
    PastSpaces(doc, t.end, ItemsTokens(items));
    PastNext(doc, m, [OPEN_BRACKET], ItemsTokens(items), o.pos);
  }

  /** At its end a document holds neither an element nor a member. */
  lemma NothingAtEnd(c: Config, doc: Bytes, p: nat, es: seq<Value>, ms: seq<Member>, last: Bytes)
    requires p == |doc|
    ensures !ReadElements(c, doc, p, es).ok && !ReadMembers(c, doc, p, ms, last).ok
  {
    assert NextToken(doc, p) == Token(EndOfStream, p, p);
  }

  lemma EmptyToken(doc: Bytes, s: nat)
    requires s <= |doc|
    ensures var t := TokenAt(doc, s); if TextOf(doc, t) == [] then t.end == |doc| else s < t.end
  {
  }

  /** Two texts, one after the other, and a token. */
  lemma JoinGap(doc: Bytes, p: nat, a: seq<Bytes>, q: nat, gap: seq<Bytes>, m: nat, rest: seq<Bytes>, end: nat)
    requires p <= |doc| && Past(doc, p, a) == Some(q) && q <= |doc| && Past(doc, q, gap) == Some(m) && m <= |doc|
    requires Past(doc, NextToken(doc, m).end, rest) == Some(end)
    ensures Past(doc, p, a + (gap + ([TextOf(doc, NextToken(doc, m))] + rest))) == Some(end)
  {
    var mark := TextOf(doc, NextToken(doc, m));
    PastNext(doc, m, mark, rest, end);
    PastJoin(doc, q, gap, m, [mark] + rest, end);
    PastJoin(doc, p, a, q, gap + ([mark] + rest), end);
  }

  /** From its first element on an array is a text of elements. */
  ghost predicate ItemsWritten(c: Config, doc: Bytes, p: nat, es: seq<Value>, items: Items, o: Outcome)
    requires p <= |doc|
  {
    && GoodElements(c.features, items) && Past(doc, p, ItemsTokens(items)) == Some(o.pos)
    && ItemsTokens(items) != [] && AsArray(es, ItemMeanings(c.doubles, items)) == Some(o.value)
  }

  /** How reading elements goes on after one of them. */
  lemma ElementsGoOn(c: Config, doc: Bytes, p: nat, es: seq<Value>, o: Outcome, t: Token)
    requires p <= |doc| && ReadElements(c, doc, p, es).ok && o == ReadValue(c, doc, p, Null)
    requires o.pos <= |doc| && t == SkipComments(doc, o.pos) && t.start <= |doc| && t == TokenAt(doc, t.start)
    ensures o.ok && t.start <= t.end <= |doc|
    ensures t.kind == ArrayEnd ==> ReadElements(c, doc, p, es) == Outcome(true, Array(es + [o.value]), t.end, [])
    ensures t.kind != ArrayEnd ==>
      p < t.end && TextOf(doc, t) != [] && ReadElements(c, doc, p, es) == ReadElements(c, doc, t.end, es + [o.value])
  {
    EmptyToken(doc, t.start);
    if t.kind != ArrayEnd && TextOf(doc, t) == [] {
      NothingAtEnd(c, doc, t.end, es + [o.value], [], []);
    }
  }

  lemma {:induction false} ItemsTaken(c: Config, doc: Bytes, p: nat, es: seq<Value>) returns (items: Items)
    requires p <= |doc| && ReadElements(c, doc, p, es).ok
    ensures ItemsWritten(c, doc, p, es, items, ReadElements(c, doc, p, es))
    decreases |doc| - p, 2
  {
    var o := ReadValue(c, doc, p, Null);
    var gap, m := CommentsTaken(doc, o.pos);
    var t := NextToken(doc, m);
    ElementsGoOn(c, doc, p, es, o, t);
    var v := ValueTaken(c, doc, p, Null);
    if t.kind == ArrayEnd {
      items := LastItem(Item(v, gap));
      LastWritten(c, doc, p, es, Item(v, gap), o, m);
    } else {
      var more := ItemsTaken(c, doc, t.end, es + [o.value]);
      items := MoreItems(Item(v, gap), TextOf(doc, t), more);
      MoreWritten(c, doc, p, es, Item(v, gap), o, m, more, ReadElements(c, doc, p, es));
    }
  }

  /** An element that was read, and the comments after it. */
  ghost predicate ItemWritten(c: Config, doc: Bytes, p: nat, x: Item, o: Outcome, m: nat)
    requires p <= |doc|
  {
    && Written(c, doc, p, x.value, o) && AllComments(x.gap) && o.pos <= |doc|
    && Past(doc, o.pos, x.gap) == Some(m) && NextToken(doc, m).kind != Comment
  }

  lemma LastWritten(c: Config, doc: Bytes, p: nat, es: seq<Value>, x: Item, o: Outcome, m: nat)
    requires p <= |doc| && ItemWritten(c, doc, p, x, o, m) && NextToken(doc, m).kind == ArrayEnd
    ensures ItemsWritten(c, doc, p, es, LastItem(x), Outcome(true, Array(es + [o.value]), NextToken(doc, m).end, []))
  {
    MarkText(doc, SkipSpaces(doc, m), CLOSE_BRACKET);
    JoinGap(doc, p, LooseTokens(x.value), o.pos, x.gap, m, [], NextToken(doc, m).end);
    assert [[CLOSE_BRACKET]] + [] == [[CLOSE_BRACKET]];
  }

  lemma MoreWritten(
    c: Config, doc: Bytes, p: nat, es: seq<Value>, x: Item, o: Outcome, m: nat, more: Items, o': Outcome)
    requires p <= |doc| && ItemWritten(c, doc, p, x, o, m)
    requires NextToken(doc, m).kind != ArrayEnd && TextOf(doc, NextToken(doc, m)) != []
    requires ItemsWritten(c, doc, NextToken(doc, m).end, es + [o.value], more, o')
    ensures ItemsWritten(c, doc, p, es, MoreItems(x, TextOf(doc, NextToken(doc, m)), more), o')
  {
    var s := SkipSpaces(doc, m);
    CommentText(doc, s);
    MarkText(doc, s, CLOSE_BRACKET);
    JoinGap(doc, p, LooseTokens(x.value), o.pos, x.gap, m, ItemsTokens(more), o'.pos);
    AsArrayStep(es, o.value, ItemMeanings(c.doubles, more));
  }

  lemma {:induction false} ObjectTaken(c: Config, doc: Bytes, p: nat, m: nat, node: Value) returns (b: Body)
    requires p <= m <= |doc| && FirstToken(c.features, doc, p) == NextToken(doc, m)
    requires NextToken(doc, m).kind == ObjectBegin && ReadValue(c, doc, p, node).ok
    ensures BodyWritten(c, doc, m, b, ReadValue(c, doc, p, node))
    decreases |doc| - p, 0
  {
    var t := NextToken(doc, m);
    MarkText(doc, SkipSpaces(doc, m), OPEN_BRACE);
    var entries := EntriesTaken(c, doc, t.end, [], []);
    PastNext(doc, m, [OPEN_BRACE], EntriesTokens(entries), ReadMembers(c, doc, t.end, [], []).pos);
    b := LooseObject(entries);
  }

  ghost predicate EntriesWritten(
    c: Config, doc: Bytes, p: nat, ms: seq<Member>, last: Bytes, entries: Entries, o: Outcome)
    requires p <= |doc|
  {
    && GoodEntries(c.features, entries, Some(last)) && Past(doc, p, EntriesTokens(entries)) == Some(o.pos)
    && AsObject(EntryMembers(c.doubles, ms, entries)) == Some(o.value)
  }

  lemma {:induction false} EntriesTaken(c: Config, doc: Bytes, p: nat, ms: seq<Member>, last: Bytes)
    returns (entries: Entries)
    requires p <= |doc| && ReadMembers(c, doc, p, ms, last).ok
    ensures EntriesWritten(c, doc, p, ms, last, entries, ReadMembers(c, doc, p, ms, last))
    decreases |doc| - p, 3
  {
    var o := ReadMembers(c, doc, p, ms, last);
    if SkipComments(doc, p).kind == ObjectEnd && last == [] {
      var lead, m := CommentsTaken(doc, p);
      NoEntryWritten(c, doc, p, ms, lead, m);
      entries := NoEntry(lead);
    } else {
      var e, m, ms' := EntryTaken(c, doc, p, ms, last);
      var t := NextToken(doc, m);
      if t.kind == ObjectEnd {
        LastEntryWritten(c, doc, p, ms, last, e, m, ms');
        entries := LastEntry(e);
      } else {
        var name := Spelling(e.name).value;
        MembersGoOn(c, doc, t, ms', name);
        var more := EntriesTaken(c, doc, t.end, ms', name);
        MoreEntriesWritten(c, doc, p, ms, last, e, m, ms', more, o);
        entries := MoreEntries(e, TextOf(doc, t), more);
      }
    }
  }

  lemma MembersGoOn(c: Config, doc: Bytes, t: Token, ms: seq<Member>, last: Bytes)
    requires t.start <= |doc| && t == TokenAt(doc, t.start) && ReadMembers(c, doc, t.end, ms, last).ok
    ensures TextOf(doc, t) != []
  {
    EmptyToken(doc, t.start);
    if TextOf(doc, t) == [] {
      NothingAtEnd(c, doc, t.end, [], ms, last);
    }
  }

  lemma NoEntryWritten(c: Config, doc: Bytes, p: nat, ms: seq<Member>, lead: seq<Bytes>, m: nat)
    requires p <= |doc| && AllComments(lead) && Past(doc, p, lead) == Some(m) && NextToken(doc, m).kind == ObjectEnd
    ensures EntriesWritten(c, doc, p, ms, [], NoEntry(lead), Outcome(true, Object(ms), NextToken(doc, m).end, []))
  {
    ClosePast(doc, m);
    PastJoin(doc, p, lead, m, [[CLOSE_BRACE]], NextToken(doc, m).end);
  }

  lemma ClosePast(doc: Bytes, m: nat)
    requires m <= |doc| && NextToken(doc, m).kind == ObjectEnd
    ensures Past(doc, m, [[CLOSE_BRACE]]) == Some(NextToken(doc, m).end)
  {
    MarkText(doc, SkipSpaces(doc, m), CLOSE_BRACE);
    PastNext(doc, m, [CLOSE_BRACE], [], NextToken(doc, m).end);
    assert [[CLOSE_BRACE]] + [] == [[CLOSE_BRACE]];
  }

  /** A member that was read into the ones before it, up to the token after it. */
  ghost predicate EntryWritten(
    c: Config, doc: Bytes, p: nat, ms: seq<Member>, e: Entry, m: nat, ms': seq<Member>)
    requires p <= |doc|
  {
    && GoodEntry(c.features, e) && m <= |doc| && Past(doc, p, EntryTokens(e)) == Some(m)
    && EntryMember(c.doubles, ms, e) == Some(ms')
    && var k := NextToken(doc, m).kind; k != Comment && (e.gap == [] ==> k == ObjectEnd || k == ArraySeparator)
  }

  lemma LastEntryWritten(
    c: Config, doc: Bytes, p: nat, ms: seq<Member>, last: Bytes, e: Entry, m: nat, ms': seq<Member>)
    requires p <= |doc| && EntryWritten(c, doc, p, ms, e, m, ms') && NextToken(doc, m).kind == ObjectEnd
    ensures EntriesWritten(c, doc, p, ms, last, LastEntry(e), Outcome(true, Object(ms'), NextToken(doc, m).end, []))
  {
    ClosePast(doc, m);
    PastJoin(doc, p, EntryTokens(e), m, [[CLOSE_BRACE]], NextToken(doc, m).end);
  }

  lemma MoreEntriesWritten(c: Config, doc: Bytes, p: nat, ms: seq<Member>, last: Bytes, e: Entry, m: nat,
                           ms': seq<Member>, more: Entries, o: Outcome)
    requires p <= |doc| && EntryWritten(c, doc, p, ms, e, m, ms')
    requires NextToken(doc, m).kind != ObjectEnd && TextOf(doc, NextToken(doc, m)) != []
    requires EntriesWritten(c, doc, NextToken(doc, m).end, ms', Spelling(e.name).value, more, o)
    ensures EntriesWritten(c, doc, p, ms, last, MoreEntries(e, TextOf(doc, NextToken(doc, m)), more), o)
  {
    var s, mark := SkipSpaces(doc, m), TextOf(doc, NextToken(doc, m));
    CommentText(doc, s);
    MarkText(doc, s, CLOSE_BRACE);
    MarkText(doc, s, COMMA);
    PastNext(doc, m, mark, EntriesTokens(more), o.pos);
    PastJoin(doc, p, EntryTokens(e), m, [mark] + EntriesTokens(more), o.pos);
  }

  lemma {:induction false} EntryTaken(c: Config, doc: Bytes, p: nat, ms: seq<Member>, last: Bytes)
    returns (e: Entry, m: nat, ms': seq<Member>)
    requires p <= |doc| && ReadMembers(c, doc, p, ms, last).ok
    requires !(SkipComments(doc, p).kind == ObjectEnd && last == [])
    ensures EntryWritten(c, doc, p, ms, e, m, ms') && p < m
    ensures var t := NextToken(doc, m);
      ReadMembers(c, doc, p, ms, last)
      == if t.kind == ObjectEnd then Outcome(true, Object(ms'), t.end, [])
         else ReadMembers(c, doc, t.end, ms', Spelling(e.name).value)
    decreases |doc| - p, 2
  {
    var lead, q := CommentsTaken(doc, p);
    var t := NextToken(doc, q);
    var name, colon := NameTaken(c, doc, p, ms, last, t);
    var ps := LiteralTaken(doc, t);
    var node := Lookup(ms, UpToNul(name));
    var o := ReadValue(c, doc, colon.end, node);
    var v := ValueTaken(c, doc, colon.end, node);
    var gap;
    gap, m := CommentsTaken(doc, o.pos);
    e, ms' := Entry(lead, ps, v, gap), Put(ms, UpToNul(name), o.value);
    MemberEnds(c, doc, o.pos, ms', name, m);
    EntryIsWritten(c, doc, p, ms, e, q, name, o, m);
  }

  /** A name that was read, and the colon after it. */
  lemma NameTaken(c: Config, doc: Bytes, p: nat, ms: seq<Member>, last: Bytes, t: Token)
    returns (name: Bytes, colon: Token)
    requires p <= |doc| && ReadMembers(c, doc, p, ms, last).ok && t == SkipComments(doc, p)
    requires !(t.kind == ObjectEnd && last == [])
    ensures t.kind == StringToken && StringOf(doc, t) == Done(name)
    ensures colon == NextToken(doc, t.end) && colon.kind == MemberSeparator
    ensures var key := UpToNul(name);
      var o := ReadValue(c, doc, colon.end, Lookup(ms, key));
      o.ok && ReadMembers(c, doc, p, ms, last) == EndMember(c, doc, o.pos, Put(ms, key, o.value), name)
  {
    name, colon := StringOf(doc, t).value, NextToken(doc, t.end);
  }

  lemma EntryIsWritten(
    c: Config, doc: Bytes, p: nat, ms: seq<Member>, e: Entry, q: nat, name: Bytes, o: Outcome, m: nat)
    requires p <= |doc| && AllComments(e.lead) && Past(doc, p, e.lead) == Some(q) && q <= |doc|
    requires GoodLiteral(e.name) && TextOf(doc, NextToken(doc, q)) == LiteralText(e.name)
    requires Contents(e.name) == Some(name)
    requires var colon := NextToken(doc, NextToken(doc, q).end);
      colon.kind == MemberSeparator && Written(c, doc, colon.end, e.value, o)
    requires o.pos <= |doc| && AllComments(e.gap) && Past(doc, o.pos, e.gap) == Some(m)
    requires var k := NextToken(doc, m).kind; k != Comment && (e.gap == [] ==> k == ObjectEnd || k == ArraySeparator)
    ensures EntryWritten(c, doc, p, ms, e, m, Put(ms, UpToNul(name), o.value))
  {
    EntryPast(doc, p, e, q, o.pos, m);
  }

  lemma EntryPast(doc: Bytes, p: nat, e: Entry, q: nat, end: nat, m: nat)
    requires p <= |doc| && Past(doc, p, e.lead) == Some(q) && q <= |doc|
    requires TextOf(doc, NextToken(doc, q)) == LiteralText(e.name)
    requires var colon := NextToken(doc, NextToken(doc, q).end);
      colon.kind == MemberSeparator && Past(doc, colon.end, LooseTokens(e.value)) == Some(end)
    requires end <= |doc| && Past(doc, end, e.gap) == Some(m)
    ensures Past(doc, p, EntryTokens(e)) == Some(m)
  {
    var t := NextToken(doc, q);
    var colon, rest := NextToken(doc, t.end), LooseTokens(e.value) + e.gap;
    MarkText(doc, colon.start, COLON);
    PastJoin(doc, colon.end, LooseTokens(e.value), end, e.gap, m);
    PastNext(doc, t.end, [COLON], rest, m);
    PastNext(doc, q, LiteralText(e.name), [[COLON]] + rest, m);
    PastJoin(doc, p, e.lead, q, [LiteralText(e.name)] + ([[COLON]] + rest), m);
  }

  /** What follows a member that was read, after comments. */
  lemma MemberEnds(c: Config, doc: Bytes, p: nat, ms: seq<Member>, name: Bytes, m: nat)
    requires p <= |doc| && m <= |doc| && NextToken(doc, m) == SkipComments(doc, p) && EndMember(c, doc, p, ms, name).ok
    ensures var t, k := NextToken(doc, m), NextToken(doc, p).kind;
      && (k != Comment ==> t.kind == ObjectEnd || t.kind == ArraySeparator)
      && EndMember(c, doc, p, ms, name)
      == if t.kind == ObjectEnd then Outcome(true, Object(ms), t.end, []) else ReadMembers(c, doc, t.end, ms, name)
  {
  }

  // ---------- Documents ----------

  /** A reader may insist that the root is an array, an object or null. */
  predicate GoodRoot(f: Features, t: Loose) {
    f.strictRoot ==> t.body.LooseNull? || t.body.EmptyArray? || t.body.LooseArray? || t.body.LooseObject?
  }

  lemma RootKind(d: Doubles, t: Loose)
    requires LooseMeaning(d, t).Some?
    ensures var v, b := LooseMeaning(d, t).value, t.body;
      v.Null? || v.Array? || v.Object? <==> b.LooseNull? || b.EmptyArray? || b.LooseArray? || b.LooseObject?
  {
  }

  /** A document starts with the tokens of a text; what comes after them does not matter. */
  ghost predicate StartsWith(c: Config, doc: Bytes, t: Loose) {
    GoodLoose(c.features, t) && Past(doc, 0, LooseTokens(t)).Some?
  }

  lemma RootYields(c: Config, doc: Bytes, root: Value, r: Option<Value>, end: nat)
    requires ValueYields(c, doc, 0, root, r, end)
    ensures var o := ParseDocument(c, doc, root);
      && (o.ok <==> r.Some? && (c.features.strictRoot ==> r.value.Null? || r.value.Array? || r.value.Object?))
      && (o.ok ==> o.value == r.value && o.errors == [])
  {
  }

  /** Parsing a document that starts with a text succeeds exactly if the text has a meaning, and then gives that. */
  lemma StartIsRead(c: Config, doc: Bytes, t: Loose, root: Value)
    requires StartsWith(c, doc, t)
    ensures var o, r := ParseDocument(c, doc, root), LooseMeaning(c.doubles, t);
      && (o.ok <==> r.Some? && GoodRoot(c.features, t))
      && (o.ok ==> o.value == r.value && o.errors == [])
  {
    var r, end := LooseMeaning(c.doubles, t), Past(doc, 0, LooseTokens(t)).value;
    ReadLoose(c, doc, 0, t, root, end);
    if r.Some? {
      RootKind(c.doubles, t);
    }
    RootYields(c, doc, root, r, end);
  }

  /** Parsing succeeds exactly if the document starts with a text that has a meaning. */
  lemma AcceptedExactly(c: Config, doc: Bytes, root: Value)
    ensures ParseDocument(c, doc, root).ok <==>
      exists t :: StartsWith(c, doc, t) && LooseMeaning(c.doubles, t).Some? && GoodRoot(c.features, t)
  {
    if ParseDocument(c, doc, root).ok {
      var t := ValueTaken(c, doc, 0, root);
      StartIsRead(c, doc, t, root);
    }
    forall t | StartsWith(c, doc, t) && LooseMeaning(c.doubles, t).Some? && GoodRoot(c.features, t)
      ensures ParseDocument(c, doc, root).ok
    {
      StartIsRead(c, doc, t, root);
    }
  }
}
