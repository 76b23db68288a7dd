/** The compact writer, and texts without their layout. Comments are not part of the model. */
module JsonWriters {
  import opened JsonText
  import opened JsonGrammar
  import opened JsonLayout
  import opened JsonRoundTrip

  // ---------- The compact writer ----------

  class FastWriter {
    const doubles: Doubles
    var yamlCompatibilityEnabled: bool
    var document: Bytes

    constructor (doubles: Doubles)
      ensures this.doubles == doubles && !yamlCompatibilityEnabled && document == []
    {
      this.doubles := doubles;
      yamlCompatibilityEnabled := false;
      document := [];
    }

    method EnableYamlCompatibility()
      modifies this`yamlCompatibilityEnabled
      ensures yamlCompatibilityEnabled
    {
      yamlCompatibilityEnabled := true;
    }

    method Write(root: Value) returns (text: Bytes)
      requires Storable(root)
      modifies this`document
      ensures text == document == Fast(doubles, yamlCompatibilityEnabled, root) + [NEWLINE]
    {
      document := [];
      WriteValue(root);
      document := document + [NEWLINE];
      text := document;
    }

    method WriteValue(v: Value)
      requires Storable(v)
      modifies this`document
      ensures document == old(document) + Fast(doubles, yamlCompatibilityEnabled, v)
      decreases v, 1
    {
      match v
      case Array(es) =>
        document := document + [OPEN_BRACKET];
        ghost var start := document;
        for index := 0 to |es|
          invariant document + ElemsFrom(doubles, yamlCompatibilityEnabled, es, index)
            == start + ElemsFrom(doubles, yamlCompatibilityEnabled, es, 0)
        {
          WriteElement(es, index);
        }
        ArrayWritten(doubles, yamlCompatibilityEnabled, es, old(document), document);
        document := document + [CLOSE_BRACKET];
      case Object(ms) =>
        document := document + [OPEN_BRACE];
        ghost var start := document;
        for index := 0 to |ms|
          invariant document + MembersFrom(doubles, yamlCompatibilityEnabled, ms, index)
            == start + MembersFrom(doubles, yamlCompatibilityEnabled, ms, 0)
        {
          WriteMember(ms, index);
        }
        ObjectWritten(doubles, yamlCompatibilityEnabled, ms, old(document), document);
        document := document + [CLOSE_BRACE];
      case _ =>
        var text := ScalarText(doubles, v);
        document := document + text;
    }

    /** One turn of the loop over the elements. */
    method WriteElement(es: seq<Value>, index: nat)
      requires index < |es| && Storable(es[index])
      modifies this`document
      ensures document + ElemsFrom(doubles, yamlCompatibilityEnabled, es, index + 1)
        == old(document) + ElemsFrom(doubles, yamlCompatibilityEnabled, es, index)
      decreases es, 0
    {
      if index > 0 {
        document := document + [COMMA];
      }
      WriteValue(es[index]);
      ElemsFromStep(doubles, yamlCompatibilityEnabled, es, index);
    }

    /** One turn of the loop over the members. */
    method WriteMember(ms: seq<Member>, index: nat)
      requires index < |ms| && Storable(ms[index].value)
      modifies this`document
      ensures document + MembersFrom(doubles, yamlCompatibilityEnabled, ms, index + 1)
        == old(document) + MembersFrom(doubles, yamlCompatibilityEnabled, ms, index)
      decreases ms, 0
    {
      ghost var before := document;
      ghost var comma: Bytes := if index > 0 then [COMMA] else [];
      if index > 0 {
        document := document + [COMMA];
      }
      assert document == before + comma;
      var name := ValueToQuotedString(ms[index].name);
      document := document + name;
      document := document + if yamlCompatibilityEnabled then [COLON, SPACE] else [COLON];
      WriteValue(ms[index].value);
      MembersFromStep(doubles, yamlCompatibilityEnabled, ms, index);
      RegroupMember(before, comma, name, Separator(yamlCompatibilityEnabled),
        Fast(doubles, yamlCompatibilityEnabled, ms[index].value),
        MembersFrom(doubles, yamlCompatibilityEnabled, ms, index + 1));
    }
  }

  lemma RegroupMember(before: Bytes, comma: Bytes, name: Bytes, colon: Bytes, value: Bytes, rest: Bytes)
    ensures before + comma + name + colon + value + rest == before + (comma + (name + colon + value) + rest)
  {
  }

  lemma Regroup(a: Bytes, b: Bytes, c: Bytes, e: Bytes)
    ensures a + b + c + e == a + (b + c + e)
  {
  }

  /** Values with 64-bit integers. */
  predicate Storable(v: Value) {
    match v
    case Int(i) => -MAX_INT - 1 <= i <= MAX_INT
    case UInt(u) => u <= MAX_UINT
    case Array(es) => forall i :: 0 <= i < |es| ==> Storable(es[i])
    case Object(ms) => forall i :: 0 <= i < |ms| ==> Storable(ms[i].value)
    case _ => true
  }

  method ScalarText(d: Doubles, v: Value) returns (t: Bytes)
    requires Storable(v) && !v.Array? && !v.Object?
    ensures t == Scalar(d, v)
  {
    match v
    case Null => t := NULL_TEXT;
    case Bool(b) => t := if b then TRUE_TEXT else FALSE_TEXT;
    case Int(i) => t := IntToString(i);
    case UInt(u) => t := UIntToString(u);
    case Real(r) => t := d.show(r);
    case String(s) => t := ValueToQuotedString(s);
  }

  /** The text of the elements from an index on, with the comma before it if it is not the first. */
  ghost function ElemsFrom(d: Doubles, yaml: bool, es: seq<Value>, i: nat): Bytes
    requires i <= |es|
  {
    (if 0 < i < |es| then [COMMA] else []) + FastElems(d, yaml, es[i..])
  }

  ghost function MembersFrom(d: Doubles, yaml: bool, ms: seq<Member>, i: nat): Bytes
    requires i <= |ms|
  {
    (if 0 < i < |ms| then [COMMA] else []) + FastMembers(d, yaml, ms[i..])
  }

  lemma FromEnds(d: Doubles, yaml: bool, es: seq<Value>, ms: seq<Member>)
    ensures ElemsFrom(d, yaml, es, 0) == FastElems(d, yaml, es) && ElemsFrom(d, yaml, es, |es|) == []
    ensures MembersFrom(d, yaml, ms, 0) == FastMembers(d, yaml, ms) && MembersFrom(d, yaml, ms, |ms|) == []
  {
    assert es[0..] == es && [] + FastElems(d, yaml, es) == FastElems(d, yaml, es);
    assert ms[0..] == ms && [] + FastMembers(d, yaml, ms) == FastMembers(d, yaml, ms);
  }

  lemma ArrayWritten(d: Doubles, yaml: bool, es: seq<Value>, before: Bytes, text: Bytes)
    requires text + ElemsFrom(d, yaml, es, |es|) == before + [OPEN_BRACKET] + ElemsFrom(d, yaml, es, 0)
    ensures text + [CLOSE_BRACKET] == before + Fast(d, yaml, Array(es))
  {
    FromEnds(d, yaml, es, []);
    Regroup(before, [OPEN_BRACKET], FastElems(d, yaml, es), [CLOSE_BRACKET]);
  }

  lemma ObjectWritten(d: Doubles, yaml: bool, ms: seq<Member>, before: Bytes, text: Bytes)
    requires text + MembersFrom(d, yaml, ms, |ms|) == before + [OPEN_BRACE] + MembersFrom(d, yaml, ms, 0)
    ensures text + [CLOSE_BRACE] == before + Fast(d, yaml, Object(ms))
  {
    FromEnds(d, yaml, [], ms);
    Regroup(before, [OPEN_BRACE], FastMembers(d, yaml, ms), [CLOSE_BRACE]);
  }

  lemma ElemsFromStep(d: Doubles, yaml: bool, es: seq<Value>, i: nat)
    requires i < |es|
    ensures ElemsFrom(d, yaml, es, i)
      == (if i > 0 then [COMMA] else []) + Fast(d, yaml, es[i]) + ElemsFrom(d, yaml, es, i + 1)
  {
    assert es[i..][1..] == es[i + 1..];
  }

  lemma MembersFromStep(d: Doubles, yaml: bool, ms: seq<Member>, i: nat)
    requires i < |ms|
    ensures MembersFrom(d, yaml, ms, i)
      == (if i > 0 then [COMMA] else []) + (Quote(UpToNul(ms[i].name)) + Separator(yaml) + Fast(d, yaml, ms[i].value))
         + MembersFrom(d, yaml, ms, i + 1)
  {
    var rest := ms[i..];
    assert rest[1..] == ms[i + 1..];
    assert FastMember(d, yaml, rest[0]) == Quote(UpToNul(ms[i].name)) + Separator(yaml) + Fast(d, yaml, ms[i].value);
  }

  // ---------- Text without its layout ----------

  /** Where a text stands: outside string literals, inside one, or after a backslash inside one. */
  datatype Mode = Outside | Inside | Escaped

  function Next(m: Mode, c: byte): Mode {
    match m
    case Outside => if c == QUOTE then Inside else Outside
    case Inside => if c == QUOTE then Outside else if c == BACKSLASH then Escaped else Inside
    case Escaped => Inside
  }

  function After(m: Mode, t: Bytes): Mode
    decreases |t|
  {
    if t == [] then m else After(Next(m, t[0]), t[1..])
  }

  /** The text without the white space outside its string literals. */
  function Strip(m: Mode, t: Bytes): Bytes
    decreases |t|
  {
    if t == [] then []
    else (if m == Outside && IsSpace(t[0]) then [] else [t[0]]) + Strip(Next(m, t[0]), t[1..])
  }

  /** A text that ends outside its string literals. */
  predicate Whole(t: Bytes) {
    After(Outside, t) == Outside
  }

  function Core(t: Bytes): Bytes {
    Strip(Outside, t)
  }

  lemma {:induction false} StripConcat(m: Mode, a: Bytes, b: Bytes)
    ensures After(m, a + b) == After(After(m, a), b)
    ensures Strip(m, a + b) == Strip(m, a) + Strip(After(m, a), b)
    decreases |a|
  {
    if a == [] {
      assert a + b == b;
    } else {
      var m' := Next(m, a[0]);
      var front := if m == Outside && IsSpace(a[0]) then [] else [a[0]];
      assert (a + b)[1..] == a[1..] + b && (a + b)[0] == a[0];
      StripConcat(m', a[1..], b);
      Regrouped(front, Strip(m', a[1..]), Strip(After(m', a[1..]), b));
    }
  }

  lemma {:induction false} BlankCore(t: Bytes)
    requires Blank(t)
    ensures Whole(t) && Core(t) == []
  {
    if t != [] {
      BlankCore(t[1..]);
    }
  }

  lemma {:induction false} PlainCore(t: Bytes)
    requires Plain(t)
    ensures Whole(t) && Core(t) == t
  {
    if t != [] {
      PlainCore(t[1..]);
      assert t == [t[0]] + t[1..];
    }
  }

  lemma {:induction false} EscapedCore(s: Bytes)
    ensures After(Inside, EscapeAll(s)) == Inside && Strip(Inside, EscapeAll(s)) == EscapeAll(s)
  {
    if s != [] {
      var t := EscapeByte(s[0]);
      EscapedCore(s[1..]);
      EscapeByteCore(s[0]);
      StripConcat(Inside, t, EscapeAll(s[1..]));
    }
  }

  lemma EscapeByteCore(c: byte)
    ensures After(Inside, EscapeByte(c)) == Inside && Strip(Inside, EscapeByte(c)) == EscapeByte(c)
  {
    var t := EscapeByte(c);
    if |t| == 2 {
      TwoCore(t);
    } else if |t| == 6 {
      assert t == t[..2] + t[2..];
      TwoCore(t[..2]);
      InsideCore(t[2..]);
      StripConcat(Inside, t[..2], t[2..]);
    } else {
      InsideCore(t);
    }
  }

  lemma TwoCore(t: Bytes)
    requires |t| == 2 && t[0] == BACKSLASH
    ensures After(Inside, t) == Inside && Strip(Inside, t) == t
  {
    assert t[1..] == [t[1]] && t[1..][1..] == [];
    assert After(Escaped, t[1..]) == Inside && Strip(Escaped, t[1..]) == [t[1]];
  }

  lemma {:induction false} InsideCore(t: Bytes)
    requires forall i :: 0 <= i < |t| ==> t[i] != QUOTE && t[i] != BACKSLASH
    ensures After(Inside, t) == Inside && Strip(Inside, t) == t
  {
    if t != [] {
      InsideCore(t[1..]);
      assert t == [t[0]] + t[1..];
    }
  }

  /** A string literal has no layout of its own. */
  lemma QuoteCore(s: Bytes)
    ensures Whole(Quote(s)) && Core(Quote(s)) == Quote(s)
  {
    var body := EscapeAll(s) + [QUOTE];
    EscapedCore(s);
    StripConcat(Inside, EscapeAll(s), [QUOTE]);
    assert Quote(s) == [QUOTE] + body;
    StripConcat(Outside, [QUOTE], body);
    assert After(Outside, [QUOTE]) == Inside && Strip(Outside, [QUOTE]) == [QUOTE];
    assert After(Inside, [QUOTE]) == Outside && Strip(Inside, [QUOTE]) == [QUOTE];
  }

  /** A token: a text that closes its literals and has no layout of its own. */
  ghost predicate IsToken(t: Bytes) {
    Solid(t) && Whole(t) && Core(t) == t
  }

  ghost predicate AllTokens(ts: seq<Bytes>) {
    forall i :: 0 <= i < |ts| ==> IsToken(ts[i])
  }

  lemma MarkTokens()
    ensures IsToken([OPEN_BRACKET]) && IsToken([CLOSE_BRACKET]) && IsToken([OPEN_BRACE]) && IsToken([CLOSE_BRACE])
    ensures IsToken([COMMA]) && IsToken([COLON])
  {
    PlainCore([OPEN_BRACKET]);
    PlainCore([CLOSE_BRACKET]);
    PlainCore([OPEN_BRACE]);
    PlainCore([CLOSE_BRACE]);
    PlainCore([COMMA]);
    PlainCore([COLON]);
  }

  lemma ScalarToken(d: Doubles, v: Value)
    requires ShowsPlain(d, v) && !v.Array? && !v.Object?
    ensures IsToken(Scalar(d, v))
  {
    ScalarSolid(d, v);
    if v.String? {
      QuoteCore(UpToNul(v.s));
    } else {
      PlainCore(Scalar(d, v));
    }
  }

  lemma {:induction false} TokensAreTokens(d: Doubles, v: Value, rest: seq<Bytes>)
    requires ShowsPlain(d, v) && AllTokens(rest)
    ensures AllTokens(Tokens(d, v, rest))
    decreases v, 1
  {
    MarkTokens();
    match v
    case Array(es) =>
      ElemsAreTokens(d, es, [[CLOSE_BRACKET]] + rest);
    case Object(ms) =>
      MembersAreTokens(d, ms, [[CLOSE_BRACE]] + rest);
    case _ =>
      ScalarToken(d, v);
  }

  lemma {:induction false} ElemsAreTokens(d: Doubles, es: seq<Value>, rest: seq<Bytes>)
    requires AllShowPlain(d, es) && AllTokens(rest)
    ensures AllTokens(ElemTokens(d, es, rest))
    decreases es, 0
  {
    if es != [] {
      MarkTokens();
      ElemsAreTokens(d, es[1..], rest);
      TokensAreTokens(d, es[0], AfterElem(d, es, rest));
    }
  }

  lemma {:induction false} MembersAreTokens(d: Doubles, ms: seq<Member>, rest: seq<Bytes>)
    requires MembersShowPlain(d, ms) && AllTokens(rest)
    ensures AllTokens(MemberTokens(d, ms, rest))
    decreases ms, 0
  {
    if ms != [] {
      MarkTokens();
      QuoteCore(UpToNul(ms[0].name));
      MembersAreTokens(d, ms[1..], rest);
      TokensAreTokens(d, ms[0].value, AfterMember(d, ms, rest));
    }
  }

  // ---------- Texts made of pieces ----------

  ghost function Flatten(ts: seq<Bytes>): Bytes {
    if ts == [] then [] else ts[0] + Flatten(ts[1..])
  }

  /** Texts one after the other; in the form for YAML a space follows each colon. */
  ghost function Joined(yaml: bool, ts: seq<Bytes>): Bytes {
    if ts == [] then []
    else ts[0] + (if yaml && ts[0] == [COLON] then [SPACE] else []) + Joined(yaml, ts[1..])
  }

  lemma {:induction false} JoinedPlain(ts: seq<Bytes>)
    ensures Joined(false, ts) == Flatten(ts)
  {
    if ts != [] {
      JoinedPlain(ts[1..]);
      assert ts[0] + [] == ts[0];
    }
  }

  /** The compact text is the tokens, one after the other, in both its forms. */
  lemma {:induction false} FastFlatten(d: Doubles, yaml: bool, v: Value, rest: seq<Bytes>)
    requires ShowsPlain(d, v)
    ensures Joined(yaml, Tokens(d, v, rest)) == Fast(d, yaml, v) + Joined(yaml, rest)
    decreases v, 1
  {
    match v
    case Array(es) =>
      var close := [[CLOSE_BRACKET]] + rest;
      ElemsFlatten(d, yaml, es, close);
      ContainerFlatten(
        yaml, [OPEN_BRACKET], FastElems(d, yaml, es), [CLOSE_BRACKET], ElemTokens(d, es, close), rest);
    case Object(ms) =>
      var close := [[CLOSE_BRACE]] + rest;
      MembersFlatten(d, yaml, ms, close);
      ContainerFlatten(
        yaml, [OPEN_BRACE], FastMembers(d, yaml, ms), [CLOSE_BRACE], MemberTokens(d, ms, close), rest);
    case _ =>
      NoColon(d, v);
      JoinedCons(yaml, Scalar(d, v), rest);
  }

  lemma NoColon(d: Doubles, v: Value)
    requires !v.Array? && !v.Object? && ShowsPlain(d, v)
    ensures Scalar(d, v) != [COLON]
  {
    if v.Int? || v.UInt? {
      var n: nat := if v.UInt? then v.u else if v.i < 0 then -v.i else v.i;
      assert IsDigit(Digits(n)[|Digits(n)| - 1]);
    } else if v.Real? {
      assert IsMark([COLON][0]);
    }
  }

  lemma ContainerFlatten(yaml: bool, open: Bytes, body: Bytes, close: Bytes, ts: seq<Bytes>, rest: seq<Bytes>)
    requires open != [COLON] && close != [COLON] && Joined(yaml, ts) == body + Joined(yaml, [close] + rest)
    ensures Joined(yaml, [open] + ts) == open + body + close + Joined(yaml, rest)
  {
    JoinedCons(yaml, close, rest);
    JoinedCons(yaml, open, ts);
    Nested4(open, body, close, Joined(yaml, rest));
  }

  lemma Nested4(a: Bytes, b: Bytes, c: Bytes, e: Bytes)
    ensures a + (b + (c + e)) == a + b + c + e
  {
    Regrouped(a, b, c + e);
    Regrouped(a + b, c, e);
  }

  lemma JoinedCons(yaml: bool, t: Bytes, rest: seq<Bytes>)
    ensures Joined(yaml, [t] + rest) == (if t == [COLON] then Separator(yaml) else t) + Joined(yaml, rest)
  {
    assert ([t] + rest)[1..] == rest;
    assert t + [] == t && [COLON] + [SPACE] == [COLON, SPACE];
  }

  lemma {:induction false} ElemsFlatten(d: Doubles, yaml: bool, es: seq<Value>, rest: seq<Bytes>)
    requires AllShowPlain(d, es)
    ensures Joined(yaml, ElemTokens(d, es, rest)) == FastElems(d, yaml, es) + Joined(yaml, rest)
    decreases es, 0
  {
    if es != [] {
      var more := es[1..];
      FastFlatten(d, yaml, es[0], AfterElem(d, es, rest));
      if |es| > 1 {
        ElemsFlatten(d, yaml, more, rest);
        CommaFlatten(yaml, ElemTokens(d, more, rest), FastElems(d, yaml, more), rest);
      }
      Regrouped(Fast(d, yaml, es[0]), ElemsTail(d, yaml, es), Joined(yaml, rest));
    }
  }

  lemma CommaFlatten(yaml: bool, ts: seq<Bytes>, text: Bytes, rest: seq<Bytes>)
    requires Joined(yaml, ts) == text + Joined(yaml, rest)
    ensures Joined(yaml, [[COMMA]] + ts) == [COMMA] + text + Joined(yaml, rest)
  {
    JoinedCons(yaml, [COMMA], ts);
    Regrouped([COMMA], text, Joined(yaml, rest));
  }

  lemma NameFlatten(yaml: bool, name: Bytes, ts: seq<Bytes>, text: Bytes, tail: Bytes, rest: Bytes)
    requires name != [COLON] && Joined(yaml, ts) == text + (tail + rest)
    ensures Joined(yaml, [name] + ([[COLON]] + ts)) == name + Separator(yaml) + text + tail + rest
  {
    JoinedCons(yaml, [COLON], ts);
    JoinedCons(yaml, name, [[COLON]] + ts);
    RegroupNamed(name, Separator(yaml), text, tail, rest);
  }

  lemma {:induction false} MembersFlatten(d: Doubles, yaml: bool, ms: seq<Member>, rest: seq<Bytes>)
    requires MembersShowPlain(d, ms)
    ensures Joined(yaml, MemberTokens(d, ms, rest)) == FastMembers(d, yaml, ms) + Joined(yaml, rest)
    decreases ms, 0
  {
    if ms != [] {
      var more, after, tail := ms[1..], AfterMember(d, ms, rest), MembersTail(d, yaml, ms);
      FastFlatten(d, yaml, ms[0].value, after);
      if |ms| > 1 {
        MembersFlatten(d, yaml, more, rest);
        CommaFlatten(yaml, MemberTokens(d, more, rest), FastMembers(d, yaml, more), rest);
      }
      NameFlatten(yaml, Quote(UpToNul(ms[0].name)), Tokens(d, ms[0].value, after), Fast(d, yaml, ms[0].value), tail,
        Joined(yaml, rest));
      assert FastMembers(d, yaml, ms) == FastMember(d, yaml, ms[0]) + tail;
    }
  }

  lemma RegroupNamed(name: Bytes, colon: Bytes, t: Bytes, tail: Bytes, rest: Bytes)
    ensures name + colon + t + tail + rest == name + (colon + (t + (tail + rest)))
  {
  }

  /** A text laid out as tokens is, layout apart, the tokens one after the other. */
  lemma {:induction false} LaidCore(doc: Bytes, p: nat, ts: seq<Bytes>)
    requires p <= |doc| && LaidAt(doc, p, ts) && AllTokens(ts)
    ensures Core(doc[p..]) == Flatten(ts)
    decreases |ts|
  {
    var q := LaidSkip(doc, p, ts);
    SpacesCore(doc, p, q);
    if ts == [] {
      LaidEnd(doc, p);
    } else {
      var t, rest := ts[0], ts[1..];
      assert ts == [t] + rest;
      q := LaidStep(doc, p, t, rest);
      TokenCore(doc, q, t);
      LaidCore(doc, q + |t|, rest);
    }
  }

  lemma SpacesCore(doc: Bytes, p: nat, q: nat)
    requires p <= |doc| && q == SkipSpaces(doc, p)
    ensures Core(doc[p..]) == Core(doc[q..])
  {
    SpacesBlank(doc, p);
    assert doc[p..] == doc[p..q] + doc[q..];
    BlankFront(doc[p..q], doc[q..]);
  }

  lemma BlankFront(a: Bytes, b: Bytes)
    requires Blank(a)
    ensures Core(a + b) == Core(b)
  {
    BlankCore(a);
    StripConcat(Outside, a, b);
  }

  lemma TokenCore(doc: Bytes, p: nat, t: Bytes)
    requires Here(doc, p, t) && IsToken(t)
    ensures p + |t| <= |doc| && Core(doc[p..]) == t + Core(doc[p + |t|..])
  {
    HereSlice(doc, p, t);
    assert doc[p..] == t + doc[p + |t|..];
    StripConcat(Outside, t, doc[p + |t|..]);
  }

  lemma {:induction false} SpacesBlank(doc: Bytes, p: nat)
    requires p <= |doc|
    ensures Blank(doc[p..SkipSpaces(doc, p)])
    decreases |doc| - p
  {
    if p < |doc| && IsSpace(doc[p]) {
      SpacesBlank(doc, p + 1);
      assert doc[p..SkipSpaces(doc, p)] == [doc[p]] + doc[p + 1..SkipSpaces(doc, p)];
    }
  }

  /** Layout apart, what the compact writer prints is its compact text without the YAML space. */
  lemma CompactCore(d: Doubles, yaml: bool, v: Value)
    requires ShowsPlain(d, v)
    ensures Core(Fast(d, yaml, v) + [NEWLINE]) == Fast(d, false, v)
  {
    CompactLaid(d, yaml, v);
    LaidIsFast(d, Fast(d, yaml, v) + [NEWLINE], v);
  }

  /** Layout apart, any text with the tokens of a value is its compact text. */
  lemma LaidIsFast(d: Doubles, doc: Bytes, v: Value)
    requires ShowsPlain(d, v) && LaidAt(doc, 0, Tokens(d, v, []))
    ensures Core(doc) == Fast(d, false, v)
  {
    TokensAreTokens(d, v, []);
    LaidCore(doc, 0, Tokens(d, v, []));
    FastFlatten(d, false, v, []);
    JoinedPlain(Tokens(d, v, []));
    assert doc[0..] == doc && Fast(d, false, v) + [] == Fast(d, false, v);
  }

  /** The pieces that are not white space. */
  ghost function Solids(ps: seq<Bytes>): seq<Bytes> {
    if ps == [] then [] else (if Blank(ps[0]) then [] else [ps[0]]) + Solids(ps[1..])
  }

  ghost predicate Pieces(ps: seq<Bytes>) {
    forall i :: 0 <= i < |ps| ==> Blank(ps[i]) || Solid(ps[i])
  }

  lemma {:induction false} PiecesConcat(a: seq<Bytes>, b: seq<Bytes>)
    ensures Flatten(a + b) == Flatten(a) + Flatten(b) && Solids(a + b) == Solids(a) + Solids(b)
  {
    if a == [] {
      assert a + b == b;
    } else {
      assert (a + b)[1..] == a[1..] + b;
      PiecesConcat(a[1..], b);
      Regrouped(a[0], Flatten(a[1..]), Flatten(b));
    }
  }

  /** A text put together from pieces is laid out as those of them that are not white space. */
  lemma {:induction false} PiecesLaid(doc: Bytes, p: nat, ps: seq<Bytes>)
    requires Pieces(ps) && Here(doc, p, Flatten(ps)) && p + |Flatten(ps)| == |doc|
    ensures LaidAt(doc, p, Solids(ps))
    decreases |ps|
  {
    if ps == [] {
      LaidEnd(doc, p);
    } else {
      HereSplit(doc, p, ps[0], Flatten(ps[1..]));
      PiecesLaid(doc, p + |ps[0]|, ps[1..]);
      if Blank(ps[0]) {
        LaidBlank(doc, p, ps[0], Solids(ps[1..]));
        assert [] + Solids(ps[1..]) == Solids(ps[1..]);
      } else {
        LaidCons(doc, p, ps[0], Solids(ps[1..]));
      }
    }
  }

  lemma {:induction false} TokensAreSolid(ts: seq<Bytes>)
    requires AllTokens(ts)
    ensures Pieces(ts) && Solids(ts) == ts
  {
    if ts != [] {
      TokensAreSolid(ts[1..]);
      assert ts == [ts[0]] + ts[1..] && !Blank(ts[0]);
    }
  }

  /** A text put together from pieces, those of them that are not white space being the given tokens. */
  ghost predicate Spells(text: Bytes, ps: seq<Bytes>, ts: seq<Bytes>) {
    Pieces(ps) && Flatten(ps) == text && Solids(ps) == ts
  }

  lemma OnePiece(t: Bytes)
    ensures Blank(t) ==> Spells(t, [t], [])
    ensures Solid(t) ==> Spells(t, [t], [t])
  {
    assert [t][1..] == [] && Flatten([t]) == t + [] == t;
  }

  lemma SpellsConcat(a: Bytes, ps: seq<Bytes>, ts: seq<Bytes>, b: Bytes, ps': seq<Bytes>, ts': seq<Bytes>)
    requires Spells(a, ps, ts) && Spells(b, ps', ts')
    ensures Spells(a + b, ps + ps', ts + ts')
  {
    PiecesConcat(ps, ps');
  }

  lemma ValueSpells(d: Doubles, v: Value)
    requires ShowsPlain(d, v)
    ensures Spells(Fast(d, false, v), Tokens(d, v, []), Tokens(d, v, []))
  {
    TokensAreTokens(d, v, []);
    TokensAreSolid(Tokens(d, v, []));
    FastFlatten(d, false, v, []);
    JoinedPlain(Tokens(d, v, []));
    assert Fast(d, false, v) + [] == Fast(d, false, v);
  }

  // ---------- Tokens one after the other ----------

  lemma {:induction false} TokensApart(d: Doubles, v: Value, rest: seq<Bytes>)
    ensures Tokens(d, v, rest) == Tokens(d, v, []) + rest
    decreases v, 1
  {
    match v
    case Array(es) =>
      ElemsApart(d, es, [[CLOSE_BRACKET]] + rest);
      ElemsApart(d, es, [[CLOSE_BRACKET]] + []);
      ContainerApart([OPEN_BRACKET], ElemTokens(d, es, []), [CLOSE_BRACKET], rest);
    case Object(ms) =>
      MembersApart(d, ms, [[CLOSE_BRACE]] + rest);
      MembersApart(d, ms, [[CLOSE_BRACE]] + []);
      ContainerApart([OPEN_BRACE], MemberTokens(d, ms, []), [CLOSE_BRACE], rest);
    case _ =>
      assert [Scalar(d, v)] + [] + rest == [Scalar(d, v)] + rest;
  }

  lemma ContainerApart(open: Bytes, ts: seq<Bytes>, close: Bytes, rest: seq<Bytes>)
    ensures [open] + (ts + ([close] + rest)) == [open] + (ts + ([close] + [])) + rest
  {
  }

  lemma {:induction false} ElemsApart(d: Doubles, es: seq<Value>, rest: seq<Bytes>)
    ensures ElemTokens(d, es, rest) == ElemTokens(d, es, []) + rest
    decreases es, 0
  {
    if es != [] {
      ElemsApart(d, es[1..], rest);
      TokensApart(d, es[0], AfterElem(d, es, rest));
      TokensApart(d, es[0], AfterElem(d, es, []));
    }
  }

  lemma {:induction false} MembersApart(d: Doubles, ms: seq<Member>, rest: seq<Bytes>)
    ensures MemberTokens(d, ms, rest) == MemberTokens(d, ms, []) + rest
    decreases ms, 0
  {
    if ms != [] {
      MembersApart(d, ms[1..], rest);
      TokensApart(d, ms[0].value, AfterMember(d, ms, rest));
      TokensApart(d, ms[0].value, AfterMember(d, ms, []));
    }
  }

  /** The tokens of a name and its value. */
  ghost function NamedTokens(d: Doubles, m: Member): seq<Bytes> {
    [Quote(UpToNul(m.name)), [COLON]] + Tokens(d, m.value, [])
  }

  lemma ContainerTokens(d: Doubles, es: seq<Value>, ms: seq<Member>)
    ensures Tokens(d, Array(es), []) == [[OPEN_BRACKET]] + ElemTokens(d, es, []) + [[CLOSE_BRACKET]]
    ensures Tokens(d, Object(ms), []) == [[OPEN_BRACE]] + MemberTokens(d, ms, []) + [[CLOSE_BRACE]]
  {
    ElemsApart(d, es, [[CLOSE_BRACKET]] + []);
    MembersApart(d, ms, [[CLOSE_BRACE]] + []);
  }
}
