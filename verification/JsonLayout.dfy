/** Texts as tokens with white space between them: what a value's text is in any layout. */
module JsonLayout {
  import opened JsonText
  import opened JsonGrammar

  // ---------- Text at a position ----------

  /** A document holds a text at a position. */
  ghost predicate Here(doc: Bytes, p: nat, t: Bytes)
    decreases |t|
  {
    if t == [] then p <= |doc| else p < |doc| && doc[p] == t[0] && Here(doc, p + 1, t[1..])
  }

  lemma {:induction false} HereAt(doc: Bytes, p: nat, t: Bytes, i: nat)
    requires Here(doc, p, t) && i < |t|
    ensures p + i < |doc| && doc[p + i] == t[i]
    decreases i
  {
    if i > 0 {
      HereAt(doc, p + 1, t[1..], i - 1);
    }
  }

  lemma {:induction false} HereSlice(doc: Bytes, p: nat, t: Bytes)
    ensures Here(doc, p, t) <==> p + |t| <= |doc| && doc[p..p + |t|] == t
    decreases |t|
  {
    if t != [] && p < |doc| {
      HereSlice(doc, p + 1, t[1..]);
      if p + |t| <= |doc| {
        assert doc[p..p + |t|] == [doc[p]] + doc[p + 1..p + |t|] && t == [t[0]] + t[1..];
        assert doc[p..p + |t|][1..] == doc[p + 1..p + |t|];
      }
    }
  }

  lemma {:induction false} HereSplit(doc: Bytes, p: nat, a: Bytes, b: Bytes)
    requires Here(doc, p, a + b)
    ensures Here(doc, p, a) && Here(doc, p + |a|, b) && p + |a| + |b| <= |doc|
    decreases |a|
  {
    if a == [] {
      assert a + b == b;
      HereSlice(doc, p, b);
    } else {
      assert (a + b)[1..] == a[1..] + b;
      HereSplit(doc, p + 1, a[1..], b);
    }
  }

  lemma HereSplitAs(doc: Bytes, p: nat, whole: Bytes, a: Bytes, b: Bytes)
    requires Here(doc, p, whole) && whole == a + b
    ensures Here(doc, p, a) && Here(doc, p + |a|, b) && |whole| == |a| + |b| && p + |whole| <= |doc|
  {
    HereSplit(doc, p, a, b);
  }

  // ---------- The tokens of a value ----------

  /** The tokens of a value, followed by others. */
  ghost function Tokens(d: Doubles, v: Value, rest: seq<Bytes>): seq<Bytes>
    decreases v, 2
  {
    match v
    case Array(es) => [[OPEN_BRACKET]] + ElemTokens(d, es, [[CLOSE_BRACKET]] + rest)
    case Object(ms) => [[OPEN_BRACE]] + MemberTokens(d, ms, [[CLOSE_BRACE]] + rest)
    case _ => [Scalar(d, v)] + rest
  }

  ghost function ElemTokens(d: Doubles, es: seq<Value>, rest: seq<Bytes>): seq<Bytes>
    decreases es, 1
  {
    if es == [] then rest else Tokens(d, es[0], AfterElem(d, es, rest))
  }

  /** What follows the first element: a comma and the others, or nothing more of the array. */
  ghost function AfterElem(d: Doubles, es: seq<Value>, rest: seq<Bytes>): seq<Bytes>
    requires es != []
    decreases es, 0
  {
    if |es| == 1 then rest else [[COMMA]] + ElemTokens(d, es[1..], rest)
  }

  ghost function MemberTokens(d: Doubles, ms: seq<Member>, rest: seq<Bytes>): seq<Bytes>
    decreases ms, 1
  {
    if ms == [] then rest
    else [Quote(UpToNul(ms[0].name))] + ([[COLON]] + Tokens(d, ms[0].value, AfterMember(d, ms, rest)))
  }

  ghost function AfterMember(d: Doubles, ms: seq<Member>, rest: seq<Bytes>): seq<Bytes>
    requires ms != []
    decreases ms, 0
  {
    if |ms| == 1 then rest else [[COMMA]] + MemberTokens(d, ms[1..], rest)
  }

  /** A text that starts with something to see. */
  predicate Solid(t: Bytes) {
    |t| > 0 && !IsSpace(t[0])
  }

  /** White space only. */
  predicate Blank(t: Bytes) {
    forall i :: 0 <= i < |t| ==> IsSpace(t[i])
  }

  /** Neither white space nor a quote. */
  predicate Plain(t: Bytes) {
    forall i :: 0 <= i < |t| ==> !IsSpace(t[i]) && t[i] != QUOTE
  }

  /** Punctuation of JSON. */
  predicate IsMark(c: byte) {
    || c == COMMA || c == COLON || c == OPEN_BRACKET || c == CLOSE_BRACKET || c == OPEN_BRACE || c == CLOSE_BRACE
  }

  predicate Unmarked(t: Bytes) {
    forall i :: 0 <= i < |t| ==> !IsMark(t[i])
  }

  /** The texts of the doubles in a value are not empty and hold no white space, quotes or punctuation. */
  ghost predicate ShowsPlain(d: Doubles, v: Value) {
    match v
    case Real(r) => Plain(d.show(r)) && Unmarked(d.show(r)) && d.show(r) != []
    case Array(es) => AllShowPlain(d, es)
    case Object(ms) => MembersShowPlain(d, ms)
    case _ => true
  }

  ghost predicate AllShowPlain(d: Doubles, es: seq<Value>) {
    forall i :: 0 <= i < |es| ==> ShowsPlain(d, es[i])
  }

  ghost predicate MembersShowPlain(d: Doubles, ms: seq<Member>) {
    forall i :: 0 <= i < |ms| ==> ShowsPlain(d, ms[i].value)
  }

  lemma ScalarSolid(d: Doubles, v: Value)
    requires !v.Array? && !v.Object? && ShowsPlain(d, v)
    ensures Solid(Scalar(d, v))
  {
    if v.Int? {
      assert IntText(v.i)[0] == MINUS || IsDigit(IntText(v.i)[0]);
    }
  }

  // ---------- Tokens in a document ----------

  /** From a position on the document holds these tokens, with white space before, between and after them. */
  ghost predicate LaidAt(doc: Bytes, p: nat, ts: seq<Bytes>)
    decreases |ts|
  {
    && p <= |doc|
    && var q := SkipSpaces(doc, p);
       if ts == [] then q == |doc| else Here(doc, q, ts[0]) && LaidAt(doc, q + |ts[0]|, ts[1..])
  }

  /** The first token, and where the others are. */
  lemma LaidStep(doc: Bytes, p: nat, t: Bytes, rest: seq<Bytes>) returns (q: nat)
    requires LaidAt(doc, p, [t] + rest)
    ensures p <= |doc| && q == SkipSpaces(doc, p) && Here(doc, q, t) && LaidAt(doc, q + |t|, rest)
  {
    q := SkipSpaces(doc, p);
    assert ([t] + rest)[1..] == rest;
  }

  lemma LaidEnd(doc: Bytes, p: nat)
    ensures LaidAt(doc, p, []) <==> p <= |doc| && SkipSpaces(doc, p) == |doc|
  {
  }

  lemma LaidCons(doc: Bytes, p: nat, t: Bytes, rest: seq<Bytes>)
    requires Here(doc, p, t) && Solid(t) && LaidAt(doc, p + |t|, rest)
    ensures LaidAt(doc, p, [t] + rest)
  {
    HereAt(doc, p, t, 0);
    assert ([t] + rest)[1..] == rest;
  }

  /** The first token and the others are where they are from after the white space. */
  lemma LaidSkip(doc: Bytes, p: nat, ts: seq<Bytes>) returns (q: nat)
    requires LaidAt(doc, p, ts)
    ensures p <= |doc| && q == SkipSpaces(doc, p) && LaidAt(doc, q, ts)
    ensures ts != [] ==> Here(doc, q, ts[0])
  {
    q := SkipSpaces(doc, p);
    assert SkipSpaces(doc, q) == q;
  }

  lemma LaidSpace(doc: Bytes, p: nat, ts: seq<Bytes>)
    requires p < |doc| && IsSpace(doc[p]) && LaidAt(doc, p + 1, ts)
    ensures LaidAt(doc, p, ts)
  {
    assert SkipSpaces(doc, p) == SkipSpaces(doc, p + 1);
  }

  lemma {:induction false} LaidBlank(doc: Bytes, p: nat, t: Bytes, ts: seq<Bytes>)
    requires Here(doc, p, t) && Blank(t) && LaidAt(doc, p + |t|, ts)
    ensures LaidAt(doc, p, ts)
    decreases |t|
  {
    if t != [] {
      HereAt(doc, p, t, 0);
      assert t == t[..1] + t[1..];
      HereSplit(doc, p, t[..1], t[1..]);
      LaidBlank(doc, p + 1, t[1..], ts);
      LaidSpace(doc, p, ts);
    }
  }

  // ---------- The compact text ----------

  /** The compact writer's text is the tokens of the value, in both its forms. */
  lemma {:induction false} FastLaid(d: Doubles, yaml: bool, doc: Bytes, p: nat, v: Value, end: nat,
                                    rest: seq<Bytes>)
    requires ShowsPlain(d, v) && Here(doc, p, Fast(d, yaml, v)) && end == p + |Fast(d, yaml, v)|
    requires LaidAt(doc, end, rest)
    ensures LaidAt(doc, p, Tokens(d, v, rest))
    decreases v, 3
  {
    match v
    case Array(es) => ArrayLaid(d, yaml, doc, p, es, end, rest);
    case Object(ms) => ObjectLaid(d, yaml, doc, p, ms, end, rest);
    case _ => ScalarLaid(d, doc, p, v, rest);
  }

  lemma ScalarLaid(d: Doubles, doc: Bytes, p: nat, v: Value, rest: seq<Bytes>)
    requires !v.Array? && !v.Object? && ShowsPlain(d, v)
    requires Here(doc, p, Scalar(d, v)) && LaidAt(doc, p + |Scalar(d, v)|, rest)
    ensures LaidAt(doc, p, [Scalar(d, v)] + rest)
  {
    ScalarSolid(d, v);
    LaidCons(doc, p, Scalar(d, v), rest);
  }

  lemma EnclosedHere(doc: Bytes, p: nat, a: Bytes, b: Bytes, c: Bytes)
    requires Here(doc, p, a + b + c)
    ensures Here(doc, p, a) && Here(doc, p + |a|, b) && Here(doc, p + |a| + |b|, c)
  {
    HereSplit(doc, p, a + b, c);
    HereSplit(doc, p, a, b);
  }

  /** A text between brackets: where it starts, with the closing bracket after it. */
  lemma CloseLaid(doc: Bytes, p: nat, open: Bytes, body: Bytes, close: Bytes, end: nat, rest: seq<Bytes>)
    requires Solid(close) && Here(doc, p, open + body + close)
    requires end == p + |open| + |body| + |close| && LaidAt(doc, end, rest)
    ensures Here(doc, p, open) && Here(doc, p + |open|, body) && LaidAt(doc, p + |open| + |body|, [close] + rest)
  {
    EnclosedHere(doc, p, open, body, close);
    LaidCons(doc, p + |open| + |body|, close, rest);
  }

  lemma {:induction false} ArrayLaid(
    d: Doubles, yaml: bool, doc: Bytes, p: nat, es: seq<Value>, end: nat, rest: seq<Bytes>)
    requires AllShowPlain(d, es) && Here(doc, p, [OPEN_BRACKET] + FastElems(d, yaml, es) + [CLOSE_BRACKET])
    requires end == p + |FastElems(d, yaml, es)| + 2 && LaidAt(doc, end, rest)
    ensures LaidAt(doc, p, [[OPEN_BRACKET]] + ElemTokens(d, es, [[CLOSE_BRACKET]] + rest))
    decreases es, 2
  {
    var close := [[CLOSE_BRACKET]] + rest;
    CloseLaid(doc, p, [OPEN_BRACKET], FastElems(d, yaml, es), [CLOSE_BRACKET], end, rest);
    ElemsLaid(d, yaml, doc, p + 1, es, end - 1, close);
    LaidCons(doc, p, [OPEN_BRACKET], ElemTokens(d, es, close));
  }

  lemma {:induction false} ObjectLaid(
    d: Doubles, yaml: bool, doc: Bytes, p: nat, ms: seq<Member>, end: nat, rest: seq<Bytes>)
    requires MembersShowPlain(d, ms) && Here(doc, p, [OPEN_BRACE] + FastMembers(d, yaml, ms) + [CLOSE_BRACE])
    requires end == p + |FastMembers(d, yaml, ms)| + 2 && LaidAt(doc, end, rest)
    ensures LaidAt(doc, p, [[OPEN_BRACE]] + MemberTokens(d, ms, [[CLOSE_BRACE]] + rest))
    decreases ms, 2
  {
    var close := [[CLOSE_BRACE]] + rest;
    CloseLaid(doc, p, [OPEN_BRACE], FastMembers(d, yaml, ms), [CLOSE_BRACE], end, rest);
    MembersLaid(d, yaml, doc, p + 1, ms, end - 1, close);
    LaidCons(doc, p, [OPEN_BRACE], MemberTokens(d, ms, close));
  }

  /** What the compact writer puts after an element or member: a comma and the others, or nothing. */
  ghost function ElemsTail(d: Doubles, yaml: bool, es: seq<Value>): Bytes {
    if |es| <= 1 then [] else [COMMA] + FastElems(d, yaml, es[1..])
  }

  ghost function MembersTail(d: Doubles, yaml: bool, ms: seq<Member>): Bytes {
    if |ms| <= 1 then [] else [COMMA] + FastMembers(d, yaml, ms[1..])
  }

  lemma {:induction false} ElemsLaid(d: Doubles, yaml: bool, doc: Bytes, p: nat, es: seq<Value>, end: nat,
                                     rest: seq<Bytes>)
    requires AllShowPlain(d, es) && Here(doc, p, FastElems(d, yaml, es)) && end == p + |FastElems(d, yaml, es)|
    requires LaidAt(doc, end, rest)
    ensures LaidAt(doc, p, ElemTokens(d, es, rest))
    decreases es, 1
  {
    if es != [] {
      var t, tail := Fast(d, yaml, es[0]), ElemsTail(d, yaml, es);
      assert FastElems(d, yaml, es) == t + tail;
      HereSplit(doc, p, t, tail);
      ElemsTailLaid(d, yaml, doc, p + |t|, es, end, rest);
      FastLaid(d, yaml, doc, p, es[0], p + |t|, AfterElem(d, es, rest));
    }
  }

  lemma {:induction false} ElemsTailLaid(
    d: Doubles, yaml: bool, doc: Bytes, p: nat, es: seq<Value>, end: nat, rest: seq<Bytes>)
    requires AllShowPlain(d, es) && es != []
    requires Here(doc, p, ElemsTail(d, yaml, es)) && end == p + |ElemsTail(d, yaml, es)| && LaidAt(doc, end, rest)
    ensures LaidAt(doc, p, AfterElem(d, es, rest))
    decreases es, 0
  {
    if |es| > 1 {
      HereSplit(doc, p, [COMMA], FastElems(d, yaml, es[1..]));
      ElemsLaid(d, yaml, doc, p + 1, es[1..], end, rest);
      LaidCons(doc, p, [COMMA], ElemTokens(d, es[1..], rest));
    }
  }

  lemma {:induction false} MembersLaid(d: Doubles, yaml: bool, doc: Bytes, p: nat, ms: seq<Member>, end: nat,
                                       rest: seq<Bytes>)
    requires MembersShowPlain(d, ms) && Here(doc, p, FastMembers(d, yaml, ms)) && end == p + |FastMembers(d, yaml, ms)|
    requires LaidAt(doc, end, rest)
    ensures LaidAt(doc, p, MemberTokens(d, ms, rest))
    decreases ms, 1
  {
    if ms != [] {
      var t, tail := FastMember(d, yaml, ms[0]), MembersTail(d, yaml, ms);
      assert FastMembers(d, yaml, ms) == t + tail;
      HereSplit(doc, p, t, tail);
      MembersTailLaid(d, yaml, doc, p + |t|, ms, end, rest);
      MemberLaid(d, yaml, doc, p, Quote(UpToNul(ms[0].name)), ms[0].value, p + |t|, AfterMember(d, ms, rest));
    }
  }

  lemma {:induction false} MembersTailLaid(
    d: Doubles, yaml: bool, doc: Bytes, p: nat, ms: seq<Member>, end: nat, rest: seq<Bytes>)
    requires MembersShowPlain(d, ms) && ms != []
    requires Here(doc, p, MembersTail(d, yaml, ms)) && end == p + |MembersTail(d, yaml, ms)| && LaidAt(doc, end, rest)
    ensures LaidAt(doc, p, AfterMember(d, ms, rest))
    decreases ms, 0
  {
    if |ms| > 1 {
      var more := ms[1..];
      var t, whole := FastMembers(d, yaml, more), MembersTail(d, yaml, ms);
      assert whole == [COMMA] + t;
      HereSplitAs(doc, p, whole, [COMMA], t);
      MembersLaid(d, yaml, doc, p + 1, more, end, rest);
      LaidCons(doc, p, [COMMA], MemberTokens(d, more, rest));
    }
  }

  lemma {:induction false} MemberLaid(
    d: Doubles, yaml: bool, doc: Bytes, p: nat, name: Bytes, v: Value, end: nat, rest: seq<Bytes>)
    requires Solid(name) && ShowsPlain(d, v) && Here(doc, p, name + Separator(yaml) + Fast(d, yaml, v))
    requires end == p + |name| + |Separator(yaml)| + |Fast(d, yaml, v)| && LaidAt(doc, end, rest)
    ensures LaidAt(doc, p, [name] + ([[COLON]] + Tokens(d, v, rest)))
    decreases v, 4
  {
    EnclosedHere(doc, p, name, Separator(yaml), Fast(d, yaml, v));
    FastLaid(d, yaml, doc, p + |name| + |Separator(yaml)|, v, end, rest);
    NameLaid(yaml, doc, p, name, Tokens(d, v, rest));
  }

  lemma NameLaid(yaml: bool, doc: Bytes, p: nat, name: Bytes, rest: seq<Bytes>)
    requires Solid(name) && Here(doc, p, name) && Here(doc, p + |name|, Separator(yaml))
    requires LaidAt(doc, p + |name| + |Separator(yaml)|, rest)
    ensures LaidAt(doc, p, [name] + ([[COLON]] + rest))
  {
    ColonLaid(yaml, doc, p + |name|, rest);
    LaidCons(doc, p, name, [[COLON]] + rest);
  }

  lemma ColonLaid(yaml: bool, doc: Bytes, p: nat, rest: seq<Bytes>)
    requires Here(doc, p, Separator(yaml)) && LaidAt(doc, p + |Separator(yaml)|, rest)
    ensures LaidAt(doc, p, [[COLON]] + rest)
  {
    if yaml {
      assert Separator(yaml) == [COLON] + [SPACE];
      HereSplit(doc, p, [COLON], [SPACE]);
      LaidBlank(doc, p + 1, [SPACE], rest);
    }
    LaidCons(doc, p, [COLON], rest);
  }
}
