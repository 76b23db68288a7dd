/**
  The styled writer. What it prints is given line by line: each line's nesting depth and what stands on it. The writer
  itself chooses the layout of an array after collecting the texts of its elements. Comments are not part of the model.
 */
module JsonStyled {
  import opened JsonText
  import opened JsonGrammar
  import opened JsonLayout
  import opened JsonRoundTrip
  import opened JsonWriters

  const RIGHT_MARGIN: nat := 74
  const INDENT_SIZE: nat := 3

  /** A value that fits on a line: a scalar or an empty container. */
  predicate Flat(v: Value) {
    match v
    case Array(es) => es == []
    case Object(ms) => ms == []
    case _ => true
  }

  // ---------- The lines of a value ----------

  /** A line without its indentation and its end. */
  datatype Line = Line(depth: nat, text: Bytes)

  predicate AllFlat(es: seq<Value>) {
    forall i :: 0 <= i < |es| ==> Flat(es[i])
  }

  ghost function TotalLength(d: Doubles, es: seq<Value>): nat {
    if es == [] then 0 else TotalLength(d, es[..|es| - 1]) + |Fast(d, false, es[|es| - 1])|
  }

  /** An array goes on one line if it has few elements, all of them flat, and the line is short enough. */
  ghost predicate OneLine(d: Doubles, es: seq<Value>) {
    3 * |es| < RIGHT_MARGIN && AllFlat(es) && 4 + 2 * (|es| - 1) + TotalLength(d, es) < RIGHT_MARGIN
  }

  /** The elements of such an array. */
  ghost function Listed(d: Doubles, es: seq<Value>): Bytes {
    if es == [] then []
    else Fast(d, false, es[0]) + (if |es| == 1 then [] else [COMMA, SPACE] + Listed(d, es[1..]))
  }

  ghost function OnOneLine(d: Doubles, es: seq<Value>): Bytes {
    [OPEN_BRACKET, SPACE] + Listed(d, es) + [SPACE, CLOSE_BRACKET]
  }

  /** Whether a value takes several lines. */
  ghost predicate Spread(d: Doubles, v: Value) {
    !Flat(v) && (v.Array? ==> !OneLine(d, v.elems))
  }

  /** The text of a value on one line. */
  ghost function Short(d: Doubles, v: Value): Bytes {
    if v.Array? && v.elems != [] then OnOneLine(d, v.elems) else Fast(d, false, v)
  }

  ghost function CommaIf(more: bool): Bytes {
    if more then [COMMA] else []
  }

  /** What stands before a member's value. */
  ghost function NameText(m: Member): Bytes {
    Quote(UpToNul(m.name)) + [SPACE, COLON, SPACE]
  }

  /**
    The lines of a value at a depth, with what stands before it on its first line and after it on its last: the
    brackets of a spread container on lines of that depth, and its elements or members one deeper.
   */
  ghost function LinesOf(d: Doubles, v: Value, n: nat, before: Bytes, after: Bytes): seq<Line>
    decreases v, 2
  {
    if !Spread(d, v) then [Line(n, before + Short(d, v) + after)]
    else if v.Array? then
      [Line(n, before + [OPEN_BRACKET])] + ElemLines(d, v.elems, n + 1) + [Line(n, [CLOSE_BRACKET] + after)]
    else
      [Line(n, before + [OPEN_BRACE])] + MemberLines(d, v.members, n + 1) + [Line(n, [CLOSE_BRACE] + after)]
  }

  ghost function ElemLines(d: Doubles, es: seq<Value>, n: nat): seq<Line>
    decreases es, 1
  {
    if es == [] then [] else LinesOf(d, es[0], n, [], CommaIf(|es| > 1)) + ElemLines(d, es[1..], n)
  }

  ghost function MemberLines(d: Doubles, ms: seq<Member>, n: nat): seq<Line>
    decreases ms, 1
  {
    if ms == [] then []
    else LinesOf(d, ms[0].value, n, NameText(ms[0]), CommaIf(|ms| > 1)) + MemberLines(d, ms[1..], n)
  }

  ghost function Spaces(n: nat): (t: Bytes)
    ensures |t| == n
  {
    if n == 0 then [] else [SPACE] + Spaces(n - 1)
  }

  ghost function Margin(n: nat): Bytes {
    Spaces(INDENT_SIZE * n)
  }

  /** Three spaces for each level of a line's depth, its text and a line feed. */
  ghost function Render(lines: seq<Line>): Bytes {
    if lines == [] then [] else Margin(lines[0].depth) + lines[0].text + [NEWLINE] + Render(lines[1..])
  }

  // ---------- The text of a value ----------

  ghost function Break(n: nat): Bytes {
    [NEWLINE] + Margin(n)
  }

  /** The text of a value whose brackets are at a depth, from its first byte to its last. */
  ghost function Styled(d: Doubles, v: Value, n: nat): Bytes
    decreases v, 2
  {
    if !Spread(d, v) then Short(d, v)
    else if v.Array? then [OPEN_BRACKET] + StyledElems(d, v.elems, n + 1) + (Break(n) + [CLOSE_BRACKET])
    else [OPEN_BRACE] + StyledMembers(d, v.members, n + 1) + (Break(n) + [CLOSE_BRACE])
  }

  ghost function StyledElems(d: Doubles, es: seq<Value>, n: nat): Bytes
    decreases es, 1
  {
    if es == [] then []
    else Break(n) + Styled(d, es[0], n) + CommaIf(|es| > 1) + StyledElems(d, es[1..], n)
  }

  ghost function StyledMember(d: Doubles, m: Member, n: nat): Bytes
    decreases m, 3
  {
    Break(n) + NameText(m) + Styled(d, m.value, n)
  }

  ghost function StyledMembers(d: Doubles, ms: seq<Member>, n: nat): Bytes
    decreases ms, 1
  {
    if ms == [] then []
    else StyledMember(d, ms[0], n) + CommaIf(|ms| > 1) + StyledMembers(d, ms[1..], n)
  }

  lemma {:induction false} RenderConcat(a: seq<Line>, b: seq<Line>)
    ensures Render(a + b) == Render(a) + Render(b)
  {
    if a == [] {
      assert a + b == b;
    } else {
      RenderConcat(a[1..], b);
      assert (a + b)[1..] == a[1..] + b;
      Regrouped(Margin(a[0].depth) + a[0].text + [NEWLINE], Render(a[1..]), Render(b));
    }
  }

  lemma RenderOne(n: nat, t: Bytes)
    ensures Render([Line(n, t)]) == Margin(n) + t + [NEWLINE]
  {
    assert [Line(n, t)][1..] == [];
  }

  /** The text is its lines. */
  lemma {:induction false} StyledLines(d: Doubles, v: Value, n: nat, before: Bytes, after: Bytes)
    ensures Render(LinesOf(d, v, n, before, after)) == Margin(n) + before + Styled(d, v, n) + after + [NEWLINE]
    decreases v, 2
  {
    if !Spread(d, v) {
      RenderOne(n, before + Short(d, v) + after);
      assert Margin(n) + (before + Short(d, v) + after) == Margin(n) + before + Short(d, v) + after;
    } else if v.Array? {
      StyledElemLines(d, v.elems, n + 1);
      RenderBody(n, before + [OPEN_BRACKET], ElemLines(d, v.elems, n + 1), [CLOSE_BRACKET] + after);
      Assemble(Margin(n), before, [OPEN_BRACKET], StyledElems(d, v.elems, n + 1), Margin(n), [CLOSE_BRACKET], after,
               Render(ElemLines(d, v.elems, n + 1)));
    } else {
      StyledMemberLines(d, v.members, n + 1);
      RenderBody(n, before + [OPEN_BRACE], MemberLines(d, v.members, n + 1), [CLOSE_BRACE] + after);
      Assemble(Margin(n), before, [OPEN_BRACE], StyledMembers(d, v.members, n + 1), Margin(n), [CLOSE_BRACE], after,
               Render(MemberLines(d, v.members, n + 1)));
    }
  }

  lemma RenderBody(n: nat, first: Bytes, body: seq<Line>, last: Bytes)
    ensures Render([Line(n, first)] + body + [Line(n, last)])
         == Margin(n) + first + [NEWLINE] + Render(body) + (Margin(n) + last + [NEWLINE])
  {
    RenderConcat([Line(n, first)] + body, [Line(n, last)]);
    RenderConcat([Line(n, first)], body);
    RenderOne(n, first);
    RenderOne(n, last);
  }

  lemma Assemble(margin: Bytes, before: Bytes, open: Bytes, body: Bytes, margin': Bytes, close: Bytes, after: Bytes,
                 lines: Bytes)
    requires [NEWLINE] + lines == body + [NEWLINE]
    ensures margin + (before + open) + [NEWLINE] + lines + (margin' + (close + after) + [NEWLINE])
         == margin + before + (open + body + (([NEWLINE] + margin') + close)) + after + [NEWLINE]
  {
    var left, right := margin + (before + open), margin' + (close + after) + [NEWLINE];
    calc {
      left + [NEWLINE] + lines + right;
      { Regrouped(left, [NEWLINE], lines); }
      left + ([NEWLINE] + lines) + right;
      left + (body + [NEWLINE]) + right;
      margin + before + (open + body + (([NEWLINE] + margin') + close)) + after + [NEWLINE];
    }
  }

  lemma {:induction false} StyledElemLines(d: Doubles, es: seq<Value>, n: nat)
    ensures [NEWLINE] + Render(ElemLines(d, es, n)) == StyledElems(d, es, n) + [NEWLINE]
    decreases es, 1
  {
    if es != [] {
      var more, comma := es[1..], CommaIf(|es| > 1);
      var item := Margin(n) + [] + Styled(d, es[0], n) + comma;
      StyledLines(d, es[0], n, [], comma);
      StyledElemLines(d, more, n);
      RenderConcat(LinesOf(d, es[0], n, [], comma), ElemLines(d, more, n));
      Chain(item, Render(ElemLines(d, more, n)), StyledElems(d, more, n));
      ElemItem(Margin(n), Styled(d, es[0], n), comma);
    }
  }

  lemma ElemItem(margin: Bytes, text: Bytes, comma: Bytes)
    ensures [NEWLINE] + (margin + [] + text + comma) == [NEWLINE] + margin + text + comma
  {
  }

  lemma Chain(item: Bytes, lines: Bytes, rest: Bytes)
    requires [NEWLINE] + lines == rest + [NEWLINE]
    ensures [NEWLINE] + (item + [NEWLINE] + lines) == [NEWLINE] + item + rest + [NEWLINE]
  {
    Regrouped(item, [NEWLINE], lines);
    Regrouped([NEWLINE] + item, rest, [NEWLINE]);
    Regrouped([NEWLINE], item, [NEWLINE] + lines);
  }

  lemma {:induction false} StyledMemberLines(d: Doubles, ms: seq<Member>, n: nat)
    ensures [NEWLINE] + Render(MemberLines(d, ms, n)) == StyledMembers(d, ms, n) + [NEWLINE]
    decreases ms, 1
  {
    if ms != [] {
      var more, comma, name := ms[1..], CommaIf(|ms| > 1), NameText(ms[0]);
      var item := Margin(n) + name + Styled(d, ms[0].value, n) + comma;
      StyledLines(d, ms[0].value, n, name, comma);
      StyledMemberLines(d, more, n);
      RenderConcat(LinesOf(d, ms[0].value, n, name, comma), MemberLines(d, more, n));
      Chain(item, Render(MemberLines(d, more, n)), StyledMembers(d, more, n));
      MemberItem(d, ms[0], n, comma);
    }
  }

  lemma MemberItem(d: Doubles, m: Member, n: nat, comma: Bytes)
    ensures [NEWLINE] + (Margin(n) + NameText(m) + Styled(d, m.value, n) + comma) == StyledMember(d, m, n) + comma
  {
    Regrouped([NEWLINE], Margin(n) + NameText(m) + Styled(d, m.value, n), comma);
    Regrouped([NEWLINE], Margin(n) + NameText(m), Styled(d, m.value, n));
    Regrouped([NEWLINE], Margin(n), NameText(m));
  }

  // ---------- What the lines show ----------

  /** Nothing that could be taken for layout or a bracket. */
  predicate Shown(t: Bytes) {
    t != [] && NEWLINE !in t && !IsSpace(t[0]) && !IsSpace(t[|t| - 1])
  }

  predicate OpensBracket(t: Bytes) {
    t != [] && (t[|t| - 1] == OPEN_BRACKET || t[|t| - 1] == OPEN_BRACE)
  }

  predicate ClosesBracket(t: Bytes) {
    t != [] && (t[0] == CLOSE_BRACKET || t[0] == CLOSE_BRACE)
  }

  lemma QuoteShown(s: Bytes)
    requires NulFree(s)
    ensures Quote(s)[0] == Quote(s)[|Quote(s)| - 1] == QUOTE && NEWLINE !in Quote(s)
  {
    EscapedShown(s);
  }

  lemma {:induction false} EscapedShown(s: Bytes)
    ensures NEWLINE !in EscapeAll(s)
  {
    if s != [] {
      EscapedShown(s[1..]);
      assert NEWLINE !in EscapeByte(s[0]);
    }
  }

  lemma {:induction false} DigitsEnds(n: nat)
    ensures IsDigit(Digits(n)[0]) && IsDigit(Digits(n)[|Digits(n)| - 1]) && NEWLINE !in Digits(n)
  {
  }

  lemma ScalarShown(d: Doubles, v: Value)
    requires !v.Array? && !v.Object? && ShowsPlain(d, v)
    ensures var t := Scalar(d, v); Shown(t) && !OpensBracket(t) && !ClosesBracket(t)
  {
    match v
    case Int(i) =>
      var t := IntText(i);
      DigitsEnds(if i < 0 then -i else i);
      assert t[|t| - 1] == Digits(if i < 0 then -i else i)[|Digits(if i < 0 then -i else i)| - 1];
    case UInt(u) => DigitsEnds(u);
    case String(s) => QuoteShown(UpToNul(s));
    case _ =>
  }

  lemma FlatShown(d: Doubles, v: Value)
    requires Flat(v) && ShowsPlain(d, v)
    ensures var t := Fast(d, false, v); Shown(t) && !OpensBracket(t) && !ClosesBracket(t)
  {
    if !v.Array? && !v.Object? {
      ScalarShown(d, v);
    } else {
      assert FastElems(d, false, []) == [] && FastMembers(d, false, []) == [];
    }
  }

  lemma {:induction false} ListedShown(d: Doubles, es: seq<Value>)
    requires AllFlat(es) && AllShowPlain(d, es)
    ensures NEWLINE !in Listed(d, es)
  {
    if es != [] {
      FlatShown(d, es[0]);
      ListedShown(d, es[1..]);
    }
  }

  lemma ShortShown(d: Doubles, v: Value)
    requires !Spread(d, v) && ShowsPlain(d, v)
    ensures var t := Short(d, v); Shown(t) && !OpensBracket(t) && !ClosesBracket(t)
  {
    if Flat(v) {
      FlatShown(d, v);
    } else {
      ListedShown(d, v.elems);
      var t := OnOneLine(d, v.elems);
      assert t[0] == OPEN_BRACKET && t[|t| - 1] == CLOSE_BRACKET;
    }
  }

  /** What stands before a value on its first line: nothing, or a name. */
  predicate Leads(before: Bytes) {
    before != [] ==> before[0] == QUOTE && NEWLINE !in before
  }

  predicate Trails(after: Bytes) {
    after == [] || after == [COMMA]
  }

  /**
    The lines are nested: each is as deep as containers have been opened before it and not closed, counting itself if
    it closes one; and none holds a line feed, starts with white space or is empty.
   */
  ghost predicate Nested(lines: seq<Line>, n: nat, rest: nat)
    decreases |lines|
  {
    if lines == [] then n == rest
    else
      var t := lines[0].text;
      && t != [] && NEWLINE !in t && !IsSpace(t[0])
      && lines[0].depth + (if ClosesBracket(t) then 1 else 0) == n
      && Nested(lines[1..], lines[0].depth + (if OpensBracket(t) then 1 else 0), rest)
  }

  lemma {:induction false} NestedConcat(a: seq<Line>, b: seq<Line>, n: nat, m: nat, r: nat)
    requires Nested(a, n, m) && Nested(b, m, r)
    ensures Nested(a + b, n, r)
    decreases |a|
  {
    if a == [] {
      assert a + b == b;
    } else {
      var t := a[0].text;
      NestedConcat(a[1..], b, a[0].depth + (if OpensBracket(t) then 1 else 0), m, r);
      assert (a + b)[1..] == a[1..] + b;
    }
  }

  lemma NestedOne(l: Line, n: nat, m: nat)
    requires l.text != [] && NEWLINE !in l.text && !IsSpace(l.text[0])
    requires l.depth + (if ClosesBracket(l.text) then 1 else 0) == n
    requires l.depth + (if OpensBracket(l.text) then 1 else 0) == m
    ensures Nested([l], n, m)
  {
    assert [l][1..] == [];
  }

  lemma LineAround(before: Bytes, t: Bytes, after: Bytes)
    requires Leads(before) && Trails(after) && t != [] && NEWLINE !in t && !IsSpace(t[0])
    ensures var l := before + t + after;
      && l != [] && NEWLINE !in l && !IsSpace(l[0])
      && (ClosesBracket(l) <==> before == [] && ClosesBracket(t))
      && (OpensBracket(l) <==> after == [] && OpensBracket(t))
  {
    var l := before + t + after;
    assert l[0] == if before == [] then t[0] else before[0];
    assert l[|l| - 1] == if after == [] then t[|t| - 1] else COMMA;
  }

  /** The lines of a value are nested, and its containers are all closed again. */
  lemma {:induction false} LinesNested(d: Doubles, v: Value, n: nat, before: Bytes, after: Bytes)
    requires ShowsPlain(d, v) && Leads(before) && Trails(after)
    ensures Nested(LinesOf(d, v, n, before, after), n, n)
    decreases v, 2
  {
    if !Spread(d, v) {
      ShortShown(d, v);
      LineAround(before, Short(d, v), after);
      NestedOne(Line(n, before + Short(d, v) + after), n, n);
    } else if v.Array? {
      ElemsNested(d, v.elems, n + 1);
      BodyNested(n, before, [OPEN_BRACKET], ElemLines(d, v.elems, n + 1), [CLOSE_BRACKET], after);
    } else {
      MembersNested(d, v.members, n + 1);
      BodyNested(n, before, [OPEN_BRACE], MemberLines(d, v.members, n + 1), [CLOSE_BRACE], after);
    }
  }

  lemma BodyNested(n: nat, before: Bytes, open: Bytes, body: seq<Line>, close: Bytes, after: Bytes)
    requires Leads(before) && Trails(after) && Nested(body, n + 1, n + 1)
    requires (open == [OPEN_BRACKET] && close == [CLOSE_BRACKET]) || (open == [OPEN_BRACE] && close == [CLOSE_BRACE])
    ensures Nested([Line(n, before + open)] + body + [Line(n, close + after)], n, n)
  {
    LineAround(before, open, []);
    LineAround([], close, after);
    assert before + open + [] == before + open && [] + close + after == close + after;
    NestedOne(Line(n, before + open), n, n + 1);
    NestedOne(Line(n, close + after), n + 1, n);
    NestedConcat([Line(n, before + open)], body, n, n + 1, n + 1);
    NestedConcat([Line(n, before + open)] + body, [Line(n, close + after)], n, n + 1, n);
  }

  lemma {:induction false} ElemsNested(d: Doubles, es: seq<Value>, n: nat)
    requires AllShowPlain(d, es)
    ensures Nested(ElemLines(d, es, n), n, n)
    decreases es, 1
  {
    if es != [] {
      LinesNested(d, es[0], n, [], CommaIf(|es| > 1));
      ElemsNested(d, es[1..], n);
      NestedConcat(LinesOf(d, es[0], n, [], CommaIf(|es| > 1)), ElemLines(d, es[1..], n), n, n, n);
    }
  }

  lemma {:induction false} MembersNested(d: Doubles, ms: seq<Member>, n: nat)
    requires MembersShowPlain(d, ms)
    ensures Nested(MemberLines(d, ms, n), n, n)
    decreases ms, 1
  {
    if ms != [] {
      var name, comma := NameText(ms[0]), CommaIf(|ms| > 1);
      QuoteShown(UpToNul(ms[0].name));
      LinesNested(d, ms[0].value, n, name, comma);
      MembersNested(d, ms[1..], n);
      NestedConcat(LinesOf(d, ms[0].value, n, name, comma), MemberLines(d, ms[1..], n), n, n, n);
    }
  }

  lemma {:induction false} ListedLength(d: Doubles, es: seq<Value>)
    requires es != []
    ensures |Listed(d, es)| == 2 * (|es| - 1) + TotalLength(d, es)
  {
    var front := [es[0]];
    assert front[..0] == [] && TotalLength(d, front) == |Fast(d, false, es[0])|;
    if |es| == 1 {
      assert es == front;
    } else {
      ListedLength(d, es[1..]);
      TotalCons(d, es);
    }
  }

  lemma {:induction false} TotalCons(d: Doubles, es: seq<Value>)
    requires es != []
    ensures TotalLength(d, es) == |Fast(d, false, es[0])| + TotalLength(d, es[1..])
  {
    if |es| > 1 {
      var n := |es| - 1;
      TotalCons(d, es[..n]);
      assert es[..n][1..] == es[1..][..n - 1] && es[1..][n - 1] == es[n];
    }
  }

  /**
    A value takes a single line exactly if it is a scalar or an empty container, or an array of fewer than 25 of those
    whose line is shorter than 74 bytes.
   */
  lemma OneLineExactly(d: Doubles, v: Value, n: nat, before: Bytes, after: Bytes)
    ensures |LinesOf(d, v, n, before, after)| == 1
      <==> Flat(v) || (v.Array? && AllFlat(v.elems) && 3 * |v.elems| < 74 && |OnOneLine(d, v.elems)| < 74)
  {
    if !Flat(v) && v.Array? {
      ListedLength(d, v.elems);
    }
  }

  /** Three spaces for each level. */
  lemma {:induction false} MarginOfThree(n: nat)
    ensures Margin(n) == seq(3 * n, i requires 0 <= i < 3 * n => SPACE)
  {
    SpacesOnly(3 * n);
  }

  lemma {:induction false} SpacesOnly(n: nat)
    ensures forall i :: 0 <= i < n ==> Spaces(n)[i] == SPACE
  {
    if n > 0 {
      SpacesOnly(n - 1);
    }
  }

  /** What a value shows on its first line. */
  ghost function FirstText(d: Doubles, v: Value): Bytes {
    if !Spread(d, v) then Short(d, v) else if v.Array? then [OPEN_BRACKET] else [OPEN_BRACE]
  }

  lemma FirstLine(d: Doubles, v: Value, n: nat, before: Bytes, after: Bytes)
    ensures var l := LinesOf(d, v, n, before, after);
      l != [] && l[0].depth == n && before + FirstText(d, v) <= l[0].text
  {
  }

  /** The row of an element among those of its array, and of a member among those of its object. */
  ghost function ElemRow(d: Doubles, es: seq<Value>, i: nat): nat
    requires i < |es|
  {
    if i == 0 then 0 else |LinesOf(d, es[0], 0, [], [])| + ElemRow(d, es[1..], i - 1)
  }

  ghost function MemberRow(d: Doubles, ms: seq<Member>, i: nat): nat
    requires i < |ms|
  {
    if i == 0 then 0 else |LinesOf(d, ms[0].value, 0, [], [])| + MemberRow(d, ms[1..], i - 1)
  }

  lemma {:induction false} SameRows(d: Doubles, v: Value, n: nat, before: Bytes, after: Bytes)
    ensures |LinesOf(d, v, n, before, after)| == |LinesOf(d, v, 0, [], [])|
    decreases v, 1
  {
    if Spread(d, v) {
      if v.Array? {
        SameElemRows(d, v.elems, n + 1);
      } else {
        SameMemberRows(d, v.members, n + 1);
      }
    }
  }

  lemma {:induction false} SameElemRows(d: Doubles, es: seq<Value>, n: nat)
    ensures |ElemLines(d, es, n)| == |ElemLines(d, es, 1)|
    decreases es, 0
  {
    if es != [] {
      SameRows(d, es[0], n, [], CommaIf(|es| > 1));
      SameRows(d, es[0], 1, [], CommaIf(|es| > 1));
      SameElemRows(d, es[1..], n);
    }
  }

  lemma {:induction false} SameMemberRows(d: Doubles, ms: seq<Member>, n: nat)
    ensures |MemberLines(d, ms, n)| == |MemberLines(d, ms, 1)|
    decreases ms, 0
  {
    if ms != [] {
      SameRows(d, ms[0].value, n, NameText(ms[0]), CommaIf(|ms| > 1));
      SameRows(d, ms[0].value, 1, NameText(ms[0]), CommaIf(|ms| > 1));
      SameMemberRows(d, ms[1..], n);
    }
  }

  lemma {:induction false} ElemStands(d: Doubles, es: seq<Value>, n: nat, i: nat)
    requires i < |es|
    ensures var k, l := ElemRow(d, es, i), ElemLines(d, es, n);
      k < |l| && l[k].depth == n && FirstText(d, es[i]) <= l[k].text
    decreases i
  {
    FirstLine(d, es[0], n, [], CommaIf(|es| > 1));
    if i > 0 {
      SameRows(d, es[0], n, [], CommaIf(|es| > 1));
      ElemStands(d, es[1..], n, i - 1);
    }
  }

  lemma {:induction false} MemberStands(d: Doubles, ms: seq<Member>, n: nat, i: nat)
    requires i < |ms|
    ensures var k, l := MemberRow(d, ms, i), MemberLines(d, ms, n);
      k < |l| && l[k].depth == n && NameText(ms[i]) + FirstText(d, ms[i].value) <= l[k].text
    decreases i
  {
    FirstLine(d, ms[0].value, n, NameText(ms[0]), CommaIf(|ms| > 1));
    if i > 0 {
      SameRows(d, ms[0].value, n, NameText(ms[0]), CommaIf(|ms| > 1));
      MemberStands(d, ms[1..], n, i - 1);
    }
  }

  lemma {:induction false} RowsApart(d: Doubles, es: seq<Value>, i: nat, j: nat)
    requires i < j < |es|
    ensures ElemRow(d, es, i) < ElemRow(d, es, j)
    decreases i
  {
    FirstLine(d, es[0], 0, [], []);
    if i > 0 {
      RowsApart(d, es[1..], i - 1, j - 1);
    }
  }

  lemma {:induction false} MemberRowsApart(d: Doubles, ms: seq<Member>, i: nat, j: nat)
    requires i < j < |ms|
    ensures MemberRow(d, ms, i) < MemberRow(d, ms, j)
    decreases i
  {
    FirstLine(d, ms[0].value, 0, [], []);
    if i > 0 {
      MemberRowsApart(d, ms[1..], i - 1, j - 1);
    }
  }

  /**
    The lines of an array that takes several: its brackets stand on the first and the last one, and each element first
    on a line between them that is one level deeper, a later element on a later line.
   */
  lemma ElementsStandFirst(d: Doubles, es: seq<Value>, n: nat, before: Bytes, after: Bytes, i: nat, j: nat)
    requires Spread(d, Array(es)) && i < |es|
    ensures var l, k := LinesOf(d, Array(es), n, before, after), 1 + ElemRow(d, es, i);
      && l[0] == Line(n, before + [OPEN_BRACKET]) && l[|l| - 1] == Line(n, [CLOSE_BRACKET] + after)
      && 0 < k < |l| - 1 && l[k].depth == n + 1 && FirstText(d, es[i]) <= l[k].text
      && (i < j < |es| ==> k < 1 + ElemRow(d, es, j))
  {
    ElemStands(d, es, n + 1, i);
    if i < j < |es| {
      RowsApart(d, es, i, j);
    }
    ArrayLines(d, es, n, before, after);
    Between(LinesOf(d, Array(es), n, before, after), Line(n, before + [OPEN_BRACKET]), ElemLines(d, es, n + 1),
            Line(n, [CLOSE_BRACKET] + after), ElemRow(d, es, i));
  }

  /** The same for an object, whose members stand first with their names. */
  lemma MembersStandFirst(d: Doubles, ms: seq<Member>, n: nat, before: Bytes, after: Bytes, i: nat, j: nat)
    requires i < |ms|
    ensures var l, k := LinesOf(d, Object(ms), n, before, after), 1 + MemberRow(d, ms, i);
      && l[0] == Line(n, before + [OPEN_BRACE]) && l[|l| - 1] == Line(n, [CLOSE_BRACE] + after)
      && 0 < k < |l| - 1 && l[k].depth == n + 1 && NameText(ms[i]) + FirstText(d, ms[i].value) <= l[k].text
      && (i < j < |ms| ==> k < 1 + MemberRow(d, ms, j))
  {
    MemberStands(d, ms, n + 1, i);
    if i < j < |ms| {
      MemberRowsApart(d, ms, i, j);
    }
    ObjectLines(d, ms, n, before, after);
    Between(LinesOf(d, Object(ms), n, before, after), Line(n, before + [OPEN_BRACE]), MemberLines(d, ms, n + 1),
            Line(n, [CLOSE_BRACE] + after), MemberRow(d, ms, i));
  }

  lemma ArrayLines(d: Doubles, es: seq<Value>, n: nat, before: Bytes, after: Bytes)
    requires Spread(d, Array(es))
    ensures LinesOf(d, Array(es), n, before, after)
      == [Line(n, before + [OPEN_BRACKET])] + ElemLines(d, es, n + 1) + [Line(n, [CLOSE_BRACKET] + after)]
  {
  }

  lemma ObjectLines(d: Doubles, ms: seq<Member>, n: nat, before: Bytes, after: Bytes)
    requires ms != []
    ensures LinesOf(d, Object(ms), n, before, after)
      == [Line(n, before + [OPEN_BRACE])] + MemberLines(d, ms, n + 1) + [Line(n, [CLOSE_BRACE] + after)]
  {
  }

  lemma Between(l: seq<Line>, first: Line, body: seq<Line>, last: Line, r: nat)
    requires l == [first] + body + [last] && r < |body|
    ensures l != [] && l[0] == first && l[|l| - 1] == last && 1 + r < |l| - 1 && l[1 + r] == body[r]
  {
  }

  // ---------- The tokens of the text ----------

  lemma {:induction false} AllSpaces(n: nat)
    ensures Blank(Spaces(n))
  {
    if n > 0 {
      AllSpaces(n - 1);
    }
  }

  /** The text is these tokens with white space between them. */
  ghost predicate Shows(text: Bytes, ts: seq<Bytes>) {
    exists ps :: Spells(text, ps, ts)
  }

  lemma ShowsConcat(a: Bytes, ts: seq<Bytes>, b: Bytes, ts': seq<Bytes>)
    requires Shows(a, ts) && Shows(b, ts')
    ensures Shows(a + b, ts + ts')
  {
    var ps :| Spells(a, ps, ts);
    var ps' :| Spells(b, ps', ts');
    SpellsConcat(a, ps, ts, b, ps', ts');
  }

  lemma ShowsOne(t: Bytes)
    ensures Blank(t) ==> Shows(t, [])
    ensures Solid(t) ==> Shows(t, [t])
  {
    OnePiece(t);
  }

  lemma ShowsBreak(n: nat)
    ensures Shows(Break(n), [])
  {
    AllSpaces(INDENT_SIZE * n);
    ShowsOne(Break(n));
  }

  lemma ShowsMark(before: Bytes, mark: byte, after: Bytes)
    requires Blank(before) && !IsSpace(mark) && Blank(after)
    ensures Shows(before + [mark] + after, [[mark]])
  {
    ShowsOne(before);
    ShowsOne([mark]);
    ShowsOne(after);
    ShowsConcat(before, [], [mark], [[mark]]);
    ShowsConcat(before + [mark], [] + [[mark]], after, []);
    assert [] + [[mark]] + [] == [[mark]];
  }

  lemma ShowsFast(d: Doubles, v: Value)
    requires ShowsPlain(d, v)
    ensures Shows(Fast(d, false, v), Tokens(d, v, []))
  {
    ValueSpells(d, v);
  }

  lemma ShowsAround(open: Bytes, a: byte, body: Bytes, ts: seq<Bytes>, close: Bytes, b: byte)
    requires Shows(open, [[a]]) && Shows(body, ts) && Shows(close, [[b]])
    ensures Shows(open + body + close, [[a]] + ts + [[b]])
  {
    ShowsConcat(open, [[a]], body, ts);
    ShowsConcat(open + body, [[a]] + ts, close, [[b]]);
  }

  lemma {:induction false} ListedShows(d: Doubles, es: seq<Value>)
    requires AllShowPlain(d, es)
    ensures Shows(Listed(d, es), ElemTokens(d, es, []))
  {
    if es == [] {
      ShowsOne([]);
    } else {
      var tail := if |es| == 1 then [] else [COMMA, SPACE] + Listed(d, es[1..]);
      ShowsFast(d, es[0]);
      TokensApart(d, es[0], AfterElem(d, es, []));
      if |es| == 1 {
        ShowsOne([]);
      } else {
        ListedShows(d, es[1..]);
        ShowsMark([], COMMA, [SPACE]);
        assert [] + [COMMA] + [SPACE] == [COMMA, SPACE];
        ShowsConcat([COMMA, SPACE], [[COMMA]], Listed(d, es[1..]), ElemTokens(d, es[1..], []));
      }
      ShowsConcat(Fast(d, false, es[0]), Tokens(d, es[0], []), tail, AfterElem(d, es, []));
    }
  }

  lemma ShortShows(d: Doubles, v: Value)
    requires ShowsPlain(d, v)
    ensures Shows(Short(d, v), Tokens(d, v, []))
  {
    if v.Array? && v.elems != [] {
      ListedShows(d, v.elems);
      ShowsMark([], OPEN_BRACKET, [SPACE]);
      ShowsMark([SPACE], CLOSE_BRACKET, []);
      assert [] + [OPEN_BRACKET] + [SPACE] == [OPEN_BRACKET, SPACE];
      assert [SPACE] + [CLOSE_BRACKET] + [] == [SPACE, CLOSE_BRACKET];
      ShowsAround([OPEN_BRACKET, SPACE], OPEN_BRACKET, Listed(d, v.elems), ElemTokens(d, v.elems, []),
                  [SPACE, CLOSE_BRACKET], CLOSE_BRACKET);
      ContainerTokens(d, v.elems, []);
    } else {
      ShowsFast(d, v);
    }
  }

  lemma ShowsBlock(open: byte, body: Bytes, ts: seq<Bytes>, n: nat, close: byte)
    requires !IsSpace(open) && !IsSpace(close) && Shows(body, ts)
    ensures Shows([open] + body + (Break(n) + [close]), [[open]] + ts + [[close]])
  {
    AllSpaces(INDENT_SIZE * n);
    ShowsMark([], open, []);
    assert [] + [open] + [] == [open];
    ShowsMark(Break(n), close, []);
    assert Break(n) + [close] + [] == Break(n) + [close];
    ShowsAround([open], open, body, ts, Break(n) + [close], close);
  }

  /** The styled text holds the tokens of the value. */
  lemma {:induction false} StyledShows(d: Doubles, v: Value, n: nat)
    requires ShowsPlain(d, v)
    ensures Shows(Styled(d, v, n), Tokens(d, v, []))
    decreases v, 2
  {
    if !Spread(d, v) {
      ShortShows(d, v);
    } else if v.Array? {
      ElemsShow(d, v.elems, n + 1);
      ShowsBlock(OPEN_BRACKET, StyledElems(d, v.elems, n + 1), ElemTokens(d, v.elems, []), n, CLOSE_BRACKET);
      ContainerTokens(d, v.elems, []);
    } else {
      MembersShow(d, v.members, n + 1);
      ShowsBlock(OPEN_BRACE, StyledMembers(d, v.members, n + 1), MemberTokens(d, v.members, []), n, CLOSE_BRACE);
      ContainerTokens(d, [], v.members);
    }
  }

  lemma CommaShows(more: bool)
    ensures Shows(CommaIf(more), if more then [[COMMA]] else [])
  {
    ShowsOne([COMMA]);
    ShowsOne([]);
  }

  lemma ShowsAfterGap(gap: Bytes, text: Bytes, ts: seq<Bytes>)
    requires Shows(gap, []) && Shows(text, ts)
    ensures Shows(gap + text, ts)
  {
    ShowsConcat(gap, [], text, ts);
    assert [] + ts == ts;
  }

  /** A text, perhaps a comma, and more. */
  lemma ShowsItem(text: Bytes, ts: seq<Bytes>, more: bool, rest: Bytes, after: seq<Bytes>)
    requires Shows(text, ts) && Shows(rest, after)
    ensures Shows(text + CommaIf(more) + rest, ts + ((if more then [[COMMA]] else []) + after))
  {
    var comma := if more then [[COMMA]] else [];
    CommaShows(more);
    ShowsConcat(text, ts, CommaIf(more), comma);
    ShowsConcat(text + CommaIf(more), ts + comma, rest, after);
    Regrouped(ts, comma, after);
  }

  lemma {:induction false} ElemsShow(d: Doubles, es: seq<Value>, n: nat)
    requires AllShowPlain(d, es)
    ensures Shows(StyledElems(d, es, n), ElemTokens(d, es, []))
    decreases es, 1
  {
    if es == [] {
      ShowsOne([]);
    } else {
      var more, rest := |es| > 1, ElemTokens(d, es[1..], []);
      StyledShows(d, es[0], n);
      ElemsShow(d, es[1..], n);
      ShowsBreak(n);
      ShowsAfterGap(Break(n), Styled(d, es[0], n), Tokens(d, es[0], []));
      ShowsItem(Break(n) + Styled(d, es[0], n), Tokens(d, es[0], []), more, StyledElems(d, es[1..], n), rest);
      TokensApart(d, es[0], AfterElem(d, es, []));
      assert AfterElem(d, es, []) == (if more then [[COMMA]] else []) + rest;
    }
  }

  lemma {:induction false} MemberShows(d: Doubles, m: Member, n: nat)
    requires ShowsPlain(d, m.value)
    ensures Shows(NameText(m) + Styled(d, m.value, n), NamedTokens(d, m))
    decreases m, 3
  {
    var name, tokens := Quote(UpToNul(m.name)), Tokens(d, m.value, []);
    ShowsOne(name);
    ShowsMark([SPACE], COLON, [SPACE]);
    assert [SPACE] + [COLON] + [SPACE] == [SPACE, COLON, SPACE];
    ShowsConcat(name, [name], [SPACE, COLON, SPACE], [[COLON]]);
    StyledShows(d, m.value, n);
    ShowsConcat(NameText(m), [name] + [[COLON]], Styled(d, m.value, n), tokens);
    assert [name] + [[COLON]] == [name, [COLON]];
  }

  lemma {:induction false} MembersShow(d: Doubles, ms: seq<Member>, n: nat)
    requires MembersShowPlain(d, ms)
    ensures Shows(StyledMembers(d, ms, n), MemberTokens(d, ms, []))
    decreases ms, 1
  {
    if ms == [] {
      ShowsOne([]);
    } else {
      var more, rest := |ms| > 1, MemberTokens(d, ms[1..], []);
      MemberShows(d, ms[0], n);
      MembersShow(d, ms[1..], n);
      ShowsBreak(n);
      ShowsAfterGap(Break(n), NameText(ms[0]) + Styled(d, ms[0].value, n), NamedTokens(d, ms[0]));
      Regrouped(Break(n), NameText(ms[0]), Styled(d, ms[0].value, n));
      ShowsItem(StyledMember(d, ms[0], n), NamedTokens(d, ms[0]), more, StyledMembers(d, ms[1..], n), rest);
      FirstMember(d, ms);
      assert AfterMember(d, ms, []) == (if more then [[COMMA]] else []) + rest;
    }
  }

  lemma FirstMember(d: Doubles, ms: seq<Member>)
    requires ms != []
    ensures MemberTokens(d, ms, []) == NamedTokens(d, ms[0]) + AfterMember(d, ms, [])
  {
    var name, after := Quote(UpToNul(ms[0].name)), AfterMember(d, ms, []);
    TokensApart(d, ms[0].value, after);
    assert [name] + ([[COLON]] + (Tokens(d, ms[0].value, []) + after)) == NamedTokens(d, ms[0]) + after;
  }

  /** The document the writer makes of a value. */
  lemma DocumentLaid(d: Doubles, v: Value)
    requires ShowsPlain(d, v)
    ensures LaidAt(Styled(d, v, 0) + [NEWLINE], 0, Tokens(d, v, []))
  {
    var doc := Styled(d, v, 0) + [NEWLINE];
    StyledShows(d, v, 0);
    ShowsOne([NEWLINE]);
    ShowsConcat(Styled(d, v, 0), Tokens(d, v, []), [NEWLINE], []);
    assert Tokens(d, v, []) + [] == Tokens(d, v, []);
    var ps :| Spells(doc, ps, Tokens(d, v, []));
    assert doc[0..|doc|] == doc;
    HereSlice(doc, 0, doc);
    PiecesLaid(doc, 0, ps);
  }

  /** A reader that scans doubles as the writer shows them gets the value back from any text with its tokens. */
  lemma EveryReaderReadsBack(d: Doubles, text: Bytes, v: Value)
    requires LaidAt(text, 0, Tokens(d, v, []))
    ensures forall c: Config, initial :: c.doubles == d && Holdable(v) ==>
      (ReadsBack(c, text, initial, v) <==> Readable(c, v))
  {
    forall c: Config, initial | c.doubles == d && Holdable(v)
      ensures ReadsBack(c, text, initial, v) <==> Readable(c, v)
    {
      AnyLayoutReadsBack(c, text, v, initial);
    }
  }

  // ---------- The writer ----------

  /** What writeIndent adds to a document: nothing after a space, which is taken for an indentation. */
  ghost function Gap(doc: Bytes, indent: Bytes): Bytes {
    if doc == [] then indent
    else if doc[|doc| - 1] == SPACE then []
    else if doc[|doc| - 1] == NEWLINE then indent
    else [NEWLINE] + indent
  }

  lemma MarginStep(n: nat)
    ensures Margin(n + 1) == Margin(n) + [SPACE, SPACE, SPACE] && |Margin(n)| == INDENT_SIZE * n
  {
    SpacesSnoc(INDENT_SIZE * n);
    SpacesSnoc(INDENT_SIZE * n + 1);
    SpacesSnoc(INDENT_SIZE * n + 2);
    assert [SPACE, SPACE, SPACE] == [SPACE] + [SPACE] + [SPACE];
  }

  lemma {:induction false} SpacesSnoc(n: nat)
    ensures Spaces(n + 1) == Spaces(n) + [SPACE]
  {
    if n > 0 {
      SpacesSnoc(n - 1);
      Regrouped([SPACE], Spaces(n - 1), [SPACE]);
    }
  }

  lemma LengthStep(d: Doubles, es: seq<Value>, i: nat)
    requires i < |es|
    ensures TotalLength(d, es[..i + 1]) == TotalLength(d, es[..i]) + |Fast(d, false, es[i])|
  {
    assert es[..i + 1][..i] == es[..i];
  }

  /** A text that layout can follow. */
  predicate Ended(t: Bytes) {
    t != [] && !IsSpace(t[|t| - 1])
  }

  lemma StyledEnded(d: Doubles, v: Value, n: nat)
    requires ShowsPlain(d, v)
    ensures Ended(Styled(d, v, n))
  {
    if !Spread(d, v) {
      ShortShown(d, v);
    }
  }

  lemma EndedConcat(a: Bytes, b: Bytes)
    requires Ended(b)
    ensures Ended(a + b)
  {
  }

  lemma MembersStep(d: Doubles, ms: seq<Member>, it: nat, n: nat, text: Bytes, start: Bytes, all: Bytes)
    requires it < |ms| && text + StyledMembers(d, ms[it..], n) == start + all
    ensures var text' := text + StyledMember(d, ms[it], n);
      if it + 1 == |ms| then text' == start + all
      else text' + [COMMA] + StyledMembers(d, ms[it + 1..], n) == start + all
  {
    var item, comma, rest := StyledMember(d, ms[it], n), CommaIf(it + 1 < |ms|), StyledMembers(d, ms[it + 1..], n);
    assert ms[it..][1..] == ms[it + 1..];
    Split3(text, item, comma, rest, StyledMembers(d, ms[it..], n));
  }

  lemma ElemsStep(d: Doubles, es: seq<Value>, i: nat, n: nat, text: Bytes, start: Bytes, all: Bytes)
    requires i < |es| && text + StyledElems(d, es[i..], n) == start + all
    ensures var text' := text + (Break(n) + Styled(d, es[i], n));
      if i + 1 == |es| then text' == start + all else text' + [COMMA] + StyledElems(d, es[i + 1..], n) == start + all
  {
    var item, comma, rest := Break(n) + Styled(d, es[i], n), CommaIf(i + 1 < |es|), StyledElems(d, es[i + 1..], n);
    assert es[i..][1..] == es[i + 1..];
    Split3(text, item, comma, rest, StyledElems(d, es[i..], n));
  }

  lemma Split3(text: Bytes, item: Bytes, comma: Bytes, rest: Bytes, whole: Bytes)
    requires whole == item + comma + rest
    ensures text + whole == text + item + comma + rest
    ensures comma == [] && rest == [] ==> text + whole == text + item
  {
    assert text + item + [] + [] == text + item;
  }

  class StyledWriter {
    const doubles: Doubles
    var document: Bytes
    var childValues: seq<Bytes>
    var indentString: Bytes
    var addChildValues: bool

    constructor (doubles: Doubles)
      ensures this.doubles == doubles && document == [] && indentString == [] && !addChildValues
    {
      this.doubles := doubles;
      document := [];
      childValues := [];
      indentString := [];
      addChildValues := false;
    }

    /** A value's text can start here: at the very beginning, or after a space. */
    ghost predicate AtValue()
      reads this
    {
      if document == [] then indentString == [] else document[|document| - 1] == SPACE
    }

    method PushValue(text: Bytes)
      modifies this`document, this`childValues
      ensures addChildValues ==> document == old(document) && childValues == old(childValues) + [text]
      ensures !addChildValues ==> document == old(document) + text && childValues == old(childValues)
    {
      if addChildValues {
        childValues := childValues + [text];
      } else {
        document := document + text;
      }
    }

    method WriteIndent()
      modifies this`document
      ensures document == old(document) + Gap(old(document), indentString)
    {
      if document != [] {
        var last := document[|document| - 1];
        if last == SPACE {
          return;
        }
        if last != NEWLINE {
          document := document + [NEWLINE];
        }
      }
      document := document + indentString;
    }

    method WriteWithIndent(text: Bytes)
      modifies this`document
      ensures document == old(document) + Gap(old(document), indentString) + text
    {
      WriteIndent();
      document := document + text;
    }

    method Indent(ghost n: nat)
      requires indentString == Margin(n)
      modifies this`indentString
      ensures indentString == Margin(n + 1)
    {
      MarginStep(n);
      indentString := indentString + [SPACE, SPACE, SPACE];
    }

    method Unindent(ghost n: nat)
      requires indentString == Margin(n + 1)
      modifies this`indentString
      ensures indentString == Margin(n)
    {
      MarginStep(n);
      indentString := indentString[..|indentString| - INDENT_SIZE];
    }

    /**
      The text is the lines of the value, each after three spaces for every container it stands in. It holds exactly the
      tokens of the value, so that without its layout it is the compact text, and parsing it gives the value back
      exactly when all its integers are in the readable range.
     */
    method Write(root: Value) returns (text: Bytes)
      requires Storable(root) && ShowsPlain(doubles, root)
      modifies this
      ensures text == document && indentString == [] && !addChildValues
      ensures text == Render(LinesOf(doubles, root, 0, [], []))
      ensures LaidAt(text, 0, Tokens(doubles, root, []))
      ensures Core(text) == Fast(doubles, false, root)
      ensures forall c: Config, initial :: c.doubles == doubles && Holdable(root) ==>
        (ReadsBack(c, text, initial, root) <==> Readable(c, root))
    {
      document := [];
      addChildValues := false;
      indentString := [];
      WriteValue(root, 0);
      document := document + [NEWLINE];
      text := document;
      StyledLines(doubles, root, 0, [], []);
      assert [] + Styled(doubles, root, 0) == [] + [] + Styled(doubles, root, 0) + [] == Styled(doubles, root, 0);
      DocumentLaid(doubles, root);
      LaidIsFast(doubles, text, root);
      EveryReaderReadsBack(doubles, text, root);
    }

    /** While element texts are collected, only values that fit on a line may be written. */
    method WriteValue(v: Value, ghost n: nat)
      requires Storable(v) && ShowsPlain(doubles, v) && indentString == Margin(n)
      requires if addChildValues then Flat(v) else AtValue()
      modifies this
      ensures indentString == old(indentString) && addChildValues == old(addChildValues)
      ensures if addChildValues
              then document == old(document) && childValues == old(childValues) + [Fast(doubles, false, v)]
              else document == old(document) + Styled(doubles, v, n)
      decreases v, 1
    {
      match v
      case Array(es) =>
        WriteArrayValue(es, n);
      case Object(ms) =>
        if ms == [] {
          assert [OPEN_BRACE, CLOSE_BRACE] == Fast(doubles, false, v);
          PushValue([OPEN_BRACE, CLOSE_BRACE]);
        } else {
          WriteMembers(ms, n);
        }
      case _ =>
        var text := ScalarText(doubles, v);
        PushValue(text);
    }

    method WriteMembers(ms: seq<Member>, ghost n: nat)
      requires Storable(Object(ms)) && MembersShowPlain(doubles, ms) && ms != [] && !addChildValues
      requires AtValue() && indentString == Margin(n)
      modifies this
      ensures indentString == old(indentString) && !addChildValues
      ensures document == old(document) + Styled(doubles, Object(ms), n)
      decreases ms, 2
    {
      ghost var start := document;
      OpensAt(start, indentString, OPEN_BRACE);
      WriteWithIndent([OPEN_BRACE]);
      Indent(n);
      WriteEachMember(ms, n + 1);
      Unindent(n);
      ghost var body := StyledMembers(doubles, ms, n + 1);
      ClosesAt(start, OPEN_BRACE, body, n, CLOSE_BRACE);
      WriteWithIndent([CLOSE_BRACE]);
      StyledObject(doubles, ms, n);
    }

    /** The loop. */
    method WriteEachMember(ms: seq<Member>, ghost n: nat)
      requires Storable(Object(ms)) && MembersShowPlain(doubles, ms) && ms != [] && !addChildValues
      requires Ended(document) && indentString == Margin(n)
      modifies this
      ensures indentString == old(indentString) && !addChildValues && Ended(document)
      ensures document == old(document) + StyledMembers(doubles, ms, n)
      decreases ms, 0
    {
      var it := 0;
      ghost var all := StyledMembers(doubles, ms, n);
      assert ms[0..] == ms;
      while true
        invariant it < |ms| && !addChildValues && indentString == Margin(n) && Ended(document)
        invariant document + StyledMembers(doubles, ms[it..], n) == old(document) + all
        decreases |ms| - it
      {
        MembersStep(doubles, ms, it, n, document, old(document), all);
        WriteMember(ms[it], n);
        it := it + 1;
        if it == |ms| {
          break;
        }
        document := document + [COMMA];
      }
    }

    method WriteMember(m: Member, ghost n: nat)
      requires Storable(m.value) && ShowsPlain(doubles, m.value) && !addChildValues
      requires Ended(document) && indentString == Margin(n)
      modifies this
      ensures indentString == old(indentString) && !addChildValues && Ended(document)
      ensures document == old(document) + StyledMember(doubles, m, n)
      decreases m, 0
    {
      var name := ValueToQuotedString(m.name);
      WriteWithIndent(name);
      document := document + [SPACE, COLON, SPACE];
      ghost var before := document;
      WriteValue(m.value, n);
      StyledEnded(doubles, m.value, n);
      EndedConcat(before, Styled(doubles, m.value, n));
      MemberText(old(document), Break(n), name, Styled(doubles, m.value, n));
    }

    method WriteArrayValue(es: seq<Value>, ghost n: nat)
      requires Storable(Array(es)) && AllShowPlain(doubles, es) && indentString == Margin(n)
      requires if addChildValues then es == [] else AtValue()
      modifies this
      ensures indentString == old(indentString) && addChildValues == old(addChildValues)
      ensures if addChildValues
              then document == old(document) && childValues == old(childValues) + [Fast(doubles, false, Array(es))]
              else document == old(document) + Styled(doubles, Array(es), n)
      decreases es, 3
    {
      if es == [] {
        assert [OPEN_BRACKET, CLOSE_BRACKET] == Fast(doubles, false, Array(es));
        PushValue([OPEN_BRACKET, CLOSE_BRACKET]);
      } else {
        var isArrayMultiLine := IsMultilineArray(es, n);
        if isArrayMultiLine {
          WriteLines(es, n);
        } else {
          WriteLine(es);
        }
      }
    }

    /** The collected texts are those of all the elements. */
    ghost predicate Collected(es: seq<Value>)
      reads this
    {
      |childValues| == |es| && forall i :: 0 <= i < |es| ==> childValues[i] == Fast(doubles, false, es[i])
    }

    /** Whether an array takes several lines. The texts of its elements are collected if all are flat and few enough. */
    method IsMultilineArray(es: seq<Value>, ghost n: nat) returns (isMultiLine: bool)
      requires Storable(Array(es)) && AllShowPlain(doubles, es) && es != [] && !addChildValues
      requires indentString == Margin(n)
      modifies this
      ensures document == old(document) && indentString == old(indentString) && !addChildValues
      ensures isMultiLine <==> !OneLine(doubles, es)
      ensures (childValues == [] || (Collected(es) && AllFlat(es))) && (!isMultiLine ==> Collected(es))
      decreases es, 2
    {
      var size := |es|;
      isMultiLine := size * 3 >= RIGHT_MARGIN;
      childValues := [];
      var index := 0;
      while index < size && !isMultiLine
        invariant index <= size
        invariant !isMultiLine ==> size * 3 < RIGHT_MARGIN && forall i :: 0 <= i < index ==> Flat(es[i])
        invariant isMultiLine ==> size * 3 >= RIGHT_MARGIN || !AllFlat(es)
      {
        var child := es[index];
        isMultiLine := isMultiLine || (child.Array? && |child.elems| > 0) || (child.Object? && |child.members| > 0);
        index := index + 1;
      }
      if !isMultiLine {
        addChildValues := true;
        var lineLength := CollectChildValues(es, n);
        addChildValues := false;
        isMultiLine := lineLength >= RIGHT_MARGIN;
      }
    }

    /** The second loop of isMultineArray: collects the texts and adds up their lengths. */
    method CollectChildValues(es: seq<Value>, ghost n: nat) returns (lineLength: nat)
      requires Storable(Array(es)) && AllShowPlain(doubles, es) && es != [] && AllFlat(es)
      requires addChildValues && childValues == [] && indentString == Margin(n)
      modifies this
      ensures document == old(document) && indentString == old(indentString) && addChildValues
      ensures Collected(es) && lineLength == 4 + 2 * (|es| - 1) + TotalLength(doubles, es)
      decreases es, 1
    {
      lineLength := 4 + (|es| - 1) * 2;
      var index := 0;
      while index < |es|
        invariant index <= |es| && |childValues| == index && document == old(document)
        invariant forall i :: 0 <= i < index ==> childValues[i] == Fast(doubles, false, es[i])
        invariant addChildValues && indentString == old(indentString)
        invariant lineLength == 4 + 2 * (|es| - 1) + TotalLength(doubles, es[..index])
      {
        LengthStep(doubles, es, index);
        WriteValue(es[index], n);
        lineLength := lineLength + |childValues[index]|;
        index := index + 1;
      }
      assert es[..|es|] == es;
    }

    /** The layout with one element a line. */
    method WriteLines(es: seq<Value>, ghost n: nat)
      requires Storable(Array(es)) && AllShowPlain(doubles, es) && es != [] && !addChildValues
      requires AtValue() && indentString == Margin(n) && !OneLine(doubles, es)
      requires childValues == [] || (Collected(es) && AllFlat(es))
      modifies this
      ensures indentString == old(indentString) && !addChildValues
      ensures document == old(document) + Styled(doubles, Array(es), n)
      decreases es, 2
    {
      ghost var start := document;
      OpensAt(start, indentString, OPEN_BRACKET);
      WriteWithIndent([OPEN_BRACKET]);
      Indent(n);
      WriteEachElement(es, n + 1);
      Unindent(n);
      ghost var body := StyledElems(doubles, es, n + 1);
      ClosesAt(start, OPEN_BRACKET, body, n, CLOSE_BRACKET);
      WriteWithIndent([CLOSE_BRACKET]);
      StyledArray(doubles, es, n);
    }

    /** The loop. */
    method WriteEachElement(es: seq<Value>, ghost n: nat)
      requires Storable(Array(es)) && AllShowPlain(doubles, es) && es != [] && !addChildValues && n > 0
      requires Ended(document) && indentString == Margin(n)
      requires childValues == [] || (Collected(es) && AllFlat(es))
      modifies this
      ensures indentString == old(indentString) && !addChildValues && Ended(document)
      ensures document == old(document) + StyledElems(doubles, es, n)
      decreases es, 1
    {
      var hasChildValue := childValues != [];
      var index := 0;
      ghost var all := StyledElems(doubles, es, n);
      assert es[0..] == es;
      while true
        invariant index < |es| && !addChildValues && indentString == Margin(n) && Ended(document)
        invariant hasChildValue ==> Collected(es) && AllFlat(es)
        invariant document + StyledElems(doubles, es[index..], n) == old(document) + all
        decreases |es| - index
      {
        ElemsStep(doubles, es, index, n, document, old(document), all);
        WriteElement(es, index, hasChildValue, n);
        index := index + 1;
        if index == |es| {
          break;
        }
        document := document + [COMMA];
      }
    }

    /** One turn of the loop, without the comma. */
    method WriteElement(es: seq<Value>, index: nat, hasChildValue: bool, ghost n: nat)
      requires Storable(Array(es)) && AllShowPlain(doubles, es) && index < |es| && !addChildValues
      requires Ended(document) && indentString == Margin(n) && n > 0
      requires hasChildValue ==> Collected(es) && AllFlat(es)
      modifies this
      ensures indentString == old(indentString) && !addChildValues && Ended(document)
      ensures hasChildValue ==> Collected(es)
      ensures document == old(document) + (Break(n) + Styled(doubles, es[index], n))
      decreases es, 0
    {
      StyledEnded(doubles, es[index], n);
      EndedConcat(old(document) + Break(n), Styled(doubles, es[index], n));
      Regrouped(old(document), Break(n), Styled(doubles, es[index], n));
      if hasChildValue {
        WriteWithIndent(childValues[index]);
      } else {
        WriteIndent();
        MarginStep(n - 1);
        WriteValue(es[index], n);
      }
    }

    /** The layout on a single line, from the collected texts. */
    method WriteLine(es: seq<Value>)
      requires es != [] && Collected(es)
      modifies this`document
      ensures document == old(document) + OnOneLine(doubles, es)
    {
      document := document + [OPEN_BRACKET, SPACE];
      ghost var start := document;
      ListedEnds(doubles, es);
      for index := 0 to |es|
        invariant document + ListedFrom(doubles, es, index) == start + Listed(doubles, es)
      {
        WriteNext(es, index);
      }
      assert document + [] == document;
      document := document + [SPACE, CLOSE_BRACKET];
      Enclosed(old(document), [OPEN_BRACKET, SPACE], Listed(doubles, es), [SPACE, CLOSE_BRACKET]);
    }

    /** One turn of the loop. */
    method WriteNext(es: seq<Value>, index: nat)
      requires index < |es| && Collected(es)
      modifies this`document
      ensures document + ListedFrom(doubles, es, index + 1) == old(document) + ListedFrom(doubles, es, index)
    {
      if index > 0 {
        document := document + [COMMA, SPACE];
      }
      document := document + childValues[index];
      ListedStep(doubles, es, index, old(document));
    }
  }

  lemma Enclosed(before: Bytes, open: Bytes, body: Bytes, close: Bytes)
    ensures before + open + body + close == before + (open + body + close)
  {
  }

  lemma StyledArray(d: Doubles, es: seq<Value>, n: nat)
    requires es != [] && !OneLine(d, es)
    ensures Styled(d, Array(es), n) == [OPEN_BRACKET] + StyledElems(d, es, n + 1) + (Break(n) + [CLOSE_BRACKET])
  {
  }

  lemma StyledObject(d: Doubles, ms: seq<Member>, n: nat)
    requires ms != []
    ensures Styled(d, Object(ms), n) == [OPEN_BRACE] + StyledMembers(d, ms, n + 1) + (Break(n) + [CLOSE_BRACE])
  {
  }

  /** An opening bracket where a value's text can start. */
  lemma OpensAt(before: Bytes, indent: Bytes, open: byte)
    requires if before == [] then indent == [] else before[|before| - 1] == SPACE
    ensures before + Gap(before, indent) + [open] == before + [open]
    ensures !IsSpace(open) ==> Ended(before + [open])
  {
    assert before + [] == before;
  }

  /** A closing bracket on a line of its own. */
  lemma ClosesAt(before: Bytes, open: byte, body: Bytes, n: nat, close: byte)
    requires Ended(before + [open] + body)
    ensures var lines := before + [open] + body;
      lines + Gap(lines, Margin(n)) + [close] == before + ([open] + body + (Break(n) + [close]))
  {
    var gap := Break(n);
    Regrouped(before + [open] + body, gap, [close]);
    Regrouped(before, [open], body);
    Regrouped(before, [open] + body, gap + [close]);
  }

  lemma MemberText(before: Bytes, gap: Bytes, name: Bytes, text: Bytes)
    ensures before + gap + name + [SPACE, COLON, SPACE] + text == before + (gap + (name + [SPACE, COLON, SPACE]) + text)
  {
  }

  /** The elements from an index on, with the comma and space before it if it is not the first. */
  ghost function ListedFrom(d: Doubles, es: seq<Value>, i: nat): Bytes
    requires i <= |es|
  {
    (if 0 < i < |es| then [COMMA, SPACE] else []) + Listed(d, es[i..])
  }

  lemma ListedEnds(d: Doubles, es: seq<Value>)
    ensures ListedFrom(d, es, 0) == Listed(d, es) && ListedFrom(d, es, |es|) == []
  {
    assert es[0..] == es && [] + Listed(d, es) == Listed(d, es);
  }

  lemma ListedStep(d: Doubles, es: seq<Value>, i: nat, before: Bytes)
    requires i < |es|
    ensures (if i > 0 then before + [COMMA, SPACE] else before) + Fast(d, false, es[i]) + ListedFrom(d, es, i + 1)
         == before + ListedFrom(d, es, i)
  {
    assert es[i..][1..] == es[i + 1..];
    var comma: Bytes := if i > 0 then [COMMA, SPACE] else [];
    var item, rest := Fast(d, false, es[i]), ListedFrom(d, es, i + 1);
    assert i + 1 == |es| ==> rest == [] + [] == [];
    assert Listed(d, es[i..]) == item + rest;
    assert i == 0 ==> before + comma == before;
    Regrouped(before, comma, item + rest);
    Regrouped(before + comma, item, rest);
  }
}
