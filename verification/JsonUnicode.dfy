/** String literals: how their bytes are read, and the characters they spell. */
module JsonUnicode {
  import opened JsonText
  import opened Options
  import opened JsonGrammar
  import opened JsonLayout

  predicate IsSurrogate(u: nat) {
    0xD800 <= u <= 0xDFFF
  }

  /** The numbers that stand for characters. */
  predicate IsScalar(cp: nat) {
    cp <= 0x10FFFF && !IsSurrogate(cp)
  }

  // ---------- UTF-8, read strictly (section 3 of RFC 3629) ----------

  predicate IsTrail(c: byte) {
    0x80 <= c <= 0xBF
  }

  /** The number of bytes a leading byte announces; none for a byte that cannot lead. */
  function Announced(lead: byte): nat {
    if lead < 0x80 then 1
    else if 0xC0 <= lead <= 0xDF then 2
    else if 0xE0 <= lead <= 0xEF then 3
    else if 0xF0 <= lead <= 0xF7 then 4
    else 0
  }

  function Low6(c: byte): nat {
    c % 0x40
  }

  /** The number that a leading byte and its trailing bytes spell. */
  function Spelled(b: Bytes, n: nat): nat
    requires 1 <= n <= 4 && n <= |b| && n == Announced(b[0])
  {
    if n == 1 then b[0]
    else if n == 2 then (b[0] as int - 0xC0) * 0x40 + Low6(b[1])
    else if n == 3 then (b[0] as int - 0xE0) * 0x1000 + Low6(b[1]) * 0x40 + Low6(b[2])
    else (b[0] as int - 0xF0) * 0x40000 + Low6(b[1]) * 0x1000 + Low6(b[2]) * 0x40 + Low6(b[3])
  }

  /** The shortest form is the only one allowed. */
  function Shortest(cp: nat): nat {
    if cp < 0x80 then 1 else if cp < 0x800 then 2 else if cp < 0x10000 then 3 else 4
  }

  /** The length of the well-formed character at the front; 0 if there is none. */
  function FrontLength(b: Bytes): (n: nat)
    requires b != []
    ensures n <= |b|
  {
    var n := Announced(b[0]);
    if n == 0 || n > |b| || !(forall i :: 1 <= i < n ==> IsTrail(b[i])) then 0
    else if !IsScalar(Spelled(b, n)) || Shortest(Spelled(b, n)) != n then 0
    else n
  }

  /** The characters of a byte string, if it is well formed. */
  function FromUtf8(b: Bytes): Option<seq<nat>>
    decreases |b|
  {
    if b == [] then Some([])
    else
      var n := FrontLength(b);
      if n == 0 then None
      else
        match FromUtf8(b[n..])
        case None => None
        case Some(cps) => Some([Spelled(b, n)] + cps)
  }

  function ToUtf8(cps: seq<nat>): Bytes {
    if cps == [] then [] else Utf8(cps[0]) + ToUtf8(cps[1..])
  }

  lemma DivideUp(cp: nat)
    requires cp <= 0x10FFFF
    ensures cp == cp / 0x40 * 0x40 + cp % 0x40
    ensures cp == cp / 0x1000 * 0x1000 + cp / 0x40 % 0x40 * 0x40 + cp % 0x40
    ensures cp == cp / 0x40000 * 0x40000 + cp / 0x1000 % 0x40 * 0x1000 + cp / 0x40 % 0x40 * 0x40 + cp % 0x40
  {
  }

  lemma Utf8Bytes(cp: nat)
    requires cp <= 0x10FFFF
    ensures var b := Utf8(cp);
      && Announced(b[0]) == |b| == Shortest(cp) && (forall i :: 1 <= i < |b| ==> IsTrail(b[i]))
      && Spelled(b, |b|) == cp
  {
    DivideUp(cp);
    var b := Utf8(cp);
    assert forall i :: 1 <= i < |b| ==> b[i] == 0x80 + Low6(b[i]);
  }

  /** The bytes made for a number up to U+10FFFF start a well-formed text exactly when it is not a surrogate. */
  lemma Utf8Front(cp: nat, rest: Bytes)
    requires cp <= 0x10FFFF
    ensures var b := Utf8(cp) + rest;
      FrontLength(b) == (if IsSurrogate(cp) then 0 else |Utf8(cp)|)
      && (!IsSurrogate(cp) ==> Spelled(b, |Utf8(cp)|) == cp)
  {
    var u := Utf8(cp);
    var b := u + rest;
    Utf8Bytes(cp);
    assert forall i :: 0 <= i < |u| ==> b[i] == u[i];
    assert Spelled(b, |u|) == Spelled(u, |u|);
  }

  /** Encoding then decoding gives the characters back, so no two texts share their bytes. */
  lemma {:induction false} Utf8RoundTrip(cps: seq<nat>)
    requires forall i :: 0 <= i < |cps| ==> IsScalar(cps[i])
    ensures FromUtf8(ToUtf8(cps)) == Some(cps)
  {
    if cps != [] {
      var rest := ToUtf8(cps[1..]);
      Utf8Front(cps[0], rest);
      Utf8RoundTrip(cps[1..]);
      assert (Utf8(cps[0]) + rest)[|Utf8(cps[0])|..] == rest;
      assert cps == [cps[0]] + cps[1..];
    }
  }

  // ---------- Literals (section 7 of RFC 8259) ----------

  /** The short escapes: the letter after the backslash, and the character. */
  const ESCAPES: seq<(char, char)> :=
    [('"', '"'), ('\\', '\\'), ('/', '/'), ('b', '\U{08}'), ('f', '\U{0C}'), ('n', '\n'), ('r', '\r'), ('t', '\t')]

  lemma ShortEscapeTable(letter: byte, c: byte)
    ensures ShortEscape(letter) == Some(c) <==> (letter as char, c as char) in ESCAPES
  {
  }

  /** A byte that has a short escape is written with it, the slash apart; other control characters take a long one. */
  lemma ShortestEscape(c: byte)
    ensures (exists letter :: letter != 0x2F && ShortEscape(letter) == Some(c)) <==> |EscapeByte(c)| == 2
    ensures |EscapeByte(c)| == 1 ==> EscapeByte(c) == [c] && !IsControl(c)
    ensures |EscapeByte(c)| > 2 ==> IsControl(c)
  {
    if |EscapeByte(c)| == 2 {
      assert ShortEscape(EscapeByte(c)[1]) == Some(c);
    }
  }

  lemma HexValueTable(c: byte, h: nat)
    requires h < 16
    ensures HexValue(c) == Some(h)
      <==> c as char == "0123456789abcdef"[h] || c as char == "0123456789ABCDEF"[h]
  {
  }

  /** A part of a literal: a byte that stands for itself, a short escape, or \u and four hexadecimal digits. */
  datatype Piece = Raw(c: byte) | Short(letter: byte) | Escaped(digits: Bytes)

  predicate FourHex(t: Bytes) {
    && |t| == 4 && HexValue(t[0]).Some? && HexValue(t[1]).Some? && HexValue(t[2]).Some? && HexValue(t[3]).Some?
  }

  /** The 16-bit unit that four hexadecimal digits of either case spell. */
  function UnitOf(t: Bytes): (u: nat)
    requires FourHex(t)
    ensures u <= 0xFFFF
  {
    16 * (16 * (16 * HexValue(t[0]).value + HexValue(t[1]).value) + HexValue(t[2]).value) + HexValue(t[3]).value
  }

  predicate IsHigh(u: nat) {
    0xD800 <= u <= 0xDBFF
  }

  predicate GoodPiece(p: Piece) {
    match p
    case Raw(c) => c != QUOTE && c != BACKSLASH
    case Short(letter) => ShortEscape(letter).Some?
    case Escaped(t) => FourHex(t)
  }

  /** What may stand between the quotes. RFC 8259 allows as bytes that stand for themselves only those from 32 on. */
  predicate GoodLiteral(ps: seq<Piece>) {
    ps == [] || (GoodPiece(ps[0]) && GoodLiteral(ps[1..]))
  }

  function PieceText(p: Piece): Bytes {
    match p
    case Raw(c) => [c]
    case Short(letter) => [BACKSLASH, letter]
    case Escaped(t) => [BACKSLASH, 0x75] + t
  }

  function PiecesText(ps: seq<Piece>): Bytes {
    if ps == [] then [] else PieceText(ps[0]) + PiecesText(ps[1..])
  }

  function LiteralText(ps: seq<Piece>): Bytes {
    [QUOTE] + PiecesText(ps) + [QUOTE]
  }

  function Then(t: Bytes, r: Option<Bytes>): Option<Bytes> {
    match r
    case None => None
    case Some(s) => Some(t + s)
  }

  /** The number two units of a surrogate pair stand for; of the second one only the lowest ten bits count. */
  function Combined(high: nat, low: nat): nat
    requires IsHigh(high)
  {
    0x10000 + (high - 0xD800) * 0x400 + low % 0x400
  }

  /** The bytes a literal stands for. There are none if a high surrogate is not followed by a second unit. */
  function Contents(ps: seq<Piece>): Option<Bytes>
    requires GoodLiteral(ps)
    decreases |ps|
  {
    if ps == [] then Some([])
    else
      var rest := ps[1..];
      match ps[0]
      case Raw(c) => Then([c], Contents(rest))
      case Short(letter) => Then([ShortEscape(letter).value], Contents(rest))
      case Escaped(t) =>
        if !IsHigh(UnitOf(t)) then Then(Utf8(UnitOf(t)), Contents(rest))
        else if rest != [] && rest[0].Escaped? then
          Then(Utf8(Combined(UnitOf(t), UnitOf(rest[0].digits))), Contents(rest[1..]))
        else None
  }

  // ---------- Reading a literal ----------

  /** What decoding gives: the contents, or a failure if there are none. */
  ghost predicate Decodes(d: Decoded<Bytes>, r: Option<Bytes>) {
    match r
    case None => d.Failed?
    case Some(s) => d == Done(s)
  }

  lemma UnitHere(doc: Bytes, p: nat, t: Bytes, end: nat)
    requires FourHex(t) && Here(doc, p, PieceText(Escaped(t))) && p + 6 <= end <= |doc|
    ensures doc[p] == BACKSLASH && doc[p + 1] == 0x75
    ensures EscapedUnit(doc, p + 2, end) == Done(Unit(UnitOf(t), p + 6))
    ensures ScanString(doc, p) == ScanString(doc, p + 6)
  {
    HereSplit(doc, p, [BACKSLASH, 0x75], t);
    HereAt(doc, p, [BACKSLASH, 0x75], 0);
    HereAt(doc, p, [BACKSLASH, 0x75], 1);
    HereAt(doc, p + 2, t, 0);
    HereAt(doc, p + 2, t, 1);
    HereAt(doc, p + 2, t, 2);
    HereAt(doc, p + 2, t, 3);
    PlainHex(t[0]);
    PlainHex(t[1]);
    PlainHex(t[2]);
    PlainHex(t[3]);
    ScanUnit(doc, p);
    var d0, d1, d2 := HexValue(t[0]).value, HexValue(t[1]).value, HexValue(t[2]).value;
    var u := UnitOf(t);
    assert HexDigits(doc, p + 6, p + 6, u) == Done(Unit(u, p + 6));
    assert HexDigits(doc, p + 5, p + 6, 16 * (16 * d0 + d1) + d2) == Done(Unit(u, p + 6));
    assert HexDigits(doc, p + 4, p + 6, 16 * d0 + d1) == Done(Unit(u, p + 6));
    assert HexDigits(doc, p + 3, p + 6, d0) == Done(Unit(u, p + 6));
    assert HexDigits(doc, p + 2, p + 6, 0) == Done(Unit(u, p + 6));
  }

  lemma PlainHex(c: byte)
    requires HexValue(c).Some?
    ensures c != QUOTE && c != BACKSLASH
  {
  }

  lemma ScanUnit(doc: Bytes, p: nat)
    requires p + 6 <= |doc| && doc[p] == BACKSLASH
    requires forall i :: p + 2 <= i < p + 6 ==> doc[i] != QUOTE && doc[i] != BACKSLASH
    ensures ScanString(doc, p) == ScanString(doc, p + 6)
  {
    assert ScanString(doc, p) == ScanString(doc, p + 2);
    assert ScanString(doc, p + 2) == ScanString(doc, p + 3);
    assert ScanString(doc, p + 3) == ScanString(doc, p + 4);
    assert ScanString(doc, p + 4) == ScanString(doc, p + 5);
    assert ScanString(doc, p + 5) == ScanString(doc, p + 6);
  }

  /**
    A high surrogate takes the next unit as its second half, whatever that unit is: the reader does not
    ask for a low surrogate, and uses the lowest ten bits.
   */
  lemma SecondHalfUnchecked(doc: Bytes, p: nat, t1: Bytes, t2: Bytes, end: nat)
    requires FourHex(t1) && FourHex(t2) && p + 12 <= end <= |doc|
    requires Here(doc, p, PieceText(Escaped(t1))) && Here(doc, p + 6, PieceText(Escaped(t2)))
    ensures EscapedCodePoint(doc, p + 2, end)
      == if IsHigh(UnitOf(t1)) then Done(Unit(Combined(UnitOf(t1), UnitOf(t2)), p + 12))
         else Done(Unit(UnitOf(t1), p + 6))
  {
    UnitHere(doc, p, t1, end);
    UnitHere(doc, p + 6, t2, end);
    if IsHigh(UnitOf(t1)) {
      assert UnitOf(t1) % 0x400 == UnitOf(t1) - 0xD800;
    }
  }

  lemma PairReads(doc: Bytes, p: nat, t1: Bytes, t2: Bytes, end: nat)
    requires FourHex(t1) && FourHex(t2) && IsHigh(UnitOf(t1)) && p + 12 <= end <= |doc|
    requires Here(doc, p, PieceText(Escaped(t1))) && Here(doc, p + 6, PieceText(Escaped(t2)))
    ensures ScanString(doc, p) == ScanString(doc, p + 12)
    ensures DecodeText(doc, p, end)
      == Prepend(Utf8(Combined(UnitOf(t1), UnitOf(t2))), DecodeText(doc, p + 12, end))
  {
    UnitHere(doc, p, t1, end);
    UnitHere(doc, p + 6, t2, end);
    SecondHalfUnchecked(doc, p, t1, t2, end);
  }

  /** A piece that does not need the next one. */
  lemma PieceReads(doc: Bytes, p: nat, x: Piece, end: nat)
    requires GoodPiece(x) && (x.Escaped? ==> !IsHigh(UnitOf(x.digits)))
    requires Here(doc, p, PieceText(x)) && p + |PieceText(x)| <= end <= |doc|
    ensures ScanString(doc, p) == ScanString(doc, p + |PieceText(x)|)
    ensures DecodeText(doc, p, end) == Prepend(
      match x case Raw(c) => [c] case Short(l) => [ShortEscape(l).value] case Escaped(t) => Utf8(UnitOf(t)),
      DecodeText(doc, p + |PieceText(x)|, end))
  {
    HereAt(doc, p, PieceText(x), 0);
    if x.Short? {
      HereAt(doc, p, PieceText(x), 1);
    } else if x.Escaped? {
      UnitHere(doc, p, x.digits, end);
    }
  }

  /** A high surrogate without a second unit. */
  lemma UnpairedFails(doc: Bytes, p: nat, t: Bytes, rest: seq<Piece>, end: nat)
    requires FourHex(t) && IsHigh(UnitOf(t)) && Here(doc, p, PieceText(Escaped(t))) && GoodLiteral(rest)
    requires Here(doc, p + 6, PiecesText(rest) + [QUOTE]) && end == p + 6 + |PiecesText(rest)| < |doc|
    requires rest != [] ==> !rest[0].Escaped?
    ensures DecodeText(doc, p, end).Failed?
  {
    UnitHere(doc, p, t, end);
    if rest != [] {
      PiecesHere(doc, p + 6, rest);
      HereAt(doc, p + 6, PieceText(rest[0]), 0);
      if rest[0].Short? {
        HereAt(doc, p + 6, PieceText(rest[0]), 1);
      }
    }
  }

  lemma PiecesHere(doc: Bytes, p: nat, ps: seq<Piece>)
    requires ps != [] && Here(doc, p, PiecesText(ps) + [QUOTE])
    ensures var t, rest := PieceText(ps[0]), PiecesText(ps[1..]);
      && Here(doc, p, t) && Here(doc, p + |t|, rest + [QUOTE]) && |PiecesText(ps)| == |t| + |rest|
  {
    var t, rest := PieceText(ps[0]), PiecesText(ps[1..]);
    Regrouped(t, rest, [QUOTE]);
    HereSplitAs(doc, p, PiecesText(ps) + [QUOTE], t, rest + [QUOTE]);
  }

  /** Scanning a literal stops exactly at its closing quote, and decoding gives its contents or fails. */
  lemma {:induction false} LiteralReads(doc: Bytes, p: nat, ps: seq<Piece>, end: nat)
    requires GoodLiteral(ps) && Here(doc, p, PiecesText(ps) + [QUOTE]) && end == p + |PiecesText(ps)| < |doc|
    ensures ScanString(doc, p) == Scan(true, end + 1) && Decodes(DecodeText(doc, p, end), Contents(ps))
    decreases |ps|, 0
  {
    if ps == [] {
      HereAt(doc, p, PiecesText(ps) + [QUOTE], 0);
    } else {
      PiecesHere(doc, p, ps);
      var x, rest, q := ps[0], ps[1..], p + |PieceText(ps[0])|;
      if x.Escaped? && IsHigh(UnitOf(x.digits)) {
        HighReads(doc, p, x.digits, rest, end);
      } else {
        PieceReads(doc, p, x, end);
        LiteralReads(doc, q, rest, end);
      }
    }
  }

  lemma {:induction false} HighReads(doc: Bytes, p: nat, t: Bytes, rest: seq<Piece>, end: nat)
    requires FourHex(t) && IsHigh(UnitOf(t)) && Here(doc, p, PieceText(Escaped(t))) && GoodLiteral(rest)
    requires Here(doc, p + 6, PiecesText(rest) + [QUOTE]) && end == p + 6 + |PiecesText(rest)| < |doc|
    ensures ScanString(doc, p) == Scan(true, end + 1)
    ensures Decodes(DecodeText(doc, p, end),
      if rest != [] && rest[0].Escaped? then
        Then(Utf8(Combined(UnitOf(t), UnitOf(rest[0].digits))), Contents(rest[1..]))
      else None)
    decreases |rest|, 1
  {
    if rest != [] && rest[0].Escaped? {
      PiecesHere(doc, p + 6, rest);
      PairReads(doc, p, t, rest[0].digits, end);
      LiteralReads(doc, p + 12, rest[1..], end);
    } else {
      UnitHere(doc, p, t, end);
      UnpairedFails(doc, p, t, rest, end);
      LiteralReads(doc, p + 6, rest, end);
    }
  }

  /** A string token with these contents, if any, lies between two positions. */
  ghost predicate QuotedAt(doc: Bytes, p: nat, q: nat, r: Option<Bytes>) {
    var t := Token(StringToken, p, q);
    p + 2 <= q <= |doc| && doc[p] == QUOTE && TokenAt(doc, p) == t && Decodes(StringOf(doc, t), r)
  }

  lemma LiteralHere(doc: Bytes, p: nat, t: Bytes)
    requires Here(doc, p, [QUOTE] + t + [QUOTE])
    ensures p + |t| + 2 <= |doc| && doc[p] == QUOTE && Here(doc, p + 1, t + [QUOTE])
  {
    Regrouped([QUOTE], t, [QUOTE]);
    HereSplitAs(doc, p, [QUOTE] + t + [QUOTE], [QUOTE], t + [QUOTE]);
    HereAt(doc, p, [QUOTE], 0);
  }

  /** A literal is one token with its contents. */
  lemma LiteralToken(doc: Bytes, p: nat, ps: seq<Piece>)
    requires GoodLiteral(ps) && Here(doc, p, LiteralText(ps))
    ensures QuotedAt(doc, p, p + |LiteralText(ps)|, Contents(ps))
  {
    LiteralHere(doc, p, PiecesText(ps));
    LiteralReads(doc, p + 1, ps, p + 1 + |PiecesText(ps)|);
    QuoteToken(doc, p, p + |LiteralText(ps)|, Contents(ps));
  }

  lemma QuoteToken(doc: Bytes, p: nat, q: nat, r: Option<Bytes>)
    requires p + 2 <= q <= |doc| && doc[p] == QUOTE
    requires ScanString(doc, p + 1) == Scan(true, q) && Decodes(DecodeText(doc, p + 1, q - 1), r)
    ensures QuotedAt(doc, p, q, r)
  {
  }

  // ---------- The characters of a literal ----------

  function RawPieces(b: Bytes): seq<Piece> {
    if b == [] then [] else [Raw(b[0])] + RawPieces(b[1..])
  }

  /** Pieces spell a character: its UTF-8 bytes, a short escape, one unit, or the two halves of a surrogate pair. */
  predicate Spells(ps: seq<Piece>, cp: nat) {
    && IsScalar(cp)
    && (|| (ps == RawPieces(Utf8(cp)) && cp != QUOTE && cp != BACKSLASH)
        || (|ps| == 1 && ps[0].Short? && ShortEscape(ps[0].letter) == Some(cp))
        || (|ps| == 1 && ps[0].Escaped? && FourHex(ps[0].digits) && UnitOf(ps[0].digits) == cp)
        || (|ps| == 2 && ps[0].Escaped? && ps[1].Escaped? && SpellPair(ps[0].digits, ps[1].digits, cp)))
  }

  predicate SpellPair(t1: Bytes, t2: Bytes, cp: nat) {
    && FourHex(t1) && FourHex(t2) && cp >= 0x10000
    && UnitOf(t1) == 0xD800 + (cp - 0x10000) / 0x400 && UnitOf(t2) == 0xDC00 + (cp - 0x10000) % 0x400
  }

  /** A character of a literal and the pieces that spell it. */
  datatype Character = Character(cp: nat, pieces: seq<Piece>)

  function AllPieces(cs: seq<Character>): seq<Piece> {
    if cs == [] then [] else cs[0].pieces + AllPieces(cs[1..])
  }

  function Scalars(cs: seq<Character>): (cps: seq<nat>)
    ensures |cps| == |cs|
  {
    if cs == [] then [] else [cs[0].cp] + Scalars(cs[1..])
  }

  predicate SpellsAll(cs: seq<Character>) {
    cs == [] || (Spells(cs[0].pieces, cs[0].cp) && SpellsAll(cs[1..]))
  }

  lemma RawStep(c: byte, rest: seq<Piece>)
    requires c != QUOTE && c != BACKSLASH && GoodLiteral(rest)
    ensures GoodLiteral([Raw(c)] + rest) && Contents([Raw(c)] + rest) == Then([c], Contents(rest))
  {
    assert ([Raw(c)] + rest)[1..] == rest;
  }

  lemma ThenThen(a: Bytes, b: Bytes, r: Option<Bytes>)
    ensures Then(a, Then(b, r)) == Then(a + b, r) && Then([], r) == r
  {
    if r.Some? {
      Regrouped(a, b, r.value);
      assert [] + r.value == r.value;
    }
  }

  lemma {:induction false} RawContents(b: Bytes, rest: seq<Piece>)
    requires GoodLiteral(rest) && forall i :: 0 <= i < |b| ==> b[i] != QUOTE && b[i] != BACKSLASH
    ensures GoodLiteral(RawPieces(b) + rest) && Contents(RawPieces(b) + rest) == Then(b, Contents(rest))
  {
    if b == [] {
      assert RawPieces(b) + rest == rest;
      ThenThen([], [], Contents(rest));
    } else {
      var front, more := [Raw(b[0])], RawPieces(b[1..]);
      RawContents(b[1..], rest);
      RawStep(b[0], more + rest);
      Regrouped(front, more, rest);
      ThenThen([b[0]], b[1..], Contents(rest));
      assert b == [b[0]] + b[1..];
    }
  }

  lemma PairCombines(cp: nat)
    requires 0x10000 <= cp <= 0x10FFFF
    ensures var d := cp - 0x10000;
      IsHigh(0xD800 + d / 0x400) && Combined(0xD800 + d / 0x400, 0xDC00 + d % 0x400) == cp
  {
    var d := cp - 0x10000;
    assert d == d / 0x400 * 0x400 + d % 0x400 && (0xDC00 + d % 0x400) % 0x400 == d % 0x400;
  }

  lemma CharacterContents(ps: seq<Piece>, cp: nat, rest: seq<Piece>)
    requires Spells(ps, cp) && GoodLiteral(rest)
    ensures GoodLiteral(ps + rest) && Contents(ps + rest) == Then(Utf8(cp), Contents(rest))
  {
    if ps == RawPieces(Utf8(cp)) && cp != QUOTE && cp != BACKSLASH {
      Utf8Bytes(cp);
      RawContents(Utf8(cp), rest);
    } else if |ps| == 1 {
      assert ps == [ps[0]];
      SingleContents(ps[0], cp, rest);
    } else {
      PairContents(ps[0].digits, ps[1].digits, cp, rest);
      assert ps == [Escaped(ps[0].digits), Escaped(ps[1].digits)];
    }
  }

  lemma SingleContents(x: Piece, cp: nat, rest: seq<Piece>)
    requires IsScalar(cp) && GoodLiteral(rest) && GoodPiece(x)
    requires (x.Short? && ShortEscape(x.letter) == Some(cp)) || (x.Escaped? && UnitOf(x.digits) == cp)
    ensures GoodLiteral([x] + rest) && Contents([x] + rest) == Then(Utf8(cp), Contents(rest))
  {
    assert ([x] + rest)[1..] == rest;
    if x.Short? {
      assert Utf8(cp) == [cp];
    }
  }

  lemma PairContents(t1: Bytes, t2: Bytes, cp: nat, rest: seq<Piece>)
    requires 0x10000 <= cp <= 0x10FFFF && SpellPair(t1, t2, cp) && GoodLiteral(rest)
    ensures var whole := [Escaped(t1), Escaped(t2)] + rest;
      GoodLiteral(whole) && Contents(whole) == Then(Utf8(cp), Contents(rest))
  {
    var whole := [Escaped(t1), Escaped(t2)] + rest;
    assert whole[1..] == [Escaped(t2)] + rest && whole[1..][1..] == rest;
    PairCombines(cp);
  }

  /** The contents of a literal are the UTF-8 form of the characters it spells. */
  lemma {:induction false} ContentsOfCharacters(cs: seq<Character>)
    requires SpellsAll(cs)
    ensures GoodLiteral(AllPieces(cs)) && Contents(AllPieces(cs)) == Some(ToUtf8(Scalars(cs)))
  {
    if cs != [] {
      var cp, rest := cs[0].cp, Scalars(cs[1..]);
      ContentsOfCharacters(cs[1..]);
      CharacterContents(cs[0].pieces, cp, AllPieces(cs[1..]));
      ToUtf8Cons(cp, rest);
    }
  }

  lemma ToUtf8Cons(cp: nat, rest: seq<nat>)
    ensures ToUtf8([cp] + rest) == Utf8(cp) + ToUtf8(rest)
  {
    assert ([cp] + rest)[1..] == rest;
  }

  lemma {:induction false} SpelledAreScalars(cs: seq<Character>)
    requires SpellsAll(cs)
    ensures forall i :: 0 <= i < |cs| ==> IsScalar(Scalars(cs)[i])
  {
    if cs != [] {
      SpelledAreScalars(cs[1..]);
    }
  }

  /**
    A literal that spells any characters, each in whatever way, is one string token, and its contents are UTF-8 from
    which exactly those characters can be read.
   */
  lemma CharactersReadBack(cs: seq<Character>, rest: Bytes)
    requires SpellsAll(cs)
    ensures var doc := LiteralText(AllPieces(cs)) + rest;
      var t := NextToken(doc, 0);
      && t == Token(StringToken, 0, |LiteralText(AllPieces(cs))|) && StringOf(doc, t).Done?
      && FromUtf8(StringOf(doc, t).value) == Some(Scalars(cs))
  {
    var text := LiteralText(AllPieces(cs));
    var doc := text + rest;
    ContentsOfCharacters(cs);
    SpelledAreScalars(cs);
    assert doc[0..0 + |text|] == text;
    HereSlice(doc, 0, text);
    LiteralToken(doc, 0, AllPieces(cs));
    Utf8RoundTrip(Scalars(cs));
  }
}
