/**
  What the reader accepts, as functions of the document and a position in it: tokens, numbers, string
  escapes, and values with the errors they report and the place where reading goes on after an error.
  The class in JsonReader.dfy is proved to compute these functions.
 */
module JsonGrammar {
  import opened JsonText
  import opened Options

  datatype Features = Features(allowComments: bool, strictRoot: bool)

  datatype Config = Config(features: Features, doubles: Doubles)

  datatype Kind =
    | EndOfStream | ObjectBegin | ObjectEnd | ArrayBegin | ArrayEnd | StringToken | Number
    | True | False | NullToken | ArraySeparator | MemberSeparator | Comment | ErrorToken

  datatype Token = Token(kind: Kind, start: nat, end: nat)

  datatype Message =
    | ValueExpected | MissingColon | MissingCommaOrBrace | MissingBraceOrName | MissingCommaOrBracket | NotANumber
    | EmptyEscape | BadEscape | FourDigitsExpected | HexDigitExpected
    | SixCharactersExpected | SecondHalfExpected | ContainerExpected

  datatype Error = Error(message: Message, token: Token, extra: Option<nat>)

  // ---------- Tokens ----------

  /** How far a token reaches, and whether it is well formed. */
  datatype Scan = Scan(ok: bool, end: nat)

  /** The byte at a position; a C string ends with a NUL. */
  function Peek(doc: Bytes, p: nat): byte {
    if p < |doc| then doc[p] else 0
  }

  predicate IsSpace(c: byte) {
    c == 0x20 || c == 0x09 || c == 0x0D || c == 0x0A
  }

  function SkipSpaces(doc: Bytes, p: nat): (q: nat)
    requires p <= |doc|
    ensures p <= q <= |doc|
    ensures q < |doc| ==> !IsSpace(doc[q])
    decreases |doc| - p
  {
    if p < |doc| && IsSpace(doc[p]) then SkipSpaces(doc, p + 1) else p
  }

  /** From inside a string literal to just after its closing quote. */
  function ScanString(doc: Bytes, p: nat): (s: Scan)
    requires p <= |doc|
    ensures p <= s.end <= |doc|
    ensures s.ok ==> p < s.end && doc[s.end - 1] == QUOTE
    decreases |doc| - p
  {
    if p == |doc| then Scan(false, p)
    else if doc[p] == QUOTE then Scan(true, p + 1)
    else if doc[p] != BACKSLASH then ScanString(doc, p + 1)
    else if p + 1 == |doc| then Scan(false, p + 1)
    else ScanString(doc, p + 2)
  }

  function ScanCComment(doc: Bytes, p: nat): (s: Scan)
    requires p <= |doc|
    ensures p <= s.end <= |doc|
    decreases |doc| - p
  {
    if p == |doc| then Scan(false, p)
    else if doc[p] == 0x2A && Peek(doc, p + 1) == 0x2F then Scan(true, p + 2)
    else ScanCComment(doc, p + 1)
  }

  function ScanLineComment(doc: Bytes, p: nat): (s: Scan)
    requires p <= |doc|
    ensures p <= s.end <= |doc| && s.ok
    decreases |doc| - p
  {
    if p == |doc| then Scan(true, p)
    else if doc[p] == 0x0D || doc[p] == 0x0A then Scan(true, p + 1)
    else ScanLineComment(doc, p + 1)
  }

  function ScanComment(doc: Bytes, p: nat): (s: Scan)
    requires p <= |doc|
    ensures p <= s.end <= |doc|
  {
    if p == |doc| then Scan(false, p)
    else if doc[p] == 0x2A then ScanCComment(doc, p + 1)
    else if doc[p] == 0x2F then ScanLineComment(doc, p + 1)
    else Scan(false, p + 1)
  }

  predicate IsNumberByte(c: byte) {
    IsDigit(c) || IsDoubleByte(c) || c == MINUS
  }

  predicate IsDoubleByte(c: byte) {
    c == 0x2E || c == 0x65 || c == 0x45 || c == 0x2B
  }

  function ScanNumber(doc: Bytes, p: nat): (q: nat)
    requires p <= |doc|
    ensures p <= q <= |doc|
    decreases |doc| - p
  {
    if p < |doc| && IsNumberByte(doc[p]) then ScanNumber(doc, p + 1) else p
  }

  function Match(doc: Bytes, p: nat, pattern: Bytes): (s: Scan)
    requires p <= |doc|
    ensures p <= s.end <= |doc|
  {
    if |doc| - p >= |pattern| && doc[p..p + |pattern|] == pattern then Scan(true, p + |pattern|) else Scan(false, p)
  }

  function Checked(kind: Kind, start: nat, s: Scan): Token {
    Token(if s.ok then kind else ErrorToken, start, s.end)
  }

  /** Every token but the end of the stream takes up at least one byte; a string has both its quotes. */
  predicate Proper(doc: Bytes, t: Token) {
    && t.start <= t.end <= |doc|
    && (t.kind != EndOfStream ==> t.start < t.end)
    && (t.kind == StringToken ==> t.start + 2 <= t.end)
  }

  /** The token that starts at a position which is not white space. */
  function TokenAt(doc: Bytes, s: nat): (t: Token)
    requires s <= |doc|
    ensures t.start == s && Proper(doc, t)
  {
    if s == |doc| then Token(EndOfStream, s, s)
    else
      var c := doc[s];
      var q := s + 1;
      if c == OPEN_BRACE then Token(ObjectBegin, s, q)
      else if c == CLOSE_BRACE then Token(ObjectEnd, s, q)
      else if c == OPEN_BRACKET then Token(ArrayBegin, s, q)
      else if c == CLOSE_BRACKET then Token(ArrayEnd, s, q)
      else if c == QUOTE then Checked(StringToken, s, ScanString(doc, q))
      else if c == 0x2F then Checked(Comment, s, ScanComment(doc, q))
      else if IsDigit(c) || c == MINUS then Token(Number, s, ScanNumber(doc, q))
      else if c == 0x74 then Checked(True, s, Match(doc, q, TRUE_TEXT[1..]))
      else if c == 0x66 then Checked(False, s, Match(doc, q, FALSE_TEXT[1..]))
      else if c == 0x6E then Checked(NullToken, s, Match(doc, q, NULL_TEXT[1..]))
      else if c == COMMA then Token(ArraySeparator, s, q)
      else if c == COLON then Token(MemberSeparator, s, q)
      else if c == 0 then Token(EndOfStream, s, q)
      else Token(ErrorToken, s, q)
  }

  function NextToken(doc: Bytes, p: nat): (t: Token)
    requires p <= |doc|
    ensures p <= t.start && Proper(doc, t)
  {
    TokenAt(doc, SkipSpaces(doc, p))
  }

  /** The given token, or the first one after it that is not a comment. */
  function AfterComments(doc: Bytes, t: Token): (r: Token)
    requires Proper(doc, t)
    ensures t.start <= r.start && t.end <= r.end && Proper(doc, r) && r.kind != Comment
    decreases |doc| - t.end, if t.kind == Comment then 1 else 0
  {
    if t.kind != Comment then t
    else
      var n := NextToken(doc, t.end);
      AfterComments(doc, n)
  }

  function SkipComments(doc: Bytes, p: nat): (t: Token)
    requires p <= |doc|
    ensures p <= t.start && Proper(doc, t) && t.kind != Comment
  {
    AfterComments(doc, NextToken(doc, p))
  }

  /** The first token of a value; comments before it are passed over only where they are allowed. */
  function FirstToken(f: Features, doc: Bytes, p: nat): (t: Token)
    requires p <= |doc|
    ensures p <= t.start && Proper(doc, t)
  {
    if f.allowComments then SkipComments(doc, p) else NextToken(doc, p)
  }

  /** Where reading goes on after an error: after the first token of a kind, or at the end of the stream. */
  function Recover(doc: Bytes, p: nat, kind: Kind): (q: nat)
    requires p <= |doc|
    ensures p <= q <= |doc|
    decreases |doc| - p
  {
    var t := NextToken(doc, p);
    if t.kind == kind || t.kind == EndOfStream then t.end else Recover(doc, t.end, kind)
  }

  // ---------- Numbers ----------

  datatype Parsed = Whole(n: nat) | TooLarge | BadDigit

  /** The digits of text from k on, read into n; gives up as soon as another digit might not fit. */
  function Accumulate(text: Bytes, k: nat, n: nat, threshold: nat): Parsed
    requires k <= |text|
    decreases |text| - k
  {
    if k == |text| then Whole(n)
    else if !IsDigit(text[k]) then BadDigit
    else if n >= threshold then TooLarge
    else Accumulate(text, k + 1, 10 * n + (text[k] - ZERO), threshold)
  }

  predicate IsDouble(text: Bytes) {
    exists i :: 0 <= i < |text| && (IsDoubleByte(text[i]) || (text[i] == MINUS && i != 0))
  }

  function DoubleOf(d: Doubles, text: Bytes): Option<Value> {
    match d.scan(text)
    case None => None
    case Some(r) => Some(Real(r))
  }

  function Threshold(negative: bool): nat {
    (if negative then MAX_INT + 1 else MAX_UINT) / 10
  }

  /** The value of a number token: an integer of either type, or a double. */
  function NumberOf(d: Doubles, text: Bytes): Option<Value>
    requires |text| > 0
  {
    if IsDouble(text) then DoubleOf(d, text)
    else
      var negative := text[0] == MINUS;
      match Accumulate(text, if negative then 1 else 0, 0, Threshold(negative))
      case BadDigit => None
      case TooLarge => DoubleOf(d, text)
      case Whole(n) => Some(if negative then Int(-(n as int)) else if n <= MAX_INT then Int(n) else UInt(n))
  }

  // ---------- Strings ----------

  datatype Decoded<T> = Done(value: T) | Failed(message: Message, extra: nat)

  /** A UTF-16 code unit or code point, and the position after it. */
  datatype Unit = Unit(code: nat, next: nat)

  function HexValue(c: byte): (v: Option<nat>)
    ensures v.Some? ==> v.value < 16
  {
    if 0x30 <= c <= 0x39 then Some(c - 0x30)
    else if 0x61 <= c <= 0x66 then Some(c - 0x61 + 10)
    else if 0x41 <= c <= 0x46 then Some(c - 0x41 + 10)
    else None
  }

  function HexDigits(doc: Bytes, i: nat, stop: nat, code: nat): (u: Decoded<Unit>)
    requires i <= stop <= |doc|
    ensures u.Done? ==> u.value.next == stop
    decreases stop - i
  {
    if i == stop then Done(Unit(code, i))
    else match HexValue(doc[i])
      case None => Failed(HexDigitExpected, i + 1)
      case Some(v) => HexDigits(doc, i + 1, stop, 16 * code + v)
  }

  /** The four digits after \u. */
  function EscapedUnit(doc: Bytes, i: nat, end: nat): (u: Decoded<Unit>)
    requires i <= end <= |doc|
    ensures u.Done? ==> u.value.next == i + 4 <= end
  {
    if end - i < 4 then Failed(FourDigitsExpected, i) else HexDigits(doc, i, i + 4, 0)
  }

  /** A code point after \u: one unit, or a high surrogate and the unit that must follow it. */
  function EscapedCodePoint(doc: Bytes, i: nat, end: nat): (u: Decoded<Unit>)
    requires i <= end <= |doc|
    ensures u.Done? ==> i < u.value.next <= end
  {
    match EscapedUnit(doc, i, end)
    case Failed(m, x) => Failed(m, x)
    case Done(high) =>
      var q := high.next;
      if !(0xD800 <= high.code <= 0xDBFF) then Done(high)
      else if end - q < 6 then Failed(SixCharactersExpected, q)
      else if doc[q] != BACKSLASH then Failed(SecondHalfExpected, q + 1)
      else if doc[q + 1] != 0x75 then Failed(SecondHalfExpected, q + 2)
      else match EscapedUnit(doc, q + 2, end)
        case Failed(m, x) => Failed(m, x)
        case Done(low) => Done(Unit(0x10000 + high.code % 0x400 * 0x400 + low.code % 0x400, low.next))
  }

  /** The UTF-8 form of a code point; nothing for a number that is not one. */
  function Utf8(cp: nat): Bytes {
    if cp <= 0x7F then [cp]
    else if cp <= 0x7FF then [0xC0 + cp / 0x40, 0x80 + cp % 0x40]
    else if cp <= 0xFFFF then [0xE0 + cp / 0x1000, 0x80 + cp / 0x40 % 0x40, 0x80 + cp % 0x40]
    else if cp <= 0x10FFFF then
      [0xF0 + cp / 0x40000, 0x80 + cp / 0x1000 % 0x40, 0x80 + cp / 0x40 % 0x40, 0x80 + cp % 0x40]
    else []
  }

  /** The byte a one-letter escape stands for. */
  function ShortEscape(c: byte): Option<byte> {
    if c == QUOTE || c == 0x2F || c == BACKSLASH then Some(c)
    else if c == 0x62 then Some(0x08)
    else if c == 0x66 then Some(0x0C)
    else if c == 0x6E then Some(0x0A)
    else if c == 0x72 then Some(0x0D)
    else if c == 0x74 then Some(0x09)
    else None
  }

  function Prepend(text: Bytes, d: Decoded<Bytes>): Decoded<Bytes> {
    if d.Done? then Done(text + d.value) else d
  }

  /** The contents of a string literal between two positions, both inside its quotes. */
  function DecodeText(doc: Bytes, i: nat, end: nat): Decoded<Bytes>
    requires i <= end <= |doc|
    decreases end - i
  {
    if i == end || doc[i] == QUOTE then Done([])
    else if doc[i] != BACKSLASH then Prepend([doc[i]], DecodeText(doc, i + 1, end))
    else if i + 1 == end then Failed(EmptyEscape, end)
    else if doc[i + 1] == 0x75 then
      match EscapedCodePoint(doc, i + 2, end)
      case Failed(m, x) => Failed(m, x)
      case Done(u) => Prepend(Utf8(u.code), DecodeText(doc, u.next, end))
    else match ShortEscape(doc[i + 1])
      case None => Failed(BadEscape, i + 2)
      case Some(c) => Prepend([c], DecodeText(doc, i + 2, end))
  }

  function StringOf(doc: Bytes, t: Token): Decoded<Bytes>
    requires t.start + 2 <= t.end <= |doc|
  {
    DecodeText(doc, t.start + 1, t.end - 1)
  }

  // ---------- Values ----------

  /**
    A read routine's result: success, the value left in the current node, the position reached and
    the errors it reported.
   */
  datatype Outcome = Outcome(ok: bool, value: Value, pos: nat, errors: seq<Error>)

  /**
    Every read stays inside the document and, when it succeeds, moves on. A read that fails reports one
    error and no more: reading never continues after an error, it only finds its way out.
   */
  ghost predicate Sound(doc: Bytes, p: nat, o: Outcome) {
    p <= o.pos <= |doc| && (o.ok ==> p < o.pos && o.errors == []) && (!o.ok ==> |o.errors| == 1)
  }

  function Failure(doc: Bytes, m: Message, t: Token, extra: Option<nat>, value: Value, from: nat, until: Kind): Outcome
    requires from <= |doc|
  {
    Outcome(false, value, Recover(doc, from, until), [Error(m, t, extra)])
  }

  /** Reads a value into a node that holds `node` so far. */
  function ReadValue(c: Config, doc: Bytes, p: nat, node: Value): (o: Outcome)
    requires p <= |doc|
    ensures Sound(doc, p, o)
    decreases |doc| - p, 1
  {
    var t := FirstToken(c.features, doc, p);
    match t.kind
    case ObjectBegin => ReadMembers(c, doc, t.end, [], [])
    case ArrayBegin =>
      var q := SkipSpaces(doc, t.end);
      if Peek(doc, q) == CLOSE_BRACKET then Outcome(true, Array([]), NextToken(doc, q).end, [])
      else ReadElements(c, doc, q, [])
    case Number => (
      match NumberOf(c.doubles, doc[t.start..t.end])
      case None => Outcome(false, node, t.end, [Error(NotANumber, t, None)])
      case Some(v) => Outcome(true, v, t.end, []))
    case StringToken => (
      match StringOf(doc, t)
      case Failed(m, x) => Outcome(false, node, t.end, [Error(m, t, Some(x))])
      case Done(s) => Outcome(true, String(UpToNul(s)), t.end, []))
    case True => Outcome(true, Bool(true), t.end, [])
    case False => Outcome(true, Bool(false), t.end, [])
    case NullToken => Outcome(true, Null, t.end, [])
    case _ => Outcome(false, node, t.end, [Error(ValueExpected, t, None)])
  }

  /**
    The elements of an array after those in es. Any token but the closing bracket is taken as the
    separator: the check for a comma compares the kind with two different kinds at once.
   */
  function ReadElements(c: Config, doc: Bytes, p: nat, es: seq<Value>): (o: Outcome)
    requires p <= |doc|
    ensures Sound(doc, p, o)
    decreases |doc| - p, 2
  {
    var o := ReadValue(c, doc, p, Null);
    var es' := es + [o.value];
    if !o.ok then Outcome(false, Array(es'), Recover(doc, o.pos, ArrayEnd), o.errors)
    else
      var t := SkipComments(doc, o.pos);
      if t.kind == ArrayEnd then Outcome(true, Array(es'), t.end, [])
      else ReadElements(c, doc, t.end, es')
  }

  /** The members of an object after those in ms; `last` is the name read before, empty at the start. */
  function ReadMembers(c: Config, doc: Bytes, p: nat, ms: seq<Member>, last: Bytes): (o: Outcome)
    requires p <= |doc|
    ensures Sound(doc, p, o)
    decreases |doc| - p, 2
  {
    var t := SkipComments(doc, p);
    if t.kind == ObjectEnd && last == [] then Outcome(true, Object(ms), t.end, [])
    else if t.kind != StringToken then
      Failure(doc, MissingBraceOrName, t, None, Object(ms), t.end, ObjectEnd)
    else match StringOf(doc, t)
      case Failed(m, x) => Failure(doc, m, t, Some(x), Object(ms), t.end, ObjectEnd)
      case Done(name) => ReadMember(c, doc, t.end, ms, name)
  }

  /** The rest of a member after its name, and of the object after that member. */
  function ReadMember(c: Config, doc: Bytes, p: nat, ms: seq<Member>, name: Bytes): (o: Outcome)
    requires p <= |doc|
    ensures Sound(doc, p, o)
    decreases |doc| - p, 3
  {
    var colon := NextToken(doc, p);
    if colon.kind != MemberSeparator then
      Failure(doc, MissingColon, colon, None, Object(ms), colon.end, ObjectEnd)
    else
      var o := ReadValue(c, doc, colon.end, Lookup(ms, UpToNul(name)));
      var ms' := Put(ms, UpToNul(name), o.value);
      if !o.ok then Outcome(false, Object(ms'), Recover(doc, o.pos, ObjectEnd), o.errors)
      else EndMember(c, doc, o.pos, ms', name)
  }

  /** What follows a member: a comma and more members, or the closing brace. */
  function EndMember(c: Config, doc: Bytes, p: nat, ms: seq<Member>, name: Bytes): (o: Outcome)
    requires p <= |doc|
    ensures Sound(doc, p, o)
    decreases |doc| - p, 3
  {
    var comma := NextToken(doc, p);
    if !(comma.kind == ObjectEnd || comma.kind == ArraySeparator || comma.kind == Comment) then
      Failure(doc, MissingCommaOrBrace, comma, None, Object(ms), comma.end, ObjectEnd)
    else
      var next := AfterComments(doc, comma);
      if next.kind == ObjectEnd then Outcome(true, Object(ms), next.end, [])
      else ReadMembers(c, doc, next.end, ms, name)
  }

  /** The result of parsing a document: the root, the errors, and whether the parse succeeded. */
  function ParseDocument(c: Config, doc: Bytes, root: Value): (o: Outcome) {
    var o := ReadValue(c, doc, 0, root);
    var last := FirstToken(c.features, doc, o.pos);
    if c.features.strictRoot && !(o.value.Null? || o.value.Array? || o.value.Object?) then
      Outcome(false, o.value, last.end, o.errors + [Error(ContainerExpected, Token(ErrorToken, 0, |doc|), None)])
    else Outcome(o.ok, o.value, last.end, o.errors)
  }
}
