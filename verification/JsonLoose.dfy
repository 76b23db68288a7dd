/**
  The texts that the reader really takes, as trees. They are those of RFC 8259 and more: comments where the reader skips
  them, any token between the elements of an array or after a comment behind a member, any run of number bytes for a
  number, any byte that stands for itself in a string, and a closing brace after a separator if the name before it is
  empty.
 */
module JsonLoose {
  import opened Options
  import opened JsonText
  import opened JsonGrammar
  import opened JsonLayout
  import opened JsonUnicode
  import opened JsonSyntax

  // ---------- Comments ----------

  const SLASH: byte := 0x2F
  const STAR: byte := 0x2A

  /** Two bytes close a C comment. */
  predicate Closes(doc: Bytes, i: nat) {
    i + 1 < |doc| && doc[i] == STAR && doc[i + 1] == SLASH
  }

  predicate EndsLine(c: byte) {
    c == 0x0D || c == 0x0A
  }

  /** A C comment reaches to its first closing pair; any other comment to the end of its line, which is part of it. */
  predicate IsComment(t: Bytes) {
    && |t| >= 2 && t[0] == SLASH
    && (|| (t[1] == STAR && |t| >= 4 && Closes(t, |t| - 2) && forall i :: 2 <= i < |t| - 2 ==> !Closes(t, i))
        || (t[1] == SLASH && forall i :: 2 <= i < |t| - 1 ==> !EndsLine(t[i])))
  }

  /** A C comment ends after the first closing pair; without one it is refused and takes up the rest of the document. */
  lemma {:induction false} CommentEnds(doc: Bytes, p: nat)
    requires p <= |doc|
    ensures var s := ScanCComment(doc, p);
      if s.ok then p + 2 <= s.end && Closes(doc, s.end - 2) && forall i :: p <= i < s.end - 2 ==> !Closes(doc, i)
      else s.end == |doc| && forall i :: p <= i ==> !Closes(doc, i)
    decreases |doc| - p
  {
    if p < |doc| && !Closes(doc, p) {
      CommentEnds(doc, p + 1);
    }
  }

  /** Any other comment ends with the first byte that ends a line, or with the document. */
  lemma {:induction false} LineCommentEnds(doc: Bytes, p: nat)
    requires p <= |doc|
    ensures var end := ScanLineComment(doc, p).end;
      && (forall i :: p <= i < end - 1 ==> !EndsLine(doc[i]))
      && ((p < end && EndsLine(doc[end - 1])) || (end == |doc| && (p < end ==> !EndsLine(doc[end - 1]))))
    decreases |doc| - p
  {
    if p < |doc| && !EndsLine(doc[p]) {
      LineCommentEnds(doc, p + 1);
    }
  }

  // ---------- Numbers ----------

  /** The number that digits spell, leading zeros and all. */
  function Decimal(t: Bytes): nat
    requires AllDigits(t)
  {
    if t == [] then 0 else 10 * Decimal(t[..|t| - 1]) + (t[|t| - 1] - ZERO)
  }

  /** A run of number bytes as the reader takes it: digits, perhaps none, after a minus sign or not, or a double. */
  function LooseNumber(d: Doubles, t: Bytes): Option<Value> {
    var negative := t != [] && t[0] == MINUS;
    var digits := if negative then t[1..] else t;
    if AllDigits(digits) && Decimal(digits) < 10 * Threshold(negative) then Some(Integer(negative, Decimal(digits)))
    else DoubleOf(d, t)
  }

  predicate IsNumber(t: Bytes) {
    t != [] && NumberBytes(t) && (IsDigit(t[0]) || t[0] == MINUS)
  }

  lemma {:induction false} DecimalGrows(t: Bytes, k: nat)
    requires AllDigits(t) && k < |t|
    ensures 10 * Decimal(t[..k]) <= Decimal(t)
    decreases |t|
  {
    if k + 1 < |t| {
      var t' := t[..|t| - 1];
      DecimalGrows(t', k);
      assert t'[..k] == t[..k];
    }
  }

  /** Reading digits gives the number they spell, unless there is a further digit when that may be too large. */
  lemma {:induction false} AccumulateDecimal(text: Bytes, from: nat, k: nat, threshold: nat)
    requires from <= k <= |text| && AllDigits(text[from..]) && threshold > 0
    requires forall i :: from <= i < |text| ==> IsDigit(text[i])
    requires AllDigits(text[from..k])
    ensures Accumulate(text, k, Decimal(text[from..k]), threshold)
      == if k < |text| && Decimal(text[from..]) >= 10 * threshold then TooLarge else Whole(Decimal(text[from..]))
    decreases |text| - k
  {
    var digits, n := text[from..], Decimal(text[from..k]);
    assert digits[..k - from] == text[from..k];
    if k == |text| {
      assert text[from..k] == digits;
    } else {
      DecimalGrows(digits, k - from);
      assert text[from..k + 1][..k - from] == text[from..k];
      assert Decimal(text[from..k + 1]) == 10 * n + (text[k] - ZERO);
      if n < threshold {
        AccumulateDecimal(text, from, k + 1, threshold);
        assert k + 1 == |text| ==> text[from..k + 1] == digits;
      }
    }
  }

  /** Every run of number bytes is read like that. */
  lemma LooseNumberRead(d: Doubles, t: Bytes)
    requires IsNumber(t)
    ensures NumberOf(d, t) == LooseNumber(d, t)
  {
    var negative := t[0] == MINUS;
    var from := if negative then 1 else 0;
    assert t[0..] == t;
    if AllDigits(t[from..]) {
      DigitsNoDouble(t, from);
      assert t[from..from] == [];
      AccumulateDecimal(t, from, from, Threshold(negative));
    } else {
      var i :| 0 <= i < |t[from..]| && !IsDigit(t[from..][i]);
      assert t[from + i] == t[from..][i] && IsNumberByte(t[from + i]);
      assert IsDoubleByte(t[from + i]) || (t[from + i] == MINUS && from + i != 0);
    }
  }

  lemma DigitsNoDouble(t: Bytes, from: nat)
    requires from <= |t| && from <= 1 && AllDigits(t[from..]) && (from == 1 ==> t[0] == MINUS)
    ensures !IsDouble(t) && forall i :: from <= i < |t| ==> IsDigit(t[i])
  {
    forall i | from <= i < |t|
      ensures IsDigit(t[i])
    {
      assert t[i] == t[from..][i - from];
    }
  }

  // ---------- Trees ----------

  /** A value with the comments before it. */
  datatype Loose = Loose(before: seq<Bytes>, body: Body)

  datatype Body =
    | LooseNull
    | LooseBool(b: bool)
    | LooseNumeral(text: Bytes)
    | LooseString(ps: seq<Piece>)
    | EmptyArray
    | LooseArray(items: Items)
    | LooseObject(entries: Entries)

  /** An element and the comments after it. */
  datatype Item = Item(value: Loose, gap: seq<Bytes>)

  /** Elements up to the closing bracket, each of the others with the token that separates it from the next. */
  datatype Items = LastItem(item: Item) | MoreItems(item: Item, mark: Bytes, more: Items)

  /** A member: the comments before its name, the name, the value, and the comments after it. */
  datatype Entry = Entry(lead: seq<Bytes>, name: seq<Piece>, value: Loose, gap: seq<Bytes>)

  /** Members up to the closing brace, or only comments before it. */
  datatype Entries =
    | NoEntry(lead: seq<Bytes>) | LastEntry(entry: Entry) | MoreEntries(entry: Entry, mark: Bytes, more: Entries)

  predicate AllComments(ts: seq<Bytes>) {
    forall i :: 0 <= i < |ts| ==> IsComment(ts[i])
  }

  /** Comments before a value are taken only if the features allow them. */
  predicate GoodLoose(f: Features, t: Loose) {
    AllComments(t.before) && (t.before != [] ==> f.allowComments) && GoodBody(f, t.body)
  }

  predicate GoodBody(f: Features, b: Body) {
    match b
    case LooseNumeral(text) => IsNumber(text)
    case LooseString(ps) => GoodLiteral(ps)
    case LooseArray(items) => GoodElements(f, items)
    case LooseObject(entries) => GoodEntries(f, entries, Some([]))
    case _ => true
  }

  predicate GoodItem(f: Features, x: Item) {
    GoodLoose(f, x.value) && AllComments(x.gap)
  }

  predicate GoodElements(f: Features, items: Items) {
    match items
    case LastItem(item) => GoodItem(f, item)
    case MoreItems(item, mark, more) =>
      GoodItem(f, item) && mark != [] && mark != [CLOSE_BRACKET] && !IsComment(mark) && GoodElements(f, more)
  }

  predicate GoodEntry(f: Features, e: Entry) {
    AllComments(e.lead) && GoodLiteral(e.name) && GoodLoose(f, e.value) && AllComments(e.gap)
  }

  /** Right after a member's value only a comma separates it from the next one; the name before is `last`. */
  predicate GoodEntries(f: Features, entries: Entries, last: Option<Bytes>) {
    match entries
    case NoEntry(lead) => AllComments(lead) && last == Some([])
    case LastEntry(e) => GoodEntry(f, e)
    case MoreEntries(e, mark, more) =>
      && GoodEntry(f, e) && mark != [] && mark != [CLOSE_BRACE] && !IsComment(mark)
      && (e.gap == [] ==> mark == [COMMA]) && GoodEntries(f, more, Spelling(e.name))
  }

  // ---------- Tokens ----------

  function LooseTokens(t: Loose): seq<Bytes> {
    t.before + BodyTokens(t.body)
  }

  function BodyTokens(b: Body): seq<Bytes> {
    match b
    case LooseNull => [NULL_TEXT]
    case LooseBool(b) => [if b then TRUE_TEXT else FALSE_TEXT]
    case LooseNumeral(text) => [text]
    case LooseString(ps) => [LiteralText(ps)]
    case EmptyArray => [[OPEN_BRACKET], [CLOSE_BRACKET]]
    case LooseArray(items) => [[OPEN_BRACKET]] + ItemsTokens(items)
    case LooseObject(entries) => [[OPEN_BRACE]] + EntriesTokens(entries)
  }

  function ItemsTokens(items: Items): seq<Bytes> {
    match items
    case LastItem(x) => LooseTokens(x.value) + (x.gap + [[CLOSE_BRACKET]])
    case MoreItems(x, mark, more) => LooseTokens(x.value) + (x.gap + ([mark] + ItemsTokens(more)))
  }

  function EntriesTokens(entries: Entries): seq<Bytes> {
    match entries
    case NoEntry(lead) => lead + [[CLOSE_BRACE]]
    case LastEntry(e) => EntryTokens(e) + [[CLOSE_BRACE]]
    case MoreEntries(e, mark, more) => EntryTokens(e) + ([mark] + EntriesTokens(more))
  }

  function EntryTokens(e: Entry): seq<Bytes> {
    e.lead + ([LiteralText(e.name)] + ([[COLON]] + (LooseTokens(e.value) + e.gap)))
  }

  // ---------- Meaning ----------

  /** The bytes of a string or name, if it has any. */
  function Spelling(ps: seq<Piece>): Option<Bytes> {
    if GoodLiteral(ps) then Contents(ps) else None
  }

  function LooseMeaning(d: Doubles, t: Loose): Option<Value>
    decreases t
  {
    match t.body
    case LooseNull => Some(Null)
    case LooseBool(b) => Some(Bool(b))
    case LooseNumeral(text) => LooseNumber(d, text)
    case LooseString(ps) => (
      match Spelling(ps)
      case None => None
      case Some(s) => Some(String(UpToNul(s))))
    case EmptyArray => Some(Array([]))
    case LooseArray(items) => AsArray([], ItemMeanings(d, items))
    case LooseObject(entries) => AsObject(EntryMembers(d, [], entries))
  }

  function ItemMeanings(d: Doubles, items: Items): Option<seq<Value>>
    decreases items
  {
    match items
    case LastItem(x) => (
      match LooseMeaning(d, x.value)
      case None => None
      case Some(w) => Some([w]))
    case MoreItems(x, _, more) => (
      match LooseMeaning(d, x.value)
      case None => None
      case Some(w) =>
        match ItemMeanings(d, more)
        case None => None
        case Some(ws) => Some([w] + ws))
  }

  /** The members after the given ones are joined by a member. */
  function EntryMember(d: Doubles, ms: seq<Member>, e: Entry): Option<seq<Member>>
    decreases e
  {
    match Spelling(e.name)
    case None => None
    case Some(name) =>
      match LooseMeaning(d, e.value)
      case None => None
      case Some(w) => Some(Put(ms, UpToNul(name), w))
  }

  function EntryMembers(d: Doubles, ms: seq<Member>, entries: Entries): Option<seq<Member>>
    decreases entries
  {
    match entries
    case NoEntry(_) => Some(ms)
    case LastEntry(e) => EntryMember(d, ms, e)
    case MoreEntries(e, _, more) => (
      match EntryMember(d, ms, e)
      case None => None
      case Some(ms') => EntryMembers(d, ms', more))
  }
}
