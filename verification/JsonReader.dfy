/**
  The reader: a position, a stack of nodes and a list of errors, changed step by step. Every routine is
  proved to leave the state that the functions of JsonGrammar give. The stack holds the values under
  construction; popping a node stores it in the node below it.
 */
module JsonReader {
  import opened JsonText
  import opened Options
  import opened JsonGrammar

  /** std::stack of the nodes under construction. */
  datatype Stack = Empty | Push(below: Stack, top: Value)

  class Reader {
    const config: Config
    const doc: Bytes
    var current: nat
    var nodes: Stack
    var errors: seq<Error>

    constructor (config: Config, doc: Bytes)
      ensures this.config == config && this.doc == doc && current == 0 && nodes == Empty && errors == []
    {
      this.config := config;
      this.doc := doc;
      current := 0;
      nodes := Empty;
      errors := [];
    }

    ghost predicate Valid()
      reads this
    {
      current <= |doc|
    }

    /** The node that is being read into. */
    function CurrentValue(): Value
      requires nodes.Push?
      reads this
    {
      nodes.top
    }

    method SetCurrentValue(v: Value)
      requires nodes.Push?
      modifies this`nodes
      ensures nodes == Push(old(nodes.below), v)
    {
      nodes := Push(nodes.below, v);
    }

    // ---------- Tokens ----------

    method GetNextChar() returns (c: byte)
      requires Valid()
      modifies this`current
      ensures Valid() && c == Peek(doc, old(current))
      ensures current == if old(current) == |doc| then |doc| else old(current) + 1
    {
      if current == |doc| {
        return 0;
      }
      c := doc[current];
      current := current + 1;
    }

    method SkipBlanks()
      requires Valid()
      modifies this`current
      ensures Valid() && current == SkipSpaces(doc, old(current))
    {
      while current != |doc|
        invariant Valid() && SkipSpaces(doc, current) == SkipSpaces(doc, old(current))
        decreases |doc| - current
      {
        if !IsSpace(doc[current]) {
          break;
        }
        current := current + 1;
      }
    }

    method MatchRest(pattern: Bytes) returns (ok: bool)
      requires Valid()
      modifies this`current
      ensures Valid() && Scan(ok, current) == Match(doc, old(current), pattern)
    {
      if |doc| - current < |pattern| {
        return false;
      }
      var index := |pattern|;
      while index > 0
        invariant 0 <= index <= |pattern| && current == old(current)
        invariant forall j :: index <= j < |pattern| ==> doc[current + j] == pattern[j]
      {
        index := index - 1;
        if doc[current + index] != pattern[index] {
          assert doc[current..current + |pattern|][index] == doc[current + index];
          return false;
        }
      }
      assert doc[current..current + |pattern|] == pattern;
      current := current + |pattern|;
      return true;
    }

    method ReadString() returns (ok: bool)
      requires Valid()
      modifies this`current
      ensures Valid() && Scan(ok, current) == ScanString(doc, old(current))
    {
      var c: byte := 0;
      while current != |doc|
        invariant Valid() && c != QUOTE
        invariant ScanString(doc, current) == ScanString(doc, old(current))
        decreases |doc| - current
      {
        c := GetNextChar();
        if c == BACKSLASH {
          var _ := GetNextChar();
        } else if c == QUOTE {
          break;
        }
      }
      ok := c == QUOTE;
    }

    method ReadCStyleComment() returns (ok: bool)
      requires Valid()
      modifies this`current
      ensures Valid() && Scan(ok, current) == ScanCComment(doc, old(current))
    {
      while current != |doc|
        invariant Valid() && ScanCComment(doc, current) == ScanCComment(doc, old(current))
        decreases |doc| - current
      {
        var c := GetNextChar();
        if c == 0x2A && Peek(doc, current) == 0x2F {
          break;
        }
      }
      var last := GetNextChar();
      ok := last == 0x2F;
    }

    method ReadCppStyleComment() returns (ok: bool)
      requires Valid()
      modifies this`current
      ensures Valid() && Scan(ok, current) == ScanLineComment(doc, old(current))
    {
      while current != |doc|
        invariant Valid() && ScanLineComment(doc, current) == ScanLineComment(doc, old(current))
        decreases |doc| - current
      {
        var c := GetNextChar();
        if c == 0x0D || c == 0x0A {
          break;
        }
      }
      ok := true;
    }

    method ReadComment() returns (ok: bool)
      requires Valid()
      modifies this`current
      ensures Valid() && Scan(ok, current) == ScanComment(doc, old(current))
    {
      var c := GetNextChar();
      ok := false;
      if c == 0x2A {
        ok := ReadCStyleComment();
      } else if c == 0x2F {
        ok := ReadCppStyleComment();
      }
    }

    method ReadNumber()
      requires Valid()
      modifies this`current
      ensures Valid() && current == ScanNumber(doc, old(current))
    {
      while current != |doc|
        invariant Valid() && ScanNumber(doc, current) == ScanNumber(doc, old(current))
        decreases |doc| - current
      {
        if !IsNumberByte(doc[current]) {
          break;
        }
        current := current + 1;
      }
    }

    method ReadToken() returns (t: Token)
      requires Valid()
      modifies this`current
      ensures Valid() && t == NextToken(doc, old(current)) && current == t.end
    {
      SkipBlanks();
      var start := current;
      var c := GetNextChar();
      var ok := true;
      var kind := ErrorToken;
      if c == OPEN_BRACE {
        kind := ObjectBegin;
      } else if c == CLOSE_BRACE {
        kind := ObjectEnd;
      } else if c == OPEN_BRACKET {
        kind := ArrayBegin;
      } else if c == CLOSE_BRACKET {
        kind := ArrayEnd;
      } else if c == QUOTE {
        kind := StringToken;
        ok := ReadString();
      } else if c == 0x2F {
        kind := Comment;
        ok := ReadComment();
      } else if IsDigit(c) || c == MINUS {
        kind := Number;
        ReadNumber();
      } else if c == 0x74 {
        kind := True;
        ok := MatchRest(TRUE_TEXT[1..]);
      } else if c == 0x66 {
        kind := False;
        ok := MatchRest(FALSE_TEXT[1..]);
      } else if c == 0x6E {
        kind := NullToken;
        ok := MatchRest(NULL_TEXT[1..]);
      } else if c == COMMA {
        kind := ArraySeparator;
      } else if c == COLON {
        kind := MemberSeparator;
      } else if c == 0 {
        kind := EndOfStream;
      } else {
        ok := false;
      }
      if !ok {
        kind := ErrorToken;
      }
      t := Token(kind, start, current);
    }

    /** The loops that pass over comment tokens after the given one. */
    method PassComments(first: Token) returns (t: Token)
      requires Valid() && first.end == current && Proper(doc, first)
      modifies this`current
      ensures Valid() && t == AfterComments(doc, first) && current == t.end
    {
      t := first;
      while t.kind == Comment
        invariant Valid() && t.end == current && Proper(doc, t)
        invariant AfterComments(doc, t) == AfterComments(doc, first)
        decreases |doc| - current, t.kind == Comment
      {
        t := ReadToken();
      }
    }

    method SkipCommentTokens() returns (t: Token)
      requires Valid()
      modifies this`current
      ensures Valid() && t == FirstToken(config.features, doc, old(current)) && current == t.end
    {
      t := ReadToken();
      if config.features.allowComments {
        t := PassComments(t);
      }
    }

    // ---------- Errors ----------

    method AddError(m: Message, t: Token, extra: Option<nat>) returns (ok: bool)
      modifies this`errors
      ensures !ok && errors == old(errors) + [Error(m, t, extra)]
    {
      errors := errors + [Error(m, t, extra)];
      ok := false;
    }

    method RecoverFromError(kind: Kind) returns (ok: bool)
      requires Valid()
      modifies this`current, this`errors
      ensures Valid() && !ok && current == Recover(doc, old(current), kind) && errors == old(errors)
    {
      var errorCount := |errors|;
      while true
        invariant Valid() && Recover(doc, current, kind) == Recover(doc, old(current), kind)
        invariant errors == old(errors)
        decreases |doc| - current
      {
        var skip := ReadToken();
        if skip.kind == kind || skip.kind == EndOfStream {
          break;
        }
      }
      errors := errors[..errorCount];
      ok := false;
    }

    method AddErrorAndRecover(m: Message, t: Token, kind: Kind) returns (ok: bool)
      requires Valid()
      modifies this`current, this`errors
      ensures Valid() && !ok && current == Recover(doc, old(current), kind)
      ensures errors == old(errors) + [Error(m, t, None)]
    {
      var _ := AddError(m, t, None);
      ok := RecoverFromError(kind);
    }

    // ---------- Numbers and strings ----------

    /** Adds the error of a decoding that failed. */
    ghost predicate Reported<T>(before: seq<Error>, t: Token, d: Decoded<T>)
      reads this
    {
      errors == if d.Failed? then before + [Error(d.message, t, Some(d.extra))] else before
    }

    method DecodeDouble(t: Token) returns (ok: bool)
      requires nodes.Push? && t.start < t.end <= |doc|
      modifies this`nodes, this`errors
      ensures ok == DoubleOf(config.doubles, doc[t.start..t.end]).Some?
      ensures var v := DoubleOf(config.doubles, doc[t.start..t.end]);
        && nodes == Push(old(nodes.below), if ok then v.value else old(CurrentValue()))
        && errors == old(errors) + if ok then [] else [Error(NotANumber, t, None)]
    {
      match config.doubles.scan(doc[t.start..t.end])
      case None =>
        ok := AddError(NotANumber, t, None);
      case Some(r) =>
        SetCurrentValue(Real(r));
        ok := true;
    }

    method DecodeNumber(t: Token) returns (ok: bool)
      requires nodes.Push? && t.start < t.end <= |doc|
      modifies this`nodes, this`errors
      ensures ok == NumberOf(config.doubles, doc[t.start..t.end]).Some?
      ensures var v := NumberOf(config.doubles, doc[t.start..t.end]);
        && nodes == Push(old(nodes.below), if ok then v.value else old(CurrentValue()))
        && errors == old(errors) + if ok then [] else [Error(NotANumber, t, None)]
    {
      ghost var text := doc[t.start..t.end];
      var isDouble := false;
      var inspect := t.start;
      while inspect != t.end
        invariant t.start <= inspect <= t.end
        invariant isDouble <==>
          exists i :: 0 <= i < inspect - t.start && (IsDoubleByte(text[i]) || (text[i] == MINUS && i != 0))
        decreases t.end - inspect
      {
        assert text[inspect - t.start] == doc[inspect];
        isDouble := isDouble || IsDoubleByte(doc[inspect]) || (doc[inspect] == MINUS && inspect != t.start);
        inspect := inspect + 1;
      }
      if isDouble {
        ok := DecodeDouble(t);
        return;
      }
      var current := t.start;
      var isNegative := doc[current] == MINUS;
      if isNegative {
        current := current + 1;
      }
      var threshold := Threshold(isNegative);
      var value: nat := 0;
      ghost var whole := Accumulate(text, current - t.start, 0, threshold);
      while current < t.end
        invariant t.start <= current <= t.end
        invariant Accumulate(text, current - t.start, value, threshold) == whole
        invariant value <= MAX_UINT
      {
        var c := doc[current];
        assert c == text[current - t.start];
        current := current + 1;
        if !IsDigit(c) {
          ok := AddError(NotANumber, t, None);
          return;
        }
        if value >= threshold {
          ok := DecodeDouble(t);
          return;
        }
        value := value * 10 + (c - ZERO);
      }
      if isNegative {
        SetCurrentValue(Int(-(value as int)));
      } else if value <= MAX_INT {
        SetCurrentValue(Int(value));
      } else {
        SetCurrentValue(UInt(value));
      }
      ok := true;
    }

    method DecodeUnicodeEscapeSequence(t: Token, at: nat, end: nat) returns (ok: bool, unicode: nat, next: nat)
      requires at <= end <= |doc|
      modifies this`errors
      ensures var u := EscapedUnit(doc, at, end);
        ok == u.Done? && Reported(old(errors), t, u) && (ok ==> u.value == Unit(unicode, next))
    {
      unicode, next := 0, at;
      if end - at < 4 {
        ok := AddError(FourDigitsExpected, t, Some(at));
        return;
      }
      for index := 0 to 4
        invariant next == at + index && errors == old(errors)
        invariant HexDigits(doc, next, at + 4, unicode) == EscapedUnit(doc, at, end)
      {
        var c := doc[next];
        next := next + 1;
        unicode := unicode * 16;
        if 0x30 <= c <= 0x39 {
          unicode := unicode + (c - 0x30);
        } else if 0x61 <= c <= 0x66 {
          unicode := unicode + (c - 0x61 + 10);
        } else if 0x41 <= c <= 0x46 {
          unicode := unicode + (c - 0x41 + 10);
        } else {
          ok := AddError(HexDigitExpected, t, Some(next));
          return;
        }
      }
      ok := true;
    }

    method DecodeUnicodeCodePoint(t: Token, at: nat, end: nat) returns (ok: bool, unicode: nat, next: nat)
      requires at <= end <= |doc|
      modifies this`errors
      ensures var u := EscapedCodePoint(doc, at, end);
        ok == u.Done? && Reported(old(errors), t, u) && (ok ==> u.value == Unit(unicode, next))
    {
      ok, unicode, next := DecodeUnicodeEscapeSequence(t, at, end);
      if ok && 0xD800 <= unicode <= 0xDBFF {
        if end - next < 6 {
          ok := AddError(SixCharactersExpected, t, Some(next));
          return;
        }
        var first := doc[next];
        next := next + 1;
        var second := false;
        if first == BACKSLASH {
          second := doc[next] == 0x75;
          next := next + 1;
        }
        if first == BACKSLASH && second {
          var low;
          ok, low, next := DecodeUnicodeEscapeSequence(t, next, end);
          if ok {
            unicode := 0x10000 + unicode % 0x400 * 0x400 + low % 0x400;
          }
        } else {
          ok := AddError(SecondHalfExpected, t, Some(next));
        }
      }
    }

    /** Appends the meaning of one escape sequence; `at` is the position after the backslash. */
    method DecodeEscape(t: Token, at: nat, end: nat) returns (ok: bool, piece: Bytes, next: nat)
      requires 0 < at < end <= |doc| && doc[at - 1] == BACKSLASH
      modifies this`errors
      ensures ok ==> at < next <= end && errors == old(errors)
      ensures ok ==> DecodeText(doc, at - 1, end) == Prepend(piece, DecodeText(doc, next, end))
      ensures !ok ==> DecodeText(doc, at - 1, end).Failed? && Reported(old(errors), t, DecodeText(doc, at - 1, end))
    {
      var escape := doc[at];
      next := at + 1;
      ok := true;
      piece := [];
      if escape == 0x75 {
        var unicode;
        ok, unicode, next := DecodeUnicodeCodePoint(t, next, end);
        if ok {
          piece := Utf8(unicode);
        }
      } else if escape == QUOTE || escape == 0x2F || escape == BACKSLASH {
        piece := [escape];
      } else if escape == 0x62 {
        piece := [0x08];
      } else if escape == 0x66 {
        piece := [0x0C];
      } else if escape == 0x6E {
        piece := [0x0A];
      } else if escape == 0x72 {
        piece := [0x0D];
      } else if escape == 0x74 {
        piece := [0x09];
      } else {
        ok := AddError(BadEscape, t, Some(next));
      }
    }

    /** decodeString into a string of the caller's. */
    method DecodeInto(t: Token) returns (ok: bool, decoded: Bytes)
      requires t.start + 2 <= t.end <= |doc|
      modifies this`errors
      ensures ok == StringOf(doc, t).Done? && Reported(old(errors), t, StringOf(doc, t))
      ensures ok ==> decoded == StringOf(doc, t).value
    {
      decoded := [];
      var at := t.start + 1;
      var end := t.end - 1;
      PrependNone(StringOf(doc, t));
      while at != end
        invariant t.start + 1 <= at <= end && errors == old(errors)
        invariant StringOf(doc, t) == Prepend(decoded, DecodeText(doc, at, end))
        decreases end - at
      {
        ghost var before, whole := decoded, DecodeText(doc, at, end);
        var c := doc[at];
        at := at + 1;
        if c == QUOTE {
          break;
        } else if c == BACKSLASH {
          if at == end {
            ok := AddError(EmptyEscape, t, Some(at));
            return;
          }
          var piece, next;
          ok, piece, next := DecodeEscape(t, at, end);
          if !ok {
            return;
          }
          PrependTwice(before, piece, DecodeText(doc, next, end));
          decoded := decoded + piece;
          at := next;
        } else {
          PrependTwice(before, [c], DecodeText(doc, at, end));
          decoded := decoded + [c];
        }
      }
      ok := true;
    }

    static lemma PrependNone(d: Decoded<Bytes>)
      ensures Prepend([], d) == d
    {
      if d.Done? {
        assert [] + d.value == d.value;
      }
    }

    static lemma PrependTwice(a: Bytes, b: Bytes, d: Decoded<Bytes>)
      ensures Prepend(a, Prepend(b, d)) == Prepend(a + b, d)
    {
      if d.Done? {
        assert a + (b + d.value) == a + b + d.value;
      }
    }

    method DecodeString(t: Token) returns (ok: bool)
      requires nodes.Push? && t.start + 2 <= t.end <= |doc|
      modifies this`nodes, this`errors
      ensures ok == StringOf(doc, t).Done? && Reported(old(errors), t, StringOf(doc, t))
      ensures nodes
        == Push(old(nodes.below), if ok then String(UpToNul(StringOf(doc, t).value)) else old(CurrentValue()))
    {
      var decoded;
      ok, decoded := DecodeInto(t);
      if ok {
        SetCurrentValue(String(UpToNul(decoded)));
      }
    }

    // ---------- Values ----------

    /** The state after a read routine: the position, the node and the errors are those of the outcome. */
    twostate predicate Follows(ok: bool, o: Outcome)
      reads this
    {
      && old(nodes.Push?)
      && ok == o.ok
      && current == o.pos <= |doc|
      && nodes == Push(old(nodes.below), o.value)
      && errors == old(errors) + o.errors
    }

    method ReadNode() returns (ok: bool)
      requires Valid() && nodes.Push?
      modifies this
      ensures Follows(ok, ReadValue(config, doc, old(current), old(CurrentValue())))
      decreases |doc| - current, 1
    {
      var t := SkipCommentTokens();
      match t.kind
      case ObjectBegin =>
        ok := ReadObject();
      case ArrayBegin =>
        ok := ReadArray();
      case Number =>
        ok := DecodeNumber(t);
      case StringToken =>
        ok := DecodeString(t);
      case True =>
        SetCurrentValue(Bool(true));
        ok := true;
      case False =>
        SetCurrentValue(Bool(false));
        ok := true;
      case NullToken =>
        SetCurrentValue(Null);
        ok := true;
      case _ =>
        ok := AddError(ValueExpected, t, None);
    }

    /** Reads a value into a new node above the current one, and takes that node off again. */
    method ReadChild(child: Value) returns (ok: bool, v: Value)
      requires Valid() && nodes.Push?
      modifies this
      ensures var o := ReadValue(config, doc, old(current), child);
        && ok == o.ok && v == o.value && current == o.pos <= |doc|
        && nodes == old(nodes) && errors == old(errors) + o.errors && (ok ==> errors == old(errors))
      decreases |doc| - current, 2
    {
      nodes := Push(nodes, child);
      ok := ReadNode();
      v := CurrentValue();
      nodes := nodes.below;
      assert ok ==> errors == old(errors) + [] == old(errors);
    }

    method ReadArray() returns (ok: bool)
      requires Valid() && nodes.Push?
      modifies this
      ensures var q := SkipSpaces(doc, old(current));
        Follows(ok, if Peek(doc, q) == CLOSE_BRACKET then Outcome(true, Array([]), NextToken(doc, q).end, [])
                    else ReadElements(config, doc, q, []))
      decreases |doc| - current, 3
    {
      var elems: seq<Value> := [];
      SetCurrentValue(Array(elems));
      SkipBlanks();
      if Peek(doc, current) == CLOSE_BRACKET {
        var endArray := ReadToken();
        return true;
      }
      ghost var start := current;
      while true
        invariant Valid() && start <= current && old(current) <= current
        invariant nodes == Push(old(nodes.below), Array(elems)) && errors == old(errors)
        invariant ReadElements(config, doc, current, elems) == ReadElements(config, doc, start, [])
        decreases |doc| - current
      {
        var child;
        ok, child := ReadChild(Null);
        elems := elems + [child];
        SetCurrentValue(Array(elems));
        if !ok {
          ok := RecoverFromError(ArrayEnd);
          return;
        }
        var t := ReadToken();
        t := PassComments(t);
        // The source reports a missing comma here when one kind equals two different ones.
        var badTokenType := t.kind == ArraySeparator && t.kind == ArrayEnd;
        assert !badTokenType;
        if t.kind == ArrayEnd {
          return true;
        }
      }
    }

    /**
      What a part of readObject leaves behind: an error that ends the object, its closing brace, or a
      position from where the next member is read.
     */
    twostate predicate MemberRead(ok: bool, done: bool, members: seq<Member>, name: Bytes, o: Outcome)
      reads this
    {
      && |doc| >= current >= old(current)
      && old(nodes.Push?) && nodes == Push(old(nodes.below), Object(members))
      && (!ok ==> o == Outcome(false, Object(members), current, o.errors) && errors == old(errors) + o.errors)
      && (ok ==> current > old(current) && errors == old(errors))
      && (ok && done ==> o == Outcome(true, Object(members), current, []))
      && (ok && !done ==> o == ReadMembers(config, doc, current, members, name))
    }

    method ReadMemberEnd(members: seq<Member>, ghost name: Bytes) returns (ok: bool, done: bool)
      requires Valid() && nodes.Push? && CurrentValue() == Object(members)
      modifies this
      ensures MemberRead(ok, done, members, name, EndMember(config, doc, old(current), members, name))
    {
      done := false;
      var comma := ReadToken();
      if comma.kind != ObjectEnd && comma.kind != ArraySeparator && comma.kind != Comment {
        ok := AddErrorAndRecover(MissingCommaOrBrace, comma, ObjectEnd);
        return;
      }
      comma := PassComments(comma);
      done := comma.kind == ObjectEnd;
      ok := true;
    }

    method ReadMemberValue(ms: seq<Member>, name: Bytes) returns (ok: bool, done: bool, members: seq<Member>)
      requires Valid() && nodes.Push? && CurrentValue() == Object(ms)
      modifies this
      ensures MemberRead(ok, done, members, name, ReadMember(config, doc, old(current), ms, name))
      decreases |doc| - current, 3
    {
      members, done := ms, false;
      var colon := ReadToken();
      if colon.kind != MemberSeparator {
        ok := AddErrorAndRecover(MissingColon, colon, ObjectEnd);
        return;
      }
      var key := UpToNul(name);
      ghost var o := ReadValue(config, doc, colon.end, Lookup(members, key));
      var child;
      ok, child := ReadChild(Lookup(members, key));
      members := Put(members, key, child);
      SetCurrentValue(Object(members));
      if !ok {
        assert ReadMember(config, doc, old(current), ms, name)
          == Outcome(false, Object(members), Recover(doc, o.pos, ObjectEnd), o.errors);
        ok := RecoverFromError(ObjectEnd);
        return;
      }
      assert ReadMember(config, doc, old(current), ms, name) == EndMember(config, doc, o.pos, members, name);
      ok, done := ReadMemberEnd(members, name);
    }

    /** One turn of readObject's loop; `last` is the name read in the turn before. */
    method ReadNamedMember(ms: seq<Member>, last: Bytes)
      returns (ok: bool, done: bool, members: seq<Member>, name: Bytes)
      requires Valid() && nodes.Push? && CurrentValue() == Object(ms)
      modifies this
      ensures MemberRead(ok, done, members, name, ReadMembers(config, doc, old(current), ms, last))
      decreases |doc| - current, 4
    {
      members, name, done := ms, last, false;
      var tokenName := ReadToken();
      tokenName := PassComments(tokenName);
      if tokenName.kind == ObjectEnd && last == [] {
        return true, true, members, name;
      }
      if tokenName.kind != StringToken {
        ok := AddErrorAndRecover(MissingBraceOrName, tokenName, ObjectEnd);
        return;
      }
      ok, name := DecodeInto(tokenName);
      if !ok {
        ok := RecoverFromError(ObjectEnd);
        return;
      }
      assert ReadMembers(config, doc, old(current), ms, last) == ReadMember(config, doc, tokenName.end, ms, name);
      ok, done, members := ReadMemberValue(members, name);
    }

    method ReadObject() returns (ok: bool)
      requires Valid() && nodes.Push?
      modifies this
      ensures Follows(ok, ReadMembers(config, doc, old(current), [], []))
      decreases |doc| - current, 5
    {
      var name: Bytes := [];
      var members: seq<Member> := [];
      SetCurrentValue(Object(members));
      while true
        invariant Valid() && old(current) <= current
        invariant nodes == Push(old(nodes.below), Object(members)) && errors == old(errors)
        invariant ReadMembers(config, doc, current, members, name) == ReadMembers(config, doc, old(current), [], [])
        decreases |doc| - current
      {
        var done;
        ok, done, members, name := ReadNamedMember(members, name);
        if !ok || done {
          return;
        }
      }
    }

    /** Parses the document into a node that holds `root`; what was read is left on the stack. */
    method Parse(root: Value) returns (ok: bool)
      modifies this
      ensures var o := ParseDocument(config, doc, root);
        ok == o.ok && current == o.pos && nodes == Push(Empty, o.value) && errors == o.errors
    {
      current := 0;
      errors := [];
      nodes := Push(Empty, root);
      var successful := ReadNode();
      var t := SkipCommentTokens();
      if config.features.strictRoot {
        var read := CurrentValue();
        if !(read.Null? || read.Array? || read.Object?) {
          ok := AddError(ContainerExpected, Token(ErrorToken, 0, |doc|), None);
          return;
        }
      }
      ok := successful;
    }
  }
}
