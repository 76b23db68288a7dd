/**
  The king server's messages and its blocking handler: one thread a connection, which receives a whole
  message and then handles it under the lock.
 */
module KingServer {
  import opened JsonText
  import opened Options
  import opened JsonGrammar

  const MESSAGE_SIZE: nat := 32

  // ---------- Status: a std::map from names to steps ----------

  datatype Entry = Entry(name: Bytes, steps: nat)

  type Status = seq<Entry>

  /** status[name] = steps, in a map that is kept in the order of its names. */
  function Store(s: Status, name: Bytes, steps: nat): Status {
    if s == [] || Less(name, s[0].name) then [Entry(name, steps)] + s
    else if s[0].name == name then [Entry(name, steps)] + s[1..]
    else [s[0]] + Store(s[1..], name, steps)
  }

  predicate Ordered(s: Status) {
    forall i, j :: 0 <= i < j < |s| ==> Less(s[i].name, s[j].name)
  }

  function Steps(s: Status, name: Bytes): Option<nat> {
    if s == [] then None else if s[0].name == name then Some(s[0].steps) else Steps(s[1..], name)
  }

  lemma {:induction false} StoreMember(s: Status, name: Bytes, steps: nat, e: Entry)
    requires e in Store(s, name, steps)
    ensures e == Entry(name, steps) || e in s
  {
    if s != [] && !Less(name, s[0].name) && s[0].name != name {
      if e != s[0] {
        assert e in Store(s[1..], name, steps);
        StoreMember(s[1..], name, steps, e);
      }
    }
  }

  /** Storing keeps the names ordered and changes the steps of that name only. */
  lemma {:induction false} StoreStep(s: Status, name: Bytes, steps: nat, other: Bytes)
    requires Ordered(s)
    ensures Ordered(Store(s, name, steps))
    ensures Steps(Store(s, name, steps), other) == if other == name then Some(steps) else Steps(s, other)
  {
    var r := Store(s, name, steps);
    if s == [] {
    } else if Less(name, s[0].name) {
      forall j | 1 <= j < |r|
        ensures Less(name, r[j].name)
      {
        if j > 1 {
          LessTransitive(name, s[0].name, s[j - 1].name);
        }
      }
      if other == name {
        LessIrreflexive(name);
      }
      assert r[1..] == s;
    } else if s[0].name == name {
      assert r[1..] == s[1..];
    } else {
      StoreStep(s[1..], name, steps, other);
      LessTotal(name, s[0].name);
      assert r[1..] == Store(s[1..], name, steps);
      forall j | 1 <= j < |r|
        ensures Less(s[0].name, r[j].name)
      {
        StoreMember(s[1..], name, steps, r[1..][j - 1]);
      }
    }
  }

  // ---------- Messages ----------

  /** The four bytes of an unsigned integer, least significant first. */
  function Word(m: Bytes, i: nat): nat
    requires i + 4 <= |m|
  {
    m[i] as int + 0x100 * m[i + 1] as int + 0x1_0000 * m[i + 2] as int + 0x100_0000 * m[i + 3] as int
  }

  function WordBytes(n: nat): (b: Bytes)
    ensures |b| == 4
  {
    [n % 0x100, n / 0x100 % 0x100, n / 0x1_0000 % 0x100, n / 0x100_0000 % 0x100]
  }

  /** The name in a message: at most 24 bytes, up to a NUL. */
  function Name(m: Bytes): Bytes
    requires |m| == MESSAGE_SIZE
  {
    UpToNul(m[4..28])
  }

  datatype Reply =
    | Ran(message: Bytes)
    | Count(n: nat)
    | Listed(name: Bytes, steps: nat)

  /** What handling a message does: the new status, what is sent before a send fails, and whether it ends there. */
  datatype Handled = Handled(status: Status, replies: seq<Reply>, ends: bool)

  function Listing(s: Status): (r: seq<Reply>)
    ensures |r| == |s|
  {
    seq(|s|, i requires 0 <= i < |s| => Listed(s[i].name, s[i].steps))
  }

  function FirstSent(replies: seq<Reply>, sends: nat): seq<Reply> {
    if sends < |replies| then replies[..sends] else replies
  }

  /** The part of the handler that holds the lock; `sends` is how many sends succeed before one fails. */
  function HandleMessage(status: Status, m: Bytes, sends: nat): Handled
    requires |m| == MESSAGE_SIZE
  {
    if Word(m, 0) == 0 then
      var steps := (Word(m, 28) + 1) % 0x1_0000_0000;
      Handled(Store(status, Name(m), steps), FirstSent([Ran(m[..28] + WordBytes(steps))], sends), true)
    else
      var replies := [Count(|status| % 0x1_0000_0000)] + Listing(status);
      Handled(status, FirstSent(replies, sends), sends < |replies|)
  }

  lemma WordRoundTrip(m: Bytes, n: nat)
    requires |m| == 28 && n < 0x1_0000_0000
    ensures Word(m + WordBytes(n), 28) == n
  {
    var b := WordBytes(n);
    assert forall i :: 0 <= i < 4 ==> (m + b)[28 + i] == b[i];
    BytesOfWord(n);
  }

  lemma BytesOfWord(n: nat)
    requires n < 0x1_0000_0000
    ensures n % 0x100 + 0x100 * (n / 0x100 % 0x100) + 0x1_0000 * (n / 0x1_0000 % 0x100)
          + 0x100_0000 * (n / 0x100_0000 % 0x100) == n
  {
    var a, b, c := n / 0x100, n / 0x1_0000, n / 0x100_0000;
    assert a / 0x100 == b && b / 0x100 == c;
    assert n == n % 0x100 + 0x100 * a && a == a % 0x100 + 0x100 * b && b == b % 0x100 + 0x100 * c;
  }

  /** These bytes stand in the 24 bytes after the flag, and a NUL ends them if there is room for one. */
  predicate Stands(m: Bytes, name: Bytes)
    requires |m| == MESSAGE_SIZE
  {
    && NulFree(name) && |name| <= 24 && m[4..4 + |name|] == name
    && (|name| < 24 ==> m[4 + |name|] == 0)
  }

  /** Every message has exactly one name. */
  lemma OneName(m: Bytes, name: Bytes)
    requires |m| == MESSAGE_SIZE
    ensures Stands(m, name) <==> name == Name(m)
  {
    UpToNulStops(m[4..28]);
    if Stands(m, name) {
      var n := |name|;
      assert m[4..28][..n] == name;
      UpToNulPrefix(m[4..28], n);
    }
  }

  /**
    A message with flag 0 counts a step of the runner whose name stands in it: the status keeps its order and every
    other name, that name has the steps of the message plus one, modulo 2^32, and so has the message sent back, which
    is otherwise the same.
   */
  lemma RunCountsStep(status: Status, m: Bytes, sends: nat, name: Bytes, other: Bytes)
    requires Ordered(status) && |m| == MESSAGE_SIZE && Word(m, 0) == 0 && Stands(m, name)
    ensures var h := HandleMessage(status, m, sends);
      var steps := (Word(m, 28) + 1) % 0x1_0000_0000;
      && h.ends && Ordered(h.status)
      && Steps(h.status, other) == (if other == name then Some(steps) else Steps(status, other))
      && |h.replies| == (if sends == 0 then 0 else 1)
      && (sends > 0 ==>
            && h.replies[0].Ran? && |h.replies[0].message| == MESSAGE_SIZE
            && Word(h.replies[0].message, 28) == steps && h.replies[0].message[..28] == m[..28])
  {
    var steps := (Word(m, 28) + 1) % 0x1_0000_0000;
    OneName(m, name);
    StoreStep(status, name, steps, other);
    WordRoundTrip(m[..28], steps);
    assert (m[..28] + WordBytes(steps))[..28] == m[..28];
  }

  lemma {:induction false} StepsAt(s: Status, i: nat)
    requires Ordered(s) && i < |s|
    ensures Steps(s, s[i].name) == Some(s[i].steps)
  {
    if i > 0 {
      LessIrreflexive(s[i].name);
      assert Less(s[0].name, s[i].name);
      StepsAt(s[1..], i - 1);
    }
  }

  /**
    Any other message leaves the status alone and keeps the connection while sending works: the reply is the number
    of names, and then each name once, in order, with its steps; after a send that fails nothing more is sent.
   */
  lemma OtherListsStatus(status: Status, m: Bytes, sends: nat, i: nat)
    requires Ordered(status) && |m| == MESSAGE_SIZE && Word(m, 0) != 0
    ensures var h := HandleMessage(status, m, sends);
      && h.status == status && (h.ends <==> sends <= |status|)
      && |h.replies| == (if h.ends then sends else |status| + 1)
      && (sends > 0 ==> h.replies[0] == Count(|status| % 0x1_0000_0000))
      && (i + 1 < |h.replies| ==>
            && h.replies[i + 1].Listed?
            && Steps(status, h.replies[i + 1].name) == Some(h.replies[i + 1].steps)
            && (i > 0 ==> h.replies[i].Listed? && Less(h.replies[i].name, h.replies[i + 1].name)))
  {
    if i < |status| {
      StepsAt(status, i);
      assert i > 0 ==> Less(status[i - 1].name, status[i].name);
    }
  }

  /** With the connection working, a name that has steps is among those listed. */
  lemma {:induction false} NameListed(status: Status, m: Bytes, sends: nat, name: Bytes)
    requires |m| == MESSAGE_SIZE && Word(m, 0) != 0 && sends > |status| && Steps(status, name).Some?
    ensures Listed(name, Steps(status, name).value) in HandleMessage(status, m, sends).replies
  {
    var i := StepsFrom(status, name);
    assert HandleMessage(status, m, sends).replies[i + 1] == Listed(name, Steps(status, name).value);
  }

  lemma {:induction false} StepsFrom(s: Status, name: Bytes) returns (i: nat)
    requires Steps(s, name).Some?
    ensures i < |s| && s[i] == Entry(name, Steps(s, name).value)
  {
    if s[0].name == name {
      i := 0;
    } else {
      i := StepsFrom(s[1..], name);
      i := i + 1;
    }
  }

  // ---------- The blocking server ----------

  datatype Sent = Sent(fd: int, reply: Reply)

  function SentTo(fd: int, replies: seq<Reply>): seq<Sent> {
    seq(|replies|, i requires 0 <= i < |replies| => Sent(fd, replies[i]))
  }

  /** The threads, each with the part of a message it has received, and everything sent so far. */
  datatype System = System(status: Status, threads: map<int, Bytes>, sent: seq<Sent>)

  /** One thread starts, receives some bytes, handles a whole message, or finds its connection at an end. */
  datatype Step = Start(fd: int) | Receive(fd: int, chunk: Bytes) | Handle(fd: int, sends: nat) | Finish(fd: int)

  predicate Allowed(s: System, a: Step) {
    match a
    case Start(fd) => fd !in s.threads
    case Receive(fd, chunk) => fd in s.threads && chunk != [] && |s.threads[fd]| + |chunk| <= MESSAGE_SIZE
    case Handle(fd, _) => fd in s.threads && |s.threads[fd]| == MESSAGE_SIZE
    case Finish(fd) => fd in s.threads && |s.threads[fd]| < MESSAGE_SIZE
  }

  function Do(s: System, a: Step): System
    requires Allowed(s, a)
  {
    match a
    case Start(fd) => s.(threads := s.threads[fd := []])
    case Receive(fd, chunk) => s.(threads := s.threads[fd := s.threads[fd] + chunk])
    case Handle(fd, sends) =>
      var h := HandleMessage(s.status, s.threads[fd], sends);
      System(h.status, if h.ends then s.threads - {fd} else s.threads[fd := []], s.sent + SentTo(fd, h.replies))
    case Finish(fd) => s.(threads := s.threads - {fd})
  }

  /** A run of the blocking server, under some interleaving of its threads. */
  ghost predicate Runs(s: System, steps: seq<Step>, t: System)
    decreases |steps|
  {
    if steps == [] then s == t else Allowed(s, steps[0]) && Runs(Do(s, steps[0]), steps[1..], t)
  }

  lemma {:induction false} RunsConcat(s: System, a: seq<Step>, t: System, b: seq<Step>, u: System)
    requires Runs(s, a, t) && Runs(t, b, u)
    ensures Runs(s, a + b, u)
    decreases |a|
  {
    if a == [] {
      assert a + b == b;
    } else {
      RunsConcat(Do(s, a[0]), a[1..], t, b, u);
      assert (a + b)[1..] == a[1..] + b;
    }
  }
}
