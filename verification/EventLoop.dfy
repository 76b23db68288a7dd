/**
  The event-driven king server: one thread serves all connections, and a message may arrive in pieces. What a
  connection has received so far stays in its entry of `requests`.
 */
module EventLoop {
  import opened JsonText
  import opened Options
  import opened KingServer

  // ---------- State and steps ----------

  /** A message buffer and how much of it has been filled. */
  datatype Partial = Partial(buffer: Bytes, offset: nat)

  /**
    What the server keeps, the connections registered with epoll, the number of descriptors the server counts, and
    everything sent so far.
   */
  datatype State = State(
    status: Status, requests: map<int, Partial>, open: set<int>, fdsNum: int, sent: seq<Sent>)

  /** A connection is accepted, or one is ready: what recv gives, nothing for an end or an error. */
  datatype Event = Accepted(fd: int) | Ready(fd: int, chunk: Bytes, sends: nat)

  const INITIAL: State := State([], map[], {}, 1, [])

  function Zeros(): (b: Bytes)
    ensures |b| == MESSAGE_SIZE
  {
    seq(MESSAGE_SIZE, i => 0)
  }

  /** requests[fd], which makes an empty entry where there is none. */
  function Entry(s: State, fd: int): Partial {
    if fd in s.requests then s.requests[fd] else Partial(Zeros(), 0)
  }

  /** Bytes received into a buffer at an offset. */
  function Filled(buffer: Bytes, offset: nat, chunk: Bytes): (b: Bytes)
    requires offset + |chunk| <= |buffer|
    ensures |b| == |buffer| && b[..offset + |chunk|] == buffer[..offset] + chunk
  {
    buffer[..offset] + chunk + buffer[offset + |chunk|..]
  }

  predicate Fits(p: Partial) {
    |p.buffer| == MESSAGE_SIZE && p.offset < MESSAGE_SIZE
  }

  predicate Inv(s: State) {
    && s.fdsNum == |s.open| + 1
    && s.requests.Keys <= s.open
    && forall fd :: fd in s.requests ==> Fits(s.requests[fd])
  }

  /** The kernel hands out descriptors that are not open, and receives no more than it is asked to. */
  predicate Enabled(s: State, e: Event) {
    match e
    case Accepted(fd) => fd !in s.open
    case Ready(fd, chunk, _) => fd in s.open && Entry(s, fd).offset + |chunk| <= MESSAGE_SIZE
  }

  function Next(s: State, e: Event): State
    requires Inv(s) && Enabled(s, e)
  {
    match e
    case Accepted(fd) => s.(open := s.open + {fd}, fdsNum := s.fdsNum + 1)
    case Ready(fd, chunk, sends) =>
      var p := Entry(s, fd);
      if chunk == [] then Closed(s, fd)
      else
        var b := Filled(p.buffer, p.offset, chunk);
        if p.offset + |chunk| < MESSAGE_SIZE then
          s.(requests := s.requests[fd := Partial(b, p.offset + |chunk|)])
        else
          var h := HandleMessage(s.status, b, sends);
          var s' := s.(status := h.status, sent := s.sent + SentTo(fd, h.replies));
          if h.ends then Closed(s', fd) else s'.(requests := s.requests[fd := Partial(b, 0)])
  }

  /** The entry is erased, the descriptor closed and taken out of the count. */
  function Closed(s: State, fd: int): State {
    s.(requests := s.requests - {fd}, open := s.open - {fd}, fdsNum := s.fdsNum - 1)
  }

  lemma Overwritten(m: map<int, Partial>, fd: int, p: Partial, q: Partial)
    ensures m[fd := p][fd := q] == m[fd := q] && m[fd := p] - {fd} == m - {fd}
    ensures fd in m && m[fd] == p ==> m[fd := p] == m
  {
  }

  lemma SentSnoc(fd: int, replies: seq<Reply>, k: nat)
    requires k < |replies|
    ensures SentTo(fd, replies[..k + 1]) == SentTo(fd, replies[..k]) + [Sent(fd, replies[k])]
    ensures SentTo(fd, replies[..0]) == []
  {
  }

  // ---------- The server itself ----------

  class Server {
    var status: Status
    var requests: map<int, Partial>
    var open: set<int>
    var fdsNum: int
    var sent: seq<Sent>

    constructor ()
      ensures Current() == INITIAL
    {
      status, requests, open, fdsNum, sent := [], map[], {}, 1, [];
    }

    function Current(): State
      reads this
    {
      State(status, requests, open, fdsNum, sent)
    }

    /** send: fails once the connection takes no more. */
    method Send(fd: int, reply: Reply, left: nat) returns (ok: bool, left': nat)
      modifies this`sent
      ensures ok == (left > 0) && left' == (if left > 0 then left - 1 else 0)
      ensures sent == if ok then old(sent) + [Sent(fd, reply)] else old(sent)
    {
      if left == 0 {
        return false, 0;
      }
      sent := sent + [Sent(fd, reply)];
      return true, left - 1;
    }

    /** The answer to a message that asks for the status; fails at the first send that fails. */
    method SendStatus(fd: int, sends: nat) returns (ok: bool)
      modifies this`sent
      ensures var replies := [Count(|status| % 0x1_0000_0000)] + Listing(status);
        ok == (sends >= |replies|) && sent == old(sent) + SentTo(fd, FirstSent(replies, sends))
    {
      ghost var replies := [Count(|status| % 0x1_0000_0000)] + Listing(status);
      var left;
      ok, left := Send(fd, Count(|status| % 0x1_0000_0000), sends);
      SentSnoc(fd, replies, 0);
      if !ok {
        return;
      }
      for i := 0 to |status|
        invariant left == sends - 1 - i && sends > i
        invariant sent == old(sent) + SentTo(fd, replies[..i + 1])
      {
        assert replies[i + 1] == Listed(status[i].name, status[i].steps);
        SentSnoc(fd, replies, i + 1);
        ok, left := Send(fd, Listed(status[i].name, status[i].steps), left);
        if !ok {
          assert FirstSent(replies, sends) == replies[..i + 1];
          return;
        }
      }
      assert |replies| == |status| + 1 && replies[..|status| + 1] == replies;
    }

    /** One ready connection: receives, and handles the message once it is complete. */
    method Task(fd: int, chunk: Bytes, sends: nat) returns (closes: bool)
      requires Inv(Current()) && Enabled(Current(), Ready(fd, chunk, sends))
      modifies this`requests, this`status, this`sent
      ensures var s := Next(old(Current()), Ready(fd, chunk, sends));
        closes == (fd !in s.open) && status == s.status && requests == s.requests && sent == s.sent
    {
      ghost var before := requests;
      if fd !in requests {
        requests := requests[fd := Partial(Zeros(), 0)];
      }
      ghost var p := requests[fd];
      Overwritten(before, fd, p, p);
      if chunk == [] {
        requests := requests - {fd};
        return true;
      }
      var complete, req := Receive(fd, chunk);
      Overwritten(before, fd, p, requests[fd]);
      if !complete {
        return false;
      }
      var ends := Handle(fd, req, sends);
      if !ends {
        return false;
      }
      Overwritten(before, fd, requests[fd], p);
      requests := requests - {fd};
      return true;
    }

    /** Adds what was received to the connection's entry, and starts a new message after a complete one. */
    method Receive(fd: int, chunk: Bytes) returns (complete: bool, req: Bytes)
      requires fd in requests && |requests[fd].buffer| == MESSAGE_SIZE
      requires requests[fd].offset + |chunk| <= MESSAGE_SIZE
      modifies this`requests
      ensures var p := old(requests)[fd];
        && req == Filled(p.buffer, p.offset, chunk) && complete == (p.offset + |chunk| == MESSAGE_SIZE)
        && requests == old(requests)[fd := Partial(req, if complete then 0 else p.offset + |chunk|)]
    {
      var offset := requests[fd].offset;
      req := Filled(requests[fd].buffer, offset, chunk);
      offset := offset + |chunk|;
      requests := requests[fd := Partial(req, offset)];
      complete := offset == MESSAGE_SIZE;
      if complete {
        requests := requests[fd := Partial(req, 0)];
      }
    }

    /** The switch over a complete message's flag. */
    method Handle(fd: int, req: Bytes, sends: nat) returns (ends: bool)
      requires |req| == MESSAGE_SIZE
      modifies this`status, this`sent
      ensures var h := HandleMessage(old(status), req, sends);
        ends == h.ends && status == h.status && sent == old(sent) + SentTo(fd, h.replies)
    {
      if Word(req, 0) == 0 {
        var steps := (Word(req, 28) + 1) % 0x1_0000_0000;
        var reply := req[..28] + WordBytes(steps);
        status := Store(status, Name(req), steps);
        var _, _ := Send(fd, Ran(reply), sends);
        assert SentTo(fd, [Ran(reply)]) == [Sent(fd, Ran(reply))] && SentTo(fd, []) == [];
        ends := true;
      } else {
        var ok := SendStatus(fd, sends);
        ends := !ok;
      }
    }

    /** One turn of the loop: a new connection is registered, or a ready one served and perhaps closed. */
    method ServeEvent(e: Event)
      requires Inv(Current()) && Enabled(Current(), e)
      modifies this
      ensures Current() == Next(old(Current()), e)
    {
      match e
      case Accepted(fd) =>
        fdsNum := fdsNum + 1;
        open := open + {fd};
      case Ready(fd, chunk, sends) =>
        var closes := Task(fd, chunk, sends);
        if closes {
          open := open - {fd};
          fdsNum := fdsNum - 1;
        }
    }

    /** The loop over the events that epoll reports. */
    method Serve(events: seq<Event>)
      requires Inv(Current()) && AllEnabled(Current(), events)
      modifies this
      ensures Current() == Run(old(Current()), events)
    {
      for i := 0 to |events|
        invariant Inv(Current()) && AllEnabled(Current(), events[i..])
        invariant Run(Current(), events[i..]) == Run(old(Current()), events)
      {
        assert events[i..][1..] == events[i + 1..];
        InvKept(Current(), events[i]);
        ServeEvent(events[i]);
      }
    }
  }

  // ---------- Runs ----------

  lemma InvKept(s: State, e: Event)
    requires Inv(s) && Enabled(s, e)
    ensures Inv(Next(s, e))
  {
  }

  predicate AllEnabled(s: State, events: seq<Event>)
    requires Inv(s)
    decreases |events|
  {
    events == [] || (Enabled(s, events[0]) && (InvKept(s, events[0]); AllEnabled(Next(s, events[0]), events[1..])))
  }

  function Run(s: State, events: seq<Event>): (t: State)
    requires Inv(s) && AllEnabled(s, events)
    ensures Inv(t)
    decreases |events|
  {
    if events == [] then s else InvKept(s, events[0]); Run(Next(s, events[0]), events[1..])
  }

  // ---------- What a connection has received and what was made of it ----------

  /** The history of the connection that now has a descriptor: its bytes, and the messages handled for it. */
  datatype History = History(received: Bytes, handled: seq<Bytes>)

  /** A message is complete when an event fills the buffer. */
  function Completes(s: State, e: Event): Option<Bytes>
    requires Inv(s) && Enabled(s, e)
  {
    match e
    case Accepted(_) => None
    case Ready(fd, chunk, _) =>
      var p := Entry(s, fd);
      if chunk != [] && p.offset + |chunk| == MESSAGE_SIZE then Some(Filled(p.buffer, p.offset, chunk)) else None
  }

  function Recorded(h: History, s: State, e: Event, fd: int): History
    requires Inv(s) && Enabled(s, e)
  {
    if e.fd != fd then h
    else if e.Accepted? then History([], [])
    else
      var m := Completes(s, e);
      History(h.received + e.chunk, if m.Some? then h.handled + [m.value] else h.handled)
  }

  function HistoryOf(s: State, events: seq<Event>, fd: int, h: History): History
    requires Inv(s) && AllEnabled(s, events)
    decreases |events|
  {
    if events == [] then h
    else
      InvKept(s, events[0]);
      HistoryOf(Next(s, events[0]), events[1..], fd, Recorded(h, s, events[0], fd))
  }

  /** The complete messages at the front of a byte string. */
  function Blocks(input: Bytes): seq<Bytes>
    decreases |input|
  {
    if |input| < MESSAGE_SIZE then [] else [input[..MESSAGE_SIZE]] + Blocks(input[MESSAGE_SIZE..])
  }

  /** What is left after the complete messages. */
  function Rest(input: Bytes): (r: Bytes)
    ensures |r| < MESSAGE_SIZE
    decreases |input|
  {
    if |input| < MESSAGE_SIZE then input else Rest(input[MESSAGE_SIZE..])
  }

  /** The messages and the rest make up the bytes again. */
  lemma {:induction false} BlocksComplete(input: Bytes)
    ensures Joined(Blocks(input)) + Rest(input) == input
    ensures forall i :: 0 <= i < |Blocks(input)| ==> |Blocks(input)[i]| == MESSAGE_SIZE
    decreases |input|
  {
    if |input| < MESSAGE_SIZE {
      assert Joined([]) + input == input;
    } else {
      var rest := input[MESSAGE_SIZE..];
      BlocksComplete(rest);
      assert Blocks(input)[1..] == Blocks(rest);
      assert input == input[..MESSAGE_SIZE] + rest;
      Regrouped(input[..MESSAGE_SIZE], Joined(Blocks(rest)), Rest(rest));
    }
  }

  function Joined(blocks: seq<Bytes>): Bytes {
    if blocks == [] then [] else blocks[0] + Joined(blocks[1..])
  }

  lemma {:induction false} BlocksAppend(input: Bytes, chunk: Bytes)
    requires |Rest(input)| + |chunk| <= MESSAGE_SIZE
    ensures var whole := |Rest(input)| + |chunk| == MESSAGE_SIZE;
      && Blocks(input + chunk) == Blocks(input) + (if whole then [Rest(input) + chunk] else [])
      && Rest(input + chunk) == if whole then [] else Rest(input) + chunk
    decreases |input|
  {
    var all := input + chunk;
    if |input| < MESSAGE_SIZE {
      if |all| == MESSAGE_SIZE {
        assert all[..MESSAGE_SIZE] == all && all[MESSAGE_SIZE..] == [];
        assert Blocks(all) == [all] + Blocks([]);
      }
    } else {
      var rest := input[MESSAGE_SIZE..];
      assert all[..MESSAGE_SIZE] == input[..MESSAGE_SIZE] && all[MESSAGE_SIZE..] == rest + chunk;
      BlocksAppend(rest, chunk);
    }
  }

  /** The part of a message that a connection has received. */
  function Part(s: State, fd: int): Bytes
    requires Inv(s)
  {
    var p := Entry(s, fd);
    p.buffer[..p.offset]
  }

  /** The messages handled are the blocks of what was received; an open connection's entry holds the rest. */
  predicate Agrees(s: State, fd: int, h: History)
    requires Inv(s)
  {
    h.handled == Blocks(h.received) && (fd in s.open ==> Part(s, fd) == Rest(h.received))
  }

  lemma AgreesKept(s: State, e: Event, fd: int, h: History)
    requires Inv(s) && Enabled(s, e) && Agrees(s, fd, h)
    ensures Inv(Next(s, e)) && Agrees(Next(s, e), fd, Recorded(h, s, e, fd))
  {
    InvKept(s, e);
    if e.fd == fd && e.Ready? {
      BlocksAppend(h.received, e.chunk);
      if e.chunk == [] {
        assert h.received + [] == h.received;
      } else {
        ReadyAgrees(s, e, h);
      }
    }
  }

  lemma ReadyAgrees(s: State, e: Event, h: History)
    requires Inv(s) && Enabled(s, e) && e.Ready? && Agrees(s, e.fd, h) && e.chunk != []
    ensures Inv(Next(s, e)) && Agrees(Next(s, e), e.fd, Recorded(h, s, e, e.fd))
  {
    InvKept(s, e);
    BlocksAppend(h.received, e.chunk);
    var p := Entry(s, e.fd);
    var b := Filled(p.buffer, p.offset, e.chunk);
    assert b[..p.offset + |e.chunk|] == Rest(h.received) + e.chunk;
    if p.offset + |e.chunk| == MESSAGE_SIZE {
      assert b[..MESSAGE_SIZE] == b && b[..0] == [];
    }
  }

  lemma {:induction false} HistoryAgrees(s: State, events: seq<Event>, fd: int, h: History)
    requires Inv(s) && AllEnabled(s, events) && Agrees(s, fd, h)
    ensures Agrees(Run(s, events), fd, HistoryOf(s, events, fd, h))
    decreases |events|
  {
    if events != [] {
      AgreesKept(s, events[0], fd, h);
      HistoryAgrees(Next(s, events[0]), events[1..], fd, Recorded(h, s, events[0], fd));
    }
  }

  /**
    However the reads of any number of connections are cut and interleaved: the messages handled for a connection
    are the successive 32-byte blocks of its own bytes, and its entry holds exactly what is left over. A closed
    descriptor has no entry, so a connection that reuses it starts afresh.
   */
  lemma Reassembly(events: seq<Event>, fd: int)
    requires AllEnabled(INITIAL, events)
    ensures var s := Run(INITIAL, events);
      var h := HistoryOf(INITIAL, events, fd, History([], []));
      && s.fdsNum == |s.open| + 1
      && h.handled == Blocks(h.received) && Joined(h.handled) + Rest(h.received) == h.received
      && (fd in s.open ==>
            && Part(s, fd) == Rest(h.received)
            && Entry(s, fd).offset == |h.received| - MESSAGE_SIZE * |h.handled| < MESSAGE_SIZE)
      && (fd !in s.open ==> fd !in s.requests)
  {
    HistoryAgrees(INITIAL, events, fd, History([], []));
    var h := HistoryOf(INITIAL, events, fd, History([], []));
    BlocksComplete(h.received);
    BlocksLength(h.received);
  }

  lemma {:induction false} BlocksLength(input: Bytes)
    ensures |input| == MESSAGE_SIZE * |Blocks(input)| + |Rest(input)|
    decreases |input|
  {
    if |input| >= MESSAGE_SIZE {
      BlocksLength(input[MESSAGE_SIZE..]);
    }
  }

  // ---------- Refinement ----------

  /** The blocking server's view of a state: each connection's thread has what its entry holds. */
  ghost function View(s: State): System
    requires Inv(s)
  {
    System(s.status, map fd | fd in s.open :: Part(s, fd), s.sent)
  }

  /** What the threads do for an event. */
  function Steps(s: State, e: Event): seq<Step>
    requires Inv(s) && Enabled(s, e)
  {
    match e
    case Accepted(fd) => [Start(fd)]
    case Ready(fd, chunk, sends) =>
      if chunk == [] then [Finish(fd)]
      else if Completes(s, e).Some? then [Receive(fd, chunk), Handle(fd, sends)]
      else [Receive(fd, chunk)]
  }

  /** Every event is matched by steps of the blocking server with the same status, replies and connections. */
  lemma EventRefines(s: State, e: Event)
    requires Inv(s) && Enabled(s, e)
    ensures Inv(Next(s, e)) && Runs(View(s), Steps(s, e), View(Next(s, e)))
  {
    InvKept(s, e);
    var s' := Next(s, e);
    var v, v' := View(s), View(s');
    match e
    case Accepted(fd) =>
      ThreadStarted(s, s', fd);
      One(v, Start(fd), v');
    case Ready(fd, chunk, sends) => {
      if chunk == [] {
        ThreadEnded(s, s', fd);
        One(v, Finish(fd), v');
      } else if Completes(s, e).None? {
        ThreadHolds(s, s', fd, Part(s, fd) + chunk);
        One(v, Receive(fd, chunk), v');
      } else {
        MessageRefines(s, fd, chunk, sends);
      }
    }
  }

  lemma ThreadStarted(s: State, s': State, fd: int)
    requires Inv(s) && Inv(s') && fd !in s.open && s'.open == s.open + {fd} && s'.requests == s.requests
    ensures View(s').threads == View(s).threads[fd := []]
  {
    assert forall g :: g in s.open ==> Entry(s', g) == Entry(s, g);
    assert Entry(s', fd).buffer[..0] == [];
  }

  lemma ThreadEnded(s: State, s': State, fd: int)
    requires Inv(s) && Inv(s') && fd in s.open && s'.open == s.open - {fd} && s'.requests == s.requests - {fd}
    ensures View(s').threads == View(s).threads - {fd}
  {
    assert forall g :: g in s'.open ==> Entry(s', g) == Entry(s, g);
  }

  lemma ThreadHolds(s: State, s': State, fd: int, part: Bytes)
    requires Inv(s) && Inv(s') && fd in s.open && s'.open == s.open && Part(s', fd) == part
    requires s'.requests - {fd} == s.requests - {fd}
    ensures View(s').threads == View(s).threads[fd := part]
  {
    forall g | g in s.open && g != fd
      ensures Entry(s', g) == Entry(s, g)
    {
      assert g in s.requests <==> g in s.requests - {fd};
      assert g in s'.requests <==> g in s'.requests - {fd};
      if g in s.requests {
        assert (s.requests - {fd})[g] == s.requests[g];
        assert (s'.requests - {fd})[g] == s'.requests[g];
      }
    }
  }

  lemma One(s: System, a: Step, t: System)
    requires Allowed(s, a) && Do(s, a) == t
    ensures Runs(s, [a], t)
  {
    assert [a][1..] == [];
    assert Runs(t, [], t);
  }

  lemma MessageRefines(s: State, fd: int, chunk: Bytes, sends: nat)
    requires Inv(s) && Enabled(s, Ready(fd, chunk, sends)) && Completes(s, Ready(fd, chunk, sends)).Some?
    ensures var e := Ready(fd, chunk, sends);
      Inv(Next(s, e)) && Runs(View(s), [Receive(fd, chunk), Handle(fd, sends)], View(Next(s, e)))
  {
    var e := Ready(fd, chunk, sends);
    InvKept(s, e);
    var p := Entry(s, fd);
    var b := Filled(p.buffer, p.offset, chunk);
    var v, v' := View(s), View(Next(s, e));
    var u := Do(v, Receive(fd, chunk));
    var s' := Next(s, e);
    assert b[..MESSAGE_SIZE] == b;
    assert u.threads[fd] == b;
    var h := HandleMessage(s.status, b, sends);
    if h.ends {
      ThreadEnded(s, s', fd);
      assert u.threads - {fd} == v.threads - {fd};
    } else {
      ThreadHolds(s, s', fd, []);
      assert u.threads[fd := []] == v.threads[fd := []];
    }
    assert Do(u, Handle(fd, sends)).threads == v'.threads;
    One(v, Receive(fd, chunk), u);
    One(u, Handle(fd, sends), v');
    RunsConcat(v, [Receive(fd, chunk)], u, [Handle(fd, sends)], v');
    assert [Receive(fd, chunk)] + [Handle(fd, sends)] == [Receive(fd, chunk), Handle(fd, sends)];
  }

  function AllSteps(s: State, events: seq<Event>): seq<Step>
    requires Inv(s) && AllEnabled(s, events)
    decreases |events|
  {
    if events == [] then []
    else
      InvKept(s, events[0]);
      Steps(s, events[0]) + AllSteps(Next(s, events[0]), events[1..])
  }

  /**
    Every run of the event loop is a run of the blocking server: the same replies to the same connections in the same
    order, and the same status, for an interleaving in which each message is handled at once.
   */
  lemma {:induction false} LoopRefines(s: State, events: seq<Event>)
    requires Inv(s) && AllEnabled(s, events)
    ensures Runs(View(s), AllSteps(s, events), View(Run(s, events)))
    ensures View(Run(s, events)).sent == Run(s, events).sent && View(Run(s, events)).status == Run(s, events).status
    decreases |events|
  {
    if events != [] {
      var s' := Next(s, events[0]);
      EventRefines(s, events[0]);
      LoopRefines(s', events[1..]);
      RunsConcat(View(s), Steps(s, events[0]), View(s'), AllSteps(s', events[1..]), View(Run(s, events)));
    }
  }
}
