/**
  Meeting rooms: the server keeps the users of each room and broadcasts changes; every client builds its own view of
  the room from the events it is sent, in the order they were sent.
 */
module Rooms {
  import opened Options

  type UserId = string
  type RoomId = string

  datatype Kind = Video | Audio | Display

  /** The producer of each kind of stream, if there is one. */
  datatype Producers = Producers(video: Option<string>, audio: Option<string>, display: Option<string>)

  const NONE: Producers := Producers(None, None, None)

  /** A user, with the index of the transport server it was given. */
  datatype User = User(producer: Producers, home: nat)

  datatype Event =
    | Join(id: UserId, user: User)
    | Leave(id: UserId)
    | Produce(id: UserId, kind: Kind, producerId: Option<string>)

  type Room = map<UserId, User>

  function SetKind(p: Producers, kind: Kind, producerId: Option<string>): Producers {
    match kind
    case Video => p.(video := producerId)
    case Audio => p.(audio := producerId)
    case Display => p.(display := producerId)
  }

  function WithProducer(u: User, kind: Kind, producerId: Option<string>): User {
    u.(producer := SetKind(u.producer, kind, producerId))
  }

  // ---------- The client ----------

  datatype View = View(users: map<UserId, User>, userCount: int)

  /** What a client does with an event; nothing where its handler would look up a user it does not know. */
  function Handle(v: View, self: UserId, e: Event): Option<View> {
    match e
    case Join(id, user) => Some(if id in v.users then v else View(v.users[id := user], v.userCount + 1))
    case Leave(id) => if id in v.users then Some(View(v.users - {id}, v.userCount - 1)) else None
    case Produce(id, kind, producerId) =>
      if id !in v.users then None
      else if id == self then Some(v)
      else Some(v.(users := v.users[id := WithProducer(v.users[id], kind, producerId)]))
  }

  function HandleAll(v: View, self: UserId, events: seq<Event>): Option<View>
    decreases |events|
  {
    if events == [] then Some(v)
    else
      match Handle(v, self, events[0])
      case None => None
      case Some(w) => HandleAll(w, self, events[1..])
  }

  class Client {
    const self: UserId
    var users: map<UserId, User>
    var userCount: int

    constructor (self: UserId)
      ensures this.self == self && users == map[] && userCount == 0
    {
      this.self := self;
      users := map[];
      userCount := 0;
    }

    method OnUserJoined(id: UserId, user: User)
      modifies this
      ensures Handle(old(View(users, userCount)), self, Join(id, user)) == Some(View(users, userCount))
    {
      if id in users {
        return;
      }
      users := users[id := user];
      userCount := userCount + 1;
      if user.producer.video.Some? {
        OnUserProduced(id, Video, user.producer.video);
      }
      if user.producer.audio.Some? {
        OnUserProduced(id, Audio, user.producer.audio);
      }
      if user.producer.display.Some? {
        OnUserProduced(id, Display, user.producer.display);
      }
      assert users == old(users)[id := user];
    }

    method OnUserLeft(id: UserId)
      requires id in users
      modifies this
      ensures Handle(old(View(users, userCount)), self, Leave(id)) == Some(View(users, userCount))
    {
      users := users - {id};
      userCount := userCount - 1;
    }

    method OnUserProduced(id: UserId, kind: Kind, producerId: Option<string>)
      requires id in users
      modifies this`users
      ensures Handle(old(View(users, userCount)), self, Produce(id, kind, producerId)) == Some(View(users, userCount))
    {
      if id != self {
        users := users[id := WithProducer(users[id], kind, producerId)];
      }
    }
  }

  // ---------- The server ----------

  /** A connected user's room, and the events sent to it that it has not handled yet. */
  datatype Channel = Channel(room: RoomId, pending: seq<Event>)

  datatype Server = Server(rooms: map<RoomId, Room>, channels: map<UserId, Channel>, serverIndex: nat)

  function Emit(c: Channel, e: Event): Channel {
    c.(pending := c.pending + [e])
  }

  /** io.to(room).emit(event). */
  function Broadcast(channels: map<UserId, Channel>, room: RoomId, e: Event): map<UserId, Channel> {
    map id | id in channels :: if channels[id].room == room then Emit(channels[id], e) else channels[id]
  }

  function RoomOf(s: Server, room: RoomId): Room {
    if room in s.rooms then s.rooms[room] else map[]
  }

  function NextIndex(index: nat, servers: nat): nat {
    if index + 1 == servers then 0 else index + 1
  }

  /** The events that tell a new user about the users already there. */
  function Introductions(room: Room, order: seq<UserId>): (es: seq<Event>)
    requires forall i :: 0 <= i < |order| ==> order[i] in room
    ensures |es| == |order|
  {
    if order == [] then [] else [Join(order[0], room[order[0]])] + Introductions(room, order[1..])
  }

  /** The keys of a room in some order, each once. */
  predicate Enumerates(order: seq<UserId>, room: Room) {
    && (forall i :: 0 <= i < |order| ==> order[i] in room)
    && (forall id :: id in room ==> id in order)
    && (forall i, j :: 0 <= i < j < |order| ==> order[i] != order[j])
  }

  /** What a joining user makes the server send: its arrival to the whole room, and the others to itself. */
  function Announced(
    channels: map<UserId, Channel>, id: UserId, room: RoomId, user: User, there: Room, order: seq<UserId>)
    : map<UserId, Channel>
    requires forall i :: 0 <= i < |order| ==> order[i] in there
  {
    var sent := Broadcast(channels[id := Channel(room, [])], room, Join(id, user));
    sent[id := sent[id].(pending := sent[id].pending + Introductions(there, order))]
  }

  function AfterJoin(s: Server, id: UserId, room: RoomId, order: seq<UserId>, servers: nat): Server
    requires Enumerates(order, RoomOf(s, room))
  {
    var index := NextIndex(s.serverIndex, servers);
    var user := User(NONE, index);
    var there := RoomOf(s, room);
    Server(s.rooms[room := there[id := user]], Announced(s.channels, id, room, user, there, order), index)
  }

  function AfterProduce(s: Server, id: UserId, kind: Kind, producerId: Option<string>): Server {
    if id !in s.channels || id !in RoomOf(s, s.channels[id].room) then s
    else
      var room := s.channels[id].room;
      var there := RoomOf(s, room);
      s.(rooms := s.rooms[room := there[id := WithProducer(there[id], kind, producerId)]],
         channels := Broadcast(s.channels, room, Produce(id, kind, producerId)))
  }

  function AfterDisconnect(s: Server, id: UserId): Server {
    if id !in s.channels || s.channels[id].room !in s.rooms then s
    else
      var room := s.channels[id].room;
      s.(rooms := s.rooms[room := s.rooms[room] - {id}], channels := Broadcast(s.channels - {id}, room, Leave(id)))
  }

  class RoomsService {
    const servers: nat
    var rooms: map<RoomId, Room>
    var channels: map<UserId, Channel>
    var serverIndex: nat

    constructor (servers: nat)
      ensures this.servers == servers && Current() == Server(map[], map[], 0)
    {
      this.servers := servers;
      rooms, channels, serverIndex := map[], map[], 0;
    }

    function Current(): Server
      reads this
    {
      Server(rooms, channels, serverIndex)
    }

    /** The result is the user record sent back to the caller. */
    method JoinRoom(id: UserId, room: RoomId, order: seq<UserId>) returns (user: User)
      requires id !in channels && Enumerates(order, RoomOf(Current(), room))
      modifies this
      ensures Current() == AfterJoin(old(Current()), id, room, order, servers)
      ensures room in rooms && id in rooms[room] && user == rooms[room][id]
    {
      if room !in rooms {
        rooms := rooms[room := map[]];
      }
      var there := rooms[room];
      PickServer();
      user := User(NONE, serverIndex);
      Announce(id, room, user, there, order);
      rooms := rooms[room := rooms[room][id := user]];
      assert rooms == old(rooms)[room := there[id := user]];
    }

    /** Media servers take turns. */
    method PickServer()
      modifies this`serverIndex
      ensures serverIndex == NextIndex(old(serverIndex), servers)
    {
      serverIndex := serverIndex + 1;
      if serverIndex == servers {
        serverIndex := 0;
      }
    }

    method Announce(id: UserId, room: RoomId, user: User, there: Room, order: seq<UserId>)
      requires forall i :: 0 <= i < |order| ==> order[i] in there
      modifies this`channels
      ensures channels == Announced(old(channels), id, room, user, there, order)
    {
      channels := channels[id := Channel(room, [])];
      channels := Broadcast(channels, room, Join(id, user));
      Introduce(id, there, order);
    }

    /** The loop that sends a new user the users already there. */
    method Introduce(id: UserId, there: Room, order: seq<UserId>)
      requires id in channels && forall i :: 0 <= i < |order| ==> order[i] in there
      modifies this`channels
      ensures var c := old(channels)[id];
        channels == old(channels)[id := c.(pending := c.pending + Introductions(there, order))]
    {
      ghost var before := channels[id].pending;
      for i := 0 to |order|
        invariant id in channels && channels == old(channels)[id := channels[id]]
        invariant channels[id].room == old(channels)[id].room
        invariant channels[id].pending + Introductions(there, order[i..]) == before + Introductions(there, order)
      {
        channels := channels[id := Emit(channels[id], Join(order[i], there[order[i]]))];
        assert order[i..][1..] == order[i + 1..];
      }
      assert channels[id].pending + [] == channels[id].pending;
    }

    method OnProduce(id: UserId, kind: Kind, producerId: Option<string>) returns (ok: bool)
      modifies this
      ensures Current() == AfterProduce(old(Current()), id, kind, producerId)
      ensures ok == (id in old(channels) && id in RoomOf(old(Current()), old(channels)[id].room))
    {
      if id !in channels || channels[id].room !in rooms {
        return false;
      }
      var room := channels[id].room;
      if id !in rooms[room] {
        return false;
      }
      rooms := rooms[room := rooms[room][id := WithProducer(rooms[room][id], kind, producerId)]];
      channels := Broadcast(channels, room, Produce(id, kind, producerId));
      ok := true;
    }

    method OnDisconnect(id: UserId)
      modifies this
      ensures Current() == AfterDisconnect(old(Current()), id)
    {
      if id !in channels || channels[id].room !in rooms {
        return;
      }
      var room := channels[id].room;
      channels := channels - {id};
      channels := Broadcast(channels, room, Leave(id));
      rooms := rooms[room := rooms[room] - {id}];
    }
  }

  // ---------- The whole system ----------

  datatype State = State(server: Server, views: map<UserId, View>)

  /** A user joins a room, produces a stream or disconnects; or a client handles the next event sent to it. */
  datatype Action =
    | Joins(id: UserId, room: RoomId, order: seq<UserId>)
    | Produces(id: UserId, kind: Kind, producerId: Option<string>)
    | Disconnects(id: UserId)
    | Delivers(id: UserId)

  const INITIAL: State := State(Server(map[], map[], 0), map[])

  /** A user has one session at a time. */
  predicate Enabled(s: State, a: Action) {
    match a
    case Joins(id, room, order) => id !in s.server.channels && Enumerates(order, RoomOf(s.server, room))
    case Delivers(id) => id in s.server.channels && id in s.views && s.server.channels[id].pending != []
    case _ => true
  }

  /** A client whose handler fails keeps its view; NoUnknownUser says that this does not happen. */
  function Do(s: State, a: Action, servers: nat): State
    requires Enabled(s, a)
  {
    match a
    case Joins(id, room, order) => State(AfterJoin(s.server, id, room, order, servers), s.views[id := View(map[], 0)])
    case Produces(id, kind, producerId) => s.(server := AfterProduce(s.server, id, kind, producerId))
    case Disconnects(id) => State(AfterDisconnect(s.server, id), s.views - {id})
    case Delivers(id) =>
      var c := s.server.channels[id];
      var r := Handle(s.views[id], id, c.pending[0]);
      State(s.server.(channels := s.server.channels[id := c.(pending := c.pending[1..])]),
            if r.Some? then s.views[id := r.value] else s.views)
  }

  /** The view a member should end up with: the members, and what the others produce. */
  function Expected(room: Room, self: UserId): View {
    View(map id | id in room :: if id == self then User(NONE, room[id].home) else room[id], |room|)
  }

  /** Handling what is still pending gives a client the view it should have. */
  ghost predicate Converges(s: State, id: UserId) {
    && id in s.server.channels && id in s.views
    && var c := s.server.channels[id];
       HandleAll(s.views[id], id, c.pending) == Some(Expected(RoomOf(s.server, c.room), id))
  }

  /** The rooms hold exactly the connected users, each in the room it joined. */
  ghost predicate Consistent(s: Server) {
    && (forall id :: id in s.channels ==> s.channels[id].room in s.rooms && id in s.rooms[s.channels[id].room])
    && (forall room, id :: room in s.rooms && id in s.rooms[room] ==> id in s.channels && s.channels[id].room == room)
  }

  ghost predicate Inv(s: State) {
    && Consistent(s.server)
    && s.views.Keys == s.server.channels.Keys
    && forall id :: id in s.server.channels ==> Converges(s, id)
  }

  // ---------- Handling events one after another ----------

  lemma {:induction false} HandleLast(v: View, self: UserId, events: seq<Event>, e: Event)
    ensures HandleAll(v, self, events + [e])
      == match HandleAll(v, self, events) { case None => None case Some(w) => Handle(w, self, e) }
    decreases |events|
  {
    if events == [] {
      assert [] + [e] == [e] && [e][1..] == [];
    } else {
      assert (events + [e])[1..] == events[1..] + [e];
      var w := Handle(v, self, events[0]);
      if w.Some? {
        HandleLast(w.value, self, events[1..], e);
      }
    }
  }

  /** The users a client knows after some introductions. */
  function AddAll(users: map<UserId, User>, room: Room, order: seq<UserId>): map<UserId, User>
    requires forall i :: 0 <= i < |order| ==> order[i] in room
    decreases |order|
  {
    if order == [] then users else AddAll(users[order[0] := room[order[0]]], room, order[1..])
  }

  lemma {:induction false} AddAllAt(users: map<UserId, User>, room: Room, order: seq<UserId>, k: UserId)
    requires forall i :: 0 <= i < |order| ==> order[i] in room
    ensures var r := AddAll(users, room, order);
      && (k in r <==> k in users || k in order)
      && (k in order ==> r[k] == room[k])
      && (k in users && k !in order ==> r[k] == users[k])
    decreases |order|
  {
    if order != [] {
      AddAllAt(users[order[0] := room[order[0]]], room, order[1..], k);
      assert k in order <==> k == order[0] || k in order[1..];
    }
  }

  /** No user is introduced to a client that knows it already. */
  predicate AllNew(users: map<UserId, User>, room: Room, order: seq<UserId>)
    requires forall i :: 0 <= i < |order| ==> order[i] in room
    decreases |order|
  {
    order == [] || (order[0] !in users && AllNew(users[order[0] := room[order[0]]], room, order[1..]))
  }

  lemma {:induction false} DistinctNew(users: map<UserId, User>, room: Room, order: seq<UserId>)
    requires forall i :: 0 <= i < |order| ==> order[i] in room && order[i] !in users
    requires forall i, j :: 0 <= i < j < |order| ==> order[i] != order[j]
    ensures AllNew(users, room, order)
    decreases |order|
  {
    if order != [] {
      DistinctNew(users[order[0] := room[order[0]]], room, order[1..]);
    }
  }

  /** The introductions add the users one by one. */
  lemma {:induction false} HandleIntroductions(v: View, self: UserId, room: Room, order: seq<UserId>)
    requires (forall i :: 0 <= i < |order| ==> order[i] in room) && AllNew(v.users, room, order)
    ensures HandleAll(v, self, Introductions(room, order))
      == Some(View(AddAll(v.users, room, order), v.userCount + |order|))
    decreases |order|
  {
    if order != [] {
      var id := order[0];
      HandleIntroductions(View(v.users[id := room[id]], v.userCount + 1), self, room, order[1..]);
      assert Introductions(room, order)[1..] == Introductions(room, order[1..]);
    }
  }

  lemma EnumeratesSize(order: seq<UserId>, room: Room)
    requires Enumerates(order, room)
    ensures |order| == |room|
  {
    DistinctSize(order);
    assert (set id | id in order) == room.Keys;
  }

  lemma {:induction false} DistinctSize(order: seq<UserId>)
    requires forall i, j :: 0 <= i < j < |order| ==> order[i] != order[j]
    ensures |set id | id in order| == |order|
  {
    if order == [] {
      assert (set id | id in order) == {};
    } else {
      DistinctSize(order[1..]);
      assert (set id | id in order) == {order[0]} + (set id | id in order[1..]);
    }
  }

  // ---------- What one event does to the view of a member ----------

  lemma JoinExpected(room: Room, self: UserId, id: UserId, user: User)
    requires id !in room && id != self
    ensures Handle(Expected(room, self), self, Join(id, user)) == Some(Expected(room[id := user], self))
  {
    assert room[id := user].Keys == room.Keys + {id};
    assert Expected(room, self).users[id := user] == Expected(room[id := user], self).users;
  }

  lemma ProduceExpected(room: Room, self: UserId, id: UserId, kind: Kind, producerId: Option<string>)
    requires id in room
    ensures Handle(Expected(room, self), self, Produce(id, kind, producerId))
      == Some(Expected(room[id := WithProducer(room[id], kind, producerId)], self))
  {
    var room' := room[id := WithProducer(room[id], kind, producerId)];
    assert room'.Keys == room.Keys;
    var w := Handle(Expected(room, self), self, Produce(id, kind, producerId)).value;
    assert w.users == Expected(room', self).users;
  }

  lemma LeaveExpected(room: Room, self: UserId, id: UserId)
    requires id in room && id != self
    ensures Handle(Expected(room, self), self, Leave(id)) == Some(Expected(room - {id}, self))
  {
    assert (room - {id}).Keys == room.Keys - {id};
    assert Expected(room, self).users - {id} == Expected(room - {id}, self).users;
  }

  /** A new user's own events give it the whole room. */
  lemma NewcomerExpected(room: Room, id: UserId, user: User, order: seq<UserId>)
    requires id !in room && Enumerates(order, room) && user.producer == NONE
    ensures HandleAll(View(map[], 0), id, [Join(id, user)] + Introductions(room, order))
      == Some(Expected(room[id := user], id))
  {
    var v := View(map[id := user], 1);
    DistinctNew(v.users, room, order);
    HandleIntroductions(v, id, room, order);
    EnumeratesSize(order, room);
    assert ([Join(id, user)] + Introductions(room, order))[1..] == Introductions(room, order);
    assert map[][id := user] == v.users;
    NewcomerUsers(room, id, user, order);
  }

  lemma ExpectedAt(room: Room, id: UserId, user: User, k: UserId)
    requires id !in room && user.producer == NONE
    ensures var u := Expected(room[id := user], id).users;
      && (k in u <==> k == id || k in room) && (k in u ==> u[k] == if k == id then user else room[k])
  {
  }

  lemma NewcomerUsers(room: Room, id: UserId, user: User, order: seq<UserId>)
    requires id !in room && Enumerates(order, room) && user.producer == NONE
    ensures View(AddAll(map[id := user], room, order), 1 + |room|) == Expected(room[id := user], id)
  {
    var all, expected := AddAll(map[id := user], room, order), Expected(room[id := user], id).users;
    assert room[id := user].Keys == room.Keys + {id};
    forall k: UserId
      ensures (k in all <==> k in expected) && (k in all ==> all[k] == expected[k])
    {
      AddAllAt(map[id := user], room, order, k);
      ExpectedAt(room, id, user, k);
      assert k in order <==> k in room;
    }
    SameMaps(all, expected);
  }

  lemma SameMaps(a: map<UserId, User>, b: map<UserId, User>)
    requires forall k :: (k in a <==> k in b) && (k in a ==> a[k] == b[k])
    ensures a == b
  {
  }

  // ---------- Every step keeps the invariant ----------

  /** One event more for every member of a room that changes accordingly. */
  lemma BroadcastConverges(s: State, t: State, id: UserId, room: RoomId, e: Event)
    requires Consistent(s.server) && Converges(s, id) && id in t.server.channels && id in t.views
    requires t.views[id] == s.views[id]
    requires t.server.channels[id]
      == if s.server.channels[id].room == room then Emit(s.server.channels[id], e) else s.server.channels[id]
    requires s.server.channels[id].room == room ==>
      Handle(Expected(RoomOf(s.server, room), id), id, e) == Some(Expected(RoomOf(t.server, room), id))
    requires s.server.channels[id].room != room ==>
      RoomOf(t.server, s.server.channels[id].room) == RoomOf(s.server, s.server.channels[id].room)
    ensures Converges(t, id)
  {
    HandleLast(s.views[id], id, s.server.channels[id].pending, e);
  }

  lemma JoinRooms(s: Server, id: UserId, room: RoomId, order: seq<UserId>, servers: nat)
    requires Consistent(s) && id !in s.channels && Enumerates(order, RoomOf(s, room))
    ensures var t := AfterJoin(s, id, room, order, servers);
      && id !in RoomOf(s, room)
      && (forall other :: other != room ==> RoomOf(t, other) == RoomOf(s, other))
      && RoomOf(t, room) == RoomOf(s, room)[id := User(NONE, NextIndex(s.serverIndex, servers))]
  {
  }

  lemma JoinChannels(s: Server, id: UserId, room: RoomId, order: seq<UserId>, servers: nat)
    requires id !in s.channels && Enumerates(order, RoomOf(s, room))
    ensures var t := AfterJoin(s, id, room, order, servers);
      var e := Join(id, User(NONE, NextIndex(s.serverIndex, servers)));
      && t.channels.Keys == s.channels.Keys + {id}
      && t.channels[id] == Channel(room, [e] + Introductions(RoomOf(s, room), order))
      && forall k :: k in s.channels ==>
           t.channels[k] == if s.channels[k].room == room then Emit(s.channels[k], e) else s.channels[k]
  {
    var e := Join(id, User(NONE, NextIndex(s.serverIndex, servers)));
    assert [] + [e] == [e];
  }

  lemma JoinConsistent(s: Server, id: UserId, room: RoomId, order: seq<UserId>, servers: nat)
    requires Consistent(s) && id !in s.channels && Enumerates(order, RoomOf(s, room))
    ensures Consistent(AfterJoin(s, id, room, order, servers))
  {
    var t := AfterJoin(s, id, room, order, servers);
    forall k | k in t.channels
      ensures t.channels[k].room in t.rooms && k in t.rooms[t.channels[k].room]
    {
      JoinedInRoom(s, id, room, order, servers, k);
    }
    forall r, k | r in t.rooms && k in t.rooms[r]
      ensures k in t.channels && t.channels[k].room == r
    {
      JoinedHasChannel(s, id, room, order, servers, r, k);
    }
  }

  lemma JoinedInRoom(s: Server, id: UserId, room: RoomId, order: seq<UserId>, servers: nat, k: UserId)
    requires Consistent(s) && id !in s.channels && Enumerates(order, RoomOf(s, room))
    requires k in AfterJoin(s, id, room, order, servers).channels
    ensures var t := AfterJoin(s, id, room, order, servers);
      t.channels[k].room in t.rooms && k in t.rooms[t.channels[k].room]
  {
    JoinChannels(s, id, room, order, servers);
    assert k != id ==> k in s.channels;
  }

  lemma JoinedHasChannel(
    s: Server, id: UserId, room: RoomId, order: seq<UserId>, servers: nat, r: RoomId, k: UserId)
    requires Consistent(s) && id !in s.channels && Enumerates(order, RoomOf(s, room))
    requires var t := AfterJoin(s, id, room, order, servers); r in t.rooms && k in t.rooms[r]
    ensures var t := AfterJoin(s, id, room, order, servers); k in t.channels && t.channels[k].room == r
  {
    JoinChannels(s, id, room, order, servers);
    assert k != id ==> r in s.rooms && k in s.rooms[r];
  }

  lemma JoinKeepsInv(s: State, id: UserId, room: RoomId, order: seq<UserId>, servers: nat)
    requires Inv(s) && Enabled(s, Joins(id, room, order))
    ensures Inv(Do(s, Joins(id, room, order), servers))
  {
    var t := Do(s, Joins(id, room, order), servers);
    JoinConsistent(s.server, id, room, order, servers);
    JoinKeys(s.server, id, room, order, servers);
    forall k | k in t.server.channels
      ensures Converges(t, k)
    {
      EveryoneConverges(s, id, room, order, k, servers);
    }
  }

  lemma EveryoneConverges(s: State, id: UserId, room: RoomId, order: seq<UserId>, k: UserId, servers: nat)
    requires Inv(s) && Enabled(s, Joins(id, room, order)) && (k == id || k in s.server.channels)
    ensures Converges(Do(s, Joins(id, room, order), servers), k)
  {
    if k == id {
      NewcomerConverges(s, id, room, order, servers);
    } else {
      JoinConverges(s, id, room, order, k, servers);
    }
  }

  lemma JoinKeys(s: Server, id: UserId, room: RoomId, order: seq<UserId>, servers: nat)
    requires id !in s.channels && Enumerates(order, RoomOf(s, room))
    ensures AfterJoin(s, id, room, order, servers).channels.Keys == s.channels.Keys + {id}
  {
    JoinChannels(s, id, room, order, servers);
  }

  lemma JoinConverges(s: State, id: UserId, room: RoomId, order: seq<UserId>, k: UserId, servers: nat)
    requires Inv(s) && Enabled(s, Joins(id, room, order)) && k in s.server.channels
    ensures Converges(Do(s, Joins(id, room, order), servers), k)
  {
    var t := Do(s, Joins(id, room, order), servers);
    var user := User(NONE, NextIndex(s.server.serverIndex, servers));
    JoinRooms(s.server, id, room, order, servers);
    JoinChannels(s.server, id, room, order, servers);
    assert Converges(s, k);
    JoinExpected(RoomOf(s.server, room), k, id, user);
    BroadcastConverges(s, t, k, room, Join(id, user));
  }

  lemma NewcomerConverges(s: State, id: UserId, room: RoomId, order: seq<UserId>, servers: nat)
    requires Inv(s) && Enabled(s, Joins(id, room, order))
    ensures Converges(Do(s, Joins(id, room, order), servers), id)
  {
    JoinRooms(s.server, id, room, order, servers);
    JoinChannels(s.server, id, room, order, servers);
    NewcomerExpected(RoomOf(s.server, room), id, User(NONE, NextIndex(s.server.serverIndex, servers)), order);
  }

  lemma ProduceConsistent(s: Server, id: UserId, kind: Kind, producerId: Option<string>)
    requires Consistent(s) && id in s.channels
    ensures var t := AfterProduce(s, id, kind, producerId);
      var there := RoomOf(s, s.channels[id].room);
      && Consistent(t) && t.channels.Keys == s.channels.Keys && id in there
      && (forall room :: room != s.channels[id].room ==> RoomOf(t, room) == RoomOf(s, room))
      && RoomOf(t, s.channels[id].room) == there[id := WithProducer(there[id], kind, producerId)]
  {
  }

  lemma ProduceKeepsInv(s: State, id: UserId, kind: Kind, producerId: Option<string>, servers: nat)
    requires Inv(s)
    ensures Inv(Do(s, Produces(id, kind, producerId), servers))
  {
    if id in s.server.channels {
      ProduceConsistent(s.server, id, kind, producerId);
      var t := Do(s, Produces(id, kind, producerId), servers);
      forall k | k in t.server.channels
        ensures Converges(t, k)
      {
        ProduceConverges(s, id, kind, producerId, k, servers);
      }
    }
  }

  lemma ProduceConverges(s: State, id: UserId, kind: Kind, producerId: Option<string>, k: UserId, servers: nat)
    requires Inv(s) && id in s.server.channels && k in s.server.channels
    ensures Converges(Do(s, Produces(id, kind, producerId), servers), k)
  {
    var t := Do(s, Produces(id, kind, producerId), servers);
    var room := s.server.channels[id].room;
    ProduceConsistent(s.server, id, kind, producerId);
    assert Converges(s, k);
    ProduceExpected(RoomOf(s.server, room), k, id, kind, producerId);
    BroadcastConverges(s, t, k, room, Produce(id, kind, producerId));
  }

  lemma DisconnectConsistent(s: Server, id: UserId)
    requires Consistent(s) && id in s.channels
    ensures var t := AfterDisconnect(s, id);
      && Consistent(t) && t.channels.Keys == s.channels.Keys - {id}
      && (forall room :: room != s.channels[id].room ==> RoomOf(t, room) == RoomOf(s, room))
      && RoomOf(t, s.channels[id].room) == RoomOf(s, s.channels[id].room) - {id}
  {
  }

  lemma DisconnectKeepsInv(s: State, id: UserId, servers: nat)
    requires Inv(s)
    ensures Inv(Do(s, Disconnects(id), servers))
  {
    var t := Do(s, Disconnects(id), servers);
    if id in s.server.channels {
      DisconnectConsistent(s.server, id);
      assert t.views.Keys == s.views.Keys - {id};
      forall k | k in t.server.channels
        ensures Converges(t, k)
      {
        DisconnectConverges(s, id, k, servers);
      }
    } else {
      assert s.views - {id} == s.views;
    }
  }

  lemma DisconnectConverges(s: State, id: UserId, k: UserId, servers: nat)
    requires Inv(s) && id in s.server.channels && k in s.server.channels && k != id
    ensures Converges(Do(s, Disconnects(id), servers), k)
  {
    var t := Do(s, Disconnects(id), servers);
    var room := s.server.channels[id].room;
    DisconnectConsistent(s.server, id);
    assert Converges(s, k);
    LeaveExpected(RoomOf(s.server, room), k, id);
    BroadcastConverges(s, t, k, room, Leave(id));
  }

  lemma DeliverKeepsInv(s: State, id: UserId, servers: nat)
    requires Inv(s) && Enabled(s, Delivers(id))
    ensures Inv(Do(s, Delivers(id), servers))
    ensures Handle(s.views[id], id, s.server.channels[id].pending[0]).Some?
  {
    var t := Do(s, Delivers(id), servers);
    assert Converges(s, id);
    forall k | k in t.server.channels
      ensures Converges(t, k)
    {
      assert Converges(s, k);
    }
  }

  lemma StepKeepsInv(s: State, a: Action, servers: nat)
    requires Inv(s) && Enabled(s, a)
    ensures Inv(Do(s, a, servers))
  {
    match a
    case Joins(id, room, order) => JoinKeepsInv(s, id, room, order, servers);
    case Produces(id, kind, producerId) => ProduceKeepsInv(s, id, kind, producerId, servers);
    case Disconnects(id) => DisconnectKeepsInv(s, id, servers);
    case Delivers(id) => DeliverKeepsInv(s, id, servers);
  }

  // ---------- Runs ----------

  ghost predicate AllEnabled(s: State, actions: seq<Action>, servers: nat)
    decreases |actions|
  {
    actions == [] || (Enabled(s, actions[0]) && AllEnabled(Do(s, actions[0], servers), actions[1..], servers))
  }

  ghost function Run(s: State, actions: seq<Action>, servers: nat): State
    requires AllEnabled(s, actions, servers)
    decreases |actions|
  {
    if actions == [] then s else Run(Do(s, actions[0], servers), actions[1..], servers)
  }

  lemma {:induction false} RunKeepsInv(s: State, actions: seq<Action>, servers: nat)
    requires Inv(s) && AllEnabled(s, actions, servers)
    ensures Inv(Run(s, actions, servers))
    decreases |actions|
  {
    if actions != [] {
      StepKeepsInv(s, actions[0], servers);
      RunKeepsInv(Do(s, actions[0], servers), actions[1..], servers);
    }
  }

  /**
    In every reachable state: a user is in a room exactly when it is connected and joined it, and handling the events
    still on their way gives every client the members of its room and what the others produce.
   */
  lemma ViewsConverge(actions: seq<Action>, servers: nat, id: UserId)
    requires AllEnabled(INITIAL, actions, servers)
    ensures var s := Run(INITIAL, actions, servers);
      && Consistent(s.server)
      && (id in s.server.channels ==> Converges(s, id))
      && (id in s.server.channels && s.server.channels[id].pending == [] ==>
            s.views[id] == Expected(RoomOf(s.server, s.server.channels[id].room), id))
  {
    RunKeepsInv(INITIAL, actions, servers);
  }

  /** No client ever handles a leave or a produce for a user it does not know. */
  lemma NoUnknownUser(actions: seq<Action>, servers: nat, id: UserId)
    requires AllEnabled(INITIAL, actions, servers)
    ensures var s := Run(INITIAL, actions, servers);
      Enabled(s, Delivers(id)) ==> Handle(s.views[id], id, s.server.channels[id].pending[0]).Some?
  {
    RunKeepsInv(INITIAL, actions, servers);
    var s := Run(INITIAL, actions, servers);
    if Enabled(s, Delivers(id)) {
      DeliverKeepsInv(s, id, servers);
    }
  }

  // ---------- What is produced ----------

  /** The field of the kind is the new producer, no producer included, and nothing else has changed. */
  predicate Stored(u: User, w: User, kind: Kind, producerId: Option<string>) {
    && w.producer.video == (if kind.Video? then producerId else u.producer.video)
    && w.producer.audio == (if kind.Audio? then producerId else u.producer.audio)
    && w.producer.display == (if kind.Display? then producerId else u.producer.display)
    && w.home == u.home
  }

  /** The room's record of the user is changed so, and no other record is. */
  lemma ProduceStores(s: Server, id: UserId, kind: Kind, producerId: Option<string>, other: UserId)
    requires Consistent(s) && id in s.channels
    ensures var before := RoomOf(s, s.channels[id].room);
      var after := RoomOf(AfterProduce(s, id, kind, producerId), s.channels[id].room);
      && id in before && id in after && Stored(before[id], after[id], kind, producerId)
      && (other != id ==> (other in after <==> other in before) && (other in before ==> after[other] == before[other]))
  {
    ProduceConsistent(s, id, kind, producerId);
  }

  /** What a user produces of a kind after some actions, from what it did before; nothing when it has just joined. */
  function Latest(actions: seq<Action>, id: UserId, kind: Kind, before: Option<string>): Option<string>
    decreases |actions|
  {
    if actions == [] then before
    else
      match actions[0]
      case Produces(i, k, producerId) =>
        Latest(actions[1..], id, kind, if i == id && k == kind then producerId else before)
      case Joins(i, _, _) => Latest(actions[1..], id, kind, if i == id then None else before)
      case _ => Latest(actions[1..], id, kind, before)
  }

  /** The producers that the server has on record for a connected user. */
  ghost function Recorded(s: Server, id: UserId): Producers
    requires Consistent(s) && id in s.channels
  {
    s.rooms[s.channels[id].room][id].producer
  }

  ghost predicate OnRecord(s: Server, id: UserId, p: Producers) {
    Consistent(s) && (id in s.channels ==> Recorded(s, id) == p)
  }

  ghost function AllLatest(actions: seq<Action>, id: UserId, p: Producers): Producers {
    Producers(Latest(actions, id, Video, p.video), Latest(actions, id, Audio, p.audio),
              Latest(actions, id, Display, p.display))
  }

  lemma OneLatest(a: Action, id: UserId, p: Producers)
    ensures AllLatest([a], id, p)
      == match a
         case Produces(i, kind, producerId) => if i == id then SetKind(p, kind, producerId) else p
         case Joins(i, _, _) => if i == id then NONE else p
         case _ => p
  {
    LatestOne(a, id, Video, p.video);
    LatestOne(a, id, Audio, p.audio);
    LatestOne(a, id, Display, p.display);
  }

  lemma LatestOne(a: Action, id: UserId, kind: Kind, before: Option<string>)
    ensures Latest([a], id, kind, before)
      == match a
         case Produces(i, k, producerId) => if i == id && k == kind then producerId else before
         case Joins(i, _, _) => if i == id then None else before
         case _ => before
  {
    assert [a][1..] == [];
  }

  lemma ProduceRecorded(s: Server, i: UserId, kind: Kind, producerId: Option<string>, id: UserId)
    requires Consistent(s) && i in s.channels && id in s.channels
    ensures var t := AfterProduce(s, i, kind, producerId);
      && Consistent(t) && id in t.channels
      && Recorded(t, id) == if i == id then SetKind(Recorded(s, id), kind, producerId) else Recorded(s, id)
  {
    ProduceConsistent(s, i, kind, producerId);
  }

  lemma JoinRecorded(s: Server, i: UserId, room: RoomId, order: seq<UserId>, servers: nat, id: UserId)
    requires Consistent(s) && i !in s.channels && Enumerates(order, RoomOf(s, room)) && (id == i || id in s.channels)
    ensures var t := AfterJoin(s, i, room, order, servers);
      && Consistent(t) && id in t.channels && Recorded(t, id) == if i == id then NONE else Recorded(s, id)
  {
    JoinConsistent(s, i, room, order, servers);
    JoinRooms(s, i, room, order, servers);
    JoinChannels(s, i, room, order, servers);
  }

  lemma DisconnectRecorded(s: Server, i: UserId, id: UserId)
    requires Consistent(s) && id in s.channels && id != i
    ensures var t := AfterDisconnect(s, i);
      Consistent(t) && id in t.channels && Recorded(t, id) == Recorded(s, id)
  {
    if i in s.channels {
      DisconnectConsistent(s, i);
    }
  }

  lemma ActionRecorded(s: State, a: Action, servers: nat, id: UserId, p: Producers)
    requires Inv(s) && Enabled(s, a) && OnRecord(s.server, id, p)
    ensures OnRecord(Do(s, a, servers).server, id, AllLatest([a], id, p))
  {
    StepKeepsInv(s, a, servers);
    OneLatest(a, id, p);
    if id in Do(s, a, servers).server.channels {
      match a
      case Produces(i, kind, producerId) =>
        if i in s.server.channels {
          ProduceRecorded(s.server, i, kind, producerId, id);
        }
      case Joins(i, room, order) =>
        JoinKeys(s.server, i, room, order, servers);
        JoinRecorded(s.server, i, room, order, servers, id);
      case Disconnects(i) =>
        if i in s.server.channels {
          DisconnectConsistent(s.server, i);
          DisconnectRecorded(s.server, i, id);
        }
      case Delivers(_) =>
    }
  }

  lemma LatestStep(actions: seq<Action>, id: UserId, kind: Kind, before: Option<string>)
    requires actions != []
    ensures Latest(actions, id, kind, before) == Latest(actions[1..], id, kind, Latest([actions[0]], id, kind, before))
  {
    assert [actions[0]][1..] == [];
  }

  lemma {:induction false} RunRecorded(s: State, actions: seq<Action>, servers: nat, id: UserId, p: Producers)
    requires Inv(s) && AllEnabled(s, actions, servers) && OnRecord(s.server, id, p)
    ensures OnRecord(Run(s, actions, servers).server, id, AllLatest(actions, id, p))
    decreases |actions|
  {
    if actions != [] {
      var a := actions[0];
      StepKeepsInv(s, a, servers);
      ActionRecorded(s, a, servers, id, p);
      RunRecorded(Do(s, a, servers), actions[1..], servers, id, AllLatest([a], id, p));
      LatestStep(actions, id, Video, p.video);
      LatestStep(actions, id, Audio, p.audio);
      LatestStep(actions, id, Display, p.display);
    }
  }

  /**
    In every reachable state the server has on record, for every connected user and each kind, what the user last
    produced of it since it joined; and so has every other client of the room once its events are delivered.
   */
  lemma LastProduced(actions: seq<Action>, servers: nat, id: UserId, viewer: UserId)
    requires AllEnabled(INITIAL, actions, servers)
    ensures var s := Run(INITIAL, actions, servers);
      && Consistent(s.server)
      && (id in s.server.channels ==>
            && Recorded(s.server, id).video == Latest(actions, id, Video, None)
            && Recorded(s.server, id).audio == Latest(actions, id, Audio, None)
            && Recorded(s.server, id).display == Latest(actions, id, Display, None))
      && (id in s.server.channels && viewer in s.server.channels && viewer != id
            && s.server.channels[viewer].room == s.server.channels[id].room
            && s.server.channels[viewer].pending == [] ==>
            && viewer in s.views && id in s.views[viewer].users
            && s.views[viewer].users[id].producer == Recorded(s.server, id))
  {
    RunRecorded(INITIAL, actions, servers, id, NONE);
    ViewsConverge(actions, servers, viewer);
  }

  // ---------- Media servers take turns ----------

  function JoinCount(actions: seq<Action>): nat {
    if actions == [] then 0 else (if actions[0].Joins? then 1 else 0) + JoinCount(actions[1..])
  }

  lemma TurnStep(index: nat, joins: nat, servers: nat)
    requires servers > 0 && index == joins % servers
    ensures NextIndex(index, servers) == (joins + 1) % servers
  {
    var q := joins / servers;
    assert joins == servers * q + index;
    if index + 1 == servers {
      assert joins + 1 == servers * (q + 1) + 0;
      Remainder(joins + 1, servers, q + 1, 0);
    } else {
      Remainder(joins + 1, servers, q, index + 1);
    }
  }

  lemma Remainder(v: nat, m: nat, q: nat, r: nat)
    requires m > 0 && v == m * q + r && r < m
    ensures v % m == r
  {
    var d: int := v / m - q;
    assert v == m * (v / m) + v % m && m * (v / m) - m * q == m * d;
    assert d >= 1 ==> m * d >= m;
    assert d <= -1 ==> m * d + m <= 0;
  }

  lemma {:induction false} RunTurns(s: State, actions: seq<Action>, servers: nat, joins: nat)
    requires AllEnabled(s, actions, servers) && servers > 0 && s.server.serverIndex == joins % servers
    ensures Run(s, actions, servers).server.serverIndex == (joins + JoinCount(actions)) % servers
    decreases |actions|
  {
    if actions != [] {
      if actions[0].Joins? {
        TurnStep(s.server.serverIndex, joins, servers);
        RunTurns(Do(s, actions[0], servers), actions[1..], servers, joins + 1);
      } else {
        RunTurns(Do(s, actions[0], servers), actions[1..], servers, joins);
      }
    }
  }

  /** The user that joins after some actions is given the next media server in turn, counted round. */
  lemma ServersTakeTurns(actions: seq<Action>, servers: nat, id: UserId, room: RoomId, order: seq<UserId>)
    requires AllEnabled(INITIAL, actions, servers) && servers > 0
    requires Enabled(Run(INITIAL, actions, servers), Joins(id, room, order))
    ensures var t := Do(Run(INITIAL, actions, servers), Joins(id, room, order), servers);
      id in RoomOf(t.server, room) && RoomOf(t.server, room)[id].home == (JoinCount(actions) + 1) % servers < servers
  {
    var s := Run(INITIAL, actions, servers);
    Remainder(0, servers, 0, 0);
    RunTurns(INITIAL, actions, servers, 0);
    TurnStep(s.server.serverIndex, JoinCount(actions), servers);
    RunKeepsInv(INITIAL, actions, servers);
    JoinRooms(s.server, id, room, order, servers);
  }
}
