/** The socket server: the reference-counted registry of online users, the
    per-connection `userId`, and who receives each relayed event. */
module Presence {
  import opened Common
  import Messages

  /** An online user's entry: how many identifies are outstanding, and the
      display name from the latest lookup. */
  datatype Entry = Entry(count: int, name: string)

  /** An insertion-ordered map from user id to entry, as a JavaScript `Map`
      holds it: `keys` in first-insertion order, `entries` for lookup. */
  datatype Registry = Registry(keys: seq<UserId>, entries: map<UserId, Entry>)

  /** One element of the broadcast roster; the count is not exposed. */
  datatype RosterItem = RosterItem(userId: UserId, name: string)

  /** What the server emits. */
  datatype Event =
    | OnlineUsers(roster: seq<RosterItem>)
    | Typing(name: string)
    | StopTyping(name: string)
    | NewMessage(message: Messages.Message)

  /** One emission: the event and the set of connections it reaches. */
  datatype Emit = Emit(to: set<Socket>, event: Event)

  const Empty := Registry([], map[])

  /** The shape of a JavaScript `Map`: each key once, and the key order lists
      exactly the keys. */
  predicate WellFormed(r: Registry) {
    && NoDup(r.keys)
    && (forall u :: u in r.entries ==> u in r.keys)
    && (forall u :: u in r.keys ==> u in r.entries)
  }

  /** The registry invariant: every entry has count at least 1. */
  predicate Consistent(r: Registry) {
    && WellFormed(r)
    && forall u :: u in r.entries ==> r.entries[u].count >= 1
  }

  /** `Map.prototype.set`: an existing key keeps its place, a new key goes
      last. */
  function MapSet(r: Registry, u: UserId, e: Entry): (r': Registry)
    ensures r'.entries == r.entries[u := e]
    ensures u in r.entries ==> r'.keys == r.keys
    ensures u !in r.entries ==> r'.keys == r.keys + [u]
  {
    if u in r.entries then Registry(r.keys, r.entries[u := e])
    else Registry(r.keys + [u], r.entries[u := e])
  }

  /** `Map.prototype.delete`: the key leaves the map and the order; in a
      well-formed map every other key keeps its place. */
  function MapDelete(r: Registry, u: UserId): (r': Registry)
    ensures r'.entries == r.entries - {u}
    ensures r'.keys == RemoveFirst(r.keys, u)
    ensures NoDup(r.keys) && u in r.keys ==>
              exists i :: 0 <= i < |r.keys| && r.keys[i] == u && r'.keys == r.keys[..i] + r.keys[i + 1..]
  {
    if NoDup(r.keys) && u in r.keys then
      var i :| 0 <= i < |r.keys| && r.keys[i] == u;
      RemoveFirstAt(r.keys, u, i);
      Registry(RemoveFirst(r.keys, u), r.entries - {u})
    else Registry(RemoveFirst(r.keys, u), r.entries - {u})
  }

  /** What an identify does to the registry once the lookup found the user:
      count 1 for a new user, one more for a known one, and the name
      refreshed either way. Nobody else's entry changes. */
  function Register(r: Registry, u: UserId, name: string): (r': Registry)
    ensures u in r'.entries && r'.entries[u].name == name
    ensures r'.entries[u].count == if u in r.entries then r.entries[u].count + 1 else 1
    ensures forall v :: v != u ==> (v in r'.entries <==> v in r.entries)
    ensures forall v :: v != u && v in r.entries ==> r'.entries[v] == r.entries[v]
  {
    if u in r.entries then MapSet(r, u, Entry(r.entries[u].count + 1, name))
    else MapSet(r, u, Entry(1, name))
  }

  /** What a disconnect does to the registry for the socket's user: an
      unknown user changes nothing, an entry with count at most 1 is
      deleted, any other loses exactly one from its count and keeps its name.
      Nobody else's entry changes. */
  function Unregister(r: Registry, u: UserId): (r': Registry)
    ensures u !in r.entries ==> r' == r
    ensures u in r.entries && r.entries[u].count <= 1 ==> u !in r'.entries
    ensures u in r.entries && r.entries[u].count > 1 ==>
              u in r'.entries && r'.entries[u] == Entry(r.entries[u].count - 1, r.entries[u].name)
    ensures u in r.entries && r.entries[u].count > 1 ==> r'.keys == r.keys
    ensures u in r.entries && r.entries[u].count <= 1 ==> r'.keys == RemoveFirst(r.keys, u)
    ensures forall v :: v != u ==> (v in r'.entries <==> v in r.entries)
    ensures forall v :: v != u && v in r.entries ==> r'.entries[v] == r.entries[v]
  {
    if u !in r.entries then r
    else if r.entries[u].count <= 1 then MapDelete(r, u)
    else MapSet(r, u, r.entries[u].(count := r.entries[u].count - 1))
  }

  /** The broadcast roster: `[{userId, name}]` in the map's key order. */
  function Roster(r: Registry): (ro: seq<RosterItem>)
    requires WellFormed(r)
    ensures |ro| == |r.keys|
    ensures forall i :: 0 <= i < |ro| ==> ro[i].userId == r.keys[i] && ro[i].userId in r.entries
  {
    seq(|r.keys|, i requires 0 <= i < |r.keys| => RosterItem(r.keys[i], r.entries[r.keys[i]].name))
  }

  function RosterIds(ro: seq<RosterItem>): (ids: seq<UserId>)
    ensures |ids| == |ro|
  {
    seq(|ro|, i requires 0 <= i < |ro| => ro[i].userId)
  }

  // ---------------------------------------------------------------------
  // Properties of the registry
  // ---------------------------------------------------------------------

  /** Identify keeps the registry consistent. */
  lemma RegisterKeepsConsistent(r: Registry, u: UserId, name: string)
    requires Consistent(r)
    ensures Consistent(Register(r, u, name))
  {
    if u !in r.entries {
      AppendFreshNoDup(r.keys, u);
    }
  }

  /** Disconnect keeps the registry consistent: no count ever drops below 1. */
  lemma UnregisterKeepsConsistent(r: Registry, u: UserId)
    requires Consistent(r)
    ensures Consistent(Unregister(r, u))
  {
    if u in r.entries && r.entries[u].count <= 1 {
      RemoveFirstNoDup(r.keys, u);
      RemoveFirstMembers(r.keys, u);
    }
  }

  /** The roster has exactly one item per online user, in the map's key
      order, each carrying that user's stored name and nothing else. */
  lemma RosterIsExact(r: Registry)
    requires WellFormed(r)
    ensures RosterIds(Roster(r)) == r.keys
    ensures NoDup(RosterIds(Roster(r)))
    ensures forall u :: u in RosterIds(Roster(r)) <==> u in r.entries
    ensures forall i :: 0 <= i < |Roster(r)| ==>
              Roster(r)[i].userId in r.entries && Roster(r)[i].name == r.entries[Roster(r)[i].userId].name
  {
    assert RosterIds(Roster(r)) == r.keys;
  }

  /** A later identify of an online user does not move it in the map's key
      order (and so in the roster); the first one puts it last. */
  lemma RegisterKeyOrder(r: Registry, u: UserId, name: string)
    ensures u in r.entries ==> Register(r, u, name).keys == r.keys
    ensures u !in r.entries ==> Register(r, u, name).keys == r.keys + [u]
  {
  }

  /** A user whose last connection went away and who identifies again comes
      back at the end of the key order. */
  lemma ReturningUserMovesToEnd(r: Registry, u: UserId, name: string)
    requires Consistent(r) && u in r.entries && r.entries[u].count <= 1
    ensures Register(Unregister(r, u), u, name).keys == RemoveFirst(r.keys, u) + [u]
  {
    RemoveFirstNoDup(r.keys, u);
  }

  /** A user seen for the first time who then disconnects leaves the
      registry exactly as it was, key order included. */
  lemma {:induction false} RegisterThenUnregisterRestores(r: Registry, u: UserId, name: string)
    requires WellFormed(r) && u !in r.entries
    ensures Unregister(Register(r, u, name), u) == r
  {
    RemoveAppended(r.keys, u);
    assert (r.entries[u := Entry(1, name)]) - {u} == r.entries;
  }

  /** Identifies and disconnects are not paired per connection: a connection
      that identifies twice and disconnects once leaves its user online,
      with one more count than before. */
  lemma IdentifyTwiceDisconnectOnce(r: Registry, u: UserId, n1: string, n2: string)
    requires Consistent(r)
    ensures var r' := Unregister(Register(Register(r, u, n1), u, n2), u);
            && u in r'.entries
            && r'.entries[u].count == (if u in r.entries then r.entries[u].count else 0) + 1
            && r'.entries[u].count >= 1
  {
  }

  // ---------------------------------------------------------------------
  // Connections and the server
  // ---------------------------------------------------------------------

  /** A connection's own state: the user id it last identified as (unset
      until its first identify) and the rooms it has joined. */
  class Socket {
    var userId: Option<UserId>
    var rooms: set<ChannelId>

    constructor ()
      ensures userId == None && rooms == {}
    {
      userId, rooms := None, {};
    }
  }

  /** The server process: the `onlineUsers` map, updated in place, and the
      connections the transport currently holds. */
  class ChatServer {
    var keys: seq<UserId>
    var online: map<UserId, Entry>
    var connected: set<Socket>

    ghost predicate Valid()
      reads this
    {
      Consistent(Registry(keys, online))
    }

    function OnlineUsersMap(): (r: Registry)
      reads this
      ensures r.keys == keys && r.entries == online
    {
      Registry(keys, online)
    }

    /** The connections in room `c`. */
    function RoomSockets(c: ChannelId): (room: set<Socket>)
      reads this, connected
      ensures room <= connected
      ensures forall t :: t in connected ==> (t in room <==> c in t.rooms)
    {
      set t | t in connected && c in t.rooms
    }

    constructor ()
      ensures Valid() && OnlineUsersMap() == Empty && connected == {}
    {
      keys, online, connected := [], map[], {};
    }

    /** A new connection: no user id, no room. */
    method Connect() returns (s: Socket)
      modifies this
      ensures fresh(s) && s.userId == None && s.rooms == {}
      ensures connected == old(connected) + {s}
      ensures keys == old(keys) && online == old(online)
    {
      s := new Socket();
      connected := connected + {s};
    }

    /** `identify`: record the user id on the connection, then, if the lookup
      found the user, register it and broadcast the roster to every
      connection. A failed lookup changes nothing else and emits nothing. */
    method Identify(s: Socket, u: UserId, lookup: Option<string>) returns (out: Option<Emit>)
      requires Valid() && s in connected
      modifies this, s
      ensures Valid()
      ensures s.userId == Some(u) && s.rooms == old(s.rooms) && connected == old(connected)
      ensures lookup.None? ==> OnlineUsersMap() == old(OnlineUsersMap()) && out == None
      ensures lookup.Some? ==>
                && OnlineUsersMap() == Register(old(OnlineUsersMap()), u, lookup.value)
                && out == Some(Emit(connected, OnlineUsers(Roster(OnlineUsersMap()))))
    {
      s.userId := Some(u);
      if lookup.None? {
        return None;
      }
      RegisterKeepsConsistent(OnlineUsersMap(), u, lookup.value);
      if u in online {
        online := online[u := Entry(online[u].count + 1, lookup.value)];
      } else {
        online := online[u := Entry(1, lookup.value)];
        keys := keys + [u];
      }
      out := Some(Emit(connected, OnlineUsers(Roster(OnlineUsersMap()))));
    }

    /** `disconnect`: the transport has already dropped the connection. A
      connection with no truthy user id changes nothing and emits nothing;
      otherwise its user is unregistered (a no-op for a user with no entry)
      and the roster goes to every remaining connection. */
    method Disconnect(s: Socket) returns (out: Option<Emit>)
      requires Valid() && s in connected
      modifies this
      ensures Valid()
      ensures connected == old(connected) - {s}
      ensures !Truthy(s.userId) ==> OnlineUsersMap() == old(OnlineUsersMap()) && out == None
      ensures Truthy(s.userId) ==>
                && OnlineUsersMap() == Unregister(old(OnlineUsersMap()), s.userId.value)
                && out == Some(Emit(connected, OnlineUsers(Roster(OnlineUsersMap()))))
    {
      connected := connected - {s};
      if !Truthy(s.userId) {
        return None;
      }
      var u := s.userId.value;
      ghost var before := OnlineUsersMap();
      UnregisterKeepsConsistent(before, u);
      if u in online {
        if online[u].count <= 1 {
          online := online - {u};
          keys := RemoveFirst(keys, u);
        } else {
          online := online[u := online[u].(count := online[u].count - 1)];
        }
      }
      assert OnlineUsersMap() == Unregister(before, u);
      out := Some(Emit(connected, OnlineUsers(Roster(OnlineUsersMap()))));
    }

    /** `join-channel`: the connection enters the room, with no membership
      check. */
    method JoinChannel(s: Socket, c: ChannelId)
      requires s in connected
      modifies s
      ensures s.rooms == old(s.rooms) + {c} && s.userId == old(s.userId)
    {
      s.rooms := s.rooms + {c};
    }

    /** `typing`: to the room, except the sender. */
    method RelayTyping(s: Socket, c: ChannelId, name: string) returns (out: Emit)
      requires s in connected
      ensures out.event == Typing(name)
      ensures forall t :: t in out.to <==> t in connected && c in t.rooms && t != s
    {
      out := Emit(RoomSockets(c) - {s}, Typing(name));
    }

    /** `stop-typing`: to the room, except the sender. */
    method RelayStopTyping(s: Socket, c: ChannelId, name: string) returns (out: Emit)
      requires s in connected
      ensures out.event == StopTyping(name)
      ensures forall t :: t in out.to <==> t in connected && c in t.rooms && t != s
    {
      out := Emit(RoomSockets(c) - {s}, StopTyping(name));
    }

    /** `send-message`: to the whole room, the sender included when it has
      joined the room. */
    method RelayMessage(s: Socket, c: ChannelId, m: Messages.Message) returns (out: Emit)
      requires s in connected
      ensures out.event == NewMessage(m)
      ensures forall t :: t in out.to <==> t in connected && c in t.rooms
      ensures s in out.to <==> c in s.rooms
    {
      out := Emit(RoomSockets(c), NewMessage(m));
    }
  }

  /** The registry states a user passes through when identifying on two
      connections of an empty registry and then leaving from both. */
  lemma TwoConnectionsRegistry(a: UserId, nameA: string)
    ensures var one := Registry([a], map[a := Entry(1, nameA)]);
            var two := Registry([a], map[a := Entry(2, nameA)]);
            && Register(Empty, a, nameA) == one && Register(one, a, nameA) == two
            && Unregister(two, a) == one && Unregister(one, a) == Empty
            && WellFormed(one) && Roster(one) == [RosterItem(a, nameA)]
            && WellFormed(Empty) && Roster(Empty) == []
  {
    var one := Registry([a], map[a := Entry(1, nameA)]);
    assert WellFormed(one);
    assert MapDelete(one, a) == Empty;
  }

  /** A fresh server on which user `a` has identified on two connections. */
  method TwoConnectionsOf(a: UserId, nameA: string) returns (server: ChatServer, s1: Socket, s2: Socket)
    ensures fresh(server) && server.Valid()
    ensures server.connected == {s1, s2} && s1 != s2
    ensures s1.userId == Some(a) && s2.userId == Some(a)
    ensures server.OnlineUsersMap() == Registry([a], map[a := Entry(2, nameA)])
  {
    TwoConnectionsRegistry(a, nameA);
    server := new ChatServer();
    s1 := server.Connect();
    s2 := server.Connect();
    assert server.connected == {s1, s2} && s1 != s2;
    var e1 := server.Identify(s1, a, Some(nameA));
    var e2 := server.Identify(s2, a, Some(nameA));
  }

  /** User `a` identifies on two connections of a fresh server:
      disconnecting one keeps `a` online (count 2 to 1) and sends the roster
      to the other connection; the second removes `a` and sends the empty
      roster to nobody, no connection being left. */
  method TwoConnectionsScenario(a: UserId, nameA: string)
    returns (afterFirst: Option<Emit>, afterSecond: Option<Emit>, s1: Socket, s2: Socket)
    requires a != ""
    ensures afterFirst.Some? && afterFirst.value == Emit({s2}, OnlineUsers([RosterItem(a, nameA)]))
    ensures afterSecond.Some? && afterSecond.value == Emit({}, OnlineUsers([]))
  {
    TwoConnectionsRegistry(a, nameA);
    var server;
    server, s1, s2 := TwoConnectionsOf(a, nameA);
    afterFirst := server.Disconnect(s1);
    assert server.connected == {s2};
    afterSecond := server.Disconnect(s2);
  }

  /** Users on connections `b` and `c` join room `g`, and `b` types: `c`
      receives the event, `b` does not. */
  method TypingScenario(g: ChannelId) returns (typing: Emit, b: Socket, c: Socket)
    ensures c in typing.to && b !in typing.to
  {
    var server := new ChatServer();
    b := server.Connect();
    c := server.Connect();
    server.JoinChannel(b, g);
    server.JoinChannel(c, g);
    typing := server.RelayTyping(b, g, "b");
  }
}
