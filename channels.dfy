/** The durable channel tables behind the channel HTTP handlers: the Channel
    collection (a map from channel id to document) and the ChannelMember
    collection (a sequence of (channel, user) rows in insertion order). */
module Channels {
  import opened Common

  /** A Channel document; `createdBy` is optional in the document the
      handler builds, required by the schema. */
  datatype Channel = Channel(name: string, description: Option<string>, createdBy: Option<UserId>)

  /** A ChannelMember row. */
  datatype Membership = Membership(channel: ChannelId, user: UserId)

  datatype Tables = Tables(channels: map<ChannelId, Channel>, members: seq<Membership>)

  /** What a handler answers, and the tables after it. */
  datatype Outcome<+T> = Outcome(reply: Reply<T>, after: Tables)

  /** One element of the list returned by the "my channels" query. */
  datatype ChannelSummary = ChannelSummary(id: ChannelId, name: string, description: Option<string>, memberCount: nat)

  /** The Channel schema's validation: `name` and `createdBy` are required
      (a required string must also be non-empty). */
  predicate SchemaAccepts(c: Channel): (ok: bool)
    ensures c.createdBy.None? ==> !ok
    ensures c.name == "" ==> !ok
    ensures c.name != "" && c.createdBy.Some? ==> ok
  {
    c.name != "" && c.createdBy.Some?
  }

  /** `ChannelMember.findOne({channel, user})` finds a row: some row names
      both the channel and the user. */
  predicate IsMember(members: seq<Membership>, c: ChannelId, u: UserId): (found: bool)
    ensures found <==> exists i :: 0 <= i < |members| && members[i].channel == c && members[i].user == u
  {
    Membership(c, u) in members
  }

  /** The invariant the handlers keep: no (channel, user) row twice, and every
      row names an existing channel. The collections have no unique index;
      uniqueness rests on the handlers' own checks. */
  predicate Consistent(t: Tables) {
    && NoDup(t.members)
    && forall m :: m in t.members ==> m.channel in t.channels
  }

  // ---------------------------------------------------------------------
  // createChannel
  // ---------------------------------------------------------------------

  /** The shape of the create handler, given the document it builds: reject a
      missing name, let the schema validate the document (a validation error
      lands in the catch-all 500), then insert the channel and the creator's
      membership row. */
  function CreateWith(t: Tables, id: ChannelId, name: Option<string>, description: Option<string>,
                      createdBy: Option<UserId>, user: UserId): (o: Outcome<ChannelId>)
    requires id !in t.channels
    ensures !Truthy(name) ==> o == Outcome(Fail(BadRequest, "Name is required"), t)
    ensures Truthy(name) && createdBy.None? ==> o == Outcome(Fail(ServerError, "Server error"), t)
    ensures o.reply.Ok? <==> Truthy(name) && createdBy.Some?
    ensures o.reply.Ok? ==>
              && o.reply.body == id
              && o.after.channels == t.channels[id := Channel(name.value, description, createdBy)]
              && o.after.members == t.members + [Membership(id, user)]
  {
    if !Truthy(name) then Outcome(Fail(BadRequest, "Name is required"), t)
    else
      var doc := Channel(name.value, description, createdBy);
      if !SchemaAccepts(doc) then Outcome(Fail(ServerError, "Server error"), t)
      else Outcome(Ok(id), Tables(t.channels[id := doc], t.members + [Membership(id, user)]))
  }

  /** The create handler as written: the document carries only name and
      description, so the schema's required `createdBy` is missing and no
      request ever creates a channel. */
  function CreateAsWritten(t: Tables, id: ChannelId, name: Option<string>, description: Option<string>,
                           user: UserId): (o: Outcome<ChannelId>)
    requires id !in t.channels
    ensures o.reply.Fail? && o.after == t
    ensures o.reply.status == if Truthy(name) then ServerError else BadRequest
  {
    CreateWith(t, id, name, description, None, user)
  }

  /** The create handler with the creator recorded as `createdBy`: a named
      channel is created and its creator auto-joined. */
  function Create(t: Tables, id: ChannelId, name: Option<string>, description: Option<string>,
                  user: UserId): (o: Outcome<ChannelId>)
    requires id !in t.channels
    ensures !Truthy(name) ==> o.reply.Fail? && o.reply.status == BadRequest && o.after == t
    ensures Truthy(name) ==>
              && o.reply == Ok(id)
              && o.after.channels == t.channels[id := Channel(name.value, description, Some(user))]
              && o.after.members == t.members + [Membership(id, user)]
  {
    CreateWith(t, id, name, description, Some(user), user)
  }

  /** A successful create makes the creator a member of the new channel and
      keeps rows unique. */
  lemma CreateKeepsValid(t: Tables, id: ChannelId, name: Option<string>, description: Option<string>, user: UserId)
    requires Consistent(t) && id !in t.channels
    ensures Consistent(Create(t, id, name, description, user).after)
    ensures Create(t, id, name, description, user).reply.Ok? ==>
              IsMember(Create(t, id, name, description, user).after.members, id, user)
  {
    if Truthy(name) {
      assert Membership(id, user) !in t.members;
      AppendFreshNoDup(t.members, Membership(id, user));
    }
  }

  // ---------------------------------------------------------------------
  // joinChannel / leaveChannel
  // ---------------------------------------------------------------------

  /** Join: 404 for an unknown channel, 400 for an existing member, otherwise
      one row appended. */
  function Join(t: Tables, c: ChannelId, u: UserId): (o: Outcome<string>)
    ensures o.after.channels == t.channels
    ensures o.reply.Ok? <==> c in t.channels && !IsMember(t.members, c, u)
    ensures c !in t.channels ==> o.reply == Fail(NotFound, "Channel not found")
    ensures c in t.channels && IsMember(t.members, c, u) ==> o.reply == Fail(BadRequest, "Already a member")
    ensures o.reply.Fail? ==> o.after == t
    ensures o.reply.Ok? ==> o.after.members == t.members + [Membership(c, u)]
  {
    if c !in t.channels then Outcome(Fail(NotFound, "Channel not found"), t)
    else if IsMember(t.members, c, u) then Outcome(Fail(BadRequest, "Already a member"), t)
    else Outcome(Ok("Joined channel successfully"), Tables(t.channels, t.members + [Membership(c, u)]))
  }

  /** Leave: 400 when the caller has no row for the channel (whether or not
      the channel exists), otherwise that one row is deleted. */
  function Leave(t: Tables, c: ChannelId, u: UserId): (o: Outcome<string>)
    ensures o.after.channels == t.channels
    ensures o.reply.Ok? <==> IsMember(t.members, c, u)
    ensures o.reply.Fail? ==> o.reply == Fail(BadRequest, "You are not a member") && o.after == t
    ensures o.reply.Ok? ==> multiset(o.after.members) == multiset(t.members) - multiset{Membership(c, u)}
  {
    if !IsMember(t.members, c, u) then Outcome(Fail(BadRequest, "You are not a member"), t)
    else Outcome(Ok("Left channel successfully"), Tables(t.channels, RemoveFirst(t.members, Membership(c, u))))
  }

  /** Joining keeps (channel, user) rows unique and makes the caller a member. */
  lemma JoinKeepsValid(t: Tables, c: ChannelId, u: UserId)
    requires Consistent(t)
    ensures Consistent(Join(t, c, u).after)
    ensures Join(t, c, u).reply.Ok? || Join(t, c, u).reply.status == BadRequest ==> IsMember(Join(t, c, u).after.members, c, u)
  {
    if Join(t, c, u).reply.Ok? {
      AppendFreshNoDup(t.members, Membership(c, u));
    }
  }

  /** Leaving keeps the tables valid and leaves no row for the pair behind;
      every other row survives. */
  lemma LeaveKeepsValid(t: Tables, c: ChannelId, u: UserId)
    requires Consistent(t)
    ensures Consistent(Leave(t, c, u).after)
    ensures !IsMember(Leave(t, c, u).after.members, c, u)
    ensures forall m :: m in t.members && m != Membership(c, u) ==> m in Leave(t, c, u).after.members
  {
    var o := Leave(t, c, u);
    if o.reply.Ok? {
      RemoveFirstNoDup(t.members, Membership(c, u));
      RemoveFirstMembers(t.members, Membership(c, u));
    }
  }

  /** A successful join followed by a leave of the same pair restores the
      membership table exactly. */
  lemma {:induction false} JoinThenLeaveRestores(t: Tables, c: ChannelId, u: UserId)
    requires Join(t, c, u).reply.Ok?
    ensures Leave(Join(t, c, u).after, c, u).reply.Ok?
    ensures Leave(Join(t, c, u).after, c, u).after == t
  {
    RemoveAppended(t.members, Membership(c, u));
  }

  // ---------------------------------------------------------------------
  // getMyChannels
  // ---------------------------------------------------------------------

  /** The caller's rows, in table order (`find({user})`). */
  function UserRows(members: seq<Membership>, u: UserId): (r: seq<Membership>)
    ensures forall m :: m in r <==> m in members && m.user == u
  {
    if members == [] then []
    else
      var rest := UserRows(members[1..], u);
      assert members == [members[0]] + members[1..];
      if members[0].user == u then [members[0]] + rest else rest
  }

  /** `find({user})` returns each of the caller's rows exactly as often as
      the table holds it, and no other row. */
  lemma {:induction false} UserRowsCount(members: seq<Membership>, u: UserId, m: Membership)
    ensures multiset(UserRows(members, u))[m] == if m.user == u then multiset(members)[m] else 0
  {
    if members != [] {
      UserRowsCount(members[1..], u, m);
      assert members == [members[0]] + members[1..];
    }
  }

  /** `find({user})` keeps table order: a row appended to the table is
      appended to the result when it is the caller's. */
  lemma {:induction false} UserRowsAppend(members: seq<Membership>, m: Membership, u: UserId)
    ensures UserRows(members + [m], u) == UserRows(members, u) + (if m.user == u then [m] else [])
  {
    if members != [] {
      assert (members + [m])[1..] == members[1..] + [m];
      UserRowsAppend(members[1..], m, u);
    }
  }

  /** The number of rows for channel `c` (`countDocuments({channel})`). */
  function MemberCount(members: seq<Membership>, c: ChannelId): (n: nat)
    ensures n <= |members|
    ensures n == 0 <==> forall m :: m in members ==> m.channel != c
  {
    if members == [] then 0
    else
      assert members == [members[0]] + members[1..];
      (if members[0].channel == c then 1 else 0) + MemberCount(members[1..], c)
  }

  /** The "my channels" query: one summary per row of the caller, in row
      order, each with the channel's document fields and its row count. */
  function MyChannels(t: Tables, u: UserId): (r: seq<ChannelSummary>)
    requires forall m :: m in t.members ==> m.channel in t.channels
    ensures |r| == |UserRows(t.members, u)|
    ensures forall i :: 0 <= i < |r| ==>
              && r[i].id == UserRows(t.members, u)[i].channel
              && IsMember(t.members, r[i].id, u)
              && r[i].id in t.channels
              && r[i].name == t.channels[r[i].id].name
              && r[i].description == t.channels[r[i].id].description
              && r[i].memberCount == MemberCount(t.members, r[i].id) >= 1
    ensures forall c :: IsMember(t.members, c, u) ==> exists i :: 0 <= i < |r| && r[i].id == c
  {
    var rows := UserRows(t.members, u);
    var r := seq(|rows|, i requires 0 <= i < |rows| =>
      var c := rows[i].channel;
      assert rows[i] in t.members;
      ChannelSummary(c, t.channels[c].name, t.channels[c].description, MemberCount(t.members, c)));
    assert forall c :: IsMember(t.members, c, u) ==> Membership(c, u) in rows;
    assert forall i :: 0 <= i < |rows| ==> rows[i] == Membership(r[i].id, u);
    r
  }

  /** A successful join adds exactly one to the channel's member count and
      leaves every other channel's count alone. */
  lemma {:induction false} JoinCountsOneMore(t: Tables, c: ChannelId, u: UserId, d: ChannelId)
    requires Join(t, c, u).reply.Ok?
    ensures MemberCount(Join(t, c, u).after.members, d) == MemberCount(t.members, d) + if d == c then 1 else 0
  {
    CountAppend(t.members, Membership(c, u), d);
  }

  lemma {:induction false} CountAppend(s: seq<Membership>, m: Membership, d: ChannelId)
    ensures MemberCount(s + [m], d) == MemberCount(s, d) + if m.channel == d then 1 else 0
  {
    if s != [] {
      assert (s + [m])[1..] == s[1..] + [m];
      CountAppend(s[1..], m, d);
    }
  }

  // ---------------------------------------------------------------------
  // The tables as the handlers update them in place
  // ---------------------------------------------------------------------

  /** The two collections, updated in place by the create/join/leave
      handlers; `nextId` stands for the store's fresh-id allocation. */
  class ChannelDb {
    var channels: map<ChannelId, Channel>
    var members: seq<Membership>
    var nextId: ChannelId

    ghost predicate Valid()
      reads this
    {
      && Consistent(Tables(channels, members))
      && forall c :: c in channels ==> c < nextId
    }

    function Snapshot(): (t: Tables)
      reads this
      ensures t.channels == channels && t.members == members
    {
      Tables(channels, members)
    }

    constructor ()
      ensures Valid() && channels == map[] && members == []
    {
      channels, members, nextId := map[], [], 0;
    }

    method CreateChannel(name: Option<string>, description: Option<string>, user: UserId) returns (r: Reply<ChannelId>)
      requires Valid()
      modifies this
      ensures Valid()
      ensures Outcome(r, Snapshot()) == Create(old(Snapshot()), old(nextId), name, description, user)
      ensures r.Fail? ==> nextId == old(nextId)
      ensures r.Ok? ==> r.body == old(nextId) && nextId == old(nextId) + 1
    {
      if !Truthy(name) {
        r := Fail(BadRequest, "Name is required");
        return;
      }
      CreateKeepsValid(Snapshot(), nextId, name, description, user);
      var id := nextId;
      channels := channels[id := Channel(name.value, description, Some(user))];
      members := members + [Membership(id, user)];
      nextId := nextId + 1;
      r := Ok(id);
    }

    method JoinChannel(c: ChannelId, user: UserId) returns (r: Reply<string>)
      requires Valid()
      modifies this
      ensures Valid() && nextId == old(nextId)
      ensures Outcome(r, Snapshot()) == Join(old(Snapshot()), c, user)
    {
      JoinKeepsValid(Snapshot(), c, user);
      if c !in channels {
        return Fail(NotFound, "Channel not found");
      }
      if Membership(c, user) in members {
        return Fail(BadRequest, "Already a member");
      }
      members := members + [Membership(c, user)];
      r := Ok("Joined channel successfully");
    }

    method LeaveChannel(c: ChannelId, user: UserId) returns (r: Reply<string>)
      requires Valid()
      modifies this
      ensures Valid() && nextId == old(nextId)
      ensures Outcome(r, Snapshot()) == Leave(old(Snapshot()), c, user)
    {
      LeaveKeepsValid(Snapshot(), c, user);
      if Membership(c, user) !in members {
        return Fail(BadRequest, "You are not a member");
      }
      members := RemoveFirst(members, Membership(c, user));
      r := Ok("Left channel successfully");
    }
  }
}
