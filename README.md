# mini-chat-application backend core, in Dafny

This project models the logic at the centre of the chat backend and proves
properties about it:

- **Presence and event relay** (`backend/src/server.js`). The `onlineUsers`
  map counts references. `identify` creates an entry with count 1 or adds one
  to the count, and refreshes the name. `disconnect` subtracts one from the
  count, or deletes the entry once the count is 1 or less. After each change
  the roster `[{userId, name}]` goes to every connection, in the map's
  insertion order. `typing`/`stop-typing` go to the room minus the sender;
  `new-message` goes to the whole room. The model is the class
  `Presence.ChatServer`: it holds the map as a key order plus a
  `map<UserId, Entry>`, the set of live connections, and per-connection
  `Socket` objects with `userId` and `rooms` fields. The pure functions
  `Register`, `Unregister` and `Roster` on a `Registry` value specify it.
- **Message history and posting** (`backend/src/controllers/messageController.js`).
  `Messages.GetMessages` is the paginated query. It defaults `page`/`limit`,
  answers 403 to a non-member, counts the channel's messages, and takes the
  newest-first window `[skip, skip + limit)` turned back to oldest first.
  It also computes `hasMore`. `Messages.MessageLog.SendMessage` is the post
  handler. It rejects missing or whitespace-only text, then non-members, and
  otherwise appends one message with the trimmed text. `String.prototype.trim`
  is modelled over the ECMAScript whitespace and line-terminator characters.
- **Channels and memberships** (`backend/src/controllers/channelController.js`).
  The class `Channels.ChannelDb` holds the channel collection, the membership
  rows and a fresh-id counter. Its create/join/leave methods equal the pure
  functions `Create`, `Join` and `Leave` on a `Tables` value. Its create is
  the corrected one, which stores the requester as `createdBy` (see
  "## Findings"); `CreateAsWritten` models the handler as written. `MyChannels` is
  the "my channels" query with per-channel member counts.

Message order: the store's `createdAt` stamp is an abstract counter that
grows strictly with each insert (`MessageLog.clock`). The model therefore
has no ties for the unstable `sort({createdAt: -1})` to break.

Query values: `parseInt(q, 10) || d` is modelled on an `Option<int>`. `None`
stands for a missing or non-numeric value. Negative values pass the default,
as they do in the handler. Two store behaviours are assumed for them.
MongoDB rejects a negative `skip`, and the handler's catch turns that into
500 "Server error". The MongoDB Node driver takes a negative `limit` as its
absolute value.

One presence behaviour is proved as written rather than corrected
(`Presence.IdentifyTwiceDisconnectOnce`). Identify and disconnect are not
paired per connection. So a connection that identifies twice and disconnects
once leaves its user online for good.

## Model

| member | source | states |
|---|---|---|
| Common.RemoveFirst | backend/src/controllers/channelController.js:100-103 | deleting one row keeps every other row: the multiset of rows loses exactly one copy of the pair, and nothing changes when the pair is absent |
| Common.Truthy | backend/src/controllers/channelController.js:9 | JavaScript truthiness of an optional string, used by `!name` here, `!text` (messageController.js:53) and `if (socket.userId)` (server.js:108): a missing or empty string is falsy, any other string is truthy |
| Common.RemoveFirstAt | backend/src/server.js:113 | removing the first occurrence, at index `i`, cuts out exactly that element and keeps everything before and after it in order |
| Channels.IsMember | backend/src/controllers/channelController.js:65-72 | the membership lookup `findOne({channel, user})` finds a row iff some row names both that channel and that user |
| Channels.SchemaAccepts | backend/src/models/Channel.js:5-7 | the channel schema accepts a document iff its name is non-empty and `createdBy` is present; missing either is rejected |
| Channels.CreateWith | backend/src/controllers/channelController.js:9-22 | the shared create path: no name gives 400 "Name is required" with tables unchanged; a name without a creator fails validation and gives 500 "Server error" with tables unchanged; success iff a name and a creator are given, and then the answer is the new id, the channel is stored with its name, description and creator, and one (new channel, creator) row is appended |
| Channels.CreateAsWritten | backend/src/controllers/channelController.js:5-24 | as written, every create fails and inserts nothing: 400 without a name, 500 with one (the schema's required `createdBy` is never supplied) |
| Channels.Create | backend/src/controllers/channelController.js:9-17 | corrected create: a missing or empty name gives 400 and leaves the tables unchanged; otherwise the new channel is stored with the creator as `createdBy` and exactly one row (new channel, creator) is appended |
| Channels.CreateKeepsValid | backend/src/controllers/channelController.js:11-17 | create keeps rows unique and every row's channel existing, and a successful create makes the creator a member |
| Channels.Join | backend/src/controllers/channelController.js:56-84 | success iff the channel exists and the caller has no row; 404 "Channel not found" for an unknown channel, 400 "Already a member" for a member, tables unchanged on failure, exactly one row appended on success, channels never change |
| Channels.JoinKeepsValid | backend/src/controllers/channelController.js:65-77 | join keeps (channel, user) rows unique and every row's channel existing; after success or "Already a member" the caller is a member |
| Channels.Leave | backend/src/controllers/channelController.js:85-110 | success iff the caller has a row, whether or not the channel exists; 400 "You are not a member" with tables unchanged otherwise; on success the multiset of rows loses exactly that pair |
| Channels.LeaveKeepsValid | backend/src/controllers/channelController.js:90-103 | leave keeps the tables consistent, leaves no row for the pair and keeps every other row |
| Channels.JoinThenLeaveRestores | backend/src/controllers/channelController.js:74-103 | a successful join followed by a leave of the same pair succeeds and restores the tables exactly |
| Channels.UserRows | backend/src/controllers/channelController.js:29-31 | the selected rows are exactly the caller's rows |
| Channels.UserRowsCount | backend/src/controllers/channelController.js:29-31 | `find({user})` returns each of the caller's rows exactly as many times as the table holds it, and no row of another user |
| Channels.UserRowsAppend | backend/src/controllers/channelController.js:29-31 | `find({user})` keeps table order: appending a row to the table appends it to the caller's result when it is the caller's, and leaves the result unchanged otherwise |
| Channels.MemberCount | backend/src/controllers/channelController.js:35-37 | a channel's count is bounded by the table size and is zero exactly when no row names the channel |
| Channels.MyChannels | backend/src/controllers/channelController.js:27-53 | one summary per caller row, in row order, each naming a channel the caller belongs to, with the channel's stored name and description and its row count (at least 1); every channel the caller belongs to is listed |
| Channels.JoinCountsOneMore | backend/src/controllers/channelController.js:74-77 | a successful join adds exactly one to the joined channel's member count and leaves every other count unchanged |
| Channels.ChannelDb.CreateChannel | backend/src/controllers/channelController.js:5-24 | the in-place corrected create (storing the requester as `createdBy`) equals `Create` on the tables before it, with the fresh id, and keeps the tables valid; a failure leaves the id counter unchanged, and a success answers the old counter value and advances it by one |
| Channels.ChannelDb.JoinChannel | backend/src/controllers/channelController.js:56-84 | the in-place join equals `Join` on the tables before it and keeps them valid |
| Channels.ChannelDb.LeaveChannel | backend/src/controllers/channelController.js:85-110 | the in-place leave equals `Leave` on the tables before it and keeps them valid |
| Messages.History | backend/src/controllers/messageController.js:22-24 | the channel's history holds exactly the log's messages of that channel |
| Messages.HistoryChronological | backend/src/controllers/messageController.js:24-25 | the history of a log in stamp order is in stamp order |
| Messages.NewestFirst | backend/src/controllers/messageController.js:25 | reversing an ascending history gives strictly newest-first order |
| Messages.QueryInt | backend/src/controllers/messageController.js:8-9 | a missing, non-numeric or zero parameter takes the default, any other value is kept, and with a non-zero default the result is never 0 |
| Messages.SkipSign | backend/src/controllers/messageController.js:10 | `(page - 1) * limit` is negative exactly for a page below 1 with a positive limit, or a page above 1 with a negative limit |
| Messages.GetMessages | backend/src/controllers/messageController.js:5-45 | 403 "Not a member of this channel" iff the caller is not a member; 500 for a member whose skip is negative; otherwise `page` and `limit` are echoed, `total` is the channel's message count and `hasMore` holds iff `page * limit < total` |
| Messages.ForbiddenReadsNoMessages | backend/src/controllers/messageController.js:13-22 | a non-member's answer does not depend on the message log |
| Messages.Reverse | backend/src/controllers/messageController.js:25-32 | `.reverse()`, and the newest-first order of `sort({createdAt: -1})` over an ascending history: same length, element `i` is element `length - 1 - i` of the input |
| Messages.Window | backend/src/controllers/messageController.js:26-27 | `skip(skip).limit(limit)` yields `min(limit, max(0, length - skip))` elements |
| Messages.NewestWindow | backend/src/controllers/messageController.js:24-32 | the reversed newest-first window holds `min(size, max(0, total - skip))` messages |
| Messages.ReversedWindowIsBlock | backend/src/controllers/messageController.js:24-32 | windowing the newest-first order at `[skip, skip + limit)` and reversing gives the contiguous ascending block that ends `skip` messages before the newest |
| Messages.PageWindowIsBlock | backend/src/controllers/messageController.js:10-32 | page `p` is the ascending block between the newest `p * limit` and the newest `(p - 1) * limit` messages |
| Messages.GetMessagesPage | backend/src/controllers/messageController.js:10-39 | for a member and an accepted skip, the answer succeeds and its messages are that block, of length `min(|limit|, max(0, total - skip))`, in stamp order; with a positive limit a page past the data is empty with `hasMore` false |
| Messages.HasMoreIffNextPageNonEmpty | backend/src/controllers/messageController.js:39 | for positive page and limit, `page * limit < total` iff the next page has messages |
| Messages.PositivePage | backend/src/controllers/messageController.js:8-40 | for a member and positive page and limit, the answer is the ascending block `h[n - min(page * limit, n) .. n - min((page - 1) * limit, n)]` of the channel's history `h` of `n` messages, with page and limit echoed, total `n`, and `hasMore` true exactly when older messages remain before the block |
| Messages.LoadedIsSuffix | backend/src/controllers/messageController.js:24-32 | pages k, ..., 1 concatenated oldest page first are exactly the newest `min(k * limit, total)` messages in ascending order, with no gap or overlap |
| Messages.PagesReconstructHistory | backend/src/controllers/messageController.js:10-39 | scrolling back until a page answers `hasMore` false rebuilds the whole ascending history, and each answered page is that page's window |
| Messages.FortyFiveMessagesInPagesOfTwenty | backend/src/controllers/messageController.js:8-40 | with 45 messages and the default limit, pages 1, 2 and 3 hold messages 26-45, 6-25 and 1-5 and report `hasMore` true, true, false |
| Messages.Trim | backend/src/controllers/messageController.js:53-70 | the trimmed text is no longer than the text and neither starts nor ends with whitespace |
| Messages.TrimSpec | backend/src/controllers/messageController.js:53 | trim removes only whitespace, from the two ends, and its result neither starts nor ends with whitespace |
| Messages.TrimEmptyIffAllSpace | backend/src/controllers/messageController.js:53 | the trimmed text is empty iff the text is all whitespace |
| Messages.TrimIdempotent | backend/src/controllers/messageController.js:70 | trimming twice equals trimming once |
| Messages.CheckPost | backend/src/controllers/messageController.js:53-65 | missing or whitespace-only text gives 400 "Message text is required" before membership is looked at; then a non-member gets 403; otherwise the text to store is the trimmed text |
| Messages.PostedTextIsTrimmed | backend/src/controllers/messageController.js:67-71 | a stored text is non-empty, has no surrounding whitespace and is its own trim |
| Messages.ReadYourWrite | backend/src/controllers/messageController.js:67-71 | a message just appended is the newest entry of page 1 of its channel for any positive limit |
| Messages.MessageLog.SendMessage | backend/src/controllers/messageController.js:48-80 | on a failed check the log and the stamp counter are unchanged and the same error is answered; otherwise exactly one message is appended with the channel, the requester, the trimmed text and the next stamp, and the counter advances by one; the log stays in stamp order |
| Presence.MapSet | backend/src/server.js:66-76 | `Map.prototype.set`: the entry is stored; an existing key keeps its place in the order, a new key goes last |
| Presence.MapDelete | backend/src/server.js:113 | `Map.prototype.delete`: the key leaves the map and its first occurrence leaves the order; in a map without repeated keys exactly that position is cut and every other key keeps its place |
| Presence.Roster | backend/src/server.js:79-85 | the roster has one item per key, in key order, each naming a user present in the map |
| Presence.Register | backend/src/server.js:64-76 | after identify the user has an entry with the looked-up name, and its count is 1 when new or one more than before; nobody else's entry changes |
| Presence.Unregister | backend/src/server.js:109-120 | an unknown user changes nothing; an entry with count at most 1 is deleted; otherwise the count drops by exactly 1 and the name is kept; nobody else's entry changes; a decrement keeps the key order, and a deletion removes the user's first occurrence from it |
| Presence.RegisterKeepsConsistent | backend/src/server.js:64-76 | identify keeps the map well formed and every count at least 1 |
| Presence.UnregisterKeepsConsistent | backend/src/server.js:111-119 | disconnect keeps the map well formed and every count at least 1 |
| Presence.RosterIsExact | backend/src/server.js:79-85 | the roster lists each map key once, in key order, with that user's stored name, and nothing else |
| Presence.RegisterKeyOrder | backend/src/server.js:64-76 | a repeat identify keeps the key order; a first identify appends the user last |
| Presence.ReturningUserMovesToEnd | backend/src/server.js:64-119 | a user whose entry was deleted and who identifies again comes back at the end of the key order |
| Presence.RegisterThenUnregisterRestores | backend/src/server.js:64-119 | a new user's identify followed by disconnect restores the registry exactly, key order included |
| Presence.IdentifyTwiceDisconnectOnce | backend/src/server.js:57-119 | two identifies then one disconnect leave the user online with one more count than before |
| Presence.ChatServer.constructor | backend/src/server.js:32 | the server starts with an empty map and no connection |
| Presence.ChatServer.Connect | backend/src/server.js:37 | a new connection has no user id and no room and joins the connection set; the map is unchanged |
| Presence.ChatServer.RoomSockets | backend/src/server.js:91-100 | a room's recipients are exactly the live connections that joined it |
| Presence.ChatServer.Identify | backend/src/server.js:57-86 | records the user id first; a failed lookup leaves the map unchanged and emits nothing; otherwise the map becomes `Register` of the old map and its roster goes to every connection; the invariant is kept |
| Presence.ChatServer.Disconnect | backend/src/server.js:105-131 | the connection is gone; with no truthy user id the map is unchanged and nothing is emitted; otherwise the map becomes `Unregister` of the old map (unchanged for a user with no entry) and the roster goes to every remaining connection |
| Presence.ChatServer.JoinChannel | backend/src/server.js:91-93 | the connection enters the room with no membership check, and its user id is unchanged |
| Presence.ChatServer.RelayTyping | backend/src/server.js:43-45 | `typing` reaches exactly the room's connections other than the sender |
| Presence.ChatServer.RelayStopTyping | backend/src/server.js:50-52 | `stop-typing` reaches exactly the room's connections other than the sender |
| Presence.ChatServer.RelayMessage | backend/src/server.js:98-100 | `new-message` reaches exactly the room's connections, the sender included iff it joined the room |
| Presence.TwoConnectionsRegistry | backend/src/server.js:57-131 | one user on two connections moves the registry from empty to count 1, to count 2, back to 1 and back to empty, with rosters `[a]` and `[]` |
| Presence.TwoConnectionsOf | backend/src/server.js:57-86 | a fresh server with two distinct connections of one user, both identified, holds that user alone with count 2 |
| Presence.TwoConnectionsScenario | backend/src/server.js:57-131 | on a fresh server, closing the first of two connections of a user sends the roster `[a]` to exactly the second connection, and closing the second sends an empty roster to nobody |
| Presence.TypingScenario | backend/src/server.js:43-45 | with two connections in a room, the other connection receives the sender's `typing` and the sender does not |

## Findings

| source | as written | input that shows it | evidently intended | confidence | as-written member | corrected member |
|---|---|---|---|---|---|---|
| backend/src/controllers/channelController.js:11 | `Channel.create({ name, description })` leaves out `createdBy`, which `backend/src/models/Channel.js:7` marks as required, so validation fails and the catch answers 500 | any create request with a non-empty name | store the requester as `createdBy`, create the channel and auto-join its creator | not executed | Channels.CreateAsWritten | Channels.Create |

## Left out

- HTTP and Express plumbing, routing, CORS, startup and the auth middleware: wiring only. `req.user.id` is a parameter.
- The user lookup in `identify` is the parameter `lookup`: `None` stands for no user found.
- Malformed or non-ObjectId socket payloads, which crash the process: `await User.findById` at backend/src/server.js:61 rejects with nothing to catch it, and destructuring a non-object payload at backend/src/server.js:43, 50 and 98 throws. The model only takes well-formed payloads.
- Socket.io internals: delivery, acknowledgements, each socket's own private room, and removing a socket from its rooms on disconnect. An `Emit` records only the recipient set and the event. The model takes a disconnected socket as already gone from the connection set before the handler broadcasts.
- Presence.ChatServer.Identify: atomic. The `await` between recording `socket.userId` and updating the map allows a disconnect to interleave; that is not modelled.
- Concurrency between HTTP requests: each handler runs atomically. The membership collection has no unique index, so two concurrent joins could both insert; that race is not modelled.
- MongoDB and Mongoose specifics: `populate("sender", "name")`, `lean`, ObjectId casting and timestamps. Channel ids are naturals and the `createdAt` stamp is an insertion counter. The populated sender name is not part of `Message`.
- Messages.GetMessages: a `page` or `limit` query that `parseInt` reads as a prefix (`"2abc"`) is taken to arrive already parsed. Values beyond the JavaScript safe-integer range are not modelled.
- Request bodies whose `name`, `description` or `text` is not a string: the model takes strings or absent values.
- Channels.MyChannels: requires every membership row to name an existing channel, which the handlers' invariant guarantees. A dangling row would make `m.channel._id` throw and the handler answer 500; that case is not modelled.
- The catch-all 500 branches for store failures, and console logging.
- Channels.ChannelDb.CreateChannel: returns the new channel's id in place of the whole channel document.
- Messages.MessageLog.SendMessage: returns the stored message without the populated sender name, and does not model status 201.
- The relayed `new-message` payload is whatever the client sent; the model gives it the type of a stored message.
- The frontend (React pages, local storage, the typing debounce timer): user interface only.
- `backend/src/controllers/authController.js`: password hashing and token signing are foreign crypto calls.
