/**
 * Room membership: the participant lists of `chatRooms`
 * (src/services/websocket.service.ts, join_chat, leave_chat and disconnect).
 */
module Rooms {
  import opened Wrappers
  import opened JsMaps
  import opened WsTypes
  import opened Events

  /** Some entry belongs to `userId`. */
  predicate HasUser(users: seq<WebSocketUser>, userId: UserId) {
    exists p :: p in users && p.userId == userId
  }

  /** No user has two entries. */
  predicate UniqueUsers(users: seq<WebSocketUser>) {
    forall i, j :: 0 <= i < j < |users| ==> users[i].userId != users[j].userId
  }

  /** `i` is the position of the first entry that belongs to `userId`. */
  predicate FirstMatchAt(users: seq<WebSocketUser>, userId: UserId, i: int) {
    && 0 <= i < |users|
    && users[i].userId == userId
    && forall j :: 0 <= j < i ==> users[j].userId != userId
  }

  /** The position `users.find(u => u.userId === userId)` stops at. */
  function FindFirst(users: seq<WebSocketUser>, userId: UserId): (r: Option<nat>)
    ensures r.None? <==> !HasUser(users, userId)
    ensures r.Some? ==> FirstMatchAt(users, userId, r.value)
  {
    if users == [] then None
    else if users[0].userId == userId then Some(0)
    else match FindFirst(users[1..], userId)
      case None => None
      case Some(i) => Some(i + 1)
  }

  /** `users.filter(p => p.userId !== userId)`. */
  function WithoutUser(users: seq<WebSocketUser>, userId: UserId): (r: seq<WebSocketUser>)
    ensures forall p :: p in r <==> p in users && p.userId != userId
    ensures |r| <= |users|
    ensures |r| == |users| <==> !HasUser(users, userId)
  {
    if users == [] then []
    else if users[0].userId == userId then WithoutUser(users[1..], userId)
    else [users[0]] + WithoutUser(users[1..], userId)
  }

  /** `users.filter(p => p.socketId !== socketId)`. */
  function WithoutSocket(users: seq<WebSocketUser>, socketId: SocketId): (r: seq<WebSocketUser>)
    ensures forall p :: p in r <==> p in users && p.socketId != socketId
    ensures |r| <= |users|
  {
    if users == [] then []
    else if users[0].socketId == socketId then WithoutSocket(users[1..], socketId)
    else [users[0]] + WithoutSocket(users[1..], socketId)
  }

  /** The tail of a list without duplicate users has none, and lacks the head's user. */
  lemma UniqueUsersTail(users: seq<WebSocketUser>)
    requires users != [] && UniqueUsers(users)
    ensures UniqueUsers(users[1..]) && !HasUser(users[1..], users[0].userId)
  {
    forall p | p in users[1..] ensures p.userId != users[0].userId {
      var k :| 0 <= k < |users[1..]| && users[1..][k] == p;
      assert users[k + 1] == p;
    }
  }

  /** Putting a user in front of a list that lacks them keeps users unique. */
  lemma UniqueUsersCons(u: WebSocketUser, users: seq<WebSocketUser>)
    requires UniqueUsers(users) && !HasUser(users, u.userId)
    ensures UniqueUsers([u] + users)
  {
    var s := [u] + users;
    forall i, j | 0 <= i < j < |s| ensures s[i].userId != s[j].userId {
      if i == 0 {
        assert s[j] == users[j - 1] && s[j] in users;
      } else {
        assert s[i] == users[i - 1] && s[j] == users[j - 1];
      }
    }
  }

  /** Filtering by user never creates a duplicate. */
  lemma {:induction false} WithoutUserKeepsUnique(users: seq<WebSocketUser>, userId: UserId)
    ensures UniqueUsers(users) ==> UniqueUsers(WithoutUser(users, userId))
  {
    if users != [] && UniqueUsers(users) {
      UniqueUsersTail(users);
      WithoutUserKeepsUnique(users[1..], userId);
      if users[0].userId != userId {
        UniqueUsersCons(users[0], WithoutUser(users[1..], userId));
      }
    }
  }

  /** Filtering by socket never creates a duplicate. */
  lemma {:induction false} WithoutSocketKeepsUnique(users: seq<WebSocketUser>, socketId: SocketId)
    ensures UniqueUsers(users) ==> UniqueUsers(WithoutSocket(users, socketId))
  {
    if users != [] && UniqueUsers(users) {
      UniqueUsersTail(users);
      WithoutSocketKeepsUnique(users[1..], socketId);
      if users[0].socketId != socketId {
        UniqueUsersCons(users[0], WithoutSocket(users[1..], socketId));
      }
    }
  }

  /**
   * "Add user to room if not already present", checking the user that is
   * pushed: the corrected commit.
   */
  function AddParticipant(users: seq<WebSocketUser>, user: WebSocketUser): (r: seq<WebSocketUser>)
    ensures HasUser(r, user.userId)
    ensures HasUser(users, user.userId) ==> r == users
    ensures forall p :: p in r <==> p in users || (p == user && !HasUser(users, user.userId))
    ensures UniqueUsers(users) ==> UniqueUsers(r)
  {
    if HasUser(users, user.userId) then users else users + [user]
  }

  /**
   * The commit as written: presence is checked for `checkedUserId`, the
   * `socket.data.userId` read before the participant lookup was awaited,
   * while the entry pushed is the socket's current `connectedUsers` entry.
   */
  function AddParticipantAsWritten(users: seq<WebSocketUser>, checkedUserId: UserId, user: WebSocketUser)
    : (r: seq<WebSocketUser>)
    ensures checkedUserId == user.userId ==> r == AddParticipant(users, user)
    ensures HasUser(users, checkedUserId) ==> r == users
    ensures !HasUser(users, checkedUserId) ==> r == users + [user]
  {
    if HasUser(users, checkedUserId) then users else users + [user]
  }

  /**
   * A socket authenticated as "u1" starts joining; before the lookup
   * returns it re-authenticates as "u2", who is already in the room from
   * another socket. The commit as written then lists "u2" twice.
   */
  lemma StaleUserIdAdmitsDuplicate()
    ensures
      var present := WebSocketUser("u2", "s2", "bob", "TRAVELLER", true);
      var reauthenticated := WebSocketUser("u2", "s1", "bob", "TRAVELLER", true);
      && UniqueUsers([present])
      && !UniqueUsers(AddParticipantAsWritten([present], "u1", reauthenticated))
  {
    var present := WebSocketUser("u2", "s2", "bob", "TRAVELLER", true);
    var reauthenticated := WebSocketUser("u2", "s1", "bob", "TRAVELLER", true);
    assert !HasUser([present], "u1");
    var r := AddParticipantAsWritten([present], "u1", reauthenticated);
    assert r[0].userId == r[1].userId;
  }

  /** Every tracked room is keyed by its match and has a participant. */
  ghost predicate RoomsWellFormed(rooms: JsMap<MatchId, ChatRoom>) {
    && rooms.Valid()
    && forall m :: m in rooms.table ==>
         && rooms.table[m].matchId == m
         && rooms.table[m].participants != []
  }

  /** No tracked room lists a user twice. */
  ghost predicate RoomsUnique(rooms: JsMap<MatchId, ChatRoom>) {
    forall m :: m in rooms.table ==> UniqueUsers(rooms.table[m].participants)
  }

  /** `getUsersInChat`: the participants of a tracked room, `[]` otherwise. */
  function Participants(rooms: JsMap<MatchId, ChatRoom>, matchId: MatchId): (ps: seq<WebSocketUser>)
    ensures RoomsWellFormed(rooms) ==> (ps != [] <==> matchId in rooms.table)
    ensures RoomsUnique(rooms) ==> UniqueUsers(ps)
  {
    if matchId in rooms.table then rooms.table[matchId].participants else []
  }

  /** The user has an entry in the room. */
  predicate IsMember(rooms: JsMap<MatchId, ChatRoom>, matchId: MatchId, userId: UserId) {
    HasUser(Participants(rooms, matchId), userId)
  }

  /** Every participant of `after` was already a participant of that room in `before`. */
  ghost predicate MembersWithin(after: JsMap<MatchId, ChatRoom>, before: JsMap<MatchId, ChatRoom>) {
    forall m, p :: m in after.table && p in after.table[m].participants ==>
      m in before.table && p in before.table[m].participants
  }

  /** Rooms other than `matchId` are untouched. */
  ghost predicate OthersUnchanged(after: JsMap<MatchId, ChatRoom>, before: JsMap<MatchId, ChatRoom>, matchId: MatchId) {
    forall k :: k != matchId ==>
      (k in after.table <==> k in before.table) && (k in before.table ==> after.table[k] == before.table[k])
  }

  /** Join commit: create the room if untracked, then add the user unless present. */
  function Join(rooms: JsMap<MatchId, ChatRoom>, matchId: MatchId, user: WebSocketUser): (r: JsMap<MatchId, ChatRoom>)
    requires rooms.Valid()
    ensures r.Valid()
    ensures matchId in r.table && IsMember(r, matchId, user.userId)
    ensures forall p :: p in Participants(r, matchId) <==>
      p in Participants(rooms, matchId) || (p == user && !IsMember(rooms, matchId, user.userId))
    ensures IsMember(rooms, matchId, user.userId) ==> r == rooms
    ensures OthersUnchanged(r, rooms, matchId)
    ensures RoomsWellFormed(rooms) ==> RoomsWellFormed(r)
    ensures RoomsUnique(rooms) ==> RoomsUnique(r)
  {
    var room := if matchId in rooms.table then rooms.table[matchId] else ChatRoom(matchId, []);
    assert IsMember(rooms, matchId, user.userId) ==> rooms.table[matchId := room.(participants := room.participants)] == rooms.table;
    rooms.Set(matchId, room.(participants := AddParticipant(room.participants, user)))
  }

  /**
   * The join commit as written: presence is checked for `checkedUserId`,
   * read before the participant lookup was awaited, and the entry pushed is
   * the socket's current `connectedUsers` entry `user`.
   */
  function JoinAsWritten(rooms: JsMap<MatchId, ChatRoom>, matchId: MatchId, checkedUserId: UserId, user: WebSocketUser)
    : (r: JsMap<MatchId, ChatRoom>)
    requires rooms.Valid()
    ensures r.Valid()
    ensures matchId in r.table
    ensures forall p :: p in Participants(r, matchId) <==>
      p in Participants(rooms, matchId) || (p == user && !IsMember(rooms, matchId, checkedUserId))
    ensures IsMember(rooms, matchId, checkedUserId) ==> r == rooms
    ensures checkedUserId == user.userId ==> r == Join(rooms, matchId, user)
    ensures OthersUnchanged(r, rooms, matchId)
    ensures RoomsWellFormed(rooms) ==> RoomsWellFormed(r)
  {
    var room := if matchId in rooms.table then rooms.table[matchId] else ChatRoom(matchId, []);
    assert IsMember(rooms, matchId, checkedUserId) ==> rooms.table[matchId := room.(participants := room.participants)] == rooms.table;
    rooms.Set(matchId, room.(participants := AddParticipantAsWritten(room.participants, checkedUserId, user)))
  }

  /** leave_chat: drop every entry of the user; delete the room once it is empty. */
  function Leave(rooms: JsMap<MatchId, ChatRoom>, matchId: MatchId, userId: UserId): (r: JsMap<MatchId, ChatRoom>)
    requires rooms.Valid()
    ensures r.Valid()
    ensures matchId !in rooms.table ==> r == rooms
    ensures !IsMember(r, matchId, userId)
    ensures forall p :: p in Participants(r, matchId) <==> p in Participants(rooms, matchId) && p.userId != userId
    ensures matchId in rooms.table ==>
      (matchId in r.table <==> exists p :: p in rooms.table[matchId].participants && p.userId != userId)
    ensures OthersUnchanged(r, rooms, matchId)
    ensures MembersWithin(r, rooms)
    ensures RoomsWellFormed(rooms) ==> RoomsWellFormed(r)
    ensures RoomsUnique(rooms) ==> RoomsUnique(r)
  {
    if matchId !in rooms.table then rooms
    else
      var room := rooms.table[matchId];
      var remaining := WithoutUser(room.participants, userId);
      WithoutUserKeepsUnique(room.participants, userId);
      assert remaining != [] ==> remaining[0] in remaining;
      if |remaining| == 0 then rooms.Delete(matchId)
      else rooms.Set(matchId, room.(participants := remaining))
  }

  /** No room named in `keys` holds the socket `socketId` any more. */
  ghost predicate SocketGoneFrom(r: JsMap<MatchId, ChatRoom>, keys: seq<MatchId>, socketId: SocketId) {
    forall m, p :: m in keys && m in r.table && p in r.table[m].participants ==> p.socketId != socketId
  }

  /** Every participant of `before` on another socket is still in its room in `after`. */
  ghost predicate KeepsOthers(after: JsMap<MatchId, ChatRoom>, before: JsMap<MatchId, ChatRoom>, socketId: SocketId) {
    forall m, p :: m in before.table && p in before.table[m].participants && p.socketId != socketId ==>
      m in after.table && p in after.table[m].participants
  }

  lemma KeepsOthersTrans(a: JsMap<MatchId, ChatRoom>, b: JsMap<MatchId, ChatRoom>, c: JsMap<MatchId, ChatRoom>, socketId: SocketId)
    requires KeepsOthers(b, a, socketId) && KeepsOthers(c, b, socketId)
    ensures KeepsOthers(c, a, socketId)
  {
  }

  lemma MembersWithinTrans(a: JsMap<MatchId, ChatRoom>, b: JsMap<MatchId, ChatRoom>, c: JsMap<MatchId, ChatRoom>)
    requires MembersWithin(b, a) && MembersWithin(c, b)
    ensures MembersWithin(c, a)
  {
  }

  /** One turn of disconnect's loop over the rooms: the socket leaves room `matchId`, which is deleted once empty. */
  function DropSocketIn(rooms: JsMap<MatchId, ChatRoom>, matchId: MatchId, socketId: SocketId): (r: JsMap<MatchId, ChatRoom>)
    requires rooms.Valid()
    ensures r.Valid()
    ensures forall p :: p in Participants(r, matchId) ==> p.socketId != socketId
    ensures KeepsOthers(r, rooms, socketId)
    ensures MembersWithin(r, rooms)
    ensures OthersUnchanged(r, rooms, matchId)
    ensures RoomsWellFormed(rooms) ==> RoomsWellFormed(r)
    ensures RoomsUnique(rooms) ==> RoomsUnique(r)
  {
    if matchId !in rooms.table then rooms
    else
      var room := rooms.table[matchId];
      var remaining := WithoutSocket(room.participants, socketId);
      WithoutSocketKeepsUnique(room.participants, socketId);
      var updated := rooms.Set(matchId, room.(participants := remaining));
      if |remaining| == 0 then updated.Delete(matchId) else updated
  }

  /** Disconnect's loop over the rooms, from the room `keys[0]` on. */
  function DropSocketFrom(rooms: JsMap<MatchId, ChatRoom>, keys: seq<MatchId>, socketId: SocketId): (r: JsMap<MatchId, ChatRoom>)
    requires rooms.Valid()
    ensures r.Valid()
    decreases |keys|
  {
    if keys == [] then rooms
    else DropSocketFrom(DropSocketIn(rooms, keys[0], socketId), keys[1..], socketId)
  }

  /**
   * After the rooms in `keys` are handled, none of them holds the socket,
   * every other participant is where it was, and nobody new appears.
   */
  lemma {:induction false} DropSocketFromFacts(rooms: JsMap<MatchId, ChatRoom>, keys: seq<MatchId>, socketId: SocketId)
    requires rooms.Valid()
    ensures SocketGoneFrom(DropSocketFrom(rooms, keys, socketId), keys, socketId)
    ensures KeepsOthers(DropSocketFrom(rooms, keys, socketId), rooms, socketId)
    ensures MembersWithin(DropSocketFrom(rooms, keys, socketId), rooms)
    ensures RoomsWellFormed(rooms) ==> RoomsWellFormed(DropSocketFrom(rooms, keys, socketId))
    ensures RoomsUnique(rooms) ==> RoomsUnique(DropSocketFrom(rooms, keys, socketId))
    decreases |keys|
  {
    if keys != [] {
      var next := DropSocketIn(rooms, keys[0], socketId);
      DropSocketFromFacts(next, keys[1..], socketId);
      var r := DropSocketFrom(next, keys[1..], socketId);
      assert DropSocketFrom(rooms, keys, socketId) == r;
      KeepsOthersTrans(rooms, next, r, socketId);
      MembersWithinTrans(rooms, next, r);
      forall m, p | m in keys && m in r.table && p in r.table[m].participants
        ensures p.socketId != socketId
      {
        if m == keys[0] {
          assert p in Participants(next, m);
        } else {
          assert m in keys[1..];
        }
      }
    }
  }

  /** One step of the fold: the room at position `i` is handled first, then the rest. */
  lemma DropSocketFromStep(rooms: JsMap<MatchId, ChatRoom>, keys: seq<MatchId>, i: nat, socketId: SocketId)
    requires rooms.Valid() && i < |keys|
    ensures DropSocketFrom(rooms, keys[i..], socketId)
      == DropSocketFrom(DropSocketIn(rooms, keys[i], socketId), keys[i + 1..], socketId)
  {
    assert keys[i..][0] == keys[i] && keys[i..][1..] == keys[i + 1..];
  }

  /** Disconnect cleanup: the socket leaves every room, in iteration order, and emptied rooms are deleted. */
  function DropSocket(rooms: JsMap<MatchId, ChatRoom>, socketId: SocketId): (r: JsMap<MatchId, ChatRoom>)
    requires rooms.Valid()
    ensures r.Valid()
  {
    DropSocketFrom(rooms, rooms.order, socketId)
  }

  /**
   * After disconnect cleanup no room holds the socket, every other
   * participant stays where it was, nobody new appears, and the rooms stay
   * well formed.
   */
  lemma DropSocketFacts(rooms: JsMap<MatchId, ChatRoom>, socketId: SocketId)
    requires rooms.Valid()
    ensures var r := DropSocket(rooms, socketId);
      && (forall m, p :: m in r.table && p in r.table[m].participants ==> p.socketId != socketId)
      && KeepsOthers(r, rooms, socketId)
      && MembersWithin(r, rooms)
      && (RoomsWellFormed(rooms) ==> RoomsWellFormed(r))
      && (RoomsUnique(rooms) ==> RoomsUnique(r))
  {
    DropSocketGone(rooms, socketId);
    DropSocketFromFacts(rooms, rooms.order, socketId);
  }

  /** Every surviving room was tracked before, so the fold visited it. */
  lemma DropSocketGone(rooms: JsMap<MatchId, ChatRoom>, socketId: SocketId)
    requires rooms.Valid()
    ensures var r := DropSocket(rooms, socketId);
      forall m, p :: m in r.table && p in r.table[m].participants ==> p.socketId != socketId
  {
    var r := DropSocketFrom(rooms, rooms.order, socketId);
    DropSocketFromFacts(rooms, rooms.order, socketId);
    forall m, p | m in r.table && p in r.table[m].participants
      ensures p.socketId != socketId
    {
      assert m in rooms.table;
      assert m in rooms.order;
    }
  }

  /** The `user_left_chat` notice disconnect sends to each tracked room, in iteration order. */
  function LeftNotices(keys: seq<MatchId>, socketId: SocketId, userId: UserId): (r: seq<Effect>)
    ensures |r| == |keys|
    ensures forall i :: 0 <= i < |keys| ==> r[i] == Emit(RoomExceptSender(keys[i], socketId), UserLeftChat(keys[i], userId))
  {
    if keys == [] then []
    else
      var last := keys[|keys| - 1];
      LeftNotices(keys[..|keys| - 1], socketId, userId) + [Emit(RoomExceptSender(last, socketId), UserLeftChat(last, userId))]
  }

  /** The notices for the first `i + 1` rooms extend those for the first `i` by the notice for room `i`. */
  lemma LeftNoticesSnoc(keys: seq<MatchId>, i: nat, socketId: SocketId, userId: UserId)
    requires i < |keys|
    ensures LeftNotices(keys[..i + 1], socketId, userId)
      == LeftNotices(keys[..i], socketId, userId) + [Emit(RoomExceptSender(keys[i], socketId), UserLeftChat(keys[i], userId))]
  {
    assert keys[..i + 1][..i] == keys[..i];
  }

  /** Disconnect tells each tracked room exactly once that the user left, and nobody else. */
  lemma {:induction false} LeftNoticeOncePerRoom(keys: seq<MatchId>, socketId: SocketId, userId: UserId, m: MatchId)
    requires Distinct(keys)
    ensures |LeftNotices(keys, socketId, userId)| == |keys|
    ensures multiset(LeftNotices(keys, socketId, userId))[Emit(RoomExceptSender(m, socketId), UserLeftChat(m, userId))]
      == if m in keys then 1 else 0
  {
    if keys != [] {
      var front := keys[..|keys| - 1];
      var last := keys[|keys| - 1];
      assert keys == front + [last];
      DistinctInit(keys);
      LeftNoticeOncePerRoom(front, socketId, userId, m);
    }
  }

  /** One room request from the same user, in the order they complete. */
  datatype RoomOp = JoinOp(user: WebSocketUser) | LeaveOp(userId: UserId)

  function OpUser(op: RoomOp): UserId {
    match op
    case JoinOp(u) => u.userId
    case LeaveOp(u) => u
  }

  function ApplyOp(rooms: JsMap<MatchId, ChatRoom>, matchId: MatchId, op: RoomOp): (r: JsMap<MatchId, ChatRoom>)
    requires rooms.Valid()
    ensures r.Valid()
  {
    match op
    case JoinOp(u) => Join(rooms, matchId, u)
    case LeaveOp(u) => Leave(rooms, matchId, u)
  }

  function ApplyOps(rooms: JsMap<MatchId, ChatRoom>, matchId: MatchId, ops: seq<RoomOp>): (r: JsMap<MatchId, ChatRoom>)
    requires rooms.Valid()
    ensures r.Valid()
    decreases |ops|
  {
    if ops == [] then rooms else ApplyOps(ApplyOp(rooms, matchId, ops[0]), matchId, ops[1..])
  }

  /** One join makes its user a member; one leave makes its user none. */
  lemma ApplyOpDecides(rooms: JsMap<MatchId, ChatRoom>, matchId: MatchId, op: RoomOp)
    requires rooms.Valid()
    ensures IsMember(ApplyOps(rooms, matchId, [op]), matchId, OpUser(op)) <==> op.JoinOp?
  {
    assert [op][1..] == [];
    match op
    case JoinOp(u) =>
    case LeaveOp(u) =>
  }

  /** After any run of joins and leaves by one user, the user is a member iff the last one was a join. */
  lemma {:induction false} LastOpDecides(rooms: JsMap<MatchId, ChatRoom>, matchId: MatchId, userId: UserId, ops: seq<RoomOp>)
    requires rooms.Valid() && ops != []
    requires forall op :: op in ops ==> OpUser(op) == userId
    ensures IsMember(ApplyOps(rooms, matchId, ops), matchId, userId) <==> ops[|ops| - 1].JoinOp?
    decreases |ops|
  {
    assert ops[0] in ops;
    if |ops| == 1 {
      ApplyOpDecides(rooms, matchId, ops[0]);
      assert ops == [ops[0]];
    } else {
      var next := ApplyOp(rooms, matchId, ops[0]);
      var rest := ops[1..];
      assert forall op :: op in rest ==> op in ops;
      assert rest[|rest| - 1] == ops[|ops| - 1];
      assert ApplyOps(rooms, matchId, ops) == ApplyOps(next, matchId, rest);
      LastOpDecides(next, matchId, userId, rest);
    }
  }
}
