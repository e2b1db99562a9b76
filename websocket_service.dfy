/**
 * The chat presence coordinator of src/services/websocket.service.ts.
 * The static maps of `WebSocketService` become the fields of one object;
 * each socket event handler and each public entry point is a method.
 * Database lookups and token verification are answers passed in by the
 * caller; emits are appended to a ghost log.
 */
module Presence {
  import opened Wrappers
  import opened JsMaps
  import opened WsTypes
  import opened Events
  import opened Rooms
  import opened Typing

  /** The outcome of an awaited database query: its answer, or the exception it threw. */
  datatype Query<T> = Answered(value: T) | Threw

  /** The fields `prisma.user.findUnique` selects. */
  datatype UserRecord = UserRecord(id: UserId, username: string, currentRole: string, isVerified: bool)

  datatype AuthOutcome = Accepted(user: UserRecord) | Rejected(message: string)

  /**
   * What the authenticate handler decides, given the token verification
   * (`None` when it throws) and the user lookup.
   */
  function CheckCredentials(decoded: Option<UserId>, found: Query<Option<UserRecord>>): (o: AuthOutcome)
    ensures o.Accepted? <==> decoded.Some? && found.Answered? && found.value.Some? && found.value.value.isVerified
    ensures o.Accepted? ==> found == Answered(Some(o.user))
    ensures o.Rejected? ==> (o.message == InvalidToken <==> decoded.None? || found.Threw?)
    ensures o.Rejected? ==> o.message in {InvalidToken, InvalidOrUnverifiedUser}
  {
    match (decoded, found)
    case (None, _) => Rejected(InvalidToken)
    case (_, Threw) => Rejected(InvalidToken)
    case (_, Answered(None)) => Rejected(InvalidOrUnverifiedUser)
    case (_, Answered(Some(user))) => if user.isVerified then Accepted(user) else Rejected(InvalidOrUnverifiedUser)
  }

  /** A join_chat handler suspended at the participant lookup, with what it read before. */
  datatype PendingJoin = PendingJoin(socketId: SocketId, matchId: MatchId, userId: UserId)

  /** A `setTimeout` callback from start_typing; when it fires it calls `stopTyping`. */
  datatype Expiry = Expiry(socketId: SocketId, matchId: MatchId, userId: UserId)

  /** `socket.data` of a socket; all fields absent before it authenticates. */
  function DataOf(socketData: map<SocketId, SocketData>, socketId: SocketId): SocketData {
    if socketId in socketData then socketData[socketId] else Unauthenticated
  }

  /**
   * What the service keeps true between events: the maps are well formed,
   * each connected socket is filed under its own id with the identity its
   * `socket.data` holds, and every room participant is a connected socket.
   * That no room lists a user twice (`RoomsUnique`) is not part of it: a
   * join committed after its socket re-authenticated can break it.
   */
  ghost predicate ServiceValid(connected: JsMap<SocketId, WebSocketUser>, rooms: JsMap<MatchId, ChatRoom>,
                               typing: JsMap<MatchId, seq<TypingIndicator>>, socketData: map<SocketId, SocketData>)
  {
    && connected.Valid()
    && RoomsWellFormed(rooms)
    && TypingValid(typing)
    && (forall sid :: sid in connected.table ==>
          && connected.table[sid].socketId == sid
          && connected.table[sid].isOnline
          && DataOf(socketData, sid).userId == Some(connected.table[sid].userId)
          && DataOf(socketData, sid).username == Some(connected.table[sid].username))
    && ConnectedMembers(connected, rooms)
  }

  /** No stale members: every participant of every room is a connected socket. */
  ghost predicate ConnectedMembers(connected: JsMap<SocketId, WebSocketUser>, rooms: JsMap<MatchId, ChatRoom>) {
    forall m, p :: m in rooms.table && p in rooms.table[m].participants ==> p.socketId in connected.table
  }

  /** A successful authenticate keeps the invariant, also when the socket was already signed in. */
  lemma AuthenticateKeepsValid(connected: JsMap<SocketId, WebSocketUser>, rooms: JsMap<MatchId, ChatRoom>,
                               typing: JsMap<MatchId, seq<TypingIndicator>>, socketData: map<SocketId, SocketData>,
                               socketId: SocketId, user: UserRecord)
    requires ServiceValid(connected, rooms, typing, socketData)
    ensures ServiceValid(
      connected.Set(socketId, WebSocketUser(user.id, socketId, user.username, user.currentRole, true)), rooms, typing,
      socketData[socketId := SocketData(Some(user.id), Some(user.username), Some(user.currentRole))])
  {
    var c := connected.Set(socketId, WebSocketUser(user.id, socketId, user.username, user.currentRole, true));
    assert c.table.Keys == connected.table.Keys + {socketId};
    assert ConnectedMembers(c, rooms);
  }

  /**
   * Committing a join for a connected socket keeps the invariant, whatever
   * user id the handler read before its await.
   */
  lemma JoinKeepsValid(connected: JsMap<SocketId, WebSocketUser>, rooms: JsMap<MatchId, ChatRoom>,
                       typing: JsMap<MatchId, seq<TypingIndicator>>, socketData: map<SocketId, SocketData>,
                       socketId: SocketId, matchId: MatchId, checkedUserId: UserId)
    requires ServiceValid(connected, rooms, typing, socketData)
    requires socketId in connected.table
    ensures ServiceValid(connected, JoinAsWritten(rooms, matchId, checkedUserId, connected.table[socketId]), typing, socketData)
  {
    var user := connected.table[socketId];
    var r := JoinAsWritten(rooms, matchId, checkedUserId, user);
    forall m, p | m in r.table && p in r.table[m].participants
      ensures p.socketId in connected.table
    {
      if m == matchId {
        assert p in Participants(r, m);
      }
    }
  }

  /** Leaving a room keeps the invariant. */
  lemma LeaveKeepsValid(connected: JsMap<SocketId, WebSocketUser>, rooms: JsMap<MatchId, ChatRoom>,
                        typing: JsMap<MatchId, seq<TypingIndicator>>, socketData: map<SocketId, SocketData>,
                        matchId: MatchId, userId: UserId)
    requires ServiceValid(connected, rooms, typing, socketData)
    ensures ServiceValid(connected, Leave(rooms, matchId, userId), typing, socketData)
  {
  }

  /** Disconnect keeps the invariant: the socket goes, and with it every room entry it had. */
  lemma DisconnectKeepsValid(connected: JsMap<SocketId, WebSocketUser>, rooms: JsMap<MatchId, ChatRoom>,
                             typing: JsMap<MatchId, seq<TypingIndicator>>, socketData: map<SocketId, SocketData>,
                             socketId: SocketId, userId: UserId)
    requires ServiceValid(connected, rooms, typing, socketData)
    ensures ServiceValid(connected.Delete(socketId), DropSocket(rooms, socketId), DropUser(typing, userId), socketData)
  {
    DropSocketFacts(rooms, socketId);
    DropUserFacts(typing, userId);
  }

  class WebSocketService {
    var connectedUsers: JsMap<SocketId, WebSocketUser>
    var chatRooms: JsMap<MatchId, ChatRoom>
    var typingUsers: JsMap<MatchId, seq<TypingIndicator>>
    /** `socket.data` of the sockets that have authenticated. */
    var socketData: map<SocketId, SocketData>
    /** Pending typing expiries, oldest first; they share one delay, so they fire in this order. */
    var timers: seq<Expiry>
    /** `initialize(io)` has stored the server. */
    var ioReady: bool
    /** Every effect so far, oldest first. */
    ghost var log: seq<Effect>

    /** `socket.data` of a socket. */
    function Data(socketId: SocketId): SocketData
      reads this`socketData
    {
      DataOf(socketData, socketId)
    }

    ghost predicate Valid()
      reads this`connectedUsers, this`chatRooms, this`typingUsers, this`socketData
    {
      ServiceValid(connectedUsers, chatRooms, typingUsers, socketData)
    }

    constructor ()
      ensures Valid()
      ensures connectedUsers == Empty() && chatRooms == Empty() && typingUsers == Empty()
      ensures socketData == map[] && timers == [] && !ioReady && log == []
    {
      connectedUsers, chatRooms, typingUsers := Empty(), Empty(), Empty();
      socketData, timers, ioReady := map[], [], false;
      log := [];
    }

    /** `initialize(io)`. */
    method Initialize()
      modifies this`ioReady
      ensures ioReady
    {
      ioReady := true;
    }

    /** The `authenticate` handler. */
    method OnAuthenticate(socketId: SocketId, decoded: Option<UserId>, found: Query<Option<UserRecord>>)
      requires Valid()
      modifies this`connectedUsers, this`socketData, this`log
      ensures Valid()
      ensures match CheckCredentials(decoded, found)
        case Rejected(message) =>
          && connectedUsers == old(connectedUsers) && socketData == old(socketData)
          && log == old(log) + [Emit(ToSocket(socketId), Unauthorized(message)), CloseSocket(socketId)]
        case Accepted(user) =>
          && socketData == old(socketData)[socketId := SocketData(Some(user.id), Some(user.username), Some(user.currentRole))]
          && connectedUsers == old(connectedUsers).Set(socketId, WebSocketUser(user.id, socketId, user.username, user.currentRole, true))
          && log == old(log) + [Emit(AllExceptSender(socketId), UserOnline(user.id, true))]
    {
      if decoded.None? || found.Threw? {
        log := log + [Emit(ToSocket(socketId), Unauthorized(InvalidToken)), CloseSocket(socketId)];
        return;
      }
      var user := found.value;
      if user.None? || !user.value.isVerified {
        log := log + [Emit(ToSocket(socketId), Unauthorized(InvalidOrUnverifiedUser)), CloseSocket(socketId)];
        return;
      }
      var record := user.value;
      AuthenticateKeepsValid(connectedUsers, chatRooms, typingUsers, socketData, socketId, record);
      socketData := socketData[socketId := SocketData(Some(record.id), Some(record.username), Some(record.currentRole))];
      connectedUsers := connectedUsers.Set(socketId, WebSocketUser(record.id, socketId, record.username, record.currentRole, true));
      log := log + [Emit(AllExceptSender(socketId), UserOnline(record.id, true))];
    }

    /** The `join_chat` handler up to the participant lookup it awaits. */
    method OnJoinChat(socketId: SocketId, matchId: MatchId) returns (pending: Option<PendingJoin>)
      requires Valid()
      modifies this`log
      ensures Valid()
      ensures Truthy(Data(socketId).userId) ==>
        pending == Some(PendingJoin(socketId, matchId, Data(socketId).userId.value)) && log == old(log)
      ensures !Truthy(Data(socketId).userId) ==>
        pending == None && log == old(log) + [Emit(ToSocket(socketId), Error(NotAuthenticated))]
    {
      var userId := Data(socketId).userId;
      if !Truthy(userId) {
        log := log + [Emit(ToSocket(socketId), Error(NotAuthenticated))];
        return None;
      }
      pending := Some(PendingJoin(socketId, matchId, userId.value));
    }

    /**
     * The rest of `join_chat` once the participant lookup answers. The room
     * is only touched if the socket is still connected at this point; the
     * presence check uses the user id read before the await, the entry
     * pushed is the socket's current one.
     */
    method CommitJoinChat(pending: PendingJoin, participant: Query<bool>)
      requires Valid()
      modifies this`chatRooms, this`log
      ensures Valid()
      ensures participant.Threw? ==>
        chatRooms == old(chatRooms) && log == old(log) + [Emit(ToSocket(pending.socketId), Error(FailedToJoin))]
      ensures participant == Answered(false) ==>
        chatRooms == old(chatRooms) && log == old(log) + [Emit(ToSocket(pending.socketId), Error(NotAuthorizedToJoin))]
      ensures participant == Answered(true) && pending.socketId !in connectedUsers.table ==>
        chatRooms == old(chatRooms) && log == old(log)
      ensures participant == Answered(true) && pending.socketId in connectedUsers.table ==>
        var user := connectedUsers.table[pending.socketId];
        && chatRooms == JoinAsWritten(old(chatRooms), pending.matchId, pending.userId, user)
        && log == old(log) + [Emit(RoomExceptSender(pending.matchId, pending.socketId), UserJoinedChat(pending.matchId, user))]
      ensures participant == Answered(true) && pending.socketId in connectedUsers.table
              && Data(pending.socketId).userId == Some(pending.userId) ==>
        chatRooms == Join(old(chatRooms), pending.matchId, connectedUsers.table[pending.socketId])
      ensures Data(pending.socketId).userId == Some(pending.userId) && old(RoomsUnique(chatRooms)) ==> RoomsUnique(chatRooms)
    {
      if participant.Threw? {
        log := log + [Emit(ToSocket(pending.socketId), Error(FailedToJoin))];
        return;
      }
      if !participant.value {
        log := log + [Emit(ToSocket(pending.socketId), Error(NotAuthorizedToJoin))];
        return;
      }
      var user := connectedUsers.Get(pending.socketId);
      if user.Some? {
        JoinKeepsValid(connectedUsers, chatRooms, typingUsers, socketData, pending.socketId, pending.matchId, pending.userId);
        chatRooms := JoinAsWritten(chatRooms, pending.matchId, pending.userId, user.value);
        log := log + [Emit(RoomExceptSender(pending.matchId, pending.socketId), UserJoinedChat(pending.matchId, user.value))];
      }
    }

    /** The `leave_chat` handler. */
    method OnLeaveChat(socketId: SocketId, matchId: MatchId)
      requires Valid()
      modifies this`chatRooms, this`log
      ensures Valid()
      ensures var userId := Data(socketId).userId;
        if Truthy(userId) && matchId in old(chatRooms).table then
          && chatRooms == Leave(old(chatRooms), matchId, userId.value)
          && log == old(log) + [Emit(RoomExceptSender(matchId, socketId), UserLeftChat(matchId, userId.value))]
        else
          chatRooms == old(chatRooms) && log == old(log)
    {
      var userId := Data(socketId).userId;
      if !Truthy(userId) {
        return;
      }
      if matchId in chatRooms.table {
        LeaveKeepsValid(connectedUsers, chatRooms, typingUsers, socketData, matchId, userId.value);
        chatRooms := Leave(chatRooms, matchId, userId.value);
        log := log + [Emit(RoomExceptSender(matchId, socketId), UserLeftChat(matchId, userId.value))];
      }
    }

    /** The `start_typing` handler; it schedules an expiry that is never cancelled. */
    method OnStartTyping(socketId: SocketId, matchId: MatchId)
      requires Valid()
      modifies this`typingUsers, this`timers, this`log
      ensures Valid()
      ensures var data := Data(socketId);
        if Truthy(data.userId) && Truthy(data.username) then
          var indicator := TypingIndicator(matchId, data.userId.value, data.username.value, true);
          && typingUsers == Typing.Start(old(typingUsers), indicator)
          && log == old(log) + [Emit(RoomExceptSender(matchId, socketId), UserTyping(indicator))]
          && timers == old(timers) + [Expiry(socketId, matchId, data.userId.value)]
        else
          typingUsers == old(typingUsers) && log == old(log) && timers == old(timers)
    {
      var data := Data(socketId);
      if !Truthy(data.userId) || !Truthy(data.username) {
        return;
      }
      var indicator := TypingIndicator(matchId, data.userId.value, data.username.value, true);
      typingUsers := Typing.Start(typingUsers, indicator);
      log := log + [Emit(RoomExceptSender(matchId, socketId), UserTyping(indicator))];
      timers := timers + [Expiry(socketId, matchId, data.userId.value)];
    }

    /** The private helper `stopTyping`. */
    method StopTyping(socketId: SocketId, matchId: MatchId, userId: UserId)
      requires Valid()
      modifies this`typingUsers, this`log
      ensures Valid()
      ensures typingUsers == Typing.Stop(old(typingUsers), matchId, userId)
      ensures log == old(log) + StopNotice(old(typingUsers), matchId, userId, socketId)
    {
      var typingInRoom := Indicators(typingUsers, matchId);
      var wasTyping := IsTypingIn(typingInRoom, userId);
      if wasTyping {
        WithoutTyperKeepsUnique(typingInRoom, userId);
        typingInRoom := WithoutTyper(typingInRoom, userId);
        typingUsers := typingUsers.Set(matchId, typingInRoom);
        log := log + [Emit(RoomExceptSender(matchId, socketId), TypingStop(matchId, userId))];
      }
    }

    /** The `stop_typing` handler. */
    method OnStopTyping(socketId: SocketId, matchId: MatchId)
      requires Valid()
      modifies this`typingUsers, this`log
      ensures Valid()
      ensures var userId := Data(socketId).userId;
        if Truthy(userId) then
          && typingUsers == Typing.Stop(old(typingUsers), matchId, userId.value)
          && log == old(log) + StopNotice(old(typingUsers), matchId, userId.value, socketId)
        else
          typingUsers == old(typingUsers) && log == old(log)
    {
      var userId := Data(socketId).userId;
      if !Truthy(userId) {
        return;
      }
      StopTyping(socketId, matchId, userId.value);
    }

    /** The oldest pending typing expiry fires. */
    method FireTimer()
      requires Valid() && timers != []
      modifies this`typingUsers, this`timers, this`log
      ensures Valid()
      ensures var expiry := old(timers)[0];
        && timers == old(timers)[1..]
        && typingUsers == Typing.Stop(old(typingUsers), expiry.matchId, expiry.userId)
        && log == old(log) + StopNotice(old(typingUsers), expiry.matchId, expiry.userId, expiry.socketId)
    {
      var expiry := timers[0];
      timers := timers[1..];
      StopTyping(expiry.socketId, expiry.matchId, expiry.userId);
    }

    /** The `disconnect` handler. */
    method OnDisconnect(socketId: SocketId)
      requires Valid()
      modifies this`connectedUsers, this`chatRooms, this`typingUsers, this`log
      ensures Valid()
      ensures socketId !in old(connectedUsers).table ==>
        && connectedUsers == old(connectedUsers) && chatRooms == old(chatRooms)
        && typingUsers == old(typingUsers) && log == old(log)
      ensures socketId in old(connectedUsers).table ==>
        var userId := old(connectedUsers).table[socketId].userId;
        && connectedUsers == old(connectedUsers).Delete(socketId)
        && chatRooms == DropSocket(old(chatRooms), socketId)
        && typingUsers == DropUser(old(typingUsers), userId)
        && log == old(log)
             + LeftNotices(old(chatRooms).order, socketId, userId)
             + StopNotices(old(typingUsers).order, old(typingUsers).table, userId, socketId)
             + [Emit(AllExceptSender(socketId), UserOnline(userId, false))]
    {
      var found := connectedUsers.Get(socketId);
      if found.Some? {
        DisconnectKeepsValid(connectedUsers, chatRooms, typingUsers, socketData, socketId, found.value.userId);
        DisconnectUser(socketId, found.value.userId);
      }
    }

    /**
     * The body of `disconnect` for a connected socket of user `userId`; the
     * caller has shown that the state it leads to is valid.
     */
    method DisconnectUser(socketId: SocketId, userId: UserId)
      requires connectedUsers.Valid() && chatRooms.Valid() && typingUsers.Valid()
      requires ServiceValid(connectedUsers.Delete(socketId), DropSocket(chatRooms, socketId), DropUser(typingUsers, userId), socketData)
      modifies this`connectedUsers, this`chatRooms, this`typingUsers, this`log
      ensures Valid()
      ensures connectedUsers == old(connectedUsers).Delete(socketId)
      ensures chatRooms == DropSocket(old(chatRooms), socketId)
      ensures typingUsers == DropUser(old(typingUsers), userId)
      ensures log == old(log)
        + LeftNotices(old(chatRooms).order, socketId, userId)
        + StopNotices(old(typingUsers).order, old(typingUsers).table, userId, socketId)
        + [Emit(AllExceptSender(socketId), UserOnline(userId, false))]
    {
      ghost var after := ServiceValid(connectedUsers.Delete(socketId), DropSocket(chatRooms, socketId), DropUser(typingUsers, userId), socketData);
      connectedUsers := connectedUsers.Delete(socketId);
      LeaveEveryRoom(socketId, userId);
      StopTypingEverywhere(socketId, userId);
      assert after == ServiceValid(connectedUsers, chatRooms, typingUsers, socketData);
      log := log + [Emit(AllExceptSender(socketId), UserOnline(userId, false))];
    }

    /** The `chatRooms.forEach` of disconnect: drop the socket, tell the room, delete it once empty. */
    method LeaveEveryRoom(socketId: SocketId, userId: UserId)
      requires chatRooms.Valid()
      modifies this`chatRooms, this`log
      ensures chatRooms == DropSocket(old(chatRooms), socketId)
      ensures log == old(log) + LeftNotices(old(chatRooms).order, socketId, userId)
    {
      ghost var goal := DropSocket(chatRooms, socketId);
      var keys := chatRooms.order;
      var i := 0;
      assert keys[0..] == keys;
      while i < |keys|
        invariant 0 <= i <= |keys|
        invariant chatRooms.Valid()
        invariant Distinct(keys)
        invariant forall t :: i <= t < |keys| ==> keys[t] in chatRooms.table
        invariant DropSocketFrom(chatRooms, keys[i..], socketId) == goal
        invariant log == old(log) + LeftNotices(keys[..i], socketId, userId)
      {
        forall t | i < t < |keys| ensures keys[t] != keys[i] {
          DistinctAt(keys, i, t);
        }
        LeaveRoomStep(keys, i, socketId, userId, goal, old(log));
        i := i + 1;
      }
      assert keys[..i] == keys;
    }

    /** Round `i` of that loop: one more room handled, one more notice sent. */
    method LeaveRoomStep(keys: seq<MatchId>, i: nat, socketId: SocketId, userId: UserId,
                         ghost goal: JsMap<MatchId, ChatRoom>, ghost log0: seq<Effect>)
      requires i < |keys| && chatRooms.Valid()
      requires forall t :: i <= t < |keys| ==> keys[t] in chatRooms.table
      requires forall t :: i < t < |keys| ==> keys[t] != keys[i]
      requires DropSocketFrom(chatRooms, keys[i..], socketId) == goal
      requires log == log0 + LeftNotices(keys[..i], socketId, userId)
      modifies this`chatRooms, this`log
      ensures chatRooms.Valid()
      ensures forall t :: i + 1 <= t < |keys| ==> keys[t] in chatRooms.table
      ensures DropSocketFrom(chatRooms, keys[i + 1..], socketId) == goal
      ensures log == log0 + LeftNotices(keys[..i + 1], socketId, userId)
    {
      DropSocketFromStep(chatRooms, keys, i, socketId);
      LeftNoticesSnoc(keys, i, socketId, userId);
      LogAppend(log0, LeftNotices(keys[..i], socketId, userId),
        [Emit(RoomExceptSender(keys[i], socketId), UserLeftChat(keys[i], userId))]);
      LeaveRoom(keys[i], socketId, userId);
    }

    /** The body of that loop, for the tracked room `matchId`. */
    method LeaveRoom(matchId: MatchId, socketId: SocketId, userId: UserId)
      requires chatRooms.Valid() && matchId in chatRooms.table
      modifies this`chatRooms, this`log
      ensures chatRooms == DropSocketIn(old(chatRooms), matchId, socketId)
      ensures log == old(log) + [Emit(RoomExceptSender(matchId, socketId), UserLeftChat(matchId, userId))]
    {
      var room := chatRooms.table[matchId];
      var remaining := WithoutSocket(room.participants, socketId);
      chatRooms := chatRooms.Set(matchId, room.(participants := remaining));
      log := log + [Emit(RoomExceptSender(matchId, socketId), UserLeftChat(matchId, userId))];
      if |remaining| == 0 {
        chatRooms := chatRooms.Delete(matchId);
      }
    }

    /** The `typingUsers.forEach` of disconnect: drop the user's indicator, tell the room if there was one. */
    method StopTypingEverywhere(socketId: SocketId, userId: UserId)
      requires typingUsers.Valid()
      modifies this`typingUsers, this`log
      ensures typingUsers == DropUser(old(typingUsers), userId)
      ensures log == old(log) + StopNotices(old(typingUsers).order, old(typingUsers).table, userId, socketId)
    {
      ghost var typing0 := typingUsers;
      var keys := typingUsers.order;
      var j := 0;
      while j < |keys|
        invariant 0 <= j <= |keys|
        invariant typingUsers == DropUserFrom(typing0, keys[..j], userId)
        invariant log == old(log) + StopNotices(keys[..j], typing0.table, userId, socketId)
      {
        StopTypingStep(keys, j, socketId, userId, typing0, old(log));
        j := j + 1;
      }
      assert keys[..j] == keys;
      DropUserFromAll(typing0, userId);
    }

    /** Round `j` of that loop: one more list filtered, and a notice if the user was typing there. */
    method StopTypingStep(keys: seq<MatchId>, j: nat, socketId: SocketId, userId: UserId,
                          ghost typing0: JsMap<MatchId, seq<TypingIndicator>>, ghost log0: seq<Effect>)
      requires typing0.Valid() && keys == typing0.order && j < |keys|
      requires typingUsers == DropUserFrom(typing0, keys[..j], userId)
      requires log == log0 + StopNotices(keys[..j], typing0.table, userId, socketId)
      modifies this`typingUsers, this`log
      ensures typingUsers == DropUserFrom(typing0, keys[..j + 1], userId)
      ensures log == log0 + StopNotices(keys[..j + 1], typing0.table, userId, socketId)
    {
      var matchId := keys[j];
      DropUserFromNext(typing0, j, userId, typingUsers);
      StopNoticesSnoc(keys, j, typing0.table, userId, socketId);
      ghost var before := typingUsers;
      var typingList := typingUsers.table[matchId];
      var filtered := WithoutTyper(typingList, userId);
      if |filtered| != |typingList| {
        LogAppend(log0, StopNotices(keys[..j], typing0.table, userId, socketId),
          [Emit(RoomExceptSender(matchId, socketId), TypingStop(matchId, userId))]);
        typingUsers := typingUsers.Set(matchId, filtered);
        log := log + [Emit(RoomExceptSender(matchId, socketId), TypingStop(matchId, userId))];
      } else {
        assert StopNotices(keys[..j], typing0.table, userId, socketId) + [] == StopNotices(keys[..j], typing0.table, userId, socketId);
      }
      assert typingUsers == DropUserIn(before, matchId, userId);
    }

    /** `getConnectedUsers`: one entry per connected socket, in order of first authentication. */
    function GetConnectedUsers(): (users: seq<WebSocketUser>)
      reads this
      requires Valid()
      ensures |users| == |connectedUsers.order| == |connectedUsers.table|
      ensures forall u :: u in users <==> u in connectedUsers.table.Values
      ensures forall i :: 0 <= i < |users| ==> users[i].socketId == connectedUsers.order[i] && users[i].isOnline
    {
      connectedUsers.Values()
    }

    /** `getChatRooms`: the tracked rooms in creation order, none of them empty. */
    function GetChatRooms(): (rooms: seq<ChatRoom>)
      reads this
      requires Valid()
      ensures |rooms| == |chatRooms.order| == |chatRooms.table|
      ensures forall i :: 0 <= i < |rooms| ==>
        && rooms[i] == chatRooms.table[chatRooms.order[i]]
        && rooms[i].matchId == chatRooms.order[i]
        && rooms[i].participants != []
      ensures forall r :: r in rooms <==> r in chatRooms.table.Values
      ensures RoomsUnique(chatRooms) ==> forall i :: 0 <= i < |rooms| ==> UniqueUsers(rooms[i].participants)
    {
      chatRooms.Values()
    }

    /** `isUserOnline`: some connected socket belongs to the user. */
    function IsUserOnline(userId: UserId): (online: bool)
      reads this
      requires Valid()
      ensures online <==> exists sid :: sid in connectedUsers.table && connectedUsers.table[sid].userId == userId
    {
      var users := connectedUsers.Values();
      assert forall sid :: sid in connectedUsers.table ==> connectedUsers.table[sid] in users;
      HasUser(users, userId)
    }

    /** `getUsersInChat`: a tracked room's participants, `[]` for an untracked room. */
    function GetUsersInChat(matchId: MatchId): (users: seq<WebSocketUser>)
      reads this
      requires Valid()
      ensures matchId !in chatRooms.table ==> users == []
      ensures matchId in chatRooms.table ==> users == chatRooms.table[matchId].participants && users != []
      ensures RoomsUnique(chatRooms) ==> UniqueUsers(users)
      ensures forall p :: p in users ==> p.socketId in connectedUsers.table
    {
      Participants(chatRooms, matchId)
    }

    /** `getUserIdsInChat`: the user ids of `getUsersInChat`, in the same order, without repeats while no room has a duplicate. */
    function GetUserIdsInChat(matchId: MatchId): (ids: seq<UserId>)
      reads this
      requires Valid()
      ensures |ids| == |GetUsersInChat(matchId)|
      ensures forall i :: 0 <= i < |ids| ==> ids[i] == GetUsersInChat(matchId)[i].userId
      ensures RoomsUnique(chatRooms) ==> Distinct(ids)
    {
      var users := GetUsersInChat(matchId);
      seq(|users|, i requires 0 <= i < |users| => users[i].userId)
    }

    /** `Array.from(connectedUsers.values()).find(u => u.userId === userId)`: the user's earliest connected socket. */
    function FirstSocketOf(userId: UserId): (r: Option<WebSocketUser>)
      reads this
      requires Valid()
      ensures r.Some? <==> IsUserOnline(userId)
      ensures r.Some? ==> exists i :: FirstMatchAt(connectedUsers.Values(), userId, i) && r.value == connectedUsers.Values()[i]
    {
      var users := connectedUsers.Values();
      match FindFirst(users, userId)
      case None => None
      case Some(i) => Some(users[i])
    }

    /** `broadcastNewMessage`: the room gets the message, the sender's first socket a delivery notice. */
    method BroadcastNewMessage(matchId: MatchId, message: OutgoingMessage)
      requires Valid()
      modifies this`log
      ensures Valid()
      ensures !ioReady ==> log == old(log)
      ensures ioReady ==> (log == old(log) + [Emit(ToRoom(matchId), NewMessage(message))] + (
        match FirstSocketOf(message.senderId)
        case Some(sender) => [Emit(ToSocket(sender.socketId), MessageDelivered(message.id, matchId))]
        case None => []))
    {
      if ioReady {
        log := log + [Emit(ToRoom(matchId), NewMessage(message))];
        var sender := FirstSocketOf(message.senderId);
        if sender.Some? {
          log := log + [Emit(ToSocket(sender.value.socketId), MessageDelivered(message.id, matchId))];
        }
      }
    }

    /** `broadcastChatUnlocked`. */
    method BroadcastChatUnlocked(matchId: MatchId, unlockedAt: int)
      requires Valid()
      modifies this`log
      ensures Valid()
      ensures !ioReady ==> log == old(log)
      ensures ioReady ==> log == old(log) + [Emit(ToRoom(matchId), ChatUnlocked(matchId, unlockedAt))]
    {
      if ioReady {
        log := log + [Emit(ToRoom(matchId), ChatUnlocked(matchId, unlockedAt))];
      }
    }

    /** `broadcastChatInvitation`: only the user's first connected socket is told. */
    method BroadcastChatInvitation(userId: UserId, invitation: string)
      requires Valid()
      modifies this`log
      ensures Valid()
      ensures !ioReady ==> log == old(log)
      ensures ioReady ==> (log == old(log) + (
        match FirstSocketOf(userId)
        case Some(target) => [Emit(ToSocket(target.socketId), ChatInvitation(invitation))]
        case None => []))
    {
      if ioReady {
        var target := FirstSocketOf(userId);
        if target.Some? {
          log := log + [Emit(ToSocket(target.value.socketId), ChatInvitation(invitation))];
        }
      }
    }
  }
}
