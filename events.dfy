/**
 * What the coordinator sends. Each emit is recorded as an effect whose scope
 * says who receives it; the Socket.IO transport itself is not modelled.
 */
module Events {
  import opened WsTypes

  datatype Scope =
    | ToSocket(socketId: SocketId)                          // socket.emit, io.to(socketId)
    | RoomExceptSender(matchId: MatchId, sender: SocketId)  // socket.to(matchId)
    | AllExceptSender(sender: SocketId)                     // socket.broadcast
    | ToRoom(matchId: MatchId)                              // io.to(matchId)

  /** The fields of a persisted chat message that the coordinator reads. */
  datatype OutgoingMessage = OutgoingMessage(id: string, senderId: UserId, body: string)

  datatype ServerEvent =
    | Unauthorized(message: string)
    | Error(message: string)
    | UserOnline(userId: UserId, isOnline: bool)
    | UserJoinedChat(matchId: MatchId, user: WebSocketUser)
    | UserLeftChat(matchId: MatchId, userId: UserId)
    | UserTyping(indicator: TypingIndicator)
    | TypingStop(matchId: MatchId, userId: UserId)
    | NewMessage(chatMessage: OutgoingMessage)
    | MessageDelivered(messageId: string, matchId: MatchId)
    | ChatUnlocked(matchId: MatchId, unlockedAt: int)
    | ChatInvitation(invitation: string)

  /** An outbound emit, or the server closing a socket (`socket.disconnect()`). */
  datatype Effect =
    | Emit(scope: Scope, event: ServerEvent)
    | CloseSocket(socketId: SocketId)

  const InvalidToken := "Invalid token"
  const InvalidOrUnverifiedUser := "Invalid or unverified user"
  const NotAuthenticated := "Not authenticated"
  const NotAuthorizedToJoin := "Not authorized to join this chat"
  const FailedToJoin := "Failed to join chat"

  /** Appending effects to a log one batch at a time is appending them all at once. */
  lemma LogAppend(log: seq<Effect>, first: seq<Effect>, next: seq<Effect>)
    ensures (log + first) + next == log + (first + next)
  {
  }
}
