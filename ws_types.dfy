/**
 * The records the chat coordinator keeps (src/types/websocket.types.ts).
 * Clock values (`lastSeen`, `createdAt`, `timestamp`, `authenticatedAt`)
 * are not part of the model.
 */
module WsTypes {
  import opened Wrappers

  type SocketId = string
  type UserId = string
  type MatchId = string

  /** One authenticated connection: an entry of `connectedUsers`. */
  datatype WebSocketUser = WebSocketUser(
    userId: UserId,
    socketId: SocketId,
    username: string,
    currentRole: string,
    isOnline: bool)

  /** A tracked chat room: the sockets that joined the match, in join order. */
  datatype ChatRoom = ChatRoom(matchId: MatchId, participants: seq<WebSocketUser>)

  /** "User U is typing in match M". */
  datatype TypingIndicator = TypingIndicator(
    matchId: MatchId,
    userId: UserId,
    username: string,
    isTyping: bool)

  /** `socket.data`: every field is absent until the socket authenticates. */
  datatype SocketData = SocketData(
    userId: Option<UserId>,
    username: Option<string>,
    currentRole: Option<string>)

  const Unauthenticated := SocketData(None, None, None)

  /** JavaScript truthiness of an optional string: absent and "" are false. */
  predicate Truthy(s: Option<string>) {
    s.Some? && s.value != ""
  }
}
