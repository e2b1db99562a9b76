# Chat presence coordinator — a Dafny model

This project models the real-time chat presence layer of a shipment-matching
backend, together with two small pure rules from its chat controller.

**The presence coordinator.** `WebSocketService` keeps three insertion-ordered
maps:

- `connectedUsers`: socket id → user;
- `chatRooms`: match id → room with its participant list;
- `typingUsers`: match id → typing indicators.

Six socket event handlers change these maps: `authenticate`, `join_chat`,
`leave_chat`, `start_typing`, `stop_typing` and `disconnect`. A shared
`stopTyping` helper and a few public read and broadcast entry points complete
the service.

In the model it is the class `Presence.WebSocketService`. Its fields are:

- the three maps, as `JsMaps.JsMap` values, which keep JavaScript `Map`
  insertion order;
- each socket's `socket.data`;
- a FIFO queue of pending 3-second typing expiries;
- a ghost `log` of every emit and forced disconnect.

Each handler is a method. Its postcondition gives the new maps and the exact
effects it appends to the log.

The class invariant `Valid()` (`Presence.ServiceValid`) says:

- every connected socket is filed under its own id, with the identity in its
  `socket.data`;
- every tracked room is filed under its own match id and is non-empty;
- no typing list holds a user twice;
- every room participant is a connected socket.

Every handler is proved to keep this invariant. "No room lists a user twice"
(`Rooms.RoomsUnique`) is not part of it, because the `join_chat` commit as
coded can break it (see Findings). It is kept by `leave_chat`, `disconnect`
and by every `join_chat` commit whose socket was not re-authenticated as
another user while the participant lookup was pending.

**Pure rules, grouped by module:**

- `Rooms`: room membership as pure functions. `JoinAsWritten` is the
  `join_chat` commit as coded and is what the service runs; `Join` is the
  corrected commit. `Leave` removes by user id. `DropSocket` removes by socket id and is the
  disconnect fold.
- `Typing`: typing indicators. `Start`, `Stop` (the `stopTyping` helper) and
  `DropUser` (the disconnect fold).
- `ChatFiles`, from the chat controller:
  - the rule that rewrites a message's `fileUrl` into the directory of its
    message type (`/uploads/chat/voice/`, `/uploads/chat/images/`,
    `/uploads/chat/files/`) using Node's POSIX `path.basename`;
  - its application to message lists (`getChatMessages`) and to the last
    message of each chat (`getUserChats`);
  - the multer upload-directory choice by MIME prefix.

**How the non-deterministic parts are modelled:**

- The JWT check, the user lookup and the chat-participant lookup are
  parameters. A `Query` value is either an answer or `Threw`, which is the
  `catch` path.
- `join_chat` suspends once, at the participant lookup. It is split into
  `OnJoinChat`, which runs up to the `await`, and `CommitJoinChat`, which runs
  after it. Any other event may run in between.
- A `setTimeout` expiry is an entry in `timers`. It is fired by `FireTimer`
  and is never cancelled.

## Behaviour as coded

The model follows the code where a stricter design would differ:

- `leave_chat` removes participants by user id; `disconnect` removes them by
  socket id.
- `disconnect` sends `user_left_chat` to every tracked room, including rooms
  the socket was not in. It always sends `user_online{isOnline:false}`, even if
  the user still has another connected socket.
- A repeat `join_chat` adds nobody but still sends `user_joined_chat`.
- `leave_chat` on a tracked room sends `user_left_chat` even if the user was
  not a member.
- `start_typing` does not check room membership.
- An explicit `stop_typing` does not cancel the pending expiry. The expiry is a
  no-op unless the user started typing again, in which case it clears that
  newer indicator early (`Typing.FirstExpiryClearsRefresh`).
- Room membership is keyed by user id, not by session.
- Invitations and delivery notices go only to the user's first connected
  socket in map order.
- A `join_chat` that commits after its socket disconnected changes no room,
  because the code re-reads `connectedUsers` after the `await`. The exception
  is an `authenticate` of the same socket that completes after the disconnect:
  see the next item.
- An `authenticate` whose lookups answer after its socket disconnected still
  stores the socket in `connectedUsers` and sends `user_online{true}`, after
  the `user_online{false}` of the disconnect. No later event removes that
  entry: the socket is reported online for good, and a pending `join_chat` of
  that socket still adds it to the room.
- The `join_chat` commit checks room presence for the user id read before the
  `await`, but pushes the socket's entry read after it
  (`Rooms.JoinAsWritten`).

## Model

| member | source | states |
|---|---|---|
| JsMaps.JsMap.Get | src/services/websocket.service.ts:139 | `Map.get`: a value exactly when the key is present, and it is the stored value |
| JsMaps.JsMap.Set | src/services/websocket.service.ts:96 | `Map.set`: the table gains the binding; an existing key keeps its position, a new key goes last; well-formedness kept |
| JsMaps.JsMap.Delete | src/services/websocket.service.ts:265 | `Map.delete`: the key leaves the table, and the order becomes `RemoveKey` of the old order |
| JsMaps.JsMap.Values | src/services/websocket.service.ts:366 | `Array.from(map.values())`: one value per key, in insertion order, and exactly the table's values |
| JsMaps.RemoveKeyAt | src/services/websocket.service.ts:265 | deleting the key at position i of a well-formed order leaves the keys before it and the keys after it, each in their old relative order |
| JsMaps.RemoveKey | src/services/websocket.service.ts:265 | the order after a delete holds every other key and never the deleted one, and stays free of repeats |
| Rooms.FindFirst | src/services/websocket.service.ts:152-154 | `participants.find` by user id: none iff no entry has the user id, otherwise the index of the first such entry |
| Rooms.WithoutUser | src/services/websocket.service.ts:182-184 | the leave filter keeps exactly the entries of other users; the length shrinks iff the user was there |
| Rooms.WithoutSocket | src/services/websocket.service.ts:269-271 | the disconnect filter keeps exactly the entries of other sockets |
| Rooms.WithoutUserKeepsUnique | src/services/websocket.service.ts:182-184 | filtering by user id keeps a participant list free of duplicate user ids |
| Rooms.WithoutSocketKeepsUnique | src/services/websocket.service.ts:269-271 | filtering by socket id keeps a participant list free of duplicate user ids |
| Rooms.AddParticipant | src/services/websocket.service.ts:151-157 | after the add the user is present; an already present user changes nothing; otherwise exactly the new entry is added; no duplicate user ids arise |
| Rooms.AddParticipantAsWritten | src/services/websocket.service.ts:151-157 | the commit as written: when the checked id is the pushed entry's id it agrees with `AddParticipant`; when the user id read before the await is present nothing changes; when it is absent the current entry is appended unconditionally |
| Rooms.StaleUserIdAdmitsDuplicate | src/services/websocket.service.ts:151-157 | a concrete run where the as-written commit puts the same user id twice in one room |
| Rooms.Participants | src/services/websocket.service.ts:380-381 | `chatRooms.get(matchId)?.participants ?? []`: non-empty exactly for a tracked room of a well-formed map, and free of duplicate users whenever every room is |
| Rooms.JoinAsWritten | src/services/websocket.service.ts:139-157 | the commit as coded: the room exists afterwards; its participants are the old ones plus the pushed entry iff the checked user id was absent; a present checked id leaves the rooms unchanged; with the pushed entry's own id it is `Join`; other rooms untouched; well-formedness kept |
| Rooms.Join | src/services/websocket.service.ts:139-157 | the room exists and holds the user afterwards; its participants are the old ones plus the user if new; a repeat join leaves the rooms unchanged; other rooms untouched; room invariant kept |
| Rooms.Leave | src/services/websocket.service.ts:180-193 | untracked room: no change; otherwise every entry of the user is gone, the others stay, the room survives iff someone else was in it, other rooms untouched, invariant kept |
| Rooms.DropSocketIn | src/services/websocket.service.ts:269-282 | one step of the disconnect loop: the room no longer holds the socket, keeps every other participant, is deleted once empty; other rooms untouched |
| Rooms.DropSocketFrom | src/services/websocket.service.ts:268-283 | folding the step over any key sequence keeps the map well formed |
| Rooms.DropSocketFromFacts | src/services/websocket.service.ts:268-283 | after the fold no visited room holds the socket, every other participant survives, nothing is added, and the room invariant holds |
| Rooms.DropSocket | src/services/websocket.service.ts:268-283 | the disconnect pass over all tracked rooms keeps the map well formed |
| Rooms.DropSocketFacts | src/services/websocket.service.ts:268-283 | after disconnect no room holds the socket, every other participant keeps its room, no member is added, and emptied rooms are gone |
| Rooms.DropSocketGone | src/services/websocket.service.ts:268-283 | no room that survives disconnect cleanup holds the socket |
| Rooms.LeftNotices | src/services/websocket.service.ts:273-277 | one `user_left_chat` per visited match, the i-th addressed to the i-th match's room except the sender |
| Rooms.LeftNoticeOncePerRoom | src/services/websocket.service.ts:273-277 | disconnect sends one `user_left_chat` per tracked room, exactly once each, and none for an untracked match |
| Rooms.LastOpDecides | src/services/websocket.service.ts:139-193 | after any sequence of joins and leaves by one user on one room, the user is a member iff the last operation was a join |
| Typing.WithoutTyper | src/services/websocket.service.ts:287-289 | the typing filter keeps exactly the other users' indicators; the length changes iff the user was typing |
| Typing.WithoutTyperKeepsUnique | src/services/websocket.service.ts:216 | filtering a typing list keeps it free of duplicate users |
| Typing.Start | src/services/websocket.service.ts:214-218 | start_typing leaves the new indicator plus every other user's indicator in that room, and nothing else; other rooms untouched; at most one indicator per user |
| Typing.Stop | src/services/websocket.service.ts:313-321 | `stopTyping`: the user no longer types in the room, the others keep theirs, no change at all if the user was not typing, other rooms untouched |
| Typing.Indicators | src/services/websocket.service.ts:215 | the list of `typingUsers.get(matchId)`, or `[]`: empty for an untracked match; in a valid map, a list for that match with at most one indicator per user, all typing |
| Typing.StopNotice | src/services/websocket.service.ts:316-324 | `typing_stop` is sent iff the user had an indicator, and then it is exactly one `typing_stop{matchId, userId}` to the room except the sender |
| Typing.StopNotices | src/services/websocket.service.ts:290-297 | at most one notice per visited match, each a `typing_stop` for a visited match whose list held the user |
| Typing.StopThenExpiry | src/services/websocket.service.ts:313-325 | an explicit stop followed by the expiry sends exactly one `typing_stop` if the user was typing and none otherwise; the second stop changes nothing |
| Typing.FirstExpiryClearsRefresh | src/services/websocket.service.ts:214-226 | after two start_typing calls, the first call's expiry clears the refreshed indicator and sends one `typing_stop` |
| Typing.DropUser | src/services/websocket.service.ts:286-298 | disconnect's typing cleanup keeps the map's keys and order |
| Typing.DropUserFacts | src/services/websocket.service.ts:286-298 | after cleanup no list holds the user, every other indicator stays, and the typing invariant holds |
| Typing.DropUserIn | src/services/websocket.service.ts:287-297 | one step of the typing loop rewrites only the visited list and only when the user was in it |
| Typing.DropUserFrom | src/services/websocket.service.ts:286-298 | the step folded over any key sequence keeps keys and order |
| Typing.DropUserFromAt | src/services/websocket.service.ts:286-298 | the fold filters a list iff its key was visited, and leaves other lists as they were |
| Typing.DropUserFromAll | src/services/websocket.service.ts:286-298 | the loop over all keys in order computes the same map as the whole-map cleanup `DropUser` |
| Typing.DropUserFromSnoc | src/services/websocket.service.ts:286-298 | visiting one more key extends the fold by exactly one filtering step |
| Typing.DropUserFromNext | src/services/websocket.service.ts:286-298 | during the loop the next key's list has not yet been touched, and the next step is one more fold step |
| Typing.StopNoticeOncePerTypingRoom | src/services/websocket.service.ts:290-297 | disconnect sends one `typing_stop` for each room whose list held the user, and none for any other room |
| Presence.CheckCredentials | src/services/websocket.service.ts:57-109 | accepted iff the token decodes and the lookup returns a verified user; "Invalid token" iff the token or the lookup threw; otherwise "Invalid or unverified user" |
| Presence.AuthenticateKeepsValid | src/services/websocket.service.ts:80-96 | storing the identity in `socket.data` and `connectedUsers` keeps the service invariant, also on re-authentication |
| Presence.JoinKeepsValid | src/services/websocket.service.ts:139-157 | committing a join as coded for a connected socket keeps the service invariant, whatever user id was checked |
| Presence.LeaveKeepsValid | src/services/websocket.service.ts:180-193 | leave_chat keeps the service invariant |
| Presence.DisconnectKeepsValid | src/services/websocket.service.ts:261-298 | removing the socket from all three maps keeps the service invariant |
| Presence.WebSocketService.constructor | src/services/websocket.service.ts:23-25 | the service starts with empty maps, no timers, no emits, and the invariant holds |
| Presence.WebSocketService.Initialize | src/services/websocket.service.ts:27-38 | after `initialize` the broadcast entry points are live |
| Presence.WebSocketService.OnAuthenticate | src/services/websocket.service.ts:54-110 | rejection: maps and socket data unchanged, one `unauthorized` with the right message, then a disconnect; success: socket data and `connectedUsers[socket]` hold the user, online, and one `user_online{true}` goes to everyone else |
| Presence.WebSocketService.OnJoinChat | src/services/websocket.service.ts:113-126 | an unauthenticated socket gets one "Not authenticated" error and nothing is pending; otherwise the join is pending with the user id read now |
| Presence.WebSocketService.CommitJoinChat | src/services/websocket.service.ts:124-167 | a thrown lookup gives "Failed to join chat"; a refused one gives "Not authorized to join this chat"; neither touches the rooms. A socket gone meanwhile changes nothing. Otherwise the rooms become `JoinAsWritten` with the checked id and the socket's current entry, and `user_joined_chat` goes to the room; when the socket is still signed in as the checked user this is `Join`, and rooms free of duplicate users stay so |
| Presence.WebSocketService.OnLeaveChat | src/services/websocket.service.ts:171-196 | unauthenticated socket or untracked room: nothing changes and nothing is sent; otherwise `Leave` by user id and one `user_left_chat` to the room |
| Presence.WebSocketService.OnStartTyping | src/services/websocket.service.ts:199-227 | without user id or username nothing happens; otherwise `Start` with the new indicator, one `user_typing` to the room, one expiry queued |
| Presence.WebSocketService.StopTyping | src/services/websocket.service.ts:313-325 | the typing map becomes `Stop` of the old one and the log gains `StopNotice` |
| Presence.WebSocketService.OnStopTyping | src/services/websocket.service.ts:229-236 | an unauthenticated socket changes nothing; otherwise as `stopTyping` |
| Presence.WebSocketService.FireTimer | src/services/websocket.service.ts:223-226 | the oldest pending expiry leaves the queue and runs `stopTyping` for its socket, match and user |
| Presence.WebSocketService.OnDisconnect | src/services/websocket.service.ts:260-308 | unknown socket: nothing changes; otherwise the socket leaves `connectedUsers`, every room (`DropSocket`) and the user's typing lists (`DropUser`), and the log gains the room notices, the typing notices, then one `user_online{false}` |
| Presence.WebSocketService.DisconnectUser | src/services/websocket.service.ts:263-304 | the body of `disconnect` for a connected socket: the three maps become `Delete`, `DropSocket` and `DropUser` of the old ones, the log gains the room notices, the typing notices and `user_online{false}`, and the invariant holds afterwards |
| Presence.WebSocketService.LeaveEveryRoom | src/services/websocket.service.ts:268-283 | the `chatRooms.forEach` loop computes `DropSocket` and sends one `user_left_chat` per tracked room, in map order |
| Presence.WebSocketService.LeaveRoomStep | src/services/websocket.service.ts:268-283 | one round of the loop: the remaining fold reaches the same result and the log gains the notice for the next room |
| Presence.WebSocketService.LeaveRoom | src/services/websocket.service.ts:269-282 | one loop body: the room becomes `DropSocketIn` and one `user_left_chat` is sent |
| Presence.WebSocketService.StopTypingEverywhere | src/services/websocket.service.ts:286-298 | the `typingUsers.forEach` loop computes `DropUser` and sends exactly the `typing_stop` notices of `StopNotices`, in map order |
| Presence.WebSocketService.StopTypingStep | src/services/websocket.service.ts:287-297 | one loop body extends the fold and the notices by the next key |
| Presence.WebSocketService.GetConnectedUsers | src/services/websocket.service.ts:365-367 | one entry per connected socket, in order of first authentication, each online and filed under its socket |
| Presence.WebSocketService.GetChatRooms | src/services/websocket.service.ts:369-371 | the i-th room is the room of the i-th tracked match, in creation order; exactly the tracked rooms; each non-empty and filed under its match; without duplicate users whenever every room is |
| Presence.WebSocketService.IsUserOnline | src/services/websocket.service.ts:373-377 | true iff some connected socket belongs to the user |
| Presence.WebSocketService.GetUsersInChat | src/services/websocket.service.ts:379-382 | `[]` for an untracked room, otherwise exactly that room's participant list, non-empty and all connected; without duplicate users whenever every room is |
| Presence.WebSocketService.GetUserIdsInChat | src/services/websocket.service.ts:384-386 | exactly the user-id projection of `getUsersInChat`, position by position; without repeats whenever every room is free of duplicate users |
| Presence.WebSocketService.FirstSocketOf | src/services/websocket.service.ts:355-357 | found iff the user is online, and then it is the first matching connected entry |
| Presence.WebSocketService.BroadcastNewMessage | src/services/websocket.service.ts:328-345 | before `initialize` nothing is sent; after it the room gets `new_message` and the sender's first socket, if any, gets `message_delivered` |
| Presence.WebSocketService.BroadcastChatUnlocked | src/services/websocket.service.ts:347-351 | after `initialize` the room gets one `chat_unlocked`, before it nothing |
| Presence.WebSocketService.BroadcastChatInvitation | src/services/websocket.service.ts:353-363 | after `initialize` only the user's first connected socket gets the invitation; offline user or before `initialize`: nothing |
| ChatFiles.ContainsAt | src/controllers/chat.controller.ts:300 | `String.includes` holds iff the needle occurs at some position |
| ChatFiles.Basename | src/controllers/chat.controller.ts:301 | `path.basename` (POSIX): the part of the path, trailing slashes removed, after its last `/`; it contains no `/` |
| ChatFiles.BasenameUnder | src/controllers/chat.controller.ts:301-302 | the basename of a directory path plus a file name is that file name |
| ChatFiles.DirFor | src/controllers/chat.controller.ts:300-308 | a directory exists exactly for VOICE_NOTE, IMAGE and FILE, and it is one of the three chat directories |
| ChatFiles.CorrectFileUrl | src/controllers/chat.controller.ts:297-309 | the corrected URL is the URL itself or its type's directory followed by its basename |
| ChatFiles.CorrectFileUrlMoves | src/controllers/chat.controller.ts:297-309 | other types keep the URL; a URL already containing its type's directory is kept; otherwise it becomes that directory plus the basename |
| ChatFiles.CorrectFileUrlInDir | src/controllers/chat.controller.ts:300-308 | for VOICE_NOTE, IMAGE and FILE the corrected URL contains its type's directory |
| ChatFiles.CorrectFileUrlKeepsName | src/controllers/chat.controller.ts:300-308 | the correction keeps the file name whenever the URL has one |
| ChatFiles.CorrectFileUrlIdempotent | src/controllers/chat.controller.ts:300-308 | correcting twice gives the same URL as correcting once |
| ChatFiles.CorrectedUrlNonEmpty | src/controllers/chat.controller.ts:297-309 | a non-empty URL stays non-empty |
| ChatFiles.ProcessMessage | src/controllers/chat.controller.ts:294-317 | only `fileUrl` may change, and it is present afterwards iff it was before |
| ChatFiles.ProcessMessageRule | src/controllers/chat.controller.ts:295-316 | no URL, an empty URL or a TEXT message: unchanged; otherwise the URL is the corrected one |
| ChatFiles.ProcessMessageIdempotent | src/controllers/chat.controller.ts:294-317 | processing a message twice equals processing it once |
| ChatFiles.ProcessMessages | src/controllers/chat.controller.ts:294-317 | the list keeps its length and each message is processed in place |
| ChatFiles.ProcessMessagesIdempotent | src/controllers/chat.controller.ts:294-317 | processing a message list twice equals processing it once |
| ChatFiles.ProcessChat | src/controllers/chat.controller.ts:442-471 | the chat keeps its participant and match; only the last-message list may change |
| ChatFiles.ProcessChatAgrees | src/controllers/chat.controller.ts:442-471 | a chat without messages is returned unchanged; a single last message is processed by the same rule as `getChatMessages` |
| ChatFiles.ProcessChats | src/controllers/chat.controller.ts:442-471 | every chat of the list is processed in place, none added or dropped |
| ChatFiles.UploadDir | src/controllers/chat.controller.ts:12-22 | the destination is one of the three upload directories |
| ChatFiles.UploadDirChoice | src/controllers/chat.controller.ts:16-22 | `image/…` goes to images and `audio/…` to voice; everything else, including a missing MIME type, goes to files |

## Left out

- The Socket.IO transport is not modelled. This covers `socket.join`/`leave`, `socket.to(…).emit`, `io.to` and `socket.broadcast`. Emits are log entries with their scope. `socket.disconnect()` is a `CloseSocket` entry. The model does not follow what happens to the socket afterwards.
- Delivery of emits is not modelled. Which sockets actually receive an event depends on Socket.IO room membership. The model records only the addressed room or socket.
- Prisma and `JwtService.verifyAccessToken` are foreign I/O. They become the `decoded` and `found` parameters and the participant `Query`.
- The `authenticate` handler's own `await` is modelled as one atomic step. Nothing before the `await` reads or writes service state, so no other event can observe the difference.
- Timestamps are not modelled: `authenticatedAt`, `lastSeen`, `createdAt`, the typing `timestamp` and `deliveredAt`. `unlockedAt` is an opaque integer.
- The 3-second delay is not modelled. Expiries fire in FIFO order whenever `FireTimer` is called.
- Console logging is left out.
- `mark_message_read` is left out. It is a stateless pass-through emit.
- Object aliasing is not modelled. The code pushes into and reassigns the same `participants` array that `getUsersInChat` and `getChatRooms` hand out. The model returns values, so a caller's later view of a returned array is not captured.
- The multer disk storage, `fs.mkdirSync` and the random upload file name are filesystem I/O and randomness.
- The upload `fileFilter` accepts every file, so it is not modelled.
- The initial `'uploads/chat'` value of the destination is dead: every branch overwrites it. It is not modelled.
- `path.basename` is modelled for POSIX separators only. Windows `\` handling is not modelled.
- `ChatFiles.ProcessChat` models the source for the lists it can receive. The Prisma query takes at most one last message (`take: 1`). With a longer list, a rewrite replaces the whole list by the single corrected message. The model does the same, as the code would.
- GetUsersInChat (`Presence.WebSocketService.GetUsersInChat`): no duplicate users is promised only while no room lists a user twice, because the `join_chat` commit as coded can list a user twice (see Findings).
- GetChatRooms (`Presence.WebSocketService.GetChatRooms`): the same condition on duplicate users, for the same reason.
- GetUserIdsInChat (`Presence.WebSocketService.GetUserIdsInChat`): the ids are free of repeats only under that condition, for the same reason.
- The rest of the chat controller is Prisma request/response I/O and is not part of this model. So are the other controllers, the payment and e-mail services, the routes and the middleware.

## Findings

| source | as written | input that shows it | evidently intended | confidence | as-written member | corrected member |
|---|---|---|---|---|---|---|
| src/services/websocket.service.ts:151-157 | the duplicate check after the `await` uses the user id read before it (`:116`), but pushes the socket's current `connectedUsers` entry (`:139`) | socket s1 signed in as u1 sends `join_chat(m)`; before the participant lookup answers, s1 re-authenticates as u2, who is already in m via socket s2; the commit finds no u1 in m and pushes u2 a second time | check the user id of the entry actually pushed, so a room never lists a user twice | medium, not executed | Rooms.AddParticipantAsWritten, Rooms.JoinAsWritten, Rooms.StaleUserIdAdmitsDuplicate, Presence.WebSocketService.CommitJoinChat | Rooms.AddParticipant, Rooms.Join |
