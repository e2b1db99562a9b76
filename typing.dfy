/**
 * Typing indicators: the per-match lists of `typingUsers`
 * (src/services/websocket.service.ts, start_typing, stopTyping and disconnect).
 */
module Typing {
  import opened JsMaps
  import opened WsTypes
  import opened Events

  /** The user has an indicator in the list (`typingInRoom.some(t => t.userId === userId)`). */
  predicate IsTypingIn(indicators: seq<TypingIndicator>, userId: UserId) {
    exists t :: t in indicators && t.userId == userId
  }

  /** No user has two indicators. */
  predicate UniqueTypers(indicators: seq<TypingIndicator>) {
    forall i, j :: 0 <= i < j < |indicators| ==> indicators[i].userId != indicators[j].userId
  }

  /** `indicators.filter(t => t.userId !== userId)`. */
  function WithoutTyper(indicators: seq<TypingIndicator>, userId: UserId): (r: seq<TypingIndicator>)
    ensures forall t :: t in r <==> t in indicators && t.userId != userId
    ensures |r| <= |indicators|
    ensures |r| == |indicators| <==> !IsTypingIn(indicators, userId)
    ensures !IsTypingIn(indicators, userId) ==> r == indicators
  {
    if indicators == [] then []
    else if indicators[0].userId == userId then WithoutTyper(indicators[1..], userId)
    else [indicators[0]] + WithoutTyper(indicators[1..], userId)
  }

  /** The tail of a list without duplicate typers has none, and lacks the head's user. */
  lemma UniqueTypersTail(indicators: seq<TypingIndicator>)
    requires indicators != [] && UniqueTypers(indicators)
    ensures UniqueTypers(indicators[1..]) && !IsTypingIn(indicators[1..], indicators[0].userId)
  {
    forall t | t in indicators[1..] ensures t.userId != indicators[0].userId {
      var k :| 0 <= k < |indicators[1..]| && indicators[1..][k] == t;
      assert indicators[k + 1] == t;
    }
  }

  /** Putting an indicator in front of a list that lacks its user keeps typers unique. */
  lemma UniqueTypersCons(t: TypingIndicator, indicators: seq<TypingIndicator>)
    requires UniqueTypers(indicators) && !IsTypingIn(indicators, t.userId)
    ensures UniqueTypers([t] + indicators)
  {
    var s := [t] + indicators;
    forall i, j | 0 <= i < j < |s| ensures s[i].userId != s[j].userId {
      if i == 0 {
        assert s[j] == indicators[j - 1] && s[j] in indicators;
      } else {
        assert s[i] == indicators[i - 1] && s[j] == indicators[j - 1];
      }
    }
  }

  /** Filtering out one user never creates a duplicate. */
  lemma {:induction false} WithoutTyperKeepsUnique(indicators: seq<TypingIndicator>, userId: UserId)
    ensures UniqueTypers(indicators) ==> UniqueTypers(WithoutTyper(indicators, userId))
  {
    if indicators != [] && UniqueTypers(indicators) {
      UniqueTypersTail(indicators);
      WithoutTyperKeepsUnique(indicators[1..], userId);
      if indicators[0].userId != userId {
        UniqueTypersCons(indicators[0], WithoutTyper(indicators[1..], userId));
      }
    }
  }

  /** Each list is keyed by its match, holds live indicators and at most one per user. */
  ghost predicate TypingValid(typing: JsMap<MatchId, seq<TypingIndicator>>) {
    && typing.Valid()
    && forall m :: m in typing.table ==>
         && UniqueTypers(typing.table[m])
         && forall t :: t in typing.table[m] ==> t.matchId == m && t.isTyping
  }

  /** `typingUsers.get(matchId) || []`. */
  function Indicators(typing: JsMap<MatchId, seq<TypingIndicator>>, matchId: MatchId): (r: seq<TypingIndicator>)
    ensures matchId !in typing.table ==> r == []
    ensures TypingValid(typing) ==> UniqueTypers(r) && forall t :: t in r ==> t.matchId == matchId && t.isTyping
  {
    if matchId in typing.table then typing.table[matchId] else []
  }

  /** The user has an indicator in the match. */
  predicate WasTyping(typing: JsMap<MatchId, seq<TypingIndicator>>, matchId: MatchId, userId: UserId) {
    IsTypingIn(Indicators(typing, matchId), userId)
  }

  /** Lists of matches other than `matchId` are untouched. */
  ghost predicate OtherListsUnchanged(after: JsMap<MatchId, seq<TypingIndicator>>, before: JsMap<MatchId, seq<TypingIndicator>>, matchId: MatchId) {
    forall k :: k != matchId ==>
      (k in after.table <==> k in before.table) && (k in before.table ==> after.table[k] == before.table[k])
  }

  /** start_typing: replace the user's indicator in its match by the new one, placed last. */
  function Start(typing: JsMap<MatchId, seq<TypingIndicator>>, indicator: TypingIndicator): (r: JsMap<MatchId, seq<TypingIndicator>>)
    requires typing.Valid()
    ensures r.Valid()
    ensures indicator.matchId in r.table
    ensures forall t :: t in Indicators(r, indicator.matchId) <==>
      t == indicator || (t in Indicators(typing, indicator.matchId) && t.userId != indicator.userId)
    ensures OtherListsUnchanged(r, typing, indicator.matchId)
    ensures TypingValid(typing) && indicator.isTyping ==> TypingValid(r)
  {
    var others := WithoutTyper(Indicators(typing, indicator.matchId), indicator.userId);
    WithoutTyperKeepsUnique(Indicators(typing, indicator.matchId), indicator.userId);
    var list := others + [indicator];
    assert UniqueTypers(others) ==> UniqueTypers(list) by {
      if UniqueTypers(others) {
        forall i, j | 0 <= i < j < |list| ensures list[i].userId != list[j].userId {
          if j == |others| {
            assert list[i] in others;
          } else {
            assert list[i] == others[i] && list[j] == others[j];
          }
        }
      }
    }
    typing.Set(indicator.matchId, list)
  }

  /** The helper `stopTyping`: drop the user's indicator, writing the list back only if one existed. */
  function Stop(typing: JsMap<MatchId, seq<TypingIndicator>>, matchId: MatchId, userId: UserId): (r: JsMap<MatchId, seq<TypingIndicator>>)
    requires typing.Valid()
    ensures r.Valid()
    ensures !WasTyping(r, matchId, userId)
    ensures !WasTyping(typing, matchId, userId) ==> r == typing
    ensures forall t :: t in Indicators(r, matchId) <==> t in Indicators(typing, matchId) && t.userId != userId
    ensures OtherListsUnchanged(r, typing, matchId)
    ensures TypingValid(typing) ==> TypingValid(r)
  {
    WithoutTyperKeepsUnique(Indicators(typing, matchId), userId);
    if WasTyping(typing, matchId, userId) then typing.Set(matchId, WithoutTyper(Indicators(typing, matchId), userId))
    else typing
  }

  /** The `typing_stop` notice `stopTyping` sends: one if an indicator existed, none otherwise. */
  function StopNotice(typing: JsMap<MatchId, seq<TypingIndicator>>, matchId: MatchId, userId: UserId, socketId: SocketId): (r: seq<Effect>)
    ensures |r| <= 1
    ensures r != [] <==> WasTyping(typing, matchId, userId)
    ensures r != [] ==> r == [Emit(RoomExceptSender(matchId, socketId), TypingStop(matchId, userId))]
  {
    if WasTyping(typing, matchId, userId) then [Emit(RoomExceptSender(matchId, socketId), TypingStop(matchId, userId))] else []
  }

  /**
   * An explicit stop followed by the pending 3-second expiry (or any two
   * stops) sends exactly one `typing_stop` if the user was typing, none otherwise.
   */
  lemma StopThenExpiry(typing: JsMap<MatchId, seq<TypingIndicator>>, matchId: MatchId, userId: UserId, s1: SocketId, s2: SocketId)
    requires typing.Valid()
    ensures var once := Stop(typing, matchId, userId);
      && Stop(once, matchId, userId) == once
      && |StopNotice(typing, matchId, userId, s1) + StopNotice(once, matchId, userId, s2)|
         == if WasTyping(typing, matchId, userId) then 1 else 0
  {
  }

  /**
   * The expiry is never cancelled: the timer of a first start_typing clears
   * the indicator of a second one that refreshed it.
   */
  lemma FirstExpiryClearsRefresh(typing: JsMap<MatchId, seq<TypingIndicator>>, first: TypingIndicator, second: TypingIndicator)
    requires typing.Valid()
    requires first.matchId == second.matchId && first.userId == second.userId
    ensures var refreshed := Start(Start(typing, first), second);
      && WasTyping(refreshed, first.matchId, first.userId)
      && !WasTyping(Stop(refreshed, first.matchId, first.userId), first.matchId, first.userId)
      && |StopNotice(refreshed, first.matchId, first.userId, "")| == 1
  {
    var refreshed := Start(Start(typing, first), second);
    assert second in Indicators(refreshed, first.matchId);
  }

  /** Disconnect cleanup: every list loses the user's indicator; the keys and their order stay. */
  function DropUser(typing: JsMap<MatchId, seq<TypingIndicator>>, userId: UserId): (r: JsMap<MatchId, seq<TypingIndicator>>)
    requires typing.Valid()
    ensures r.Valid() && r.order == typing.order && r.table.Keys == typing.table.Keys
  {
    JsMap(typing.order, map m | m in typing.table :: WithoutTyper(typing.table[m], userId))
  }

  /**
   * After disconnect cleanup the user types nowhere, every other indicator
   * stays in its list, lists without the user are untouched, and the lists
   * stay well formed.
   */
  lemma DropUserFacts(typing: JsMap<MatchId, seq<TypingIndicator>>, userId: UserId)
    requires typing.Valid()
    ensures var r := DropUser(typing, userId);
      && (forall m :: m in r.table ==> !IsTypingIn(r.table[m], userId))
      && (forall m, t :: m in typing.table && t in typing.table[m] && t.userId != userId ==> t in r.table[m])
      && (forall m :: m in typing.table && !IsTypingIn(typing.table[m], userId) ==> r.table[m] == typing.table[m])
      && (TypingValid(typing) ==> TypingValid(r))
  {
    var r := DropUser(typing, userId);
    forall m | m in r.table ensures UniqueTypers(typing.table[m]) ==> UniqueTypers(r.table[m]) {
      WithoutTyperKeepsUnique(typing.table[m], userId);
    }
  }

  /** One turn of disconnect's loop over the typing lists: the list of `matchId` loses the user's indicator. */
  function DropUserIn(typing: JsMap<MatchId, seq<TypingIndicator>>, matchId: MatchId, userId: UserId): (r: JsMap<MatchId, seq<TypingIndicator>>)
    requires typing.Valid()
    ensures r.Valid() && r.order == typing.order && r.table.Keys == typing.table.Keys
    ensures forall k :: k in r.table ==>
      r.table[k] == if k == matchId then WithoutTyper(typing.table[k], userId) else typing.table[k]
  {
    if matchId !in typing.table then typing
    else
      var typingList := typing.table[matchId];
      var filtered := WithoutTyper(typingList, userId);
      if |filtered| != |typingList| then typing.Set(matchId, filtered) else typing
  }

  /** Disconnect's loop over the typing lists, from the match `keys[0]` on. */
  function DropUserFrom(typing: JsMap<MatchId, seq<TypingIndicator>>, keys: seq<MatchId>, userId: UserId): (r: JsMap<MatchId, seq<TypingIndicator>>)
    requires typing.Valid()
    ensures r.Valid() && r.order == typing.order && r.table.Keys == typing.table.Keys
    decreases |keys|
  {
    if keys == [] then typing
    else DropUserFrom(DropUserIn(typing, keys[0], userId), keys[1..], userId)
  }

  /** After the loop has visited `keys`, exactly the lists named there are filtered. */
  lemma {:induction false} DropUserFromAt(typing: JsMap<MatchId, seq<TypingIndicator>>, keys: seq<MatchId>, userId: UserId, m: MatchId)
    requires typing.Valid() && m in typing.table
    ensures DropUserFrom(typing, keys, userId).table[m]
      == if m in keys then WithoutTyper(typing.table[m], userId) else typing.table[m]
    decreases |keys|
  {
    if keys != [] {
      var next := DropUserIn(typing, keys[0], userId);
      DropUserFromAt(next, keys[1..], userId, m);
      assert DropUserFrom(typing, keys, userId) == DropUserFrom(next, keys[1..], userId);
      assert m in keys <==> m == keys[0] || m in keys[1..];
    }
  }

  /** The loop visiting every list in iteration order filters every list. */
  lemma DropUserFromEvery(typing: JsMap<MatchId, seq<TypingIndicator>>, userId: UserId)
    requires typing.Valid()
    ensures forall m :: m in typing.table ==>
      DropUserFrom(typing, typing.order, userId).table[m] == WithoutTyper(typing.table[m], userId)
  {
    forall m | m in typing.table
      ensures DropUserFrom(typing, typing.order, userId).table[m] == WithoutTyper(typing.table[m], userId)
    {
      DropUserFromAt(typing, typing.order, userId, m);
    }
  }

  /** So that loop computes `DropUser`. */
  lemma DropUserFromAll(typing: JsMap<MatchId, seq<TypingIndicator>>, userId: UserId)
    requires typing.Valid()
    ensures DropUserFrom(typing, typing.order, userId) == DropUser(typing, userId)
  {
    DropUserFromEvery(typing, userId);
    var r := DropUserFrom(typing, typing.order, userId);
    assert r.table == DropUser(typing, userId).table;
  }

  /** Visiting one more match extends the fold by one filtering step. */
  lemma {:induction false} DropUserFromSnoc(typing: JsMap<MatchId, seq<TypingIndicator>>, keys: seq<MatchId>, k: MatchId, userId: UserId)
    requires typing.Valid()
    ensures DropUserFrom(typing, keys + [k], userId) == DropUserIn(DropUserFrom(typing, keys, userId), k, userId)
    decreases |keys|
  {
    if keys == [] {
      assert ([] + [k])[1..] == [];
    } else {
      assert (keys + [k])[0] == keys[0] && (keys + [k])[1..] == keys[1..] + [k];
      DropUserFromSnoc(DropUserIn(typing, keys[0], userId), keys[1..], k, userId);
    }
  }

  /** Round `j` of disconnect's loop finds match `j`'s list as it was and filters it. */
  lemma DropUserFromNext(typing: JsMap<MatchId, seq<TypingIndicator>>, j: nat, userId: UserId, current: JsMap<MatchId, seq<TypingIndicator>>)
    requires typing.Valid() && j < |typing.order|
    requires current == DropUserFrom(typing, typing.order[..j], userId)
    ensures typing.order[j] in current.table && current.table[typing.order[j]] == typing.table[typing.order[j]]
    ensures DropUserFrom(typing, typing.order[..j + 1], userId) == DropUserIn(current, typing.order[j], userId)
  {
    var keys := typing.order;
    DistinctPrefix(keys, j);
    DropUserFromAt(typing, keys[..j], userId, keys[j]);
    PrefixSnoc(keys, j);
    DropUserFromSnoc(typing, keys[..j], keys[j], userId);
  }

  /** The `typing_stop` notices disconnect sends: one per listed match where the user was typing. */
  function StopNotices(keys: seq<MatchId>, table: map<MatchId, seq<TypingIndicator>>, userId: UserId, socketId: SocketId): (r: seq<Effect>)
    requires forall k :: k in keys ==> k in table
    ensures |r| <= |keys|
    ensures forall e :: e in r ==> exists k :: k in keys && IsTypingIn(table[k], userId) && e == Emit(RoomExceptSender(k, socketId), TypingStop(k, userId))
  {
    if keys == [] then []
    else
      var last := keys[|keys| - 1];
      StopNotices(keys[..|keys| - 1], table, userId, socketId)
        + (if IsTypingIn(table[last], userId) then [Emit(RoomExceptSender(last, socketId), TypingStop(last, userId))] else [])
  }

  /** The notices for the first `i + 1` matches extend those for the first `i` by the one for match `i`, if any. */
  lemma StopNoticesSnoc(keys: seq<MatchId>, i: nat, table: map<MatchId, seq<TypingIndicator>>, userId: UserId, socketId: SocketId)
    requires i < |keys| && forall k :: k in keys ==> k in table
    ensures StopNotices(keys[..i + 1], table, userId, socketId)
      == StopNotices(keys[..i], table, userId, socketId)
         + (if IsTypingIn(table[keys[i]], userId) then [Emit(RoomExceptSender(keys[i], socketId), TypingStop(keys[i], userId))] else [])
  {
    assert keys[..i + 1][..i] == keys[..i];
  }

  /** Disconnect sends exactly one `typing_stop` to each match where the user was typing, and none elsewhere. */
  lemma {:induction false} StopNoticeOncePerTypingRoom(
    keys: seq<MatchId>, table: map<MatchId, seq<TypingIndicator>>, userId: UserId, socketId: SocketId, m: MatchId)
    requires Distinct(keys) && forall k :: k in keys ==> k in table
    ensures multiset(StopNotices(keys, table, userId, socketId))[Emit(RoomExceptSender(m, socketId), TypingStop(m, userId))]
      == if m in keys && IsTypingIn(table[m], userId) then 1 else 0
  {
    if keys != [] {
      var front := keys[..|keys| - 1];
      var last := keys[|keys| - 1];
      assert keys == front + [last];
      DistinctInit(keys);
      StopNoticeOncePerTypingRoom(front, table, userId, socketId, m);
    }
  }
}
