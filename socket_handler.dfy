/** The Socket.IO event handlers of src/websocket/socketHandler.js: `join`,
    `chat_message`, `danmu_message`, `recall_message` and `disconnect`, over
    the shared `ChatState`. Each handler returns what it emits, in order. */
module SocketHandler {
  import opened Common
  import opened JsMaps
  import opened ChatHistory
  import opened UserService

  /** Recall is allowed up to two minutes after the message's timestamp. */
  const RECALL_WINDOW_MS: int := 2 * 60 * 1000

  const JOIN_MISSING_FIELDS: string := "缺少用户ID或用户名"
  const SENDER_CHECK_FAILED: string := "用户验证失败，请重新输入用户名"
  const RECALL_AUTH_FAILED: string := "用户验证失败"
  const RECALL_NOT_FOUND: string := "消息不存在或无权限撤回"
  const RECALL_NOT_OWNER: string := "无权限撤回此消息"
  const RECALL_EXPIRED: string := "消息发送超过2分钟，无法撤回"

  datatype JoinPayload = JoinPayload(userId: Option<string>, username: Option<string>)

  datatype ChatPayload = ChatPayload(
    userId: Option<string>,
    username: Option<string>,
    userName: Option<string>,
    localId: Option<string>,
    content: Option<string>,
    msgType: Option<string>,
    recalled: Option<bool>,
    quote: Option<Quote>,
    mentionedUserIds: Option<seq<string>>,
    mentions: Option<seq<string>>)

  datatype DanmuPayload = DanmuPayload(
    userId: Option<string>, content: Option<string>, color: Option<string>, timestamp: Option<int>)

  datatype RecallPayload = RecallPayload(userId: Option<string>, messageId: Option<nat>)

  /** Event names and payloads the handlers emit. */
  datatype Outbound =
    | UserIdFailed(message: string)
    | ChatHistorySnapshot(messages: seq<Message>)
    | UserJoin(username: string, userId: UserId, nickname: string, users: seq<RosterEntry>)
    | ChatBroadcast(msg: Message)
    | DanmuBroadcast(content: Option<string>, color: Option<string>, username: string, userId: UserId, timestamp: Option<int>)
    | RecallFailed(message: string)
    | MessageRecalled(messageId: nat, userId: UserId)
    | UserLeave(userId: UserId, users: seq<RosterEntry>)

  // ---------------------------------------------------------------- join

  /** The older socket a join with `userId` on `socket` disconnects: looked
      for only when `userInfoMap` has `userId`, it is the first socket bound
      to `userId`, provided that is not `socket` itself. */
  function EvictedSocket(online: JsMap<SocketId, UserId>, infos: JsMap<UserId, UserInfo>,
                         socket: SocketId, userId: UserId): (r: Option<SocketId>)
    requires online.Valid()
    ensures r.Some? ==> r.value != socket && r.value in online.table && online.table[r.value] == userId
    ensures RegistryInv(online, infos) && r.None? ==>
              forall t :: t in online.table && t != socket ==> online.table[t] != userId
  {
    if !infos.Has(userId) then None
    else
      match online.FirstKeyWhere(u => u == userId)
      case Some(t) => if t != socket then Some(t) else None
      case None => None
  }

  /** `onlineUsers` after an accepted join. */
  function JoinedOnline(online: JsMap<SocketId, UserId>, infos: JsMap<UserId, UserInfo>,
                        socket: SocketId, userId: UserId): JsMap<SocketId, UserId>
    requires online.Valid()
  {
    var evicted := EvictedSocket(online, infos, socket, userId);
    (if evicted.Some? then online.Delete(evicted.value) else online).Set(socket, userId)
  }

  /** `userInfoMap` after an accepted join: a first join creates the record
      with nickname = username; a rejoin updates the username only. */
  function JoinedInfos(infos: JsMap<UserId, UserInfo>, userId: UserId, username: string): (r: JsMap<UserId, UserInfo>)
    requires infos.Valid()
    ensures r.Valid() && userId in r.table
    ensures r.table[userId].userId == (if userId in infos.table then infos.table[userId].userId else userId)
    ensures r.table[userId].username == username
    ensures r.table[userId].nickname == (if userId in infos.table then infos.table[userId].nickname else username)
    ensures forall u :: u != userId ==> r.Get(u) == infos.Get(u)
  {
    match infos.Get(userId)
    case None => infos.Set(userId, UserInfo(userId, username, username))
    case Some(info) => infos.Set(userId, info.(username := username))
  }

  /** After an accepted join exactly one socket is bound to the user: the
      joining one. Every other binding is kept, except the evicted one. */
  lemma JoinBindsExactlyOne(online: JsMap<SocketId, UserId>, infos: JsMap<UserId, UserInfo>,
                            socket: SocketId, userId: UserId)
    requires RegistryInv(online, infos)
    ensures var r := JoinedOnline(online, infos, socket, userId);
      && r.Get(socket) == Some(userId)
      && (forall t :: t in r.table && t != socket ==> r.table[t] != userId)
      && (forall t :: t in online.table && t != socket && online.table[t] != userId ==> r.Get(t) == online.Get(t))
  {
  }

  /** A join keeps the registry invariant. */
  lemma JoinKeepsRegistryInv(online: JsMap<SocketId, UserId>, infos: JsMap<UserId, UserInfo>,
                             socket: SocketId, userId: UserId, username: string)
    requires RegistryInv(online, infos) && userId != ""
    ensures RegistryInv(JoinedOnline(online, infos, socket, userId), JoinedInfos(infos, userId, username))
  {
    JoinBindsExactlyOne(online, infos, socket, userId);
  }

  /** The `nickname` field of `user_join`: the stored nickname, or the
      joining username when that is empty. */
  function AnnouncedNickname(infos: JsMap<UserId, UserInfo>, userId: UserId, username: string): string {
    if userId in infos.table && infos.table[userId].nickname != "" then infos.table[userId].nickname else username
  }

  method Join(st: ChatState, socket: SocketId, p: JoinPayload) returns (out: seq<Emit<Outbound>>)
    requires st.Valid()
    modifies st
    ensures st.Valid()
    ensures st.userIdMap == old(st.userIdMap) && st.chatHistory == old(st.chatHistory) && st.tempUploads == old(st.tempUploads)
    ensures !Truthy(p.userId) || !Truthy(p.username) ==>
              && out == [ToSocket(socket, UserIdFailed(JOIN_MISSING_FIELDS))]
              && st.onlineUsers == old(st.onlineUsers) && st.userInfoMap == old(st.userInfoMap)
    ensures Truthy(p.userId) && Truthy(p.username) ==>
              var u, name := p.userId.value, p.username.value;
              var evicted := EvictedSocket(old(st.onlineUsers), old(st.userInfoMap), socket, u);
              && st.onlineUsers == JoinedOnline(old(st.onlineUsers), old(st.userInfoMap), socket, u)
              && st.userInfoMap == JoinedInfos(old(st.userInfoMap), u, name)
              && out == (if evicted.Some? then [ForceDisconnect(evicted.value)] else [])
                        + [ToSocket(socket, ChatHistorySnapshot(st.chatHistory)),
                           ToAll(UserJoin(name, u, AnnouncedNickname(st.userInfoMap, u, name),
                                          OnlineUserList(st.onlineUsers, st.userInfoMap)))]
  {
    if !Truthy(p.userId) || !Truthy(p.username) {
      return [ToSocket(socket, UserIdFailed(JOIN_MISSING_FIELDS))];
    }
    var u, name := p.userId.value, p.username.value;
    var evicted := EvictedSocket(st.onlineUsers, st.userInfoMap, socket, u);
    var online := JoinedOnline(st.onlineUsers, st.userInfoMap, socket, u);
    var infos := JoinedInfos(st.userInfoMap, u, name);
    JoinKeepsRegistryInv(st.onlineUsers, st.userInfoMap, socket, u, name);
    st.onlineUsers, st.userInfoMap := online, infos;
    out := (if evicted.Some? then [ForceDisconnect(evicted.value)] else [])
           + [ToSocket(socket, ChatHistorySnapshot(st.chatHistory)),
              ToAll(UserJoin(name, u, AnnouncedNickname(infos, u, name), OnlineUserList(online, infos)))];
  }

  // ------------------------------------------------- sender verification

  /** The check in front of `chat_message`, `danmu_message` and
      `recall_message`: the socket is bound, its user has an info record, and
      the payload claims exactly that user id. Yields the info record. */
  function VerifySender(online: JsMap<SocketId, UserId>, infos: JsMap<UserId, UserInfo>,
                        socket: SocketId, claimed: Option<string>): (r: Option<UserInfo>)
    ensures r.Some? <==> socket in online.table && online.table[socket] in infos.table
                         && claimed == Some(online.table[socket])
    ensures r.Some? ==> r.value == infos.table[claimed.value]
  {
    if socket in online.table && online.table[socket] in infos.table && claimed == Some(online.table[socket])
    then Some(infos.table[online.table[socket]])
    else None
  }

  // -------------------------------------------------------- chat_message

  /** The username behind one mentioned id, if it has a non-empty one. */
  function MentionName(id: string, infos: JsMap<UserId, UserInfo>): seq<string> {
    match infos.Get(id)
    case Some(info) => if info.username != "" then [info.username] else []
    case None => []
  }

  /** The usernames behind the mentioned ids, in mention order, repeats included. */
  function MentionedNames(ids: seq<string>, infos: JsMap<UserId, UserInfo>): seq<string>
    decreases |ids|
  {
    if ids == [] then []
    else MentionedNames(ids[..|ids| - 1], infos) + MentionName(ids[|ids| - 1], infos)
  }

  /** A name is in the derived mention list exactly when some mentioned id has
      an info record with that (non-empty) username. */
  lemma {:induction false} MentionedNamesMembers(ids: seq<string>, infos: JsMap<UserId, UserInfo>, x: string)
    ensures x in Dedup(MentionedNames(ids, infos)) <==>
              x != "" && exists i :: 0 <= i < |ids| && ids[i] in infos.table && infos.table[ids[i]].username == x
    decreases |ids|
  {
    if ids != [] {
      var init := ids[..|ids| - 1];
      MentionedNamesMembers(init, infos, x);
      forall i | 0 <= i < |init| ensures init[i] == ids[i] { }
      if x != "" && (exists i :: 0 <= i < |ids| && ids[i] in infos.table && infos.table[ids[i]].username == x) {
        var i :| 0 <= i < |ids| && ids[i] in infos.table && infos.table[ids[i]].username == x;
        if i < |init| {
          assert init[i] == ids[i];
        }
      }
    }
  }

  /** One more mentioned id adds its name, if any, at the end. */
  lemma MentionedNamesStep(ids: seq<string>, i: nat, infos: JsMap<UserId, UserInfo>)
    requires i < |ids|
    ensures MentionedNames(ids[..i + 1], infos) == MentionedNames(ids[..i], infos) + MentionName(ids[i], infos)
  {
    assert ids[..i + 1][..i] == ids[..i];
  }

  /** The `forEach` that builds `mentions` from `mentionedUserIds`. */
  method ResolveMentions(ids: seq<string>, infos: JsMap<UserId, UserInfo>) returns (mentions: seq<string>)
    ensures mentions == Dedup(MentionedNames(ids, infos))
  {
    mentions := [];
    var i := 0;
    while i < |ids|
      invariant 0 <= i <= |ids|
      invariant mentions == Dedup(MentionedNames(ids[..i], infos))
    {
      MentionedNamesStep(ids, i, infos);
      DedupSnoc(MentionedNames(ids[..i], infos), MentionName(ids[i], infos));
      var info := infos.Get(ids[i]);
      if info.Some? && info.value.username != "" && info.value.username !in mentions {
        mentions := mentions + [info.value.username];
      }
      i := i + 1;
    }
    assert ids[..|ids|] == ids;
  }

  /** `quote.userId`: the user id of the first info record (in insertion
      order) whose username is the quote's username, or "". */
  function QuotedUserId(q: Quote, infos: JsMap<UserId, UserInfo>): string
    requires infos.Valid()
  {
    match infos.FirstKeyWhere((info: UserInfo) => q.username == Some(info.username))
    case Some(k) => infos.table[k].userId
    case None => ""
  }

  /** The message an accepted `chat_message` stores and broadcasts. */
  function AcceptedMessage(p: ChatPayload, userId: UserId, nickname: string,
                           infos: JsMap<UserId, UserInfo>, now: nat): Message
    requires infos.Valid()
  {
    var aliased := Truthy(p.userName) && !Truthy(p.username);
    Message(
      id := now,
      timestamp := Millis(now),
      userId := userId,
      username := Some(nickname),
      userName := if aliased then None else p.userName,
      localId := p.localId,
      content := p.content,
      msgType := p.msgType,
      recalled := p.recalled,
      quote := if p.quote.Some? then Some(p.quote.value.(userId := Some(QuotedUserId(p.quote.value, infos)))) else None,
      mentionedUserIds := p.mentionedUserIds,
      mentions := if p.mentionedUserIds.Some? && p.mentions.None?
                  then Some(Dedup(MentionedNames(p.mentionedUserIds.value, infos)))
                  else p.mentions)
  }

  method ChatMessage(st: ChatState, socket: SocketId, p: ChatPayload, now: nat) returns (out: seq<Emit<Outbound>>)
    requires st.Valid()
    modifies st
    ensures st.Valid()
    ensures st.onlineUsers == old(st.onlineUsers) && st.userInfoMap == old(st.userInfoMap)
    ensures st.userIdMap == old(st.userIdMap) && st.tempUploads == old(st.tempUploads)
    ensures VerifySender(st.onlineUsers, st.userInfoMap, socket, p.userId).None? ==>
              out == [ToSocket(socket, UserIdFailed(SENDER_CHECK_FAILED))] && st.chatHistory == old(st.chatHistory)
    ensures VerifySender(st.onlineUsers, st.userInfoMap, socket, p.userId).Some? ==>
              var info := VerifySender(st.onlineUsers, st.userInfoMap, socket, p.userId).value;
              var m := AcceptedMessage(p, p.userId.value, info.nickname, st.userInfoMap, now);
              && m.username == Some(info.nickname) && m.userId == st.onlineUsers.table[socket]
              && st.chatHistory == AppendCapped(old(st.chatHistory), m)
              && out == [ToAll(ChatBroadcast(m))]
  {
    var info := VerifySender(st.onlineUsers, st.userInfoMap, socket, p.userId);
    if info.None? {
      return [ToSocket(socket, UserIdFailed(SENDER_CHECK_FAILED))];
    }
    var aliased := Truthy(p.userName) && !Truthy(p.username);
    var quote := p.quote;
    if quote.Some? {
      var quotedId := QuotedUserId(quote.value, st.userInfoMap);
      quote := Some(quote.value.(userId := Some(quotedId)));
    }
    var mentions := p.mentions;
    if p.mentionedUserIds.Some? && p.mentions.None? {
      var names := ResolveMentions(p.mentionedUserIds.value, st.userInfoMap);
      mentions := Some(names);
    }
    var m := Message(
      id := now, timestamp := Millis(now), userId := p.userId.value,
      username := Some(info.value.nickname),
      userName := if aliased then None else p.userName,
      localId := p.localId, content := p.content, msgType := p.msgType, recalled := p.recalled,
      quote := quote, mentionedUserIds := p.mentionedUserIds, mentions := mentions);
    st.chatHistory := AppendCapped(st.chatHistory, m);
    out := [ToAll(ChatBroadcast(m))];
  }

  // ------------------------------------------------------- danmu_message

  /** Overlay messages are broadcast with the sender's nickname and never
      stored; a failed sender check is dropped silently. */
  method DanmuMessage(st: ChatState, socket: SocketId, p: DanmuPayload) returns (out: seq<Emit<Outbound>>)
    ensures VerifySender(st.onlineUsers, st.userInfoMap, socket, p.userId).None? ==> out == []
    ensures VerifySender(st.onlineUsers, st.userInfoMap, socket, p.userId).Some? ==>
              var info := VerifySender(st.onlineUsers, st.userInfoMap, socket, p.userId).value;
              out == [ToAll(DanmuBroadcast(p.content, p.color, info.nickname, p.userId.value, p.timestamp))]
  {
    var info := VerifySender(st.onlineUsers, st.userInfoMap, socket, p.userId);
    if info.None? {
      return [];
    }
    out := [ToAll(DanmuBroadcast(p.content, p.color, info.value.nickname, st.onlineUsers.table[socket], p.timestamp))];
  }

  // ------------------------------------------------------ recall_message

  datatype RecallError = AuthFailed | NotFound | NotOwner | Expired

  function RecallErrorText(e: RecallError): string {
    match e
    case AuthFailed => RECALL_AUTH_FAILED
    case NotFound => RECALL_NOT_FOUND
    case NotOwner => RECALL_NOT_OWNER
    case Expired => RECALL_EXPIRED
  }

  /** `now - messageTime > twoMinutes` rejects. A clock-string timestamp
      parses to NaN, and a comparison with NaN is false, so it never rejects. */
  predicate WithinRecallWindow(ts: Stamp, now: int) {
    match ts
    case Millis(t) => now - t <= RECALL_WINDOW_MS
    case LocalTime(_) => true
  }

  /** The position of the requested message, or why recall is refused. */
  function RecallCheck(online: JsMap<SocketId, UserId>, infos: JsMap<UserId, UserInfo>, h: seq<Message>,
                       socket: SocketId, p: RecallPayload, now: int): (r: Result<nat, RecallError>)
    ensures r == Err(AuthFailed) <==> VerifySender(online, infos, socket, p.userId).None?
    ensures r == Err(NotFound) <==> VerifySender(online, infos, socket, p.userId).Some?
                                    && (p.messageId.None? || forall i :: 0 <= i < |h| ==> h[i].id != p.messageId.value)
    ensures r.Ok? || r == Err(NotOwner) || r == Err(Expired) ==>
              && VerifySender(online, infos, socket, p.userId).Some? && p.messageId.Some?
              && FindMessage(h, p.messageId.value) != -1
    ensures r.Ok? ==> r.value == FindMessage(h, p.messageId.value)
    ensures r.Ok? ==> r.value < |h| && h[r.value].id == p.messageId.value
                      && h[r.value].userId == online.table[socket]
                      && WithinRecallWindow(h[r.value].timestamp, now)
    ensures r == Err(NotOwner) ==> h[FindMessage(h, p.messageId.value)].userId != online.table[socket]
    ensures r == Err(Expired) ==> h[FindMessage(h, p.messageId.value)].userId == online.table[socket]
                                  && !WithinRecallWindow(h[FindMessage(h, p.messageId.value)].timestamp, now)
  {
    if VerifySender(online, infos, socket, p.userId).None? then Err(AuthFailed)
    else if p.messageId.None? then Err(NotFound)
    else
      var i := FindMessage(h, p.messageId.value);
      if i == -1 then Err(NotFound)
      else if h[i].userId != online.table[socket] then Err(NotOwner)
      else if !WithinRecallWindow(h[i].timestamp, now) then Err(Expired)
      else Ok(i)
  }

  /** The window is inclusive: exactly two minutes after the timestamp is
      still allowed, one millisecond later is not. */
  lemma RecallWindowBoundary(t: int)
    ensures WithinRecallWindow(Millis(t), t + 120000)
    ensures !WithinRecallWindow(Millis(t), t + 120001)
  {
  }

  /** Recalling the same message again inside the window succeeds at the
      same position and leaves the same tombstone. */
  lemma {:induction false} RecallTwice(online: JsMap<SocketId, UserId>, infos: JsMap<UserId, UserInfo>, h: seq<Message>,
                                       socket: SocketId, p: RecallPayload, now: int, later: int)
    requires RecallCheck(online, infos, h, socket, p, now).Ok?
    requires WithinRecallWindow(h[RecallCheck(online, infos, h, socket, p, now).value].timestamp, later)
    ensures var i := RecallCheck(online, infos, h, socket, p, now).value;
            var h' := h[i := Tombstone(h[i])];
            && RecallCheck(online, infos, h', socket, p, later) == Ok(i)
            && h'[i := Tombstone(h'[i])] == h'
  {
    var i := RecallCheck(online, infos, h, socket, p, now).value;
    var h' := h[i := Tombstone(h[i])];
    var id := p.messageId.value;
    assert forall j :: 0 <= j < |h'| ==> h'[j].id == h[j].id;
    SameIdsSameSearch(h, h', id, 0);
  }

  /** `findIndex` by id only looks at ids. */
  lemma {:induction false} SameIdsSameSearch(h: seq<Message>, h': seq<Message>, id: nat, from: nat)
    requires |h| == |h'| && from <= |h|
    requires forall j :: 0 <= j < |h| ==> h[j].id == h'[j].id
    ensures FindMessage(h, id, from) == FindMessage(h', id, from)
    decreases |h| - from
  {
    if from < |h| {
      SameIdsSameSearch(h, h', id, from + 1);
    }
  }

  method RecallMessage(st: ChatState, socket: SocketId, p: RecallPayload, now: int) returns (out: seq<Emit<Outbound>>)
    requires st.Valid()
    modifies st
    ensures st.Valid()
    ensures st.onlineUsers == old(st.onlineUsers) && st.userInfoMap == old(st.userInfoMap)
    ensures st.userIdMap == old(st.userIdMap) && st.tempUploads == old(st.tempUploads)
    ensures var r := RecallCheck(st.onlineUsers, st.userInfoMap, old(st.chatHistory), socket, p, now);
      && (r.Err? ==> st.chatHistory == old(st.chatHistory) && out == [ToSocket(socket, RecallFailed(RecallErrorText(r.error)))])
      && (r.Ok? ==> st.chatHistory == old(st.chatHistory)[r.value := Tombstone(old(st.chatHistory)[r.value])]
                    && out == [ToAll(MessageRecalled(p.messageId.value, st.onlineUsers.table[socket]))])
  {
    var r := RecallCheck(st.onlineUsers, st.userInfoMap, st.chatHistory, socket, p, now);
    if r.Err? {
      return [ToSocket(socket, RecallFailed(RecallErrorText(r.error)))];
    }
    var i := r.value;
    st.chatHistory := st.chatHistory[i := Tombstone(st.chatHistory[i])];
    out := [ToAll(MessageRecalled(p.messageId.value, st.onlineUsers.table[socket]))];
  }

  // ---------------------------------------------------------- disconnect

  /** `userInfoMap` after `socket` (bound to `userId`) leaves: the record goes
      only when no other socket is still bound to `userId`. */
  function InfosAfterLeave(online: JsMap<SocketId, UserId>, infos: JsMap<UserId, UserInfo>, userId: UserId): JsMap<UserId, UserInfo>
    requires infos.Valid()
  {
    if online.HasValue(userId) then infos else infos.Delete(userId)
  }

  /** Leaving keeps the registry invariant, and in a consistent registry the
      leaving user's record always goes, since no second socket can hold
      the same user id. */
  lemma LeaveKeepsRegistryInv(online: JsMap<SocketId, UserId>, infos: JsMap<UserId, UserInfo>, socket: SocketId)
    requires RegistryInv(online, infos) && socket in online.table
    ensures var u := online.table[socket];
            var online' := online.Delete(socket);
            && !online'.HasValue(u)
            && InfosAfterLeave(online', infos, u) == infos.Delete(u)
            && RegistryInv(online', InfosAfterLeave(online', infos, u))
  {
  }

  method Disconnect(st: ChatState, socket: SocketId) returns (out: seq<Emit<Outbound>>)
    requires st.Valid()
    modifies st
    ensures st.Valid()
    ensures st.userIdMap == old(st.userIdMap) && st.chatHistory == old(st.chatHistory) && st.tempUploads == old(st.tempUploads)
    ensures socket !in old(st.onlineUsers.table) ==>
              out == [] && st.onlineUsers == old(st.onlineUsers) && st.userInfoMap == old(st.userInfoMap)
    ensures socket in old(st.onlineUsers.table) ==>
              var u := old(st.onlineUsers.table[socket]);
              && st.onlineUsers == old(st.onlineUsers).Delete(socket)
              && st.userInfoMap == InfosAfterLeave(st.onlineUsers, old(st.userInfoMap), u)
              && out == [ToAll(UserLeave(u, OnlineUserList(st.onlineUsers, st.userInfoMap)))]
  {
    var bound := st.onlineUsers.Get(socket);
    if !Truthy(bound) {
      return [];
    }
    var u := bound.value;
    LeaveKeepsRegistryInv(st.onlineUsers, st.userInfoMap, socket);
    st.onlineUsers := st.onlineUsers.Delete(socket);
    if !st.onlineUsers.HasValue(u) {
      st.userInfoMap := st.userInfoMap.Delete(u);
    }
    out := [ToAll(UserLeave(u, OnlineUserList(st.onlineUsers, st.userInfoMap)))];
  }
}
