/** The legacy monolithic server (server.js). It keeps its own registry:
    sockets are bound to usernames, info records are filed under usernames,
    and a `userIdMap` from user id to username is filled on every join.
    Its handlers differ from those of src/websocket/socketHandler.js, so it
    is a separate class over its own state. */
module LegacyServer {
  import opened Common
  import opened JsMaps
  import opened ChatHistory
  import opened UserService
  import opened Auth
  import SocketHandler
  import Api

  const JOIN_ID_TAKEN: string := "用户ID已被使用，请重新输入用户名"

  /** An entry of the `users` list the server broadcasts: the info record
      filed under the socket's username, or `{ username, userId: null }`. */
  datatype Member = Listed(info: UserInfo) | Unlisted(username: string)

  /** Event names and payloads the legacy handlers emit. */
  datatype LegacyOutbound =
    | IdFailed(message: string)
    | HistorySnapshot(messages: seq<Message>)
    | Joined(username: string, userId: string, nickname: string, users: seq<Member>)
    | Chat(msg: Message)
    | Danmu(content: Option<string>, color: Option<string>, username: string, userId: string, timestamp: Option<int>)
    | Left(username: string, users: seq<Member>)

  /** What the legacy registry keeps true between events: the three maps are
      well formed, every bound username is non-empty and has an info record,
      every info record is filed under its own username with a non-empty
      user id, and `userIdMap` holds non-empty ids and names only. */
  ghost predicate LegacyInv(online: JsMap<SocketId, string>, infos: JsMap<string, UserInfo>, ids: JsMap<string, string>) {
    && online.Valid() && infos.Valid() && ids.Valid()
    && (forall s :: s in online.table ==> online.table[s] != "" && online.table[s] in infos.table)
    && (forall n :: n in infos.table ==> infos.table[n].username == n && infos.table[n].userId != "")
    && (forall u :: u in ids.table ==> u != "" && ids.table[u] != "")
  }

  // -------------------------------------------------------------- roster

  function MemberFor(name: string, infos: JsMap<string, UserInfo>): Member {
    match infos.Get(name)
    case Some(info) => Listed(info)
    case None => Unlisted(name)
  }

  /** The `users` list for the sockets `sockets`, in that order. */
  function MembersFrom(sockets: seq<SocketId>, online: map<SocketId, string>, infos: JsMap<string, UserInfo>): (r: seq<Member>)
    requires forall s :: s in sockets ==> s in online
    ensures |r| == |sockets|
    ensures forall i :: 0 <= i < |r| ==> r[i] == MemberFor(online[sockets[i]], infos)
  {
    if sockets == [] then []
    else [MemberFor(online[sockets[0]], infos)] + MembersFrom(sockets[1..], online, infos)
  }

  /** `Array.from(onlineUsers.entries()).map(...)`: one entry per socket, in
      insertion order. */
  function MemberList(online: JsMap<SocketId, string>, infos: JsMap<string, UserInfo>): seq<Member>
    requires online.Valid()
  {
    MembersFrom(online.keys, online.table, infos)
  }

  /** In a consistent registry every broadcast entry is the info record filed
      under the socket's username. */
  lemma MembersAllListed(online: JsMap<SocketId, string>, infos: JsMap<string, UserInfo>, ids: JsMap<string, string>)
    requires LegacyInv(online, infos, ids)
    ensures var r := MemberList(online, infos);
      && |r| == |online.keys|
      && forall i :: 0 <= i < |r| ==> r[i].Listed? && r[i].info.username == online.table[online.keys[i]]
  {
  }

  // ---------------------------------------------------------------- join

  /** The socket found for a join with `userId`: looked for only when
      `userIdMap` has `userId`, it is the first socket, in insertion order,
      bound to the username `userIdMap` gives for it. */
  function ExistingSocket(online: JsMap<SocketId, string>, ids: JsMap<string, string>, userId: string): (r: Option<SocketId>)
    requires online.Valid()
    ensures r.Some? ==> userId in ids.table && r.value in online.table && online.table[r.value] == ids.table[userId]
    ensures r.None? <==> userId !in ids.table || forall s :: s in online.table ==> online.table[s] != ids.table[userId]
  {
    if userId !in ids.table then None
    else
      var name := ids.table[userId];
      var i := online.FirstIndexWhere(u => u == name);
      if i == -1 then None else Some(online.keys[i])
  }

  /** How `join` ends: refused with a message, or accepted, possibly
      disconnecting an older socket. */
  datatype JoinDecision = MissingFields | IdTaken | Accept(evicted: Option<SocketId>)

  /** The `user_id_failed` message of a refused join. */
  function RefusalText(d: JoinDecision): string
    requires !d.Accept?
  {
    if d.MissingFields? then SocketHandler.JOIN_MISSING_FIELDS else JOIN_ID_TAKEN
  }

  /** The checks of `join`, in the order the handler makes them. */
  function DecideJoin(online: JsMap<SocketId, string>, ids: JsMap<string, string>,
                      socket: SocketId, p: SocketHandler.JoinPayload): (d: JoinDecision)
    requires online.Valid()
    ensures d.Accept? ==> Truthy(p.userId) && Truthy(p.username)
  {
    if !Truthy(p.userId) || !Truthy(p.username) then MissingFields
    else
      var e := ExistingSocket(online, ids, p.userId.value);
      if e.Some? && e.value != socket && online.table[e.value] != p.username.value then IdTaken
      else if e.Some? && e.value != socket then Accept(e)
      else Accept(None)
  }

  /** A join is refused for missing fields exactly when the id or the name is
      falsy; it is refused as taken exactly when the socket found for the id
      is another one holding a different username; it disconnects exactly
      that socket when it holds the same username. */
  lemma DecideJoinCases(online: JsMap<SocketId, string>, ids: JsMap<string, string>,
                        socket: SocketId, p: SocketHandler.JoinPayload)
    requires online.Valid()
    ensures var d := DecideJoin(online, ids, socket, p);
      && (d.MissingFields? <==> !Truthy(p.userId) || !Truthy(p.username))
      && (Truthy(p.userId) && Truthy(p.username) ==>
            var e := ExistingSocket(online, ids, p.userId.value);
            && (d.IdTaken? <==> e.Some? && e.value != socket && online.table[e.value] != p.username.value)
            && (d.Accept? && d.evicted.Some? <==> e.Some? && e.value != socket && online.table[e.value] == p.username.value)
            && (d.Accept? && d.evicted.Some? ==> d.evicted == e))
  {
  }

  /** A userId already held by another live socket under a different name is
      refused whichever map order holds it; a fresh userId is never refused. */
  lemma JoinRefusesOnlyTakenIds(online: JsMap<SocketId, string>, ids: JsMap<string, string>,
                                socket: SocketId, p: SocketHandler.JoinPayload)
    requires online.Valid() && Truthy(p.userId) && Truthy(p.username)
    ensures p.userId.value !in ids.table ==> DecideJoin(online, ids, socket, p) == Accept(None)
    ensures DecideJoin(online, ids, socket, p).IdTaken? ==>
              p.userId.value in ids.table && ids.table[p.userId.value] != p.username.value
  {
  }

  /** `onlineUsers` after an accepted join. */
  function OnlineAfterJoin(online: JsMap<SocketId, string>, evicted: Option<SocketId>,
                           socket: SocketId, username: string): JsMap<SocketId, string>
    requires online.Valid()
  {
    (if evicted.Some? then online.Delete(evicted.value) else online).Set(socket, username)
  }

  /** `userInfoMap.set(username, { userId, username, nickname: username })` */
  function InfosAfterJoin(infos: JsMap<string, UserInfo>, userId: string, username: string): JsMap<string, UserInfo>
    requires infos.Valid()
  {
    infos.Set(username, UserInfo(userId, username, username))
  }

  /** An accepted join binds the socket to the username, disconnects and
      unbinds the older socket of the same user id and username (if any),
      leaves every other socket's binding alone, files a fresh record under
      the username and points the user id at the username. */
  lemma JoinEffect(online: JsMap<SocketId, string>, infos: JsMap<string, UserInfo>, ids: JsMap<string, string>,
                   socket: SocketId, p: SocketHandler.JoinPayload)
    requires LegacyInv(online, infos, ids)
    requires DecideJoin(online, ids, socket, p).Accept?
    ensures var u, n := p.userId.value, p.username.value;
      var e := DecideJoin(online, ids, socket, p).evicted;
      var online' := OnlineAfterJoin(online, e, socket, n);
      var infos' := InfosAfterJoin(infos, u, n);
      var ids' := ids.Set(u, n);
      && online'.Get(socket) == Some(n)
      && (e.Some? ==> e.value !in online'.table && online.Get(e.value) == Some(n))
      && (forall t :: t != socket && (e.None? || t != e.value) ==> online'.Get(t) == online.Get(t))
      && infos'.Get(n) == Some(UserInfo(u, n, n))
      && (forall m :: m != n ==> infos'.Get(m) == infos.Get(m))
      && ids'.Get(u) == Some(n)
  {
  }

  /** An accepted join keeps the registry consistent. */
  lemma JoinKeepsInv(online: JsMap<SocketId, string>, infos: JsMap<string, UserInfo>, ids: JsMap<string, string>,
                     socket: SocketId, p: SocketHandler.JoinPayload)
    requires LegacyInv(online, infos, ids)
    requires DecideJoin(online, ids, socket, p).Accept?
    ensures var u, n := p.userId.value, p.username.value;
            LegacyInv(OnlineAfterJoin(online, DecideJoin(online, ids, socket, p).evicted, socket, n),
                      InfosAfterJoin(infos, u, n), ids.Set(u, n))
  {
  }

  /** A nickname chosen earlier does not survive a rejoin: whatever record is
      filed under the username, the join puts the username back as nickname. */
  lemma RejoinResetsNickname(infos: JsMap<string, UserInfo>, userId: string, username: string, nickname: string)
    requires infos.Valid()
    ensures var renamed := infos.Set(username, UserInfo(userId, username, nickname));
            InfosAfterJoin(renamed, userId, username).table[username].nickname == username
  {
  }

  /** Unlike the registry of src/websocket/socketHandler.js, this one fills
      `userIdMap`: right after an accepted join the `validateUserId` guard lets
      the user's id through with the joined username, and the nickname route
      finds the record under that username. */
  lemma JoinAuthorises(online: JsMap<SocketId, string>, infos: JsMap<string, UserInfo>, ids: JsMap<string, string>,
                       socket: SocketId, p: SocketHandler.JoinPayload)
    requires LegacyInv(online, infos, ids)
    requires DecideJoin(online, ids, socket, p).Accept?
    ensures var u, n := p.userId.value, p.username.value;
      && ValidateUserId(Some(u), ids.Set(u, n)) == Next(ReqUser(u, n))
      && InfosAfterJoin(infos, u, n).Get(n).Some?
  {
  }

  // ------------------------------------------------- sender verification

  /** `!userInfo || userInfo.userId !== data.userId`, inverted: the socket's
      username has a record and that record's user id is the one claimed. */
  function VerifySender(online: JsMap<SocketId, string>, infos: JsMap<string, UserInfo>,
                        socket: SocketId, claimed: Option<string>): (r: Option<UserInfo>)
    ensures r.Some? <==> socket in online.table && online.table[socket] in infos.table
                         && claimed == Some(infos.table[online.table[socket]].userId)
    ensures r.Some? ==> r.value == infos.table[online.table[socket]]
  {
    if socket in online.table && online.table[socket] in infos.table
       && claimed == Some(infos.table[online.table[socket]].userId)
    then Some(infos.table[online.table[socket]])
    else None
  }

  // -------------------------------------------------------- chat_message

  /** `Array.from(userInfoMap.entries()).find(([_, info]) => info.userId === id)?.[0]`:
      the username filed first (in insertion order, from position `from`)
      with user id `id`. */
  function NameOfId(id: string, infos: JsMap<string, UserInfo>, from: nat := 0): (r: Option<string>)
    requires infos.Valid() && from <= |infos.keys|
    ensures r.Some? ==> r.value in infos.table && infos.table[r.value].userId == id
    decreases |infos.keys| - from
  {
    if from == |infos.keys| then None
    else if infos.table[infos.keys[from]].userId == id then Some(infos.keys[from])
    else NameOfId(id, infos, from + 1)
  }

  /** The name found is the first one filed with that id; none is found
      only when no record from `from` on has that id. */
  lemma {:induction false} NameOfIdFirst(id: string, infos: JsMap<string, UserInfo>, from: nat)
    requires infos.Valid() && from <= |infos.keys|
    ensures var r := NameOfId(id, infos, from);
      && (r.Some? ==> exists j :: from <= j < |infos.keys| && infos.keys[j] == r.value &&
                        forall k :: from <= k < j ==> infos.table[infos.keys[k]].userId != id)
      && (r.None? ==> forall j :: from <= j < |infos.keys| ==> infos.table[infos.keys[j]].userId != id)
    decreases |infos.keys| - from
  {
    if from < |infos.keys| && infos.table[infos.keys[from]].userId != id {
      NameOfIdFirst(id, infos, from + 1);
    }
  }

  /** The username behind one mentioned id, if it has a non-empty one. */
  function MentionName(id: string, infos: JsMap<string, UserInfo>): seq<string>
    requires infos.Valid()
  {
    match NameOfId(id, infos)
    case Some(n) => if n != "" then [n] else []
    case None => []
  }

  /** The usernames behind the mentioned ids, in mention order, repeats included. */
  function MentionedNames(ids: seq<string>, infos: JsMap<string, UserInfo>): seq<string>
    requires infos.Valid()
    decreases |ids|
  {
    if ids == [] then []
    else MentionedNames(ids[..|ids| - 1], infos) + MentionName(ids[|ids| - 1], infos)
  }

  /** A name is among the names found for `ids` exactly when it is the
      (non-empty) name found for one of them. */
  lemma {:induction false} MentionedNamesHas(ids: seq<string>, infos: JsMap<string, UserInfo>, x: string)
    requires infos.Valid()
    ensures x in MentionedNames(ids, infos) <==>
              x != "" && exists i :: 0 <= i < |ids| && NameOfId(ids[i], infos) == Some(x)
    decreases |ids|
  {
    if ids != [] {
      var init, last := ids[..|ids| - 1], ids[|ids| - 1];
      MentionedNamesHas(init, infos, x);
      var names := MentionedNames(ids, infos);
      assert names == MentionedNames(init, infos) + MentionName(last, infos);
      if x in names {
        if x in MentionedNames(init, infos) {
          var i :| 0 <= i < |init| && NameOfId(init[i], infos) == Some(x);
          assert ids[i] == init[i];
        } else {
          assert x in MentionName(last, infos);
          assert NameOfId(ids[|ids| - 1], infos) == Some(x);
        }
      }
      if x != "" && exists i :: 0 <= i < |ids| && NameOfId(ids[i], infos) == Some(x) {
        var i :| 0 <= i < |ids| && NameOfId(ids[i], infos) == Some(x);
        if i < |init| {
          assert init[i] == ids[i];
          assert x in MentionedNames(init, infos);
        } else {
          assert x in MentionName(last, infos);
        }
      }
    }
  }

  /** The derived mention list holds each such name once. */
  lemma MentionedNamesMembers(ids: seq<string>, infos: JsMap<string, UserInfo>, x: string)
    requires infos.Valid()
    ensures Distinct(Dedup(MentionedNames(ids, infos)))
    ensures x in Dedup(MentionedNames(ids, infos)) <==>
              x != "" && exists i :: 0 <= i < |ids| && NameOfId(ids[i], infos) == Some(x)
  {
    MentionedNamesHas(ids, infos, x);
  }

  /** One more mentioned id adds its name, if any, at the end. */
  lemma MentionedNamesStep(ids: seq<string>, i: nat, infos: JsMap<string, UserInfo>)
    requires infos.Valid() && i < |ids|
    ensures MentionedNames(ids[..i + 1], infos) == MentionedNames(ids[..i], infos) + MentionName(ids[i], infos)
  {
    assert ids[..i + 1][..i] == ids[..i];
  }

  /** The `forEach` that builds `mentions`: each id's first username, pushed
      when truthy and not already listed. */
  method ResolveMentions(ids: seq<string>, infos: JsMap<string, UserInfo>) returns (mentions: seq<string>)
    requires infos.Valid()
    ensures mentions == Dedup(MentionedNames(ids, infos))
  {
    mentions := [];
    var i := 0;
    while i < |ids|
      invariant 0 <= i <= |ids|
      invariant mentions == Dedup(MentionedNames(ids[..i], infos))
    {
      MentionedNamesStep(ids, i, infos);
      DedupSnoc(MentionedNames(ids[..i], infos), MentionName(ids[i], infos));
      var name := NameOfId(ids[i], infos);
      if name.Some? && name.value != "" && name.value !in mentions {
        mentions := mentions + [name.value];
      }
      i := i + 1;
    }
    assert ids[..|ids|] == ids;
  }

  /** `userInfoMap.get(quote.username)?.userId || ""` */
  function QuotedUserId(q: Quote, infos: JsMap<string, UserInfo>): (r: string)
    ensures q.username.Some? && q.username.value in infos.table ==> r == infos.table[q.username.value].userId
    ensures q.username.None? || q.username.value !in infos.table ==> r == ""
  {
    if q.username.Some? && q.username.value in infos.table then infos.table[q.username.value].userId else ""
  }

  /** The message an accepted `chat_message` stores and broadcasts: the
      payload as sent, with `userName` turned into `username` when only the
      former is given, stamped with `id`, `timestamp` and the claimed `userId`. */
  function AcceptedMessage(p: SocketHandler.ChatPayload, userId: string,
                           infos: JsMap<string, UserInfo>, now: nat, clock: string): Message
    requires infos.Valid()
  {
    var aliased := Truthy(p.userName) && !Truthy(p.username);
    Message(
      id := now,
      timestamp := LocalTime(clock),
      userId := userId,
      username := if aliased then p.userName else p.username,
      userName := if aliased then None else p.userName,
      localId := p.localId,
      content := p.content,
      msgType := p.msgType,
      recalled := p.recalled,
      quote := if p.quote.Some? then Some(p.quote.value.(userId := Some(QuotedUserId(p.quote.value, infos)))) else None,
      mentionedUserIds := p.mentionedUserIds,
      mentions := if p.mentionedUserIds.Some? && p.mentions.None?
                  then Some(Dedup(MentionedNames(p.mentionedUserIds.value, infos)))
                  else p.mentions)
  }

  /** The stored name is the one the client sent, never the nickname: a
      truthy `username` is kept with `userName` untouched; otherwise a truthy
      `userName` moves to `username` and `userName` is dropped; otherwise
      both stay as sent. The body fields pass through unchanged. */
  lemma AcceptedMessageNames(p: SocketHandler.ChatPayload, userId: string,
                             infos: JsMap<string, UserInfo>, now: nat, clock: string)
    requires infos.Valid()
    ensures var m := AcceptedMessage(p, userId, infos, now, clock);
      && (Truthy(p.username) ==> m.username == p.username && m.userName == p.userName)
      && (!Truthy(p.username) && Truthy(p.userName) ==> m.username == p.userName && m.userName == None)
      && (!Truthy(p.username) && !Truthy(p.userName) ==> m.username == p.username && m.userName == p.userName)
      && m.userId == userId && m.id == now && m.timestamp == LocalTime(clock)
      && m.content == p.content && m.localId == p.localId && m.mentionedUserIds == p.mentionedUserIds
      && (p.mentions.Some? ==> m.mentions == p.mentions)
      && (p.mentions.None? && p.mentionedUserIds.None? ==> m.mentions == None)
      && (p.quote.Some? <==> m.quote.Some?)
  {
  }

  // ---------------------------------------------------------- disconnect

  /** `userInfoMap` and `userIdMap` after a socket bound to `username` leaves
      (`online` is the map without that socket): both entries go only when no
      other socket holds the username and a record is filed under it. */
  function MapsAfterLeave(online: JsMap<SocketId, string>, infos: JsMap<string, UserInfo>,
                          ids: JsMap<string, string>, username: string): (r: (JsMap<string, UserInfo>, JsMap<string, string>))
    requires infos.Valid() && ids.Valid()
  {
    if online.HasValue(username) then (infos, ids)
    else
      match infos.Get(username)
      case Some(info) => (infos.Delete(username), ids.Delete(info.userId))
      case None => (infos, ids)
  }

  /** A leave keeps the registry consistent. */
  lemma LeaveKeepsInv(online: JsMap<SocketId, string>, infos: JsMap<string, UserInfo>, ids: JsMap<string, string>,
                      socket: SocketId)
    requires LegacyInv(online, infos, ids) && socket in online.table
    ensures var after := MapsAfterLeave(online.Delete(socket), infos, ids, online.table[socket]);
            LegacyInv(online.Delete(socket), after.0, after.1)
  {
  }

  /** The record and the id entry go exactly when the leaving socket was the
      username's last one. */
  lemma LeaveEffect(online: JsMap<SocketId, string>, infos: JsMap<string, UserInfo>, ids: JsMap<string, string>,
                    socket: SocketId)
    requires LegacyInv(online, infos, ids) && socket in online.table
    ensures var n := online.table[socket];
      var online' := online.Delete(socket);
      var (infos', ids') := MapsAfterLeave(online', infos, ids, n);
      && (online'.HasValue(n) <==> exists t :: t in online.table && t != socket && online.table[t] == n)
      && (online'.HasValue(n) ==> infos' == infos && ids' == ids)
      && (!online'.HasValue(n) ==> n !in infos'.table && infos.table[n].userId !in ids'.table
                                   && infos'.table == infos.table - {n}
                                   && ids'.table == ids.table - {infos.table[n].userId})
  {
    var n := online.table[socket];
    var online' := online.Delete(socket);
    if exists t :: t in online.table && t != socket && online.table[t] == n {
      var t :| t in online.table && t != socket && online.table[t] == n;
      assert online'.table[t] == n;
    }
  }

  /** The module-level state of server.js. */
  class LegacyChat {
    /** socket id -> username */
    var onlineUsers: JsMap<SocketId, string>
    /** username -> info record */
    var userInfoMap: JsMap<string, UserInfo>
    /** user id -> username */
    var userIdMap: JsMap<string, string>
    var chatHistory: seq<Message>

    ghost predicate Valid()
      reads this
    {
      LegacyInv(onlineUsers, userInfoMap, userIdMap) && |chatHistory| <= MAX_HISTORY
    }

    constructor ()
      ensures Valid()
      ensures onlineUsers == Empty() && userInfoMap == Empty() && userIdMap == Empty() && chatHistory == []
    {
      onlineUsers := Empty();
      userInfoMap := Empty();
      userIdMap := Empty();
      chatHistory := [];
    }

    method Join(socket: SocketId, p: SocketHandler.JoinPayload) returns (out: seq<Emit<LegacyOutbound>>)
      requires Valid()
      modifies this
      ensures Valid()
      ensures chatHistory == old(chatHistory)
      ensures var d := DecideJoin(old(onlineUsers), old(userIdMap), socket, p);
        && (!d.Accept? ==>
              && out == [ToSocket(socket, IdFailed(RefusalText(d)))]
              && onlineUsers == old(onlineUsers) && userInfoMap == old(userInfoMap) && userIdMap == old(userIdMap))
        && (d.Accept? ==>
              var u, n := p.userId.value, p.username.value;
              && onlineUsers == OnlineAfterJoin(old(onlineUsers), d.evicted, socket, n)
              && userIdMap == old(userIdMap).Set(u, n)
              && userInfoMap == InfosAfterJoin(old(userInfoMap), u, n)
              && out == (if d.evicted.Some? then [ForceDisconnect(d.evicted.value)] else [])
                        + [ToSocket(socket, HistorySnapshot(chatHistory)),
                           ToAll(Joined(n, u, n, MemberList(onlineUsers, userInfoMap)))])
    {
      var d := DecideJoin(onlineUsers, userIdMap, socket, p);
      if !d.Accept? {
        return [ToSocket(socket, IdFailed(RefusalText(d)))];
      }
      var u, n := p.userId.value, p.username.value;
      JoinKeepsInv(onlineUsers, userInfoMap, userIdMap, socket, p);
      var online := OnlineAfterJoin(onlineUsers, d.evicted, socket, n);
      var infos := InfosAfterJoin(userInfoMap, u, n);
      onlineUsers, userIdMap, userInfoMap := online, userIdMap.Set(u, n), infos;
      out := (if d.evicted.Some? then [ForceDisconnect(d.evicted.value)] else [])
             + [ToSocket(socket, HistorySnapshot(chatHistory)), ToAll(Joined(n, u, n, MemberList(online, infos)))];
    }

    method ChatMessage(socket: SocketId, p: SocketHandler.ChatPayload, now: nat, clock: string)
      returns (out: seq<Emit<LegacyOutbound>>)
      requires Valid()
      modifies this
      ensures Valid()
      ensures onlineUsers == old(onlineUsers) && userInfoMap == old(userInfoMap) && userIdMap == old(userIdMap)
      ensures VerifySender(onlineUsers, userInfoMap, socket, p.userId).None? ==>
                out == [ToSocket(socket, IdFailed(SocketHandler.SENDER_CHECK_FAILED))] && chatHistory == old(chatHistory)
      ensures VerifySender(onlineUsers, userInfoMap, socket, p.userId).Some? ==>
                var m := AcceptedMessage(p, p.userId.value, userInfoMap, now, clock);
                && m.userId == userInfoMap.table[onlineUsers.table[socket]].userId
                && chatHistory == AppendCapped(old(chatHistory), m)
                && out == [ToAll(Chat(m))]
    {
      var info := VerifySender(onlineUsers, userInfoMap, socket, p.userId);
      if info.None? {
        return [ToSocket(socket, IdFailed(SocketHandler.SENDER_CHECK_FAILED))];
      }
      var aliased := Truthy(p.userName) && !Truthy(p.username);
      var quote := p.quote;
      if quote.Some? {
        quote := Some(quote.value.(userId := Some(QuotedUserId(quote.value, userInfoMap))));
      }
      var mentions := p.mentions;
      if p.mentionedUserIds.Some? && p.mentions.None? {
        var names := ResolveMentions(p.mentionedUserIds.value, userInfoMap);
        mentions := Some(names);
      }
      var m := Message(
        id := now, timestamp := LocalTime(clock), userId := p.userId.value,
        username := if aliased then p.userName else p.username,
        userName := if aliased then None else p.userName,
        localId := p.localId, content := p.content, msgType := p.msgType, recalled := p.recalled,
        quote := quote, mentionedUserIds := p.mentionedUserIds, mentions := mentions);
      chatHistory := AppendCapped(chatHistory, m);
      out := [ToAll(Chat(m))];
    }

    /** Overlay messages go out under the socket's username and are never
        stored; a failed sender check is dropped silently. */
    method DanmuMessage(socket: SocketId, p: SocketHandler.DanmuPayload) returns (out: seq<Emit<LegacyOutbound>>)
      ensures VerifySender(onlineUsers, userInfoMap, socket, p.userId).None? ==> out == []
      ensures VerifySender(onlineUsers, userInfoMap, socket, p.userId).Some? ==>
                var info := VerifySender(onlineUsers, userInfoMap, socket, p.userId).value;
                out == [ToAll(Danmu(p.content, p.color, onlineUsers.table[socket], info.userId, p.timestamp))]
    {
      var info := VerifySender(onlineUsers, userInfoMap, socket, p.userId);
      if info.None? {
        return [];
      }
      out := [ToAll(Danmu(p.content, p.color, onlineUsers.table[socket], p.userId.value, p.timestamp))];
    }

    method Disconnect(socket: SocketId) returns (out: seq<Emit<LegacyOutbound>>)
      requires Valid()
      modifies this
      ensures Valid()
      ensures chatHistory == old(chatHistory)
      ensures socket !in old(onlineUsers.table) ==>
                out == [] && onlineUsers == old(onlineUsers) && userInfoMap == old(userInfoMap) && userIdMap == old(userIdMap)
      ensures socket in old(onlineUsers.table) ==> onlineUsers == old(onlineUsers).Delete(socket)
      ensures socket in old(onlineUsers.table) ==>
                (userInfoMap, userIdMap) == MapsAfterLeave(onlineUsers, old(userInfoMap), old(userIdMap), old(onlineUsers.table[socket]))
      ensures socket in old(onlineUsers.table) ==>
                out == [ToAll(Left(old(onlineUsers.table[socket]), MemberList(onlineUsers, userInfoMap)))]
    {
      // `if (username)`: a bound username is never empty (LegacyInv), so
      // the handler acts exactly when the socket is bound.
      if socket !in onlineUsers.table {
        return [];
      }
      var n := onlineUsers.table[socket];
      LeaveKeepsInv(onlineUsers, userInfoMap, userIdMap, socket);
      var online := onlineUsers.Delete(socket);
      var after := MapsAfterLeave(online, userInfoMap, userIdMap, n);
      onlineUsers, userInfoMap, userIdMap := online, after.0, after.1;
      out := [ToAll(Left(n, MemberList(online, after.0)))];
    }

    /** `/api/update-nickname` behind the guard. `nickname` is None when the
        body has no usable `nickname` (reading `.length` of it throws). The
        limit counts UTF-16 code units, as `nickname.length` does. The
        record is looked up under `req.user.username`, which is how this
        server files records. */
    method UpdateNickname(user: ReqUser, nickname: Option<string>)
      returns (reply: Api.Reply, events: seq<Emit<Api.NicknameEvent>>)
      requires Valid()
      modifies this
      ensures Valid()
      ensures onlineUsers == old(onlineUsers) && userIdMap == old(userIdMap)
      ensures nickname.None? ==> reply == Api.Failure(400, Api.BAD_REQUEST_BODY)
      ensures nickname.Some? && Utf16Length(nickname.value) > Api.NICKNAME_MAX_LENGTH ==> reply == Api.Failure(400, Api.NICKNAME_TOO_LONG)
      ensures nickname.Some? && Utf16Length(nickname.value) <= Api.NICKNAME_MAX_LENGTH && user.username !in old(userInfoMap.table) ==>
                reply == Api.Failure(404, Api.USER_NOT_FOUND)
      ensures reply.Failure? ==> events == [] && userInfoMap == old(userInfoMap) && chatHistory == old(chatHistory)
      ensures nickname.Some? && Utf16Length(nickname.value) <= Api.NICKNAME_MAX_LENGTH && user.username in old(userInfoMap.table) ==>
                var nick, info := nickname.value, old(userInfoMap.table[user.username]);
                && reply == Api.NicknameUpdated(nick)
                && userInfoMap == old(userInfoMap).Set(user.username, info.(nickname := nick))
                && |chatHistory| == |old(chatHistory)|
                && (forall i :: 0 <= i < |chatHistory| ==> chatHistory[i] == Relabel(old(chatHistory)[i], info.userId, nick))
                && events == [ToAll(Api.NicknameEvent(user.username, nick, info.userId))]
    {
      if nickname.None? {
        return Api.Failure(400, Api.BAD_REQUEST_BODY), [];
      }
      var nick := nickname.value;
      if Utf16Length(nick) > Api.NICKNAME_MAX_LENGTH {
        return Api.Failure(400, Api.NICKNAME_TOO_LONG), [];
      }
      var found := userInfoMap.Get(user.username);
      if found.None? {
        return Api.Failure(404, Api.USER_NOT_FOUND), [];
      }
      var info := found.value;
      userInfoMap := userInfoMap.Set(user.username, info.(nickname := nick));
      chatHistory := RelabelAll(chatHistory, info.userId, nick);
      reply := Api.NicknameUpdated(nick);
      events := [ToAll(Api.NicknameEvent(user.username, nick, info.userId))];
    }

    /** The route as wired: `validateUserId` against this server's
        `userIdMap`, then the handler. */
    method UpdateNicknameRoute(header: Option<string>, nickname: Option<string>)
      returns (reply: Api.Reply, events: seq<Emit<Api.NicknameEvent>>)
      requires Valid()
      modifies this
      ensures Valid()
      ensures onlineUsers == old(onlineUsers) && userIdMap == old(userIdMap)
      ensures ValidateUserId(header, old(userIdMap)).Unauthorized? ==>
                reply == Api.Failure(401, ValidateUserId(header, old(userIdMap)).message) && events == []
                && userInfoMap == old(userInfoMap) && chatHistory == old(chatHistory)
      ensures ValidateUserId(header, old(userIdMap)).Next? && nickname.None? ==>
                reply == Api.Failure(400, Api.BAD_REQUEST_BODY)
      ensures ValidateUserId(header, old(userIdMap)).Next? && nickname.Some? && Utf16Length(nickname.value) > Api.NICKNAME_MAX_LENGTH ==>
                reply == Api.Failure(400, Api.NICKNAME_TOO_LONG)
      ensures ValidateUserId(header, old(userIdMap)).Next? && nickname.Some? && Utf16Length(nickname.value) <= Api.NICKNAME_MAX_LENGTH
              && ValidateUserId(header, old(userIdMap)).user.username !in old(userInfoMap.table) ==>
                reply == Api.Failure(404, Api.USER_NOT_FOUND)
      ensures reply.Failure? ==> events == [] && userInfoMap == old(userInfoMap) && chatHistory == old(chatHistory)
      ensures ValidateUserId(header, old(userIdMap)).Next? && nickname.Some? && Utf16Length(nickname.value) <= Api.NICKNAME_MAX_LENGTH
              && ValidateUserId(header, old(userIdMap)).user.username in old(userInfoMap.table) ==>
                var user, nick := ValidateUserId(header, old(userIdMap)).user, nickname.value;
                var info := old(userInfoMap.table[user.username]);
                && reply == Api.NicknameUpdated(nick)
                && userInfoMap == old(userInfoMap).Set(user.username, info.(nickname := nick))
                && |chatHistory| == |old(chatHistory)|
                && (forall i :: 0 <= i < |chatHistory| ==> chatHistory[i] == Relabel(old(chatHistory)[i], info.userId, nick))
                && events == [ToAll(Api.NicknameEvent(user.username, nick, info.userId))]
    {
      var auth := ValidateUserId(header, userIdMap);
      match auth {
        case Unauthorized(message) =>
          reply, events := Api.Failure(401, message), [];
        case Next(user) =>
          reply, events := UpdateNickname(user, nickname);
      }
    }
  }
}
