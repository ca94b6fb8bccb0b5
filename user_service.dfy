/** The in-memory state shared by the socket handler and the HTTP routes
    (src/services/userService.js): who is online on which socket, the info
    record of each user, the compatibility `userIdMap`, the chat history and
    the pending upload slots. */
module UserService {
  import opened Common
  import opened JsMaps
  import opened ChatHistory

  type UserId = string

  /** `{ userId, username, nickname }` */
  datatype UserInfo = UserInfo(userId: UserId, username: string, nickname: string)

  /** An entry of the online list: the user's info record, or
      `{ userId, username: null }` when there is none. */
  datatype RosterEntry = Known(info: UserInfo) | Unknown(userId: UserId)

  /** What `/api/get-presigned-url` remembers about an upload slot. */
  datatype UploadInfo = UploadInfo(filename: string, userId: string, expireAt: int)

  function EntryFor(userId: UserId, infos: JsMap<UserId, UserInfo>): RosterEntry {
    match infos.Get(userId)
    case Some(info) => Known(info)
    case None => Unknown(userId)
  }

  /** The online list for the sockets `sockets`, in that order. */
  function RosterFrom(sockets: seq<SocketId>, online: map<SocketId, UserId>, infos: JsMap<UserId, UserInfo>): (r: seq<RosterEntry>)
    requires forall s :: s in sockets ==> s in online
    ensures |r| == |sockets|
    ensures forall i :: 0 <= i < |r| ==> r[i] == EntryFor(online[sockets[i]], infos)
  {
    if sockets == [] then []
    else [EntryFor(online[sockets[0]], infos)] + RosterFrom(sockets[1..], online, infos)
  }

  /** `getOnlineUserList()`: one entry per `onlineUsers` entry, in insertion order. */
  function OnlineUserList(online: JsMap<SocketId, UserId>, infos: JsMap<UserId, UserInfo>): (r: seq<RosterEntry>)
    requires online.Valid()
  {
    RosterFrom(online.keys, online.table, infos)
  }

  /** The registry invariant the socket handlers keep: every bound user id is
      non-empty and has an info record, no user id is bound to two sockets,
      and every info record is filed under its own user id. */
  ghost predicate RegistryInv(online: JsMap<SocketId, UserId>, infos: JsMap<UserId, UserInfo>) {
    && online.Valid()
    && infos.Valid()
    && (forall s :: s in online.table ==> online.table[s] != "" && online.table[s] in infos.table)
    && (forall s, t :: s in online.table && t in online.table && online.table[s] == online.table[t] ==> s == t)
    && (forall u :: u in infos.table ==> infos.table[u].userId == u)
  }

  /** In a consistent registry the online list names every online user once,
      always with an info record. */
  lemma RosterOfRegistry(online: JsMap<SocketId, UserId>, infos: JsMap<UserId, UserInfo>)
    requires RegistryInv(online, infos)
    ensures var r := OnlineUserList(online, infos);
      && |r| == |online.table|
      && (forall i :: 0 <= i < |r| ==> r[i].Known? && r[i].info.userId == online.table[online.keys[i]])
      && (forall i, j :: 0 <= i < j < |r| ==> r[i].info.userId != r[j].info.userId)
  {
    var r := OnlineUserList(online, infos);
    assert online.table.Keys == set k | k in online.keys;
    DistinctCardinality(online.keys);
    forall i, j | 0 <= i < j < |r| ensures r[i].info.userId != r[j].info.userId {
      assert online.keys[i] != online.keys[j];
    }
  }

  /** A list without repeats has as many elements as the set of its elements. */
  lemma {:induction false} DistinctCardinality<T>(s: seq<T>)
    requires Distinct(s)
    ensures |set x | x in s| == |s|
  {
    if s != [] {
      var rest := s[1..];
      assert Distinct(rest) by {
        forall i, j | 0 <= i < j < |rest| ensures rest[i] != rest[j] { assert rest[i] == s[i + 1] && rest[j] == s[j + 1]; }
      }
      DistinctCardinality(rest);
      assert (set x | x in s) == (set x | x in rest) + {s[0]};
      assert s[0] !in rest by {
        forall k | 0 <= k < |rest| ensures rest[k] != s[0] { assert rest[k] == s[k + 1]; }
      }
    }
  }

  /** The module-level state of src/services/userService.js. */
  class ChatState {
    /** socket id -> user id */
    var onlineUsers: JsMap<SocketId, UserId>
    /** user id -> info record */
    var userInfoMap: JsMap<UserId, UserInfo>
    /** Kept only for compatibility: declared empty and never written. */
    var userIdMap: JsMap<UserId, string>
    var chatHistory: seq<Message>
    /** upload signature -> slot */
    var tempUploads: JsMap<string, UploadInfo>

    ghost predicate Valid()
      reads this
    {
      && RegistryInv(onlineUsers, userInfoMap)
      && tempUploads.Valid()
      && |chatHistory| <= MAX_HISTORY
    }

    constructor ()
      ensures Valid()
      ensures onlineUsers == Empty() && userInfoMap == Empty() && userIdMap == Empty()
      ensures chatHistory == [] && tempUploads == Empty()
    {
      onlineUsers := Empty();
      userInfoMap := Empty();
      userIdMap := Empty();
      chatHistory := [];
      tempUploads := Empty();
    }
  }
}
