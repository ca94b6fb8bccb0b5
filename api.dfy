/** The HTTP routes of src/routes/api.js that touch the shared chat state:
    `/api/update-nickname`, `/api/get-presigned-url` and
    `/api/mock-upload/:signature`, each behind the `validateUserId` guard
    where the route declares it. */
module Api {
  import opened Common
  import opened JsMaps
  import opened ChatHistory
  import opened UserService
  import opened Auth

  const NICKNAME_MAX_LENGTH: nat := 20
  const UPLOAD_TTL_MS: int := 5 * 60 * 1000
  const UPLOAD_URL_PREFIX: string := "/api/mock-upload/"
  const CDN_URL_PREFIX: string := "/cdn-images/"
  const ALLOWED_IMAGE_TYPES: seq<string> := ["image/jpeg", "image/jpg", "image/png", "image/gif", "image/webp"]

  const BAD_REQUEST_BODY: string := "请求数据格式错误"
  const NICKNAME_TOO_LONG: string := "昵称不能超过20个字符"
  const USER_NOT_FOUND: string := "用户不存在"
  const MISSING_FILE_FIELDS: string := "缺少文件名或文件类型"
  const UNSUPPORTED_TYPE: string := "只支持JPG、PNG、GIF和WebP格式的图片"
  const UPLOAD_LINK_INVALID: string := "上传链接已过期或无效"
  const UPLOAD_FAILED: string := "文件上传失败"

  /** The JSON bodies the routes answer with. */
  datatype Reply =
    | Failure(status: nat, message: string)
    | NicknameUpdated(nickname: string)
    | Presigned(uploadUrl: string, filename: string, expireAt: int)
    | Uploaded(cdnUrl: string)

  /** `io.emit("user_nickname_updated", ...)` */
  datatype NicknameEvent = NicknameEvent(username: string, newNickname: string, userId: UserId)

  // ------------------------------------------------------ update-nickname

  /** The handler behind the guard. `nickname` is None when the body has no
      usable `nickname` (reading `.length` of it throws, giving 400). The
      length limit counts UTF-16 code units, as `nickname.length` does. The
      record is looked up under `req.user.username`. */
  method UpdateNickname(st: ChatState, user: ReqUser, nickname: Option<string>)
    returns (reply: Reply, events: seq<Emit<NicknameEvent>>)
    requires st.Valid()
    modifies st
    ensures st.Valid()
    ensures st.onlineUsers == old(st.onlineUsers) && st.userIdMap == old(st.userIdMap) && st.tempUploads == old(st.tempUploads)
    ensures nickname.None? ==> reply == Failure(400, BAD_REQUEST_BODY)
    ensures nickname.Some? && Utf16Length(nickname.value) > NICKNAME_MAX_LENGTH ==> reply == Failure(400, NICKNAME_TOO_LONG)
    ensures nickname.Some? && Utf16Length(nickname.value) <= NICKNAME_MAX_LENGTH && user.username !in old(st.userInfoMap.table) ==>
              reply == Failure(404, USER_NOT_FOUND)
    ensures reply.Failure? ==>
              events == [] && st.userInfoMap == old(st.userInfoMap) && st.chatHistory == old(st.chatHistory)
    ensures nickname.Some? && Utf16Length(nickname.value) <= NICKNAME_MAX_LENGTH && user.username in old(st.userInfoMap.table) ==>
              var nick, info := nickname.value, old(st.userInfoMap.table[user.username]);
              && reply == NicknameUpdated(nick)
              && st.userInfoMap == old(st.userInfoMap).Set(user.username, info.(nickname := nick))
              && |st.chatHistory| == |old(st.chatHistory)|
              && (forall i :: 0 <= i < |st.chatHistory| ==>
                    st.chatHistory[i] == Relabel(old(st.chatHistory)[i], info.userId, nick))
              && events == [ToAll(NicknameEvent(user.username, nick, info.userId))]
  {
    if nickname.None? {
      return Failure(400, BAD_REQUEST_BODY), [];
    }
    var nick := nickname.value;
    if Utf16Length(nick) > NICKNAME_MAX_LENGTH {
      return Failure(400, NICKNAME_TOO_LONG), [];
    }
    var found := st.userInfoMap.Get(user.username);
    if found.None? {
      return Failure(404, USER_NOT_FOUND), [];
    }
    var info := found.value;
    st.userInfoMap := st.userInfoMap.Set(user.username, info.(nickname := nick));
    st.chatHistory := RelabelAll(st.chatHistory, info.userId, nick);
    reply := NicknameUpdated(nick);
    events := [ToAll(NicknameEvent(user.username, nick, info.userId))];
  }

  /** Eleven emoji are eleven characters but 22 UTF-16 code units, so the
      nickname route refuses them as longer than 20; ten of them pass. */
  lemma EmojiNicknameLength()
    ensures var eleven := seq(11, _ => '\U{1F600}');
            |eleven| == 11 && Utf16Length(eleven) == 22 && Utf16Length(eleven) > NICKNAME_MAX_LENGTH
    ensures Utf16Length(seq(10, _ => '\U{1F600}')) == NICKNAME_MAX_LENGTH
  {
    Utf16LengthOfAstral(seq(11, _ => '\U{1F600}'));
    Utf16LengthOfAstral(seq(10, _ => '\U{1F600}'));
  }

  /** The lookup goes by username while the socket handler files records by
      user id: in a consistent registry a record is found only when the
      request's username happens to be some user's id, and then it is that
      user's record. */
  lemma NicknameLookupIsByUserId(online: JsMap<SocketId, UserId>, infos: JsMap<UserId, UserInfo>, user: ReqUser)
    requires RegistryInv(online, infos)
    ensures infos.Get(user.username).Some? ==> infos.Get(user.username).value.userId == user.username
  {
  }

  /** A user who joined as id "u1" with username "alice" is not found by a
      request whose `req.user.username` is "alice". */
  lemma NicknameLookupMissesJoinedUser()
    ensures var infos := Empty<UserId, UserInfo>().Set("u1", UserInfo("u1", "alice", "alice"));
            infos.Get("alice") == None
  {
  }

  /** The route as wired: the guard, then the handler. As long as
      `userIdMap` is empty, as it is from the start and after every
      operation of the model, every request ends in a 401 and nothing changes. */
  method UpdateNicknameRoute(st: ChatState, header: Option<string>, nickname: Option<string>)
    returns (reply: Reply, events: seq<Emit<NicknameEvent>>)
    requires st.Valid()
    modifies st
    ensures st.Valid()
    ensures st.userIdMap == old(st.userIdMap)
    ensures ValidateUserId(header, old(st.userIdMap)).Unauthorized? ==>
              reply == Failure(401, ValidateUserId(header, old(st.userIdMap)).message) && events == []
              && st.onlineUsers == old(st.onlineUsers) && st.userInfoMap == old(st.userInfoMap)
              && st.chatHistory == old(st.chatHistory) && st.tempUploads == old(st.tempUploads)
    ensures old(st.userIdMap) == Empty() ==>
              reply == Failure(401, if Truthy(header) then INVALID_USER_ID else MISSING_USER_ID)
  {
    var auth := ValidateUserId(header, st.userIdMap);
    match auth {
      case Unauthorized(message) =>
        reply, events := Failure(401, message), [];
      case Next(user) =>
        reply, events := UpdateNickname(st, user, nickname);
    }
  }

  // ---------------------------------------------------- get-presigned-url

  /** The parsed body of `/api/get-presigned-url`. */
  datatype PresignRequest = PresignRequest(filename: Option<string>, fileType: Option<string>)

  /** `s.split('/').pop()`: what follows the last '/', or all of `s`. */
  function LastSegment(s: string): (r: string)
    ensures '/' !in r
    ensures |r| <= |s| && r == s[|s| - |r|..]
    ensures |r| < |s| ==> s[|s| - |r| - 1] == '/'
    decreases |s|
  {
    if s == [] then []
    else if s[|s| - 1] == '/' then []
    else
      var init := s[..|s| - 1];
      var tail := LastSegment(init);
      assert s[|s| - |tail| - 1..] == init[|init| - |tail|..] + [s[|s| - 1]];
      tail + [s[|s| - 1]]
  }

  /** A signature without '/' is recovered whole from its upload URL. */
  lemma {:induction false} LastSegmentOfUploadUrl(prefix: string, signature: string)
    requires '/' !in signature && |prefix| > 0 && prefix[|prefix| - 1] == '/'
    ensures LastSegment(prefix + signature) == signature
    decreases |signature|
  {
    if signature == [] {
      assert prefix + signature == prefix;
    } else {
      var init := signature[..|signature| - 1];
      assert (prefix + signature)[..|prefix + signature| - 1] == prefix + init;
      LastSegmentOfUploadUrl(prefix, init);
      assert init + [signature[|signature| - 1]] == signature;
    }
  }

  /** The request checks before a slot is issued: None when they pass. */
  function PresignRejection(body: Option<PresignRequest>): (r: Option<Reply>)
    ensures r.Some? <==> body.None? || !Truthy(body.value.filename) || !Truthy(body.value.fileType)
                         || body.value.fileType.value !in ALLOWED_IMAGE_TYPES
    ensures r.Some? ==> r.value.Failure? && r.value.status == 400
    ensures body.Some? && (!Truthy(body.value.filename) || !Truthy(body.value.fileType)) ==> r == Some(Failure(400, MISSING_FILE_FIELDS))
  {
    if body.None? then Some(Failure(400, BAD_REQUEST_BODY))
    else if !Truthy(body.value.filename) || !Truthy(body.value.fileType) then Some(Failure(400, MISSING_FILE_FIELDS))
    else if body.value.fileType.value !in ALLOWED_IMAGE_TYPES then Some(Failure(400, UNSUPPORTED_TYPE))
    else None
  }

  /** The handler behind the guard. `signature` is the random upload
      signature the storage service would mint. */
  method GetPresignedUrl(st: ChatState, user: ReqUser, body: Option<PresignRequest>, signature: string, now: int)
    returns (reply: Reply)
    requires st.Valid()
    modifies st
    ensures st.Valid()
    ensures st.onlineUsers == old(st.onlineUsers) && st.userInfoMap == old(st.userInfoMap)
    ensures st.userIdMap == old(st.userIdMap) && st.chatHistory == old(st.chatHistory)
    ensures PresignRejection(body).Some? ==> reply == PresignRejection(body).value && st.tempUploads == old(st.tempUploads)
    ensures PresignRejection(body).None? ==>
              var url, file := UPLOAD_URL_PREFIX + signature, user.userId + "_" + body.value.filename.value;
              && reply == Presigned(url, file, now + UPLOAD_TTL_MS)
              && st.tempUploads == old(st.tempUploads).Set(LastSegment(url), UploadInfo(file, user.userId, now + UPLOAD_TTL_MS))
  {
    var rejection := PresignRejection(body);
    if rejection.Some? {
      return rejection.value;
    }
    var uploadUrl := UPLOAD_URL_PREFIX + signature;
    var filename := user.userId + "_" + body.value.filename.value;
    var expireAt := now + UPLOAD_TTL_MS;
    st.tempUploads := st.tempUploads.Set(LastSegment(uploadUrl), UploadInfo(filename, user.userId, expireAt));
    reply := Presigned(uploadUrl, filename, expireAt);
  }

  /** `/api/get-presigned-url` as wired, behind the guard. */
  method GetPresignedUrlRoute(st: ChatState, header: Option<string>, body: Option<PresignRequest>, signature: string, now: int)
    returns (reply: Reply)
    requires st.Valid()
    modifies st
    ensures st.Valid()
    ensures st.userIdMap == old(st.userIdMap)
    ensures ValidateUserId(header, old(st.userIdMap)).Unauthorized? ==>
              reply == Failure(401, ValidateUserId(header, old(st.userIdMap)).message)
              && st.tempUploads == old(st.tempUploads)
    ensures old(st.userIdMap) == Empty() ==> reply.Failure? && reply.status == 401
  {
    var auth := ValidateUserId(header, st.userIdMap);
    match auth {
      case Unauthorized(message) =>
        reply := Failure(401, message);
      case Next(user) =>
        reply := GetPresignedUrl(st, user, body, signature, now);
    }
  }

  // --------------------------------------------------------- mock-upload

  /** The gate of `/api/mock-upload/:signature`: a known slot whose
      `expireAt` is not before now. */
  function UploadGate(slots: JsMap<string, UploadInfo>, signature: string, now: int): (r: Result<UploadInfo, Reply>)
    ensures r.Err? <==> signature !in slots.table || slots.table[signature].expireAt < now
    ensures r.Err? ==> r.error == Failure(403, UPLOAD_LINK_INVALID)
    ensures r.Ok? ==> r.value == slots.table[signature]
  {
    match slots.Get(signature)
    case None => Err(Failure(403, UPLOAD_LINK_INVALID))
    case Some(info) => if info.expireAt < now then Err(Failure(403, UPLOAD_LINK_INVALID)) else Ok(info)
  }

  /** The upload itself (`storeOk` says whether writing and moving the file
      worked): a stored file frees its slot and answers with its CDN URL. */
  method MockUpload(st: ChatState, signature: string, now: int, storeOk: bool) returns (reply: Reply)
    requires st.Valid()
    modifies st
    ensures st.Valid()
    ensures st.onlineUsers == old(st.onlineUsers) && st.userInfoMap == old(st.userInfoMap)
    ensures st.userIdMap == old(st.userIdMap) && st.chatHistory == old(st.chatHistory)
    ensures var gate := UploadGate(old(st.tempUploads), signature, now);
      && (gate.Err? ==> reply == gate.error && st.tempUploads == old(st.tempUploads))
      && (gate.Ok? && !storeOk ==> reply == Failure(500, UPLOAD_FAILED) && st.tempUploads == old(st.tempUploads))
      && (gate.Ok? && storeOk ==> reply == Uploaded(CDN_URL_PREFIX + gate.value.filename)
                                  && st.tempUploads == old(st.tempUploads).Delete(signature))
  {
    var gate := UploadGate(st.tempUploads, signature, now);
    if gate.Err? {
      return gate.error;
    }
    if !storeOk {
      return Failure(500, UPLOAD_FAILED);
    }
    st.tempUploads := st.tempUploads.Delete(signature);
    reply := Uploaded(CDN_URL_PREFIX + gate.value.filename);
  }

  /** A slot issued at `now` for a '/'-free signature opens the upload gate
      until its five minutes are over, and not after. */
  lemma PresignedSlotOpensGate(slots: JsMap<string, UploadInfo>, signature: string, info: UploadInfo, issued: int, at: int)
    requires slots.Valid() && '/' !in signature && info.expireAt == issued + UPLOAD_TTL_MS
    ensures var slots' := slots.Set(LastSegment(UPLOAD_URL_PREFIX + signature), info);
            UploadGate(slots', signature, at).Ok? <==> at <= issued + UPLOAD_TTL_MS
  {
    LastSegmentOfUploadUrl(UPLOAD_URL_PREFIX, signature);
  }

  /** A slot serves one successful upload: afterwards the gate is closed. */
  lemma UploadedSlotIsClosed(slots: JsMap<string, UploadInfo>, signature: string, now: int)
    requires slots.Valid()
    ensures UploadGate(slots.Delete(signature), signature, now).Err?
  {
  }
}
