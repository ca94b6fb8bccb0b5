/** The `validateUserId` middleware (src/middleware/auth.js, and its copy in
    server.js): it reads the `x-user-id` header and looks it up in `userIdMap`. */
module Auth {
  import opened Common
  import opened JsMaps

  const MISSING_USER_ID: string := "未提供用户ID"
  const INVALID_USER_ID: string := "用户ID无效"

  /** `req.user` */
  datatype ReqUser = ReqUser(userId: string, username: string)

  /** A 401 response with its message, or `next()` with `req.user` attached. */
  datatype AuthResult = Unauthorized(message: string) | Next(user: ReqUser)

  function ValidateUserId(header: Option<string>, userIdMap: JsMap<string, string>): (r: AuthResult)
    ensures !Truthy(header) ==> r == Unauthorized(MISSING_USER_ID)
    ensures Truthy(header) ==> (r.Next? <==> Truthy(userIdMap.Get(header.value)))
    ensures Truthy(header) && !Truthy(userIdMap.Get(header.value)) ==> r == Unauthorized(INVALID_USER_ID)
    ensures r.Next? ==> header.Some? && header.value in userIdMap.table
                        && r.user == ReqUser(header.value, userIdMap.table[header.value])
  {
    if !Truthy(header) then Unauthorized(MISSING_USER_ID)
    else
      var username := userIdMap.Get(header.value);
      if !Truthy(username) then Unauthorized(INVALID_USER_ID)
      else Next(ReqUser(header.value, username.value))
  }

  /** With an empty `userIdMap` no request gets past the middleware. */
  lemma EmptyMapRejectsEveryRequest(header: Option<string>)
    ensures ValidateUserId(header, Empty()).Unauthorized?
  {
  }
}
