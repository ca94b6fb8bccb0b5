/** Small shared vocabulary: optional values, JavaScript truthiness of
    optional strings, and the shape of what a socket event handler emits. */
module Common {

  datatype Option<+T> = None | Some(value: T)

  /** A value or the reason there is none. */
  datatype Result<+T, +E> = Ok(value: T) | Err(error: E)

  /** A Socket.IO connection id. */
  type SocketId = string

  /** JavaScript truthiness of a value that is either absent or a string:
      `undefined` and `""` are falsy, every other string is truthy. */
  predicate Truthy(s: Option<string>) {
    s.Some? && s.value != ""
  }

  /** JavaScript's `length` of a string: the number of UTF-16 code units. A
      character outside the Basic Multilingual Plane is a surrogate pair and
      counts twice. */
  function Utf16Length(s: string): (n: nat)
    ensures |s| <= n <= 2 * |s|
  {
    if s == [] then 0
    else (if s[0] as int >= 0x1_0000 then 2 else 1) + Utf16Length(s[1..])
  }

  /** Only characters of the Basic Multilingual Plane: one unit each. */
  lemma {:induction false} Utf16LengthOfBmp(s: string)
    requires forall i :: 0 <= i < |s| ==> s[i] as int < 0x1_0000
    ensures Utf16Length(s) == |s|
  {
    if s != [] {
      Utf16LengthOfBmp(s[1..]);
    }
  }

  /** Only characters beyond the Basic Multilingual Plane: two units each. */
  lemma {:induction false} Utf16LengthOfAstral(s: string)
    requires forall i :: 0 <= i < |s| ==> s[i] as int >= 0x1_0000
    ensures Utf16Length(s) == 2 * |s|
  {
    if s != [] {
      Utf16LengthOfAstral(s[1..]);
    }
  }

  /** What an event handler asks the transport to do: a unicast
      `socket.emit`, a broadcast `io.emit`, or a forced `disconnect(true)`. */
  datatype Emit<P> =
    | ToSocket(socket: SocketId, payload: P)
    | ToAll(payload: P)
    | ForceDisconnect(socket: SocketId)

  /** No element occurs twice. */
  ghost predicate Distinct<T>(s: seq<T>) {
    forall i, j :: 0 <= i < j < |s| ==> s[i] != s[j]
  }
}
