/** The shared chat history: the message record both servers store, the
    bounded append used after every accepted message, the in-place nickname
    relabel, the recall tombstone, and the de-duplicated mention list. */
module ChatHistory {
  import opened Common

  /** `MAX_HISTORY` (src/config/constants.js, and again in server.js). */
  const MAX_HISTORY: nat := 100
  /** Content that replaces a recalled message. */
  const RECALL_TOMBSTONE: string := "此消息已被撤回"
  /** `type` marker of a recalled message. */
  const RECALLED_TYPE: string := "recalled"

  /** `timestamp` of a stored message: milliseconds since the epoch
      (src/websocket/socketHandler.js) or a local clock string (server.js). */
  datatype Stamp = Millis(ms: int) | LocalTime(text: string)

  /** The `quote` object a client attaches to a message. */
  datatype Quote = Quote(
    username: Option<string>,
    userName: Option<string>,
    userId: Option<string>,
    content: Option<string>)

  /** A stored chat message: the client payload (`{...data}`) with the fields
      the server stamps. `id` is `Date.now()` at acceptance (the source keeps
      its decimal string; the number stands for it here). */
  datatype Message = Message(
    id: nat,
    timestamp: Stamp,
    userId: string,
    username: Option<string>,
    userName: Option<string>,
    localId: Option<string>,
    content: Option<string>,
    msgType: Option<string>,
    recalled: Option<bool>,
    quote: Option<Quote>,
    mentionedUserIds: Option<seq<string>>,
    mentions: Option<seq<string>>)

  /** `chatHistory.push(m); if (chatHistory.length > MAX_HISTORY) chatHistory.shift();` */
  function AppendCapped(h: seq<Message>, m: Message): (r: seq<Message>)
    ensures |h| <= MAX_HISTORY ==> |r| <= MAX_HISTORY
    ensures |r| == if |h| < MAX_HISTORY then |h| + 1 else |h|
    ensures r == (h + [m])[|h| + 1 - |r|..]
  {
    var pushed := h + [m];
    if |pushed| > MAX_HISTORY then pushed[1..] else pushed
  }

  /** The history after appending `ms`, one by one, to `h`. */
  function AppendAll(h: seq<Message>, ms: seq<Message>): seq<Message>
    decreases |ms|
  {
    if ms == [] then h else AppendAll(AppendCapped(h, ms[0]), ms[1..])
  }

  /** FIFO eviction: however many messages are appended, the history holds
      exactly the newest `MAX_HISTORY` of everything, in append order. */
  lemma {:induction false} AppendAllKeepsNewest(h: seq<Message>, ms: seq<Message>)
    requires |h| <= MAX_HISTORY
    ensures var all := h + ms;
            AppendAll(h, ms) == all[if |all| > MAX_HISTORY then |all| - MAX_HISTORY else 0..]
    decreases |ms|
  {
    if ms != [] {
      var h' := AppendCapped(h, ms[0]);
      assert h + ms == (h + [ms[0]]) + ms[1..];
      if |h| < MAX_HISTORY {
        assert h' + ms[1..] == h + ms;
        AppendAllKeepsNewest(h', ms[1..]);
      } else {
        var all := h + ms;
        assert h' + ms[1..] == all[1..];
        assert all[1..][|all| - 1 - MAX_HISTORY..] == all[|all| - MAX_HISTORY..];
        AppendAllKeepsNewest(h', ms[1..]);
      }
    }
  }

  /** The quote half of the nickname relabel. */
  function RelabelQuote(q: Option<Quote>, userId: string, nickname: string): (r: Option<Quote>)
    ensures r.Some? == q.Some?
    ensures r.Some? ==> r.value.userId == q.value.userId && r.value.content == q.value.content
  {
    if q.Some? && q.value.userId == Some(userId) then
      Some(q.value.(username := Some(nickname),
                    userName := if Truthy(q.value.userName) then Some(nickname) else q.value.userName))
    else q
  }

  /** The nickname relabel of one stored message (src/routes/api.js and
      server.js): the sender's names, then the quoted sender's names. */
  function Relabel(m: Message, userId: string, nickname: string): (r: Message)
    ensures r.(username := m.username, userName := m.userName, quote := m.quote) == m
  {
    var named :=
      if m.userId == userId then
        m.(username := Some(nickname),
           userName := if Truthy(m.userName) then Some(nickname) else m.userName)
      else m;
    named.(quote := RelabelQuote(m.quote, userId, nickname))
  }

  /** What the relabel does to a message: the owner's message shows the new
      nickname (and `userName` only if it was already set), a quote of the
      owner shows it too, and anything else is left exactly as it was. */
  lemma RelabelEffect(m: Message, userId: string, nickname: string)
    ensures var r := Relabel(m, userId, nickname);
      && (m.userId == userId ==> r.username == Some(nickname))
      && (m.userId == userId && Truthy(m.userName) ==> r.userName == Some(nickname))
      && (m.userId != userId || !Truthy(m.userName) ==> r.userName == m.userName)
      && (m.userId != userId ==> r.username == m.username)
      && (m.quote.Some? && m.quote.value.userId == Some(userId) ==>
            r.quote.value.username == Some(nickname) &&
            r.quote.value.userName == (if Truthy(m.quote.value.userName) then Some(nickname) else m.quote.value.userName))
      && (m.quote.None? || m.quote.value.userId != Some(userId) ==> r.quote == m.quote)
  {
  }

  /** Relabelling twice with the same nickname is relabelling once. */
  lemma RelabelIdempotent(m: Message, userId: string, nickname: string)
    ensures Relabel(Relabel(m, userId, nickname), userId, nickname) == Relabel(m, userId, nickname)
  {
  }

  /** `chatHistory.forEach(message => { ... })`: every stored message is
      relabelled in place; the length and the order do not change. */
  method RelabelAll(h: seq<Message>, userId: string, nickname: string) returns (r: seq<Message>)
    ensures |r| == |h|
    ensures forall i :: 0 <= i < |h| ==> r[i] == Relabel(h[i], userId, nickname)
  {
    r := h;
    var i := 0;
    while i < |r|
      invariant |r| == |h| && 0 <= i <= |h|
      invariant forall k :: 0 <= k < i ==> r[k] == Relabel(h[k], userId, nickname)
      invariant forall k :: i <= k < |h| ==> r[k] == h[k]
    {
      r := r[i := Relabel(r[i], userId, nickname)];
      i := i + 1;
    }
  }

  /** The recall tombstone: `{...message, recalled: true, content: "...", type: "recalled"}`. */
  function Tombstone(m: Message): (r: Message)
    ensures r.recalled == Some(true) && r.content == Some(RECALL_TOMBSTONE) && r.msgType == Some(RECALLED_TYPE)
    ensures r.(recalled := m.recalled, content := m.content, msgType := m.msgType) == m
  {
    m.(recalled := Some(true), content := Some(RECALL_TOMBSTONE), msgType := Some(RECALLED_TYPE))
  }

  /** `chatHistory.findIndex(msg => msg.id === id)`, searching from `from`. */
  function FindMessage(h: seq<Message>, id: nat, from: nat := 0): (i: int)
    requires from <= |h|
    ensures i == -1 || from <= i < |h|
    ensures i != -1 ==> h[i].id == id
    ensures forall j :: from <= j < |h| && (i == -1 || j < i) ==> h[j].id != id
    decreases |h| - from
  {
    if from == |h| then -1
    else if h[from].id == id then from
    else FindMessage(h, id, from + 1)
  }

  /** The names in `s`, each kept at its first occurrence only. */
  function Dedup(s: seq<string>): (r: seq<string>)
    ensures Distinct(r)
    ensures forall x :: x in r <==> x in s
    decreases |s|
  {
    if s == [] then []
    else
      var d := Dedup(s[..|s| - 1]);
      assert forall x :: x in s <==> x in s[..|s| - 1] || x == s[|s| - 1] by {
        assert s == s[..|s| - 1] + [s[|s| - 1]];
      }
      if s[|s| - 1] in d then d else d + [s[|s| - 1]]
  }

  /** Appending at most one name to the raw list appends it to the
      de-duplicated list unless it is already there. */
  lemma DedupSnoc(s: seq<string>, extra: seq<string>)
    requires |extra| <= 1
    ensures Dedup(s + extra) == if extra == [] || extra[0] in Dedup(s) then Dedup(s) else Dedup(s) + extra
  {
    if extra == [] {
      assert s + extra == s;
    } else {
      assert (s + extra)[..|s + extra| - 1] == s;
    }
  }

  /** Later names never reorder earlier ones: the de-duplicated list of a
      prefix is a prefix of the de-duplicated list of the whole, so the list
      is in first-occurrence order. */
  lemma {:induction false} DedupPrefix(s: seq<string>, t: seq<string>)
    ensures |Dedup(s)| <= |Dedup(s + t)|
    ensures Dedup(s + t)[..|Dedup(s)|] == Dedup(s)
    decreases |t|
  {
    if t == [] {
      assert s + t == s;
    } else {
      var u := s + t[..|t| - 1];
      DedupPrefix(s, t[..|t| - 1]);
      assert (s + t)[..|s + t| - 1] == u;
      assert Dedup(u)[..|Dedup(s)|] == Dedup(s);
    }
  }
}
