# chat-on-web, modelled in Dafny

chat-on-web is a browser chat room. A Node server built on Express and
Socket.IO keeps the room's state in memory:

- who is online on which socket;
- an info record per user, holding the user id, username and nickname;
- a `userIdMap` used by the `validateUserId` guard of the HTTP routes;
- the last 100 chat messages;
- the upload slots handed out by `/api/get-presigned-url`.

The socket handlers `join`, `chat_message`, `danmu_message`,
`recall_message` and `disconnect` update that state and emit events. The
HTTP routes rename a user and relabel the history, and they hand out and
check upload slots. Two small JSON-file ledgers sit beside it:

- points, per core id: credit, debit, a once-per-calendar-day claim, an
  online-minute counter and a 50-day inactivity sweep;
- red packets: a sender splits points into shares, evenly or by the "double
  average" draw followed by a Fisher-Yates shuffle. Others claim one share
  each; packets expire after a day and are swept seven days later.

The older single-file `server.js` runs a registry of its own, keyed by
username. On the client, an `EventBus` class dispatches component events,
and a few string helpers pick image URLs, avatar colours and avatar letters.

The Dafny project gives each part one module:

- `Common` and `JsMaps`: optional values, JavaScript truthiness and emitted events; insertion-ordered maps, standing for `Map` and for plain objects used as dictionaries.
- `UserService`, `ChatHistory` and `Auth`: the shared state as the class `ChatState`; the message record, the capped append, the relabel, the tombstone and the mention list; the guard.
- `SocketHandler` and `Api`: one method per socket event, returning the events it emits; the HTTP routes, returning the reply.
- `PointsService`: the class `PointsLedger` over a map of accounts.
- `RedPacketAmounts` and `RedPacketService`: the split loop and the in-place shuffle; the class `RedPacketStore`.
- `LegacyServer`: the class `LegacyChat` for server.js.
- `EventBusModel` and `ChatUtils`: the class `EventBus`; the string helpers.

Stateful parts are classes whose methods change their fields, and each method
is proved against specification functions and a class invariant. Time, random
draws, uuids, signatures and the outcome of a file write are parameters.

## Model

| member | source | states |
|---|---|---|
| Common.Utf16Length | src/routes/api.js:180 | `nickname.length` counts UTF-16 code units: at least one and at most two per character |
| Common.Utf16LengthOfBmp | src/routes/api.js:180 | a string of Basic Multilingual Plane characters has as many code units as characters |
| Common.Utf16LengthOfAstral | src/routes/api.js:180 | a string of characters beyond the Basic Multilingual Plane has two code units per character |
| Auth.ValidateUserId | src/middleware/auth.js:4-21 | a missing or empty `x-user-id` header gives 401 "未提供用户ID"; a header whose `userIdMap` entry is absent or empty gives 401 "用户ID无效"; otherwise `next()` runs with `req.user = { userId, username }` taken from the map, and only then |
| Auth.EmptyMapRejectsEveryRequest | src/services/userService.js:8-9 | with `userIdMap` empty, which it is from the start because nothing writes it, every request is refused by the guard |
| UserService.RosterFrom | src/services/userService.js:20-26 | the online list has one entry per socket, in order: the user's info record, or `{ userId, username: null }` when there is none |
| UserService.RosterOfRegistry | src/services/userService.js:20-26 | while the registry is consistent, the online list has one entry per online socket, every entry is a known info record of that socket's user, and no user appears twice |
| UserService.ChatState.constructor | src/services/userService.js:5-14 | all five shared stores start empty, and the registry invariant holds |
| ChatHistory.AppendCapped | src/websocket/socketHandler.js:112-115 | pushing one message, then shifting when over `MAX_HISTORY` (100), keeps the bound, grows the history by one below the cap, and leaves the newest suffix of the history plus the message |
| ChatHistory.AppendAllKeepsNewest | src/websocket/socketHandler.js:112-115 | after any run of appends the history is exactly the newest 100 of all messages, in arrival order (FIFO eviction) |
| ChatHistory.RelabelQuote | src/routes/api.js:200-205 | the quote half of a relabel keeps whether there is a quote, and keeps its user id and content |
| ChatHistory.Relabel | src/routes/api.js:193-206 | relabelling a stored message changes nothing but its sender names and its quote |
| ChatHistory.RelabelEffect | src/routes/api.js:193-206 | the owner's message gets `username` = new nickname, and `userName` only when it was already set; a quote of the owner is relabelled the same way; every other name and quote is untouched |
| ChatHistory.RelabelIdempotent | src/routes/api.js:193-206 | relabelling twice with the same nickname gives the same history as relabelling once |
| ChatHistory.RelabelAll | src/routes/api.js:193-206 | the `forEach` over the history relabels every message in place, keeping length and order |
| ChatHistory.Tombstone | src/websocket/socketHandler.js:183-188 | a recalled message has `recalled: true`, the tombstone content and type "recalled", and every other field unchanged |
| ChatHistory.FindMessage | src/websocket/socketHandler.js:153 | `findIndex` by id returns -1 or the first position whose message has that id; no earlier message has it, and with -1 none does |
| ChatHistory.Dedup | src/websocket/socketHandler.js:100-108 | the mention list has no repeats and holds exactly the names of the raw list |
| ChatHistory.DedupSnoc | src/websocket/socketHandler.js:105-107 | one more resolved name is appended unless the list already includes it (`includes` before `push`) |
| ChatHistory.DedupPrefix | src/websocket/socketHandler.js:102-108 | later names never reorder earlier ones: the list is in first-mention order |
| SocketHandler.EvictedSocket | src/websocket/socketHandler.js:21-29 | the socket a rejoin disconnects is another socket already bound to the same user id; when there is none, no other socket holds that id |
| SocketHandler.JoinedInfos | src/websocket/socketHandler.js:34-42 | a first join creates the record `{ userId, username, nickname: username }`; a rejoin changes the username only and, in the model, where the evicted socket's disconnect handler is not run, keeps the nickname; other records are untouched |
| SocketHandler.JoinBindsExactlyOne | src/websocket/socketHandler.js:21-32 | after a join the joining socket is bound to the user, no other socket is, and all other bindings stay as they were |
| SocketHandler.JoinKeepsRegistryInv | src/websocket/socketHandler.js:14-42 | a join keeps the registry invariant (bound ids have records, one socket per id, records filed under their own id) |
| SocketHandler.Join | src/websocket/socketHandler.js:14-57 | a missing user id or username gets `user_id_failed` and changes nothing; otherwise the older socket is disconnected, the socket is bound, the record is created or updated, and the history snapshot and then `user_join` with the new roster are emitted |
| SocketHandler.VerifySender | src/websocket/socketHandler.js:62-69 | the sender check passes exactly when the socket is bound, its user has a record, and the payload claims that very user id; it yields that record |
| SocketHandler.MentionedNamesMembers | src/websocket/socketHandler.js:100-108 | a name is in the derived `mentions` exactly when it is the non-empty username of some mentioned id that has a record |
| SocketHandler.MentionedNamesStep | src/websocket/socketHandler.js:102-104 | each mentioned id contributes its username, if it has one, at the end of the raw list |
| SocketHandler.ResolveMentions | src/websocket/socketHandler.js:100-108 | the loop builds the de-duplicated names of the mentioned ids, in mention order |
| SocketHandler.ChatMessage | src/websocket/socketHandler.js:61-117 | a failed sender check answers `user_id_failed` and stores nothing; otherwise the message is stamped with the nickname, sender id, id and timestamp, its quote's user id and mentions are resolved, and it is appended with the cap and broadcast |
| SocketHandler.DanmuMessage | src/websocket/socketHandler.js:121-139 | an overlay message from a verified sender is broadcast with the sender's nickname and never stored; a failed check emits nothing |
| SocketHandler.RecallCheck | src/websocket/socketHandler.js:143-180 | recall is refused, in this order, for a failed sender check, an unknown message id, a message of another user, or one older than two minutes; otherwise it names the first message with that id |
| SocketHandler.RecallWindowBoundary | src/websocket/socketHandler.js:171-176 | the two-minute window is inclusive: 120000 ms after the timestamp is allowed, 120001 ms is not |
| SocketHandler.RecallTwice | src/websocket/socketHandler.js:153-188 | recalling an already recalled message again within the window succeeds at the same position and leaves the history as it was |
| SocketHandler.SameIdsSameSearch | src/websocket/socketHandler.js:153 | the search by id depends only on the messages' ids, so a tombstone does not move it |
| SocketHandler.RecallMessage | src/websocket/socketHandler.js:142-195 | a refused recall answers `recall_failed` with its reason and changes nothing; an accepted one replaces exactly that message by its tombstone and broadcasts `message_recalled` |
| SocketHandler.LeaveKeepsRegistryInv | src/websocket/socketHandler.js:198-208 | a leave keeps the registry invariant, and in a consistent registry the leaving user's record is always deleted |
| SocketHandler.Disconnect | src/websocket/socketHandler.js:198-218 | an unbound socket changes nothing; otherwise the binding goes, the record goes when no other socket holds the id, and `user_leave` carries the new roster |
| Api.UpdateNickname | src/routes/api.js:175-221 | a body without a usable nickname gives 400, a nickname over 20 UTF-16 code units gives 400, a missing record gives 404, all without change; otherwise the record looked up under `req.user.username` gets the nickname, every stored message is relabelled, and `user_nickname_updated` is broadcast |
| Api.NicknameLookupIsByUserId | src/routes/api.js:186 | the nickname route looks a record up under `req.user.username`, but records are filed by user id: it finds one only when that username equals the user's id |
| Api.EmojiNicknameLength | src/routes/api.js:180-182 | eleven emoji are 22 UTF-16 code units and so over the limit, though they are eleven characters; ten are exactly at it |
| Api.NicknameLookupMissesJoinedUser | src/routes/api.js:186 | a user who joined as id "u1" with username "alice" is not found under "alice" |
| Api.UpdateNicknameRoute | src/routes/api.js:164 | behind the guard a refused request answers 401 and changes nothing; with the empty `userIdMap` every request is refused, so the nickname handler is never reached |
| Api.LastSegment | src/routes/api.js:61 | `split('/').pop()` is the '/'-free suffix after the last '/', or the whole string when it has none |
| Api.LastSegmentOfUploadUrl | src/services/storageService.js:87-95 | the slot key taken from an upload URL is exactly its '/'-free signature |
| Api.PresignRejection | src/routes/api.js:36-53 | the request is refused with 400 exactly when the body does not parse, the filename or type is missing, or the type is not one of the five image types |
| Api.GetPresignedUrl | src/routes/api.js:36-72 | a refused request leaves the slots alone; otherwise the reply carries the upload URL, the `userId_filename` name and an expiry five minutes ahead, and a slot is stored under the URL's signature |
| Api.GetPresignedUrlRoute | src/routes/api.js:24-27 | behind the guard a refused request answers 401 and stores no slot; with the empty `userIdMap` every request is refused |
| Api.UploadGate | src/routes/api.js:93-101 | an upload is refused with 403 exactly when the signature has no slot or its `expireAt` is before now |
| Api.MockUpload | src/routes/api.js:91-144 | a refused upload changes nothing; a failed store answers 500 and keeps the slot; a stored file deletes its slot and answers with its CDN URL |
| Api.PresignedSlotOpensGate | src/routes/api.js:61-101 | a slot issued at time t opens the upload gate exactly up to t + 5 minutes |
| Api.UploadedSlotIsClosed | src/routes/api.js:121 | after a successful upload the same signature is refused |
| JsMaps.Without | frontend/src/main.js:52 | `filter(cb => cb !== x)` removes exactly the copies of `x`, keeps a list without repeats so, and leaves a list without `x` as it was |
| JsMaps.WithoutKeepsOrder | frontend/src/main.js:52 | filtering keeps the relative order of the remaining elements |
| PointsService.NewAccount | src/services/pointsService.js:67-75 | a first-use account has the coreId, 0 points, `createdAt` now, no daily claim, 0 online minutes and no `updatedAt` |
| PointsService.AccountOrNew | src/services/pointsService.js:67-75 | the stored account when there is one, otherwise a new one |
| PointsService.ActiveAccounts | src/services/pointsService.js:206-217 | the sweep keeps exactly the accounts whose `updatedAt` (or `createdAt`) is later than 50 days ago, unchanged |
| PointsService.SweepPartitions | src/services/pointsService.js:206-217 | every account is either kept or counted as cleaned, never both |
| PointsService.AllActiveKeepsAll | src/services/pointsService.js:219-225 | a sweep that counts no inactive account keeps every account |
| PointsService.PointsLedger.constructor | src/services/pointsService.js:24-33 | the ledger starts from the data read from the file |
| PointsService.PointsLedger.PointsOf | src/services/pointsService.js:48-59 | an empty coreId or an unknown account has 0 points; otherwise the stored balance |
| PointsService.PointsLedger.InfoOf | src/services/pointsService.js:189-194 | the stored account for a non-empty known coreId, otherwise null |
| PointsService.PointsLedger.CanClaim | src/services/pointsService.js:100-119 | an empty coreId cannot claim; a coreId with no account or no earlier claim can; otherwise it can exactly when the last claim fell on another local calendar date |
| PointsService.PointsLedger.AddPoints | src/services/pointsService.js:62-81 | succeeds exactly for a non-empty coreId, a positive amount and a good write; then the account (created if needed) gains the amount and is stamped; a failure changes nothing; balances stay non-negative |
| PointsService.PointsLedger.ReducePoints | src/services/pointsService.js:84-97 | succeeds exactly when the account exists and holds at least the positive amount and the write works; then the balance drops by the amount and stays non-negative; a failure changes nothing |
| PointsService.PointsLedger.ClaimDaily | src/services/pointsService.js:122-142 | succeeds exactly when a claim is allowed and the write works; then the account gains the daily points (100 unless given) and records the claim, and no further claim is allowed on the same calendar date |
| PointsService.PointsLedger.AddOnlineMinutes | src/services/pointsService.js:145-164 | succeeds exactly for a non-empty coreId, a positive count and a good write; then the counter (missing counts as 0) grows by the count and the balance is untouched |
| PointsService.PointsLedger.ResetOnlineMinutes | src/services/pointsService.js:167-186 | succeeds exactly for a non-empty coreId and a good write; then the counter is 0 (the account is created if needed) and the balance is untouched |
| PointsService.PointsLedger.CleanupInactive | src/services/pointsService.js:197-226 | returns the number of inactive accounts; when there are some and the write works, the data becomes exactly the active accounts; otherwise nothing changes |
| RedPacketAmounts.ScaledDraw | src/services/redPacketService.js:65 | `Math.floor(Math.random() * m)` lies in [0, m) for m > 0 and is 0 for m = 0 |
| RedPacketAmounts.ProductIsMultiplication | src/services/redPacketService.js:65 | the unfolded product used for the scaled draw is ordinary multiplication |
| RedPacketAmounts.ScaledDrawBound | src/services/redPacketService.js:83 | a draw scaled by `i + 1` is a valid index in [0, i] |
| RedPacketAmounts.SumAppend | src/services/redPacketService.js:73 | the sum of a concatenation is the sum of its parts |
| RedPacketAmounts.RemoveAt | src/services/redPacketService.js:84 | taking one element out of a list takes its value out of the sum and one copy out of the multiset |
| RedPacketAmounts.SumOfPermutation | src/services/redPacketService.js:76 | lists with the same multiset of values have the same sum, so shuffling keeps the total |
| RedPacketAmounts.QuotientBelow | src/services/redPacketService.js:64 | floor(a / b) times b does not exceed a |
| RedPacketAmounts.DoubleAverageCap | src/services/redPacketService.js:64-65 | with two or more shares left and at least a point per share, the cap is at least 2 and a share of at most cap - 1 leaves a point for every later share |
| RedPacketAmounts.MulAtMost | src/services/redPacketService.js:64 | multiplying by a non-negative number keeps the order |
| RedPacketAmounts.DoubleAverage | src/services/redPacketService.js:62-73 | the double-average split yields `totalCount` shares (one share when the count is below 1) |
| RedPacketAmounts.DoubleAverageSplits | src/services/redPacketService.js:56-73 | the shares add up to exactly the total, and each share is at least 1 point |
| RedPacketAmounts.DoubleAverageStep | src/services/redPacketService.js:64-69 | one loop turn takes a share and leaves at least one point for each of the remaining shares |
| RedPacketAmounts.DoubleAverageLast | src/services/redPacketService.js:73 | the last share takes everything that is left |
| RedPacketAmounts.Swap | src/services/redPacketService.js:84 | a swap keeps the length |
| RedPacketAmounts.SwapPermutes | src/services/redPacketService.js:84 | a swap keeps the multiset of values |
| RedPacketAmounts.FisherYates | src/services/redPacketService.js:82-85 | the shuffle pass keeps the length |
| RedPacketAmounts.FisherYatesPermutes | src/services/redPacketService.js:80-87 | the shuffle only reorders: its result is a permutation of its input |
| RedPacketAmounts.FisherYatesStep | src/services/redPacketService.js:82-85 | one swap at position `i` leaves the pass from `i - 1` to finish the same shuffle |
| RedPacketAmounts.FisherYatesDone | src/services/redPacketService.js:82 | the pass stops once `i` reaches 0 |
| RedPacketAmounts.ShuffleStep | src/services/redPacketService.js:83-84 | swapping `a[i]` with its drawn partner in place advances the array one step toward the shuffle |
| RedPacketAmounts.ShuffleInPlace | src/services/redPacketService.js:82-85 | the in-place `for` loop leaves the array equal to the Fisher-Yates shuffle of its old contents |
| RedPacketAmounts.ShuffleArray | src/services/redPacketService.js:80-87 | `shuffleArray` returns the shuffle of a copy, a permutation of the input of the same length |
| RedPacketAmounts.SplitDoubleAverage | src/services/redPacketService.js:57-73 | the loop produces exactly the double-average shares |
| RedPacketAmounts.GenerateRandomAmounts | src/services/redPacketService.js:56-77 | the amounts are the shuffled double-average shares: `totalCount` of them, summing to the total, each at least 1 point |
| RedPacketService.FloorDiv | src/services/redPacketService.js:242 | `Math.floor(a / b)` is the quotient rounded down, for either sign of the divisor |
| RedPacketService.CheckStatusAsWritten | src/services/redPacketService.js:90-106 | only the status changes; a not-yet-expired-marked packet past its expiry becomes expired; a packet marked expired with no shares left becomes completed |
| RedPacketService.CheckStatus | src/services/redPacketService.js:90-106 | only the status changes; past the expiry time the packet is expired; before it, no shares left means completed, otherwise the status stays |
| RedPacketService.CheckStatusIdempotent | src/services/redPacketService.js:90-106 | checking a packet twice at the same time gives the same packet as checking once |
| RedPacketService.CheckStatusDiffersOnlyOnExpiredEmpty | src/services/redPacketService.js:94-103 | the written check and the corrected one differ exactly on packets marked expired, past expiry, with no shares left |
| RedPacketService.StaleIffPastRetention | src/services/redPacketService.js:425-429 | with the corrected check the cleanup removes a packet exactly when its expiry is more than seven days old |
| RedPacketService.AsWrittenStatusFlipFlops | src/services/redPacketService.js:94-103 | as written, a fully claimed packet long past expiry turns expired, then completed on the next check, and then escapes the cleanup |
| RedPacketService.CreateRejectionAsWritten | src/services/redPacketService.js:110-116 | "missing parameters" exactly when a parameter is falsy; an accepted request has an amount at least its count |
| RedPacketService.CreateRejection | src/services/redPacketService.js:110-116 | "missing parameters" exactly when a parameter is falsy; a request is accepted exactly when all are present and 1 <= count <= amount |
| RedPacketService.CreateRejectionAgreesOnPositiveCounts | src/services/redPacketService.js:110-116 | for a count of at least 1 the corrected checks agree with the written ones |
| RedPacketService.AsWrittenAcceptsNegativeCount | src/services/redPacketService.js:110-116 | as written, 10 points over -1 shares is accepted and would pay -10 per average claim; the corrected check rejects it |
| RedPacketService.NewPacket | src/services/redPacketService.js:119-143 | a new packet is active, unclaimed, holds its whole amount and count, expires 24 hours after creation, and greets with the default when none is given |
| RedPacketService.AmountsOf | src/services/redPacketService.js:260 | the list of claimed amounts, one per claim in order |
| RedPacketService.ReceivedAppend | src/services/redPacketService.js:264 | appending a claim adds its amount to the total handed out |
| RedPacketService.FindReceiver | src/services/redPacketService.js:229 | `receivers.find` gives the first claim by that coreId, and nothing exactly when no claim has it |
| RedPacketService.NewPacketInv | src/services/redPacketService.js:119-143 | a newly created packet satisfies the packet invariant (counts, amounts, pre-drawn shares) |
| RedPacketService.CheckStatusKeepsInv | src/services/redPacketService.js:90-106 | the status check keeps the packet invariant |
| RedPacketService.ShareFor | src/services/redPacketService.js:239-247 | an average packet pays floor(total / count); a random one pays the next pre-drawn share; any other type has no share (the lookup throws); every share is at least 1 |
| RedPacketService.Claim | src/services/redPacketService.js:252-269 | a claim takes its amount and one share off what is left, appends the claim, and re-checks the status |
| RedPacketService.ClaimKeepsInv | src/services/redPacketService.js:239-269 | a first claim of the share due keeps the invariant: left plus handed out is still the total, nobody claims twice |
| RedPacketService.ClaimIsFound | src/services/redPacketService.js:229-236 | after a claim, the claimer's lookup finds exactly the claim just added, so a second claim is refused |
| RedPacketService.SumOfCopies | src/services/redPacketService.js:242 | n claims of the same amount sum to n times it |
| RedPacketService.SumAtLeastLength | src/services/redPacketService.js:62-73 | a list of shares of at least 1 point sums to at least its length |
| RedPacketService.AverageRemaining | src/services/redPacketService.js:242-253 | on an average packet, what is left covers the average for every share left |
| RedPacketService.RandomRemaining | src/services/redPacketService.js:245-253 | on a random packet, what is left is at least the number of shares left |
| RedPacketService.RemainingCoversShares | src/services/redPacketService.js:239-253 | what is left never falls below the shares left, and so never below zero |
| RedPacketService.FullyClaimedRandomPaysTotal | src/services/redPacketService.js:245-253 | a fully claimed random packet has paid out exactly its total |
| RedPacketService.FullyClaimedAverageKeepsRemainder | src/services/redPacketService.js:242-253 | a fully claimed average packet keeps back total mod count |
| RedPacketService.PacketsOkSet | src/services/redPacketService.js:146-147 | storing a packet that satisfies the invariant under its id keeps the store's invariant |
| RedPacketService.SentOf | src/services/redPacketService.js:368-386 | the sent list has at most one entry per packet |
| RedPacketService.SentOfMembers | src/services/redPacketService.js:368-386 | the sent list has an entry, status checked, for exactly the packets that coreId sent |
| RedPacketService.ReceivedOf | src/services/redPacketService.js:368-399 | the received list has at most one entry per packet |
| RedPacketService.ReceivedOfMembers | src/services/redPacketService.js:388-399 | the received list has an entry, showing the first claim, for exactly the packets that coreId claimed from |
| RedPacketService.InsertDesc | src/services/redPacketService.js:403-404 | inserting into a descending list keeps it descending and adds exactly the one element |
| RedPacketService.InsertDescSorted | src/services/redPacketService.js:403-404 | putting a larger head before a descending insertion result keeps the list descending |
| RedPacketService.SortDesc | src/services/redPacketService.js:403-404 | the sort returns a permutation of its input, in descending order of the key |
| RedPacketService.SliceTo | src/services/redPacketService.js:409-410 | `slice(0, limit)` is a prefix of length `min(limit, n)`, or `n + limit` clipped at 0 for a negative limit |
| RedPacketService.SweptKeys | src/services/redPacketService.js:421-433 | the cleanup keeps exactly the keys of packets that are not stale after the status check, without duplicates |
| RedPacketService.StaleCount | src/services/redPacketService.js:418-433 | the count of removed packets is zero exactly when no packet is stale |
| RedPacketService.SweptTable | src/services/redPacketService.js:421-433 | the kept packets are exactly the non-stale ones, each with its status brought up to date |
| RedPacketService.Swept | src/services/redPacketService.js:415-442 | the store after cleanup is well formed and holds exactly the non-stale packets, status checked |
| RedPacketService.SweepPass | src/services/redPacketService.js:421-433 | the `for..in` loop computes the kept keys, the kept packets and the removal count |
| RedPacketService.CollectHistory | src/services/redPacketService.js:368-400 | the `for..in` loop computes the sent and the received lists |
| RedPacketService.RedPacketStore.constructor | src/services/redPacketService.js:24-28 | the store starts empty and valid |
| RedPacketService.RedPacketStore.Create | src/services/redPacketService.js:109-166 | a rejected or unsaved request leaves the store unchanged with the matching error; otherwise the new packet, with its shuffled shares when random, is stored under "rp_" + uuid and summarised |
| RedPacketService.RedPacketStore.Receive | src/services/redPacketService.js:169-311 | with the corrected status check `CheckStatus` (see Findings), errors in the source's order (parameters, not found, expired, completed, already received, no share, save failed) leave the store unchanged; a success stores the claimed packet and returns the claim |
| RedPacketService.RedPacketStore.Details | src/services/redPacketService.js:314-353 | missing id and unknown packet are errors; otherwise the checked status, the claims, whether coreId claimed and how much |
| RedPacketService.RedPacketStore.History | src/services/redPacketService.js:356-412 | a missing coreId is an error; otherwise the sent and received lists, newest first, cut to the limit (20 by default) |
| RedPacketService.RedPacketStore.Cleanup | src/services/redPacketService.js:415-442 | returns the number of stale packets; when there are some and the write succeeds, the store becomes the swept store, otherwise it is unchanged |
| LegacyServer.MembersFrom | server.js:264-267 | the broadcast list has one entry per socket, in order: the info record filed under its username, or `{ username, userId: null }` |
| LegacyServer.MembersAllListed | server.js:249-251 | while the registry is consistent, every broadcast entry is the record filed under that socket's username |
| LegacyServer.ExistingSocket | server.js:229-231 | the socket found for a user id is bound to the username `userIdMap` gives for that id; none is found exactly when the id is unmapped or no socket holds that name |
| LegacyServer.DecideJoin | server.js:220-246 | an accepted join has a truthy userId and username |
| LegacyServer.DecideJoinCases | server.js:220-246 | refused for missing fields exactly when userId or username is falsy; refused as taken exactly when another live socket holds the id under a different name; that socket is disconnected exactly when it holds the same name |
| LegacyServer.JoinRefusesOnlyTakenIds | server.js:229-238 | an unmapped user id is always accepted without eviction; a refusal as taken means the id is mapped to a different username |
| LegacyServer.JoinEffect | server.js:240-251 | an accepted join binds the socket, unbinds only the evicted socket, files `{userId, username, nickname: username}` under the username and maps the id to the username, leaving every other entry alone |
| LegacyServer.JoinKeepsInv | server.js:240-251 | an accepted join keeps the registry consistent |
| LegacyServer.RejoinResetsNickname | server.js:251 | a rejoin resets any earlier nickname to the username |
| LegacyServer.JoinAuthorises | server.js:249-251 | after an accepted join the `validateUserId` guard admits the user id with the joined username, and a record is filed under that username |
| LegacyServer.VerifySender | server.js:274-281 | the sender passes exactly when the socket is bound, its username has a record, and the claimed user id is that record's; the record is returned |
| LegacyServer.NameOfId | server.js:323-325 | a name found for an id is filed with a record carrying that id |
| LegacyServer.NameOfIdFirst | server.js:323-325 | the name found is the first in insertion order with that id; none is found only when no record has it |
| LegacyServer.MentionedNamesHas | server.js:322-329 | a name is among the resolved names exactly when it is the non-empty first name for one of the mentioned ids |
| LegacyServer.MentionedNamesMembers | server.js:319-329 | the derived `mentions` list has no repeats and holds exactly the non-empty names resolved from the mentioned ids |
| LegacyServer.MentionedNamesStep | server.js:322-329 | each further mentioned id adds its name, if any, at the end |
| LegacyServer.ResolveMentions | server.js:320-329 | the `forEach` builds the deduplicated list of resolved names, in first-mention order |
| LegacyServer.QuotedUserId | server.js:306-311 | a quote takes the user id of the record filed under the quoted username, or "" when there is none |
| LegacyServer.AcceptedMessageNames | server.js:291-331 | a truthy `username` is kept; otherwise a truthy `userName` becomes `username` and is dropped; the id, time and claimed user id are stamped; the body passes through; given `mentions` are kept |
| LegacyServer.LeaveKeepsInv | server.js:370-386 | a leave keeps the registry consistent |
| LegacyServer.LeaveEffect | server.js:371-386 | the record and the id entry are removed exactly when no other socket holds the username, and nothing else is removed |
| LegacyServer.LegacyChat.constructor | server.js:27-35 | the three maps and the history start empty |
| LegacyServer.LegacyChat.Join | server.js:220-269 | a refused join emits `user_id_failed` with its message and changes nothing; an accepted one updates the three maps as `JoinEffect` states, sends the history and broadcasts `user_join` with the new list |
| LegacyServer.LegacyChat.ChatMessage | server.js:272-341 | a failed sender check emits `user_id_failed` and stores nothing; otherwise the processed message is appended with the 100-message cap and broadcast; the registry is unchanged |
| LegacyServer.LegacyChat.DanmuMessage | server.js:344-367 | a failed sender check emits nothing; otherwise the overlay message is broadcast under the socket's username and stored nowhere |
| LegacyServer.LegacyChat.Disconnect | server.js:370-398 | an unbound socket changes nothing; otherwise the socket is unbound, the record and id entry go when it was the name's last socket, and `user_leave` is broadcast with the new list |
| LegacyServer.LegacyChat.UpdateNickname | server.js:574-641 | an unreadable body, a nickname over 20 UTF-16 code units or an unknown user is refused with no change; otherwise the record's nickname is set, every message and quote of that user id is relabelled, and the update is broadcast |
| LegacyServer.LegacyChat.UpdateNicknameRoute | server.js:402-421 | a refused guard answers 401 with its message and changes nothing; behind an admitting guard the handler's outcomes for the user the guard yields: 400 for a missing or over-long nickname and 404 for an unknown record, all without change, otherwise that record gets the nickname, every message of its user id is relabelled and `user_nickname_updated` is broadcast |
| EventBusModel.Targets | frontend/src/main.js:21-23 | the callbacks that run are those of the listeners, one each, in order |
| EventBusModel.DropOnceMembers | frontend/src/main.js:39-45 | removing the `once` wrappers keeps exactly the listeners registered with `on` |
| EventBusModel.WithoutCounts | frontend/src/main.js:52 | the filter removes every copy of the given listener and no other listener |
| EventBusModel.WithoutKeepsUnique | frontend/src/main.js:52 | filtering keeps each `once` wrapper listed at most once |
| EventBusModel.OffKeepsOnceWrappers | frontend/src/main.js:39-52 | `off(event, cb)` does not remove a wrapper made by `once(event, cb)`, which is a different function |
| EventBusModel.DropOnceStep | frontend/src/main.js:21-23 | each further listener walked stays exactly when it was registered with `on` |
| EventBusModel.FireDirectStep | frontend/src/main.js:21-23 | an `on` listener firing leaves the live list unchanged |
| EventBusModel.OnceNotLater | frontend/src/main.js:39-45 | a `once` wrapper listed once does not occur again later in the list |
| EventBusModel.FireOnceStep | frontend/src/main.js:40-52 | a `once` wrapper firing removes exactly itself from the live list |
| EventBusModel.WithoutAppend | frontend/src/main.js:52 | the filter distributes over concatenation |
| EventBusModel.EventBus.constructor | frontend/src/main.js:14-16 | the bus starts with no events |
| EventBusModel.EventBus.On | frontend/src/main.js:28-36 | the callback is appended to the event's list, which is created when absent; the unsubscriber names that event and callback |
| EventBusModel.EventBus.Off | frontend/src/main.js:48-57 | an unknown event is left alone; with a callback, every copy of it is filtered out; without one, the event's entry is deleted |
| EventBusModel.EventBus.Call | frontend/src/main.js:35 | calling the unsubscriber is `off(event, callback)` |
| EventBusModel.EventBus.Once | frontend/src/main.js:39-45 | a fresh wrapper, not already listed, is appended to the event's list |
| EventBusModel.EventBus.FireAt | frontend/src/main.js:21-43 | one turn of the loop fires the snapshot's listener at that position, and a `once` wrapper takes itself off the live list |
| EventBusModel.EventBus.Emit | frontend/src/main.js:19-25 | the listeners registered when `emit` starts fire in order; afterwards the event keeps only its `on` listeners, so no fired `once` wrapper can fire again; an unknown event fires nothing |
| ChatUtils.LastDot | frontend/src/utils/chatUtils.js:73-74 | the position found holds a dot with no dot after it; none is found only when there is no dot |
| ChatUtils.IsImageUrl | frontend/src/utils/chatUtils.js:72-75 | only a string can be an image URL |
| ChatUtils.LastDotUnique | frontend/src/utils/chatUtils.js:74 | a dot with no dot after it is the last dot |
| ChatUtils.ImageUrlEndsWithExtension | frontend/src/utils/chatUtils.js:72-75 | every accepted string ends with "." and one of the five extensions |
| ChatUtils.ExtensionEndingIsImageUrl | frontend/src/utils/chatUtils.js:72-75 | every string ending with "." and one of the five extensions is accepted |
| ChatUtils.IsImageUrlMatchesPattern | frontend/src/utils/chatUtils.js:72-75 | a string is accepted exactly when it ends with a dot and one of jpeg, jpg, gif, png, webp, as the regular expression demands |
| ChatUtils.NonStringIsNotImage | frontend/src/utils/chatUtils.js:73 | a non-string is never an image URL |
| ChatUtils.ExtensionMakesImageUrl | frontend/src/utils/chatUtils.js:72-75 | any text followed by "." and an extension is accepted, and the match is case-sensitive (".PNG" is not) |
| ChatUtils.ToInt32 | frontend/src/utils/chatUtils.js:81 | ToInt32 gives a signed 32-bit value congruent to its input modulo 2^32 |
| ChatUtils.ToInt32Fits | frontend/src/utils/chatUtils.js:81 | ToInt32 leaves a value that fits in 32 bits unchanged |
| ChatUtils.ShiftLeft5 | frontend/src/utils/chatUtils.js:81 | `hash << 5` is a signed 32-bit value |
| ChatUtils.AvatarColorOf | frontend/src/utils/chatUtils.js:78-94 | the colour picked is always one of the eight palette entries |
| ChatUtils.GetAvatarColor | frontend/src/utils/chatUtils.js:78-94 | the loop computes the hash of the whole name, and the colour is palette entry at the absolute hash mod 8 |
| ChatUtils.EmptyNameColor | frontend/src/utils/chatUtils.js:79-93 | the empty name hashes to 0 and gets the first colour |
| ChatUtils.HashBound | frontend/src/utils/chatUtils.js:80-82 | each code unit moves the hash by at most 2^31 + 2^16, so the double arithmetic stays exact |
| ChatUtils.HashIsPolynomialWhileSmall | frontend/src/utils/chatUtils.js:80-82 | while it stays below 2^26 the hash is the polynomial h * 31 + c |
| ChatUtils.GetAvatarText | frontend/src/utils/chatUtils.js:97-102 | an absent or empty name gives "?" |
| ChatUtils.AvatarTextFromFirstUnit | frontend/src/utils/chatUtils.js:97-102 | only the first code unit decides the text, and a case mapping that keeps single units single gives one unit |

## Left out

- Socket.IO and Express transport, request body streaming and console logging. Emitted events and HTTP replies are returned values. A forced `disconnect(true)` is a recorded event plus removal from the map; the evicted socket's own `disconnect` handler is not run inline. In the program that handler runs synchronously inside `disconnect(true)`: it broadcasts `user_leave`, deletes the user's record, so that src/websocket/socketHandler.js:34-42 then recreates it with `nickname: username` and a rejoin resets a changed nickname, and in server.js it deletes the `userIdMap` entry of the record's `userId` (server.js:381-384). That is usually the joining id, which the join then adds back (server.js:250); when another id last joined under the same username, that other id's entry is lost. SocketHandler.JoinedInfos, SocketHandler.Join and LegacyServer.LegacyChat.Join state the effect without that handler: the extra `user_leave` and the nickname reset are not modelled.
- File persistence of the two ledgers. The JSON file is a field of the ledger class. A write is a boolean parameter, and a failed write leaves the field unchanged. A read failure that yields `{}` is not modelled.
- Prototype keys of plain objects (`data["__proto__"]` and the like), and non-string keys.
- Integer amounts only. Fractional point amounts and the double rounding of `remaining / count * 2` are not modelled, since the cap is computed exactly as floor(2 * remaining / count).
- `Date.now()`, `new Date()`, `toLocaleTimeString`, `uuidv4()` and `Math.random()` are parameters; calendar dates come from a supplied function. The socket handler reads `Date.now()` twice, once for a message's `id` and once for its `timestamp` (src/websocket/socketHandler.js:87-88); SocketHandler.ChatMessage takes one `now` for both, so the two never differ in the model.
- `scheduleCleanup` and the other timers: the model covers what one cleanup does, not when it runs.
- `/api/users`, `/api/notices` and `/api/emojis/:category`: they read the file system or return a list without changing anything.
- The upload routes of server.js (`/api/get-presigned-url`, `/api/mock-upload/:signature`), `cleanCdnDirectoryOnRestart`, `getDirectorySize`, `cleanDirectory` and `checkDirectorySize`: file-system I/O. The upload gate is modelled for src/routes/api.js.
- src/services/storageService.js, except the shape of the upload URL: object storage I/O.
- src/services/starReplyService.js, electron/main.js and frontend/src/utils/electronUtils.js: an external HTTP client, the desktop shell and IPC.
- frontend/src/utils/eventBus.js is not part of this model; it only wraps the bus in frontend/src/main.js.
- `compressImage` and `dataURItoFile` in chatUtils.js: canvas, FileReader and floating point.
- Socket ids are assumed non-empty, so "an existing socket was found" is not confused with a falsy id.
- The sort in the red-packet history is specified as descending and a permutation. The placement of equal keys, which a stable sort would fix, is not stated.
- EventBusModel.EventBus.Emit: callbacks are opaque ids. The arguments passed to them are not modelled, and neither are callbacks that throw or that call `on`/`off` on the bus while it emits. Only a `once` wrapper's own `off` call is modelled.
- ChatUtils.GetAvatarText: a single-character result is proved only for a case mapping that keeps single code units single. `toUpperCase` is a parameter, and a real locale can lengthen a character ("ß" becomes "SS").
- ChatUtils.GetAvatarColor: the hash is computed on exact integers. `HashBound` shows that doubles hold these values exactly for names shorter than 2^22 code units; longer names are not modelled.
- Api.UpdateNickname: a `nickname` that is a JSON number, boolean or object has no `length`, so `undefined > 20` is false and the program stores and broadcasts that value; the model takes an optional string and answers 400 for any such body. An array nickname, whose `length` is its element count, is not modelled either.
- Api.UpdateNicknameRoute: inherits the non-string nickname gap of Api.UpdateNickname, though with the empty `userIdMap` the handler is never reached.
- LegacyServer.LegacyChat.UpdateNickname: a non-string `nickname` (number, boolean, object, array) that the program would store is refused with 400, as for Api.UpdateNickname.
- LegacyServer.LegacyChat.UpdateNicknameRoute: inherits the non-string nickname gap of LegacyServer.LegacyChat.UpdateNickname.
- RedPacketService.RedPacketStore.Create: uses the corrected CreateRejection (see Findings), so a request with a positive amount and a negative count, such as (10, -1), is refused with a count error, where the program accepts it.
- RedPacketService.RedPacketStore.Receive: uses the corrected CheckStatus (see Findings). For a stored packet already marked expired, with remainingCount 0 and now past its expiry, the program answers "红包已领完" (completed); the model answers expired.
- RedPacketService.RedPacketStore.Details: uses the corrected CheckStatus, so the packet described under Receive is reported expired, where the program reports completed.
- RedPacketService.RedPacketStore.History: uses the corrected CheckStatus, so the packet described under Receive is listed as expired, where the program lists it as completed.
- RedPacketService.RedPacketStore.Cleanup: uses the corrected CheckStatus, so the packet described under Receive is deleted once it is seven days past expiry, where the program turns it completed and keeps it.
- RedPacketService.RedPacketStore.Receive: returns the claim record only. The response's `remainingCount`, `totalCount` and `status` are read off the stored packet the contract describes.

## Findings

| source | as written | input that shows it | evidently intended | confidence | as-written member | corrected member |
|---|---|---|---|---|---|---|
| src/services/redPacketService.js:94-103 | the expiry test is skipped for a packet already marked expired, so such a packet with no shares left is turned into completed, and back into expired on the next check | a packet with status expired, remainingCount 0 and now more than seven days past expireTime: the check turns it completed and the cleanup keeps it | expired takes priority whenever now > expireTime, so the cleanup removes every packet more than seven days past expiry | not executed | RedPacketService.AsWrittenStatusFlipFlops | RedPacketService.CheckStatus |
| src/services/redPacketService.js:110-116 | the checks test only truthiness and amount >= count, so a negative count is accepted | totalAmount 10, totalCount -1, type average: accepted, and each claim would pay floor(10 / -1) = -10 | the count must be at least 1 | not executed | RedPacketService.AsWrittenAcceptsNegativeCount | RedPacketService.CreateRejection |
