/** The red-packet ledger of src/services/redPacketService.js: creation with
    validation, the status check, claiming with one claim per coreId, the
    details view, the per-user sent/received history and the 7-day cleanup.
    The JSON file behind it is the field `data` of `RedPacketStore`; the
    current time, the uuid and the random draws are parameters, and every
    write is given as `writeOk`, a failed write leaving `data` as it was. */
module RedPacketService {
  import opened Common
  import opened JsMaps
  import RedPacketAmounts

  const DAY_MS: int := 24 * 60 * 60 * 1000
  /** A packet expires a day after it is created. */
  const LIFETIME_MS: int := DAY_MS
  /** An expired packet is kept for another seven days. */
  const RETENTION_MS: int := 7 * DAY_MS
  const ID_PREFIX: string := "rp_"
  const DEFAULT_GREETING: string := "恭喜发财，大吉大利"
  const DEFAULT_HISTORY_LIMIT: int := 20
  const RANDOM_KIND: string := "random"
  const AVERAGE_KIND: string := "average"

  /** `RED_PACKET_STATUS` */
  datatype Status = Active | Expired | Completed

  /** One claim: who took a share, how much, and when. */
  datatype Receiver = Receiver(userId: string, username: string, coreId: string, amount: int, receiveTime: int)

  /** One stored packet. `kind` is the `type` string given at creation;
      `amounts` is present only for random packets. Times are milliseconds. */
  datatype RedPacket = RedPacket(
    id: string,
    senderId: string,
    senderName: string,
    senderCoreId: string,
    kind: string,
    totalAmount: int,
    totalCount: int,
    remainingAmount: int,
    remainingCount: int,
    greeting: string,
    createTime: int,
    expireTime: int,
    status: Status,
    receivers: seq<Receiver>,
    amounts: Option<seq<int>>)

  /** Why an operation gave `success: false`. */
  datatype Failure =
    | MissingParams
    | CountNotPositive
    | AmountBelowCount
    | SaveFailed
    | NotFound
    | PacketExpired
    | PacketCompleted
    | AlreadyReceived
    | ReceiveException
    | MissingPacketId
    | MissingCoreId

  /** The `message` that goes with each failure. A non-positive count has no
      message of its own in the service; it reuses the missing-parameter one. */
  function FailureMessage(f: Failure): string {
    match f
    case MissingParams => "缺少必要参数"
    case CountNotPositive => "缺少必要参数"
    case AmountBelowCount => "总金额不能小于红包个数"
    case SaveFailed => "保存红包数据失败"
    case NotFound => "红包不存在"
    case PacketExpired => "红包已过期"
    case PacketCompleted => "红包已领完"
    case AlreadyReceived => "您已经领取过这个红包了"
    case ReceiveException => "领取红包时发生异常"
    case MissingPacketId => "缺少红包ID"
    case MissingCoreId => "缺少用户coreId"
  }

  /** JavaScript truthiness of an optional number: `undefined` and 0 are falsy. */
  predicate TruthyNumber(n: Option<int>) {
    n.Some? && n.value != 0
  }

  /** `Math.floor(a / b)` on integers. */
  function FloorDiv(a: int, b: int): (q: int)
    requires b != 0
    ensures b > 0 ==> q * b <= a < q * b + b
    ensures b < 0 ==> q * b >= a > q * b + b
  {
    if b > 0 then a / b else (-a) / (-b)
  }

  // ---------------------------------------------------------------------
  // Status

  /** `checkAndUpdateRedPacketStatus` as the service writes it: the expiry
      test is skipped for a packet already marked expired, so such a packet
      with nothing left falls through to the completed test. */
  function CheckStatusAsWritten(p: RedPacket, now: int): (r: RedPacket)
    ensures r == p.(status := r.status)
    ensures p.status != Expired && now > p.expireTime ==> r.status == Expired
    ensures p.status == Expired && p.remainingCount == 0 ==> r.status == Completed
  {
    if now > p.expireTime && p.status != Expired then p.(status := Expired)
    else if p.remainingCount == 0 && p.status != Completed then p.(status := Completed)
    else p
  }

  /** The status check the model uses: a packet past its expiry time is
      expired, whatever else holds; otherwise a packet with no shares left is
      completed; otherwise the status stays. */
  function CheckStatus(p: RedPacket, now: int): (r: RedPacket)
    ensures r == p.(status := r.status)
    ensures now > p.expireTime ==> r.status == Expired
    ensures now <= p.expireTime && p.remainingCount == 0 ==> r.status == Completed
    ensures now <= p.expireTime && p.remainingCount != 0 ==> r.status == p.status
  {
    if now > p.expireTime then p.(status := Expired)
    else if p.remainingCount == 0 then p.(status := Completed)
    else p
  }

  /** Checking twice at the same time changes nothing more. */
  lemma CheckStatusIdempotent(p: RedPacket, now: int)
    ensures CheckStatus(CheckStatus(p, now), now) == CheckStatus(p, now)
  {
  }

  /** The two checks differ in exactly one case: a packet already marked
      expired, past its expiry time, with no shares left. */
  lemma CheckStatusDiffersOnlyOnExpiredEmpty(p: RedPacket, now: int)
    ensures CheckStatusAsWritten(p, now) != CheckStatus(p, now)
        <==> p.status == Expired && now > p.expireTime && p.remainingCount == 0
  {
  }

  /** A packet is removed by the cleanup when, after the status check, it is
      expired and its expiry time is more than seven days before `now`. */
  predicate Stale(p: RedPacket, now: int) {
    p.status == Expired && now - p.expireTime > RETENTION_MS
  }

  /** With the corrected check, a packet is removed exactly when its expiry
      time is more than seven days old, whatever its stored status. */
  lemma StaleIffPastRetention(p: RedPacket, now: int)
    ensures Stale(CheckStatus(p, now), now) <==> now - p.expireTime > RETENTION_MS
  {
  }

  /** As written, a fully claimed packet past its expiry alternates between
      expired and completed on successive checks, and when stored as expired
      it survives a cleanup more than seven days after expiring. */
  lemma AsWrittenStatusFlipFlops(p: RedPacket, now: int)
    requires p.status == Completed && p.remainingCount == 0 && now - p.expireTime > RETENTION_MS
    ensures CheckStatusAsWritten(p, now).status == Expired
    ensures CheckStatusAsWritten(CheckStatusAsWritten(p, now), now).status == Completed
    ensures !Stale(CheckStatusAsWritten(CheckStatusAsWritten(p, now), now), now)
    ensures Stale(CheckStatus(CheckStatus(p, now), now), now)
  {
  }

  // ---------------------------------------------------------------------
  // Creation

  /** The parameter checks of `createRedPacket` as written: every parameter
      must be truthy and the amount at least the count. A negative count
      passes both tests. */
  function CreateRejectionAsWritten(
    senderCoreId: Option<string>, senderId: Option<string>, senderName: Option<string>,
    kind: Option<string>, totalAmount: Option<int>, totalCount: Option<int>): (r: Option<Failure>)
    ensures r == Some(MissingParams) <==>
              !(Truthy(senderCoreId) && Truthy(senderId) && Truthy(senderName) && Truthy(kind)
                && TruthyNumber(totalAmount) && TruthyNumber(totalCount))
    ensures r.None? ==> totalCount.Some? && totalAmount.Some? && totalAmount.value >= totalCount.value
  {
    if !Truthy(senderCoreId) || !Truthy(senderId) || !Truthy(senderName) || !Truthy(kind)
       || !TruthyNumber(totalAmount) || !TruthyNumber(totalCount)
    then Some(MissingParams)
    else if totalAmount.value < totalCount.value then Some(AmountBelowCount)
    else None
  }

  /** The corrected checks: as written, and the count must be positive. */
  function CreateRejection(
    senderCoreId: Option<string>, senderId: Option<string>, senderName: Option<string>,
    kind: Option<string>, totalAmount: Option<int>, totalCount: Option<int>): (r: Option<Failure>)
    ensures r == Some(MissingParams) <==>
              !(Truthy(senderCoreId) && Truthy(senderId) && Truthy(senderName) && Truthy(kind)
                && TruthyNumber(totalAmount) && TruthyNumber(totalCount))
    ensures r.None? <==>
              && Truthy(senderCoreId) && Truthy(senderId) && Truthy(senderName) && Truthy(kind)
              && totalCount.Some? && totalAmount.Some?
              && 1 <= totalCount.value <= totalAmount.value
  {
    var asWritten := CreateRejectionAsWritten(senderCoreId, senderId, senderName, kind, totalAmount, totalCount);
    if asWritten.None? && totalCount.value < 1 then Some(CountNotPositive) else asWritten
  }

  /** The correction changes nothing for a positive count. */
  lemma CreateRejectionAgreesOnPositiveCounts(
    senderCoreId: Option<string>, senderId: Option<string>, senderName: Option<string>,
    kind: Option<string>, totalAmount: Option<int>, totalCount: Option<int>)
    requires totalCount.Some? && totalCount.value >= 1
    ensures CreateRejection(senderCoreId, senderId, senderName, kind, totalAmount, totalCount)
         == CreateRejectionAsWritten(senderCoreId, senderId, senderName, kind, totalAmount, totalCount)
  {
  }

  /** As written, 10 points over -1 shares is accepted: an average packet
      would then hand out floor(10 / -1) = -10 points per claim, and a random
      one is split into the single share [10]. */
  lemma AsWrittenAcceptsNegativeCount()
    ensures CreateRejectionAsWritten(Some("c1"), Some("u1"), Some("alice"), Some(AVERAGE_KIND), Some(10), Some(-1)).None?
    ensures FloorDiv(10, -1) == -10
    ensures RedPacketAmounts.DoubleAverage(10, -1, []) == [10]
    ensures CreateRejection(Some("c1"), Some("u1"), Some("alice"), Some(AVERAGE_KIND), Some(10), Some(-1))
         == Some(CountNotPositive)
  {
  }

  /** The record `createRedPacket` stores. */
  function NewPacket(
    id: string, senderId: string, senderName: string, senderCoreId: string, kind: string,
    totalAmount: int, totalCount: int, greeting: Option<string>, now: int,
    amounts: Option<seq<int>>): (p: RedPacket)
    ensures p.id == id && p.kind == kind && p.senderCoreId == senderCoreId
    ensures p.remainingAmount == p.totalAmount == totalAmount
    ensures p.remainingCount == p.totalCount == totalCount
    ensures p.status == Active && p.receivers == []
    ensures p.createTime == now && p.expireTime == now + LIFETIME_MS
    ensures p.greeting == (if Truthy(greeting) then greeting.value else DEFAULT_GREETING)
    ensures p.amounts == amounts
  {
    RedPacket(id, senderId, senderName, senderCoreId, kind, totalAmount, totalCount,
              totalAmount, totalCount,
              if Truthy(greeting) then greeting.value else DEFAULT_GREETING,
              now, now + LIFETIME_MS, Active, [], amounts)
  }

  /** The shares a new packet carries: drawn and shuffled for a random
      packet, none for any other type. */
  function InitialAmounts(kind: string, totalAmount: int, totalCount: int, splitDraws: seq<int>, shuffleDraws: seq<int>)
    : Option<seq<int>>
    requires totalAmount >= totalCount
    requires RedPacketAmounts.AllDraws(splitDraws) && |splitDraws| >= totalCount - 1
    requires RedPacketAmounts.AllDraws(shuffleDraws) && |shuffleDraws| >= totalCount - 1
  {
    if kind == RANDOM_KIND then
      var shares := RedPacketAmounts.DoubleAverage(totalAmount, totalCount, splitDraws);
      Some(RedPacketAmounts.FisherYates(shares, shuffleDraws, |shares| - 1))
    else None
  }

  /** The summary `createRedPacket` returns. */
  datatype CreatedView = CreatedView(
    id: string, kind: string, totalAmount: int, totalCount: int, greeting: string, status: Status)

  function CreatedViewOf(p: RedPacket): CreatedView {
    CreatedView(p.id, p.kind, p.totalAmount, p.totalCount, p.greeting, p.status)
  }

  // ---------------------------------------------------------------------
  // Claims and the packet invariant

  /** The amounts of the claims, in order. */
  function AmountsOf(rs: seq<Receiver>): (r: seq<int>)
    ensures |r| == |rs| && forall i :: 0 <= i < |rs| ==> r[i] == rs[i].amount
  {
    seq(|rs|, i requires 0 <= i < |rs| => rs[i].amount)
  }

  /** The total handed out so far. */
  function Received(rs: seq<Receiver>): int {
    RedPacketAmounts.Sum(AmountsOf(rs))
  }

  lemma ReceivedAppend(rs: seq<Receiver>, r: Receiver)
    ensures Received(rs + [r]) == Received(rs) + r.amount
  {
    assert AmountsOf(rs + [r]) == AmountsOf(rs) + [r.amount];
    RedPacketAmounts.SumAppend(AmountsOf(rs), [r.amount]);
  }

  /** The first claim by `coreId`: `receivers.find(r => r.coreId === coreId)`. */
  function FindReceiver(rs: seq<Receiver>, coreId: string): (r: Option<Receiver>)
    ensures r.Some? ==> exists i :: 0 <= i < |rs| && rs[i] == r.value && r.value.coreId == coreId
                                    && forall j :: 0 <= j < i ==> rs[j].coreId != coreId
    ensures r.None? <==> forall i :: 0 <= i < |rs| ==> rs[i].coreId != coreId
  {
    if rs == [] then None
    else if rs[0].coreId == coreId then Some(rs[0])
    else
      var rest := FindReceiver(rs[1..], coreId);
      assert rest.Some? ==> exists i :: 1 <= i < |rs| && rs[i] == rest.value && rest.value.coreId == coreId
                                        && forall j :: 0 <= j < i ==> rs[j].coreId != coreId by {
        if rest.Some? {
          var i :| 0 <= i < |rs[1..]| && rs[1..][i] == rest.value && rest.value.coreId == coreId
                   && forall j :: 0 <= j < i ==> rs[1..][j].coreId != coreId;
          assert rs[i + 1] == rest.value;
          forall j | 0 <= j < i + 1 ensures rs[j].coreId != coreId {
            if j > 0 { assert rs[j] == rs[1..][j - 1]; }
          }
        }
      }
      assert rest.None? ==> forall i :: 0 <= i < |rs| ==> rs[i].coreId != coreId by {
        if rest.None? {
          forall i | 1 <= i < |rs| ensures rs[i].coreId != coreId { assert rs[i] == rs[1..][i - 1]; }
        }
      }
      rest
  }

  /** No coreId has claimed twice. */
  ghost predicate DistinctClaimers(rs: seq<Receiver>) {
    forall i, j :: 0 <= i < j < |rs| ==> rs[i].coreId != rs[j].coreId
  }

  /** What every stored packet satisfies. The count is positive and at most
      the amount; claims and remaining shares make up the count; what is left
      and what was handed out make up the amount; nobody claimed twice; an
      active packet has a share left and a completed one has none; every
      claim on an average packet is the floor of the average; a random packet
      carries its pre-drawn shares, each at least 1 and summing to the amount,
      and the claims took them in order; a packet of any other type has no
      shares to hand out and no claims. */
  ghost predicate PacketInv(p: RedPacket) {
    && 1 <= p.totalCount <= p.totalAmount
    && 0 <= p.remainingCount
    && p.remainingCount + |p.receivers| == p.totalCount
    && p.remainingAmount + Received(p.receivers) == p.totalAmount
    && DistinctClaimers(p.receivers)
    && (p.status == Active ==> p.remainingCount >= 1)
    && (p.status == Completed ==> p.remainingCount == 0)
    && (p.kind == AVERAGE_KIND ==>
          forall i :: 0 <= i < |p.receivers| ==> p.receivers[i].amount == p.totalAmount / p.totalCount)
    && (p.kind == RANDOM_KIND ==>
          && p.amounts.Some?
          && |p.amounts.value| == p.totalCount
          && RedPacketAmounts.Sum(p.amounts.value) == p.totalAmount
          && (forall i :: 0 <= i < |p.amounts.value| ==> p.amounts.value[i] >= 1)
          && AmountsOf(p.receivers) == p.amounts.value[..|p.receivers|])
    && (p.kind != RANDOM_KIND ==> p.amounts.None?)
    && (p.kind != RANDOM_KIND && p.kind != AVERAGE_KIND ==> p.receivers == [])
  }

  /** A freshly created packet satisfies the invariant. */
  lemma NewPacketInv(
    id: string, senderId: string, senderName: string, senderCoreId: string, kind: string,
    totalAmount: int, totalCount: int, greeting: Option<string>, now: int, amounts: Option<seq<int>>)
    requires 1 <= totalCount <= totalAmount
    requires kind == RANDOM_KIND ==>
               && amounts.Some? && |amounts.value| == totalCount
               && RedPacketAmounts.Sum(amounts.value) == totalAmount
               && forall i :: 0 <= i < |amounts.value| ==> amounts.value[i] >= 1
    requires kind != RANDOM_KIND ==> amounts.None?
    ensures PacketInv(NewPacket(id, senderId, senderName, senderCoreId, kind, totalAmount, totalCount, greeting, now, amounts))
  {
    assert AmountsOf([]) == [];
  }

  /** The status check keeps the invariant. */
  lemma CheckStatusKeepsInv(p: RedPacket, now: int)
    requires PacketInv(p)
    ensures PacketInv(CheckStatus(p, now))
  {
  }

  /** The share the next claim takes: the floor of the average for an
      average packet, the next pre-drawn share for a random one, and nothing
      (the service throws) for a packet of any other type. */
  function ShareFor(p: RedPacket): (r: Option<int>)
    requires PacketInv(p) && p.remainingCount >= 1
    ensures p.kind == AVERAGE_KIND ==> r == Some(FloorDiv(p.totalAmount, p.totalCount))
    ensures p.kind != AVERAGE_KIND && p.amounts.Some? ==>
              r == Some(p.amounts.value[p.totalCount - p.remainingCount])
    ensures p.kind != AVERAGE_KIND && p.amounts.None? ==> r.None?
    ensures r.Some? ==> r.value >= 1
  {
    if p.kind == AVERAGE_KIND then Some(p.totalAmount / p.totalCount)
    else if p.amounts.Some? then Some(p.amounts.value[p.totalCount - p.remainingCount])
    else None
  }

  /** The packet after `receiver` takes `receiver.amount`, re-checked. */
  function Claim(p: RedPacket, receiver: Receiver, now: int): (r: RedPacket)
    ensures r.remainingAmount == p.remainingAmount - receiver.amount
    ensures r.remainingCount == p.remainingCount - 1
    ensures r.receivers == p.receivers + [receiver]
    ensures r == CheckStatus(r, now)
  {
    CheckStatus(p.(remainingAmount := p.remainingAmount - receiver.amount,
                   remainingCount := p.remainingCount - 1,
                   receivers := p.receivers + [receiver]), now)
  }

  /** A claim by a new coreId of the share `ShareFor` names keeps the
      invariant; in particular what is left plus what was handed out is
      still the packet's total. */
  lemma ClaimKeepsInv(p: RedPacket, receiver: Receiver, now: int)
    requires PacketInv(p) && p.status == Active && now <= p.expireTime
    requires FindReceiver(p.receivers, receiver.coreId).None?
    requires ShareFor(p).Some? && receiver.amount == ShareFor(p).value
    ensures PacketInv(Claim(p, receiver, now))
  {
    var q := Claim(p, receiver, now);
    ReceivedAppend(p.receivers, receiver);
    if p.kind == RANDOM_KIND {
      var a := p.amounts.value;
      var k := |p.receivers|;
      assert a[..k + 1] == a[..k] + [a[k]];
      assert AmountsOf(q.receivers) == AmountsOf(p.receivers) + [receiver.amount];
    }
  }

  /** After a claim, the claimer is found among the receivers with the
      record just added. */
  lemma ClaimIsFound(p: RedPacket, receiver: Receiver, now: int)
    requires FindReceiver(p.receivers, receiver.coreId).None?
    ensures FindReceiver(Claim(p, receiver, now).receivers, receiver.coreId) == Some(receiver)
  {
    var rs := p.receivers + [receiver];
    assert rs[|rs| - 1] == receiver;
    forall j | 0 <= j < |p.receivers| ensures rs[j].coreId != receiver.coreId {
      assert rs[j] == p.receivers[j];
    }
  }

  lemma {:induction false} SumOfCopies(s: seq<int>, q: int)
    requires forall i :: 0 <= i < |s| ==> s[i] == q
    ensures RedPacketAmounts.Sum(s) == |s| * q
  {
    if s != [] {
      SumOfCopies(s[1..], q);
    }
  }

  lemma {:induction false} SumAtLeastLength(s: seq<int>)
    requires forall i :: 0 <= i < |s| ==> s[i] >= 1
    ensures RedPacketAmounts.Sum(s) >= |s|
  {
    if s != [] {
      SumAtLeastLength(s[1..]);
    }
  }

  /** On an average packet, what is left covers the floor of the average
      for every share left. */
  lemma AverageRemaining(p: RedPacket)
    requires PacketInv(p) && p.kind == AVERAGE_KIND
    ensures p.remainingAmount >= p.remainingCount * (p.totalAmount / p.totalCount)
  {
    var q := p.totalAmount / p.totalCount;
    var k := |p.receivers|;
    SumOfCopies(AmountsOf(p.receivers), q);
    assert p.remainingAmount == p.totalAmount - k * q;
    assert p.totalCount * q <= p.totalAmount;
    assert p.remainingCount * q == p.totalCount * q - k * q;
  }

  /** On a random packet, what is left is the sum of the shares not yet
      taken, each at least 1. */
  lemma RandomRemaining(p: RedPacket)
    requires PacketInv(p) && p.kind == RANDOM_KIND
    ensures p.remainingAmount >= p.remainingCount
  {
    var a := p.amounts.value;
    var k := |p.receivers|;
    assert a == a[..k] + a[k..];
    RedPacketAmounts.SumAppend(a[..k], a[k..]);
    SumAtLeastLength(a[k..]);
  }

  /** What is left never goes below the number of shares left, so in
      particular never below zero. */
  lemma RemainingCoversShares(p: RedPacket)
    requires PacketInv(p)
    ensures p.remainingAmount >= p.remainingCount >= 0
  {
    if p.kind == AVERAGE_KIND {
      AverageRemaining(p);
      RedPacketAmounts.MulAtMost(1, p.totalAmount / p.totalCount, p.remainingCount);
    } else if p.kind == RANDOM_KIND {
      RandomRemaining(p);
    }
  }

  /** A fully claimed random packet has handed out exactly its total. */
  lemma FullyClaimedRandomPaysTotal(p: RedPacket)
    requires PacketInv(p) && p.kind == RANDOM_KIND && p.remainingCount == 0
    ensures p.remainingAmount == 0 && Received(p.receivers) == p.totalAmount
  {
    assert p.amounts.value[..|p.receivers|] == p.amounts.value;
  }

  /** A fully claimed average packet keeps back `totalAmount % totalCount`:
      the remainder of the division is never handed out. */
  lemma FullyClaimedAverageKeepsRemainder(p: RedPacket)
    requires PacketInv(p) && p.kind == AVERAGE_KIND && p.remainingCount == 0
    ensures p.remainingAmount == p.totalAmount % p.totalCount
  {
    SumOfCopies(AmountsOf(p.receivers), p.totalAmount / p.totalCount);
  }

  /** Each packet is stored under its own id and satisfies `PacketInv`. */
  ghost predicate PacketsOk(table: map<string, RedPacket>) {
    forall k :: k in table ==> table[k].id == k && PacketInv(table[k])
  }

  /** Storing a packet that satisfies the invariant under its id keeps the
      table's invariant. */
  lemma PacketsOkSet(m: JsMap<string, RedPacket>, id: string, p: RedPacket)
    requires m.Valid() && PacketsOk(m.table) && p.id == id && PacketInv(p)
    ensures PacketsOk(m.Set(id, p).table)
  {
  }

  // ---------------------------------------------------------------------
  // Views: details and history

  /** The object `getRedPacketDetails` returns on success. */
  datatype DetailsView = DetailsView(
    id: string, senderName: string, kind: string, totalAmount: int, totalCount: int,
    remainingCount: int, greeting: string, status: Status, createTime: int, expireTime: int,
    isReceived: bool, receivedAmount: int, receivers: seq<Receiver>)

  /** One entry of the "sent" list of the history. */
  datatype SentItem = SentItem(
    id: string, kind: string, totalAmount: int, totalCount: int, remainingCount: int,
    greeting: string, status: Status, createTime: int)

  /** One entry of the "received" list of the history. */
  datatype ReceivedItem = ReceivedItem(
    id: string, senderName: string, kind: string, amount: int, greeting: string, receiveTime: int)

  datatype HistoryView = HistoryView(sent: seq<SentItem>, received: seq<ReceivedItem>)

  function SentItemOf(p: RedPacket): SentItem {
    SentItem(p.id, p.kind, p.totalAmount, p.totalCount, p.remainingCount, p.greeting, p.status, p.createTime)
  }

  function ReceivedItemOf(p: RedPacket, r: Receiver): ReceivedItem {
    ReceivedItem(p.id, p.senderName, p.kind, r.amount, p.greeting, r.receiveTime)
  }

  /** The packets sent by `coreId`, in key order, each after its status check. */
  function SentOf(keys: seq<string>, table: map<string, RedPacket>, coreId: string, now: int): (r: seq<SentItem>)
    requires forall i :: 0 <= i < |keys| ==> keys[i] in table
    ensures |r| <= |keys|
  {
    if keys == [] then []
    else
      var n := |keys| - 1;
      var init := SentOf(keys[..n], table, coreId, now);
      if table[keys[n]].senderCoreId == coreId then init + [SentItemOf(CheckStatus(table[keys[n]], now))] else init
  }

  /** `x` is the sent-list entry for `p` when `coreId` sent it. */
  predicate SentFrom(p: RedPacket, coreId: string, now: int, x: SentItem) {
    p.senderCoreId == coreId && x == SentItemOf(CheckStatus(p, now))
  }

  /** The sent list holds an entry for each packet `coreId` sent, with its
      status checked, and nothing else. */
  lemma {:induction false} SentOfMembers(keys: seq<string>, table: map<string, RedPacket>, coreId: string, now: int)
    requires forall i :: 0 <= i < |keys| ==> keys[i] in table
    ensures forall x :: x in SentOf(keys, table, coreId, now) ==>
              exists i :: 0 <= i < |keys| && SentFrom(table[keys[i]], coreId, now, x)
    ensures forall i :: 0 <= i < |keys| && table[keys[i]].senderCoreId == coreId ==>
              SentItemOf(CheckStatus(table[keys[i]], now)) in SentOf(keys, table, coreId, now)
  {
    if keys != [] {
      var n := |keys| - 1;
      var init := SentOf(keys[..n], table, coreId, now);
      SentOfMembers(keys[..n], table, coreId, now);
      var all := SentOf(keys, table, coreId, now);
      forall x | x in all ensures exists i :: 0 <= i < |keys| && SentFrom(table[keys[i]], coreId, now, x) {
        if x in init {
          var i :| 0 <= i < n && SentFrom(table[keys[..n][i]], coreId, now, x);
          assert keys[..n][i] == keys[i];
        } else {
          assert SentFrom(table[keys[n]], coreId, now, x);
        }
      }
      forall i | 0 <= i < |keys| && table[keys[i]].senderCoreId == coreId
        ensures SentItemOf(CheckStatus(table[keys[i]], now)) in all
      {
        if i < n {
          assert keys[..n][i] == keys[i];
        }
      }
    }
  }

  /** The packets `coreId` claimed from, in key order, with its first claim. */
  function ReceivedOf(keys: seq<string>, table: map<string, RedPacket>, coreId: string): (r: seq<ReceivedItem>)
    requires forall i :: 0 <= i < |keys| ==> keys[i] in table
    ensures |r| <= |keys|
  {
    if keys == [] then []
    else
      var n := |keys| - 1;
      var init := ReceivedOf(keys[..n], table, coreId);
      var found := FindReceiver(table[keys[n]].receivers, coreId);
      if found.Some? then init + [ReceivedItemOf(table[keys[n]], found.value)] else init
  }

  /** `x` is the received-list entry for `coreId`'s claim on `p`. */
  predicate ReceivedFrom(p: RedPacket, coreId: string, x: ReceivedItem) {
    var found := FindReceiver(p.receivers, coreId);
    found.Some? && x == ReceivedItemOf(p, found.value)
  }

  /** The received list holds an entry for each packet `coreId` claimed
      from, showing its first claim, and nothing else. */
  lemma {:induction false} ReceivedOfMembers(keys: seq<string>, table: map<string, RedPacket>, coreId: string)
    requires forall i :: 0 <= i < |keys| ==> keys[i] in table
    ensures forall x :: x in ReceivedOf(keys, table, coreId) ==>
              exists i :: 0 <= i < |keys| && ReceivedFrom(table[keys[i]], coreId, x)
    ensures forall i :: 0 <= i < |keys| && FindReceiver(table[keys[i]].receivers, coreId).Some? ==>
              ReceivedItemOf(table[keys[i]], FindReceiver(table[keys[i]].receivers, coreId).value)
                in ReceivedOf(keys, table, coreId)
  {
    if keys != [] {
      var n := |keys| - 1;
      var init := ReceivedOf(keys[..n], table, coreId);
      ReceivedOfMembers(keys[..n], table, coreId);
      var found := FindReceiver(table[keys[n]].receivers, coreId);
      var all := ReceivedOf(keys, table, coreId);
      assert all == if found.Some? then init + [ReceivedItemOf(table[keys[n]], found.value)] else init;
      forall x | x in all ensures exists i :: 0 <= i < |keys| && ReceivedFrom(table[keys[i]], coreId, x) {
        if x in init {
          var i :| 0 <= i < n && ReceivedFrom(table[keys[..n][i]], coreId, x);
          assert keys[..n][i] == keys[i];
        } else {
          assert ReceivedFrom(table[keys[n]], coreId, x);
        }
      }
      forall i | 0 <= i < |keys| && FindReceiver(table[keys[i]].receivers, coreId).Some?
        ensures ReceivedItemOf(table[keys[i]], FindReceiver(table[keys[i]].receivers, coreId).value) in all
      {
        if i < n {
          assert keys[..n][i] == keys[i];
        }
      }
    }
  }

  /** Every key is at least every later one. */
  predicate SortedDesc<T>(s: seq<T>, key: T -> int) {
    forall i, j :: 0 <= i < j < |s| ==> key(s[i]) >= key(s[j])
  }

  /** Inserts `x` after every element whose key is at least `x`'s. */
  function InsertDesc<T>(s: seq<T>, x: T, key: T -> int): (r: seq<T>)
    requires SortedDesc(s, key)
    ensures |r| == |s| + 1
    ensures multiset(r) == multiset(s) + multiset{x}
    ensures SortedDesc(r, key)
  {
    if s == [] then [x]
    else if key(s[0]) >= key(x) then
      var rest := InsertDesc(s[1..], x, key);
      assert s == [s[0]] + s[1..];
      InsertDescSorted(s[0], rest, s[1..], x, key);
      [s[0]] + rest
    else
      [x] + s
  }

  lemma InsertDescSorted<T>(head: T, rest: seq<T>, tail: seq<T>, x: T, key: T -> int)
    requires SortedDesc(rest, key) && SortedDesc([head] + tail, key) && key(head) >= key(x)
    requires multiset(rest) == multiset(tail) + multiset{x}
    ensures SortedDesc([head] + rest, key)
  {
    var r := [head] + rest;
    forall i, j | 0 <= i < j < |r| ensures key(r[i]) >= key(r[j]) {
      if i == 0 {
        assert r[j] == rest[j - 1] && rest[j - 1] in multiset(rest);
        if rest[j - 1] != x {
          assert rest[j - 1] in multiset(tail);
          var k :| 0 <= k < |tail| && tail[k] == rest[j - 1];
          assert ([head] + tail)[0] == head && ([head] + tail)[k + 1] == tail[k];
        }
      } else {
        assert r[i] == rest[i - 1] && r[j] == rest[j - 1];
      }
    }
  }

  /** `array.sort((a, b) => key(b) - key(a))`: sorted by descending key, a
      permutation of the input. */
  function SortDesc<T>(s: seq<T>, key: T -> int): (r: seq<T>)
    ensures multiset(r) == multiset(s)
    ensures |r| == |s|
    ensures SortedDesc(r, key)
  {
    if s == [] then []
    else
      assert s == s[..|s| - 1] + [s[|s| - 1]];
      InsertDesc(SortDesc(s[..|s| - 1], key), s[|s| - 1], key)
  }

  /** `array.slice(0, limit)`: a negative limit counts back from the end. */
  function SliceTo<T>(s: seq<T>, limit: int): (r: seq<T>)
    ensures r <= s
    ensures limit >= 0 ==> |r| == if limit < |s| then limit else |s|
    ensures limit < 0 ==> |r| == if |s| + limit > 0 then |s| + limit else 0
  {
    if limit >= 0 then (if limit < |s| then s[..limit] else s)
    else if |s| + limit > 0 then s[..|s| + limit]
    else []
  }

  // ---------------------------------------------------------------------
  // Cleanup

  /** The keys the cleanup keeps, in their order. */
  function SweptKeys(keys: seq<string>, table: map<string, RedPacket>, now: int): (r: seq<string>)
    requires forall i :: 0 <= i < |keys| ==> keys[i] in table
    ensures forall k :: k in r <==> k in keys && !Stale(CheckStatus(table[k], now), now)
    ensures Distinct(keys) ==> Distinct(r)
  {
    if keys == [] then []
    else
      var last := keys[|keys| - 1];
      var init := SweptKeys(keys[..|keys| - 1], table, now);
      assert forall k :: k in keys <==> k in keys[..|keys| - 1] || k == last by {
        assert keys == keys[..|keys| - 1] + [last];
      }
      assert Distinct(keys) ==> last !in keys[..|keys| - 1] && Distinct(keys[..|keys| - 1]);
      if Stale(CheckStatus(table[last], now), now) then init else init + [last]
  }

  /** How many packets the cleanup removes. */
  function StaleCount(keys: seq<string>, table: map<string, RedPacket>, now: int): (n: nat)
    requires forall i :: 0 <= i < |keys| ==> keys[i] in table
    ensures n == 0 <==> forall i :: 0 <= i < |keys| ==> !Stale(CheckStatus(table[keys[i]], now), now)
    ensures n <= |keys|
  {
    if keys == [] then 0
    else
      var last := keys[|keys| - 1];
      var init := StaleCount(keys[..|keys| - 1], table, now);
      if Stale(CheckStatus(table[last], now), now) then init + 1 else init
  }

  /** The packets the cleanup keeps, each with its status brought up to date. */
  function SweptTable(keys: seq<string>, table: map<string, RedPacket>, now: int): (r: map<string, RedPacket>)
    requires forall i :: 0 <= i < |keys| ==> keys[i] in table
    ensures forall k :: k in r <==> k in keys && !Stale(CheckStatus(table[k], now), now)
    ensures forall k :: k in r ==> r[k] == CheckStatus(table[k], now)
  {
    if keys == [] then map[]
    else
      var last := keys[|keys| - 1];
      var init := SweptTable(keys[..|keys| - 1], table, now);
      assert forall k :: k in keys <==> k in keys[..|keys| - 1] || k == last by {
        assert keys == keys[..|keys| - 1] + [last];
      }
      if Stale(CheckStatus(table[last], now), now) then init else init[last := CheckStatus(table[last], now)]
  }

  /** The store after the cleanup: stale packets gone, the others with their
      status brought up to date, in their old order. */
  function Swept(m: JsMap<string, RedPacket>, now: int): (r: JsMap<string, RedPacket>)
    requires m.Valid()
    ensures r.Valid()
    ensures forall k :: k in r.table <==> k in m.table && !Stale(CheckStatus(m.table[k], now), now)
    ensures forall k :: k in r.table ==> r.table[k] == CheckStatus(m.table[k], now)
  {
    JsMap(SweptKeys(m.keys, m.table, now), SweptTable(m.keys, m.table, now))
  }

  /** The `for..in` loop of `cleanupExpiredRedPackets`: each packet in key
      order is status-checked and either dropped and counted, or kept. */
  method SweepPass(keys: seq<string>, table: map<string, RedPacket>, now: int)
    returns (kept: seq<string>, keptTable: map<string, RedPacket>, cleaned: nat)
    requires forall i :: 0 <= i < |keys| ==> keys[i] in table
    ensures kept == SweptKeys(keys, table, now)
    ensures keptTable == SweptTable(keys, table, now)
    ensures cleaned == StaleCount(keys, table, now)
  {
    kept, keptTable, cleaned := [], map[], 0;
    for i := 0 to |keys|
      invariant kept == SweptKeys(keys[..i], table, now)
      invariant keptTable == SweptTable(keys[..i], table, now)
      invariant cleaned == StaleCount(keys[..i], table, now)
    {
      assert keys[..i + 1][..i] == keys[..i];
      var id := keys[i];
      var p := CheckStatus(table[id], now);
      if p.status == Expired && now - p.expireTime > RETENTION_MS {
        cleaned := cleaned + 1;
      } else {
        kept := kept + [id];
        keptTable := keptTable[id := p];
      }
    }
    assert keys[..|keys|] == keys;
  }

  /** The `for..in` loop of `getUserRedPacketHistory`: each packet in key
      order is status-checked, then listed as sent and/or as received. */
  method CollectHistory(keys: seq<string>, table: map<string, RedPacket>, coreId: string, now: int)
    returns (sent: seq<SentItem>, received: seq<ReceivedItem>)
    requires forall i :: 0 <= i < |keys| ==> keys[i] in table
    ensures sent == SentOf(keys, table, coreId, now)
    ensures received == ReceivedOf(keys, table, coreId)
  {
    sent, received := [], [];
    for i := 0 to |keys|
      invariant sent == SentOf(keys[..i], table, coreId, now)
      invariant received == ReceivedOf(keys[..i], table, coreId)
    {
      assert keys[..i + 1][..i] == keys[..i];
      var p := CheckStatus(table[keys[i]], now);
      if p.senderCoreId == coreId {
        sent := sent + [SentItemOf(p)];
      }
      var found := FindReceiver(p.receivers, coreId);
      if found.Some? {
        received := received + [ReceivedItemOf(p, found.value)];
      }
    }
    assert keys[..|keys|] == keys;
  }

  // ---------------------------------------------------------------------
  // The store

  class RedPacketStore {
    var data: JsMap<string, RedPacket>

    /** The table is a well-formed ordered dictionary, each packet is stored
        under its own id, and each satisfies `PacketInv`. */
    ghost predicate Valid()
      reads this
    {
      data.Valid() && PacketsOk(data.table)
    }

    constructor ()
      ensures data == Empty() && Valid()
    {
      data := Empty();
    }

    /** `createRedPacket`: `uuid` stands for `uuidv4()`, `splitDraws` and
        `shuffleDraws` for the `Math.random()` values of a random packet. */
    method Create(
      senderCoreId: Option<string>, senderId: Option<string>, senderName: Option<string>,
      kind: Option<string>, totalAmount: Option<int>, totalCount: Option<int>, greeting: Option<string>,
      uuid: string, now: int, splitDraws: seq<int>, shuffleDraws: seq<int>, writeOk: bool)
      returns (r: Result<CreatedView, Failure>)
      requires Valid()
      requires RedPacketAmounts.AllDraws(splitDraws) && RedPacketAmounts.AllDraws(shuffleDraws)
      requires totalCount.Some? ==> |splitDraws| >= totalCount.value - 1 && |shuffleDraws| >= totalCount.value - 1
      modifies this
      ensures Valid()
      ensures r.Err? ==> data == old(data)
      ensures CreateRejection(senderCoreId, senderId, senderName, kind, totalAmount, totalCount).Some? ==>
                r == Err(CreateRejection(senderCoreId, senderId, senderName, kind, totalAmount, totalCount).value)
      ensures CreateRejection(senderCoreId, senderId, senderName, kind, totalAmount, totalCount).None? ==>
                if writeOk then r.Ok? else r == Err(SaveFailed)
      ensures r.Ok? ==>
                var p := NewPacket(ID_PREFIX + uuid, senderId.value, senderName.value, senderCoreId.value, kind.value,
                                   totalAmount.value, totalCount.value, greeting, now,
                                   InitialAmounts(kind.value, totalAmount.value, totalCount.value, splitDraws, shuffleDraws));
                data == old(data).Set(ID_PREFIX + uuid, p) && r.value == CreatedViewOf(p)
    {
      var rejection := CreateRejection(senderCoreId, senderId, senderName, kind, totalAmount, totalCount);
      if rejection.Some? {
        r := Err(rejection.value);
      } else {
        var id := ID_PREFIX + uuid;
        var amounts: Option<seq<int>> := None;
        if kind.value == RANDOM_KIND {
          var drawn := RedPacketAmounts.GenerateRandomAmounts(totalAmount.value, totalCount.value, splitDraws, shuffleDraws);
          amounts := Some(drawn);
        }
        assert amounts == InitialAmounts(kind.value, totalAmount.value, totalCount.value, splitDraws, shuffleDraws);
        var p := NewPacket(id, senderId.value, senderName.value, senderCoreId.value, kind.value,
                           totalAmount.value, totalCount.value, greeting, now, amounts);
        NewPacketInv(id, senderId.value, senderName.value, senderCoreId.value, kind.value,
                     totalAmount.value, totalCount.value, greeting, now, amounts);
        if writeOk {
          PacketsOkSet(data, id, p);
          data := data.Set(id, p);
          r := Ok(CreatedViewOf(p));
        } else {
          r := Err(SaveFailed);
        }
      }
    }

    /** `receiveRedPacket`. The status check runs first, on the stored packet;
        only a successful claim is written back. */
    method Receive(packetId: Option<string>, coreId: Option<string>, userId: Option<string>,
                   username: Option<string>, now: int, writeOk: bool)
      returns (r: Result<Receiver, Failure>)
      requires Valid()
      modifies this
      ensures Valid()
      ensures r.Err? ==> data == old(data)
      ensures !(Truthy(packetId) && Truthy(coreId) && Truthy(userId) && Truthy(username)) ==> r == Err(MissingParams)
      ensures Truthy(packetId) && Truthy(coreId) && Truthy(userId) && Truthy(username) ==>
                if packetId.value !in old(data.table) then r == Err(NotFound)
                else
                  var p := CheckStatus(old(data.table)[packetId.value], now);
                  if p.status == Expired then r == Err(PacketExpired)
                  else if p.status == Completed then r == Err(PacketCompleted)
                  else if FindReceiver(p.receivers, coreId.value).Some? then r == Err(AlreadyReceived)
                  else if ShareFor(p).None? then r == Err(ReceiveException)
                  else if !writeOk then r == Err(SaveFailed)
                  else
                    && r == Ok(Receiver(userId.value, username.value, coreId.value, ShareFor(p).value, now))
                    && data == old(data).Set(packetId.value, Claim(p, r.value, now))
    {
      if !(Truthy(packetId) && Truthy(coreId) && Truthy(userId) && Truthy(username)) {
        return Err(MissingParams);
      }
      var id := packetId.value;
      if id !in data.table {
        return Err(NotFound);
      }
      var p := CheckStatus(data.table[id], now);
      CheckStatusKeepsInv(data.table[id], now);
      if p.status == Expired {
        return Err(PacketExpired);
      }
      if p.status == Completed {
        return Err(PacketCompleted);
      }
      if FindReceiver(p.receivers, coreId.value).Some? {
        return Err(AlreadyReceived);
      }
      var share := ShareFor(p);
      if share.None? {
        return Err(ReceiveException);
      }
      var receiver := Receiver(userId.value, username.value, coreId.value, share.value, now);
      var claimed := Claim(p, receiver, now);
      ClaimKeepsInv(p, receiver, now);
      if !writeOk {
        return Err(SaveFailed);
      }
      data := data.Set(id, claimed);
      r := Ok(receiver);
    }

    /** `getRedPacketDetails`: the packet with its status checked (the check
        is not written back), and whether `coreId` has claimed from it. */
    function Details(packetId: Option<string>, coreId: Option<string>, now: int): (r: Result<DetailsView, Failure>)
      reads this
      ensures !Truthy(packetId) ==> r == Err(MissingPacketId)
      ensures Truthy(packetId) && packetId.value !in data.table ==> r == Err(NotFound)
      ensures Truthy(packetId) && packetId.value in data.table ==>
                var p := data.table[packetId.value];
                var found := if coreId.Some? then FindReceiver(p.receivers, coreId.value) else None;
                && r.Ok?
                && r.value.status == CheckStatus(p, now).status
                && r.value.remainingCount == p.remainingCount
                && r.value.receivers == p.receivers
                && (r.value.isReceived <==> coreId.Some? && exists i :: 0 <= i < |p.receivers| && p.receivers[i].coreId == coreId.value)
                && r.value.receivedAmount == (if found.Some? then found.value.amount else 0)
    {
      if !Truthy(packetId) then Err(MissingPacketId)
      else if packetId.value !in data.table then Err(NotFound)
      else
        var p := CheckStatus(data.table[packetId.value], now);
        var found := if coreId.Some? then FindReceiver(p.receivers, coreId.value) else None;
        Ok(DetailsView(p.id, p.senderName, p.kind, p.totalAmount, p.totalCount, p.remainingCount,
                       p.greeting, p.status, p.createTime, p.expireTime, found.Some?,
                       if found.Some? then found.value.amount else 0, p.receivers))
    }

    /** `getUserRedPacketHistory(coreId, userId, limit = 20)`: the packets
        `coreId` sent and the ones it claimed from, each list newest first and
        cut to `limit`. The `userId` argument is not used by the service. */
    method History(coreId: Option<string>, limit: Option<int>, now: int) returns (r: Result<HistoryView, Failure>)
      requires Valid()
      ensures !Truthy(coreId) ==> r == Err(MissingCoreId)
      ensures Truthy(coreId) ==>
                var n := if limit.Some? then limit.value else DEFAULT_HISTORY_LIMIT;
                r == Ok(HistoryView(
                  SliceTo(SortDesc(SentOf(data.keys, data.table, coreId.value, now), (x: SentItem) => x.createTime), n),
                  SliceTo(SortDesc(ReceivedOf(data.keys, data.table, coreId.value), (x: ReceivedItem) => x.receiveTime), n)))
    {
      if !Truthy(coreId) {
        return Err(MissingCoreId);
      }
      var sent, received := CollectHistory(data.keys, data.table, coreId.value, now);
      var n := if limit.Some? then limit.value else DEFAULT_HISTORY_LIMIT;
      r := Ok(HistoryView(SliceTo(SortDesc(sent, (x: SentItem) => x.createTime), n),
                          SliceTo(SortDesc(received, (x: ReceivedItem) => x.receiveTime), n)));
    }

    /** `cleanupExpiredRedPackets`: removes the packets that are expired and
        more than seven days past their expiry time, brings the others'
        status up to date, and writes only when it removed something. */
    method Cleanup(now: int, writeOk: bool) returns (cleaned: nat)
      requires Valid()
      modifies this
      ensures Valid()
      ensures cleaned == StaleCount(old(data.keys), old(data.table), now)
      ensures cleaned > 0 && writeOk ==> data == Swept(old(data), now)
      ensures cleaned == 0 || !writeOk ==> data == old(data)
    {
      var kept, keptTable;
      kept, keptTable, cleaned := SweepPass(data.keys, data.table, now);
      if cleaned > 0 && writeOk {
        ghost var table := data.table;
        forall k | k in table ensures CheckStatus(table[k], now).id == k && PacketInv(CheckStatus(table[k], now)) {
          CheckStatusKeepsInv(table[k], now);
        }
        data := JsMap(kept, keptTable);
      }
    }
  }
}
