/** The points ledger of src/services/pointsService.js: coreId -> account,
    with credit, debit, the once-per-calendar-day claim, the online-minute
    counter and the 50-day inactivity sweep. The JSON file behind it is the
    field `data`; every write is given as `writeOk`, and a failed write
    leaves `data` as it was. */
module PointsService {
  import opened Common

  const DEFAULT_DAILY_POINTS: int := 100
  const DAY_MS: int := 24 * 60 * 60 * 1000
  const INACTIVITY_MS: int := 50 * DAY_MS

  /** A local calendar date: what `getFullYear`, `getMonth` and `getDate` give. */
  datatype CalendarDate = CalendarDate(year: int, month: int, day: int)

  /** One stored account. Times are milliseconds since the epoch. */
  datatype Account = Account(
    coreId: string,
    points: int,
    createdAt: int,
    lastDailyClaim: Option<int>,
    onlineMinutes: Option<int>,
    updatedAt: Option<int>)

  /** The record created on first use of a coreId. */
  function NewAccount(coreId: string, now: int): (a: Account)
    ensures a.coreId == coreId && a.points == 0 && a.createdAt == now
    ensures a.lastDailyClaim.None? && a.onlineMinutes == Some(0) && a.updatedAt.None?
  {
    Account(coreId, 0, now, None, Some(0), None)
  }

  /** The account of `coreId`, created if missing. */
  function AccountOrNew(data: map<string, Account>, coreId: string, now: int): (a: Account)
    ensures coreId in data ==> a == data[coreId]
    ensures coreId !in data ==> a == NewAccount(coreId, now)
  {
    if coreId in data then data[coreId] else NewAccount(coreId, now)
  }

  /** When the account was last active: `updatedAt || createdAt`. */
  function LastActive(a: Account): int {
    if a.updatedAt.Some? then a.updatedAt.value else a.createdAt
  }

  predicate IsActive(a: Account, now: int) {
    LastActive(a) > now - INACTIVITY_MS
  }

  /** The accounts the sweep keeps. */
  function ActiveAccounts(data: map<string, Account>, now: int): (r: map<string, Account>)
    ensures forall k :: k in r <==> k in data && IsActive(data[k], now)
    ensures forall k :: k in r ==> r[k] == data[k]
  {
    map k | k in data && IsActive(data[k], now) :: data[k]
  }

  /** The coreIds the sweep removes. */
  function InactiveIds(data: map<string, Account>, now: int): set<string> {
    set k | k in data && !IsActive(data[k], now)
  }

  /** The sweep removes exactly the accounts it does not keep. */
  lemma {:induction false} SweepPartitions(data: map<string, Account>, now: int)
    ensures |ActiveAccounts(data, now)| + |InactiveIds(data, now)| == |data|
  {
    var kept := ActiveAccounts(data, now).Keys;
    var gone := InactiveIds(data, now);
    assert kept + gone == data.Keys;
    assert kept * gone == {};
    assert |kept + gone| == |kept| + |gone| - |kept * gone|;
  }

  class PointsLedger {
    var data: map<string, Account>

    /** Every balance is non-negative. */
    ghost predicate NonNegative()
      reads this
    {
      forall k :: k in data ==> data[k].points >= 0
    }

    constructor (initial: map<string, Account>)
      ensures data == initial
    {
      data := initial;
    }

    /** `getUserPoints` */
    function PointsOf(coreId: string): (p: int)
      reads this
      ensures coreId == "" || coreId !in data ==> p == 0
      ensures coreId != "" && coreId in data ==> p == data[coreId].points
    {
      if coreId == "" || coreId !in data then 0 else data[coreId].points
    }

    /** `getUserInfo` */
    function InfoOf(coreId: string): (r: Option<Account>)
      reads this
      ensures r.Some? <==> coreId != "" && coreId in data
      ensures r.Some? ==> r.value == data[coreId]
    {
      if coreId != "" && coreId in data then Some(data[coreId]) else None
    }

    /** `canClaimDailyPoints`: true unless the last claim fell on today's
        local calendar date. */
    function CanClaim(coreId: string, now: int, dateOf: int -> CalendarDate): (r: bool)
      reads this
      ensures coreId == "" ==> !r
      ensures coreId != "" && (coreId !in data || data[coreId].lastDailyClaim.None?) ==> r
      ensures coreId != "" && coreId in data && data[coreId].lastDailyClaim.Some? ==>
                (r <==> dateOf(data[coreId].lastDailyClaim.value) != dateOf(now))
    {
      if coreId == "" then false
      else if coreId !in data || data[coreId].lastDailyClaim.None? then true
      else dateOf(data[coreId].lastDailyClaim.value) != dateOf(now)
    }

    /** `addUserPoints` */
    method AddPoints(coreId: string, points: int, now: int, writeOk: bool) returns (ok: bool)
      modifies this
      ensures ok <==> coreId != "" && points > 0 && writeOk
      ensures !ok ==> data == old(data)
      ensures ok ==> data == old(data)[coreId := AccountOrNew(old(data), coreId, now).(
                                points := AccountOrNew(old(data), coreId, now).points + points,
                                updatedAt := Some(now))]
      ensures ok ==> PointsOf(coreId) == old(PointsOf(coreId)) + points
      ensures old(NonNegative()) ==> NonNegative()
    {
      if coreId == "" || points <= 0 {
        return false;
      }
      var account := AccountOrNew(data, coreId, now);
      account := account.(points := account.points + points, updatedAt := Some(now));
      if writeOk {
        data := data[coreId := account];
      }
      ok := writeOk;
    }

    /** `reduceUserPoints` */
    method ReducePoints(coreId: string, points: int, now: int, writeOk: bool) returns (ok: bool)
      modifies this
      ensures ok <==> coreId != "" && points > 0 && coreId in old(data) && old(data)[coreId].points >= points && writeOk
      ensures !ok ==> data == old(data)
      ensures ok ==> data == old(data)[coreId := old(data)[coreId].(points := old(data)[coreId].points - points,
                                                                    updatedAt := Some(now))]
      ensures ok ==> PointsOf(coreId) == old(PointsOf(coreId)) - points >= 0
      ensures old(NonNegative()) ==> NonNegative()
    {
      if coreId == "" || points <= 0 {
        return false;
      }
      if coreId !in data || data[coreId].points < points {
        return false;
      }
      var account := data[coreId].(points := data[coreId].points - points, updatedAt := Some(now));
      if writeOk {
        data := data[coreId := account];
      }
      ok := writeOk;
    }

    /** `claimDailyPoints(coreId, dailyPoints = 100)` */
    method ClaimDaily(coreId: string, dailyPoints: int := DEFAULT_DAILY_POINTS, now: int, dateOf: int -> CalendarDate, writeOk: bool)
      returns (ok: bool)
      modifies this
      ensures ok <==> old(CanClaim(coreId, now, dateOf)) && writeOk
      ensures !ok ==> data == old(data)
      ensures ok ==> data == old(data)[coreId := AccountOrNew(old(data), coreId, now).(
                                points := AccountOrNew(old(data), coreId, now).points + dailyPoints,
                                lastDailyClaim := Some(now),
                                updatedAt := Some(now))]
      ensures ok ==> PointsOf(coreId) == old(PointsOf(coreId)) + dailyPoints
      ensures ok ==> forall t :: dateOf(t) == dateOf(now) ==> !CanClaim(coreId, t, dateOf)
      ensures old(NonNegative()) && dailyPoints >= 0 ==> NonNegative()
    {
      if !CanClaim(coreId, now, dateOf) {
        return false;
      }
      var account := AccountOrNew(data, coreId, now);
      account := account.(points := account.points + dailyPoints, lastDailyClaim := Some(now), updatedAt := Some(now));
      if writeOk {
        data := data[coreId := account];
      }
      ok := writeOk;
    }

    /** `addUserOnlineMinutes`: a missing counter counts as 0; the balance
        is not touched. */
    method AddOnlineMinutes(coreId: string, minutes: int, now: int, writeOk: bool) returns (ok: bool)
      modifies this
      ensures ok <==> coreId != "" && minutes > 0 && writeOk
      ensures !ok ==> data == old(data)
      ensures ok ==> var a := AccountOrNew(old(data), coreId, now);
                     data == old(data)[coreId := a.(onlineMinutes := Some(MinutesOf(a) + minutes), updatedAt := Some(now))]
      ensures ok ==> PointsOf(coreId) == old(PointsOf(coreId)) && MinutesOf(data[coreId]) == MinutesOf(AccountOrNew(old(data), coreId, now)) + minutes
      ensures old(NonNegative()) ==> NonNegative()
    {
      if coreId == "" || minutes <= 0 {
        return false;
      }
      var account := AccountOrNew(data, coreId, now);
      account := account.(onlineMinutes := Some(MinutesOf(account) + minutes), updatedAt := Some(now));
      if writeOk {
        data := data[coreId := account];
      }
      ok := writeOk;
    }

    /** `resetUserOnlineMinutes`: the counter becomes 0, creating the
        account if it is missing. */
    method ResetOnlineMinutes(coreId: string, now: int, writeOk: bool) returns (ok: bool)
      modifies this
      ensures ok <==> coreId != "" && writeOk
      ensures !ok ==> data == old(data)
      ensures ok ==> data == old(data)[coreId := AccountOrNew(old(data), coreId, now).(onlineMinutes := Some(0), updatedAt := Some(now))]
      ensures ok ==> PointsOf(coreId) == old(PointsOf(coreId)) && MinutesOf(data[coreId]) == 0
      ensures old(NonNegative()) ==> NonNegative()
    {
      if coreId == "" {
        return false;
      }
      var account := AccountOrNew(data, coreId, now).(onlineMinutes := Some(0), updatedAt := Some(now));
      if writeOk {
        data := data[coreId := account];
      }
      ok := writeOk;
    }

    /** `cleanupInactiveUsers`: keeps the accounts active within the last
        50 days, counts the others, and writes only when it removed some. */
    method CleanupInactive(now: int, writeOk: bool) returns (removed: nat)
      modifies this
      ensures removed == |InactiveIds(old(data), now)|
      ensures removed > 0 && writeOk ==> data == ActiveAccounts(old(data), now)
      ensures removed == 0 || !writeOk ==> data == old(data)
      ensures removed == 0 ==> ActiveAccounts(old(data), now) == old(data)
      ensures old(NonNegative()) ==> NonNegative()
    {
      var d := data;
      var kept: map<string, Account> := map[];
      var todo := d.Keys;
      ghost var done: set<string> := {};
      ghost var gone: set<string> := {};
      removed := 0;
      while todo != {}
        invariant todo !! done && todo + done == d.Keys
        invariant kept == map k | k in done && IsActive(d[k], now) :: d[k]
        invariant gone == set k | k in done && !IsActive(d[k], now)
        invariant removed == |gone|
        decreases |todo|
      {
        var k :| k in todo;
        todo, done := todo - {k}, done + {k};
        if IsActive(d[k], now) {
          kept := kept[k := d[k]];
        } else {
          gone := gone + {k};
          removed := removed + 1;
        }
      }
      AllActiveKeepsAll(d, now);
      if removed > 0 && writeOk {
        data := kept;
      }
    }
  }

  /** A sweep that finds nothing inactive keeps every account. */
  lemma AllActiveKeepsAll(data: map<string, Account>, now: int)
    ensures |InactiveIds(data, now)| == 0 ==> ActiveAccounts(data, now) == data
  {
    if |InactiveIds(data, now)| == 0 {
      assert InactiveIds(data, now) == {};
      forall k | k in data ensures IsActive(data[k], now) {
        assert k !in InactiveIds(data, now);
      }
    }
  }

  /** `onlineMinutes || 0` */
  function MinutesOf(a: Account): int {
    if a.onlineMinutes.Some? then a.onlineMinutes.value else 0
  }
}
