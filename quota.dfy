/** The serverless API's daily quota: per-key usage counters, the free and
    pro limits, a retry gate per request id, and transactions that reserve
    one use up front and give it back if the generation fails. Dates and
    reset times come from the clock and the user's time zone; here the
    date string is a parameter. */
module Quota {
  import opened Wrappers
  import Text

  const FreeQuota: nat := 10
  const ProQuota: nat := 100
  /** Calls allowed per request id. */
  const MaxRetries: nat := 1

  /** `f"{user_id}:{date}"`. */
  function QuotaKey(userId: string, date: string): string
  {
    userId + ":" + date
  }

  /** `f"retry:{user_id}:{request_id}"`. */
  function RetryKey(userId: string, requestId: string): string
  {
    "retry:" + userId + ":" + requestId
  }

  /** A day's counter key holds that day's date, so the daily reset run
      with that date as "yesterday" drops it. */
  lemma KeyHoldsDate(userId: string, date: string)
    ensures Text.Contains(QuotaKey(userId, date), date)
  {
    var k := QuotaKey(userId, date);
    var i := |userId| + 1;
    assert k[i..i + |date|] == date;
    assert Text.OccursAt(k, date, i);
  }

  /** The daily limit: a hundred for "pro", ten for anything else. */
  function Total(accountType: string): (t: nat)
    ensures t == ProQuota <==> accountType == "pro"
    ensures accountType != "pro" ==> t == FreeQuota
  {
    if accountType == "pro" then ProQuota else FreeQuota
  }

  /** `d.get(k, 0)`. */
  function Get(d: map<string, int>, k: string): int
  {
    if k in d then d[k] else 0
  }

  /** What `check_quota` reports (the reset time is left out). */
  datatype QuotaStatus = QuotaStatus(userId: string, used: int, total: nat, canGenerate: bool)

  /** What `get_quota_info` reports (the reset time is left out). */
  datatype QuotaInfo = QuotaInfo(used: int, total: nat, canGenerate: bool)

  class QuotaManager {
    var quotas: map<string, int>
    var retryCounts: map<string, int>
    /** Set in development and test environments. */
    const skipQuotaCheck: bool

    /** No counter is negative. */
    ghost predicate Valid()
      reads this
    {
      forall k :: k in quotas ==> quotas[k] >= 0
    }

    constructor (skipQuotaCheck: bool)
      ensures Valid()
      ensures quotas == map[] && retryCounts == map[]
      ensures this.skipQuotaCheck == skipQuotaCheck
    {
      quotas := map[];
      retryCounts := map[];
      this.skipQuotaCheck := skipQuotaCheck;
    }

    /** `check_quota`: the day's usage against the limit; in skip mode the
        user may always generate. */
    method CheckQuota(userId: string, accountType: string, date: string) returns (status: QuotaStatus)
      ensures status.userId == userId
      ensures status.used == Get(quotas, QuotaKey(userId, date))
      ensures status.total == Total(accountType)
      ensures status.canGenerate <==> skipQuotaCheck || status.used < status.total
    {
      var quotaKey := QuotaKey(userId, date);
      var total := Total(accountType);
      var used := Get(quotas, quotaKey);
      var canGenerate := if skipQuotaCheck then true else used < total;
      status := QuotaStatus(userId, used, total, canGenerate);
    }

    /** `start_generation`: a request id (when present and non-empty) gets
        one call, counted before anything else; then, outside skip mode, one use is reserved when
        the limit allows it. A transaction comes back already consumed. */
    method StartGeneration(userId: string, accountType: string, requestId: Option<string>, date: string)
      returns (tx: QuotaTransaction?)
      modifies this
      ensures var counted := requestId.Some? && requestId.value != "";
        var rk := RetryKey(userId, requestId.GetOr(""));
        var gated := counted && Get(old(retryCounts), rk) >= MaxRetries;
        var key := QuotaKey(userId, date);
        var used := Get(old(quotas), key);
        (gated ==> tx == null && retryCounts == old(retryCounts) && quotas == old(quotas))
        && (!gated && counted ==> retryCounts == old(retryCounts)[rk := Get(old(retryCounts), rk) + 1])
        && (!counted ==> retryCounts == old(retryCounts))
        && (!gated && skipQuotaCheck ==> tx != null && quotas == old(quotas))
        && (!gated && !skipQuotaCheck && used < Total(accountType) ==>
              tx != null && quotas == old(quotas)[key := used + 1])
        && (!gated && !skipQuotaCheck && used >= Total(accountType) ==> tx == null && quotas == old(quotas))
        && (tx != null ==> fresh(tx) && tx.manager == this && tx.userId == userId && tx.quotaKey == key
                           && tx.consumed && tx.canRollback)
      ensures old(Valid()) ==> Valid()
    {
      if requestId.Some? && requestId.value != "" {
        var retryKey := RetryKey(userId, requestId.value);
        var retryCount := Get(retryCounts, retryKey);
        if retryCount >= MaxRetries {
          return null;
        }
        retryCounts := retryCounts[retryKey := retryCount + 1];
      }
      if skipQuotaCheck {
        var quotaKey := QuotaKey(userId, date);
        tx := new QuotaTransaction(userId, quotaKey, this);
        tx.consumed := true;
        return tx;
      }
      var status := CheckQuota(userId, accountType, date);
      if !status.canGenerate {
        return null;
      }
      var quotaKey := QuotaKey(userId, date);
      quotas := quotas[quotaKey := Get(quotas, quotaKey) + 1];
      tx := new QuotaTransaction(userId, quotaKey, this);
      tx.consumed := true;
    }

    /** `consume_quota`: starts a generation without a request id and
        commits it at once. */
    method ConsumeQuota(userId: string, accountType: string, date: string) returns (ok: bool)
      modifies this
      ensures var key := QuotaKey(userId, date);
        var used := Get(old(quotas), key);
        (ok <==> skipQuotaCheck || used < Total(accountType))
        && quotas == (if !skipQuotaCheck && used < Total(accountType) then old(quotas)[key := used + 1] else old(quotas))
        && retryCounts == old(retryCounts)
      ensures old(Valid()) ==> Valid()
    {
      var transaction := StartGeneration(userId, accountType, None, date);
      if transaction != null {
        transaction.Commit();
        return true;
      }
      return false;
    }

    /** `reset_daily_quotas`: drops every counter whose key mentions
        yesterday's date and every retry record. */
    method ResetDailyQuotas(yesterday: string)
      modifies this
      ensures forall k :: k in quotas <==> k in old(quotas) && !Text.Contains(k, yesterday)
      ensures forall k :: k in quotas ==> quotas[k] == old(quotas)[k]
      ensures forall u :: QuotaKey(u, yesterday) !in quotas
      ensures retryCounts == map[]
      ensures old(Valid()) ==> Valid()
    {
      var keysToDelete := set k | k in quotas && Text.Contains(k, yesterday);
      var remaining := keysToDelete;
      while remaining != {}
        invariant remaining <= keysToDelete
        invariant forall k :: k in quotas <==> k in old(quotas) && (k !in keysToDelete || k in remaining)
        invariant forall k :: k in quotas ==> quotas[k] == old(quotas)[k]
        decreases |remaining|
      {
        var key :| key in remaining;
        quotas := quotas - {key};
        remaining := remaining - {key};
      }
      ghost var kept := quotas;
      var retryKeys := retryCounts.Keys;
      while retryKeys != {}
        invariant retryCounts.Keys == retryKeys
        invariant quotas == kept
        decreases |retryKeys|
      {
        var key :| key in retryKeys;
        retryCounts := retryCounts - {key};
        retryKeys := retryKeys - {key};
      }
      assert retryCounts.Keys == {};
      forall u ensures QuotaKey(u, yesterday) !in quotas {
        KeyHoldsDate(u, yesterday);
      }
    }

    /** `get_quota_info`: like `check_quota`, except that `can_generate`
        compares usage with the limit even in skip mode. */
    method GetQuotaInfo(userId: string, accountType: string, date: string) returns (info: QuotaInfo)
      ensures info.used == Get(quotas, QuotaKey(userId, date))
      ensures info.total == Total(accountType)
      ensures info.canGenerate <==> info.used < info.total
    {
      var quotaKey := QuotaKey(userId, date);
      var total := Total(accountType);
      var used := Get(quotas, quotaKey);
      info := QuotaInfo(used, total, used < total);
    }
  }

  /** A reserved use: committed when the generation succeeds, given back
      (once) when it fails. */
  class QuotaTransaction {
    const userId: string
    const quotaKey: string
    const manager: QuotaManager
    var consumed: bool
    var canRollback: bool

    constructor (userId: string, quotaKey: string, manager: QuotaManager)
      ensures this.userId == userId && this.quotaKey == quotaKey && this.manager == manager
      ensures !consumed && canRollback
    {
      this.userId := userId;
      this.quotaKey := quotaKey;
      this.manager := manager;
      consumed := false;
      canRollback := true;
    }

    method Commit()
      modifies this
      ensures consumed && !canRollback
    {
      consumed := true;
      canRollback := false;
    }

    /** Gives the use back, never below zero, if the transaction was
        consumed and neither committed nor rolled back yet; otherwise
        nothing changes. */
    method Rollback()
      modifies this, manager
      ensures old(canRollback) && old(consumed) ==>
                manager.quotas == old(manager.quotas)[quotaKey := if Get(old(manager.quotas), quotaKey) - 1 < 0 then 0
                                                                else Get(old(manager.quotas), quotaKey) - 1]
                && !canRollback
      ensures !(old(canRollback) && old(consumed)) ==> manager.quotas == old(manager.quotas) && canRollback == old(canRollback)
      ensures consumed == old(consumed) && manager.retryCounts == old(manager.retryCounts)
      ensures old(manager.Valid()) ==> manager.Valid()
    {
      if canRollback && consumed {
        var current := Get(manager.quotas, quotaKey);
        manager.quotas := manager.quotas[quotaKey := if current - 1 < 0 then 0 else current - 1];
        canRollback := false;
      }
    }
  }
}
