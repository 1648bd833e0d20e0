/** The bank script's commands on the `crc` table. Each method mirrors one branch
    of the command dispatch: it checks that the account exists (or not, for
    `insert`), reads the usage where needed, updates the one record, and returns
    the cluster commands and e-mails it issues, in order. */
module Bank {
  import opened Types
  import opened Units
  import opened Limits
  import opened Engine
  import opened Restore

  class Ledger {
    /** The configured cluster list (CLUSTERS). */
    const clusters: seq<string>
    /** The `crc` table: one record per account. */
    var accounts: map<string, Entry>

    constructor (clusters: seq<string>)
      ensures this.clusters == clusters && accounts == map[]
    {
      this.clusters := clusters;
      accounts := map[];
    }

    /** One `sacctmgr` command per cluster, in cluster order. */
    method ClusterCommands(action: Action) returns (requests: seq<Request>)
      ensures requests == OnEach(action, clusters)
    {
      requests := [];
      for i := 0 to |clusters|
        invariant |requests| == i
        invariant forall k :: 0 <= k < i ==> requests[k] == OnCluster(action, clusters[k])
      {
        requests := requests + [OnCluster(action, clusters[i])];
      }
    }

    /** `insert <account> <su_limit_hrs>`: refused when the account already has a
        record; otherwise the limit is validated and a new period starts today. */
    method Insert(account: string, given: string, today: int) returns (r: Result<Entry>)
      modifies this
      ensures account in old(accounts) ==> r == Err(AccountExists)
      ensures account !in old(accounts) ==>
        r == match CheckServiceUnits(given)
             case Ok(limit) => Ok(NewPeriod(limit, today))
             case Err(err) => Err(err)
      ensures accounts == if r.Ok? then old(accounts)[account := r.value] else old(accounts)
    {
      if account in accounts {
        return Err(AccountExists);
      }
      var units := CheckServiceUnits(given);
      if units.Err? {
        return Err(units.error);
      }
      var e := NewPeriod(units.value, today);
      accounts := accounts[account := e];
      r := Ok(e);
    }

    /** `modify <account> <su_limit_hrs>`: replaces the limit and starts a new period today. */
    method Modify(account: string, given: string, today: int) returns (r: Result<Entry>)
      modifies this
      ensures account !in old(accounts) ==> r == Err(AccountNotFound)
      ensures account in old(accounts) ==>
        r == match CheckServiceUnits(given)
             case Ok(limit) => Ok(NewPeriod(limit, today))
             case Err(err) => Err(err)
      ensures accounts == if r.Ok? then old(accounts)[account := r.value] else old(accounts)
    {
      if account !in accounts {
        return Err(AccountNotFound);
      }
      var units := CheckServiceUnits(given);
      if units.Err? {
        return Err(units.error);
      }
      var e := NewPeriod(units.value, today);
      accounts := accounts[account := e];
      r := Ok(e);
    }

    /** `add <account> <su_limit_hrs>`: adds the validated amount to the stored
        limit and re-arms both notices, keeping the period start. */
    method Add(account: string, given: string) returns (r: Result<Entry>)
      modifies this
      ensures account !in old(accounts) ==> r == Err(AccountNotFound)
      ensures account in old(accounts) ==>
        r == match CheckServiceUnits(given)
             case Ok(delta) => Ok(Added(old(accounts)[account], delta))
             case Err(err) => Err(err)
      ensures accounts == if r.Ok? then old(accounts)[account := r.value] else old(accounts)
    {
      if account !in accounts {
        return Err(AccountNotFound);
      }
      var units := CheckServiceUnits(given);
      if units.Err? {
        return Err(units.error);
      }
      var e := accounts[account];
      var limit := units.value + e.suLimitHrs;
      e := e.(suLimitHrs := limit, percentInformed := false, limitInformed := false);
      accounts := accounts[account := e];
      r := Ok(e);
    }

    /** `get_sus <account>`: the stored limit. */
    method GetSus(account: string) returns (r: Result<int>)
      ensures account in accounts <==> r.Ok?
      ensures r.Ok? ==> r.value == accounts[account].suLimitHrs
      ensures r.Err? ==> r.error == AccountNotFound
    {
      if account !in accounts {
        return Err(AccountNotFound);
      }
      r := Ok(accounts[account].suLimitHrs);
    }

    /** `check_service_units_limit <account>`: reads the usage of every cluster,
        holds the account once it is over its limit and warns the PI at 90%. */
    method CheckServiceUnitsLimit(account: string, rawUsage: string -> int) returns (r: Result<seq<Request>>)
      modifies this
      ensures account !in old(accounts) ==> r == Err(AccountNotFound) && accounts == old(accounts)
      ensures account in old(accounts) ==>
        var o := LimitCheck(old(accounts)[account], Hours(RawTotal(clusters, rawUsage)), clusters);
        r == Ok(o.requests) && accounts == old(accounts)[account := o.entry]
    {
      if account !in accounts {
        return Err(AccountNotFound);
      }
      var raw := TotalRawUsage(clusters, rawUsage);
      var usage := Hours(raw);
      var e := accounts[account];
      var limit := e.suLimitHrs;
      var percent := Percent(usage, limit);
      var requests: seq<Request> := [];
      if limit != Unlimited && usage > limit {
        requests := ClusterCommands(Hold);
        if limit != 0 && !e.limitInformed {
          requests := requests + [NotifyExhausted(e.date)];
          accounts := accounts[account := e.(limitInformed := true)];
        }
      } else if limit != Unlimited && percent >= WarnPercent {
        if !e.percentInformed {
          requests := [NotifyPercent(percent, e.date)];
          accounts := accounts[account := e.(percentInformed := true)];
        }
      }
      r := Ok(requests);
    }

    /** `reset_usage <account>`: zeroes the usage on every cluster and starts a new period today. */
    method ResetUsage(account: string, today: int) returns (r: Result<seq<Request>>)
      modifies this
      ensures account !in old(accounts) ==> r == Err(AccountNotFound) && accounts == old(accounts)
      ensures account in old(accounts) ==>
        var o := UsageReset(old(accounts)[account], today, clusters);
        r == Ok(o.requests) && accounts == old(accounts)[account := o.entry]
    {
      if account !in accounts {
        return Err(AccountNotFound);
      }
      var requests := ClusterCommands(ZeroUsage);
      var e := accounts[account];
      accounts := accounts[account := e.(date := today, percentInformed := false, limitInformed := false)];
      r := Ok(requests);
    }

    /** `check_end_of_date_limit <account>`: the yearly rollover. */
    method CheckEndOfDateLimit(account: string, today: int) returns (r: Result<seq<Request>>)
      modifies this
      ensures account !in old(accounts) ==> r == Err(AccountNotFound) && accounts == old(accounts)
      ensures account in old(accounts) ==>
        var o := Rollover(old(accounts)[account], today, clusters);
        r == Ok(o.requests) && accounts == old(accounts)[account := o.entry]
    {
      if account !in accounts {
        return Err(AccountNotFound);
      }
      var e := accounts[account];
      var requests: seq<Request> := [];
      if today - e.date > PeriodDays {
        if e.suLimitHrs == Unlimited || e.suLimitHrs == 0 {
          accounts := accounts[account := e.(date := today, percentInformed := false, limitInformed := false)];
        } else {
          accounts := accounts[account := Entry(DefaultGrant, today, false, false)];
        }
        requests := ClusterCommands(ZeroUsage);
      } else {
        assert old(accounts)[account := e] == old(accounts);
      }
      r := Ok(requests);
    }

    /** `release_hold <account>`: lifts the hold on every cluster, refused unless
        the usage is below the limit. The table is not changed. */
    method ReleaseHold(account: string, rawUsage: string -> int) returns (r: Result<seq<Request>>)
      ensures account !in accounts ==> r == Err(AccountNotFound)
      ensures account in accounts ==>
        r == HoldRelease(accounts[account], Hours(RawTotal(clusters, rawUsage)), clusters)
    {
      if account !in accounts {
        return Err(AccountNotFound);
      }
      var raw := TotalRawUsage(clusters, rawUsage);
      var usage := Hours(raw);
      var limit := accounts[account].suLimitHrs;
      if usage < limit {
        var requests := ClusterCommands(Unhold);
        r := Ok(requests);
      } else {
        r := Err(UsageExceedsLimit);
      }
    }

    /** `three_month_check <account>`: the reset notice, sent exactly 90 days
        before the period ends. The table is not changed. */
    method ThreeMonthCheck(account: string, today: int) returns (r: Result<seq<Request>>)
      ensures account !in accounts ==> r == Err(AccountNotFound)
      ensures account in accounts ==> r == Ok(ThreeMonthNotice(accounts[account], today))
    {
      if account !in accounts {
        return Err(AccountNotFound);
      }
      var e := accounts[account];
      var endDate := e.date + PeriodDays;
      var delta := endDate - today;
      if delta == NoticeDays && e.suLimitHrs != Unlimited {
        r := Ok([NotifyRollover(endDate)]);
      } else {
        r := Ok([]);
      }
    }

    /** `repopulate <filename>` after the confirmation: the table is dropped, every
        backup record is coerced, then all of them are inserted. A record that
        cannot be coerced stops the command with the table already dropped. */
    method Repopulate(items: seq<RawItem>) returns (r: Result<seq<Row>>)
      modifies this
      ensures r == CoerceAll(items)
      ensures accounts == if r.Ok? then Load(r.value) else map[]
    {
      accounts := map[];
      var rows: seq<Row> := [];
      for i := 0 to |items|
        invariant CoerceAll(items[..i]) == Ok(rows)
      {
        assert items[..i + 1][..i] == items[..i];
        var row := Coerce(items[i]);
        if row.Err? {
          CoerceAllPrefix(items, i + 1);
          return Err(FormatError);
        }
        rows := rows + [row.value];
      }
      assert items[..|items|] == items;
      for i := 0 to |rows|
        invariant accounts == Load(rows[..i])
      {
        assert rows[..i + 1][..i] == rows[..i];
        if rows[i].account !in accounts {
          accounts := accounts[rows[i].account := rows[i].entry];
        }
      }
      assert rows[..|rows|] == rows;
      r := Ok(rows);
    }
  }
}
