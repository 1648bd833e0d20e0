/** The decision rules of the bank commands on one account's record: what each
    command makes of the stored record and which side-effect requests it issues.
    The class in module Bank applies them to the whole ledger. */
module Engine {
  import opened Types
  import opened Units
  import opened Limits

  /** One row of the `crc` table. `date` is the first day of the current
      allocation period, as a day number (Python's date ordinal). */
  datatype Entry = Entry(suLimitHrs: int, date: int, percentInformed: bool, limitInformed: bool)

  /** What a `sacctmgr` command does to the account on one cluster. */
  datatype Action =
    | Hold         // set GrpTresRunMins=cpu=0
    | Unhold       // set GrpTresRunMins=cpu=-1
    | ZeroUsage    // set RawUsage=0

  /** A side effect the script performs: a cluster command or an e-mail to the account's PI. */
  datatype Request =
    | OnCluster(action: Action, cluster: string)
    | NotifyExhausted(begin: int)                // the allocation has run out
    | NotifyPercent(percent: int, begin: int)    // the allocation is at `percent`% usage
    | NotifyRollover(endDate: int)               // the allocation resets on `endDate`

  /** The record after a command, and the requests it issued in order. */
  datatype Outcome = Outcome(entry: Entry, requests: seq<Request>)

  /** The grant a limited account receives when its period rolls over. */
  const DefaultGrant := 10000
  /** Length of an allocation period in days. */
  const PeriodDays := 365
  /** How many days before the end of the period the reset notice goes out. */
  const NoticeDays := 90
  /** The usage percentage at which the PI is warned. */
  const WarnPercent := 90

  /** The same command on every cluster, in cluster order. */
  function OnEach(action: Action, clusters: seq<string>): (r: seq<Request>)
    ensures |r| == |clusters|
    ensures forall i :: 0 <= i < |r| ==> r[i] == OnCluster(action, clusters[i])
  {
    if clusters == [] then [] else [OnCluster(action, clusters[0])] + OnEach(action, clusters[1..])
  }

  /** The record written by `insert` and by `modify`: a new period starting today
      with both notices re-armed. */
  function NewPeriod(limit: int, today: int): Entry
  {
    Entry(limit, today, false, false)
  }

  /** The record written by `add`: the delta on top of the stored limit, both
      notices re-armed, the period start kept. */
  function Added(e: Entry, delta: int): Entry
  {
    e.(suLimitHrs := e.suLimitHrs + delta, percentInformed := false, limitInformed := false)
  }

  /** `check_service_units_limit` with the usage already in whole hours. */
  function LimitCheck(e: Entry, usage: int, clusters: seq<string>): (o: Outcome)
    ensures o.entry.suLimitHrs == e.suLimitHrs && o.entry.date == e.date
    ensures e.percentInformed ==> o.entry.percentInformed
    ensures e.limitInformed ==> o.entry.limitInformed
  {
    var limit := e.suLimitHrs;
    var percent := Percent(usage, limit);
    if limit != Unlimited && usage > limit then
      if limit != 0 && !e.limitInformed then
        Outcome(e.(limitInformed := true), OnEach(Hold, clusters) + [NotifyExhausted(e.date)])
      else
        Outcome(e, OnEach(Hold, clusters))
    else if limit != Unlimited && percent >= WarnPercent && !e.percentInformed then
      Outcome(e.(percentInformed := true), [NotifyPercent(percent, e.date)])
    else
      Outcome(e, [])
  }

  /** `reset_usage`: zero the usage on every cluster and start a new period today
      with the same limit. */
  function UsageReset(e: Entry, today: int, clusters: seq<string>): Outcome
  {
    Outcome(NewPeriod(e.suLimitHrs, today), OnEach(ZeroUsage, clusters))
  }

  /** `check_end_of_date_limit`: once more than a year has passed since the period
      start, a new period begins today; a limited account gets the default grant,
      an unlimited (-1) or zero account keeps its limit. */
  function Rollover(e: Entry, today: int, clusters: seq<string>): (o: Outcome)
    ensures o.entry.date == e.date || o.entry.date == today
  {
    if today - e.date > PeriodDays then
      var limit := if e.suLimitHrs == Unlimited || e.suLimitHrs == 0 then e.suLimitHrs else DefaultGrant;
      Outcome(NewPeriod(limit, today), OnEach(ZeroUsage, clusters))
    else
      Outcome(e, [])
  }

  /** `release_hold`: lift the hold on every cluster only while the usage is below the limit. */
  function HoldRelease(e: Entry, usage: int, clusters: seq<string>): Result<seq<Request>>
  {
    if usage < e.suLimitHrs then Ok(OnEach(Unhold, clusters)) else Err(UsageExceedsLimit)
  }

  /** `three_month_check`: the notice of the coming reset, sent on the single day
      that lies exactly 90 days before the end of the period. */
  function ThreeMonthNotice(e: Entry, today: int): seq<Request>
  {
    var endDate := e.date + PeriodDays;
    if endDate - today == NoticeDays && e.suLimitHrs != Unlimited then [NotifyRollover(endDate)] else []
  }
}
