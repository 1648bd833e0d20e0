/** What the bank commands promise across calls: enforcement on one check,
    de-duplication of the e-mails over repeated checks, rollover idempotence,
    and invariants of the record over any sequence of commands. */
module Properties {
  import opened Types
  import opened Units
  import opened Limits
  import opened Engine

  /** The e-mails among the requests, in order. */
  function Notices(rs: seq<Request>): (ns: seq<Request>)
    ensures |ns| <= |rs|
    ensures forall n :: n in ns ==> n in rs && !n.OnCluster?
  {
    if rs == [] then []
    else (if rs[0].OnCluster? then [] else [rs[0]]) + Notices(rs[1..])
  }

  function CountExhausted(rs: seq<Request>): nat
  {
    if rs == [] then 0 else (if rs[0].NotifyExhausted? then 1 else 0) + CountExhausted(rs[1..])
  }

  function CountWarnings(rs: seq<Request>): nat
  {
    if rs == [] then 0 else (if rs[0].NotifyPercent? then 1 else 0) + CountWarnings(rs[1..])
  }

  lemma {:induction false} ExhaustedAppend(a: seq<Request>, b: seq<Request>)
    ensures CountExhausted(a + b) == CountExhausted(a) + CountExhausted(b)
  {
    if a == [] {
      assert a + b == b;
    } else {
      assert (a + b)[0] == a[0] && (a + b)[1..] == a[1..] + b;
      ExhaustedAppend(a[1..], b);
    }
  }

  lemma {:induction false} WarningsAppend(a: seq<Request>, b: seq<Request>)
    ensures CountWarnings(a + b) == CountWarnings(a) + CountWarnings(b)
  {
    if a == [] {
      assert a + b == b;
    } else {
      assert (a + b)[0] == a[0] && (a + b)[1..] == a[1..] + b;
      WarningsAppend(a[1..], b);
    }
  }

  lemma {:induction false} NoticesAppend(a: seq<Request>, b: seq<Request>)
    ensures Notices(a + b) == Notices(a) + Notices(b)
  {
    if a == [] {
      assert a + b == b;
    } else {
      assert (a + b)[0] == a[0] && (a + b)[1..] == a[1..] + b;
      NoticesAppend(a[1..], b);
    }
  }

  /** The counts and the e-mails of two request lists put one after the other. */
  lemma CountsAppend(a: seq<Request>, b: seq<Request>)
    ensures CountExhausted(a + b) == CountExhausted(a) + CountExhausted(b)
    ensures CountWarnings(a + b) == CountWarnings(a) + CountWarnings(b)
    ensures Notices(a + b) == Notices(a) + Notices(b)
  {
    ExhaustedAppend(a, b);
    WarningsAppend(a, b);
    NoticesAppend(a, b);
  }

  /** Cluster commands carry no e-mail. */
  lemma {:induction false} ClusterCommandsCarryNoNotice(action: Action, clusters: seq<string>)
    ensures Notices(OnEach(action, clusters)) == []
    ensures CountExhausted(OnEach(action, clusters)) == 0
    ensures CountWarnings(OnEach(action, clusters)) == 0
  {
    if clusters != [] {
      var r := OnEach(action, clusters);
      assert r[1..] == OnEach(action, clusters[1..]);
      ClusterCommandsCarryNoNotice(action, clusters[1..]);
    }
  }

  // ---- One usage check ----

  /** An unlimited account (-1) is never held, never mailed, and its record never changes. */
  lemma UnlimitedIsNeverEnforced(e: Entry, usage: int, clusters: seq<string>)
    requires e.suLimitHrs == Unlimited
    ensures LimitCheck(e, usage, clusters) == Outcome(e, [])
  {
  }

  /** Over the limit: every cluster is held, and the exhaustion e-mail goes out
      (setting `limit_informed`) only for a non-zero limit not yet reported. */
  lemma OverLimit(e: Entry, usage: int, clusters: seq<string>)
    requires e.suLimitHrs != Unlimited && usage > e.suLimitHrs
    ensures var o := LimitCheck(e, usage, clusters);
      && o.requests == OnEach(Hold, clusters) + (if e.suLimitHrs != 0 && !e.limitInformed then [NotifyExhausted(e.date)] else [])
      && Notices(o.requests) == (if e.suLimitHrs != 0 && !e.limitInformed then [NotifyExhausted(e.date)] else [])
      && o.entry == e.(limitInformed := e.limitInformed || e.suLimitHrs != 0)
  {
    var o := LimitCheck(e, usage, clusters);
    ClusterCommandsCarryNoNotice(Hold, clusters);
    if e.suLimitHrs != 0 && !e.limitInformed {
      CountsAppend(OnEach(Hold, clusters), [NotifyExhausted(e.date)]);
      assert Notices([NotifyExhausted(e.date)]) == [NotifyExhausted(e.date)];
    }
  }

  /** A zero limit is held as soon as any hour is used, but no e-mail is sent
      and the record is left as it was. */
  lemma ZeroLimitIsHeldSilently(e: Entry, usage: int, clusters: seq<string>)
    requires e.suLimitHrs == 0 && usage > 0
    ensures LimitCheck(e, usage, clusters) == Outcome(e, OnEach(Hold, clusters))
  {
  }

  /** Within a positive limit: a single warning carrying the percentage goes out
      exactly when the usage is at least 90% of the limit and no warning was sent
      this period; only `percent_informed` changes. */
  lemma NearLimit(e: Entry, usage: int, clusters: seq<string>)
    requires e.suLimitHrs > 0 && usage <= e.suLimitHrs
    ensures var o := LimitCheck(e, usage, clusters);
      && (o.requests != [] <==> 100 * usage >= 90 * e.suLimitHrs && !e.percentInformed)
      && (o.requests != [] ==>
            o.requests == [NotifyPercent(Percent(usage, e.suLimitHrs), e.date)]
            && o.entry == e.(percentInformed := true))
      && (o.requests == [] ==> o.entry == e)
  {
    NearLimitThreshold(usage, e.suLimitHrs);
  }

  /** Some request holds the account on a cluster. */
  predicate HoldsSome(rs: seq<Request>)
  {
    exists i :: 0 <= i < |rs| && rs[i].OnCluster? && rs[i].action == Hold
  }

  /** No check both holds the account and sends the 90% warning. */
  lemma HoldAndWarningExclusive(e: Entry, usage: int, clusters: seq<string>)
    ensures var o := LimitCheck(e, usage, clusters);
      HoldsSome(o.requests) ==> CountWarnings(o.requests) == 0
  {
    var o := LimitCheck(e, usage, clusters);
    ClusterCommandsCarryNoNotice(Hold, clusters);
    if e.suLimitHrs != Unlimited && usage > e.suLimitHrs && e.suLimitHrs != 0 && !e.limitInformed {
      CountsAppend(OnEach(Hold, clusters), [NotifyExhausted(e.date)]);
    }
  }

  /** Checking again with the same or a higher usage holds again but sends no second e-mail. */
  lemma RepeatedCheckHoldsWithoutNotice(e: Entry, u1: int, u2: int, clusters: seq<string>)
    requires e.suLimitHrs != Unlimited && u1 > e.suLimitHrs && u2 >= u1
    ensures var o1 := LimitCheck(e, u1, clusters);
            LimitCheck(o1.entry, u2, clusters) == Outcome(o1.entry, OnEach(Hold, clusters))
  {
  }

  /** A usage equal to a positive limit is not over it: the account is never held,
      and it is warned at 100% unless the warning was already sent this period. */
  lemma UsageAtLimitOnlyWarns(e: Entry, clusters: seq<string>)
    requires e.suLimitHrs > 0
    ensures var o := LimitCheck(e, e.suLimitHrs, clusters);
      && !HoldsSome(o.requests)
      && (!e.percentInformed ==> o == Outcome(e.(percentInformed := true), [NotifyPercent(100, e.date)]))
      && (e.percentInformed ==> o == Outcome(e, []))
  {
    FloorUnique(100 * e.suLimitHrs, e.suLimitHrs, 100);
  }

  // ---- Repeated checks within one period ----

  /** A run of usage checks with no other command in between. */
  function Checks(e: Entry, usages: seq<int>, clusters: seq<string>): Outcome
    decreases |usages|
  {
    if usages == [] then Outcome(e, [])
    else
      var first := LimitCheck(e, usages[0], clusters);
      var rest := Checks(first.entry, usages[1..], clusters);
      Outcome(rest.entry, first.requests + rest.requests)
  }

  /** One check sends the exhaustion e-mail exactly when it raises `limit_informed`. */
  lemma ExhaustedOnRaise(e: Entry, usage: int, clusters: seq<string>)
    ensures var o := LimitCheck(e, usage, clusters);
      CountExhausted(o.requests) == (if !e.limitInformed && o.entry.limitInformed then 1 else 0)
  {
    ClusterCommandsCarryNoNotice(Hold, clusters);
    CountsAppend(OnEach(Hold, clusters), [NotifyExhausted(e.date)]);
  }

  /** One check sends the 90% warning exactly when it raises `percent_informed`. */
  lemma WarningOnRaise(e: Entry, usage: int, clusters: seq<string>)
    ensures var o := LimitCheck(e, usage, clusters);
      CountWarnings(o.requests) == (if !e.percentInformed && o.entry.percentInformed then 1 else 0)
  {
    ClusterCommandsCarryNoNotice(Hold, clusters);
    CountsAppend(OnEach(Hold, clusters), [NotifyExhausted(e.date)]);
  }

  /** Over any run of checks the exhaustion e-mail goes out at most once, and not
      at all once it has been sent this period. */
  lemma {:induction false} ExhaustedAtMostOncePerPeriod(e: Entry, usages: seq<int>, clusters: seq<string>)
    ensures CountExhausted(Checks(e, usages, clusters).requests) <= if e.limitInformed then 0 else 1
    decreases |usages|
  {
    if usages != [] {
      var first := LimitCheck(e, usages[0], clusters);
      ExhaustedOnRaise(e, usages[0], clusters);
      ExhaustedAtMostOncePerPeriod(first.entry, usages[1..], clusters);
      CountsAppend(first.requests, Checks(first.entry, usages[1..], clusters).requests);
    }
  }

  /** Over any run of checks the 90% warning goes out at most once, and not at
      all once it has been sent this period. */
  lemma {:induction false} WarningAtMostOncePerPeriod(e: Entry, usages: seq<int>, clusters: seq<string>)
    ensures CountWarnings(Checks(e, usages, clusters).requests) <= if e.percentInformed then 0 else 1
    decreases |usages|
  {
    if usages != [] {
      var first := LimitCheck(e, usages[0], clusters);
      WarningOnRaise(e, usages[0], clusters);
      WarningAtMostOncePerPeriod(first.entry, usages[1..], clusters);
      CountsAppend(first.requests, Checks(first.entry, usages[1..], clusters).requests);
    }
  }

  // ---- Rollover, release, notice ----

  /** A second rollover on the same day does nothing. */
  lemma RolloverIdempotent(e: Entry, today: int, clusters: seq<string>)
    ensures var o := Rollover(e, today, clusters);
            Rollover(o.entry, today, clusters) == Outcome(o.entry, [])
  {
  }

  /** After more than 365 days a limited account is set back to the default
      grant, while -1 and 0 keep their limit; the usage is zeroed everywhere. */
  lemma RolloverAfterAYear(e: Entry, today: int, clusters: seq<string>)
    requires today - e.date > PeriodDays
    ensures var o := Rollover(e, today, clusters);
      && o.entry.suLimitHrs == (if e.suLimitHrs in {Unlimited, 0} then e.suLimitHrs else DefaultGrant)
      && o.entry.date == today && !o.entry.percentInformed && !o.entry.limitInformed
      && o.requests == OnEach(ZeroUsage, clusters)
  {
  }

  /** Within a year of the period start nothing happens: no request, no change. */
  lemma RolloverWithinAYear(e: Entry, today: int, clusters: seq<string>)
    requires today - e.date <= PeriodDays
    ensures Rollover(e, today, clusters) == Outcome(e, [])
  {
  }

  /** A hold is released exactly when the usage is below the limit; so an
      unlimited account, whose usage is never below -1, can never be released. */
  lemma ReleaseOnlyBelowLimit(e: Entry, usage: int, clusters: seq<string>)
    ensures HoldRelease(e, usage, clusters).Ok? <==> usage < e.suLimitHrs
    ensures HoldRelease(e, usage, clusters).Err? ==> HoldRelease(e, usage, clusters).error == UsageExceedsLimit
    ensures e.suLimitHrs == Unlimited && usage >= 0 ==> HoldRelease(e, usage, clusters).Err?
    ensures HoldRelease(e, usage, clusters).Ok? ==> HoldRelease(e, usage, clusters).value == OnEach(Unhold, clusters)
  {
  }

  /** Usage read from non-negative per-cluster counters is non-negative in hours. */
  lemma {:induction false} UsageNonNegative(clusters: seq<string>, rawUsage: string -> int)
    requires forall c :: rawUsage(c) >= 0
    ensures Hours(RawTotal(clusters, rawUsage)) >= 0
    ensures RawTotal(clusters, rawUsage) >= 0
  {
    if clusters != [] {
      UsageNonNegative(clusters[..|clusters| - 1], rawUsage);
    }
  }

  /** The reset notice is one e-mail announcing `date + 365`, sent iff the period
      ends in exactly 90 days and the account is not unlimited (a zero limit is mailed). */
  lemma ThreeMonthNoticeExactDay(e: Entry, today: int)
    ensures |ThreeMonthNotice(e, today)| <= 1
    ensures ThreeMonthNotice(e, today) != [] <==> e.date + 365 - today == 90 && e.suLimitHrs != Unlimited
    ensures ThreeMonthNotice(e, today) != [] ==> ThreeMonthNotice(e, today) == [NotifyRollover(e.date + 365)]
  {
  }

  /** Only one day of a period triggers the notice. */
  lemma ThreeMonthNoticeSingleDay(e: Entry, t1: int, t2: int)
    requires ThreeMonthNotice(e, t1) != [] && ThreeMonthNotice(e, t2) != []
    ensures t1 == t2
  {
  }

  /** `add` validates only the amount added: adding -1 to an unlimited account
      stores -2, a limit the validation itself refuses. */
  lemma AddDoesNotValidateTheSum(today: int)
    ensures CheckServiceUnits(IntText(-1)) == Ok(-1)
    ensures Added(NewPeriod(Unlimited, today), -1).suLimitHrs == -2
    ensures CheckServiceUnits(IntText(-2)) == Err(TooSmall(-2))
  {
    LimitValidation(-1);
    LimitValidation(-2);
  }

  // ---- Any sequence of commands on one record ----

  /** A command on an existing record, with the limit text or the usage already given. */
  datatype Command =
    | ModifyCmd(given: string)
    | AddCmd(given: string)
    | CheckCmd(usage: int)
    | ResetCmd
    | EndOfDateCmd
    | ReleaseCmd(usage: int)
    | ThreeMonthCmd

  /** The record and requests after one command issued on `today`; a refused
      command leaves the record as it was and issues nothing. */
  function Step(e: Entry, cmd: Command, today: int, clusters: seq<string>): Outcome
  {
    match cmd
    case ModifyCmd(given) =>
      (match CheckServiceUnits(given) case Ok(n) => Outcome(NewPeriod(n, today), []) case Err(_) => Outcome(e, []))
    case AddCmd(given) =>
      (match CheckServiceUnits(given) case Ok(n) => Outcome(Added(e, n), []) case Err(_) => Outcome(e, []))
    case CheckCmd(usage) => LimitCheck(e, usage, clusters)
    case ResetCmd => UsageReset(e, today, clusters)
    case EndOfDateCmd => Rollover(e, today, clusters)
    case ReleaseCmd(usage) =>
      (match HoldRelease(e, usage, clusters) case Ok(rs) => Outcome(e, rs) case Err(_) => Outcome(e, []))
    case ThreeMonthCmd => Outcome(e, ThreeMonthNotice(e, today))
  }

  /** An unlimited record carries no notification state. */
  predicate Quiet(e: Entry)
  {
    e.suLimitHrs == Unlimited ==> !e.percentInformed && !e.limitInformed
  }

  /** Whenever a command changes the limit or the period start, both notices are re-armed. */
  lemma StepRearmsOnChange(e: Entry, cmd: Command, today: int, clusters: seq<string>)
    ensures var f := Step(e, cmd, today, clusters).entry;
      f.suLimitHrs != e.suLimitHrs || f.date != e.date ==> !f.percentInformed && !f.limitInformed
  {
  }

  /** Only a usage check raises a notification flag. */
  lemma StepRaisesFlagsOnlyByCheck(e: Entry, cmd: Command, today: int, clusters: seq<string>)
    ensures var f := Step(e, cmd, today, clusters).entry;
      !cmd.CheckCmd? ==> (f.percentInformed ==> e.percentInformed) && (f.limitInformed ==> e.limitInformed)
  {
  }

  /** A command run no earlier than the period start leaves the start between
      its old value and the day the command ran. */
  lemma StepDateWithin(e: Entry, cmd: Command, today: int, clusters: seq<string>)
    requires e.date <= today
    ensures e.date <= Step(e, cmd, today, clusters).entry.date <= today
  {
    match cmd
    case ModifyCmd(given) =>
    case AddCmd(given) =>
    case CheckCmd(usage) =>
    case ResetCmd =>
    case EndOfDateCmd =>
    case ReleaseCmd(usage) =>
    case ThreeMonthCmd =>
  }

  /** A sequence of commands, each with the day it runs on. */
  function Run(e: Entry, trace: seq<(Command, int)>, clusters: seq<string>): Entry
    decreases |trace|
  {
    if trace == [] then e else Run(Step(e, trace[0].0, trace[0].1, clusters).entry, trace[1..], clusters)
  }

  /** An unlimited account never accrues notification state, whatever is run on it. */
  lemma {:induction false} RunKeepsQuiet(e: Entry, trace: seq<(Command, int)>, clusters: seq<string>)
    requires Quiet(e)
    ensures Quiet(Run(e, trace, clusters))
    decreases |trace|
  {
    if trace != [] {
      var next := Step(e, trace[0].0, trace[0].1, clusters).entry;
      assert Quiet(next);
      RunKeepsQuiet(next, trace[1..], clusters);
    }
  }

  /** The days of a trace never go back, and the first is no earlier than `from`. */
  predicate DaysInOrder(from: int, trace: seq<(Command, int)>)
  {
    && (trace != [] ==> from <= trace[0].1)
    && forall i :: 0 < i < |trace| ==> trace[i - 1].1 <= trace[i].1
  }

  /** Run on days that never go back, starting no earlier than the period start,
      the period start only moves forward. */
  lemma {:induction false} RunPeriodStartMovesForward(e: Entry, trace: seq<(Command, int)>, clusters: seq<string>)
    requires DaysInOrder(e.date, trace)
    ensures Run(e, trace, clusters).date >= e.date
    decreases |trace|
  {
    if trace != [] {
      var next := Step(e, trace[0].0, trace[0].1, clusters).entry;
      StepDateWithin(e, trace[0].0, trace[0].1, clusters);
      assert DaysInOrder(next.date, trace[1..]) by {
        if |trace| > 1 {
          assert trace[0].1 <= trace[1].1;
        }
        forall i | 0 < i < |trace[1..]| ensures trace[1..][i - 1].1 <= trace[1..][i].1 {
          assert trace[1..][i] == trace[i + 1] && trace[1..][i - 1] == trace[i];
        }
      }
      RunPeriodStartMovesForward(next, trace[1..], clusters);
    }
  }
}
