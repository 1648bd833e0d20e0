# crc-bank ledger in Dafny

A model of the allocation ledger kept by `crc-bank.py`, the slurm-bank script. The script
stores one record per Slurm account: the limit in CPU-hours (`su_limit_hrs`), the first day
of the current one-year period (`date`), and two flags recording whether the PI has already
been mailed about 90% usage (`percent_informed`) or about running out (`limit_informed`).
Each command checks that the account exists (or does not exist, for `insert`). It may read the
account's raw usage from every cluster. It then updates that one record and issues cluster
commands (hold, release, zero the usage) and e-mails.

The model keeps that state and those decisions and drops the plumbing:

- `types.dfy`: the error conditions on which the script calls `exit`, as a `Result` value.
- `units.dfy`: the loop that sums raw CPU-seconds over the clusters, the floor conversion to
  hours, and the rounded-down percentage. Python 2 integer division rounds toward negative
  infinity. Dafny's `/` agrees with it for a positive divisor only, and a stored limit can be
  negative (see `add` below), so the floor is written out.
- `limits.dfy`: `check_service_units`, including Python 2's `int()` on the argument text.
  That text may have surrounding whitespace, an optional sign (whitespace may follow it), and
  then decimal digits.
- `engine.dfy`: the record (`Entry`), the side-effect requests (`Request`), and one pure
  decision function per command: what the command makes of the record and which requests it
  issues, in order.
- `bank.dfy`: class `Ledger`, whose `accounts` map is the `crc` table. It has one method per
  command. The usage-summing and per-cluster command loops are real loops, and each method
  states its whole new state and result through the decision functions.
- `restore.dfy`: the record coercion of `repopulate`. It turns `YYYY-MM-DD` text into a day
  number (Python's date ordinal) and a limit value into an integer. It also loads the coerced
  rows.
- `properties.dfy`: what holds across calls. It covers de-duplication of the e-mails, rollover
  idempotence, and invariants over any sequence of commands.

Dates are day numbers, and `today` is a parameter. `date - date` becomes integer subtraction,
which `NextDayOrdinal` justifies: consecutive calendar days have consecutive numbers. The
usage source is a parameter `rawUsage: string -> int`, which gives the raw CPU-seconds reported
for the account on a cluster.

In these places the code does something a reader might not expect, and the model follows the
code:

- A limit of 0 is held as soon as more than 0 hours are used. Only the e-mail is skipped
  (`ZeroLimitIsHeldSilently`).
- `three_month_check` excludes only the limit -1, although its comments say the limit must not
  be 0 or -1 (crc-bank.py:346, 349).
- A usage exactly equal to the limit is not "over" it, although the comment on the hold branch
  speaks of reaching the limit (crc-bank.py:173). It gets the 90% warning (at 100%), not a
  hold (`UsageAtLimitOnlyWarns`).
- `add` validates only the amount added. The new sum can be any integer, for example -2 or
  9999 (`AddDoesNotValidateTheSum`).
- `repopulate` drops the table before it coerces the records. A record that cannot be coerced
  therefore leaves the ledger empty (`Bank.Ledger.Repopulate`).

## Model

| member | source | states |
|---|---|---|
| Limits.CheckServiceUnits | crc-bank.py:36-45 | for any text `int()` reads as n, in whatever spelling (sign, surrounding whitespace, leading zeros), the result is `Ok(n)` exactly when n is -1 or at least 10000, and `TooSmall(n)` otherwise; text that `int()` rejects is `NotAnInteger` |
| Limits.LimitValidation | crc-bank.py:36-45 | over every integer written as text, exactly -1 and the values from 10000 up are accepted with their own value; every other one (0, 9999, -2, ...) is `TooSmall` |
| Limits.ParseIntText | crc-bank.py:38 | `int(str(n)) == n` for every integer, the conversion the limit check relies on |
| Limits.NatTextRoundTrip | crc-bank.py:38 | the decimal digits of a natural number read back as that number |
| Units.FloorDiv | crc-bank.py:160 | Python 2 integer division: the quotient is the floor for positive and negative divisors |
| Units.TotalRawUsage | crc-bank.py:153-157 | the loop over CLUSTERS adds up the raw usage reported for each cluster |
| Units.Hours | crc-bank.py:159-160 | usage in hours is the raw CPU-seconds divided by 3600, rounded down |
| Units.Percent | crc-bank.py:165-169 | the percentage is 0 for the limits 0 and -1, otherwise `100*usage/limit` rounded down |
| Units.NearLimitThreshold | crc-bank.py:169 | for a positive limit the rounded percentage reaches 90 exactly when `100*usage >= 90*limit` |
| Units.PercentWithinLimit | crc-bank.py:169 | a usage between 0 and a positive limit gives a percentage between 0 and 100 |
| Engine.OnEach | crc-bank.py:174-176 | one cluster command per configured cluster, in cluster order |
| Engine.LimitCheck | crc-bank.py:148-252 | a usage check never changes the limit or the period start and only raises the notification flags |
| Engine.Rollover | crc-bank.py:269-295 | a rollover leaves the period start as it was or moves it to today |
| Bank.Ledger.constructor | crc-bank.py:29 | a ledger over the configured clusters starts with no accounts |
| Bank.Ledger.ClusterCommands | crc-bank.py:175-176 | the per-cluster `sacctmgr` loop issues the same command for every cluster in order |
| Bank.Ledger.Insert | crc-bank.py:105-117 | `AccountExists` if the account has a record; otherwise the validated limit is stored with `date = today` and both flags false, and nothing else changes |
| Bank.Ledger.Modify | crc-bank.py:119-131 | `AccountNotFound` if absent; otherwise the validated limit replaces the old one, `date = today`, both flags false |
| Bank.Ledger.Add | crc-bank.py:133-146 | `AccountNotFound` if absent; otherwise the validated amount is added to the stored limit, both flags false, `date` kept |
| Bank.Ledger.GetSus | crc-bank.py:297-304 | the stored limit of an existing account, `AccountNotFound` otherwise |
| Bank.Ledger.CheckServiceUnitsLimit | crc-bank.py:148-252 | `AccountNotFound` if absent; otherwise the record and the requests are those of the usage check at the summed usage in hours |
| Bank.Ledger.ResetUsage | crc-bank.py:254-267 | `AccountNotFound` if absent; otherwise usage zeroed on every cluster, `date = today`, both flags false, limit kept |
| Bank.Ledger.CheckEndOfDateLimit | crc-bank.py:269-295 | `AccountNotFound` if absent; otherwise the record and the requests are those of the yearly rollover |
| Bank.Ledger.ReleaseHold | crc-bank.py:306-332 | `AccountNotFound` if absent; otherwise the release decision at the summed usage, with the table unchanged |
| Bank.Ledger.ThreeMonthCheck | crc-bank.py:334-375 | `AccountNotFound` if absent; otherwise the reset notice of that day, with the table unchanged |
| Bank.Ledger.Repopulate | crc-bank.py:384-406 | the table is dropped; if every record coerces, the table holds the loaded rows and they are returned, otherwise `FormatError` with the table left empty |
| Properties.UnlimitedIsNeverEnforced | crc-bank.py:171-172 | a usage check on a -1 account issues nothing and leaves the record unchanged, whatever the usage |
| Properties.OverLimit | crc-bank.py:172-215 | over the limit the requests are exactly one hold per cluster, in order, followed by the exhaustion e-mail only for a non-zero limit not yet reported, which alone sets `limit_informed` |
| Properties.ZeroLimitIsHeldSilently | crc-bank.py:172-178 | a zero limit with any positive usage is held on every cluster with no e-mail and no record change |
| Properties.NearLimit | crc-bank.py:217-252 | within a positive limit, one warning carrying the percentage goes out iff usage is at least 90% and no warning was sent, setting only `percent_informed` |
| Properties.HoldAndWarningExclusive | crc-bank.py:172-217 | no check both holds the account and sends the 90% warning |
| Properties.RepeatedCheckHoldsWithoutNotice | crc-bank.py:178-180 | a later check with the same or higher usage holds again, sends no second e-mail and leaves the record as the first check left it |
| Properties.UsageAtLimitOnlyWarns | crc-bank.py:172-252 | for any positive limit and any flags, a usage equal to the limit is never held; it is warned at 100%, setting `percent_informed`, unless already warned, in which case nothing happens |
| Properties.ExhaustedOnRaise | crc-bank.py:178-215 | a check sends the exhaustion e-mail exactly when it raises `limit_informed` |
| Properties.WarningOnRaise | crc-bank.py:217-252 | a check sends the 90% warning exactly when it raises `percent_informed` |
| Properties.ExhaustedAtMostOncePerPeriod | crc-bank.py:178-215 | over any run of checks the exhaustion e-mail goes out at most once, and never once `limit_informed` is set |
| Properties.WarningAtMostOncePerPeriod | crc-bank.py:217-252 | over any run of checks the 90% warning goes out at most once, and never once `percent_informed` is set |
| Properties.RolloverIdempotent | crc-bank.py:273-289 | a second rollover on the same day issues nothing and changes nothing |
| Properties.RolloverAfterAYear | crc-bank.py:278-295 | after more than 365 days the limit becomes 10000 unless it is -1 or 0, `date = today`, flags cleared, and the requests are exactly one usage reset per cluster, in order |
| Properties.RolloverWithinAYear | crc-bank.py:278 | within 365 days of the period start the rollover issues nothing and changes nothing |
| Properties.ReleaseOnlyBelowLimit | crc-bank.py:322-332 | release succeeds exactly when usage is below the limit, otherwise `UsageExceedsLimit`; a successful release is one unhold per cluster, in order; a -1 account is never released |
| Properties.UsageNonNegative | crc-bank.py:153-160 | non-negative per-cluster counters give a non-negative usage in hours |
| Properties.ThreeMonthNoticeExactDay | crc-bank.py:339-375 | one reset notice carrying `date + 365` is sent iff the period ends in exactly 90 days and the limit is not -1 |
| Properties.ThreeMonthNoticeSingleDay | crc-bank.py:350 | only one day of a period triggers the notice |
| Properties.AddDoesNotValidateTheSum | crc-bank.py:138-139 | adding -1 to an unlimited account stores -2, which the limit validation itself refuses |
| Properties.StepRearmsOnChange | crc-bank.py:127-128 | every command that changes the limit or the period start clears both flags |
| Properties.StepRaisesFlagsOnlyByCheck | crc-bank.py:214-215 | only the usage check sets a notification flag |
| Properties.StepDateWithin | crc-bank.py:264 | a command run on or after the period start leaves it between its old value and today |
| Properties.RunKeepsQuiet | crc-bank.py:166-172 | an unlimited account never accrues notification state over any sequence of commands |
| Properties.RunPeriodStartMovesForward | crc-bank.py:282-289 | over commands on days that never go back, the period start never moves backward |
| Restore.Coerce | crc-bank.py:397-401 | a record coerces exactly when both fields are present, the date text is at least three integers forming a valid date and the limit passes `int()`; the result has that date's day number and that limit with the account and flags kept; any failure is `FormatError` |
| Restore.CoerceRoundTrip | crc-bank.py:397-401 | a record written with its date as `YYYY-MM-DD` and its limit as a number coerces back to the same record |
| Restore.IsoTextRoundTrip | crc-bank.py:399-400 | the `YYYY-MM-DD` text of a valid date, split on '-' and read through `int()` and `date()`, gives that date's day number |
| Restore.YearLength | crc-bank.py:276 | a year is 366 days long when it is a leap year and 365 days otherwise |
| Restore.NextDayOrdinal | crc-bank.py:276 | the day after a valid date is valid and has the next day number, so subtracting day numbers counts days |
| Restore.SplitPiece | crc-bank.py:399 | `split('-')` of a piece without '-' followed by '-' and a tail is that piece, then the tail's pieces |
| Restore.CoerceAllPrefix | crc-bank.py:397-401 | once one record fails to coerce, the whole coercion fails |
| Restore.LoadKeys | crc-bank.py:404 | the loaded table holds exactly the accounts of the rows |
| Restore.LoadFirst | crc-bank.py:404 | an account's lookup finds the entry of its first row |

## Left out

- Reading the clock (`date.today()`, `datetime.now()`). `today` is a parameter.
- The `sacctmgr` and `sshare` shell commands. The usage is a parameter, and hold, release and
  usage reset are returned as requests. The wording of the commands and the parsing of their
  output (`split('\n')[1]`) are not modelled.
- `check_account_and_cluster`, which runs before every command except `dump` and `repopulate`.
  It is a `sacctmgr` association lookup with no ledger logic, so it is not modelled.
- E-mail text, the recipient lookup through `sacctmgr ... format=description`, and SMTP
  delivery. Only the kind of each e-mail and the values it carries (begin date, percentage,
  end date) are kept.
- `log_action` appends to the log file.
- `docopt` argument parsing.
- The sqlite connection, and `dump` (`dataset.freeze`).
- In `repopulate`: the existence check on the file, the `y/N` prompt and the JSON loading. The
  records arrive already parsed.
- `repopulate` records whose limit is a JSON float. `int()` truncates those, but the model
  takes a limit as an integer, as text or as a JSON boolean (`int(True) == 1`).
- Restore.IntOf: `json.load` yields unicode strings, and `int()` of a unicode string also
  accepts non-ASCII decimal digits and Unicode whitespace such as U+00A0. The model reads only
  ASCII digits and ASCII whitespace, so such a backup becomes `FormatError` in the model. The
  same holds for the date pieces read by `Restore.ParseDate`.
- Limits.CheckServiceUnits: the `WARNING: Giving the group infinite SUs` message printed for a
  limit of -1 is output only, and the model drops it. The value is accepted, as in the source.
- Restore.Load: a backup may hold the same account twice. The table would then hold both
  rows, and `find_one` finds the first. The model keeps one entry per account, the first
  (`Restore.LoadFirst`). Updates that would touch every duplicate row are not modelled.
- Dates beyond 9999-12-31. `date + timedelta(365)` raises `OverflowError` past that point,
  but the model's day numbers are unbounded.
- `crc-sus.py` is not part of this model. It prints the stored limit after an existence
  check, which is what `Bank.Ledger.GetSus` models.
- The script looks the record up several times within one command (`find_one`). Nothing
  changes it in between, so the model reads it once.
- Bank.Ledger.Insert, Bank.Ledger.Modify and Bank.Ledger.Add: the `crc` table keeps
  `su_limit_hrs` in a 64-bit sqlite INTEGER. A limit outside -2^63 .. 2^63-1 therefore fails to
  store. That can be a validated value such as 9223372036854775808, or a sum made by `add`. The
  model's limits are unbounded, so it stores such a value and returns `Ok`.
