/** The record coercion of `repopulate`: a backup record holds its period start as
    `YYYY-MM-DD` text and its limit as a JSON value; both become the ledger's
    representation (a day number and an integer) before the records are inserted. */
module Restore {
  import opened Types
  import opened Limits
  import opened Engine

  // ---- Calendar: Python's proleptic Gregorian day numbers ----

  predicate IsLeap(year: int)
  {
    year % 4 == 0 && (year % 100 != 0 || year % 400 == 0)
  }

  function DaysInMonth(year: int, month: int): int
    requires 1 <= month <= 12
  {
    if month == 2 then (if IsLeap(year) then 29 else 28)
    else if month == 4 || month == 6 || month == 9 || month == 11 then 30
    else 31
  }

  /** Days in the months of `year` before `month`. */
  function DaysBeforeMonth(year: int, month: int): int
    requires 1 <= month <= 12
  {
    [0, 0, 31, 59, 90, 120, 151, 181, 212, 243, 273, 304, 334][month]
      + (if month > 2 && IsLeap(year) then 1 else 0)
  }

  /** Days in the years before `year`, counted from 1 January of year 1. */
  function DaysBeforeYear(year: int): int
  {
    var y := year - 1;
    y * 365 + y / 4 - y / 100 + y / 400
  }

  /** The dates `datetime.date(year, month, day)` accepts. */
  predicate ValidDate(year: int, month: int, day: int)
  {
    1 <= year <= 9999 && 1 <= month <= 12 && 1 <= day <= DaysInMonth(year, month)
  }

  /** `date.toordinal()`: 1 January of year 1 is day 1. */
  function Ordinal(year: int, month: int, day: int): int
    requires ValidDate(year, month, day)
  {
    DaysBeforeYear(year) + DaysBeforeMonth(year, month) + day
  }

  /** The calendar day after a valid date. */
  function NextDay(year: int, month: int, day: int): (r: (int, int, int))
    requires ValidDate(year, month, day)
  {
    if day < DaysInMonth(year, month) then (year, month, day + 1)
    else if month < 12 then (year, month + 1, 1)
    else (year + 1, 1, 1)
  }

  lemma DivSucc(p: nat)
    ensures (p + 1) / 4 == p / 4 + (if (p + 1) % 4 == 0 then 1 else 0)
    ensures (p + 1) / 100 == p / 100 + (if (p + 1) % 100 == 0 then 1 else 0)
    ensures (p + 1) / 400 == p / 400 + (if (p + 1) % 400 == 0 then 1 else 0)
  {
  }

  lemma DivisibleBy(y: int)
    ensures y % 400 == 0 ==> y % 100 == 0
    ensures y % 100 == 0 ==> y % 4 == 0
  {
  }

  /** A year has 366 days when it is a leap year and 365 otherwise. */
  lemma YearLength(year: int)
    requires year >= 1
    ensures DaysBeforeYear(year + 1) == DaysBeforeYear(year) + (if IsLeap(year) then 366 else 365)
  {
    DivSucc(year - 1);
    DivisibleBy(year);
  }

  /** Consecutive calendar days have consecutive day numbers, so subtracting two
      day numbers gives the days between the dates, as `date - date` does. */
  lemma {:induction false} NextDayOrdinal(year: int, month: int, day: int)
    requires ValidDate(year, month, day) && year < 9999
    ensures var (y, m, d) := NextDay(year, month, day);
            ValidDate(y, m, d) && Ordinal(y, m, d) == Ordinal(year, month, day) + 1
  {
    if day == DaysInMonth(year, month) && month == 12 {
      YearLength(year);
    }
  }

  // ---- Text ----

  /** `s.split(sep)` in Python: the pieces between separators, empty ones included. */
  function Split(s: string, sep: char): (parts: seq<string>)
    ensures |parts| >= 1
  {
    if s == [] then [[]]
    else
      var rest := Split(s[1..], sep);
      if s[0] == sep then [[]] + rest else [[s[0]] + rest[0]] + rest[1..]
  }

  lemma {:induction false} SplitPiece(piece: string, sep: char, tail: string)
    requires sep !in piece
    ensures Split(piece + [sep] + tail, sep) == [piece] + Split(tail, sep)
  {
    if piece != [] {
      assert piece[0] != sep;
      assert (piece + [sep] + tail)[0] == piece[0];
      assert (piece + [sep] + tail)[1..] == piece[1..] + [sep] + tail;
      SplitPiece(piece[1..], sep, tail);
      assert [piece[0]] + piece[1..] == piece;
    } else {
      assert (piece + [sep] + tail)[1..] == tail;
    }
  }

  lemma {:induction false} SplitWhole(piece: string, sep: char)
    requires sep !in piece
    ensures Split(piece, sep) == [piece]
  {
    if piece != [] {
      assert piece[0] != sep;
      SplitWhole(piece[1..], sep);
      assert [piece[0]] + piece[1..] == piece;
    }
  }

  /** `[int(x) for x in parts]`; None as soon as one part is not an integer. */
  function ParseInts(parts: seq<string>): (r: Option<seq<int>>)
    ensures r.Some? ==> |r.value| == |parts|
  {
    if parts == [] then Some([])
    else
      var head, tail := ParseInt(parts[0]), ParseInts(parts[1..]);
      if head.Some? && tail.Some? then Some([head.value] + tail.value) else None
  }

  /** The backup's date text to a day number: split on '-', every piece through
      `int()`, the first three through `datetime.date`. */
  function ParseDate(text: string): Result<int>
  {
    match ParseInts(Split(text, '-'))
    case None => Err(FormatError)
    case Some(ns) =>
      if |ns| < 3 || !ValidDate(ns[0], ns[1], ns[2]) then Err(FormatError)
      else Ok(Ordinal(ns[0], ns[1], ns[2]))
  }

  /** `n` in at least `width` digits, padded with leading zeros. */
  function Padded(n: nat, width: nat): (s: string)
    ensures IsDigits(s)
  {
    var digits := NatText(n);
    if |digits| >= width then digits else seq(width - |digits|, _ => '0') + digits
  }

  /** A date as `date.isoformat()` writes it, which is how a backup stores it. */
  function IsoText(year: int, month: int, day: int): string
    requires ValidDate(year, month, day)
  {
    Padded(year, 4) + "-" + Padded(month, 2) + "-" + Padded(day, 2)
  }

  lemma ParsePadded(n: nat, width: nat)
    ensures ParseInt(Padded(n, width)) == Some(n)
    ensures '-' !in Padded(n, width)
  {
    var digits := NatText(n);
    NatTextRoundTrip(n);
    if |digits| < width {
      LeadingZeros(seq(width - |digits|, _ => '0'), digits);
    }
    ParseDigits(Padded(n, width));
    assert forall i :: 0 <= i < |Padded(n, width)| ==> Padded(n, width)[i] != '-';
  }

  /** The three pieces of a date text, split on '-'. */
  lemma SplitIso(a: string, b: string, c: string)
    requires '-' !in a && '-' !in b && '-' !in c
    ensures Split(a + "-" + b + "-" + c, '-') == [a, b, c]
  {
    assert a + "-" + b + "-" + c == a + ['-'] + (b + ['-'] + c);
    SplitPiece(a, '-', b + ['-'] + c);
    SplitPiece(b, '-', c);
    SplitWhole(c, '-');
  }

  lemma ParseThree(a: string, b: string, c: string, x: int, y: int, z: int)
    requires ParseInt(a) == Some(x) && ParseInt(b) == Some(y) && ParseInt(c) == Some(z)
    ensures ParseInts([a, b, c]) == Some([x, y, z])
  {
    assert [c][1..] == [] && [z] + [] == [z];
    assert ParseInts([c]) == Some([z]);
    assert [b, c][1..] == [c] && [y] + [z] == [y, z];
    assert ParseInts([b, c]) == Some([y, z]);
    assert [a, b, c][1..] == [b, c] && [x] + [y, z] == [x, y, z];
  }

  /** Reading back the text form of a valid date gives its day number. */
  lemma IsoTextRoundTrip(year: int, month: int, day: int)
    requires ValidDate(year, month, day)
    ensures ParseDate(IsoText(year, month, day)) == Ok(Ordinal(year, month, day))
  {
    var a, b, c := Padded(year, 4), Padded(month, 2), Padded(day, 2);
    ParsePadded(year, 4);
    ParsePadded(month, 2);
    ParsePadded(day, 2);
    SplitIso(a, b, c);
    ParseThree(a, b, c, year, month, day);
  }

  // ---- Records ----

  /** A JSON value in the `su_limit_hrs` field. */
  datatype RawValue = Number(n: int) | Text(s: string) | Flag(b: bool)

  /** One record of the backup's `results` list; a missing field is None. */
  datatype RawItem = RawItem(
    account: string,
    suLimitHrs: Option<RawValue>,
    date: Option<string>,
    percentInformed: bool,
    limitInformed: bool)

  /** A coerced record, ready to be inserted. */
  datatype Row = Row(account: string, entry: Entry)

  /** `int(value)`: a number as it is, text through `int()` of a string, a boolean as 1 or 0. */
  function IntOf(v: RawValue): Option<int>
  {
    match v
    case Number(n) => Some(n)
    case Text(s) => ParseInt(s)
    case Flag(b) => Some(if b then 1 else 0)
  }

  /** The coercion of one backup record; a missing or unreadable date or limit is a FormatError. */
  function Coerce(item: RawItem): (r: Result<Row>)
    ensures r.Ok? <==> item.date.Some? && item.suLimitHrs.Some?
                       && ParseDate(item.date.value).Ok? && IntOf(item.suLimitHrs.value).Some?
    ensures r.Err? ==> r.error == FormatError
    ensures r.Ok? ==> r.value.entry.date == ParseDate(item.date.value).value
                      && r.value.entry.suLimitHrs == IntOf(item.suLimitHrs.value).value
    ensures r.Ok? ==> r.value.account == item.account
    ensures r.Ok? ==> r.value.entry.percentInformed == item.percentInformed
                      && r.value.entry.limitInformed == item.limitInformed
  {
    if item.date.None? || item.suLimitHrs.None? then Err(FormatError)
    else match (ParseDate(item.date.value), IntOf(item.suLimitHrs.value))
      case (Ok(day), Some(limit)) =>
        Ok(Row(item.account, Entry(limit, day, item.percentInformed, item.limitInformed)))
      case _ => Err(FormatError)
  }

  /** A ledger record written out as a backup record reads back as itself. */
  lemma CoerceRoundTrip(account: string, limit: int, year: int, month: int, day: int, pi: bool, li: bool)
    requires ValidDate(year, month, day)
    ensures Coerce(RawItem(account, Some(Number(limit)), Some(IsoText(year, month, day)), pi, li))
            == Ok(Row(account, Entry(limit, Ordinal(year, month, day), pi, li)))
  {
    IsoTextRoundTrip(year, month, day);
  }

  /** The coercion loop over every record; the first failure stops it. */
  function CoerceAll(items: seq<RawItem>): (r: Result<seq<Row>>)
    ensures r.Ok? ==> |r.value| == |items|
  {
    if items == [] then Ok([])
    else match (CoerceAll(items[..|items| - 1]), Coerce(items[|items| - 1]))
      case (Ok(rows), Ok(row)) => Ok(rows + [row])
      case _ => Err(FormatError)
  }

  /** Once a prefix of the records fails to coerce, the whole list does. */
  lemma {:induction false} CoerceAllPrefix(items: seq<RawItem>, i: nat)
    requires i <= |items| && CoerceAll(items[..i]).Err?
    ensures CoerceAll(items).Err?
  {
    if i < |items| {
      assert items[..|items| - 1][..i] == items[..i];
      CoerceAllPrefix(items[..|items| - 1], i);
    } else {
      assert items[..i] == items;
    }
  }

  /** The ledger the inserted rows form; an account looked up finds its first row. */
  function Load(rows: seq<Row>): map<string, Entry>
  {
    if rows == [] then map[]
    else
      var m := Load(rows[..|rows| - 1]);
      var last := rows[|rows| - 1];
      if last.account in m then m else m[last.account := last.entry]
  }

  /** The loaded ledger holds exactly the accounts of the rows. */
  lemma {:induction false} LoadKeys(rows: seq<Row>, a: string)
    ensures a in Load(rows) <==> exists i :: 0 <= i < |rows| && rows[i].account == a
  {
    if rows != [] {
      var init := rows[..|rows| - 1];
      LoadKeys(init, a);
      if a in Load(init) {
        var i :| 0 <= i < |init| && init[i].account == a;
        assert rows[i].account == a;
      }
      if exists i :: 0 <= i < |rows| && rows[i].account == a {
        var i :| 0 <= i < |rows| && rows[i].account == a;
        if i < |init| {
          assert init[i].account == a;
        }
      }
    }
  }

  /** An account of the loaded ledger holds the entry of its first row. */
  lemma {:induction false} LoadFirst(rows: seq<Row>, i: nat)
    requires i < |rows|
    requires forall j :: 0 <= j < i ==> rows[j].account != rows[i].account
    ensures rows[i].account in Load(rows) && Load(rows)[rows[i].account] == rows[i].entry
  {
    var init := rows[..|rows| - 1];
    if i < |init| {
      LoadFirst(init, i);
    } else {
      assert forall j :: 0 <= j < |init| ==> init[j].account != rows[i].account;
      LoadKeys(init, rows[i].account);
    }
  }
}
