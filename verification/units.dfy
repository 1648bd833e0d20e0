/** Unit conversion and percentage arithmetic used by the usage checks.
    Python 2 divides integers by rounding toward negative infinity; Dafny's `/`
    is Euclidean, which agrees only for a positive divisor, so the floor is
    written out where the divisor (a stored limit) can be negative. */
module Units {

  /** Raw usage is reported in CPU-seconds; limits are in CPU-hours. */
  const SecondsPerHour := 60 * 60

  /** Python 2 integer division `a / b`: the largest q with q * b <= a (b > 0),
      or the smallest-in-magnitude bound for a negative divisor. */
  function FloorDiv(a: int, b: int): (q: int)
    requires b != 0
    ensures b > 0 ==> b * q <= a < b * q + b
    ensures b < 0 ==> b * q >= a > b * q + b
  {
    if b > 0 then a / b else (-a) / (-b)
  }

  /** The raw usage summed over `clusters` in list order, one query per cluster. */
  function RawTotal(clusters: seq<string>, rawUsage: string -> int): int
  {
    if clusters == [] then 0
    else RawTotal(clusters[..|clusters| - 1], rawUsage) + rawUsage(clusters[|clusters| - 1])
  }

  /** The loop that accumulates `raw_usage` over CLUSTERS. */
  method TotalRawUsage(clusters: seq<string>, rawUsage: string -> int) returns (total: int)
    ensures total == RawTotal(clusters, rawUsage)
  {
    total := 0;
    for i := 0 to |clusters|
      invariant total == RawTotal(clusters[..i], rawUsage)
    {
      assert clusters[..i + 1][..i] == clusters[..i];
      total := total + rawUsage(clusters[i]);
    }
    assert clusters[..|clusters|] == clusters;
  }

  /** Whole CPU-hours in a number of CPU-seconds, rounded down (`raw_usage /= (60 * 60)`). */
  function Hours(seconds: int): (h: int)
    ensures SecondsPerHour * h <= seconds < SecondsPerHour * h + SecondsPerHour
  {
    FloorDiv(seconds, SecondsPerHour)
  }

  /** The usage as a percentage of the limit, rounded down; 0 for the limits 0 and -1. */
  function Percent(usage: int, limit: int): (p: int)
    ensures limit == 0 || limit == -1 ==> p == 0
    ensures limit > 0 ==> limit * p <= 100 * usage < limit * p + limit
    ensures limit < -1 ==> limit * p >= 100 * usage > limit * p + limit
  {
    if limit == 0 || limit == -1 then 0 else FloorDiv(100 * usage, limit)
  }

  lemma MulMonotone(a: int, x: int, y: int)
    requires a >= 0 && x <= y
    ensures a * x <= a * y
  {
    assert a * y - a * x == a * (y - x);
  }

  /** A positive factor can be cancelled from a strict inequality. */
  lemma MulCancelStrict(a: int, x: int, y: int)
    requires a > 0 && a * x < a * y
    ensures x < y
  {
    if x >= y {
      MulMonotone(a, y, x);
    }
  }

  /** The bounds in FloorDiv's contract determine the quotient. */
  lemma FloorUnique(a: int, b: int, q: int)
    requires b > 0 && b * q <= a < b * q + b
    ensures FloorDiv(a, b) == q
  {
    var r := FloorDiv(a, b);
    assert b * (q + 1) == b * q + b && b * (r + 1) == b * r + b;
    MulCancelStrict(b, r, q + 1);
    MulCancelStrict(b, q, r + 1);
  }

  /** For a positive limit the rounded-down percentage reaches 90 exactly when
      the usage is at least 90% of the limit, with no rounding involved. */
  lemma NearLimitThreshold(usage: int, limit: int)
    requires limit > 0
    ensures Percent(usage, limit) >= 90 <==> 100 * usage >= 90 * limit
  {
    var p := Percent(usage, limit);
    if p >= 90 {
      MulMonotone(limit, 90, p);
    } else {
      MulMonotone(limit, p + 1, 90);
      assert limit * (p + 1) == limit * p + limit;
    }
  }

  /** A usage between 0 and a positive limit is between 0 and 100 percent. */
  lemma PercentWithinLimit(usage: int, limit: int)
    requires limit > 0 && 0 <= usage <= limit
    ensures 0 <= Percent(usage, limit) <= 100
  {
    var p := Percent(usage, limit);
    assert limit * (p + 1) == limit * p + limit;
    if p + 1 <= 0 {
      MulMonotone(limit, p + 1, 0);
    }
    if p > 100 {
      MulMonotone(limit, 101, p);
    }
  }
}
