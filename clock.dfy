/**
 * The parts of Go's time package the paste lifecycle relies on: instants,
 * saturating subtraction, whole elapsed seconds, and the timestamp text
 * stored in expiration markers.
 *
 * An instant is a count of nanoseconds since Go's zero time,
 * January 1, year 1, 00:00:00 UTC, which is what a failed time.Parse yields.
 */
module Clock {
  import opened Wrappers
  import Decimal

  type Instant = int

  const ZeroTime: Instant := 0
  const Second: int := 1_000_000_000
  const Hour: int := 3600 * Second

  const MinInt64: int := -0x8000_0000_0000_0000
  const MaxInt64: int := 0x7fff_ffff_ffff_ffff

  predicate IsInt64(x: int) { MinInt64 <= x <= MaxInt64 }

  /** t.Sub(u): the difference as a Duration, saturating at the int64 range. */
  function Sub(t: Instant, u: Instant): (d: int)
    ensures IsInt64(d)
    ensures IsInt64(t - u) ==> d == t - u
    ensures t - u > MaxInt64 ==> d == MaxInt64
    ensures t - u < MinInt64 ==> d == MinInt64
  {
    if t - u > MaxInt64 then MaxInt64
    else if t - u < MinInt64 then MinInt64
    else t - u
  }

  /** A Duration divided by time.Second with Go's `/`, which truncates toward zero. */
  function WholeSeconds(d: int): (q: int)
    ensures d >= 0 ==> 0 <= q <= d && q * Second <= d < q * Second + Second
    ensures d < 0 ==> d <= q <= 0 && q * Second - Second < d <= q * Second
  {
    if d >= 0 then d / Second else -((-d) / Second)
  }

  /** int64(time.Since(t) / time.Second) evaluated at `now`. */
  function ElapsedSeconds(now: Instant, t: Instant): (since: int)
    ensures IsInt64(since)
  {
    WholeSeconds(Sub(now, t))
  }

  /**
   * More than `k` whole seconds have elapsed exactly when at least k + 1
   * full seconds separate the two instants: truncation means that a
   * fraction of a second never counts.
   */
  lemma ElapsedExceeds(now: Instant, t: Instant, k: nat)
    requires (k + 1) * Second <= MaxInt64
    ensures ElapsedSeconds(now, t) > k <==> now - t >= (k + 1) * Second
  {
  }

  /** Within the int64 range, the elapsed seconds are the truncated difference. */
  lemma ElapsedInRange(now: Instant, t: Instant)
    requires IsInt64(now - t)
    ensures now >= t ==> ElapsedSeconds(now, t) == (now - t) / Second
    ensures now < t ==> ElapsedSeconds(now, t) == -((t - now) / Second)
  {
  }

  /**
   * Timestamp text. The program writes time.RFC3339Nano; the model writes
   * the instant's decimal nanosecond count instead, a text with the
   * properties the lifecycle depends on (see the lemmas below).
   */
  function Format(t: Instant): (s: string)
    ensures |s| >= 1
    ensures forall i :: 0 <= i < |s| ==> s[i] != '\n'
    ensures s[0] == '-' || Decimal.IsDigit(s[0])
  {
    Decimal.IntToString(t)
  }

  /** time.Parse of a timestamp text; None is a parse error. */
  function Parse(s: string): (r: Option<Instant>)
    ensures s == [] ==> r == None
  {
    Decimal.ParseInt(s)
  }

  lemma ParseFormat(t: Instant)
    ensures Parse(Format(t)) == Some(t)
  {
    Decimal.ParseIntToString(t);
  }

  /** The instant a parse yields, Go's zero time when the text does not parse. */
  function ParsedOrZero(s: string): (t: Instant)
    ensures Parse(s).Some? ==> t == Parse(s).value
    ensures Parse(s).None? ==> t == ZeroTime
  {
    Parse(s).GetOr(ZeroTime)
  }
}
