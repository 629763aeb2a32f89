/**
 * The human-readable countdown shown beside a paste that has an absolute
 * expiry: abs and expirationHumanized.
 */
module Humanize {
  import Clock
  import Calendar
  import Decimal

  /** Two's-complement wrap-around of an int64 result. */
  function Wrap64(v: int): (w: int)
    ensures Clock.IsInt64(w)
    ensures Clock.IsInt64(v) ==> w == v
    ensures (v - w) % 0x1_0000_0000_0000_0000 == 0
  {
    (v - Clock.MinInt64) % 0x1_0000_0000_0000_0000 + Clock.MinInt64
  }

  /**
   * abs on int64. It is non-negative and leaves non-negative values alone,
   * except that negating the least int64 wraps around to that value itself.
   */
  function Abs(x: int): (r: int)
    requires Clock.IsInt64(x)
    ensures Clock.IsInt64(r)
    ensures x >= 0 ==> r == x
    ensures Clock.MinInt64 < x < 0 ==> r == -x
    ensures x == Clock.MinInt64 ==> r == x
  {
    if x < 0 then Wrap64(-x)
    else if x == 0 then 0
    else x
  }

  /** The band a countdown falls in, with the whole number of units shown. */
  datatype Countdown =
    | InSeconds(n: int)
    | InMinutes(n: int)
    | InHours(n: int)
    | InDays(n: int)
    | OnDate(date: Calendar.Date)

  const MinuteSeconds: int := 60
  const HourSeconds: int := 60 * 60
  const DaySeconds: int := 60 * 60 * 24
  const TenDaysSeconds: int := 60 * 60 * 24 * 10

  /**
   * The first band whose strict upper bound exceeds `a`; each shows the
   * number of whole units in `a`, and past ten days the date of `t`.
   */
  function Band(a: int, t: Clock.Instant): (c: Countdown)
    ensures c.InSeconds? <==> a < MinuteSeconds
    ensures c.InSeconds? ==> c.n == a
    ensures c.InMinutes? <==> MinuteSeconds <= a < HourSeconds
    ensures c.InMinutes? ==> 1 <= c.n < 60 && c.n * MinuteSeconds <= a < (c.n + 1) * MinuteSeconds
    ensures c.InHours? <==> HourSeconds <= a < DaySeconds
    ensures c.InHours? ==> 1 <= c.n < 24 && c.n * HourSeconds <= a < (c.n + 1) * HourSeconds
    ensures c.InDays? <==> DaySeconds <= a < TenDaysSeconds
    ensures c.InDays? ==> 1 <= c.n < 10 && c.n * DaySeconds <= a < (c.n + 1) * DaySeconds
    ensures c.OnDate? <==> a >= TenDaysSeconds
    ensures c.OnDate? ==> c.date == Calendar.DateOf(t) && Calendar.ValidDate(c.date)
  {
    if a < MinuteSeconds then InSeconds(a)
    else if a < HourSeconds then InMinutes(a / MinuteSeconds)
    else if a < DaySeconds then InHours(a / HourSeconds)
    else if a < TenDaysSeconds then InDays(a / DaySeconds)
    else OnDate(Calendar.DateOf(t))
  }

  /** The Sprintf formats of the five bands. */
  function Render(c: Countdown): (s: string)
    requires c.OnDate? ==> Calendar.ValidDate(c.date)
    ensures |s| >= 6
    ensures s[..3] == (if c.OnDate? then "on " else "in ")
  {
    match c
    case InSeconds(n) => "in " + Decimal.IntToString(n) + " s"
    case InMinutes(n) => "in " + Decimal.IntToString(n) + " m"
    case InHours(n) => "in " + Decimal.IntToString(n) + " h"
    case InDays(n) => "in " + Decimal.IntToString(n) + " day(s)"
    case OnDate(d) =>
      "on " + Calendar.MonthName(d.month) + " " + Decimal.IntToString(d.day)
      + ", " + Decimal.IntToString(d.year)
  }

  /**
   * expirationHumanized(since, t): a countdown "in ..." while |since| is under
   * ten days, the date "on ..." from then on, except for the least int64,
   * whose abs wraps to a negative number of seconds.
   */
  function ExpirationHumanized(since: int, t: Clock.Instant): (s: string)
    requires Clock.IsInt64(since)
    ensures |s| >= 6
    ensures s[..3] == "on " <==> since != Clock.MinInt64 && (since <= -TenDaysSeconds || since >= TenDaysSeconds)
  {
    Render(Band(Abs(since), t))
  }

  lemma SecondsBoundaries(t: Clock.Instant)
    ensures ExpirationHumanized(0, t) == "in 0 s"
    ensures ExpirationHumanized(59, t) == "in 59 s"
    ensures ExpirationHumanized(-59, t) == "in 59 s"
  {
    assert Decimal.IntToString(59) == "59";
  }

  lemma MinutesBoundaries(t: Clock.Instant)
    ensures ExpirationHumanized(60, t) == "in 1 m"
    ensures ExpirationHumanized(3599, t) == "in 59 m"
  {
    assert Decimal.IntToString(59) == "59";
  }

  lemma HoursBoundaries(t: Clock.Instant)
    ensures ExpirationHumanized(3600, t) == "in 1 h"
    ensures ExpirationHumanized(86399, t) == "in 23 h"
  {
    assert Decimal.IntToString(23) == "23";
  }

  lemma DaysBoundaries(t: Clock.Instant)
    ensures ExpirationHumanized(-86400, t) == "in 1 day(s)"
    ensures ExpirationHumanized(863999, t) == "in 9 day(s)"
  {
  }

  /** The boundary values: each threshold is a strict `<`. */
  lemma HumanizedBoundaries(t: Clock.Instant)
    ensures ExpirationHumanized(0, t) == "in 0 s"
    ensures ExpirationHumanized(59, t) == "in 59 s"
    ensures ExpirationHumanized(-59, t) == "in 59 s"
    ensures ExpirationHumanized(60, t) == "in 1 m"
    ensures ExpirationHumanized(3599, t) == "in 59 m"
    ensures ExpirationHumanized(3600, t) == "in 1 h"
    ensures ExpirationHumanized(86399, t) == "in 23 h"
    ensures ExpirationHumanized(-86400, t) == "in 1 day(s)"
    ensures ExpirationHumanized(863999, t) == "in 9 day(s)"
  {
    SecondsBoundaries(t);
    MinutesBoundaries(t);
    HoursBoundaries(t);
    DaysBoundaries(t);
  }

  /** The countdown depends on the size of `since`, not on its sign. */
  lemma HumanizedIgnoresSign(since: int, t: Clock.Instant)
    requires Clock.MinInt64 < since <= Clock.MaxInt64
    ensures ExpirationHumanized(since, t) == ExpirationHumanized(-since, t)
  {
  }

  predicate NoSpace(s: string) { forall i :: 0 <= i < |s| ==> s[i] != ' ' }

  lemma SplitAtSpace(x: string, u: string, y: string, v: string)
    requires NoSpace(x) && NoSpace(y)
    requires |u| >= 1 && u[0] == ' ' && |v| >= 1 && v[0] == ' '
    requires x + u == y + v
    ensures x == y && u == v
  {
    assert x == (x + u)[..|x|];
    assert y == (y + v)[..|y|];
  }

  function Unit(c: Countdown): string
    requires !c.OnDate?
  {
    match c
    case InSeconds(_) => " s"
    case InMinutes(_) => " m"
    case InHours(_) => " h"
    case InDays(_) => " day(s)"
  }

  /** A countdown's text is "in ", its number, and its unit. */
  lemma RenderCountdown(c: Countdown)
    requires !c.OnDate?
    ensures Render(c) == "in " + (Decimal.IntToString(c.n) + Unit(c))
  {
  }

  lemma UnitDetermines(c1: Countdown, c2: Countdown)
    requires !c1.OnDate? && !c2.OnDate?
    requires Unit(c1) == Unit(c2)
    ensures c1.InSeconds? == c2.InSeconds? && c1.InMinutes? == c2.InMinutes?
    ensures c1.InHours? == c2.InHours? && c1.InDays? == c2.InDays?
  {
    var u1, u2 := Unit(c1), Unit(c2);
    assert |u1| == |u2|;
    assert u1[|u1| - 1] == u2[|u2| - 1];
  }

  /**
   * Two countdowns shown the same way are the same countdown: the text
   * determines both the unit and the number of units.
   */
  lemma RenderInjective(c1: Countdown, c2: Countdown)
    requires !c1.OnDate? && !c2.OnDate?
    requires Render(c1) == Render(c2)
    ensures c1 == c2
  {
    var x, y := Decimal.IntToString(c1.n), Decimal.IntToString(c2.n);
    var r1, r2 := x + Unit(c1), y + Unit(c2);
    RenderCountdown(c1);
    RenderCountdown(c2);
    assert r1 == ("in " + r1)[3..];
    assert r2 == ("in " + r2)[3..];
    SplitAtSpace(x, Unit(c1), y, Unit(c2));
    Decimal.IntToStringInjective(c1.n, c2.n);
    UnitDetermines(c1, c2);
  }
}
