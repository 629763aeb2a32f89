/**
 * Expiration policy: the marker Paste.save writes for a policy name, how
 * pasteHandler reads a marker back, and the verdict it reaches at a given
 * instant.
 */
module Expiration {
  import opened Wrappers
  import Clock
  import Humanize

  const BurnPrefix: string := "burnAfterReading"
  const BurnTag: string := "burnAfterReading#"

  /** Seconds of grace during which a burn-after-reading paste survives a read. */
  const BurnGraceSeconds: nat := 10

  predicate HasPrefix(s: string, prefix: string) {
    |prefix| <= |s| && s[..|prefix|] == prefix
  }

  /** strings.TrimPrefix. */
  function TrimPrefix(s: string, prefix: string): (r: string)
    ensures HasPrefix(s, prefix) ==> s == prefix + r
    ensures !HasPrefix(s, prefix) ==> r == s
  {
    if HasPrefix(s, prefix) then s[|prefix|..] else s
  }

  /** How long a paste with an absolute-expiry policy lives; None for other names. */
  function Lifetime(policy: string): (d: Option<int>)
    ensures d.Some? ==> d.value >= 24 * Clock.Hour
  {
    if policy == "1_day" then Some(24 * Clock.Hour)
    else if policy == "1_month" then Some(30 * 24 * Clock.Hour)
    else if policy == "never" then Some(100 * 365 * 24 * Clock.Hour)
    else None
  }

  /**
   * The marker Paste.save stores: the creation instant behind a burn tag,
   * the expiry instant for the three lifetimes (now plus the lifetime), and
   * nothing for any other policy name.
   */
  function EncodeMarker(policy: string, now: Clock.Instant): (m: string)
    ensures forall i :: 0 <= i < |m| ==> m[i] != '\n'
  {
    if policy == "burnAfterReading" then BurnTag + Clock.Format(now)
    else match Lifetime(policy)
      case Some(d) => Clock.Format(now + d)
      case None => ""
  }

  /** A marker as pasteHandler understands it; None is a timestamp that does not parse. */
  datatype Marker = Burn(created: Option<Clock.Instant>) | Absolute(expiry: Option<Clock.Instant>)

  /**
   * Any marker beginning with "burnAfterReading" is a burn marker; its
   * timestamp follows the "burnAfterReading#" tag. Any other marker is an
   * absolute expiry timestamp.
   */
  function DecodeMarker(text: string): (m: Marker)
    ensures m.Burn? <==> HasPrefix(text, BurnPrefix)
  {
    if HasPrefix(text, BurnPrefix) then Burn(Clock.Parse(TrimPrefix(text, BurnTag)))
    else Absolute(Clock.Parse(text))
  }

  /** The instant a marker's timestamp denotes, Go's zero time when it does not parse. */
  function MarkerTime(m: Marker): Clock.Instant {
    match m
    case Burn(c) => c.GetOr(Clock.ZeroTime)
    case Absolute(e) => e.GetOr(Clock.ZeroTime)
  }

  /**
   * Reading back a stored marker recovers the policy and the instant:
   * creation time for burn-after-reading, now plus the lifetime for the
   * absolute policies, and an unparseable expiry for any other name.
   */
  lemma DecodeEncodeMarker(policy: string, now: Clock.Instant)
    ensures DecodeMarker(EncodeMarker(policy, now)) ==
      if policy == "burnAfterReading" then Burn(Some(now))
      else if Lifetime(policy).Some? then Absolute(Some(now + Lifetime(policy).value))
      else Absolute(None)
  {
    var text := EncodeMarker(policy, now);
    if policy == "burnAfterReading" {
      assert text[..|BurnPrefix|] == BurnPrefix;
      assert TrimPrefix(text, BurnTag) == Clock.Format(now);
      Clock.ParseFormat(now);
    } else if Lifetime(policy).Some? {
      var t := now + Lifetime(policy).value;
      assert text == Clock.Format(t);
      assert text[0] != BurnPrefix[0];
      Clock.ParseFormat(t);
    }
  }

  /** What pasteHandler decides about a loaded marker. */
  datatype Verdict =
    | Fresh(since: int, expiry: Clock.Instant)
    | Expired
    | BurnPending
    | BurnConsumed

  /**
   * Burn markers are consumed once more than BurnGraceSeconds whole seconds
   * have passed since creation; absolute markers expire once more than zero
   * whole seconds have passed since the expiry.
   */
  function Evaluate(m: Marker, now: Clock.Instant): (v: Verdict)
    ensures v.Fresh? ==> Clock.IsInt64(v.since) && v.since <= 0
  {
    var t := MarkerTime(m);
    var since := Clock.ElapsedSeconds(now, t);
    match m
    case Burn(_) => if since > BurnGraceSeconds then BurnConsumed else BurnPending
    case Absolute(_) => if since > 0 then Expired else Fresh(since, t)
  }

  /**
   * The thresholds in nanoseconds: a burn marker is consumed from eleven
   * full seconds after creation on, an absolute marker expires from one full
   * second after its expiry on, and until then it is fresh with that expiry.
   */
  lemma EvaluateThresholds(m: Marker, now: Clock.Instant)
    ensures m.Burn? ==> Evaluate(m, now).BurnConsumed? || Evaluate(m, now).BurnPending?
    ensures m.Burn? ==> (Evaluate(m, now).BurnConsumed? <==> now - MarkerTime(m) >= 11 * Clock.Second)
    ensures m.Absolute? ==> Evaluate(m, now).Expired? || Evaluate(m, now).Fresh?
    ensures m.Absolute? ==> (Evaluate(m, now).Expired? <==> now - MarkerTime(m) >= Clock.Second)
    ensures Evaluate(m, now).Fresh? ==> Evaluate(m, now).expiry == MarkerTime(m)
  {
  }

  /**
   * A marker whose timestamp does not parse reads as Go's zero time, so at
   * any instant at least eleven seconds after that it is stale: expired, or
   * a consumed burn marker.
   */
  lemma UnparseableIsStale(now: Clock.Instant)
    requires now >= 11 * Clock.Second
    ensures Evaluate(Absolute(None), now) == Expired
    ensures Evaluate(Burn(None), now) == BurnConsumed
  {
  }

  /**
   * A fresh absolute marker counts down the whole seconds left until its
   * expiry; within the first second past the expiry it still reads as fresh,
   * with nothing left.
   */
  lemma FreshCountdown(e: Clock.Instant, now: Clock.Instant)
    requires now - e < Clock.Second
    requires Clock.IsInt64(e - now)
    ensures Evaluate(Absolute(Some(e)), now).Fresh?
    ensures Evaluate(Absolute(Some(e)), now).expiry == e
    ensures Humanize.Abs(Evaluate(Absolute(Some(e)), now).since)
         == if now <= e then (e - now) / Clock.Second else 0
  {
  }
}
