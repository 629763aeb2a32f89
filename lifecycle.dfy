/**
 * The paste lifecycle end to end: what a retrieval sees of a paste that a
 * creation has just stored, for each expiration policy.
 */
module Lifecycle {
  import opened Wrappers
  import Clock
  import Calendar
  import Identifier
  import Expiration
  import Humanize
  import Record
  import PasteStore

  /**
   * Every identifier a creation hands out is 27 alphabet characters, so it
   * passes the retrieval's identifier check, names the entry just written,
   * and still determines the content digest.
   */
  lemma CreatedIdAccepted(files: map<string, string>, content: string, policy: string,
                          now: Clock.Instant, maxSize: int, hash: string -> seq<Identifier.byte>)
    requires |hash(content)| == 20
    requires !PasteStore.TooBig(content, maxSize)
    ensures var c := PasteStore.CreateSpec(files, content, policy, now, maxSize, true, hash);
      && c.0.Created?
      && |c.0.id| == 27 && Identifier.ValidId(c.0.id) && c.0.id in c.1
      && Identifier.DecodeId(c.0.id) == hash(content)
  {
    Identifier.DecodeDerivedId(hash(content));
    Identifier.DerivedIdShape(hash(content));
  }

  /**
   * The stored file reads back as the marker written for the policy, and as
   * the content if and only if the content holds no newline; otherwise only
   * the content's first line comes back.
   */
  lemma StoredPasteRoundTrip(files: map<string, string>, content: string, policy: string,
                             now: Clock.Instant, maxSize: int, hash: string -> seq<Identifier.byte>)
    requires |hash(content)| == 20
    requires !PasteStore.TooBig(content, maxSize)
    ensures var c := PasteStore.CreateSpec(files, content, policy, now, maxSize, true, hash);
      var p := Record.ParseRecord(c.0.id, c.1[c.0.id]);
      && p.expiration == Expiration.EncodeMarker(policy, now)
      && p.content == Record.FirstLine(content)
      && (p.content == content <==> '\n' !in content)
  {
    var c := PasteStore.CreateSpec(files, content, policy, now, maxSize, true, hash);
    Record.RecordRoundTrip(c.0.id, Expiration.EncodeMarker(policy, now), content);
    Record.FirstLineExact(content);
  }

  /**
   * A paste created with a lifetime policy is shown, kept, with its
   * countdown, until one full second past its expiry; from then on the
   * retrieval finds it expired, removes its file and reports not-found.
   */
  lemma CreateThenGetAbsolute(files: map<string, string>, content: string, policy: string,
                              now: Clock.Instant, later: Clock.Instant, maxSize: int,
                              hash: string -> seq<Identifier.byte>)
    requires |hash(content)| == 20
    requires !PasteStore.TooBig(content, maxSize)
    requires Expiration.Lifetime(policy).Some?
    ensures var c := PasteStore.CreateSpec(files, content, policy, now, maxSize, true, hash);
      var id := c.0.id;
      var e := now + Expiration.Lifetime(policy).value;
      var p := Record.Paste(Expiration.EncodeMarker(policy, now), Record.FirstLine(content), id);
      && (later - e >= Clock.Second ==>
            PasteStore.GetSpec(c.1, id, later) == (PasteStore.NotFound, c.1 - {id}))
      && (later - e < Clock.Second ==>
            PasteStore.GetSpec(c.1, id, later) ==
              (PasteStore.Shown(p, true, false,
                 Humanize.ExpirationHumanized(Clock.ElapsedSeconds(later, e), e)), c.1))
  {
    var c := PasteStore.CreateSpec(files, content, policy, now, maxSize, true, hash);
    var e := now + Expiration.Lifetime(policy).value;
    Identifier.DerivedIdShape(hash(content));
    StoredPasteRoundTrip(files, content, policy, now, maxSize, hash);
    Expiration.DecodeEncodeMarker(policy, now);
    Expiration.EvaluateThresholds(Expiration.Absolute(Some(e)), later);
    if later - e >= Clock.Second {
      assert Expiration.Evaluate(Expiration.Absolute(Some(e)), later) == Expiration.Expired;
    } else {
      assert Expiration.Evaluate(Expiration.Absolute(Some(e)), later)
          == Expiration.Fresh(Clock.ElapsedSeconds(later, e), e);
    }
  }

  /**
   * A burn-after-reading paste is shown and kept while fewer than eleven
   * full seconds have passed since its creation. The first retrieval after
   * that still shows it, with keepAlive cleared, and removes its file, so
   * every later retrieval reports not-found.
   */
  lemma CreateThenGetBurn(files: map<string, string>, content: string,
                          now: Clock.Instant, later: Clock.Instant, afterwards: Clock.Instant,
                          maxSize: int, hash: string -> seq<Identifier.byte>)
    requires |hash(content)| == 20
    requires !PasteStore.TooBig(content, maxSize)
    ensures var c := PasteStore.CreateSpec(files, content, "burnAfterReading", now, maxSize, true, hash);
      var id := c.0.id;
      var p := Record.Paste(Expiration.EncodeMarker("burnAfterReading", now), Record.FirstLine(content), id);
      var g := PasteStore.GetSpec(c.1, id, later);
      && (later - now < 11 * Clock.Second ==> g == (PasteStore.Shown(p, true, true, ""), c.1))
      && (later - now >= 11 * Clock.Second ==>
            && g == (PasteStore.Shown(p, false, true, ""), c.1 - {id})
            && PasteStore.GetSpec(g.1, id, afterwards) == (PasteStore.NotFound, g.1))
  {
    var c := PasteStore.CreateSpec(files, content, "burnAfterReading", now, maxSize, true, hash);
    CreatedIdAccepted(files, content, "burnAfterReading", now, maxSize, hash);
    StoredPasteRoundTrip(files, content, "burnAfterReading", now, maxSize, hash);
    Expiration.DecodeEncodeMarker("burnAfterReading", now);
    Expiration.EvaluateThresholds(Expiration.Burn(Some(now)), later);
  }

  /**
   * A policy name the creation does not recognise stores an empty marker,
   * which reads as Go's zero time: any retrieval at least a second after
   * that instant finds the paste expired and removes it.
   */
  lemma CreateWithUnknownPolicy(files: map<string, string>, content: string, policy: string,
                                now: Clock.Instant, later: Clock.Instant, maxSize: int,
                                hash: string -> seq<Identifier.byte>)
    requires |hash(content)| == 20
    requires !PasteStore.TooBig(content, maxSize)
    requires policy != "burnAfterReading" && Expiration.Lifetime(policy).None?
    requires later >= Clock.Second
    ensures var c := PasteStore.CreateSpec(files, content, policy, now, maxSize, true, hash);
      PasteStore.GetSpec(c.1, c.0.id, later) == (PasteStore.NotFound, c.1 - {c.0.id})
  {
    Identifier.DerivedIdShape(hash(content));
    StoredPasteRoundTrip(files, content, policy, now, maxSize, hash);
    Expiration.DecodeEncodeMarker(policy, now);
    assert Expiration.Evaluate(Expiration.Absolute(None), later) == Expiration.Expired;
  }

  /**
   * Creating a one-line paste with the one-day policy and reading it at the
   * same instant shows the content unchanged, kept, not burn-after-reading,
   * expiring "in 1 day(s)".
   */
  lemma OneDayPasteRightAfterCreation(files: map<string, string>, content: string,
                                      now: Clock.Instant, maxSize: int,
                                      hash: string -> seq<Identifier.byte>)
    requires |hash(content)| == 20
    requires !PasteStore.TooBig(content, maxSize)
    requires '\n' !in content
    ensures var c := PasteStore.CreateSpec(files, content, "1_day", now, maxSize, true, hash);
      var g := PasteStore.GetSpec(c.1, c.0.id, now);
      && g.1 == c.1
      && g.0.Shown? && g.0.paste.content == content && g.0.keepAlive && !g.0.burnAfterReading
      && g.0.humanizedExpiration == "in 1 day(s)"
  {
    var e := now + 24 * Clock.Hour;
    CreateThenGetAbsolute(files, content, "1_day", now, now, maxSize, hash);
    Record.FirstLineExact(content);
    Clock.ElapsedInRange(now, e);
    assert Clock.ElapsedSeconds(now, e) == -86400;
    Humanize.HumanizedBoundaries(e);
  }

  /**
   * A paste created with the "never" policy expires a hundred 365-day years
   * later; read right after creation it shows the calendar date of that
   * expiry instead of a countdown.
   */
  lemma NeverPasteRightAfterCreation(files: map<string, string>, content: string,
                                     now: Clock.Instant, maxSize: int,
                                     hash: string -> seq<Identifier.byte>)
    requires |hash(content)| == 20
    requires !PasteStore.TooBig(content, maxSize)
    ensures var c := PasteStore.CreateSpec(files, content, "never", now, maxSize, true, hash);
      var e := now + 100 * 365 * 24 * Clock.Hour;
      var g := PasteStore.GetSpec(c.1, c.0.id, now);
      && g.1 == c.1
      && g.0.Shown? && g.0.keepAlive && !g.0.burnAfterReading
      && g.0.humanizedExpiration == Humanize.Render(Humanize.OnDate(Calendar.DateOf(e)))
  {
    var c := PasteStore.CreateSpec(files, content, "never", now, maxSize, true, hash);
    var e := now + 100 * 365 * 24 * Clock.Hour;
    var lifetime := Expiration.Lifetime("never").value;
    assert lifetime == 100 * 365 * 24 * Clock.Hour;
    assert now - (now + lifetime) < Clock.Second;
    CreateThenGetAbsolute(files, content, "never", now, now, maxSize, hash);
    var p := Record.Paste(Expiration.EncodeMarker("never", now), Record.FirstLine(content), c.0.id);
    var h := Humanize.ExpirationHumanized(Clock.ElapsedSeconds(now, now + lifetime), now + lifetime);
    var g := PasteStore.GetSpec(c.1, c.0.id, now);
    assert g == (PasteStore.Shown(p, true, false, h), c.1);
    CenturyAheadShowsDate(now);
    assert g.0.humanizedExpiration == Humanize.Render(Humanize.OnDate(Calendar.DateOf(e)));
  }

  /** An expiry a hundred 365-day years ahead is far past ten days, so it reads as its date. */
  lemma CenturyAheadShowsDate(now: Clock.Instant)
    ensures var e := now + 100 * 365 * 24 * Clock.Hour;
      Humanize.ExpirationHumanized(Clock.ElapsedSeconds(now, e), e)
        == Humanize.Render(Humanize.OnDate(Calendar.DateOf(e)))
  {
    var e := now + 100 * 365 * 24 * Clock.Hour;
    assert e - now == 3_153_600_000_000_000_000;
    Clock.ElapsedInRange(now, e);
    var since := Clock.ElapsedSeconds(now, e);
    assert since == -3153600000;
    assert Humanize.Abs(since) == 3153600000;
    var band := Humanize.Band(3153600000, e);
    assert band == Humanize.OnDate(Calendar.DateOf(e));
  }
}
