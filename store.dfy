/**
 * The paste store: createHandler with Paste.save, and pasteHandler with
 * Paste.load and Paste.delete, over the directory of paste files.
 *
 * The directory ./pastes is a map from identifier to file text (the file
 * of identifier `id` is `id.txt`). The current instant, the content digest
 * and the outcome of the captcha check are parameters.
 */
module PasteStore {
  import opened Wrappers
  import Clock
  import Identifier
  import Expiration
  import Humanize
  import Record

  const TooBigMessage: string := "Content too big"

  /** What createHandler answers. */
  datatype CreateOutcome =
    | Created(id: string)
    | Failed(message: string)
    | CaptchaRejected

  /** What pasteHandler renders: the 404 page, or the paste with its flags. */
  datatype GetOutcome =
    | NotFound
    | Shown(paste: Record.Paste, keepAlive: bool, burnAfterReading: bool, humanizedExpiration: string)

  /** The size gate: half the content's length against the configured maximum. */
  predicate TooBig(content: string, maxSize: int)
    ensures TooBig(content, maxSize) <==> |content| >= 2 * maxSize + 2
  {
    |content| / 2 > maxSize
  }

  /**
   * Creation on a store value. A rejected creation leaves the store alone;
   * an accepted one writes exactly the entry of the derived identifier,
   * replacing whatever was there.
   */
  function CreateSpec(files: map<string, string>, content: string, policy: string,
                      now: Clock.Instant, maxSize: int, captchaPassed: bool,
                      hash: string -> seq<Identifier.byte>): (r: (CreateOutcome, map<string, string>))
    requires |hash(content)| == 20
    ensures r.0.Created? <==> captchaPassed && !TooBig(content, maxSize)
    ensures r.0.Failed? <==> captchaPassed && TooBig(content, maxSize)
    ensures r.0.Failed? ==> r.0.message == TooBigMessage
    ensures !r.0.Created? ==> r.1 == files
    ensures r.0.Created? ==> r.0.id == Identifier.DeriveId(hash(content))
    ensures r.0.Created? ==> r.1.Keys == files.Keys + {r.0.id}
    ensures r.0.Created? ==> forall k :: k in files && k != r.0.id ==> r.1[k] == files[k]
    ensures r.0.Created? ==> r.1[r.0.id] == Record.FileText(Expiration.EncodeMarker(policy, now), content)
  {
    if !captchaPassed then (CaptchaRejected, files)
    else
      var id := Identifier.DeriveId(hash(content));
      if TooBig(content, maxSize) then (Failed(TooBigMessage), files)
      else (Created(id), files[id := Record.FileText(Expiration.EncodeMarker(policy, now), content)])
  }

  /**
   * Retrieval on a store value. It removes at most the one entry it reads;
   * a shown paste is the parsed file, kept exactly when keepAlive is set;
   * only burn-after-reading pastes can be shown and removed, and they carry
   * no countdown.
   */
  function GetSpec(files: map<string, string>, id: string, now: Clock.Instant): (r: (GetOutcome, map<string, string>))
    ensures !Identifier.ValidId(id) || id !in files ==> r == (NotFound, files)
    ensures r.1 == files || (id in files && r.1 == files - {id})
    ensures r.0.Shown? ==> id in files && r.0.paste == Record.ParseRecord(id, files[id])
    ensures r.0.Shown? ==> (r.0.keepAlive <==> r.1 == files)
    ensures r.0.Shown? && !r.0.keepAlive ==> r.0.burnAfterReading
    ensures r.0.Shown? && r.0.burnAfterReading ==> r.0.humanizedExpiration == ""
  {
    if !Identifier.ValidId(id) || id !in files then (NotFound, files)
    else
      var p := Record.ParseRecord(id, files[id]);
      match Expiration.Evaluate(Expiration.DecodeMarker(p.expiration), now)
      case BurnPending => (Shown(p, true, true, ""), files)
      case BurnConsumed => (Shown(p, false, true, ""), files - {id})
      case Expired => (NotFound, files - {id})
      case Fresh(since, t) => (Shown(p, true, false, Humanize.ExpirationHumanized(since, t)), files)
  }

  class Store {
    /** The paste files, by identifier. */
    var files: map<string, string>

    constructor ()
      ensures files == map[]
    {
      files := map[];
    }

    /** Paste.save: write the marker line and the content line under the identifier. */
    method Save(id: string, policy: string, content: string, now: Clock.Instant)
      modifies this
      ensures files == old(files)[id := Record.FileText(Expiration.EncodeMarker(policy, now), content)]
    {
      var expiration := Expiration.EncodeMarker(policy, now);
      files := files[id := Record.FileText(expiration, content)];
    }

    /** Paste.load: read the file and take its first two lines; None when there is no file. */
    method Load(id: string) returns (r: Option<Record.Paste>)
      ensures id in files ==> r == Some(Record.ParseRecord(id, files[id]))
      ensures id !in files ==> r == None
    {
      if id !in files {
        return None;
      }
      var lines := Record.Split(files[id]);
      var expiration, content := "", "";
      var i := 0;
      while i < |lines|
        invariant 0 <= i <= |lines|
        invariant expiration == if i >= 1 then lines[0] else ""
        invariant content == if i >= 2 then lines[1] else ""
      {
        if i == 0 {
          expiration := lines[i];
        } else if i == 1 {
          content := lines[i];
        }
        i := i + 1;
      }
      r := Some(Record.Paste(expiration, content, id));
    }

    /** Paste.delete: remove the file; `existed` is false where os.Remove reports an error. */
    method Delete(id: string) returns (existed: bool)
      modifies this
      ensures existed == (id in old(files))
      ensures files == old(files) - {id}
    {
      existed := id in files;
      files := files - {id};
    }

    /** createHandler for a POST request. */
    method Create(content: string, policy: string, now: Clock.Instant, maxSize: int,
                  captchaPassed: bool, hash: string -> seq<Identifier.byte>) returns (r: CreateOutcome)
      requires |hash(content)| == 20
      modifies this
      ensures (r, files) == CreateSpec(old(files), content, policy, now, maxSize, captchaPassed, hash)
    {
      if !captchaPassed {
        return CaptchaRejected;
      }
      var uuid := Identifier.Base64Url(hash(content));
      uuid := Identifier.TrimSuffix(uuid, "=");
      uuid := Identifier.ReplaceAll(uuid, '/', '-');
      if TooBig(content, maxSize) {
        return Failed(TooBigMessage);
      }
      Save(uuid, policy, content, now);
      r := Created(uuid);
    }

    /** pasteHandler for the identifier taken from the request path. */
    method Get(id: string, now: Clock.Instant) returns (r: GetOutcome)
      modifies this
      ensures (r, files) == GetSpec(old(files), id, now)
    {
      var keepAlive := false;
      var burnAfterReading := false;
      var humanizedExpiration := "";
      if !Identifier.ValidId(id) {
        return NotFound;
      }
      var loaded := Load(id);
      if loaded.None? {
        return NotFound;
      }
      var paste := loaded.value;
      if Expiration.HasPrefix(paste.expiration, Expiration.BurnPrefix) {
        burnAfterReading := true;
        keepAlive := true;
        var keepAliveTimestamp := Expiration.TrimPrefix(paste.expiration, Expiration.BurnTag);
        var t := Clock.ParsedOrZero(keepAliveTimestamp);
        var since := Clock.ElapsedSeconds(now, t);
        if since > Expiration.BurnGraceSeconds {
          keepAlive := false;
          var _ := Delete(id);
        }
      } else {
        keepAlive := true;
        var t := Clock.ParsedOrZero(paste.expiration);
        var since := Clock.ElapsedSeconds(now, t);
        if since > 0 {
          keepAlive := false;
          var _ := Delete(id);
          return NotFound;
        }
        humanizedExpiration := Humanize.ExpirationHumanized(since, t);
      }
      r := Shown(paste, keepAlive, burnAfterReading, humanizedExpiration);
    }
  }
}
