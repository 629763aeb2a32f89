# g0bin paste lifecycle, in Dafny

g0bin is a small self-hosted pastebin. A paste is stored as one file,
`./pastes/<identifier>.txt`. The identifier is derived from the SHA-1 digest of
the content. The file holds an expiration marker line, then the content line.
A paste is read back by identifier until it expires or has been read once
("burn after reading"). Expired and consumed pastes are deleted lazily, by the
read that notices it.

This project models that lifecycle from `g0bin.go`:

- the identifier derivation in `createHandler`: URL-safe base64 of the digest
  (section 5 of RFC 4648), one trailing `=` trimmed, `/` replaced by `-`;
- the identifier check `^[a-zA-Z0-9-_]+$`;
- the size gate `len(content)/2 > MaxSize`;
- `Paste.save`: the policy name becomes a marker, written as `marker\ncontent\n`;
- `Paste.load`: the file is split at newlines; line 0 is the marker, line 1 the content;
- `Paste.delete`;
- the expiry and burn decision in `pasteHandler`;
- `abs` and `expirationHumanized`.

Module layout:

- `wrappers.dfy`: Option.
- `decimal.dfy`: `%d` text.
- `clock.dfy`: Go's time arithmetic and the timestamp text.
- `calendar.dfy`: `t.Year()`, `t.Month()`, `t.Day()`.
- `humanize.dfy`: `abs` and `expirationHumanized`.
- `identifier.dfy`: the identifier and its check.
- `expiration.dfy`: policy to marker, marker to verdict.
- `record.dfy`: the file format and its parse.
- `store.dfy`: class `Store`, whose `files` map stands for the pastes directory,
  with `Save`, `Load`, `Delete`, `Create` and `Get`.
- `lifecycle.dfy`: end-to-end properties of create followed by get.

`Store.Create` and `Store.Get` follow the handlers step by step. Each is proved
equal to a function on map values (`CreateSpec`, `GetSpec`). The lifecycle
lemmas are stated over those functions.

Instants are nanosecond counts from Go's zero time (January 1, year 1, UTC).
`now` is a parameter, and so are the SHA-1 digest function (`hash`, returning
20 bytes), the captcha outcome (`captchaPassed`) and the configured `MaxSize`.

Points where the code's behaviour is easy to misread:

- A burn-after-reading paste read after its 10-second grace window is still
  shown once. `keepAlive` is cleared and the file is removed, but there is no
  early return. Only the next read reports not-found.
- Expiry compares whole elapsed seconds, truncated: `since > 0` and `since > 10`.
  So an absolute paste is still shown for up to just under one second past
  its expiry, as "in 0 s". Likewise a burn paste survives until eleven full
  seconds have passed.
- A marker whose timestamp does not parse is not treated as "zero elapsed
  time". The ignored parse error leaves Go's zero time, so the elapsed time
  is huge and the paste counts as expired or consumed. This includes the
  empty marker that an unrecognised policy name produces.
- The digest's base64 form keeps its padding until one `TrimSuffix("=")` removes
  a single `=`. For a 20-byte digest that is the only `=`.

## Model

| member | source | states |
|---|---|---|
| `Decimal.IntToString` | g0bin.go:114 | the `%d` text is never empty, begins with `-` iff the integer is negative, and holds only digits after that sign |
| `Decimal.ParseIntToString` | g0bin.go:114 | the `%d` text of an integer reads back as that integer |
| `Decimal.IntToStringInjective` | g0bin.go:114 | distinct integers print as distinct `%d` texts |
| `Clock.Sub` | g0bin.go:178 | `time.Since` is the difference of the instants, saturated to the int64 range |
| `Clock.WholeSeconds` | g0bin.go:178 | dividing a Duration by `time.Second` truncates toward zero: the quotient is the whole seconds of the magnitude, with the sign of the duration |
| `Clock.ElapsedSeconds` | g0bin.go:178 | `int64(time.Since(t) / time.Second)` always fits in int64 |
| `Clock.ElapsedExceeds` | g0bin.go:178-179 | more than k whole seconds have elapsed iff at least k+1 full seconds separate the instants, for every difference including saturated ones |
| `Clock.Format` | g0bin.go:278-285 | the timestamp text save writes is non-empty, holds no newline and begins with a sign or a digit |
| `Clock.Parse` | g0bin.go:177 | the empty timestamp text does not parse |
| `Clock.ParseFormat` | g0bin.go:177 | parsing the timestamp text that save formats gives back the instant |
| `Clock.ParsedOrZero` | g0bin.go:177 | a timestamp that fails to parse yields Go's zero time (the ignored error) |
| `Calendar.DaysInMonth` | g0bin.go:132 | every month has 28 to 31 days |
| `Calendar.MonthDay` | g0bin.go:132 | the month and day found for a day of the year form a valid date, and counting back from that date gives the same day of the year |
| `Calendar.YearOrdinal` | g0bin.go:132 | the year found for a day count holds that day, and the days of the skipped years plus the position in the year give the count back |
| `Calendar.FourHundredYearCycles` | g0bin.go:132 | every 400 Gregorian years from year 1 on hold exactly 146097 days |
| `Calendar.DateOf` | g0bin.go:132 | the date shown for an instant has a month in 1..12 and a day within that month; for an instant at or after Go's zero time it is the date whose day number, counted from January 1 of year 1, is the whole days elapsed `t / NanosPerDay` |
| `Calendar.MonthNameInjective` | g0bin.go:132 | distinct months have distinct names, so the month shown in a date determines the month |
| `Humanize.Abs` | g0bin.go:101-109 | abs leaves non-negative values alone and negates negative ones; the least int64 wraps to itself |
| `Humanize.ExpirationHumanized` | g0bin.go:111-133 | the text is at least six characters and begins with "on " (a date) exactly when the magnitude of `since` is at least ten days, except for the least int64, whose wrapped abs stays negative and reads as a countdown |
| `Humanize.Render` | g0bin.go:113-132 | a countdown text begins with "in ", a date text with "on " |
| `Humanize.Band` | g0bin.go:112-132 | the five bands split the seconds at 60, 3600, 86400 and 864000 with strict `<`; each countdown shows the whole number of units, from 1 up to below the next unit; past ten days the date of the expiry is shown |
| `Humanize.HumanizedBoundaries` | g0bin.go:111-133 | the worked values: 59 gives "in 59 s", 60 gives "in 1 m", 3599 gives "in 59 m", 3600 gives "in 1 h", 86399 gives "in 23 h"; -86400 gives "in 1 day(s)" and 863999 gives "in 9 day(s)" |
| `Humanize.HumanizedIgnoresSign` | g0bin.go:112 | the countdown depends only on the size of `since`, not its sign |
| `Humanize.RenderInjective` | g0bin.go:113-129 | two countdowns shown with the same text are the same unit and number |
| `Identifier.ValidId` | g0bin.go:30 | an identifier that passes the pattern holds no `/` and no `.`, so its file name stays inside the pastes directory |
| `Identifier.AlphabetChar` | g0bin.go:244 | every character of the URL-safe base64 alphabet passes the identifier pattern |
| `Identifier.AlphabetIndex` | g0bin.go:244 | each alphabet character has an index in 0..63 that maps back to it |
| `Identifier.EncodeGroup` | g0bin.go:244 | three bytes become four alphabet characters |
| `Identifier.GroupRoundTrip` | g0bin.go:244 | the four characters of a group decode to its three bytes |
| `Identifier.Base64UrlDigits` | g0bin.go:244 | n bytes give ceil(4n/3) alphabet characters before padding |
| `Identifier.Base64Url` | g0bin.go:244 | the padded encoding has length 4*ceil(n/3) |
| `Identifier.DecodeDigitsOfBase64` | g0bin.go:244 | the unpadded characters decode back to the bytes encoded |
| `Identifier.TrimSuffix` | g0bin.go:245 | when the text ends with the suffix, exactly one copy is removed from the end; otherwise the text is unchanged |
| `Identifier.ReplaceAll` | g0bin.go:246 | the replacement changes exactly the `/` characters, position by position |
| `Identifier.DeriveId` | g0bin.go:242-246 | the identifier never holds `/`; a 20-byte digest gives 27 characters that pass the identifier pattern |
| `Identifier.DerivedIdShape` | g0bin.go:242-246 | a 20-byte digest gives a 27-character identifier made only of alphabet characters, so it passes `uuidValidator` |
| `Identifier.DecodeDerivedId` | g0bin.go:242-246 | the identifier determines the digest: trimming and replacing lose nothing |
| `Expiration.TrimPrefix` | g0bin.go:176 | `TrimPrefix` strips the prefix when present and otherwise changes nothing |
| `Expiration.Lifetime` | g0bin.go:280-285 | the three lifetimes are at least a day |
| `Expiration.EncodeMarker` | g0bin.go:273-287 | the marker save writes never holds a newline |
| `Expiration.DecodeMarker` | g0bin.go:169-185 | a marker is read as burn-after-reading iff it begins with "burnAfterReading" |
| `Expiration.DecodeEncodeMarker` | g0bin.go:273-287 | reading back a saved marker gives `Burn(now)` for "burnAfterReading"; it gives an absolute expiry of now plus 24 h, 30·24 h or 100·365·24 h for "1_day", "1_month" and "never"; any other name gives an unparseable expiry |
| `Expiration.Evaluate` | g0bin.go:169-203 | a fresh verdict has `since <= 0` and fits in int64 |
| `Expiration.EvaluateThresholds` | g0bin.go:177-187 | a burn marker is consumed iff at least 11 s have passed since creation; an absolute marker has expired iff at least 1 s has passed since its expiry; otherwise it is fresh with that expiry |
| `Expiration.UnparseableIsStale` | g0bin.go:176-187 | an unparseable timestamp counts as expired, or as a consumed burn marker, at any realistic instant |
| `Expiration.FreshCountdown` | g0bin.go:185-201 | a fresh absolute marker counts the truncated whole seconds left, and 0 within the first second past expiry |
| `Record.FileText` | g0bin.go:288 | the file text is two characters longer than the marker and the content together |
| `Record.FileTextLayout` | g0bin.go:288 | the file is the marker, a newline, the content and a newline |
| `Record.Split` | g0bin.go:301 | `strings.Split` gives at least one piece and no piece holds a newline |
| `Record.JoinSplit` | g0bin.go:301 | joining the pieces with newlines gives the text back |
| `Record.FirstLine` | g0bin.go:306 | the first line is the longest newline-free prefix |
| `Record.SplitFirst` | g0bin.go:301-304 | line 0 of the split is the text's first line |
| `Record.SplitAfterLine` | g0bin.go:301 | a newline-free line followed by a newline splits off as one piece |
| `Record.ParseRecord` | g0bin.go:301-308 | load takes the marker from the first line and keeps the identifier |
| `Record.RecordRoundTrip` | g0bin.go:288-308 | saving then loading returns the marker exactly and the content up to its first newline |
| `Record.FirstLineExact` | g0bin.go:305-307 | the content comes back unchanged iff it holds no newline |
| `PasteStore.TooBig` | g0bin.go:249 | the integer-halving gate rejects content exactly when its length is at least `2 * MaxSize + 2` |
| `PasteStore.CreateSpec` | g0bin.go:223-271 | creation is rejected with "Content too big" iff `len/2 > MaxSize`, and then the store is unchanged; otherwise exactly the entry under the derived identifier is written, overwriting any earlier one |
| `PasteStore.GetSpec` | g0bin.go:135-221 | an invalid or unknown identifier gives not-found and leaves the store unchanged; at most the requested entry is removed; a shown paste is the parsed file and is kept iff `keepAlive`; only burn pastes are shown and removed, and they have an empty countdown |
| `PasteStore.Store.Save` | g0bin.go:273-290 | save writes the marker line and the content line under the identifier, and nothing else changes |
| `PasteStore.Store.Load` | g0bin.go:292-310 | the loop over the split lines yields line 0 as the marker and line 1 (or nothing) as the content; a missing file is an error |
| `PasteStore.Store.Delete` | g0bin.go:312-315 | delete removes the one file and reports whether it existed |
| `PasteStore.Store.Create` | g0bin.go:223-271 | the handler's steps compute `CreateSpec` |
| `PasteStore.Store.Get` | g0bin.go:135-221 | the handler's steps compute `GetSpec` |
| `Lifecycle.CreatedIdAccepted` | g0bin.go:241-257 | every identifier create returns is 27 characters, passes the identifier check, names the written entry and determines the digest |
| `Lifecycle.StoredPasteRoundTrip` | g0bin.go:288-308 | the stored paste reads back with the policy's marker, and with the content iff the content holds no newline |
| `Lifecycle.CreateThenGetAbsolute` | g0bin.go:183-202 | a lifetime paste is shown and kept, with its countdown, until one full second past its expiry; after that a read removes it and reports not-found |
| `Lifecycle.CreateThenGetBurn` | g0bin.go:169-182 | a burn paste is shown and kept for under 11 s. The first read after that shows it with `keepAlive` false and removes it; every later read reports not-found |
| `Lifecycle.CreateWithUnknownPolicy` | g0bin.go:275-287 | an unrecognised policy name makes the paste expired at the first read |
| `Lifecycle.OneDayPasteRightAfterCreation` | g0bin.go:280-281 | a one-line "1_day" paste read at once is shown unchanged, kept, not burn-after-reading, "in 1 day(s)" |
| `Lifecycle.NeverPasteRightAfterCreation` | g0bin.go:284-285 | a "never" paste read at once shows the calendar date of its expiry |
| `Lifecycle.CenturyAheadShowsDate` | g0bin.go:127-132 | an expiry a hundred 365-day years ahead is shown as its date, not as a countdown |

## Left out

- HTTP routing, templates, status codes, JSON replies, redirects and `main` (g0bin.go:89-99, 317-344) are not modelled. The handlers' outcomes are values: not-found, or the paste with its flags; an identifier, a "Content too big" failure, or a captcha rejection.
- The non-POST redirect of `createHandler` (g0bin.go:224-228) is HTTP routing and is not modelled.
- Captcha generation and verification is a foreign library. Its verdict is the parameter `captchaPassed`.
- Configuration loading, the SIGHUP reload goroutine and the read-write lock (g0bin.go:44-87) are file I/O and concurrency. `MaxSize` is a parameter.
- Concurrent requests are not modelled. Each operation is one atomic step on the store.
- Request logging (g0bin.go:321-328) and the `log.Print` calls are not modelled.
- SHA-1 is library code. It is the parameter `hash`, required to return 20 bytes.
- PasteStore.Store.Save: writing a file never fails in the model, so the "Could not save" reply of `createHandler` (g0bin.go:260-262) does not arise.
- Calendar.MonthName: the twelve English names are data taken from `time.Month.String`; the contract states only that each is at least three characters and that distinct months get distinct names.
- Clock.Format: the timestamp text is the instant's decimal nanosecond count, not RFC 3339 (section 5.6) text with nanoseconds. Only the properties the lifecycle relies on are kept: it parses back to the same instant, it holds no newline, it cannot begin with "burnAfterReading", and the empty text does not parse.
- Clock.Parse: other texts that RFC 3339 parsing would accept are not modelled. The reverse also holds: the model reads any decimal text as an instant, where Go's RFC 3339 parser rejects it and yields the zero time. A hand-edited marker `burnAfterReading#5` is 5 ns in the model but the zero time in Go. This matters only for files that save did not write.
- Paste.save reads the clock twice, once for the burn marker and again for each lifetime. The model uses one `now` for both.
- Calendar.DateOf: for an instant before Go's zero time only the validity of the date is stated, not which date it is. The date is computed in UTC. Go reports it in the time zone of the parsed timestamp. Leap seconds and the monotonic clock reading are not modelled either.
- Content is a `string` whose characters stand for the bytes of the submitted text. `len(content)` in the size gate counts those bytes.
- The `/paste/` prefix stripping of the request path (g0bin.go:136) is not modelled. `Get` takes the identifier itself.
- gulpfile.js is front-end build tooling and is not part of this model.
