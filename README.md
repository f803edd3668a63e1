# gerrittrigger events: a verified model of the query service and its store

The `events` service receives Gerrit `stream-events` lines from a queue. It
stores each line base64-encoded in a SQLite table, keyed by the event's
creation time. It answers `GET /events/?q=since:<time> until:<time>` with the
stored events whose creation time lies in the half-open window
`since <= t < until`. A sibling component, `log`, drains the same queue and so
far only decodes the events.

This Dafny project models the sequential core of that service and proves
what it promises:

- `Server` covers several parts of the server:
  - the query parser (`parseQuery`), with Go's `strings` functions in
    `GoStrings` and `time.Parse` for the layout `2006-01-02 15:04:05` in
    `TimeLayout`;
  - the copy of stored rows into the HTTP answer (`queryEvent`);
  - the handler's 200/404 decision;
  - the persist loop `storeEvent`, with the standard base64 encoding of
    section 4 of RFC 4648 in `Base64`;
  - the start-up and shut-down order (`Init`, `Deinit`).
- `Storage` is the persistence sink. It is a class whose table of rows is
  a `seq`, with the batch-size check, the negative-bound check, the
  half-open range predicate and the update keyed by `event_created_on`.
- `Log` models the log consumer's `Init`/`Deinit` order and its
  `postEvent` decode loop.
- `Lifecycle` holds what both orchestrators share:
  - a recording double for the collaborators (queue, SSH session, storage,
    watchdog, HTTP);
  - the specification of a start-up chain that stops at the first failure.
- `Stream` holds the queue stream and the abstract JSON decoder.
- `Errors` holds Go's `error` values: `errors.New` and `errors.Wrap`, and
  the "context: cause" text that `Error()` prints.

Each method is proved against a specification function: `Window`,
`Outside`, `Updated`, `Persist`, `InitChain` and `FirstUndecodable`. The
lemmas state what each of these functions means.

Two behaviours of the code are worth stating plainly:

- `parseQuery` does not compare the bounds. `since >= until` is accepted,
  reads an empty window and answers 200 with an empty list
  (`ParseQueryFormat`, `Storage.EmptyRange`).
- Every error of `queryEvent` answers 404 with the error's text, a read
  error included: negative bounds give "failed to read: invalid date", a
  closed database the wrapped driver error (`Server.Handle`).

Assumptions about Go's `time.Parse` for this layout:

- The year is exactly four digits.
- Month, day, minute and second are exactly two digits.
- The hour (`15`) may be one or two digits.
- The layout's space matches a run of one or more spaces.
- A fractional second (`.` or `,` and digits) after the seconds is
  accepted and ignored, as Go 1.17 and later do.
- Any trailing text is an error.
- Month, day (leap years included), hour, minute and second are range
  checked.
- A zone-less layout gives UTC.

## Model

| member | source | states |
|---|---|---|
| GoStrings.IndexFrom | server/server.go:286 | the result is -1 or an occurrence at or after the start, and no occurrence lies between the start and it |
| GoStrings.ContainsIff | server/server.go:286 | `strings.Contains` holds exactly when the separator occurs somewhere |
| GoStrings.Split | server/server.go:290 | `strings.Split` gives at least one piece |
| GoStrings.SplitJoin | server/server.go:290 | joining the pieces of a split with the separator gives back the text |
| GoStrings.SplitPiecesFree | server/server.go:290 | no piece of a split holds the separator |
| GoStrings.SplitCount | server/server.go:290-293 | a split has exactly one piece iff the separator does not occur |
| GoStrings.SplitAtJoin | server/server.go:290-296 | `p + sep + b`, with neither side holding a non-self-overlapping `sep`, splits into exactly `[p, b]` |
| GoStrings.SplitTwoOccurrences | server/server.go:290-293 | two non-overlapping occurrences give at least three pieces |
| GoStrings.IndexAtJoin | server/server.go:290 | the first occurrence in `p + sep + b` is right after `p` when `p` is free of `sep` |
| GoStrings.HeadBeforeFirst | server/server.go:290 | the text before the first occurrence holds none |
| GoStrings.NoOccurrenceBehindForeignPrefix | server/server.go:286 | a text free of the separator stays free of it behind a prefix without the separator's first letter |
| GoStrings.OccurrenceContains | server/server.go:286 | an occurrence at `i` means `Index` finds one at or before `i` |
| GoStrings.TrimLeft | server/server.go:295-296 | removes exactly the leading spaces: the rest is a suffix not starting with a space |
| GoStrings.TrimRight | server/server.go:295-296 | removes exactly the trailing spaces: the rest is a prefix not ending with a space |
| GoStrings.TrimPadded | server/server.go:295-296 | trimming undoes any padding of spaces around a word without edge spaces |
| TimeLayout.Parse | server/server.go:279 | every parsed value is a valid calendar instant (four-digit year, real day, time of day in range) |
| TimeLayout.ParseUnixFormat | server/server.go:278-284 | any valid instant written in the layout is read back as its own Unix seconds |
| TimeLayout.ParseUnixOrder | server/server.go:278-284 | two operands that parse compare as Unix seconds exactly as their instants compare in calendar order, and are equal exactly when they name the same instant |
| TimeLayout.UnixOrder | server/server.go:283 | Unix seconds order valid instants exactly as the calendar does, both directions |
| TimeLayout.ParseFormat | server/server.go:27 | parsing the layout's rendering of any valid instant gives the instant back |
| TimeLayout.FormatShape | server/server.go:27 | a rendered instant is 19 characters of digits and `-`, `:`, ` `, with a digit at both ends |
| TimeLayout.EpochIsZero | server/server.go:283 | 1970-01-01 00:00:00 is Unix second 0 |
| TimeLayout.UnixMonotone | server/server.go:283 | Unix seconds strictly increase with calendar order |
| TimeLayout.UnixInjective | server/server.go:283 | distinct valid instants have distinct Unix seconds |
| TimeLayout.DayWithinYear | server/server.go:283 | the day number of a date lies within its year |
| Base64.Encode | server/server.go:331 | standard padded base64 turns n bytes into 4 * ceil(n / 3) characters |
| Base64.DecodeEncode | server/server.go:331 | decoding the encoding of any bytes gives them back |
| Base64.DecodeEncodeStep | server/server.go:331 | three bytes in front of bytes that round-trip round-trip too |
| Base64.DecodeEncodeShort | server/server.go:331 | a final one or two bytes round-trip through their padded group |
| Base64.EncodeInjective | server/server.go:331 | distinct raw items are stored as distinct text |
| Base64.FixturePayload | server/server_test.go:24 | the fixture payload "ZXZlbnRCYXNlNjQ=" is the encoding of the text "eventBase64" |
| Server.ParseQuery | server/server.go:277-313 | every error returns (0, 0); success implies the `since:` prefix and exactly two pieces around `until:` |
| Server.Convert | server/server.go:295-312 | every error of the operand step returns (0, 0) |
| Server.MissingQuery | server/server.go:286-288 | no `since:` prefix or no `until:` gives "missing query" |
| Server.RepeatedUntil | server/server.go:290-293 | `until:` twice gives "invalid length" |
| Server.SplitQuery | server/server.go:290-296 | a query with one `until:` is decided by its two trimmed operands alone |
| Server.ParseQueryOperands | server/server.go:295-312 | an empty trimmed operand gives "empty query"; an unparsable one gives "invalid query"; otherwise the result is both operands' Unix seconds with no error |
| Server.ParseQueryFormat | server/server.go:277-313 | round trip: any two valid instants, rendered in the layout with any spaces around them, parse back to their Unix seconds |
| Server.EmptyQueryRefused | server/server_test.go:91-92 | the empty query is refused as missing |
| Server.BareMarkersRefused | server/server_test.go:94-95 | "since: until:" is refused as empty |
| Server.NoSinceRefused | server/server_test.go:97-98 | a query without `since:` is refused as missing |
| Server.NoUntilRefused | server/server_test.go:100-101 | a query without `until:` is refused as missing |
| Server.TestInstantsFormat | server/server_test.go:103 | 2023-01-01 10:00 and 11:00 are valid and render as in the test |
| Server.TestInstantsUnix | server/server_test.go:103 | those instants are Unix 1672567200 and 1672570800 |
| Server.HourAccepted | server/server_test.go:103-104 | the test's hour query parses to (1672567200, 1672570800) with no error |
| Server.QueryEvent | server/server.go:248-275 | a parse error is wrapped "failed to parse"; a read error is wrapped "failed to read"; success iff the query parses, the bounds are non-negative and the database is open; the results copy the window's rows one to one, in order |
| Server.CopyRows | server/server.go:265-272 | the filled slice has the rows' length and copies both fields index by index |
| Server.Respond | server/server.go:165-173 | status 200 exactly when there is no error; otherwise 404 with a body carrying code 404 and the error's text |
| Server.Handle | server/server.go:165-173 | 200 iff the query parses with non-negative bounds on an open database; otherwise 404 with body code 404 and the text of the parse error, of "invalid date" or of the closed-database error, each wrapped as `queryEvent` wraps it; a 200 body copies the window |
| Server.HandlerScenario | server/server_test.go:71-86 | with the fixture row stored, the empty query answers 404, and the 10:00-11:00 query answers 200 with exactly that row |
| Server.Persist | server/server.go:315-338 | the loop stores at most as many rows as it takes items, and takes at most all of them |
| Server.PersistOpen | server/server.go:321-337 | with an open database, one row per item is stored up to the first item that does not decode; that item's error is returned and it is the last one taken; nil if all decode |
| Server.PersistClosed | server/server.go:326-335 | on a closed database nothing is stored: the first item ends the loop with its decode error or the wrapped create error; no item gives nil |
| Server.StoredRowsDecode | server/server.go:331 | each stored row's text decodes back to its raw item, and its time is that item's decoded time |
| Server.PersistFrom | server/server.go:326-335 | the loop from any position takes at least that position and at most every item, and stores no more rows than it takes items from there |
| Server.PersistOpenFrom | server/server.go:326-335 | with an open database, the loop from a position before the first undecodable item stores one row per item up to it, after the rows already stored; that item's error ends it, or nil at the end |
| Server.StoreItem | server/server.go:327-334 | one turn of the loop: a decode error is returned with nothing written; a closed database gives the wrapped create error with nothing written; otherwise exactly the item's row (base64 text, decoded time) is appended and nil returned |
| Server.StoreEvent | server/server.go:315-338 | a queue error is wrapped "failed to get queue" with nothing taken; otherwise the error, the count taken and the rows appended are those of `Persist` |
| Server.Init | server/server.go:80-108 | the calls made and the error returned are those of the start-up chain over Queue, Ssh, Storage, Watchdog, initHttp, listenHttp |
| Server.InitLeavesLaterUntouched | server/server.go:83-105 | no collaborator after the first failing one is initialised |
| Server.Deinit | server/server.go:110-119 | Watchdog, Storage, Ssh, Queue are each deinitialised once, in that order (the reverse of start-up), whatever they answer; nil |
| Storage.Storage.constructor | storage/storage.go:48-53 | a new store has no database |
| Storage.Storage.Init | storage/storage.go:59-81 | a failed open or migration is wrapped and leaves the database closed; a failed autoclean is wrapped with the database open; rows are untouched |
| Storage.Storage.Deinit | storage/storage.go:83-95 | always nil; closes an open database; without one nothing changes, so it is safe before `Init` and when repeated |
| Storage.Storage.Create | storage/storage.go:97-109 | a batch of 0 or more than 100 rows is refused with nothing written; 1..100 rows are appended in full |
| Storage.Storage.Delete | storage/storage.go:111-126 | a negative bound is refused with nothing removed; otherwise exactly the rows in `[since, until)` are removed |
| Storage.Storage.Read | storage/storage.go:128-143 | a negative bound is refused; otherwise the rows in `[since, until)` in table order |
| Storage.Storage.Update | storage/storage.go:145-160 | nil is refused; otherwise every row with the key takes the new non-empty payload |
| Storage.WindowAppend | storage/storage.go:137 | a range read keeps table order: it distributes over concatenation |
| Storage.OutsideAppend | storage/storage.go:120 | so does a range delete |
| Storage.WindowCount | storage/storage.go:137 | a read returns every in-range row as often as the table holds it, and no other row |
| Storage.OutsideCount | storage/storage.go:120 | a delete keeps every out-of-range row as often as the table holds it, and no other row |
| Storage.EmptyRange | storage/storage.go:137 | `since >= until` reads nothing |
| Storage.ReadAfterCreate | storage/storage.go:104 | what a create adds is what a read of any range adds |
| Storage.CreateThenRead | storage/storage_test.go:91-99 | a created row is read back by the window `[t, t + 1)`, after what was there before |
| Storage.UntilExcluded | storage/storage.go:137 | the `until` bound is exclusive |
| Storage.DeletePartitions | storage/storage.go:120 | a delete and a read of the same range split the table: every row is read or kept, never both, never lost |
| Storage.Singleton | storage/storage.go:120 | the range filters on a single row |
| Storage.ReadAfterDelete | storage/storage.go:120 | after a delete any read returns what it did before minus the deleted rows, in order |
| Storage.DeletedRangeEmpty | storage/storage_test.go:137-143 | the deleted range reads back empty |
| Storage.UpdateEffect | storage/storage.go:154 | an update keeps the length and every key; it changes only rows with the key, and gives them the new payload unless it is empty |
| Storage.ReadAfterUpdate | storage/storage.go:154 | an update never moves a row into or out of a range: reading after it gives the updated rows of the read |
| Storage.UpdateIdempotent | storage/storage.go:154 | repeating an update changes nothing more |
| Storage.UpdateThenRead | storage/storage_test.go:104-121 | after an update with a non-empty payload, the read of `[1, t + 1)` gives one row with the new payload |
| Lifecycle.Collaborators.constructor | log/log.go:53-77 | the double starts with no calls recorded and its configured answers |
| Lifecycle.Collaborators.Init | log/log.go:56 | a collaborator's `Init` is recorded and answers as configured |
| Lifecycle.Collaborators.Deinit | log/log.go:82 | a collaborator's `Deinit` is recorded and answers as configured |
| Lifecycle.Reverse | log/log.go:82-86 | the shut-down order is the start-up order backwards |
| Lifecycle.FirstFailure | log/log.go:56-74 | the position of the first collaborator that fails: all before it succeed |
| Lifecycle.InitStopsAtFirstFailure | log/log.go:56-76 | start-up initialises exactly the collaborators up to and including the first failing one, in order, and returns its error wrapped with its name; with no failure, all of them and nil |
| Lifecycle.InitNilIffAllSucceed | log/log.go:56-76 | start-up returns nil iff every collaborator initialises |
| Lifecycle.LaterUntouched | log/log.go:56-74 | start-up only appends calls, and never touches a collaborator after the failing one |
| Stream.FirstUndecodable | log/log.go:169-172 | the first item that does not decode: all before it decode |
| Log.Init | log/log.go:53-77 | the calls made and the error returned are those of the start-up chain over Http, Queue, Ssh, Storage, Watchdog |
| Log.InitLeavesLaterUntouched | log/log.go:56-74 | no collaborator after the first failing one is initialised |
| Log.Deinit | log/log.go:79-89 | Watchdog, Storage, Ssh, Queue, Http are each deinitialised once, in the reverse of start-up, whatever they answer; nil |
| Log.PostEvent | log/log.go:156-177 | a queue error is wrapped "failed to get queue" with nothing taken; otherwise items are taken in order up to and including the first that does not decode, whose error is returned; nil when all decode |

## Left out

- `Run` and `fetchEvent` of both components are left out. They are
  goroutines, channels, a wait group, an unsynchronised shared `err` and a
  reconnect loop. The SSH session, watchdog and queue they drive are not
  part of this model.
- `listenHttp` and the gin, CORS and logger set-up of `initHttp` are left
  out. Their outcome in `Server.Init` is a configured answer of the
  collaborator double (`HttpEngine`, `HttpListener`).
- `autoclean` (a cron job deleting up to the wall clock) is left out. The
  cron scheduler's answer is an argument of `Storage.Storage.Init`.
- JSON decoding into `events.Event` is not part of this model. The
  decoder is a parameter: a function from a raw item to its creation time
  or an error.
- The gorm and SQLite internals are left out. The auto-filled
  `gorm.Model` fields are not modelled. A soft delete is modelled as
  removal, since every later query skips soft-deleted rows. The order of
  an unordered `SELECT` is assumed to be insertion order.
- Storage.Storage.Update: the rule that gorm's struct `Updates` skips
  zero-valued fields is an assumption. An empty payload therefore leaves
  the rows as they were.
- Storage.Storage.Create, Read, Delete and Update require a database handle
  (after `Init`) only for arguments that pass their checks. Before `Init`,
  an invalid batch, negative bound or nil record is refused as in the Go
  code, but a valid one reaches the nil handle and panics, which the model
  does not reproduce.
- Storage.Storage.constructor: the table starts empty, as for a fresh
  SQLite file. Rows an existing file already holds when `Init` opens it
  are not modelled.
- Storage.Storage.Init: SQLite errors other than a closed database are not
  modelled. An open, migrated database answers every query.
- Server.Init and Log.Init: the storage step is a configured answer of the
  collaborator double, not a call of `Storage.Storage.Init`.
- Queue items are modelled as bytes (Go strings), so no text encoding is
  modelled.
- Integer widths are not modelled: `int64` timestamps are unbounded
  integers. Every value the four-digit-year layout produces fits in 64
  bits.
- `config`, `cmd`, `connect` and `main` (flag parsing, YAML loading,
  signal handling, the stub HTTP client) are not part of this model.
