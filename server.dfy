/** The server: the `q` query of `GET /events/` (`since:<time> until:<time>`
    in the layout "2006-01-02 15:04:05"), the copy of the stored rows into
    the response, the status the handler answers with, the loop that
    persists queue items, and the start-up and shut-down order. */
module Server {
  import opened Errors
  import opened GoStrings
  import TimeLayout
  import Storage
  import Lifecycle
  import Stream
  import Base64

  const QuerySince := "since:"
  const QueryUntil := "until:"
  const QueryLength := 2

  const StatusOK := 200
  const StatusNotFound := 404

  // ---------------------------------------------------------------------------
  // parseQuery

  /** Go's `(rs, ru int64, err error)`. */
  datatype Range = Range(since: int, until: int, err: Option<Error>)

  function Fail(text: string): Range
  {
    Range(0, 0, Some(Msg(text)))
  }

  /** `parseQuery`: the query must start with "since:" and hold "until:"
      exactly once; both operands, trimmed of spaces, must be non-empty and
      parse in the layout. On success the bounds are Unix seconds (UTC). */
  function ParseQuery(query: string): (r: Range)
    ensures r.err.Some? ==> r.since == 0 && r.until == 0
    ensures r.err.None? ==> HasPrefix(query, QuerySince) && |Split(query, QueryUntil)| == QueryLength
  {
    if !HasPrefix(query, QuerySince) || !Contains(query, QueryUntil) then Fail("missing query")
    else
      var b := Split(query, QueryUntil);
      if |b| != QueryLength then Fail("invalid length")
      else Convert(Trim(TrimPrefix(b[0], QuerySince)), Trim(b[1]))
  }

  /** The second half of `parseQuery`: both trimmed operands must be
      non-empty and parse in the layout. */
  function Convert(s: string, u: string): (r: Range)
    ensures r.err.Some? ==> r.since == 0 && r.until == 0
  {
    if s == [] || u == [] then Fail("empty query")
    else
      match TimeLayout.ParseUnix(s)
      case None => Fail("invalid query")
      case Some(rs) =>
        match TimeLayout.ParseUnix(u)
        case None => Fail("invalid query")
        case Some(ru) => Range(rs, ru, None)
  }

  /** "until:" does not overlap itself at its first letter. */
  lemma UntilNoBorder()
    ensures forall k :: 1 <= k < |QueryUntil| ==> QueryUntil[k] != QueryUntil[0]
  {
  }

  /** With one "until:", after the "since:" prefix, the query comes apart
      into the two texts around the marker. */
  lemma SplitQuery(a: string, b: string)
    requires !Contains(a, QueryUntil) && !Contains(b, QueryUntil)
    ensures ParseQuery(QuerySince + a + QueryUntil + b) == Convert(Trim(a), Trim(b))
  {
    var p := QuerySince + a;
    var query := p + QueryUntil + b;
    assert query == QuerySince + a + QueryUntil + b;
    NoOccurrenceBehindForeignPrefix(QuerySince, a, QueryUntil);
    UntilNoBorder();
    SplitAtJoin(p, QueryUntil, b);
    assert query[..|QuerySince|] == QuerySince;
    assert TrimPrefix(p, QuerySince) == a;
    assert OccursAt(query, QueryUntil, |p|) by {
      assert query[|p|..|p| + |QueryUntil|] == QueryUntil;
    }
    OccurrenceContains(query, QueryUntil, |p|);
  }

  /** Exactly how a query with one "until:" is answered: by the trimmed
      text between the markers and the trimmed text after "until:". */
  lemma ParseQueryOperands(a: string, b: string)
    requires !Contains(a, QueryUntil) && !Contains(b, QueryUntil)
    ensures var r := ParseQuery(QuerySince + a + QueryUntil + b);
            var s, u := Trim(a), Trim(b);
            && (s == [] || u == [] ==> r == Fail("empty query"))
            && (s != [] && u != [] && (TimeLayout.Parse(s).None? || TimeLayout.Parse(u).None?) ==>
                  r == Fail("invalid query"))
            && (TimeLayout.Parse(s).Some? && TimeLayout.Parse(u).Some? ==>
                  r == Range(TimeLayout.UnixSeconds(TimeLayout.Parse(s).value),
                             TimeLayout.UnixSeconds(TimeLayout.Parse(u).value), None))
  {
    SplitQuery(a, b);
  }

  /** A query that does not start with "since:" or holds no "until:" is
      refused as missing. */
  lemma MissingQuery(query: string)
    requires !HasPrefix(query, QuerySince) || !Contains(query, QueryUntil)
    ensures ParseQuery(query) == Fail("missing query")
  {
  }

  /** A query holding "until:" twice is refused for its length. */
  lemma RepeatedUntil(query: string, i: int, j: int)
    requires HasPrefix(query, QuerySince)
    requires OccursAt(query, QueryUntil, i) && OccursAt(query, QueryUntil, j) && i + |QueryUntil| <= j
    ensures ParseQuery(query) == Fail("invalid length")
  {
    OccurrenceContains(query, QueryUntil, i);
    SplitTwoOccurrences(query, QueryUntil, i, j);
  }

  /** Text with no 'u' holds no "until:". */
  lemma NoUntil(s: string)
    requires forall k :: 0 <= k < |s| ==> s[k] != 'u'
    ensures !Contains(s, QueryUntil)
  {
    NoOccurrenceBehindForeignPrefix(s, [], QueryUntil);
    assert s + [] == s;
  }

  /** Formatting two instants into a query, with any spaces around them,
      and parsing it gives back their Unix seconds. */
  lemma ParseQueryFormat(x: TimeLayout.DateTime, y: TimeLayout.DateTime,
                         lead1: string, trail1: string, lead2: string, trail2: string)
    requires TimeLayout.Valid(x) && TimeLayout.Valid(y)
    requires AllSpaces(lead1) && AllSpaces(trail1) && AllSpaces(lead2) && AllSpaces(trail2)
    ensures ParseQuery(QuerySince + (lead1 + TimeLayout.Format(x) + trail1) + QueryUntil
                       + (lead2 + TimeLayout.Format(y) + trail2))
            == Range(TimeLayout.UnixSeconds(x), TimeLayout.UnixSeconds(y), None)
  {
    var a := lead1 + TimeLayout.Format(x) + trail1;
    var b := lead2 + TimeLayout.Format(y) + trail2;
    TimeLayout.FormatShape(x);
    TimeLayout.FormatShape(y);
    NoUntil(a);
    NoUntil(b);
    TrimPadded(lead1, TimeLayout.Format(x), trail1);
    TrimPadded(lead2, TimeLayout.Format(y), trail2);
    TimeLayout.ParseFormat(x);
    TimeLayout.ParseFormat(y);
    ParseQueryOperands(a, b);
  }

  /** The cases of the repository's parser test: an empty query, ... */
  lemma EmptyQueryRefused()
    ensures ParseQuery("") == Fail("missing query")
  {
  }

  /** ... markers without operands, ... */
  lemma BareMarkersRefused()
    ensures ParseQuery("since: until:") == Fail("empty query")
  {
    assert "since: until:" == QuerySince + " " + QueryUntil + [];
    NoUntil(" ");
    NoUntil([]);
    ParseQueryOperands(" ", []);
  }

  /** The two instants of the parser test: 2023-01-01 at 10:00 and at
      11:00 UTC. */
  const Ten := TimeLayout.DateTime(2023, 1, 1, 10, 0, 0)
  const Eleven := TimeLayout.DateTime(2023, 1, 1, 11, 0, 0)

  lemma TestInstantsFormat()
    ensures TimeLayout.Valid(Ten) && TimeLayout.Valid(Eleven)
    ensures TimeLayout.Format(Ten) == "2023-01-01 10:00:00"
    ensures TimeLayout.Format(Eleven) == "2023-01-01 11:00:00"
  {
  }

  lemma TestInstantsUnix()
    ensures TimeLayout.UnixSeconds(Ten) == 1672567200
    ensures TimeLayout.UnixSeconds(Eleven) == 1672570800
  {
  }

  /** ... no "since:" in front, ... */
  lemma NoSinceRefused()
    ensures ParseQuery("2023-01-01 10:00:00 until:2023-01-01 11:00:00") == Fail("missing query")
  {
    TestInstantsFormat();
    TimeLayout.FormatShape(Ten);
    var query := TimeLayout.Format(Ten) + " until:" + TimeLayout.Format(Eleven);
    assert query == "2023-01-01 10:00:00 until:2023-01-01 11:00:00";
    assert query[..|QuerySince|][0] == TimeLayout.Format(Ten)[0];
  }

  /** "since:2023-01-01 10:00:00 2023-01-01 11:00:00" */
  const UntilMissing := QuerySince + "2023-01-01 10:00:00" + " " + "2023-01-01 11:00:00"
  /** "since:2023-01-01 10:00:00 until:2023-01-01 11:00:00" */
  const HourQuery := QuerySince + "2023-01-01 10:00:00" + " " + QueryUntil + "2023-01-01 11:00:00"

  /** ... no "until:", ... */
  lemma NoUntilRefused()
    ensures ParseQuery(UntilMissing) == Fail("missing query")
  {
    TestQueriesShape();
    TimeLayout.FormatShape(Ten);
    TimeLayout.FormatShape(Eleven);
    var front := QuerySince + TimeLayout.Format(Ten) + " ";
    assert forall k :: 0 <= k < |front| ==> front[k] != 'u';
    NoUntil(TimeLayout.Format(Eleven));
    NoOccurrenceBehindForeignPrefix(front, TimeLayout.Format(Eleven), QueryUntil);
  }

  /** ... and a well-formed hour, 2023-01-01 10:00 to 11:00 UTC. */
  lemma HourAccepted()
    ensures ParseQuery(HourQuery) == Range(1672567200, 1672570800, None)
  {
    TestQueriesShape();
    TestInstantsFormat();
    TestInstantsUnix();
    ParseQueryFormat(Ten, Eleven, [], " ", [], []);
  }

  /** The test queries, written with the formatted instants. */
  lemma TestQueriesShape()
    ensures UntilMissing == QuerySince + TimeLayout.Format(Ten) + " " + TimeLayout.Format(Eleven)
    ensures HourQuery == QuerySince + ([] + TimeLayout.Format(Ten) + " ") + QueryUntil
                         + ([] + TimeLayout.Format(Eleven) + [])
  {
    TestInstantsFormat();
    var ten, eleven := TimeLayout.Format(Ten), TimeLayout.Format(Eleven);
    assert [] + ten + " " == ten + " ";
    assert [] + eleven + [] == eleven;
    assert QuerySince + ten + " " + QueryUntil + eleven == QuerySince + (ten + " ") + QueryUntil + eleven;
  }

  // ---------------------------------------------------------------------------
  // queryEvent and the handler

  /** One element of the JSON answer. */
  datatype HttpResult = HttpResult(eventBase64: string, eventCreatedOn: int)

  /** The results copy the rows one to one, in order. */
  predicate Copies(results: seq<HttpResult>, rows: seq<Storage.Model>)
  {
    && |results| == |rows|
    && forall i :: 0 <= i < |rows| ==>
         results[i].eventBase64 == rows[i].eventBase64 && results[i].eventCreatedOn == rows[i].eventCreatedOn
  }

  /** `queryEvent`: parse the query, read the window, copy the rows. An
      empty window gives an empty (not a missing) list. */
  method QueryEvent(store: Storage.Storage, query: string) returns (r: Result<seq<HttpResult>>)
    requires store.database != Storage.Nil
    ensures var p := ParseQuery(query);
            && (p.err.Some? ==> r == Err(Wrap("failed to parse", p.err.value)))
            && (p.err.None? && !Storage.ValidBounds(p.since, p.until) ==>
                  r == Err(Wrap("failed to read", Msg("invalid date"))))
            && (p.err.None? && Storage.ValidBounds(p.since, p.until) && store.database == Storage.Closed ==>
                  r == Err(Wrap("failed to read", Wrap("failed to read", Storage.DatabaseClosed))))
            && (r.Ok? <==> p.err.None? && Storage.ValidBounds(p.since, p.until) && store.database == Storage.Open)
            && (r.Ok? ==> Copies(r.value, Storage.Window(store.table, p.since, p.until)))
  {
    var p := ParseQuery(query);
    if p.err.Some? {
      return Err(Wrap("failed to parse", p.err.value));
    }
    var b := store.Read(p.since, p.until);
    if b.Err? {
      return Err(Wrap("failed to read", b.error));
    }
    var rows := b.value;
    if |rows| == 0 {
      return Ok([]);
    }
    var m := CopyRows(rows);
    return Ok(m);
  }

  /** The loop of `queryEvent` that fills the result slice `m`. */
  method CopyRows(rows: seq<Storage.Model>) returns (results: seq<HttpResult>)
    ensures Copies(results, rows)
  {
    var m := new HttpResult[|rows|];
    for i := 0 to |rows|
      invariant forall j :: 0 <= j < i ==>
                  m[j].eventBase64 == rows[j].eventBase64 && m[j].eventCreatedOn == rows[j].eventCreatedOn
    {
      m[i] := HttpResult(rows[i].eventBase64, rows[i].eventCreatedOn);
    }
    return m[..];
  }

  /** The body of an answer: the results, or `httpError`. */
  datatype Body = Results(items: seq<HttpResult>) | HttpError(code: int, message: string)

  datatype Response = Response(status: int, body: Body)

  /** The handler's decision: any error is a 404 carrying code 404 and the
      error's text; otherwise 200 with the results. */
  function Respond(r: Result<seq<HttpResult>>): (resp: Response)
    ensures resp.status == StatusOK <==> r.Ok?
    ensures resp.status == StatusOK || resp.status == StatusNotFound
    ensures r.Err? ==> resp.body == HttpError(StatusNotFound, Message(r.error))
  {
    match r
    case Err(e) => Response(StatusNotFound, HttpError(StatusNotFound, Message(e)))
    case Ok(items) => Response(StatusOK, Results(items))
  }

  /** `GET /events/?q=query` */
  method Handle(store: Storage.Storage, query: string) returns (resp: Response)
    requires store.database != Storage.Nil
    ensures var p := ParseQuery(query);
            && (resp.status == StatusOK <==>
                  p.err.None? && Storage.ValidBounds(p.since, p.until) && store.database == Storage.Open)
            && (resp.status != StatusOK ==>
                  resp.status == StatusNotFound && resp.body.HttpError? && resp.body.code == StatusNotFound)
            && (p.err.Some? ==> resp.body == HttpError(StatusNotFound, Message(Wrap("failed to parse", p.err.value))))
            && (p.err.None? && !Storage.ValidBounds(p.since, p.until) ==>
                  resp.body == HttpError(StatusNotFound, Message(Wrap("failed to read", Msg("invalid date")))))
            && (p.err.None? && Storage.ValidBounds(p.since, p.until) && store.database == Storage.Closed ==>
                  resp.body == HttpError(StatusNotFound,
                                         Message(Wrap("failed to read", Wrap("failed to read", Storage.DatabaseClosed)))))
            && (resp.status == StatusOK ==>
                  resp.body.Results? && Copies(resp.body.items, Storage.Window(store.table, p.since, p.until)))
  {
    var r := QueryEvent(store, query);
    resp := Respond(r);
  }

  /** The repository's handler test: a fresh store holding the fixture
      row answers an empty `q` with 404, and the hour from 10:00 to 11:00 on
      2023-01-01 with 200 and exactly that row. */
  method HandlerScenario() returns (empty: Response, hour: Response)
    ensures empty.status == StatusNotFound
    ensures hour == Response(StatusOK, Results([HttpResult("ZXZlbnRCYXNlNjQ=", 1672567200)]))
  {
    var store := new Storage.Storage();
    var _ := store.Init(None, None, None);
    var row := Storage.Model("ZXZlbnRCYXNlNjQ=", 1672567200);
    var _ := store.Create([row]);
    assert store.table == [row] && store.database == Storage.Open;
    EmptyQueryRefused();
    empty := Handle(store, "");
    HourAccepted();
    Storage.Singleton(row, 1672567200, 1672570800);
    assert Storage.Window(store.table, 1672567200, 1672570800) == [row];
    hour := Handle(store, HourQuery);
    assert hour.status == StatusOK && hour.body.Results?;
    CopiesOne(hour.body.items, row);
  }

  /** The only copy of a single row. */
  lemma CopiesOne(results: seq<HttpResult>, m: Storage.Model)
    requires Copies(results, [m])
    ensures results == [HttpResult(m.eventBase64, m.eventCreatedOn)]
  {
  }

  // ---------------------------------------------------------------------------
  // storeEvent

  /** What the persist loop does: the rows it added, its error, and how
      many items it took off the stream. */
  datatype Persisted = Persisted(stored: seq<Storage.Model>, err: Option<Error>, consumed: nat)

  /** The row stored for an item: its base64 text and its creation time. */
  function Record(item: Stream.Item, createdOn: int): Storage.Model
  {
    Storage.Model(Base64.Encode(item), createdOn)
  }

  /** The rows stored for items that all decode. */
  function Records(items: seq<Stream.Item>, decode: Stream.Decoder): seq<Storage.Model>
    requires forall i :: 0 <= i < |items| ==> decode(items[i]).Ok?
  {
    seq(|items|, i requires 0 <= i < |items| => Record(items[i], decode(items[i]).value))
  }

  /** The persist loop from position `i` on, after storing the rows `acc`,
      with the database open or closed: an item that does not decode ends
      it with its error, a failed create ends it with the create error, and
      otherwise the item's row is stored and the loop goes on. `consumed`
      counts the items taken from the start of the stream. */
  function PersistFrom(items: seq<Stream.Item>, decode: Stream.Decoder, open: bool, i: nat, acc: seq<Storage.Model>)
    : (p: Persisted)
    requires i <= |items|
    ensures i <= p.consumed <= |items| && |p.stored| - |acc| <= p.consumed - i
    decreases |items| - i
  {
    if i == |items| then Persisted(acc, None, i)
    else
      match decode(items[i])
      case Err(e) => Persisted(acc, Some(e), i + 1)
      case Ok(t) =>
        if !open then Persisted(acc, Some(Wrap("failed to create", Storage.DatabaseClosed)), i + 1)
        else PersistFrom(items, decode, open, i + 1, acc + [Record(items[i], t)])
  }

  /** The persist loop over the whole stream. */
  function Persist(items: seq<Stream.Item>, decode: Stream.Decoder, open: bool): (p: Persisted)
    ensures |p.stored| <= p.consumed <= |items|
  {
    PersistFrom(items, decode, open, 0, [])
  }

  /** With the database open, the loop from position `i` (not past the
      first undecodable item `k`) adds the rows of the items from `i` up to
      `k`, takes `k` too and returns its error; nil if all decode. */
  lemma {:induction false} PersistOpenFrom(items: seq<Stream.Item>, decode: Stream.Decoder, i: nat, acc: seq<Storage.Model>)
    requires i <= Stream.FirstUndecodable(items, decode)
    ensures var k := Stream.FirstUndecodable(items, decode);
            var p := PersistFrom(items, decode, true, i, acc);
            && p.stored == acc + Records(items[i..k], decode)
            && (k < |items| ==> p.err == Some(decode(items[k]).error) && p.consumed == k + 1)
            && (k == |items| ==> p.err == None && p.consumed == |items|)
    decreases |items| - i
  {
    var k := Stream.FirstUndecodable(items, decode);
    if i < k {
      var r := Record(items[i], decode(items[i]).value);
      PersistOpenFrom(items, decode, i + 1, acc + [r]);
      RecordsCons(items, decode, i, k);
      assert acc + [r] + Records(items[i + 1..k], decode) == acc + ([r] + Records(items[i + 1..k], decode));
    } else {
      assert Records(items[i..k], decode) == [];
      assert acc + [] == acc;
    }
  }

  /** The rows for the decodable items from `i` to `k`: the row of item
      `i`, then the rows of the rest. */
  lemma RecordsCons(items: seq<Stream.Item>, decode: Stream.Decoder, i: nat, k: nat)
    requires i < k <= |items|
    requires forall j :: i <= j < k ==> decode(items[j]).Ok?
    ensures Records(items[i..k], decode) == [Record(items[i], decode(items[i]).value)] + Records(items[i + 1..k], decode)
  {
    assert items[i..k] == [items[i]] + items[i + 1..k];
  }

  /** With the database open, the loop stores one row per item up to the
      first that does not decode, takes that one too and returns its error;
      if all decode it stores them all and returns nil. */
  lemma PersistOpen(items: seq<Stream.Item>, decode: Stream.Decoder)
    ensures var k := Stream.FirstUndecodable(items, decode);
            var p := Persist(items, decode, true);
            && p.stored == Records(items[..k], decode)
            && (k < |items| ==> p.err == Some(decode(items[k]).error) && p.consumed == k + 1)
            && (k == |items| ==> p.err == None && p.consumed == |items|)
  {
    var k := Stream.FirstUndecodable(items, decode);
    PersistOpenFrom(items, decode, 0, []);
    assert items[0..k] == items[..k];
    assert [] + Records(items[..k], decode) == Records(items[..k], decode);
  }

  /** Every stored row reads back, through base64, as the raw item it came
      from, with that item's creation time. */
  /** On a closed database nothing is stored: the first item ends the loop,
      with its decode error or else the wrapped create error; no item, nil. */
  lemma PersistClosed(items: seq<Stream.Item>, decode: Stream.Decoder)
    ensures Persist(items, decode, false).stored == []
    ensures |items| == 0 ==> Persist(items, decode, false) == Persisted([], None, 0)
    ensures |items| > 0 ==>
              Persist(items, decode, false).consumed == 1 &&
              Persist(items, decode, false).err
                == Some(if decode(items[0]).Err? then decode(items[0]).error
                        else Wrap("failed to create", Storage.DatabaseClosed))
  {
  }

  lemma StoredRowsDecode(items: seq<Stream.Item>, decode: Stream.Decoder, i: int)
    requires 0 <= i < |Persist(items, decode, true).stored|
    ensures Base64.Decode(Persist(items, decode, true).stored[i].eventBase64) == Some(items[i])
    ensures decode(items[i]) == Ok(Persist(items, decode, true).stored[i].eventCreatedOn)
  {
    PersistOpen(items, decode);
    Base64.DecodeEncode(items[i]);
  }

  /** `storeEvent`: take the queue's stream, and for each item in order
      decode it and create a one-row batch holding its base64 text and
      creation time; stop at the first error and return it. */
  method StoreEvent(stream: Result<seq<Stream.Item>>, decode: Stream.Decoder, store: Storage.Storage)
    returns (err: Option<Error>, consumed: nat)
    requires store.database != Storage.Nil
    modifies store
    ensures store.database == old(store.database)
    ensures stream.Err? ==>
              err == Some(Wrap("failed to get queue", stream.error)) && consumed == 0 && store.table == old(store.table)
    ensures stream.Ok? ==>
              var p := Persist(stream.value, decode, old(store.database) == Storage.Open);
              err == p.err && consumed == p.consumed && store.table == old(store.table) + p.stored
  {
    if stream.Err? {
      return Some(Wrap("failed to get queue", stream.error)), 0;
    }
    var items := stream.value;
    ghost var open := store.database == Storage.Open;
    ghost var whole := Persist(items, decode, open);
    ghost var stored: seq<Storage.Model> := [];
    var i := 0;
    while i < |items|
      invariant 0 <= i <= |items|
      invariant store.database == old(store.database)
      invariant store.table == old(store.table) + stored
      invariant whole == PersistFrom(items, decode, open, i, stored)
      decreases |items| - i
    {
      var e := StoreItem(items[i], decode, store);
      if e.Some? {
        return e, i + 1;
      }
      stored := stored + [Record(items[i], decode(items[i]).value)];
      i := i + 1;
    }
    return None, i;
  }

  /** The body of the `storeEvent` loop for one item: decode it, then
      create the one-row batch holding its base64 text and creation time. */
  method StoreItem(item: Stream.Item, decode: Stream.Decoder, store: Storage.Storage) returns (err: Option<Error>)
    requires store.database != Storage.Nil
    modifies store
    ensures store.database == old(store.database)
    ensures decode(item).Err? ==> err == Some(decode(item).error) && store.table == old(store.table)
    ensures decode(item).Ok? && store.database == Storage.Closed ==>
              err == Some(Wrap("failed to create", Storage.DatabaseClosed)) && store.table == old(store.table)
    ensures decode(item).Ok? && store.database == Storage.Open ==>
              err == None && store.table == old(store.table) + [Record(item, decode(item).value)]
  {
    var t := decode(item);
    if t.Err? {
      return Some(t.error);
    }
    var b := [Storage.Model(Base64.Encode(item), t.value)];
    assert Storage.ValidBatch(b);
    err := store.Create(b);
  }

  // ---------------------------------------------------------------------------
  // Init and Deinit

  /** Queue, Ssh, Storage, Watchdog, then the server's own `initHttp` and
      `listenHttp`. */
  const InitOrder: seq<Lifecycle.Component> :=
    [Lifecycle.Queue, Lifecycle.Ssh, Lifecycle.Storage, Lifecycle.Watchdog, Lifecycle.HttpEngine, Lifecycle.HttpListener]

  /** The four collaborators, in the opposite order to start-up. */
  const DeinitOrder: seq<Lifecycle.Component> := Lifecycle.Reverse(InitOrder[..4])

  /** `Init`: the start-up chain over `InitOrder`. */
  method Init(env: Lifecycle.Collaborators) returns (err: Option<Error>)
    modifies env
    ensures Lifecycle.Outcome(env.calls, err) == Lifecycle.InitChain(old(env.calls), InitOrder, env.initFails)
  {
    // What is left of the chain after each step that succeeded.
    ghost var whole := Lifecycle.InitChain(env.calls, InitOrder, env.initFails);
    ghost var pending := InitOrder;
    var e: Option<Error>;
    e := env.Init(Lifecycle.Queue);
    if e.Some? {
      return Some(Wrap("failed to init queue", e.value));
    }
    pending := pending[1..];
    assert whole == Lifecycle.InitChain(env.calls, pending, env.initFails);
    e := env.Init(Lifecycle.Ssh);
    if e.Some? {
      return Some(Wrap("failed to init ssh", e.value));
    }
    pending := pending[1..];
    assert whole == Lifecycle.InitChain(env.calls, pending, env.initFails);
    e := env.Init(Lifecycle.Storage);
    if e.Some? {
      return Some(Wrap("failed to init storage", e.value));
    }
    pending := pending[1..];
    assert whole == Lifecycle.InitChain(env.calls, pending, env.initFails);
    e := env.Init(Lifecycle.Watchdog);
    if e.Some? {
      return Some(Wrap("failed to init watchdog", e.value));
    }
    pending := pending[1..];
    assert whole == Lifecycle.InitChain(env.calls, pending, env.initFails);
    e := env.Init(Lifecycle.HttpEngine);
    if e.Some? {
      return Some(Wrap("failed to init http", e.value));
    }
    pending := pending[1..];
    assert whole == Lifecycle.InitChain(env.calls, pending, env.initFails);
    e := env.Init(Lifecycle.HttpListener);
    if e.Some? {
      return Some(Wrap("failed to listen http", e.value));
    }
    return None;
  }

  /** Once a collaborator fails, no collaborator after it in `InitOrder`
      is initialised. */
  lemma InitLeavesLaterUntouched(done: seq<Lifecycle.Call>, fails: map<Lifecycle.Component, Error>, j: int)
    requires Lifecycle.FirstFailure(InitOrder, fails) < j < |InitOrder|
    ensures |done| <= |Lifecycle.InitChain(done, InitOrder, fails).calls|
    ensures Lifecycle.InitCall(InitOrder[j]) !in Lifecycle.InitChain(done, InitOrder, fails).calls[|done|..]
  {
    Lifecycle.LaterUntouched(done, InitOrder, fails, j);
  }

  /** `Deinit`: every collaborator once, in `DeinitOrder`, whatever each
      answers; always nil. */
  method Deinit(env: Lifecycle.Collaborators) returns (err: Option<Error>)
    modifies env
    ensures env.calls == old(env.calls) + Lifecycle.DeinitCalls(DeinitOrder)
    ensures err == None
  {
    var _ := env.Deinit(Lifecycle.Watchdog);
    var _ := env.Deinit(Lifecycle.Storage);
    var _ := env.Deinit(Lifecycle.Ssh);
    var _ := env.Deinit(Lifecycle.Queue);
    return None;
  }
}
