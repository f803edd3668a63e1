/** The persistence sink: a table of (event_base64, event_created_on) rows
    behind the `Storage` interface. The SQLite engine is replaced by the
    sequence of live rows in insertion order; the row filters are the SQL
    predicates the store sends, and gorm's soft delete is modelled as removal
    because every later query skips soft-deleted rows. */
module Storage {
  import opened Errors

  /** The largest batch `Create` accepts. */
  const BatchSize := 100

  /** The fields of `storage.Model` the program sets. */
  datatype Model = Model(eventBase64: string, eventCreatedOn: int)

  /** The `database` field: nil before `Init`, open after it, closed once
      `Close` has been called on it. */
  datatype Handle = Nil | Open | Closed

  /** What the SQL driver answers on a closed database. */
  const DatabaseClosed := Msg("sql: database is closed")

  /** `Create` accepts 1 to BatchSize rows. */
  predicate ValidBatch(data: seq<Model>)
  {
    0 < |data| <= BatchSize
  }

  /** `Read` and `Delete` accept only non-negative bounds. */
  predicate ValidBounds(since: int, until: int)
  {
    since >= 0 && until >= 0
  }

  /** "event_created_on >= ? AND event_created_on < ?" */
  predicate InRange(m: Model, since: int, until: int)
  {
    since <= m.eventCreatedOn < until
  }

  /** The rows a range query returns, in table order. */
  function Window(rows: seq<Model>, since: int, until: int): seq<Model>
    decreases |rows|
  {
    if rows == [] then []
    else (if InRange(rows[0], since, until) then [rows[0]] else []) + Window(rows[1..], since, until)
  }

  /** The rows a range delete leaves, in table order. */
  function Outside(rows: seq<Model>, since: int, until: int): seq<Model>
    decreases |rows|
  {
    if rows == [] then []
    else (if InRange(rows[0], since, until) then [] else [rows[0]]) + Outside(rows[1..], since, until)
  }

  /** One row after "UPDATE ... WHERE event_created_on = ?" with the struct
      `data`: gorm writes only the non-zero fields of the struct, so an empty
      payload leaves the row as it was. */
  function UpdateRow(m: Model, data: Model): Model
  {
    if m.eventCreatedOn == data.eventCreatedOn && data.eventBase64 != "" then
      m.(eventBase64 := data.eventBase64)
    else m
  }

  /** The table after an update keyed by `data.eventCreatedOn`. */
  function Updated(rows: seq<Model>, data: Model): seq<Model>
  {
    seq(|rows|, i requires 0 <= i < |rows| => UpdateRow(rows[i], data))
  }

  class Storage {
    var database: Handle
    var table: seq<Model>

    /** `storage.New`: no database yet. The table stands for the SQLite
        file's rows, which the first `Init` finds empty. */
    constructor ()
      ensures database == Nil && table == []
    {
      database := Nil;
      table := [];
    }

    /** `Init`: `openErr` and `migrateErr` are what gorm answers when it
        opens the file and migrates the schema, `cronErr` what the cron
        scheduler answers for the autoclean schedule (None when autoclean is
        off). A failed open leaves a closed handle behind, a failed
        migration closes the handle; the rows are never touched. */
    method Init(openErr: Option<Error>, migrateErr: Option<Error>, cronErr: Option<Error>)
      returns (err: Option<Error>)
      modifies this
      ensures table == old(table)
      ensures openErr.Some? ==> err == Some(Wrap("failed to connect database", openErr.value)) && database == Closed
      ensures openErr.None? && migrateErr.Some? ==>
                err == Some(Wrap("failed to migrate database", migrateErr.value)) && database == Closed
      ensures openErr.None? && migrateErr.None? && cronErr.Some? ==>
                err == Some(Wrap("failed to autoclean database", cronErr.value)) && database == Open
      ensures openErr.None? && migrateErr.None? && cronErr.None? ==> err == None && database == Open
    {
      if openErr.Some? {
        database := Closed;
        return Some(Wrap("failed to connect database", openErr.value));
      }
      database := Open;
      if migrateErr.Some? {
        var _ := Deinit();
        return Some(Wrap("failed to migrate database", migrateErr.value));
      }
      if cronErr.Some? {
        return Some(Wrap("failed to autoclean database", cronErr.value));
      }
      return None;
    }

    /** `Deinit`: closes the database if there is one; always succeeds, so it
        is safe before `Init` and when repeated. */
    method Deinit() returns (err: Option<Error>)
      modifies this
      ensures err == None
      ensures table == old(table)
      ensures database == if old(database) == Nil then Nil else Closed
    {
      if database == Nil {
        return None;
      }
      database := Closed;
      return None;
    }

    /** `Create`: a batch of 1..BatchSize rows is appended in full; any
        other batch is refused and nothing is written. */
    method Create(data: seq<Model>) returns (err: Option<Error>)
      requires database != Nil || !ValidBatch(data)
      modifies this
      ensures database == old(database)
      ensures !ValidBatch(data) ==> err == Some(Msg("invalid data length")) && table == old(table)
      ensures ValidBatch(data) && database == Closed ==>
                err == Some(Wrap("failed to create", DatabaseClosed)) && table == old(table)
      ensures ValidBatch(data) && database == Open ==> err == None && table == old(table) + data
    {
      if |data| == 0 || |data| > BatchSize {
        return Some(Msg("invalid data length"));
      }
      if database == Closed {
        return Some(Wrap("failed to create", DatabaseClosed));
      }
      table := table + data;
      return None;
    }

    /** `Delete(since, until)`: removes exactly the rows with
        since <= event_created_on < until. */
    method Delete(since: int, until: int) returns (err: Option<Error>)
      requires database != Nil || !ValidBounds(since, until)
      modifies this
      ensures database == old(database)
      ensures !ValidBounds(since, until) ==> err == Some(Msg("invalid date")) && table == old(table)
      ensures ValidBounds(since, until) && database == Closed ==>
                err == Some(Wrap("failed to delete", DatabaseClosed)) && table == old(table)
      ensures ValidBounds(since, until) && database == Open ==>
                err == None && table == Outside(old(table), since, until)
    {
      if since < 0 || until < 0 {
        return Some(Msg("invalid date"));
      }
      if database == Closed {
        return Some(Wrap("failed to delete", DatabaseClosed));
      }
      table := Outside(table, since, until);
      return None;
    }

    /** `Read(since, until)`: the rows with since <= event_created_on < until. */
    method Read(since: int, until: int) returns (r: Result<seq<Model>>)
      requires database != Nil || !ValidBounds(since, until)
      ensures !ValidBounds(since, until) ==> r == Err(Msg("invalid date"))
      ensures ValidBounds(since, until) && database == Closed ==>
                r == Err(Wrap("failed to read", DatabaseClosed))
      ensures ValidBounds(since, until) && database == Open ==> r == Ok(Window(table, since, until))
    {
      if since < 0 || until < 0 {
        return Err(Msg("invalid date"));
      }
      if database == Closed {
        return Err(Wrap("failed to read", DatabaseClosed));
      }
      return Ok(Window(table, since, until));
    }

    /** `Update(data)`: a nil record is refused; otherwise every row keyed by
        `data.eventCreatedOn` takes its payload. */
    method Update(data: Option<Model>) returns (err: Option<Error>)
      requires database != Nil || data.None?
      modifies this
      ensures database == old(database)
      ensures data.None? ==> err == Some(Msg("invalid data")) && table == old(table)
      ensures data.Some? && database == Closed ==>
                err == Some(Wrap("failed to update", DatabaseClosed)) && table == old(table)
      ensures data.Some? && database == Open ==> err == None && table == Updated(old(table), data.value)
    {
      if data.None? {
        return Some(Msg("invalid data"));
      }
      if database == Closed {
        return Some(Wrap("failed to update", DatabaseClosed));
      }
      table := Updated(table, data.value);
      return None;
    }
  }

  // ---------------------------------------------------------------------------
  // Properties of the range predicate and of the table operations

  /** A range query keeps table order: it distributes over concatenation. */
  lemma {:induction false} WindowAppend(a: seq<Model>, b: seq<Model>, since: int, until: int)
    ensures Window(a + b, since, until) == Window(a, since, until) + Window(b, since, until)
    decreases |a|
  {
    if a == [] {
      assert a + b == b;
    } else {
      assert (a + b)[0] == a[0] && (a + b)[1..] == a[1..] + b;
      WindowAppend(a[1..], b, since, until);
    }
  }

  /** So does a range delete. */
  lemma {:induction false} OutsideAppend(a: seq<Model>, b: seq<Model>, since: int, until: int)
    ensures Outside(a + b, since, until) == Outside(a, since, until) + Outside(b, since, until)
    decreases |a|
  {
    if a == [] {
      assert a + b == b;
    } else {
      assert (a + b)[0] == a[0] && (a + b)[1..] == a[1..] + b;
      OutsideAppend(a[1..], b, since, until);
    }
  }

  /** A read returns every row in range, as often as the table holds it,
      and no other row. */
  lemma {:induction false} WindowCount(rows: seq<Model>, since: int, until: int, m: Model)
    ensures multiset(Window(rows, since, until))[m]
         == if InRange(m, since, until) then multiset(rows)[m] else 0
    decreases |rows|
  {
    if rows != [] {
      assert rows == [rows[0]] + rows[1..];
      WindowCount(rows[1..], since, until, m);
    }
  }

  /** A delete keeps every row out of range, as often as the table holds it,
      and no other row. */
  lemma {:induction false} OutsideCount(rows: seq<Model>, since: int, until: int, m: Model)
    ensures multiset(Outside(rows, since, until))[m]
         == if InRange(m, since, until) then 0 else multiset(rows)[m]
    decreases |rows|
  {
    if rows != [] {
      assert rows == [rows[0]] + rows[1..];
      OutsideCount(rows[1..], since, until, m);
    }
  }

  /** A range with since >= until matches nothing. */
  lemma {:induction false} EmptyRange(rows: seq<Model>, since: int, until: int)
    requires since >= until
    ensures Window(rows, since, until) == []
    decreases |rows|
  {
    if rows != [] {
      EmptyRange(rows[1..], since, until);
    }
  }

  /** What a create adds is what a read of the same range adds. */
  lemma ReadAfterCreate(rows: seq<Model>, data: seq<Model>, since: int, until: int)
    ensures Window(rows + data, since, until) == Window(rows, since, until) + Window(data, since, until)
  {
    WindowAppend(rows, data, since, until);
  }

  /** Round trip: a created record is read back by the window
      [eventCreatedOn, eventCreatedOn + 1), after whatever was there before
      in that window. */
  lemma CreateThenRead(rows: seq<Model>, m: Model)
    ensures Window(rows + [m], m.eventCreatedOn, m.eventCreatedOn + 1)
         == Window(rows, m.eventCreatedOn, m.eventCreatedOn + 1) + [m]
  {
    WindowAppend(rows, [m], m.eventCreatedOn, m.eventCreatedOn + 1);
  }

  /** The until bound is exclusive: of two rows T and T + 5 apart, the
      window [T, T + 5) holds only the first. */
  lemma UntilExcluded(a: Model, b: Model)
    requires b.eventCreatedOn == a.eventCreatedOn + 5
    ensures Window([a, b], a.eventCreatedOn, b.eventCreatedOn) == [a]
  {
    assert [a, b] == [a] + [b];
    WindowAppend([a], [b], a.eventCreatedOn, b.eventCreatedOn);
  }

  /** A delete and a read of the same range split the table: every row is
      either read or kept, never both and never lost. */
  lemma DeletePartitions(rows: seq<Model>, since: int, until: int)
    ensures multiset(Window(rows, since, until)) + multiset(Outside(rows, since, until)) == multiset(rows)
  {
    var w, o := Window(rows, since, until), Outside(rows, since, until);
    forall m ensures (multiset(w) + multiset(o))[m] == multiset(rows)[m] {
      WindowCount(rows, since, until, m);
      OutsideCount(rows, since, until, m);
    }
  }

  /** The filters on a single row. */
  lemma Singleton(x: Model, since: int, until: int)
    ensures Window([x], since, until) == if InRange(x, since, until) then [x] else []
    ensures Outside([x], since, until) == if InRange(x, since, until) then [] else [x]
  {
    assert [x][1..] == [];
  }

  /** After a delete, reading any range returns what it returned before
      minus the deleted rows, in the same order. */
  lemma {:induction false} ReadAfterDelete(rows: seq<Model>, since: int, until: int, s: int, u: int)
    ensures Window(Outside(rows, since, until), s, u) == Outside(Window(rows, s, u), since, until)
    decreases |rows|
  {
    if rows != [] {
      var x, tail := rows[0], rows[1..];
      assert rows == [x] + tail;
      ReadAfterDelete(tail, since, until, s, u);
      Singleton(x, since, until);
      Singleton(x, s, u);
      OutsideAppend([x], tail, since, until);
      WindowAppend(Outside([x], since, until), Outside(tail, since, until), s, u);
      WindowAppend([x], tail, s, u);
      OutsideAppend(Window([x], s, u), Window(tail, s, u), since, until);
    }
  }

  /** In particular the deleted range reads back empty. */
  lemma {:induction false} DeletedRangeEmpty(rows: seq<Model>, since: int, until: int)
    ensures Window(Outside(rows, since, until), since, until) == []
    decreases |rows|
  {
    if rows != [] {
      var x, tail := rows[0], rows[1..];
      assert rows == [x] + tail;
      DeletedRangeEmpty(tail, since, until);
      Singleton(x, since, until);
      OutsideAppend([x], tail, since, until);
      WindowAppend(Outside([x], since, until), Outside(tail, since, until), since, until);
    }
  }

  /** An update touches only rows with the key, keeps every key, and gives a
      keyed row the new payload unless that payload is empty. */
  lemma UpdateEffect(rows: seq<Model>, data: Model, i: int)
    requires 0 <= i < |rows|
    ensures |Updated(rows, data)| == |rows|
    ensures Updated(rows, data)[i].eventCreatedOn == rows[i].eventCreatedOn
    ensures rows[i].eventCreatedOn != data.eventCreatedOn || data.eventBase64 == "" ==>
              Updated(rows, data)[i] == rows[i]
    ensures rows[i].eventCreatedOn == data.eventCreatedOn && data.eventBase64 != "" ==>
              Updated(rows, data)[i].eventBase64 == data.eventBase64
  {
  }

  /** Reading after an update gives the updated rows of the read: an update
      never moves a row into or out of a range. */
  lemma {:induction false} ReadAfterUpdate(rows: seq<Model>, data: Model, since: int, until: int)
    ensures Window(Updated(rows, data), since, until) == Updated(Window(rows, since, until), data)
    decreases |rows|
  {
    if rows != [] {
      var up := Updated(rows, data);
      assert up[1..] == Updated(rows[1..], data);
      assert up == [UpdateRow(rows[0], data)] + up[1..];
      ReadAfterUpdate(rows[1..], data, since, until);
      var w := Window(rows[1..], since, until);
      if InRange(rows[0], since, until) {
        assert Updated([rows[0]] + w, data) == [UpdateRow(rows[0], data)] + Updated(w, data);
      }
    }
  }

  /** Repeating an update changes nothing more. */
  lemma UpdateIdempotent(rows: seq<Model>, data: Model)
    ensures Updated(Updated(rows, data), data) == Updated(rows, data)
  {
  }

  /** The storage tests' update scenario: after creating m and updating it
      with a non-empty payload, reading [1, m.eventCreatedOn + 1) gives one
      row with the new payload. */
  lemma UpdateThenRead(m: Model, payload: string)
    requires m.eventCreatedOn >= 1 && payload != ""
    ensures Window(Updated([m], Model(payload, m.eventCreatedOn)), 1, m.eventCreatedOn + 1)
         == [Model(payload, m.eventCreatedOn)]
  {
    assert Updated([m], Model(payload, m.eventCreatedOn)) == [Model(payload, m.eventCreatedOn)];
  }
}
