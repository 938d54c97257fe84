/** The statistics store (service/DatabaseService.java): the table
    `sensor_statistics` as a map from its unique key
    `(template_id, device_id, window_start, window_end)` to its row, the
    insert-or-update statement, the batched variant and the choice between the
    MySQL and PostgreSQL statements. The database server's behaviour is
    reduced to its effect on that map; whether the connection and the
    statement succeed is a parameter. */
module Database {
  import opened Sensor

  /** `batchUpsertStatistics` executes its statement batch every 100 rows. */
  const MaxBatchSize: int := 100

  /** The SQL dialects the service can produce statements for. */
  datatype Dialect = MySql | PostgreSql

  /** The exceptions the service lets escape. */
  datatype Error =
    | UnsupportedDatabaseType(databaseType: string)  // IllegalArgumentException
    | InitializationFailed                           // RuntimeException wrapping an SQLException
    | UpsertFailed
    | BatchUpsertFailed

  datatype Result<T> = Ok(value: T) | Err(error: Error)

  // ---------------------------------------------------------------------------
  // Database-type dispatch: getCreateTableSql and getUpsertSql

  /** Case folding of the letters A-Z. */
  function LowerAscii(c: char): char {
    if 'A' <= c <= 'Z' then (c as int + 32) as char else c
  }

  /** `String.equalsIgnoreCase`, for ASCII letters. */
  predicate EqualsIgnoreCase(a: string, b: string) {
    |a| == |b| && forall i :: 0 <= i < |a| ==> LowerAscii(a[i]) == LowerAscii(b[i])
  }

  /** The dialect both statement builders select for the configured type;
      any other type raises IllegalArgumentException naming it. */
  function DialectOf(databaseType: string): Result<Dialect> {
    if EqualsIgnoreCase("mysql", databaseType) then Ok(MySql)
    else if EqualsIgnoreCase("postgresql", databaseType) then Ok(PostgreSql)
    else Err(UnsupportedDatabaseType(databaseType))
  }

  lemma EqualsIgnoreCaseTransitive(a: string, b: string, c: string)
    requires EqualsIgnoreCase(a, b) && EqualsIgnoreCase(b, c)
    ensures EqualsIgnoreCase(a, c)
  {
    forall i | 0 <= i < |a|
      ensures LowerAscii(a[i]) == LowerAscii(c[i])
    {
      assert LowerAscii(a[i]) == LowerAscii(b[i]);
    }
  }

  /** The choice ignores letter case: two type names equal up to case select
      the same dialect, or are both rejected. */
  lemma DialectIgnoresCase(a: string, b: string)
    requires EqualsIgnoreCase(a, b)
    ensures DialectOf(a).Ok? <==> DialectOf(b).Ok?
    ensures DialectOf(a).Ok? ==> DialectOf(a) == DialectOf(b)
    ensures DialectOf(a).Err? ==> DialectOf(a) == Err(UnsupportedDatabaseType(a))
  {
    forall x | x == "mysql" || x == "postgresql"
      ensures EqualsIgnoreCase(x, a) <==> EqualsIgnoreCase(x, b)
    {
      assert EqualsIgnoreCase(b, a) by {
        forall i | 0 <= i < |b|
          ensures LowerAscii(b[i]) == LowerAscii(a[i])
        {
          assert LowerAscii(a[i]) == LowerAscii(b[i]);
        }
      }
      if EqualsIgnoreCase(x, a) {
        EqualsIgnoreCaseTransitive(x, a, b);
      }
      if EqualsIgnoreCase(x, b) {
        EqualsIgnoreCaseTransitive(x, b, a);
      }
    }
  }

  /** Examples of the dispatch: any capitalisation of the two names is
      accepted, anything else is rejected. */
  lemma DialectExamples()
    ensures DialectOf("MySQL") == Ok(MySql) && DialectOf("mysql") == Ok(MySql)
    ensures DialectOf("PostgreSQL") == Ok(PostgreSql)
    ensures DialectOf("oracle") == Err(UnsupportedDatabaseType("oracle"))
    ensures DialectOf("") == Err(UnsupportedDatabaseType(""))
  {
    assert LowerAscii('M') == 'm' && LowerAscii('S') == 's' && LowerAscii('Q') == 'q' && LowerAscii('L') == 'l';
    assert LowerAscii('P') == 'p';
    assert !EqualsIgnoreCase("mysql", "PostgreSQL");
    assert LowerAscii('o') != LowerAscii('p');
    assert LowerAscii('o') != LowerAscii('m');
  }

  // ---------------------------------------------------------------------------
  // Rows and the unique key

  /** The columns of the unique constraint `uk_template_device_window`. */
  datatype RowKey = RowKey(templateId: string, deviceId: string, windowStart: int, windowEnd: int)

  /** The seven written columns of a row (the generated id is not modelled). */
  datatype Row = Row(
    templateId: string,
    deviceId: string,
    dataCount: int,
    windowStart: int,
    windowEnd: int,
    createdTime: int,
    updatedTime: int)

  type Table = map<RowKey, Row>

  function KeyOfRow(r: Row): RowKey {
    RowKey(r.templateId, r.deviceId, r.windowStart, r.windowEnd)
  }

  function KeyOfStatistics(s: SensorStatistics): RowKey {
    RowKey(s.templateId, s.deviceId, s.windowStart, s.windowEnd)
  }

  /** A table where every row is stored under its own key columns: by the
      unique constraint there is at most one row per window key. Key columns
      are compared exactly; MySQL's `utf8mb4_unicode_ci` collation is not
      modelled. */
  predicate Unique(t: Table) {
    forall k | k in t :: KeyOfRow(t[k]) == k
  }

  // ---------------------------------------------------------------------------
  // Statement parameters: setStatementParameters

  /** A value bound to a `?` placeholder. */
  datatype SqlValue = SqlString(text: string) | SqlLong(number: int) | SqlTimestamp(time: int)

  /** The values bound to placeholders 1 to 7, in that order. */
  function StatementParameters(s: SensorStatistics): seq<SqlValue> {
    [SqlString(s.templateId), SqlString(s.deviceId), SqlLong(s.dataCount),
     SqlTimestamp(s.windowStart), SqlTimestamp(s.windowEnd),
     SqlTimestamp(s.createdTime), SqlTimestamp(s.updatedTime)]
  }

  /** The row the INSERT builds from its placeholders, which fill the column
      list `(template_id, device_id, data_count, window_start, window_end,
      created_time, updated_time)` position by position. */
  function InsertedRow(p: seq<SqlValue>): Option<Row> {
    if |p| == 7 && p[0].SqlString? && p[1].SqlString? && p[2].SqlLong? &&
       p[3].SqlTimestamp? && p[4].SqlTimestamp? && p[5].SqlTimestamp? && p[6].SqlTimestamp?
    then Some(Row(p[0].text, p[1].text, p[2].number, p[3].time, p[4].time, p[5].time, p[6].time))
    else None
  }

  /** The row a statistic is inserted as. */
  function RowOf(s: SensorStatistics): Row {
    Row(s.templateId, s.deviceId, s.dataCount, s.windowStart, s.windowEnd, s.createdTime, s.updatedTime)
  }

  /** The binding order matches the INSERT's column list: the inserted row
      carries every field of the statistic in its own column, under the
      statistic's key. */
  lemma ParametersFillColumns(s: SensorStatistics)
    ensures InsertedRow(StatementParameters(s)) == Some(RowOf(s))
    ensures KeyOfRow(RowOf(s)) == KeyOfStatistics(s)
  {
  }

  // ---------------------------------------------------------------------------
  // The upsert statement

  /** `INSERT ... ON DUPLICATE KEY UPDATE` / `ON CONFLICT ... DO UPDATE`: a new
      key inserts the whole row; an existing key gets the new `data_count` and
      `updated_time` and keeps its other columns. */
  function Upsert(t: Table, s: SensorStatistics): Table {
    var k := KeyOfStatistics(s);
    if k in t then t[k := t[k].(dataCount := s.dataCount, updatedTime := s.updatedTime)]
    else t[k := RowOf(s)]
  }

  /** The single upserts of `stats`, in order. */
  function UpsertAll(t: Table, stats: seq<SensorStatistics>): Table
    decreases |stats|
  {
    if stats == [] then t else UpsertAll(Upsert(t, stats[0]), stats[1..])
  }

  /** What one upsert does to the table: the statistic's key holds a row
      afterwards; a new key gets all seven fields; an existing key keeps its
      key columns and creation time and takes the new count and update time;
      and every other row is left as it was. */
  lemma UpsertEffect(t: Table, s: SensorStatistics)
    requires Unique(t)
    ensures var k := KeyOfStatistics(s);
      var u := Upsert(t, s);
      && Unique(u)
      && u.Keys == t.Keys + {k}
      && (k !in t ==> u[k] == RowOf(s))
      && (k in t ==> KeyOfRow(u[k]) == KeyOfRow(t[k]) && u[k].createdTime == t[k].createdTime)
      && u[k].dataCount == s.dataCount && u[k].updatedTime == s.updatedTime
      && (forall k' | k' in t && k' != k :: u[k'] == t[k'])
  {
  }

  /** Equal tables but for the `updated_time` column. */
  predicate SameExceptUpdatedTime(t1: Table, t2: Table) {
    t1.Keys == t2.Keys &&
    forall k | k in t1 :: t1[k].(updatedTime := 0) == t2[k].(updatedTime := 0)
  }

  /** Writing the same statistic again with only a new update time gives the
      table that writing it once with that time gives, which differs from the
      first write only in `updated_time`. The count is replaced, never added
      to. */
  lemma UpsertIdempotent(t: Table, s: SensorStatistics, updatedTime: int)
    ensures var again := s.(updatedTime := updatedTime);
      && Upsert(Upsert(t, s), again) == Upsert(t, again)
      && SameExceptUpdatedTime(Upsert(Upsert(t, s), again), Upsert(t, s))
      && Upsert(Upsert(t, s), s) == Upsert(t, s)
  {
    var k := KeyOfStatistics(s);
    var again := s.(updatedTime := updatedTime);
    var u := Upsert(t, s);
    assert KeyOfStatistics(again) == k;
    if k in t {
      assert Upsert(u, again) == t[k := t[k].(dataCount := s.dataCount, updatedTime := updatedTime)];
    } else {
      assert Upsert(u, again) == t[k := RowOf(s)][k := RowOf(s).(dataCount := s.dataCount, updatedTime := updatedTime)];
      assert RowOf(s).(dataCount := s.dataCount, updatedTime := updatedTime) == RowOf(again);
    }
  }

  /** A later write replaces the count of an earlier write to the same key. */
  lemma UpsertReplacesCount(t: Table, s1: SensorStatistics, s2: SensorStatistics)
    requires KeyOfStatistics(s1) == KeyOfStatistics(s2)
    ensures Upsert(Upsert(t, s1), s2)[KeyOfStatistics(s2)].dataCount == s2.dataCount
  {
  }

  /** Writes to different keys commute: the order in which the statistics of
      different windows reach the store does not matter. Keys are compared
      exactly, as under PostgreSQL's default collation. */
  lemma UpsertCommutes(t: Table, s1: SensorStatistics, s2: SensorStatistics)
    requires KeyOfStatistics(s1) != KeyOfStatistics(s2)
    ensures Upsert(Upsert(t, s1), s2) == Upsert(Upsert(t, s2), s1)
  {
    var k1, k2 := KeyOfStatistics(s1), KeyOfStatistics(s2);
    var a, b := Upsert(Upsert(t, s1), s2), Upsert(Upsert(t, s2), s1);
    assert a.Keys == b.Keys;
    forall k | k in a
      ensures a[k] == b[k]
    {
    }
  }

  lemma {:induction false} UpsertAllAppend(t: Table, a: seq<SensorStatistics>, b: seq<SensorStatistics>)
    ensures UpsertAll(t, a + b) == UpsertAll(UpsertAll(t, a), b)
    decreases |a|
  {
    if a == [] {
      assert a + b == b;
    } else {
      assert (a + b)[0] == a[0] && (a + b)[1..] == a[1..] + b;
      UpsertAllAppend(Upsert(t, a[0]), a[1..], b);
    }
  }

  /** Any sequence of upserts keeps at most one row per window key. */
  lemma {:induction false} UpsertAllUnique(t: Table, stats: seq<SensorStatistics>)
    requires Unique(t)
    ensures Unique(UpsertAll(t, stats))
    decreases |stats|
  {
    if stats != [] {
      UpsertEffect(t, stats[0]);
      UpsertAllUnique(Upsert(t, stats[0]), stats[1..]);
    }
  }

  // ---------------------------------------------------------------------------
  // Batching

  /** The statement batches of `batchUpsertStatistics`: consecutive groups of
      `MaxBatchSize`, the last one holding the remainder. */
  function Batches<T>(xs: seq<T>): seq<seq<T>>
    decreases |xs|
  {
    if |xs| <= MaxBatchSize then (if xs == [] then [] else [xs])
    else [xs[..MaxBatchSize]] + Batches(xs[MaxBatchSize..])
  }

  function Flatten<T>(xss: seq<seq<T>>): seq<T>
    decreases |xss|
  {
    if xss == [] then [] else xss[0] + Flatten(xss[1..])
  }

  /** The batches cover the input exactly once and in order, every batch holds
      between 1 and 100 elements, and there are ceil(n / 100) of them: none
      for an empty input. */
  lemma {:induction false} BatchesCover<T>(xs: seq<T>)
    ensures Flatten(Batches(xs)) == xs
    ensures forall i :: 0 <= i < |Batches(xs)| ==> 0 < |Batches(xs)[i]| <= MaxBatchSize
    ensures |Batches(xs)| == (|xs| + MaxBatchSize - 1) / MaxBatchSize
    decreases |xs|
  {
    if |xs| > MaxBatchSize {
      var rest := xs[MaxBatchSize..];
      BatchesCover(rest);
      assert Batches(xs)[1..] == Batches(rest);
      assert xs[..MaxBatchSize] + rest == xs;
    } else if xs != [] {
      assert Flatten([xs]) == xs + Flatten([]);
    }
  }

  lemma {:induction false} BatchesAppend<T>(a: seq<T>, b: seq<T>)
    requires |a| % MaxBatchSize == 0
    ensures Batches(a + b) == Batches(a) + Batches(b)
    decreases |a|
  {
    if a == [] {
      assert a + b == b;
    } else if |a + b| <= MaxBatchSize {
      assert |a| == MaxBatchSize && b == [];
      assert a + b == a;
    } else {
      assert (a + b)[..MaxBatchSize] == a[..MaxBatchSize];
      assert (a + b)[MaxBatchSize..] == a[MaxBatchSize..] + b;
      BatchesAppend(a[MaxBatchSize..], b);
      if |a| == MaxBatchSize {
        assert a[MaxBatchSize..] == [] && a[..MaxBatchSize] == a;
      }
    }
  }

  /** After whole batches, the count of added statements is a multiple of
      100 exactly when the buffer is empty or full. */
  lemma BatchBoundary(n: int, flushed: int)
    requires flushed % MaxBatchSize == 0 && flushed <= n <= flushed + MaxBatchSize
    ensures n % MaxBatchSize == 0 <==> n == flushed || n == flushed + MaxBatchSize
  {
    var q := flushed / MaxBatchSize;
    assert flushed == q * MaxBatchSize;
    if n != flushed && n != flushed + MaxBatchSize {
      assert n == q * MaxBatchSize + (n - flushed) && 0 < n - flushed < MaxBatchSize;
      assert n % MaxBatchSize == n - flushed;
    }
  }

  /** Executing a buffer of 1 to 100 statements after whole batches. */
  lemma FlushStep(t: Table, done: seq<SensorStatistics>, buffer: seq<SensorStatistics>)
    requires |done| % MaxBatchSize == 0 && 0 < |buffer| <= MaxBatchSize
    ensures Batches(done + buffer) == Batches(done) + [buffer]
    ensures UpsertAll(t, done + buffer) == UpsertAll(UpsertAll(t, done), buffer)
  {
    BatchesAppend(done, buffer);
    UpsertAllAppend(t, done, buffer);
  }

  /** Executing the batches one after another is applying the single upserts
      in input order. */
  function UpsertBatches(t: Table, batches: seq<seq<SensorStatistics>>): Table
    decreases |batches|
  {
    if batches == [] then t else UpsertBatches(UpsertAll(t, batches[0]), batches[1..])
  }

  lemma {:induction false} UpsertBatchesInOrder(t: Table, batches: seq<seq<SensorStatistics>>)
    ensures UpsertBatches(t, batches) == UpsertAll(t, Flatten(batches))
    decreases |batches|
  {
    if batches != [] {
      UpsertBatchesInOrder(UpsertAll(t, batches[0]), batches[1..]);
      UpsertAllAppend(t, batches[0], Flatten(batches[1..]));
    }
  }

  // ---------------------------------------------------------------------------
  // The service

  /** What a write raises: the unsupported type first (the statement is chosen
      before the connection is opened), then any SQL failure, wrapped. A table
      that was never created makes the statement fail. */
  function WriteOutcome(databaseType: string, tableExists: bool, connectionOk: bool, failure: Error): Outcome<Error> {
    if DialectOf(databaseType).Err? then Fail(DialectOf(databaseType).error)
    else if !tableExists || !connectionOk then Fail(failure)
    else Pass
  }

  /** The store behind the data source. `connectionOk` parameters stand for
      the outcome of opening the connection and executing the statement. */
  class DatabaseService {
    const databaseType: string
    var tableExists: bool
    var table: Table

    ghost predicate Valid()
      reads this
    {
      Unique(table)
    }

    constructor (databaseType: string, tableExists: bool, table: Table)
      requires Unique(table)
      ensures Valid()
      ensures this.databaseType == databaseType && this.tableExists == tableExists && this.table == table
    {
      this.databaseType := databaseType;
      this.tableExists := tableExists;
      this.table := table;
    }

    /** initializeDatabase: `CREATE TABLE IF NOT EXISTS` leaves existing rows
        alone; an unsupported type or an SQL failure is raised. */
    method InitializeDatabase(connectionOk: bool) returns (r: Outcome<Error>)
      requires Valid()
      modifies this
      ensures Valid()
      ensures r == WriteOutcome(databaseType, true, connectionOk, InitializationFailed)
      ensures table == old(table)
      ensures tableExists == (old(tableExists) || r.Pass?)
    {
      var dialect := DialectOf(databaseType);
      if dialect.Err? {
        return Fail(dialect.error);
      }
      if !connectionOk {
        return Fail(InitializationFailed);
      }
      tableExists := true;
      r := Pass;
    }

    /** upsertStatistics: one statement with the statistic's seven values. */
    method UpsertStatistics(s: SensorStatistics, connectionOk: bool) returns (r: Outcome<Error>)
      requires Valid()
      modifies this
      ensures Valid()
      ensures r == WriteOutcome(databaseType, tableExists, connectionOk, UpsertFailed)
      ensures table == if r.Pass? then Upsert(old(table), s) else old(table)
      ensures tableExists == old(tableExists)
    {
      var dialect := DialectOf(databaseType);
      if dialect.Err? {
        return Fail(dialect.error);
      }
      if !tableExists || !connectionOk {
        return Fail(UpsertFailed);
      }
      UpsertEffect(table, s);
      table := Upsert(table, s);
      r := Pass;
    }

    /** batchUpsertStatistics: in one transaction, every statistic's values are
        added to the statement batch, the batch is executed whenever the count
        reaches a multiple of 100 and once more for a remainder, then the
        transaction is committed. `executed` lists the batches in execution
        order. */
    method BatchUpsertStatistics(stats: seq<SensorStatistics>, connectionOk: bool)
      returns (r: Outcome<Error>, ghost executed: seq<seq<SensorStatistics>>)
      requires Valid()
      modifies this
      ensures Valid()
      ensures r == WriteOutcome(databaseType, tableExists, connectionOk, BatchUpsertFailed)
      ensures r.Pass? ==> executed == Batches(stats) && table == UpsertAll(old(table), stats)
      ensures r.Fail? ==> executed == [] && table == old(table)
      ensures tableExists == old(tableExists)
    {
      executed := [];
      var dialect := DialectOf(databaseType);
      if dialect.Err? {
        return Fail(dialect.error), executed;
      }
      if !tableExists || !connectionOk {
        return Fail(BatchUpsertFailed), executed;
      }
      var pending := table;
      var buffer: seq<SensorStatistics> := [];
      var batchSize := 0;
      ghost var flushed := 0;
      for i := 0 to |stats|
        invariant table == old(table) && tableExists == old(tableExists)
        invariant batchSize == i && flushed <= i < flushed + MaxBatchSize && flushed % MaxBatchSize == 0
        invariant buffer == stats[flushed..i]
        invariant executed == Batches(stats[..flushed])
        invariant pending == UpsertAll(table, stats[..flushed])
      {
        buffer := buffer + [stats[i]];
        batchSize := batchSize + 1;
        BatchBoundary(batchSize, flushed);
        if batchSize % MaxBatchSize == 0 {
          FlushStep(table, stats[..flushed], buffer);
          assert stats[..flushed] + buffer == stats[..i + 1];
          pending := UpsertAll(pending, buffer);
          executed := executed + [buffer];
          buffer := [];
          flushed := i + 1;
        }
      }
      BatchBoundary(batchSize, flushed);
      if batchSize % MaxBatchSize != 0 {
        FlushStep(table, stats[..flushed], buffer);
        assert buffer == stats[flushed..];
        assert stats[..flushed] + stats[flushed..] == stats;
        pending := UpsertAll(pending, buffer);
        executed := executed + [buffer];
      } else {
        assert stats[..flushed] == stats;
      }
      UpsertAllUnique(table, stats);
      table := pending;
      r := Pass;
    }
  }
}
