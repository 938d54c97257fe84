# Sensor window statistics: a Dafny model

This project models the core of a Flink streaming job. The job reads JSON
sensor readings, counts the readings of every device (template id plus device
id) in sliding event-time windows, and upserts one statistic per window and
device into a MySQL or PostgreSQL table `sensor_statistics`. That table has a
unique key on `(template_id, device_id, window_start, window_end)`.

The model has five modules:

- `Sensor` (`sensor.dfy`): the reading and the statistic.
- `Pipeline` (`pipeline.dfy`): the record-level functions of the job:
  - JSON parsing with null-on-failure, and the null filter;
  - the timestamp assigner;
  - the grouping key with its count of 1;
  - the count reducer;
  - the window function.
- `Windowing` (`windowing.dfy`): what the job asks of the stream runtime:
  - the sliding window assigner;
  - the bounded-out-of-orderness watermark;
  - a window table class, `WindowOperator`, that keeps one reduced record per
    key and window, drops readings for windows that have already closed, and
    emits and removes a window once the watermark reaches its last
    millisecond (`end - 1`).

  Its invariant says that every open window holds exactly the reduction of the
  readings that belong to it.
- `Database` (`database.dfy`): the `DatabaseService` class:
  - the table as a map from unique key to row;
  - the single upsert and its conflict clause;
  - the batched upsert, which executes a batch every 100 statements;
  - the dialect dispatch and its errors;
  - the binding of the seven statement parameters.
- `Sink` (`sink.dfy`): the sink function that stamps `updated_time` and writes.
  It also relates the window table's output to the rows they fill.

Times are integer epoch milliseconds read at UTC. Clocks
(`System.currentTimeMillis()`, `LocalDateTime.now()`) become `now` parameters.
The JSON decoder becomes a function parameter `decode`. Whether a database
connection and statement succeed becomes a `connectionOk` parameter.

Lateness is decided per window, not per reading. Take a reading at 100 s
followed by one at 70 s. Once the periodic watermark has reached the window
stage it is 89.999 s, so the reading at
70 s is dropped from the window [30 s, 90 s) but still counted in
[60 s, 120 s). `Windowing.LateReadingExample` proves this case. The
bounded-out-of-orderness delay of 10 s is the only lateness in the code;
there is no separate allowed lateness.

## Model

| member | source | states |
|---|---|---|
| Pipeline.ParsedStreamAppend | src/main/java/com/example/flink/FlinkStreamingApplication.java:124-127 | A message whose parse yields null leaves the parsed stream unchanged. Any other message appends exactly its decoding, and that message was not blank. |
| Pipeline.ParsedStreamSound | src/main/java/com/example/flink/FlinkStreamingApplication.java:159-168 | Every reading that survives the filter is the decoding of some non-blank message. The stream is never longer than the input. |
| Pipeline.EventTimeChoice | src/main/java/com/example/flink/FlinkStreamingApplication.java:133-137 | A reading with a timestamp gets that timestamp as event time, whatever the clock says. A reading without one gets the clock. |
| Pipeline.MapToKeyStable | src/main/java/com/example/flink/FlinkStreamingApplication.java:176-178 | Readings of the same template and device get the same key. A mapped record carries count 1 and the reading itself. |
| Pipeline.KeyInjective | src/main/java/com/example/flink/FlinkStreamingApplication.java:177 | When neither template id contains `_`, equal keys hold exactly when template and device ids are both equal (both directions). |
| Pipeline.KeyCollision | src/main/java/com/example/flink/FlinkStreamingApplication.java:177 | Without that condition, two different devices ("a_b","c") and ("a","b_c") share a key. |
| Pipeline.ReduceAnyBracketing | src/main/java/com/example/flink/FlinkStreamingApplication.java:185-191 | Reducing in any bracketing gives the sum of all counts, with the key and sample of the first record. |
| Pipeline.ReduceCountsRecords | src/main/java/com/example/flink/FlinkStreamingApplication.java:185-191 | Reducing n records of count 1 gives count n. |
| Pipeline.ReduceAssociative | src/main/java/com/example/flink/FlinkStreamingApplication.java:187-189 | The reducer is associative. |
| Windowing.AssignWindowsExact | src/main/java/com/example/flink/FlinkStreamingApplication.java:143-145 | A reading at time t is assigned exactly the window starts s that are a multiple of the slide and satisfy s <= t < s + size, each once (both directions). |
| Windowing.AssignedWindowCount | src/main/java/com/example/flink/FlinkStreamingApplication.java:143-145 | When the size is a multiple of the slide, every reading falls into size/slide windows. |
| Windowing.DefaultWindows | src/main/java/com/example/flink/config/FlinkProperties.java:289-291 | With the defaults 60 s / 30 s, every reading is in 2 windows. A window's end instant belongs to the next window, not to the window itself. |
| Windowing.DefaultWindowsExample | src/main/java/com/example/flink/FlinkStreamingApplication.java:140-147 | Take readings at 5, 20, 35, 50 and 65 s of one device. The reading at 65 s goes to the windows starting at 60 s and 30 s. The windows starting at 0, 30 and 60 s hold 4, 3 and 1 readings. |
| Windowing.WatermarkNeverDecreases | src/main/java/com/example/flink/FlinkStreamingApplication.java:132 | The generated watermark never decreases as readings arrive. |
| Windowing.WatermarkTrailsMaximum | src/main/java/com/example/flink/FlinkStreamingApplication.java:132 | The watermark is at least every seen event time minus 10 001 ms, and equals the largest such value, or Long.MIN_VALUE before any reading. |
| Windowing.FiresWhenBoundPassed | src/main/java/com/example/flink/FlinkStreamingApplication.java:132 | A window ending at e fires exactly when the largest event time seen has reached e + 10 s (both directions). |
| Windowing.LateReadingExample | src/main/java/com/example/flink/FlinkStreamingApplication.java:130-147 | After a reading at 100 s the watermark is 89.999 s. A reading at 70 s is then accepted only by the window starting at 60 s. |
| Windowing.ContributorsHaveKey | src/main/java/com/example/flink/FlinkStreamingApplication.java:141-142 | Every reading counted in a window has that window's key. |
| Windowing.AccumulateKeepsAgreement | src/main/java/com/example/flink/FlinkStreamingApplication.java:140-147 | Adding a reading to its live windows keeps every open window equal to the reduction of exactly its readings. |
| Windowing.CloseKeepsAgreement | src/main/java/com/example/flink/FlinkStreamingApplication.java:140-147 | Removing the windows closed by a higher watermark keeps that agreement for the windows still open. |
| Windowing.WindowOperator.constructor | src/main/java/com/example/flink/FlinkStreamingApplication.java:131-145 | Starts with no windows, no readings and a Long.MIN_VALUE watermark, with the configured size and slide in milliseconds. |
| Windowing.WindowOperator.OnEvent | src/main/java/com/example/flink/FlinkStreamingApplication.java:130-146 | Records the reading at its event time and raises the maximum timestamp. Adds the keyed record to exactly the reading's assigned windows that have not closed, and keeps the table invariant. |
| Windowing.WindowOperator.OnMessage | src/main/java/com/example/flink/FlinkStreamingApplication.java:124-146 | A message that does not parse changes nothing. Otherwise the decoded reading is handled as in OnEvent. |
| Windowing.WindowOperator.AdvanceWatermark | src/main/java/com/example/flink/FlinkStreamingApplication.java:146-147 | The watermark rises to the generator's. The windows that closed are emitted once and removed. Each emitted statistic carries the sample's ids, the window bounds and the number of the window's readings. The other windows stay. |
| Database.DialectIgnoresCase | src/main/java/com/example/flink/service/DatabaseService.java:149-168 | Type names that are equal up to case select the same dialect or are both rejected, and a rejection names the type. |
| Database.DialectExamples | src/main/java/com/example/flink/service/DatabaseService.java:101-147 | "MySQL", "mysql" and "PostgreSQL" are accepted. "oracle" and "" raise the unsupported-type error. |
| Database.ParametersFillColumns | src/main/java/com/example/flink/service/DatabaseService.java:170-178 | The seven bound values fill the INSERT's columns in order. The inserted row carries every field of the statistic under its key. |
| Database.UpsertEffect | src/main/java/com/example/flink/service/DatabaseService.java:153-164 | A new key inserts the whole row. An existing key takes the new data_count and updated_time and keeps its other columns. Every other row is unchanged, and the table keeps one row per unique key. |
| Database.UpsertIdempotent | src/main/java/com/example/flink/service/DatabaseService.java:153-164 | Writing the same statistic again gives the same table, apart from updated_time. |
| Database.UpsertReplacesCount | src/main/java/com/example/flink/service/DatabaseService.java:156 | The later write's count replaces the earlier one; it is not added to it. |
| Database.UpsertCommutes | src/main/java/com/example/flink/service/DatabaseService.java:153-164 | Writes to different keys commute. |
| Database.UpsertAllUnique | src/main/java/com/example/flink/service/DatabaseService.java:114 | Any sequence of upserts keeps at most one row per unique key. |
| Database.BatchesCover | src/main/java/com/example/flink/service/DatabaseService.java:76-90 | The batches cover the input in order, each holds 1 to 100 statements, and there are ceil(n/100) of them. |
| Database.UpsertBatchesInOrder | src/main/java/com/example/flink/service/DatabaseService.java:76-92 | Executing the batches one after another applies the single upserts in input order. |
| Database.DatabaseService.constructor | src/main/java/com/example/flink/service/DatabaseService.java:17-25 | Holds the configured type and the given table. |
| Database.DatabaseService.InitializeDatabase | src/main/java/com/example/flink/service/DatabaseService.java:30-43 | An unsupported type is raised. An SQL failure is raised wrapped. On success the table exists and existing rows are kept. |
| Database.DatabaseService.UpsertStatistics | src/main/java/com/example/flink/service/DatabaseService.java:48-63 | Raises the unsupported type or the wrapped SQL failure and leaves the table unchanged. On success the table is the upsert of the statistic. |
| Database.DatabaseService.BatchUpsertStatistics | src/main/java/com/example/flink/service/DatabaseService.java:68-99 | On success the executed batches are those of 100 and the remainder, and the table is every statistic upserted in order. On failure the table is unchanged. |
| Sink.DatabaseSinkFunction.constructor | src/main/java/com/example/flink/FlinkStreamingApplication.java:236-244 | The sink writes through the given database service. |
| Sink.DatabaseSinkFunction.Invoke | src/main/java/com/example/flink/FlinkStreamingApplication.java:247-256 | The statistic is stamped with the current updated_time and upserted. A failure is raised again and leaves the table unchanged. |
| Sink.ReplayAbsorbed | src/main/java/com/example/flink/FlinkStreamingApplication.java:247-256 | When a replay rebuilds the same reduced record, the window function gives it a new created_time and the sink a new updated_time. Writing it after the first write changes only updated_time: the row keeps the first creation time and the window's count. |
| Sink.FiredWindowsHaveDistinctRows | src/main/java/com/example/flink/FlinkStreamingApplication.java:207-224 | Two different windows emitted by the window table produce statistics with different unique keys. |

## Left out

- The Kafka source, `main`, the Spring context, checkpointing, parallelism and the restart strategy: these are infrastructure with no logic of the core.
- The first watermark strategy (20 s, with ingestion-time timestamps from `System.currentTimeMillis()`) on the raw Kafka stream: the second strategy replaces its timestamps and watermarks before the windows.
- `sensorValue` and the other floating-point fields: the core never reads them.
- Jackson decoding: it is a `decode` parameter. The blank check before it is modelled, with `trim` as "every character up to U+0020".
- The commented-out Asia/Shanghai alternative for the timestamp: only UTC is active code.
- Calendar and time-zone arithmetic: each LocalDateTime read at UTC is its epoch-millisecond value.
- SQL text, JDBC, connections, `setAutoCommit(false)`, commit and rollback: a statement's effect is its effect on the table map. Success or failure is a parameter.
- Database.DatabaseService.BatchUpsertStatistics: a failure midway is modelled as leaving the table unchanged, as a transaction without commit does. Partial batches are not modelled.
- The PostgreSQL trigger that sets `updated_time` to the database clock on update, and MySQL's `ON UPDATE CURRENT_TIMESTAMP`: the model keeps the value bound by the statement.
- The auto-increment / BIGSERIAL `id` column: nothing in the core reads it.
- Database.EqualsIgnoreCase: case folding covers ASCII letters only. Java's `equalsIgnoreCase` also folds some non-ASCII letters (such as U+017F against "s").
- Reduce: counts are unbounded integers. Java's 64-bit `Long` wrap-around after 2^63 readings in one window is not modelled.
- Database.DatabaseService.BatchUpsertStatistics: `batchSize` is an unbounded counter. Java's `int` wrap-around after 2^31 statistics is not modelled.
- The runtime's periodic watermark timer and the final watermark at end of input: `AdvanceWatermark` is called whenever the runtime would emit a watermark.
- Java `null` ids in a reading: strings are never null in the model.
- Restoring from a checkpoint and re-reading the source: only the effect on the table of a replayed write that rebuilds the same reduced record is modelled (`Sink.ReplayAbsorbed`).
- Sink.ReplayAbsorbed: a replay can rebuild a different record. A replayed reading without a timestamp takes the clock after the restart as its event time, so it can leave the window that counted it the first time. Also, which windows accept a reading depends on when the periodic watermark reaches the window stage, which depends on processing time, and a replay need not repeat that: readings at 35 s, 100 s and 70 s count 1 in the window [30 s, 90 s) if a watermark arrives before the 70 s reading, and 2 if the replay reads all three first. The re-fired window's count then replaces the stored one, as `Database.UpsertReplacesCount` states; the model does not promise the first count survives.
- Windowing.WindowOperator.constructor: requires a positive size and slide. The sliding window assigner rejects anything else with an exception when the job is built; that error path is not modelled.
- Database.Unique: row keys are compared by exact string equality, as under PostgreSQL's default collation. The MySQL table's `utf8mb4_unicode_ci` collation ignores case, accents and trailing spaces. There, statistics for `T1_D1` and `t1_D1` land on one row, the later write wins, and `Database.UpsertCommutes` and `Sink.FiredWindowsHaveDistinctRows` do not carry over. Modelling it would need the Unicode collation tables.
- Database.DatabaseService.UpsertStatistics: the `VARCHAR(50)` length limit and the `NOT NULL` constraints on the id columns are not checked. A write they reject is covered only by the `connectionOk = false` failure.
