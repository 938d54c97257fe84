/** The database sink of the streaming job (DatabaseSinkFunction in
    FlinkStreamingApplication.java): each window statistic is stamped with the
    write time and upserted; a failed write is raised again to the job. */
module Sink {
  import opened Sensor
  import opened Pipeline
  import opened Windowing
  import opened Database

  class DatabaseSinkFunction {
    /** The service obtained from the application context on `open`. */
    const databaseService: DatabaseService

    constructor (databaseService: DatabaseService)
      ensures this.databaseService == databaseService
    {
      this.databaseService := databaseService;
    }

    /** invoke: sets `updatedTime` to the clock `now`, then upserts; whatever
        the upsert raises is raised again, never swallowed. */
    method Invoke(statistics: SensorStatistics, now: int, connectionOk: bool)
      returns (stamped: SensorStatistics, r: Outcome<Error>)
      requires databaseService.Valid()
      modifies databaseService
      ensures databaseService.Valid()
      ensures stamped == statistics.(updatedTime := now)
      ensures r == WriteOutcome(databaseService.databaseType, old(databaseService.tableExists), connectionOk, UpsertFailed)
      ensures databaseService.table ==
        if r.Pass? then Upsert(old(databaseService.table), stamped) else old(databaseService.table)
      ensures databaseService.tableExists == old(databaseService.tableExists)
    {
      stamped := statistics.(updatedTime := now);
      r := databaseService.UpsertStatistics(stamped, connectionOk);
    }
  }

  /** A replay after a restart fires a restored window again. When the replay
      rebuilds the same reduced record, the window function builds a fresh
      statistic from it with a new creation time, and the sink stamps a new
      update time. Writing it after the first write changes nothing but
      `updated_time`; the row keeps the first write's creation time and the
      window's count, so the replay never double-counts. A replay can rebuild
      a different record: a reading without a timestamp takes the clock again,
      and which windows accept a reading depends on when the periodic
      watermark reached the window stage. The rebuilt record's count then
      replaces the stored one (`UpsertReplacesCount`). */
  lemma ReplayAbsorbed(t: Table, acc: Keyed, window: TimeWindow, now1: int, stamp1: int, now2: int, stamp2: int)
    ensures var s1 := WindowResult(acc, window, now1).(updatedTime := stamp1);
      var s2 := WindowResult(acc, window, now2).(updatedTime := stamp2);
      var first := Upsert(t, s1);
      && KeyOfStatistics(s1) == KeyOfStatistics(s2)
      && SameExceptUpdatedTime(Upsert(first, s2), first)
      && Upsert(first, s2)[KeyOfStatistics(s2)].dataCount == acc.count
      && Upsert(first, s2)[KeyOfStatistics(s2)].updatedTime == stamp2
  {
    var s1 := WindowResult(acc, window, now1).(updatedTime := stamp1);
    var s2 := WindowResult(acc, window, now2).(updatedTime := stamp2);
    var k := KeyOfStatistics(s1);
    var first := Upsert(t, s1);
    assert k in first && first[k].dataCount == s1.dataCount;
    assert Upsert(first, s2) == first[k := first[k].(dataCount := s2.dataCount, updatedTime := s2.updatedTime)];
  }

  /** Two different windows emitted by the window table become statistics for
      two different rows, so the writes of one watermark advance neither
      overwrite each other nor depend on their order. The rows are told apart
      by exact equality of the key columns, as under PostgreSQL's default
      collation; MySQL's case-insensitive collation can merge them. */
  lemma FiredWindowsHaveDistinctRows(spec: WindowSpec, h: seq<Arrival>, w1: WindowId, w2: WindowId, now: int)
    requires Contributors(spec, h, w1) != [] && Contributors(spec, h, w2) != [] && w1 != w2
    ensures var s1 := WindowResult(Reduced(w1, Contributors(spec, h, w1)), TimeWindow(w1.start, w1.start + spec.size), now);
      var s2 := WindowResult(Reduced(w2, Contributors(spec, h, w2)), TimeWindow(w2.start, w2.start + spec.size), now);
      KeyOfStatistics(s1) != KeyOfStatistics(s2)
  {
    var c1, c2 := Contributors(spec, h, w1), Contributors(spec, h, w2);
    ContributorsHaveKey(spec, h, w1);
    ContributorsHaveKey(spec, h, w2);
    assert MapToKey(c1[0]).key == w1.key && MapToKey(c2[0]).key == w2.key;
  }
}
