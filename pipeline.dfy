/** The record-level steps of the streaming job (FlinkStreamingApplication.java):
    parsing with null-on-failure and the null filter, the event-time choice,
    the composite grouping key with its unit count, the count reducer and the
    window function that turns a reduced window into a statistic. */
module Pipeline {
  import opened Sensor

  /** The character placed between template id and device id in the key. */
  const KeySeparator: char := '_'

  /** The `Tuple3<String, SensorData, Long>` that flows into the window:
      grouping key, sample reading, running count. */
  datatype Keyed = Keyed(key: string, sample: SensorData, count: int)

  /** A fired window's bounds, `[start, end)` in epoch milliseconds. */
  datatype TimeWindow = TimeWindow(start: int, end: int)

  // ---------------------------------------------------------------------------
  // Parsing: JsonToSensorDataMapper.map followed by `filter(data -> data != null)`

  /** `json.trim().isEmpty()`: trim removes every character up to U+0020. */
  predicate IsBlank(json: string) {
    forall i :: 0 <= i < |json| ==> json[i] <= ' '
  }

  /** JsonToSensorDataMapper.map. `decode` stands for Jackson's `readValue`,
      giving `None` when it throws or yields null; a blank message is null
      before the decoder is asked. Every failure becomes `None` (null). */
  function ParseEvent(json: string, decode: string -> Option<SensorData>): Option<SensorData> {
    if IsBlank(json) then None else decode(json)
  }

  /** The parse step and the null filter over a stream of raw messages. */
  function ParsedStream(msgs: seq<string>, decode: string -> Option<SensorData>): seq<SensorData> {
    if msgs == [] then []
    else
      var last := ParseEvent(msgs[|msgs| - 1], decode);
      ParsedStream(msgs[..|msgs| - 1], decode) + (if last.Some? then [last.value] else [])
  }

  /** The filtered stream is the parse results that are not null, in message
      order: each kept reading is the decoding of a non-blank message, and the
      stream grows by one element exactly for a message that parses. */
  lemma {:induction false} ParsedStreamAppend(msgs: seq<string>, m: string, decode: string -> Option<SensorData>)
    ensures ParseEvent(m, decode).None? ==> ParsedStream(msgs + [m], decode) == ParsedStream(msgs, decode)
    ensures ParseEvent(m, decode).Some? ==>
      ParsedStream(msgs + [m], decode) == ParsedStream(msgs, decode) + [ParseEvent(m, decode).value] && !IsBlank(m) && decode(m) == ParseEvent(m, decode)
  {
    assert (msgs + [m])[..|msgs + [m]| - 1] == msgs;
  }

  /** Every reading that survives the filter was decoded from some non-blank
      message, and there are never more readings than messages. */
  lemma {:induction false} ParsedStreamSound(msgs: seq<string>, decode: string -> Option<SensorData>)
    ensures |ParsedStream(msgs, decode)| <= |msgs|
    ensures forall e | e in ParsedStream(msgs, decode) ::
      exists i :: 0 <= i < |msgs| && !IsBlank(msgs[i]) && decode(msgs[i]) == Some(e)
  {
    if msgs != [] {
      var init := msgs[..|msgs| - 1];
      ParsedStreamSound(init, decode);
      forall e | e in ParsedStream(msgs, decode)
        ensures exists i :: 0 <= i < |msgs| && !IsBlank(msgs[i]) && decode(msgs[i]) == Some(e)
      {
        if e in ParsedStream(init, decode) {
          var i :| 0 <= i < |init| && !IsBlank(init[i]) && decode(init[i]) == Some(e);
          assert msgs[i] == init[i];
        } else {
          assert !IsBlank(msgs[|msgs| - 1]) && decode(msgs[|msgs| - 1]) == Some(e);
        }
      }
    }
  }

  // ---------------------------------------------------------------------------
  // Event time: the timestamp assigner of `assignTimestampsAndWatermarks`

  /** The event's own timestamp (read at UTC) when present, else the ingestion
      clock `now`, which stands for `System.currentTimeMillis()`. */
  function EventTime(e: SensorData, now: int): int {
    if e.timestamp.Some? then e.timestamp.value else now
  }

  /** A reading that carries a timestamp has the same event time whatever the
      clock says; only a reading without one takes the clock's value. */
  lemma EventTimeChoice(e: SensorData, now1: int, now2: int)
    ensures e.timestamp.Some? ==> EventTime(e, now1) == EventTime(e, now2) == e.timestamp.value
    ensures e.timestamp.None? ==> EventTime(e, now1) == now1
  {
  }

  // ---------------------------------------------------------------------------
  // Grouping key: SensorDataToKeyMapper.map

  /** `templateId + "_" + deviceId`. */
  function KeyOf(templateId: string, deviceId: string): string {
    templateId + [KeySeparator] + deviceId
  }

  /** SensorDataToKeyMapper.map: the key, the reading itself and a count of 1. */
  function MapToKey(e: SensorData): Keyed {
    Keyed(KeyOf(e.templateId, e.deviceId), e, 1)
  }

  /** Readings of one device always get the same key, whatever their other
      fields, and every mapped record carries count 1 and the reading itself. */
  lemma MapToKeyStable(a: SensorData, b: SensorData)
    ensures a.templateId == b.templateId && a.deviceId == b.deviceId ==> MapToKey(a).key == MapToKey(b).key
    ensures MapToKey(a).count == 1 && MapToKey(a).sample == a
  {
  }

  /** Different devices get different keys as long as no template id contains
      the separator (device ids may contain it). */
  lemma KeyInjective(t1: string, d1: string, t2: string, d2: string)
    requires KeySeparator !in t1 && KeySeparator !in t2
    ensures KeyOf(t1, d1) == KeyOf(t2, d2) <==> t1 == t2 && d1 == d2
  {
    if KeyOf(t1, d1) == KeyOf(t2, d2) {
      var k := KeyOf(t1, d1);
      assert k[|t1|] == KeySeparator;
      assert k[|t2|] == KeySeparator;
      assert t1 == k[..|t1|] == t2;
      assert d1 == k[|t1| + 1..] == d2;
    }
  }

  /** Without that condition the key is not injective: two different devices
      can share a key, and then share their windows. */
  lemma KeyCollision()
    ensures KeyOf("a_b", "c") == KeyOf("a", "b_c")
  {
  }

  // ---------------------------------------------------------------------------
  // The count reducer: DataCountReducer.reduce

  /** Sums the counts and keeps the first operand's key and sample. */
  function Reduce(v1: Keyed, v2: Keyed): Keyed {
    Keyed(v1.key, v1.sample, v1.count + v2.count)
  }

  /** One way of bracketing a reduction over a non-empty list of records. */
  datatype ReduceTree = Leaf(record: Keyed) | Combine(left: ReduceTree, right: ReduceTree)

  /** The records a bracketing reduces, left to right. */
  function Leaves(t: ReduceTree): (r: seq<Keyed>)
    ensures |r| > 0
  {
    match t
    case Leaf(x) => [x]
    case Combine(l, r) => Leaves(l) + Leaves(r)
  }

  /** The result of reducing with that bracketing. */
  function Evaluate(t: ReduceTree): Keyed {
    match t
    case Leaf(x) => x
    case Combine(l, r) => Reduce(Evaluate(l), Evaluate(r))
  }

  function SumCounts(xs: seq<Keyed>): int {
    if xs == [] then 0 else xs[0].count + SumCounts(xs[1..])
  }

  lemma {:induction false} SumCountsAppend(a: seq<Keyed>, b: seq<Keyed>)
    ensures SumCounts(a + b) == SumCounts(a) + SumCounts(b)
  {
    if a != [] {
      assert (a + b)[0] == a[0] && (a + b)[1..] == a[1..] + b;
      SumCountsAppend(a[1..], b);
    } else {
      assert a + b == b;
    }
  }

  /** Reducing in any bracketing sums all counts and keeps the key and sample
      of the first record. */
  lemma {:induction false} ReduceAnyBracketing(t: ReduceTree)
    ensures Evaluate(t).count == SumCounts(Leaves(t))
    ensures Evaluate(t).key == Leaves(t)[0].key && Evaluate(t).sample == Leaves(t)[0].sample
  {
    match t
    case Leaf(x) =>
      assert SumCounts([x]) == x.count + SumCounts([]);
    case Combine(l, r) =>
      ReduceAnyBracketing(l);
      ReduceAnyBracketing(r);
      SumCountsAppend(Leaves(l), Leaves(r));
  }

  /** Reducing n mapped records, each of count 1, in any bracketing gives n. */
  lemma {:induction false} ReduceCountsRecords(t: ReduceTree)
    requires forall i :: 0 <= i < |Leaves(t)| ==> Leaves(t)[i].count == 1
    ensures Evaluate(t).count == |Leaves(t)|
  {
    ReduceAnyBracketing(t);
    UnitCountsSum(Leaves(t));
  }

  lemma {:induction false} UnitCountsSum(xs: seq<Keyed>)
    requires forall i :: 0 <= i < |xs| ==> xs[i].count == 1
    ensures SumCounts(xs) == |xs|
  {
    if xs != [] {
      UnitCountsSum(xs[1..]);
    }
  }

  /** The reducer is associative, which is why the bracketing does not matter;
      it is not commutative, since the sample is the first operand's. */
  lemma ReduceAssociative(a: Keyed, b: Keyed, c: Keyed)
    ensures Reduce(Reduce(a, b), c) == Reduce(a, Reduce(b, c))
  {
  }

  // ---------------------------------------------------------------------------
  // The window function: StatisticsWindowFunction.apply

  /** Builds the statistic of a fired window from its reduced record: the
      sample's ids, the reduced count and the window's bounds. The statistic's
      constructor stamps creation and update time with the clock `now`. */
  function WindowResult(acc: Keyed, window: TimeWindow, now: int): SensorStatistics {
    SensorStatistics(acc.sample.templateId, acc.sample.deviceId, acc.count, window.start, window.end, now, now)
  }
}
