/** Event-time windowing as the job asks the stream runtime for it
    (FlinkStreamingApplication.java, lines 130-146): sliding windows of
    `size` every `slide`, a watermark bounded 10 s behind the largest event
    time seen, and a per-key window table that counts each reading into every
    window covering it and emits one statistic per window once the watermark
    reaches the window's last millisecond (`end - 1`). Times are epoch
    milliseconds. */
module Windowing {
  import opened Sensor
  import opened Pipeline

  /** Long.MIN_VALUE, the watermark before any reading is seen. */
  const LongMin: int := -0x8000_0000_0000_0000

  const MillisPerSecond: int := 1000

  /** Window defaults of the configuration bean (seconds). */
  const DefaultSizeSeconds: int := 60
  const DefaultSlideSeconds: int := 30

  /** `forBoundedOutOfOrderness(Duration.ofSeconds(10))`, in milliseconds. */
  const OutOfOrdernessMillis: int := 10 * MillisPerSecond

  /** `SlidingEventTimeWindows.of(size, slide)` with offset 0, in milliseconds. */
  datatype WindowSpec = WindowSpec(size: int, slide: int) {
    /** The assigner rejects a non-positive size or slide. */
    predicate Valid() {
      size > 0 && slide > 0
    }
  }

  /** `Time.seconds(size)` and `Time.seconds(slide)`. */
  function SpecOfSeconds(sizeSeconds: int, slideSeconds: int): WindowSpec {
    WindowSpec(sizeSeconds * MillisPerSecond, slideSeconds * MillisPerSecond)
  }

  function Max(a: int, b: int): int {
    if a < b then b else a
  }

  // ---------------------------------------------------------------------------
  // Window assignment

  /** The window starting at `start` is one of the assigner's windows and the
      half-open interval `[start, start + size)` contains `t`. */
  predicate Covers(spec: WindowSpec, start: int, t: int)
    requires spec.Valid()
  {
    start % spec.slide == 0 && start <= t < start + spec.size
  }

  /** The last multiple of `slide` not after `t` (the window start with offset 0). */
  function LastStart(t: int, slide: int): int
    requires slide > 0
  {
    t - t % slide
  }

  /** The assigner's loop: from `start` downwards in steps of `slide`, while
      the window starting there still reaches past `t`. */
  function StartsFrom(start: int, t: int, spec: WindowSpec): seq<int>
    requires spec.Valid()
    decreases start - (t - spec.size)
  {
    if start <= t - spec.size then [] else [start] + StartsFrom(start - spec.slide, t, spec)
  }

  /** The starts of the windows a reading at time `t` is assigned to. */
  function AssignWindows(t: int, spec: WindowSpec): seq<int>
    requires spec.Valid()
  {
    StartsFrom(LastStart(t, spec.slide), t, spec)
  }

  // Arithmetic on multiples of the slide, kept to small steps.

  lemma {:induction false} MulAtLeast(a: int, b: int)
    requires a >= 1 && b > 0
    ensures a * b >= b
    decreases a
  {
    if a > 1 {
      MulAtLeast(a - 1, b);
      assert a * b == (a - 1) * b + b;
    }
  }

  /** Quotient and remainder are determined by any decomposition `q * d + r`. */
  lemma DivUnique(x: int, d: int, q: int, r: int)
    requires d > 0 && 0 <= r < d && x == q * d + r
    ensures x / d == q && x % d == r
  {
    var q', r' := x / d, x % d;
    assert x == q' * d + r';
    if q > q' {
      assert (q - q') * d == r' - r;
      MulAtLeast(q - q', d);
    } else if q < q' {
      assert (q' - q) * d == r - r';
      MulAtLeast(q' - q, d);
    }
  }

  lemma MultipleShift(s: int, d: int, k: int)
    requires d > 0 && s % d == 0
    ensures (s + k * d) % d == 0
  {
    var a := s / d;
    assert s == a * d;
    assert s + k * d == (a + k) * d;
    DivUnique(s + k * d, d, a + k, 0);
  }

  /** Two distinct multiples of `d` are at least `d` apart. */
  lemma MultiplesApart(s: int, start: int, d: int)
    requires d > 0 && s % d == 0 && start % d == 0 && s < start
    ensures s <= start - d
  {
    var k, m := s / d, start / d;
    assert s == k * d && start == m * d;
    assert start - s == (m - k) * d;
    if k >= m {
      assert s - start == (k - m) * d;
      if k > m {
        MulAtLeast(k - m, d);
      }
      assert false;
    }
    MulAtLeast(m - k, d);
  }

  lemma LastStartFacts(t: int, slide: int)
    requires slide > 0
    ensures LastStart(t, slide) % slide == 0
    ensures t - slide < LastStart(t, slide) <= t
    ensures forall s :: s % slide == 0 && s <= t ==> s <= LastStart(t, slide)
  {
    var q := t / slide;
    assert LastStart(t, slide) == q * slide;
    DivUnique(q * slide, slide, q, 0);
    forall s | s % slide == 0 && s <= t
      ensures s <= LastStart(t, slide)
    {
      if s > LastStart(t, slide) {
        MultiplesApart(LastStart(t, slide), s, slide);
      }
    }
  }

  /** The starts produced from a multiple of `slide` are exactly the multiples
      of `slide` in `(t - size, start]`, in strictly decreasing order. */
  lemma {:induction false} StartsFromExact(start: int, t: int, spec: WindowSpec)
    requires spec.Valid() && start % spec.slide == 0
    ensures forall s :: s in StartsFrom(start, t, spec) <==> s % spec.slide == 0 && t - spec.size < s <= start
    ensures forall i, j :: 0 <= i < j < |StartsFrom(start, t, spec)| ==>
      StartsFrom(start, t, spec)[i] > StartsFrom(start, t, spec)[j]
    decreases start - (t - spec.size)
  {
    if start > t - spec.size {
      MultipleShift(start, spec.slide, -1);
      StartsFromExact(start - spec.slide, t, spec);
      var rest := StartsFrom(start - spec.slide, t, spec);
      assert StartsFrom(start, t, spec) == [start] + rest;
      assert forall j :: 0 <= j < |rest| ==> rest[j] in rest;
      forall s | s % spec.slide == 0 && t - spec.size < s <= start
        ensures s in StartsFrom(start, t, spec)
      {
        if s != start {
          MultiplesApart(s, start, spec.slide);
          assert s in rest;
        }
      }
    }
  }

  /** A reading at time `t` lies in exactly the windows `[s, s + size)` with `s`
      a multiple of `slide` and `s <= t < s + size`, each assigned once. */
  lemma AssignWindowsExact(t: int, spec: WindowSpec)
    requires spec.Valid()
    ensures forall s :: s in AssignWindows(t, spec) <==> Covers(spec, s, t)
    ensures forall i, j :: 0 <= i < j < |AssignWindows(t, spec)| ==>
      AssignWindows(t, spec)[i] != AssignWindows(t, spec)[j]
  {
    LastStartFacts(t, spec.slide);
    StartsFromExact(LastStart(t, spec.slide), t, spec);
  }

  lemma {:induction false} StartsFromLength(start: int, t: int, spec: WindowSpec, m: nat)
    requires spec.Valid()
    requires start - m * spec.slide <= t - spec.size < start - (m - 1) * spec.slide
    ensures |StartsFrom(start, t, spec)| == m
    decreases m
  {
    if m > 0 {
      assert (start - spec.slide) - (m - 1) * spec.slide == start - m * spec.slide;
      assert (start - spec.slide) - (m - 2) * spec.slide == start - (m - 1) * spec.slide;
      StartsFromLength(start - spec.slide, t, spec, m - 1);
    }
  }

  /** When the slide divides the size, every reading is assigned to exactly
      size / slide windows. */
  lemma AssignedWindowCount(t: int, spec: WindowSpec)
    requires spec.Valid() && spec.size % spec.slide == 0
    ensures |AssignWindows(t, spec)| == spec.size / spec.slide
  {
    var m := spec.size / spec.slide;
    var r := t % spec.slide;
    assert spec.size == m * spec.slide;
    var start := LastStart(t, spec.slide);
    assert start == t - r;
    assert start - (m - 1) * spec.slide == t - r - spec.size + spec.slide;
    StartsFromLength(start, t, spec, m);
  }

  /** With the default 60 s window and 30 s slide every reading lands in
      exactly two windows, and a reading at a window's end belongs to the
      window that starts there, not to the one that ends there. */
  lemma DefaultWindows(t: int, s: int)
    requires s % (DefaultSlideSeconds * MillisPerSecond) == 0
    ensures var spec := SpecOfSeconds(DefaultSizeSeconds, DefaultSlideSeconds);
      |AssignWindows(t, spec)| == 2 &&
      s !in AssignWindows(s + spec.size, spec) &&
      s + spec.size in AssignWindows(s + spec.size, spec)
  {
    var spec := SpecOfSeconds(DefaultSizeSeconds, DefaultSlideSeconds);
    AssignedWindowCount(t, spec);
    AssignWindowsExact(s + spec.size, spec);
    MultipleShift(s, spec.slide, 2);
    assert s + spec.size == s + 2 * spec.slide;
  }

  // ---------------------------------------------------------------------------
  // Watermarks (bounded out-of-orderness)

  /** The generator's maximum before any reading, chosen so that the first
      watermark is Long.MIN_VALUE. */
  const InitialMaxTimestamp: int := LongMin + OutOfOrdernessMillis + 1

  /** The watermark the generator emits for a maximum event time: the bound
      and one more millisecond behind it. */
  function WatermarkOf(maxTimestamp: int): int {
    maxTimestamp - OutOfOrdernessMillis - 1
  }

  /** The generator's maximum after observing `times` in order. */
  function MaxTimestamp(times: seq<int>): int {
    if times == [] then InitialMaxTimestamp
    else Max(MaxTimestamp(times[..|times| - 1]), times[|times| - 1])
  }

  /** A window with end `end` fires, and is late for new readings, once the
      watermark reaches its last millisecond `end - 1`. */
  predicate Fires(end: int, watermark: int) {
    end - 1 <= watermark
  }

  /** The watermark never decreases, whatever order event times arrive in. */
  lemma {:induction false} WatermarkNeverDecreases(times: seq<int>, more: seq<int>)
    ensures WatermarkOf(MaxTimestamp(times)) <= WatermarkOf(MaxTimestamp(times + more))
    decreases |more|
  {
    if more != [] {
      var init := more[..|more| - 1];
      WatermarkNeverDecreases(times, init);
      assert (times + more)[..|times + more| - 1] == times + init;
    } else {
      assert times + more == times;
    }
  }

  /** The watermark trails every event time seen by at least the bound plus
      one millisecond, and is that far behind the largest one (or is
      Long.MIN_VALUE while nothing later has been seen). */
  lemma {:induction false} WatermarkTrailsMaximum(times: seq<int>)
    ensures forall i :: 0 <= i < |times| ==> times[i] - OutOfOrdernessMillis - 1 <= WatermarkOf(MaxTimestamp(times))
    ensures WatermarkOf(MaxTimestamp(times)) == LongMin ||
      exists i :: 0 <= i < |times| && WatermarkOf(MaxTimestamp(times)) == times[i] - OutOfOrdernessMillis - 1
  {
    if times != [] {
      var init := times[..|times| - 1];
      WatermarkTrailsMaximum(init);
      assert forall i :: 0 <= i < |init| ==> times[i] == init[i];
    }
  }

  /** A window fires exactly when the largest event time seen is at least the
      bound past the window's end. */
  lemma FiresWhenBoundPassed(end: int, maxTimestamp: int)
    ensures Fires(end, WatermarkOf(maxTimestamp)) <==> end + OutOfOrdernessMillis <= maxTimestamp
  {
  }

  // ---------------------------------------------------------------------------
  // The per-key window table

  /** One window instance of one key. */
  datatype WindowId = WindowId(key: string, start: int)

  /** A reading as the window operator received it, with its event time. */
  datatype Arrival = Arrival(event: SensorData, time: int)

  function Times(h: seq<Arrival>): (r: seq<int>)
    ensures |r| == |h| && forall i :: 0 <= i < |h| ==> r[i] == h[i].time
  {
    if h == [] then [] else Times(h[..|h| - 1]) + [h[|h| - 1].time]
  }

  /** The reading has the window's key and its time lies in the window. */
  predicate Belongs(spec: WindowSpec, a: Arrival, w: WindowId) {
    MapToKey(a.event).key == w.key && w.start <= a.time < w.start + spec.size
  }

  /** The arrival's reading if it belongs to window `w`, else nothing. */
  function ContributionOf(spec: WindowSpec, a: Arrival, w: WindowId): seq<SensorData> {
    if Belongs(spec, a, w) then [a.event] else []
  }

  /** The readings of `h` that belong to window `w`, in arrival order. */
  function Contributors(spec: WindowSpec, h: seq<Arrival>, w: WindowId): seq<SensorData> {
    if h == [] then []
    else Contributors(spec, h[..|h| - 1], w) + ContributionOf(spec, h[|h| - 1], w)
  }

  lemma ContributorsAppend(spec: WindowSpec, h: seq<Arrival>, a: Arrival, w: WindowId)
    ensures Contributors(spec, h + [a], w) == Contributors(spec, h, w) + ContributionOf(spec, a, w)
  {
    assert (h + [a])[..|h + [a]| - 1] == h;
  }

  /** A reading of device D1 of template T1 stamped `seconds` after the epoch. */
  function ExampleArrival(seconds: int): Arrival {
    var t := seconds * MillisPerSecond;
    Arrival(SensorData("T1", "D1", Some(t), "", ""), t)
  }

  lemma ContributorsOfFive(spec: WindowSpec, a1: Arrival, a2: Arrival, a3: Arrival, a4: Arrival, a5: Arrival, w: WindowId)
    ensures Contributors(spec, [a1, a2, a3, a4, a5], w) ==
      ContributionOf(spec, a1, w) + ContributionOf(spec, a2, w) + ContributionOf(spec, a3, w)
      + ContributionOf(spec, a4, w) + ContributionOf(spec, a5, w)
  {
    ContributorsAppend(spec, [], a1, w);
    assert [] + [a1] == [a1];
    ContributorsAppend(spec, [a1], a2, w);
    assert [a1] + [a2] == [a1, a2];
    ContributorsAppend(spec, [a1, a2], a3, w);
    assert [a1, a2] + [a3] == [a1, a2, a3];
    ContributorsAppend(spec, [a1, a2, a3], a4, w);
    assert [a1, a2, a3] + [a4] == [a1, a2, a3, a4];
    ContributorsAppend(spec, [a1, a2, a3, a4], a5, w);
    assert [a1, a2, a3, a4] + [a5] == [a1, a2, a3, a4, a5];
  }

  /** Readings of one device at 5, 20, 35, 50 and 65 seconds under the default
      60 s / 30 s windows: the reading at 65 s falls into the windows starting
      at 60 s and 30 s, and the windows starting at 0, 30 and 60 seconds hold
      4, 3 and 1 readings. */
  lemma DefaultWindowsExample()
    ensures var spec := SpecOfSeconds(DefaultSizeSeconds, DefaultSlideSeconds);
      var h := [ExampleArrival(5), ExampleArrival(20), ExampleArrival(35), ExampleArrival(50), ExampleArrival(65)];
      var k := KeyOf("T1", "D1");
      && AssignWindows(65000, spec) == [60000, 30000]
      && |Contributors(spec, h, WindowId(k, 0))| == 4
      && |Contributors(spec, h, WindowId(k, 30000))| == 3
      && |Contributors(spec, h, WindowId(k, 60000))| == 1
  {
    var spec := SpecOfSeconds(DefaultSizeSeconds, DefaultSlideSeconds);
    assert StartsFrom(0, 65000, spec) == [];
    assert StartsFrom(30000, 65000, spec) == [30000];
    var k := KeyOf("T1", "D1");
    ContributorsOfFive(spec, ExampleArrival(5), ExampleArrival(20), ExampleArrival(35), ExampleArrival(50), ExampleArrival(65), WindowId(k, 0));
    ContributorsOfFive(spec, ExampleArrival(5), ExampleArrival(20), ExampleArrival(35), ExampleArrival(50), ExampleArrival(65), WindowId(k, 30000));
    ContributorsOfFive(spec, ExampleArrival(5), ExampleArrival(20), ExampleArrival(35), ExampleArrival(50), ExampleArrival(65), WindowId(k, 60000));
  }

  /** Every reading counted in a window has the window's key. */
  lemma {:induction false} ContributorsHaveKey(spec: WindowSpec, h: seq<Arrival>, w: WindowId)
    ensures forall e | e in Contributors(spec, h, w) :: MapToKey(e).key == w.key
    decreases |h|
  {
    if h != [] {
      ContributorsHaveKey(spec, h[..|h| - 1], w);
    }
  }

  /** The reduced record a window holds when `c` are its readings: the
      window's key, the first reading as sample and their number as count. */
  function Reduced(w: WindowId, c: seq<SensorData>): Keyed
    requires c != []
  {
    Keyed(w.key, c[0], |c|)
  }

  /** Adds `rec` to the windows of its key starting at `starts`: a window not
      yet in the table starts with `rec`, an existing one is reduced with it. */
  function Accumulate(windows: map<WindowId, Keyed>, rec: Keyed, starts: set<int>): map<WindowId, Keyed> {
    map w | w in windows.Keys + (set s | s in starts :: WindowId(rec.key, s)) ::
      if w.key == rec.key && w.start in starts then
        (if w in windows then Reduce(windows[w], rec) else rec)
      else if w in windows then windows[w]
      else rec
  }

  /** The window starting at `start` has closed under `watermark`. */
  predicate Closed(spec: WindowSpec, start: int, watermark: int) {
    Fires(start + spec.size, watermark)
  }

  /** A window holds exactly its readings; a window not in the table has none. */
  ghost predicate Agrees(spec: WindowSpec, h: seq<Arrival>, windows: map<WindowId, Keyed>, w: WindowId) {
    var c := Contributors(spec, h, w);
    if w in windows then c != [] && windows[w] == Reduced(w, c) else c == []
  }

  /** The window table invariant: only assigner windows that have not closed
      are open, and every such window agrees with the readings received. */
  ghost predicate TableAgrees(spec: WindowSpec, h: seq<Arrival>, windows: map<WindowId, Keyed>, watermark: int)
    requires spec.Valid()
  {
    && (forall w | w in windows :: w.start % spec.slide == 0 && !Closed(spec, w.start, watermark))
    && (forall w: WindowId | w.start % spec.slide == 0 && !Closed(spec, w.start, watermark) ::
          Agrees(spec, h, windows, w))
  }

  /** The window starts that accept a reading at time `t`. */
  function LiveStarts(spec: WindowSpec, t: int, watermark: int): set<int>
    requires spec.Valid()
  {
    set s | s in AssignWindows(t, spec) && !Closed(spec, s, watermark)
  }

  /** After a reading at 100 s the watermark is 89.999 s. A reading at 70 s
      then still enters the window [60 s, 120 s) and is dropped only for the
      window [30 s, 90 s), which has closed: lateness is decided per window,
      not per reading. */
  lemma LateReadingExample()
    ensures var spec := SpecOfSeconds(DefaultSizeSeconds, DefaultSlideSeconds);
      && WatermarkOf(100000) == 89999
      && AssignWindows(70000, spec) == [60000, 30000]
      && LiveStarts(spec, 70000, WatermarkOf(100000)) == {60000}
  {
    var spec := SpecOfSeconds(DefaultSizeSeconds, DefaultSlideSeconds);
    assert StartsFrom(0, 70000, spec) == [];
    assert StartsFrom(30000, 70000, spec) == [30000];
    assert AssignWindows(70000, spec) == [60000, 30000];
    assert 30000 in AssignWindows(70000, spec) && Closed(spec, 30000, 89999);
    assert 60000 in AssignWindows(70000, spec) && !Closed(spec, 60000, 89999);
  }

  /** Adding a reading to its live windows keeps every open window equal to
      the reduction of exactly the readings that belong to it. */
  lemma AccumulateKeepsAgreement(spec: WindowSpec, h: seq<Arrival>, windows: map<WindowId, Keyed>,
                                 watermark: int, a: Arrival)
    requires spec.Valid() && TableAgrees(spec, h, windows, watermark)
    ensures TableAgrees(spec, h + [a],
      Accumulate(windows, MapToKey(a.event), LiveStarts(spec, a.time, watermark)), watermark)
  {
    var rec := MapToKey(a.event);
    var live := LiveStarts(spec, a.time, watermark);
    var next := Accumulate(windows, rec, live);
    AssignWindowsExact(a.time, spec);
    forall w | w in next
      ensures w.start % spec.slide == 0 && !Closed(spec, w.start, watermark)
    {
      if w !in windows {
        assert w.key == rec.key && w.start in live;
      }
    }
    forall w: WindowId | w.start % spec.slide == 0 && !Closed(spec, w.start, watermark)
      ensures Agrees(spec, h + [a], next, w)
    {
      ContributorsAppend(spec, h, a, w);
      assert Belongs(spec, a, w) <==> w.key == rec.key && w.start in live;
      assert Agrees(spec, h, windows, w);
    }
  }

  /** Closing windows under a higher watermark keeps exactly the windows still
      open, and they keep agreeing with the readings. */
  lemma CloseKeepsAgreement(spec: WindowSpec, h: seq<Arrival>, windows: map<WindowId, Keyed>,
                            watermark: int, higher: int)
    requires spec.Valid() && TableAgrees(spec, h, windows, watermark) && watermark <= higher
    ensures TableAgrees(spec, h, map w | w in windows && !Closed(spec, w.start, higher) :: windows[w], higher)
    ensures forall w | w in windows :: Agrees(spec, h, windows, w)
  {
    var rest := map w | w in windows && !Closed(spec, w.start, higher) :: windows[w];
    forall w: WindowId | w.start % spec.slide == 0 && !Closed(spec, w.start, higher)
      ensures Agrees(spec, h, rest, w)
    {
      assert Agrees(spec, h, windows, w);
    }
    forall w | w in windows
      ensures Agrees(spec, h, windows, w)
    {
    }
  }

  /** The window table of one job: the watermark generator's maximum, the
      last watermark the window stage received, and the open windows with
      their reduced records. `history` records every reading received. */
  class WindowOperator {
    const spec: WindowSpec
    var maxTimestamp: int
    var currentWatermark: int
    var windows: map<WindowId, Keyed>
    ghost var history: seq<Arrival>

    ghost predicate Valid()
      reads this
    {
      && spec.Valid()
      && maxTimestamp == MaxTimestamp(Times(history))
      && currentWatermark <= WatermarkOf(maxTimestamp)
      && TableAgrees(spec, history, windows, currentWatermark)
    }

    constructor (sizeSeconds: int, slideSeconds: int)
      requires sizeSeconds > 0 && slideSeconds > 0
      ensures Valid()
      ensures spec == SpecOfSeconds(sizeSeconds, slideSeconds)
      ensures windows == map[] && history == [] && currentWatermark == LongMin
    {
      spec := SpecOfSeconds(sizeSeconds, slideSeconds);
      maxTimestamp := InitialMaxTimestamp;
      currentWatermark := LongMin;
      windows := map[];
      history := [];
    }

    /** One parsed reading: its event time is taken, the watermark generator
        observes it, and its keyed record is added to every assigned window
        that has not closed; for a closed window it is dropped. */
    method OnEvent(e: SensorData, now: int)
      requires Valid()
      modifies this
      ensures Valid()
      ensures history == old(history) + [Arrival(e, EventTime(e, now))]
      ensures maxTimestamp == Max(old(maxTimestamp), EventTime(e, now))
      ensures currentWatermark == old(currentWatermark)
      ensures windows == Accumulate(old(windows), MapToKey(e), LiveStarts(spec, EventTime(e, now), currentWatermark))
    {
      var t := EventTime(e, now);
      var live := LiveStarts(spec, t, currentWatermark);
      AccumulateKeepsAgreement(spec, history, windows, currentWatermark, Arrival(e, t));
      WatermarkNeverDecreases(Times(history), [t]);
      assert Times(history + [Arrival(e, t)]) == Times(history) + [t];
      assert (Times(history) + [t])[..|history|] == Times(history);
      maxTimestamp := Max(maxTimestamp, t);
      windows := Accumulate(windows, MapToKey(e), live);
      history := history + [Arrival(e, t)];
    }

    /** A raw message: parsed, dropped if null, otherwise handled as a reading.
        A message whose parse fails changes nothing. */
    method OnMessage(json: string, decode: string -> Option<SensorData>, now: int)
      requires Valid()
      modifies this
      ensures Valid()
      ensures ParseEvent(json, decode).None? ==>
        history == old(history) && windows == old(windows) && maxTimestamp == old(maxTimestamp)
      ensures ParseEvent(json, decode).Some? ==>
        var e := ParseEvent(json, decode).value;
        history == old(history) + [Arrival(e, EventTime(e, now))] &&
        windows == Accumulate(old(windows), MapToKey(e), LiveStarts(spec, EventTime(e, now), currentWatermark))
      ensures currentWatermark == old(currentWatermark)
    {
      var parsed := ParseEvent(json, decode);
      if parsed.Some? {
        OnEvent(parsed.value, now);
      }
    }

    /** A periodic watermark: the generator's watermark reaches the window
        stage if it is higher than the last one, and every open window that
        has closed under it is emitted, once, as a statistic and removed.
        Each statistic carries the window's bounds and the number of readings
        of its key in the window, with the first of them as sample. */
    method AdvanceWatermark(now: int) returns (fired: map<WindowId, SensorStatistics>)
      requires Valid()
      modifies this
      ensures Valid()
      ensures currentWatermark == Max(old(currentWatermark), WatermarkOf(maxTimestamp))
      ensures maxTimestamp == old(maxTimestamp) && history == old(history)
      ensures fired.Keys == set w | w in old(windows) && Closed(spec, w.start, currentWatermark)
      ensures windows == map w | w in old(windows) && !Closed(spec, w.start, currentWatermark) :: old(windows)[w]
      ensures forall w | w in fired ::
        var c := Contributors(spec, history, w);
        c != [] && fired[w] == WindowResult(Reduced(w, c), TimeWindow(w.start, w.start + spec.size), now)
    {
      var wm := Max(currentWatermark, WatermarkOf(maxTimestamp));
      CloseKeepsAgreement(spec, history, windows, currentWatermark, wm);
      fired := map w | w in windows && Closed(spec, w.start, wm) ::
        WindowResult(windows[w], TimeWindow(w.start, w.start + spec.size), now);
      currentWatermark := wm;
      windows := map w | w in windows && !Closed(spec, w.start, wm) :: windows[w];
    }
  }
}
