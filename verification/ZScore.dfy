/** The z-score trigger over one sliding window, in exact real arithmetic, and the anomaly built from it. */
module ZScore {
  import opened Options
  import opened Deviation
  import opened AnomalyIds

  const THRESHOLD: real := 3.0
  const MIN_EVENTS: nat := 10
  const EPSILON: real := 0.000000001
  const WINDOW: int := 300_000
  const SLIDE: int := 30_000

  datatype SpanEvent = SpanEvent(
    spanId: string, traceId: string, timestamp: int,
    cpuPercent: real, latencyP99: real, errorRate: real, requestRate: real)

  datatype Metric = CpuPercent | LatencyP99 | ErrorRate | RequestRate

  function Value(e: SpanEvent, m: Metric): real {
    match m
    case CpuPercent => e.cpuPercent
    case LatencyP99 => e.latencyP99
    case ErrorRate => e.errorRate
    case RequestRate => e.requestRate
  }

  /** Request rate is anomalous when it falls, the others when they rise. */
  function Direction(m: Metric): real {
    if m == RequestRate then -1.0 else 1.0
  }

  function AnomalyType(m: Metric): string {
    match m
    case CpuPercent => "CPU_SPIKE"
    case LatencyP99 => "LATENCY_BURST"
    case ErrorRate => "ERROR_RATE_SPIKE"
    case RequestRate => "REQUEST_DROP"
  }

  function Column(events: seq<SpanEvent>, m: Metric): seq<real> {
    seq(|events|, i requires 0 <= i < |events| => Value(events[i], m))
  }

  /** Index of the latest event, the first of several. */
  function LatestRow(events: seq<SpanEvent>): (row: nat)
    requires events != []
    ensures row < |events|
    ensures forall i :: 0 <= i < |events| ==> events[i].timestamp <= events[row].timestamp
    ensures forall i :: 0 <= i < row ==> events[i].timestamp < events[row].timestamp
  {
    var n := |events| - 1;
    if n == 0 then 0
    else
      var r := LatestRow(events[..n]);
      assert forall i :: 0 <= i < n ==> events[..n][i] == events[i];
      if events[n].timestamp > events[r].timestamp then n else r
  }

  /** `std` gives the population standard deviation of each metric over the window. */
  ghost predicate IsStdOf(events: seq<SpanEvent>, std: Metric -> real) {
    events != [] ==> forall m :: IsStd(Column(events, m), std(m))
  }

  function Z(events: seq<SpanEvent>, row: nat, m: Metric, std: Metric -> real): real
    requires row < |events| && std(m) >= 0.0
  {
    (Value(events[row], m) - Mean(Column(events, m))) / (std(m) + EPSILON)
  }

  function Toward(events: seq<SpanEvent>, row: nat, m: Metric, std: Metric -> real): real
    requires row < |events| && std(m) >= 0.0
  {
    Z(events, row, m, std) * Direction(m)
  }

  /** A metric's column. */
  function Place(m: Metric): nat {
    match m
    case CpuPercent => 0
    case LatencyP99 => 1
    case ErrorRate => 2
    case RequestRate => 3
  }

  /** `argmax` over the metrics in their fixed order: the first of several maxima. */
  function Strongest(t: Metric -> real): (col: Metric)
    ensures forall m :: t(m) <= t(col)
    ensures forall m :: Place(m) < Place(col) ==> t(m) < t(col)
  {
    var a := if t(LatencyP99) > t(CpuPercent) then LatencyP99 else CpuPercent;
    var b := if t(ErrorRate) > t(a) then ErrorRate else a;
    var col := if t(RequestRate) > t(b) then RequestRate else b;
    AllFour(t, col);
    col
  }

  lemma AllFour(t: Metric -> real, col: Metric)
    requires t(CpuPercent) <= t(col) && t(LatencyP99) <= t(col) && t(ErrorRate) <= t(col) && t(RequestRate) <= t(col)
    requires Place(col) > 0 ==> t(CpuPercent) < t(col)
    requires Place(col) > 1 ==> t(LatencyP99) < t(col)
    requires Place(col) > 2 ==> t(ErrorRate) < t(col)
    ensures forall m :: t(m) <= t(col)
    ensures forall m :: Place(m) < Place(col) ==> t(m) < t(col)
  {
    forall m ensures t(m) <= t(col) && (Place(m) < Place(col) ==> t(m) < t(col)) {
      match m
      case CpuPercent =>
      case LatencyP99 =>
      case ErrorRate =>
      case RequestRate =>
    }
  }

  /** Rounding to four decimals, whichever way ties go. */
  ghost predicate Rounds4(round4: real -> real) {
    forall x :: x - 0.00005 <= round4(x) <= x + 0.00005 && Whole(round4(x) * 10000.0)
  }

  predicate Whole(x: real) {
    x == x.Floor as real
  }

  datatype Candidate = Candidate(anomalyType: string, zScore: real, event: SpanEvent)

  function Evaluate(events: seq<SpanEvent>, newFrom: int, std: Metric -> real, round4: real -> real): Option<Candidate>
    requires forall m :: std(m) >= 0.0
  {
    if |events| < MIN_EVENTS then None
    else
      var row := LatestRow(events);
      if events[row].timestamp < newFrom then None
      else
        var col := Strongest(m => Toward(events, row, m, std));
        if Toward(events, row, col, std) <= THRESHOLD then None
        else Some(Candidate(AnomalyType(col), round4(Z(events, row, col, std)), events[row]))
  }

  function Abs(x: real): real { if x >= 0.0 then x else -x }

  function Score(zScore: real): real {
    var s := Abs(zScore) / 10.0;
    if s < 1.0 then s else 1.0
  }

  function ComputeSeverity(score: real): int {
    if score >= 0.9 then 5
    else if score >= 0.75 then 4
    else if score >= 0.55 then 3
    else if score >= 0.35 then 2
    else 1
  }

  datatype AnomalyEvent = AnomalyEvent(
    id: string, serviceId: string, anomalyType: string, severity: int, anomalyScore: real,
    detectedAt: int, zScore: real, traceId: string, spanId: string)

  function BuildAnomaly(serviceId: string, c: Candidate, uuid5: string -> string): AnomalyEvent {
    var score := Score(c.zScore);
    AnomalyEvent(uuid5(AnomalyName(serviceId, c.event.timestamp, c.anomalyType)), serviceId, c.anomalyType,
                 ComputeSeverity(score), score, c.event.timestamp, c.zScore, c.event.traceId, c.event.spanId)
  }

  // ---- How many events a detection needs ----

  lemma ZNeedsMany(events: seq<SpanEvent>, row: nat, m: Metric, std: Metric -> real, c: real)
    requires row < |events| && IsStdOf(events, std) && std(m) >= 0.0 && c > 0.0
    requires Abs(Z(events, row, m, std)) >= c
    ensures c * c < (|events| - 1) as real
  {
    var xs := Column(events, m);
    FarBy(xs[row] - Mean(xs), std(m), Z(events, row, m, std), c);
    FarNeedsMany(xs, row, std(m), c, c * EPSILON);
  }

  lemma FarBy(d: real, s: real, z: real, c: real)
    requires s >= 0.0 && c > 0.0 && z == d / (s + EPSILON) && Abs(z) >= c
    ensures d >= c * s + c * EPSILON || -d >= c * s + c * EPSILON
    ensures c * EPSILON > 0.0
  {
    var scale := s + EPSILON;
    Times(d, z, scale);
    Scale(z, c, scale);
    assert c * scale == c * s + c * EPSILON;
    Positive(c, EPSILON);
  }

  lemma Times(d: real, z: real, scale: real)
    requires scale > 0.0 && z == d / scale
    ensures d == z * scale
  {
  }

  lemma Scale(z: real, c: real, scale: real)
    requires Abs(z) >= c > 0.0 && scale > 0.0
    ensures z * scale >= c * scale || -(z * scale) >= c * scale
    ensures c * scale > 0.0
  {
    Positive(c, scale);
    if z >= 0.0 {
      ProductSign(z - c, scale);
      assert (z - c) * scale == z * scale - c * scale;
    } else {
      ProductSign(-z - c, scale);
      assert (-z - c) * scale == -(z * scale) - c * scale;
    }
  }

  /** The trigger fires exactly when the latest event is new in this slide and some metric of it
      lies more than three deviations toward its anomalous side; what it reports is the strongest. */
  lemma FiresIff(events: seq<SpanEvent>, newFrom: int, std: Metric -> real, round4: real -> real)
    requires forall m :: std(m) >= 0.0
    ensures var r := Evaluate(events, newFrom, std, round4);
            && (r.Some? <==> |events| >= MIN_EVENTS && events[LatestRow(events)].timestamp >= newFrom
                             && exists m :: Toward(events, LatestRow(events), m, std) > THRESHOLD)
            && (r.Some? ==> exists m ::
                  && r.value == Candidate(AnomalyType(m), round4(Z(events, LatestRow(events), m, std)),
                                          events[LatestRow(events)])
                  && (forall m' ::
                        Toward(events, LatestRow(events), m', std) <= Toward(events, LatestRow(events), m, std))
                  && Toward(events, LatestRow(events), m, std) > THRESHOLD)
  {
    if |events| >= MIN_EVENTS {
      var row := LatestRow(events);
      var t := m => Toward(events, row, m, std);
      var col := Strongest(t);
      assert forall m :: t(m) == Toward(events, row, m, std);
      assert forall m :: Toward(events, row, m, std) <= Toward(events, row, col, std);
    }
  }

  lemma RoundedNeedsMany(events: seq<SpanEvent>, row: nat, m: Metric, std: Metric -> real, rounded: real, c: real)
    requires row < |events| && IsStdOf(events, std) && std(m) >= 0.0 && c > 0.00005
    requires Z(events, row, m, std) - 0.00005 <= rounded <= Z(events, row, m, std) + 0.00005
    requires Abs(rounded) >= c
    ensures (c - 0.00005) * (c - 0.00005) < (|events| - 1) as real
  {
    ZNeedsMany(events, row, m, std, c - 0.00005);
  }

  /** The least number of events behind each severity. */
  predicate EnoughFor(severity: int, n: nat) {
    && (severity >= 2 ==> n >= 14)
    && (severity >= 3 ==> n >= 32)
    && (severity >= 4 ==> n >= 58)
    && (severity >= 5 ==> n >= 82)
  }

  lemma SeverityNeedsEvents(events: seq<SpanEvent>, row: nat, m: Metric, std: Metric -> real, rounded: real)
    requires row < |events| && IsStdOf(events, std) && std(m) >= 0.0
    requires Z(events, row, m, std) - 0.00005 <= rounded <= Z(events, row, m, std) + 0.00005
    ensures EnoughFor(ComputeSeverity(Score(rounded)), |events|)
  {
    if Abs(rounded) >= 3.5 { RoundedNeedsMany(events, row, m, std, rounded, 3.5); }
    if Abs(rounded) >= 5.5 { RoundedNeedsMany(events, row, m, std, rounded, 5.5); }
    if Abs(rounded) >= 7.5 { RoundedNeedsMany(events, row, m, std, rounded, 7.5); }
    if Abs(rounded) >= 9.0 { RoundedNeedsMany(events, row, m, std, rounded, 9.0); }
  }

  lemma FarLatestNeedsEvents(events: seq<SpanEvent>, row: nat, m: Metric, std: Metric -> real, rounded: real)
    requires row < |events| && IsStdOf(events, std) && std(m) >= 0.0 && Abs(Z(events, row, m, std)) >= 3.0
    requires Z(events, row, m, std) - 0.00005 <= rounded <= Z(events, row, m, std) + 0.00005
    ensures |events| >= 11 && EnoughFor(ComputeSeverity(Score(rounded)), |events|)
  {
    ZNeedsMany(events, row, m, std, 3.0);
    SeverityNeedsEvents(events, row, m, std, rounded);
  }

  lemma Fired(events: seq<SpanEvent>, newFrom: int, std: Metric -> real, round4: real -> real)
    returns (row: nat, m: Metric, rounded: real)
    requires Rounds4(round4) && forall m :: std(m) >= 0.0
    requires Evaluate(events, newFrom, std, round4).Some?
    ensures row < |events| && Abs(Z(events, row, m, std)) >= 3.0
    ensures Z(events, row, m, std) - 0.00005 <= rounded <= Z(events, row, m, std) + 0.00005
    ensures rounded == Evaluate(events, newFrom, std, round4).value.zScore
  {
    FiresIff(events, newFrom, std, round4);
    row := LatestRow(events);
    m :| Evaluate(events, newFrom, std, round4).value.zScore == round4(Z(events, row, m, std))
      && Toward(events, row, m, std) > THRESHOLD;
    rounded := round4(Z(events, row, m, std));
  }

  /** A window of exactly the minimum size never fires, and the higher severities need far more
      events than the minimum: 14, 32, 58 and 82 for severities 2 to 5, rounding included. */
  lemma DetectionNeedsEvents(events: seq<SpanEvent>, newFrom: int, std: Metric -> real, round4: real -> real)
    requires IsStdOf(events, std) && Rounds4(round4) && forall m :: std(m) >= 0.0
    ensures var r := Evaluate(events, newFrom, std, round4);
            r.Some? ==> |events| >= 11 && EnoughFor(ComputeSeverity(Score(r.value.zScore)), |events|)
  {
    if Evaluate(events, newFrom, std, round4).Some? {
      var row, m, rounded := Fired(events, newFrom, std, round4);
      FarLatestNeedsEvents(events, row, m, std, rounded);
    }
  }

  /** A window whose CPU values are these, in order of time, and whose other metrics never move. */
  function CpuWindow(xs: seq<real>): seq<SpanEvent> {
    seq(|xs|, i requires 0 <= i < |xs| => SpanEvent("", "", i, xs[i], 0.0, 0.0, 0.0))
  }

  function OnlyCpu(s: real): Metric -> real {
    (m: Metric) => if m == CpuPercent then s else 0.0
  }

  lemma CpuWindowColumns(xs: seq<real>, s: real)
    requires xs != [] && IsStd(xs, s)
    ensures IsStdOf(CpuWindow(xs), OnlyCpu(s)) && (forall m :: OnlyCpu(s)(m) >= 0.0)
    ensures Column(CpuWindow(xs), CpuPercent) == xs && LatestRow(CpuWindow(xs)) == |xs| - 1
  {
    var events := CpuWindow(xs);
    assert Column(events, CpuPercent) == xs;
    forall m ensures IsStd(Column(events, m), OnlyCpu(s)(m)) {
      if m != CpuPercent {
        assert Column(events, m) == Repeat(0.0, |xs|);
        ConstantSpread(Column(events, m));
      }
    }
  }

  lemma CpuWindowFires(xs: seq<real>, s: real, z: real, round4: real -> real)
    requires |xs| >= MIN_EVENTS && IsStd(xs, s) && Mean(xs) == 0.0
    requires z == xs[|xs| - 1] / (s + EPSILON) && z > THRESHOLD
    ensures IsStdOf(CpuWindow(xs), OnlyCpu(s)) && (forall m :: OnlyCpu(s)(m) >= 0.0)
    ensures var r := Evaluate(CpuWindow(xs), 0, OnlyCpu(s), round4);
            r.Some? && r.value.zScore == round4(z)
  {
    var events, std, row := CpuWindow(xs), OnlyCpu(s), |xs| - 1;
    CpuWindowColumns(xs, s);
    assert Z(events, row, CpuPercent, std) == z;
    forall m | m != CpuPercent ensures Toward(events, row, m, std) == 0.0 {
      assert Column(events, m) == Repeat(0.0, |xs|);
      ConstantSpread(Column(events, m));
    }
    var t := m => Toward(events, row, m, std);
    assert t(CpuPercent) > THRESHOLD && forall m :: m != CpuPercent ==> t(m) == 0.0;
    assert Strongest(t) == CpuPercent;
  }

  /** The bound of eleven is exact: these eleven CPU values fire. */
  lemma ElevenEventsCanFire(round4: real -> real)
    ensures exists events, std: Metric -> real ::
      && |events| == 11 && (forall m :: std(m) >= 0.0) && IsStdOf(events, std)
      && Evaluate(events, 0, std, round4).Some?
  {
    ElevenSpread();
    CpuWindowFires(Levels(1, -4.0, 2, 0.0, 7, -3.0, 25.0), 8.0, 25.0 / (8.0 + EPSILON), round4);
  }

  lemma ElevenSpread()
    ensures var xs := Levels(1, -4.0, 2, 0.0, 7, -3.0, 25.0); Mean(xs) == 0.0 && IsStd(xs, 8.0)
  {
    SumLevels(1, -4.0, 2, 0.0, 7, -3.0, 25.0);
    SumLevels(1, 16.0, 2, 0.0, 7, 9.0, 625.0);
    LevelsSpread(1, -4.0, 2, 0.0, 7, -3.0, 25.0, 8.0, 704.0);
  }

  /** A window of n events that is reported with this severity. */
  ghost predicate Reached(round4: real -> real, n: nat, severity: int) {
    exists events, std :: |events| == n && ReportedAt(round4, events, std, severity)
  }

  ghost predicate ReportedAt(round4: real -> real, events: seq<SpanEvent>, std: Metric -> real, severity: int) {
    && (forall m :: std(m) >= 0.0) && IsStdOf(events, std)
    && Evaluate(events, 0, std, round4).Some?
    && ComputeSeverity(Score(Evaluate(events, 0, std, round4).value.zScore)) == severity
  }

  lemma SpreadReaches(xs: seq<real>, s: real, z: real, severity: int, round4: real -> real)
    requires |xs| >= MIN_EVENTS && IsStd(xs, s) && Mean(xs) == 0.0 && z == xs[|xs| - 1] / (s + EPSILON)
    requires z > THRESHOLD && ComputeSeverity(Score(round4(z))) == severity
    ensures Reached(round4, |xs|, severity)
  {
    CpuWindowFires(xs, s, z, round4);
    assert ReportedAt(round4, CpuWindow(xs), OnlyCpu(s), severity);
  }

  /** All the bounds are exact: eleven events suffice to fire, and 14, 32, 58 and 82 for severities 2 to 5. */
  lemma BoundsAreExact(round4: real -> real)
    requires Rounds4(round4)
    ensures Reached(round4, 11, 1) && Reached(round4, 14, 2) && Reached(round4, 32, 3)
    ensures Reached(round4, 58, 4) && Reached(round4, 82, 5)
  {
    ElevenReach(round4);
    FourteenReach(round4);
    ThirtyTwoReach(round4);
    FiftyEightReach(round4);
    EightyTwoReach(round4);
  }

  lemma ElevenReach(round4: real -> real)
    requires Rounds4(round4)
    ensures Reached(round4, 11, 1)
  {
    var z := 25.0 / (8.0 + EPSILON);
    assert 3.12 < z < 3.13 && z - 0.00005 <= round4(z) <= z + 0.00005;
    ElevenSpread();
    SpreadReaches(Levels(1, -4.0, 2, 0.0, 7, -3.0, 25.0), 8.0, z, 1, round4);
  }

  lemma FourteenReach(round4: real -> real)
    requires Rounds4(round4)
    ensures Reached(round4, 14, 2)
  {
    var z := 25.0 / (7.0 + EPSILON);
    assert 3.57 < z < 3.58 && z - 0.00005 <= round4(z) <= z + 0.00005;
    SumLevels(7, -1.0, 6, -3.0, 0, 0.0, 25.0);
    SumLevels(7, 1.0, 6, 9.0, 0, 0.0, 625.0);
    LevelsSpread(7, -1.0, 6, -3.0, 0, 0.0, 25.0, 7.0, 686.0);
    SpreadReaches(Levels(7, -1.0, 6, -3.0, 0, 0.0, 25.0), 7.0, z, 2, round4);
  }

  lemma ThirtyTwoReach(round4: real -> real)
    requires Rounds4(round4)
    ensures Reached(round4, 32, 3)
  {
    var z := 61.0 / (11.0 + EPSILON);
    assert 5.54 < z < 5.55 && z - 0.00005 <= round4(z) <= z + 0.00005;
    SumLevels(16, -1.0, 15, -3.0, 0, 0.0, 61.0);
    SumLevels(16, 1.0, 15, 9.0, 0, 0.0, 3721.0);
    LevelsSpread(16, -1.0, 15, -3.0, 0, 0.0, 61.0, 11.0, 3872.0);
    SpreadReaches(Levels(16, -1.0, 15, -3.0, 0, 0.0, 61.0), 11.0, z, 3, round4);
  }

  lemma FiftyEightReach(round4: real -> real)
    requires Rounds4(round4)
    ensures Reached(round4, 58, 4)
  {
    var z := 113.0 / (15.0 + EPSILON);
    assert 7.53 < z < 7.54 && z - 0.00005 <= round4(z) <= z + 0.00005;
    SumLevels(29, -1.0, 28, -3.0, 0, 0.0, 113.0);
    SumLevels(29, 1.0, 28, 9.0, 0, 0.0, 12769.0);
    LevelsSpread(29, -1.0, 28, -3.0, 0, 0.0, 113.0, 15.0, 13050.0);
    SpreadReaches(Levels(29, -1.0, 28, -3.0, 0, 0.0, 113.0), 15.0, z, 4, round4);
  }

  /** With 82 events the exact z stays below 9, and rounding makes it 9.0. */
  lemma EightyTwoReach(round4: real -> real)
    requires Rounds4(round4)
    ensures Reached(round4, 82, 5)
  {
    var z := 81.0 / (9.0 + EPSILON);
    assert 8.99999 < z < 9.0 && z - 0.00005 <= round4(z) <= z + 0.00005 && Whole(round4(z) * 10000.0);
    assert round4(z) == 9.0;
    SumLevels(81, -1.0, 0, 0.0, 0, 0.0, 81.0);
    SumLevels(81, 1.0, 0, 0.0, 0, 0.0, 6561.0);
    LevelsSpread(81, -1.0, 0, 0.0, 0, 0.0, 81.0, 9.0, 6642.0);
    SpreadReaches(Levels(81, -1.0, 0, 0.0, 0, 0.0, 81.0), 9.0, z, 5, round4);
  }

  // ---- Each event is judged in one window ----

  /** The events of the sliding window that ends at end. */
  ghost predicate InWindow(events: seq<SpanEvent>, end: int) {
    forall i :: 0 <= i < |events| ==> end - WINDOW <= events[i].timestamp < end
  }

  /** What the window function reports for a window. */
  function Report(events: seq<SpanEvent>, end: int, std: Metric -> real, round4: real -> real): Option<Candidate>
    requires forall m :: std(m) >= 0.0
  {
    Evaluate(events, end - SLIDE, std, round4)
  }

  lemma ReportedIsNew(events: seq<SpanEvent>, end: int, std: Metric -> real, round4: real -> real)
    requires InWindow(events, end) && forall m :: std(m) >= 0.0
    requires Report(events, end, std, round4).Some?
    ensures end - SLIDE <= Report(events, end, std, round4).value.event.timestamp < end
  {
  }

  ghost predicate Injective(f: string -> string) {
    forall x, y :: f(x) == f(y) ==> x == y
  }

  /** Reports from different windows, or for different services, carry different ids; so an id comes
      back only when the same window of the same service is replayed. */
  lemma IdsDifferAcrossWindows(service1: string, events1: seq<SpanEvent>, end1: int, std1: Metric -> real,
                               service2: string, events2: seq<SpanEvent>, end2: int, std2: Metric -> real,
                               round4: real -> real, uuid5: string -> string)
    requires (forall m :: std1(m) >= 0.0) && (forall m :: std2(m) >= 0.0)
    requires InWindow(events1, end1) && InWindow(events2, end2) && end1 % SLIDE == 0 && end2 % SLIDE == 0
    requires Injective(uuid5) && (service1, end1) != (service2, end2)
    ensures var r1, r2 := Report(events1, end1, std1, round4), Report(events2, end2, std2, round4);
            r1.Some? && r2.Some? ==>
              BuildAnomaly(service1, r1.value, uuid5).id != BuildAnomaly(service2, r2.value, uuid5).id
  {
    var r1, r2 := Report(events1, end1, std1, round4), Report(events2, end2, std2, round4);
    if r1.Some? && r2.Some? {
      var c1, c2 := r1.value, r2.value;
      ReportedIsNew(events1, end1, std1, round4);
      ReportedIsNew(events2, end2, std2, round4);
      if end1 != end2 { SlidesDisjoint(end1, end2, c1.event.timestamp, c2.event.timestamp); }
      TypesHaveNoSlash(c1.anomalyType);
      TypesHaveNoSlash(c2.anomalyType);
      FiresIff(events1, end1 - SLIDE, std1, round4);
      FiresIff(events2, end2 - SLIDE, std2, round4);
      if AnomalyName(service1, c1.event.timestamp, c1.anomalyType) ==
          AnomalyName(service2, c2.event.timestamp, c2.anomalyType) {
        NameInjective(service1, c1.event.timestamp, c1.anomalyType, service2, c2.event.timestamp, c2.anomalyType);
      }
    }
  }

  lemma SlidesDisjoint(end1: int, end2: int, t1: int, t2: int)
    requires end1 % SLIDE == 0 && end2 % SLIDE == 0 && end1 != end2
    requires end1 - SLIDE <= t1 < end1 && end2 - SLIDE <= t2 < end2
    ensures t1 != t2
  {
  }

  lemma TypesHaveNoSlash(t: string)
    ensures (exists m :: t == AnomalyType(m)) ==> '/' !in t
  {
  }
}
