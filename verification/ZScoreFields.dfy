/** The trigger and the anomaly it leads to, over the raw fields and in plain numbers. */
module ZScoreFields {
  import opened Options
  import opened Deviation
  import opened ZScore
  import opened AnomalyIds

  function Cpus(events: seq<SpanEvent>): seq<real> {
    seq(|events|, i requires 0 <= i < |events| => events[i].cpuPercent)
  }

  function Latencies(events: seq<SpanEvent>): seq<real> {
    seq(|events|, i requires 0 <= i < |events| => events[i].latencyP99)
  }

  function Errors(events: seq<SpanEvent>): seq<real> {
    seq(|events|, i requires 0 <= i < |events| => events[i].errorRate)
  }

  function Requests(events: seq<SpanEvent>): seq<real> {
    seq(|events|, i requires 0 <= i < |events| => events[i].requestRate)
  }

  /** The k-th value is more than three deviations, and a bit, above or below the mean of all. */
  predicate FarAbove(xs: seq<real>, k: nat, s: real)
    requires k < |xs|
  {
    xs[k] - Mean(xs) > 3.0 * (s + 0.000000001)
  }

  predicate FarBelow(xs: seq<real>, k: nat, s: real)
    requires k < |xs|
  {
    Mean(xs) - xs[k] > 3.0 * (s + 0.000000001)
  }

  /** The k-th event is the latest, the first of several. */
  ghost predicate IsLatest(events: seq<SpanEvent>, k: nat) {
    && k < |events|
    && (forall i :: 0 <= i < |events| ==> events[i].timestamp <= events[k].timestamp)
    && (forall i :: 0 <= i < k ==> events[i].timestamp < events[k].timestamp)
  }

  /** The trigger's `std` is each field's own population standard deviation. */
  lemma StdsAreTheFields(events: seq<SpanEvent>, std: Metric -> real)
    requires events != []
    ensures IsStdOf(events, std) <==>
            && IsStd(Cpus(events), std(CpuPercent)) && IsStd(Latencies(events), std(LatencyP99))
            && IsStd(Errors(events), std(ErrorRate)) && IsStd(Requests(events), std(RequestRate))
  {
    ColumnsAreFields(events);
    if IsStd(Cpus(events), std(CpuPercent)) && IsStd(Latencies(events), std(LatencyP99))
       && IsStd(Errors(events), std(ErrorRate)) && IsStd(Requests(events), std(RequestRate)) {
      forall m ensures IsStd(Column(events, m), std(m)) {
        match m
        case CpuPercent =>
        case LatencyP99 =>
        case ErrorRate =>
        case RequestRate =>
      }
    }
  }

  lemma ColumnsAreFields(events: seq<SpanEvent>)
    ensures Column(events, CpuPercent) == Cpus(events) && Column(events, LatencyP99) == Latencies(events)
    ensures Column(events, ErrorRate) == Errors(events) && Column(events, RequestRate) == Requests(events)
  {
  }

  lemma Ratio(d: real, scale: real)
    requires scale > 0.0
    ensures (d / scale) * 1.0 > 3.0 <==> d > 3.0 * scale
    ensures (d / scale) * -1.0 > 3.0 <==> -d > 3.0 * scale
  {
    var z := d / scale;
    assert d == z * scale;
    if z > 3.0 { Positive(z - 3.0, scale); }
    if -z > 3.0 { Positive(-z - 3.0, scale); }
    if z <= 3.0 { ProductSign(3.0 - z, scale); }
    if -z <= 3.0 { ProductSign(3.0 + z, scale); }
  }

  /** Toward its anomalous side by more than the threshold is far above, or for requests far below. */
  lemma FarIsToward(events: seq<SpanEvent>, k: nat, std: Metric -> real)
    requires k < |events| && forall m :: std(m) >= 0.0
    ensures Toward(events, k, CpuPercent, std) > THRESHOLD <==> FarAbove(Cpus(events), k, std(CpuPercent))
    ensures Toward(events, k, LatencyP99, std) > THRESHOLD <==> FarAbove(Latencies(events), k, std(LatencyP99))
    ensures Toward(events, k, ErrorRate, std) > THRESHOLD <==> FarAbove(Errors(events), k, std(ErrorRate))
    ensures Toward(events, k, RequestRate, std) > THRESHOLD <==> FarBelow(Requests(events), k, std(RequestRate))
  {
    ColumnsAreFields(events);
    Ratio(Cpus(events)[k] - Mean(Cpus(events)), std(CpuPercent) + 0.000000001);
    Ratio(Latencies(events)[k] - Mean(Latencies(events)), std(LatencyP99) + 0.000000001);
    Ratio(Errors(events)[k] - Mean(Errors(events)), std(ErrorRate) + 0.000000001);
    Ratio(Requests(events)[k] - Mean(Requests(events)), std(RequestRate) + 0.000000001);
  }

  /** Some field of the k-th event is far off on its anomalous side. */
  predicate Anomalous(events: seq<SpanEvent>, k: nat, std: Metric -> real)
    requires k < |events|
  {
    || FarAbove(Cpus(events), k, std(CpuPercent))
    || FarAbove(Latencies(events), k, std(LatencyP99))
    || FarAbove(Errors(events), k, std(ErrorRate))
    || FarBelow(Requests(events), k, std(RequestRate))
  }

  /** What is reported of the k-th value of a field: the type, and its rounded deviation. */
  predicate Names(c: Candidate, anomalyType: string, xs: seq<real>, k: nat, s: real, round4: real -> real)
    requires k < |xs| && s >= 0.0
  {
    c.anomalyType == anomalyType && c.zScore == round4((xs[k] - Mean(xs)) / (s + 0.000000001))
  }

  /** The type and the deviation reported belong to one field, and it is that far off. */
  predicate NamesItsField(events: seq<SpanEvent>, k: nat, std: Metric -> real, round4: real -> real, c: Candidate)
    requires k < |events| && forall m :: std(m) >= 0.0
  {
    var cpu, latency, errors, requests := std(CpuPercent), std(LatencyP99), std(ErrorRate), std(RequestRate);
    || (FarAbove(Cpus(events), k, cpu) && Names(c, "CPU_SPIKE", Cpus(events), k, cpu, round4))
    || (FarAbove(Latencies(events), k, latency) && Names(c, "LATENCY_BURST", Latencies(events), k, latency, round4))
    || (FarAbove(Errors(events), k, errors) && Names(c, "ERROR_RATE_SPIKE", Errors(events), k, errors, round4))
    || (FarBelow(Requests(events), k, requests) && Names(c, "REQUEST_DROP", Requests(events), k, requests, round4))
  }

  lemma MetricNamesItsField(events: seq<SpanEvent>, k: nat, std: Metric -> real, round4: real -> real, m: Metric)
    requires k < |events| && (forall m :: std(m) >= 0.0) && Toward(events, k, m, std) > THRESHOLD
    ensures NamesItsField(events, k, std, round4,
                          Candidate(AnomalyType(m), round4(Z(events, k, m, std)), events[k]))
  {
    FarIsToward(events, k, std);
    ColumnsAreFields(events);
    var c := Candidate(AnomalyType(m), round4(Z(events, k, m, std)), events[k]);
    match m
    case CpuPercent => assert Names(c, "CPU_SPIKE", Cpus(events), k, std(m), round4);
    case LatencyP99 => assert Names(c, "LATENCY_BURST", Latencies(events), k, std(m), round4);
    case ErrorRate => assert Names(c, "ERROR_RATE_SPIKE", Errors(events), k, std(m), round4);
    case RequestRate => assert Names(c, "REQUEST_DROP", Requests(events), k, std(m), round4);
  }

  /** A window reports exactly if it has ten events, its latest one falls in the last thirty seconds, and
      that one's cpu, latency or error rate is more than three deviations above the field's mean, or its
      request rate that far below; and it reports a field of which this holds. */
  lemma ReportsOnFields(events: seq<SpanEvent>, end: int, std: Metric -> real, round4: real -> real, k: nat)
    requires IsLatest(events, k) && forall m :: std(m) >= 0.0
    ensures var r := Report(events, end, std, round4);
            && (r.Some? <==> |events| >= 10 && events[k].timestamp >= end - 30_000 && Anomalous(events, k, std))
            && (r.Some? ==> r.value.event == events[k] && NamesItsField(events, k, std, round4, r.value))
  {
    assert LatestRow(events) == k;
    FiresIff(events, end - SLIDE, std, round4);
    SomeMetric(events, k, std);
    var r := Report(events, end, std, round4);
    if r.Some? {
      var m :| r.value == Candidate(AnomalyType(m), round4(Z(events, k, m, std)), events[k])
        && Toward(events, k, m, std) > THRESHOLD;
      MetricNamesItsField(events, k, std, round4, m);
    }
  }

  lemma SomeMetric(events: seq<SpanEvent>, k: nat, std: Metric -> real)
    requires k < |events| && forall m :: std(m) >= 0.0
    ensures (exists m :: Toward(events, k, m, std) > THRESHOLD) <==> Anomalous(events, k, std)
  {
    FarIsToward(events, k, std);
    if m :| Toward(events, k, m, std) > THRESHOLD {
      match m
      case CpuPercent =>
      case LatencyP99 =>
      case ErrorRate =>
      case RequestRate =>
    }
  }

  /** No events, no report. */
  lemma NothingReportsNothing(end: int, std: Metric -> real, round4: real -> real)
    requires forall m :: std(m) >= 0.0
    ensures Report([], end, std, round4) == None
  {
  }

  /** Every moment lies in the last thirty seconds of exactly one window. */
  lemma JudgedInOneWindow(t: int)
    ensures exists end :: end % 30_000 == 0 && end - 30_000 <= t < end
    ensures forall a, b :: a % 30_000 == 0 && b % 30_000 == 0 && a - 30_000 <= t < a && b - 30_000 <= t < b ==> a == b
  {
    var end := t - t % 30_000 + 30_000;
    assert end % 30_000 == 0;
    forall a, b | a % 30_000 == 0 && b % 30_000 == 0 && a - 30_000 <= t < a && b - 30_000 <= t < b ensures a == b {
      if a != b { SlidesDisjoint(a, b, t, t); }
    }
  }

  /** What the built anomaly carries: the severity of its rounded deviation, the event's time, trace and
      span, and the id derived from service, time and type. */
  lemma BuiltOnFields(serviceId: string, c: Candidate, uuid5: string -> string)
    ensures var a, z := BuildAnomaly(serviceId, c, uuid5), if c.zScore >= 0.0 then c.zScore else -c.zScore;
            && a.severity ==
               (if z >= 9.0 then 5 else if z >= 7.5 then 4 else if z >= 5.5 then 3 else if z >= 3.5 then 2 else 1)
            && a.anomalyScore == (if z < 10.0 then z / 10.0 else 1.0)
            && a.serviceId == serviceId && a.anomalyType == c.anomalyType && a.zScore == c.zScore
            && a.detectedAt == c.event.timestamp && a.traceId == c.event.traceId && a.spanId == c.event.spanId
            && a.id == uuid5("distrosense/anomaly/" + serviceId + "/" + Decimal(c.event.timestamp)
                             + "/" + c.anomalyType)
  {
  }

  // ---- The decimal in the id ----

  function Value(digits: string): int
    requires forall i :: 0 <= i < |digits| ==> '0' <= digits[i] <= '9'
  {
    if digits == [] then 0 else Value(digits[..|digits| - 1]) * 10 + (digits[|digits| - 1] as int - '0' as int)
  }

  lemma {:induction false} DigitsValue(n: nat)
    ensures forall i :: 0 <= i < |Digits(n)| ==> '0' <= Digits(n)[i] <= '9'
    ensures Value(Digits(n)) == n
  {
    DigitsAreDigits(n);
    if n >= 10 {
      DigitsValue(n / 10);
      assert Digits(n)[..|Digits(n)| - 1] == Digits(n / 10);
    }
  }
}
