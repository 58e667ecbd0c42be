/** The windows that write to the tables: what they write is determined by service and window, so
    replaying them is safe. */
module WindowReplay {
  import opened Options
  import opened TimescaleSink
  import Ids = AnomalyIds
  import Z = ZScore

  /** A fired window of one service: the detection's sliding one with its events, or the aggregation's
      tumbling one with its means. */
  datatype Window =
    | Sliding(serviceId: string, end: int, events: seq<Z.SpanEvent>)
    | Tumbling(serviceId: string, end: int, cpuMean: Option<real>, latencyP99: Option<real>,
               errorRateMean: Option<real>, requestRateMean: Option<real>)

  /** The library functions behind the rows. */
  datatype Library = Library(
    std: seq<Z.SpanEvent> -> Z.Metric -> real, round4: real -> real, uuid5: string -> string, iso: int -> string)

  ghost predicate Sensible(lib: Library) {
    && (forall es, m :: lib.std(es)(m) >= 0.0)
    && Z.Injective(lib.uuid5)
    && (forall s, t :: lib.iso(s) == lib.iso(t) ==> s == t)
  }

  ghost function Rows(lib: Library, w: Window): seq<Row>
    requires Sensible(lib)
  {
    match w
    case Sliding(service, end, events) =>
      var found := Z.Report(events, end, lib.std(events), lib.round4);
      if found == None then []
      else
        var a := Z.BuildAnomaly(service, found.value, lib.uuid5);
        [AnomalyRow(a.id, lib.iso(a.detectedAt), service, a.anomalyType, a.severity, "ZSCORE")]
    case Tumbling(service, end, cpu, p99, errors, requests) =>
      MetricRows(Aggregate(lib.iso(end), service, cpu, p99, errors, requests))
  }

  /** A sliding window writes one row for what it reports, by the fields of the anomaly built from it. */
  lemma SlidingRows(lib: Library, service: string, end: int, events: seq<Z.SpanEvent>)
    requires Sensible(lib)
    ensures var found := Z.Report(events, end, lib.std(events), lib.round4);
            var rows := Rows(lib, Sliding(service, end, events));
            && (found == None ==> rows == [])
            && (found.Some? ==>
                  var c := found.value;
                  && |rows| == 1 && rows[0].AnomalyRow? && rows[0].serviceId == service
                  && rows[0].id == lib.uuid5("distrosense/anomaly/" + service + "/" + Ids.Decimal(c.event.timestamp)
                                             + "/" + c.anomalyType)
                  && rows[0].detectedAt == lib.iso(c.event.timestamp) && rows[0].anomalyType == c.anomalyType
                  && rows[0].severity == Z.BuildAnomaly(service, c, lib.uuid5).severity
                  && rows[0].modelUsed == "ZSCORE")
  {
  }

  /** A tumbling window writes a row for each mean it has, at its end. */
  lemma TumblingRows(lib: Library, w: Window, r: Row)
    requires Sensible(lib) && w.Tumbling?
    ensures r in Rows(lib, w) <==>
            || (w.cpuMean.Some? && r == MetricRow(lib.iso(w.end), w.serviceId, "cpu_percent", w.cpuMean.value))
            || (w.latencyP99.Some? && r == MetricRow(lib.iso(w.end), w.serviceId, "latency_p99", w.latencyP99.value))
            || (w.errorRateMean.Some?
                && r == MetricRow(lib.iso(w.end), w.serviceId, "error_rate", w.errorRateMean.value))
            || (w.requestRateMean.Some?
                && r == MetricRow(lib.iso(w.end), w.serviceId, "request_rate", w.requestRateMean.value))
  {
  }

  /** What each parallel task writes, window after window. */
  ghost function TasksOf(lib: Library, windows: seq<seq<Window>>): Tasks
    requires Sensible(lib)
  {
    seq(|windows|, i requires 0 <= i < |windows| =>
      seq(|windows[i]|, k requires 0 <= k < |windows[i]| => Rows(lib, windows[i][k])))
  }

  ghost predicate Fires(windows: seq<seq<Window>>, w: Window) {
    exists i, k :: 0 <= i < |windows| && 0 <= k < |windows[i]| && windows[i][k] == w
  }

  /** Window ends are multiples of the slide, and a window's events lie in it. */
  ghost predicate Aligned(w: Window) {
    w.Sliding? ==> w.end % Z.SLIDE == 0 && Z.InWindow(w.events, w.end)
  }

  /** A window of a service fires with one content, and on one task: the stream is keyed by service. */
  ghost predicate OneContent(windows: seq<seq<Window>>) {
    && (forall w :: Fires(windows, w) ==> Aligned(w))
    && (forall v, w :: Fires(windows, v) && Fires(windows, w) && SameWindow(v, w) ==> v == w)
  }

  predicate SameWindow(v: Window, w: Window) {
    v.Sliding? == w.Sliding? && v.serviceId == w.serviceId && v.end == w.end
  }

  lemma EmittedBy(lib: Library, windows: seq<seq<Window>>, r: Row) returns (w: Window)
    requires Sensible(lib) && Emits(TasksOf(lib, windows), r)
    ensures Fires(windows, w) && r in Rows(lib, w)
  {
    var tasks := TasksOf(lib, windows);
    var i, k :| 0 <= i < |tasks| && 0 <= k < |tasks[i]| && r in tasks[i][k];
    w := windows[i][k];
  }

  lemma RowsSayWindow(lib: Library, v: Window, w: Window, r: Row, s: Row)
    requires Sensible(lib) && Aligned(v) && Aligned(w)
    requires r in Rows(lib, v) && s in Rows(lib, w) && KeyOf(r) == KeyOf(s)
    ensures SameWindow(v, w)
  {
    if v.Sliding? && w.Sliding? && (v.serviceId, v.end) != (w.serviceId, w.end) {
      Z.IdsDifferAcrossWindows(v.serviceId, v.events, v.end, lib.std(v.events),
                               w.serviceId, w.events, w.end, lib.std(w.events), lib.round4, lib.uuid5);
    }
  }

  lemma OneRowAKey(lib: Library, w: Window, r: Row, s: Row)
    requires Sensible(lib) && r in Rows(lib, w) && s in Rows(lib, w) && KeyOf(r) == KeyOf(s)
    ensures r == s
  {
    if w.Tumbling? {
      OneRowAName(Aggregate(lib.iso(w.end), w.serviceId, w.cpuMean, w.latencyP99, w.errorRateMean, w.requestRateMean),
                  r, s);
    }
  }

  /** Rows of windows with the same key are the same row: the premise of replay safety. */
  lemma WindowsAreDeterministic(lib: Library, windows: seq<seq<Window>>)
    requires Sensible(lib) && OneContent(windows)
    ensures Deterministic(TasksOf(lib, windows))
  {
    var tasks := TasksOf(lib, windows);
    forall r, s | Emits(tasks, r) && Emits(tasks, s) && KeyOf(r) == KeyOf(s) ensures r == s {
      var v := EmittedBy(lib, windows, r);
      var w := EmittedBy(lib, windows, s);
      RowsSayWindow(lib, v, w, r, s);
      OneRowAKey(lib, v, r, s);
    }
  }

  /** Whatever crashes, rewinds and half-acknowledged writes a finished job went through, its tables hold
      exactly the anomalies and aggregates of its windows. */
  lemma WindowsReplaySafe(lib: Library, windows: seq<seq<Window>>, steps: seq<Step>)
    requires Sensible(lib) && OneContent(windows) &&
        Finished(TasksOf(lib, windows), After(TasksOf(lib, windows), steps))
    ensures HoldsExactly(After(TasksOf(lib, windows), steps).db, TasksOf(lib, windows))
  {
    WindowsAreDeterministic(lib, windows);
    FinishedHoldsExactly(TasksOf(lib, windows), steps);
  }
}
