/** What every run of the clusterer keeps, whatever order anomalies arrive in:
    nothing is lost or doubled, and each cluster's summary fields describe its members. */
module ClusterLedger {
  import opened Selection
  import opened Walks
  import opened ClusterModel

  ghost predicate ServicesMatch(c: ClusterView) {
    && (forall x :: x in c.anomalies ==> x.serviceId in c.serviceIds)
    && (forall s :: s in c.serviceIds ==> exists x :: x in c.anomalies && x.serviceId == s)
  }

  ghost predicate LatestMatches(c: ClusterView) {
    && (forall x :: x in c.anomalies ==> x.detectedAt <= c.lastUpdated)
    && (exists x :: x in c.anomalies && x.detectedAt == c.lastUpdated)
  }

  /** The summary fields are those of the members. */
  ghost predicate Faithful(c: ClusterView) {
    && ServicesMatch(c)
    && LatestMatches(c)
    && (exists x :: x in c.anomalies && x.detectedAt == c.createdAt)
  }

  ghost predicate AllFaithful(vs: seq<ClusterView>) {
    forall i :: 0 <= i < |vs| ==> Faithful(vs[i])
  }

  /** How many times an anomaly is held in a list of clusters. */
  ghost function Held(vs: seq<ClusterView>, x: Anomaly): nat {
    if vs == [] then 0
    else Held(vs[..|vs| - 1], x) + multiset(vs[|vs| - 1].anomalies)[x]
  }

  /** How many times an anomaly came in. */
  ghost function Arrivals(events: seq<Event>, x: Anomaly): nat {
    if events == [] then 0
    else Arrivals(events[..|events| - 1], x) + if events[|events| - 1] == Added(x) then 1 else 0
  }

  // ---- Summary fields ----

  lemma MergeFaithful(c: ClusterView, d: ClusterView)
    requires Faithful(c) && Faithful(d)
    ensures Faithful(c.Merge(d))
  {
    var m := c.Merge(d);
    assert forall x :: x in m.anomalies <==> x in c.anomalies || x in d.anomalies;
    assert ServicesMatch(m);
  }

  lemma AddFaithful(c: ClusterView, a: Anomaly)
    requires Faithful(c)
    ensures Faithful(c.Add(a))
  {
    var m := c.Add(a);
    assert forall x :: x in m.anomalies <==> x in c.anomalies || x == a;
    assert ServicesMatch(m);
  }

  lemma {:induction false} MergeAllFaithful(c: ClusterView, others: seq<ClusterView>)
    requires Faithful(c) && AllFaithful(others)
    ensures Faithful(MergeAll(c, others))
  {
    if others != [] {
      MergeAllFaithful(c, others[..|others| - 1]);
      MergeFaithful(MergeAll(c, others[..|others| - 1]), others[|others| - 1]);
    }
  }

  lemma SelectKeepsFaithful(vs: seq<ClusterView>, keep: set<nat>)
    requires AllFaithful(vs)
    ensures AllFaithful(Select(vs, keep))
  {
  }

  lemma OpenedFaithful(a: Anomaly)
    ensures Faithful(Opened(a))
  {
    assert Opened(a).anomalies[0] == a;
  }

  lemma JoinedFaithful(vs: seq<ClusterView>, keep: set<nat>, a: Anomaly)
    requires AllFaithful(vs) && Within(|vs|, keep) && keep != {}
    ensures AllFaithful(Joined(vs, keep, a))
  {
    var first := FirstOf(|vs|, keep);
    AddFaithful(vs[first], a);
    SelectKeepsFaithful(vs, keep - {first});
    MergeAllFaithful(vs[first].Add(a), Select(vs, keep - {first}));
    SelectKeepsFaithful(vs[first := MergedTarget(vs, keep, a)], Outside(|vs|, keep - {first}));
  }

  lemma AddAnomalyFaithful(rel: Relation, vs: seq<ClusterView>, a: Anomaly)
    requires AllFaithful(vs)
    ensures AllFaithful(AddAnomaly(rel, vs, a))
  {
    var keep := Matched(rel, vs, a);
    if keep == {} {
      OpenedFaithful(a);
    } else {
      JoinedFaithful(vs, keep, a);
    }
  }

  /** In any run, ordered or not, every open or closed cluster's service set is the set of its
      anomalies' services, last_updated is their latest time and created_at is one of their times. */
  lemma {:induction false} ClustersDescribeMembers(rel: Relation, events: seq<Event>)
    ensures AllFaithful(Run(rel, events).open) && AllFaithful(Run(rel, events).closed)
  {
    if events != [] {
      var l := Run(rel, events[..|events| - 1]);
      ClustersDescribeMembers(rel, events[..|events| - 1]);
      match events[|events| - 1]
      case Added(a) => AddAnomalyFaithful(rel, l.open, a);
      case Checked(now) =>
        var f := FinalizedAt(l.open, now);
        SelectKeepsFaithful(l.open, f);
        SelectKeepsFaithful(l.open, Outside(|l.open|, f));
    }
  }

  // ---- Conservation ----

  lemma HeldSnoc(vs: seq<ClusterView>, c: ClusterView, x: Anomaly)
    ensures Held(vs + [c], x) == Held(vs, x) + multiset(c.anomalies)[x]
  {
    assert (vs + [c])[..|vs|] == vs;
  }

  lemma {:induction false} HeldSplits(vs: seq<ClusterView>, drop: set<nat>, x: Anomaly)
    ensures Held(Select(vs, Outside(|vs|, drop)), x) + Held(Select(vs, drop), x) == Held(vs, x)
  {
    if vs != [] {
      var n := |vs| - 1;
      var ws, c := vs[..n], vs[n];
      HeldSplits(ws, drop, x);
      SelectSnoc(vs, drop, drop);
      SelectSnoc(vs, Outside(|vs|, drop), Outside(n, drop));
      HeldSnoc(Select(ws, drop), c, x);
      HeldSnoc(Select(ws, Outside(n, drop)), c, x);
      if n in drop {
        assert Select(vs, Outside(|vs|, drop)) == Select(ws, Outside(n, drop));
      } else {
        assert Select(vs, drop) == Select(ws, drop);
      }
    }
  }

  lemma {:induction false} HeldAppend(vs: seq<ClusterView>, ws: seq<ClusterView>, x: Anomaly)
    ensures Held(vs + ws, x) == Held(vs, x) + Held(ws, x)
  {
    if ws == [] {
      assert vs + ws == vs;
    } else {
      var n := |ws| - 1;
      HeldAppend(vs, ws[..n], x);
      assert vs + ws == (vs + ws[..n]) + [ws[n]];
      HeldSnoc(vs + ws[..n], ws[n], x);
    }
  }

  lemma {:induction false} HeldReplace(vs: seq<ClusterView>, i: nat, c: ClusterView, x: Anomaly)
    requires i < |vs|
    ensures Held(vs[i := c], x) + multiset(vs[i].anomalies)[x] == Held(vs, x) + multiset(c.anomalies)[x]
  {
    var n := |vs| - 1;
    if i < n {
      HeldReplace(vs[..n], i, c, x);
      assert vs[i := c][..n] == vs[..n][i := c];
      assert vs[..n][i] == vs[i];
    } else {
      assert vs[i := c][..n] == vs[..n];
    }
  }

  lemma {:induction false} MergeAllHeld(c: ClusterView, others: seq<ClusterView>, x: Anomaly)
    ensures multiset(MergeAll(c, others).anomalies)[x] == multiset(c.anomalies)[x] + Held(others, x)
  {
    if others != [] {
      MergeAllHeld(c, others[..|others| - 1], x);
    }
  }

  lemma JoinedHeld(vs: seq<ClusterView>, keep: set<nat>, a: Anomaly, x: Anomaly)
    requires Within(|vs|, keep) && keep != {}
    ensures Held(Joined(vs, keep, a), x) == Held(vs, x) + if x == a then 1 else 0
  {
    var first := FirstOf(|vs|, keep);
    var drop := keep - {first};
    var target := MergedTarget(vs, keep, a);
    var vs' := vs[first := target];
    assert Select(vs', drop) == Select(vs, drop);
    HeldSplits(vs', drop, x);
    HeldReplace(vs, first, target, x);
    MergeAllHeld(vs[first].Add(a), Select(vs, drop), x);
  }

  lemma AddHeld(rel: Relation, vs: seq<ClusterView>, a: Anomaly, x: Anomaly)
    ensures Held(AddAnomaly(rel, vs, a), x) == Held(vs, x) + if a == x then 1 else 0
  {
    var keep := Matched(rel, vs, a);
    if keep == {} {
      HeldSnoc(vs, Opened(a), x);
    } else {
      JoinedHeld(vs, keep, a, x);
    }
  }

  lemma PopHeld(vs: seq<ClusterView>, closed: seq<ClusterView>, now: int, x: Anomaly)
    ensures var (rest, popped) := PopFinalized(vs, now);
            Held(rest, x) + Held(closed + popped, x) == Held(vs, x) + Held(closed, x)
  {
    var f := FinalizedAt(vs, now);
    HeldSplits(vs, f, x);
    HeldAppend(closed, Select(vs, f), x);
  }

  /** Conservation, for any times: each anomaly that came in is in exactly one open or closed
      cluster, once for each time it came in. */
  lemma {:induction false} NothingLostOrDoubled(rel: Relation, events: seq<Event>, x: Anomaly)
    ensures Held(Run(rel, events).open, x) + Held(Run(rel, events).closed, x) == Arrivals(events, x)
  {
    if events != [] {
      var l := Run(rel, events[..|events| - 1]);
      NothingLostOrDoubled(rel, events[..|events| - 1], x);
      match events[|events| - 1]
      case Added(a) => AddHeld(rel, l.open, a, x);
      case Checked(now) => PopHeld(l.open, l.closed, now, x);
    }
  }

  lemma {:induction false} HeldIn(vs: seq<ClusterView>, i: nat, x: Anomaly)
    requires i < |vs| && x in vs[i].anomalies
    ensures Held(vs, x) > 0
  {
    if i < |vs| - 1 {
      assert vs[..|vs| - 1][i] == vs[i];
      HeldIn(vs[..|vs| - 1], i, x);
    }
  }

  lemma {:induction false} ArrivalsHave(events: seq<Event>, x: Anomaly)
    requires Arrivals(events, x) > 0
    ensures exists j :: 0 <= j < |events| && events[j] == Added(x)
  {
    var n := |events| - 1;
    if events[n] != Added(x) {
      ArrivalsHave(events[..n], x);
      var j :| 0 <= j < n && events[..n][j] == Added(x);
      assert events[j] == Added(x);
    }
  }

  /** An anomaly held in an open cluster came in at some earlier event. */
  lemma HeldCameIn(rel: Relation, events: seq<Event>, i: nat, x: Anomaly) returns (j: nat)
    requires i < |Run(rel, events).open| && x in Run(rel, events).open[i].anomalies
    ensures j < |events| && events[j] == Added(x)
  {
    HeldIn(Run(rel, events).open, i, x);
    NothingLostOrDoubled(rel, events, x);
    ArrivalsHave(events, x);
    j :| 0 <= j < |events| && events[j] == Added(x);
  }

  // ---- Life span ----

  /** No anomaly is detected more than late milliseconds before one that arrived ahead of it. */
  ghost predicate AtMostLate(events: seq<Event>, late: int) {
    forall i, j :: 0 <= i < j < |events| && events[i].Added? && events[j].Added? ==>
      events[j].anomaly.detectedAt >= events[i].anomaly.detectedAt - late
  }

  ghost predicate ShortLived(c: ClusterView, late: int) {
    && c.lastUpdated - c.createdAt < MAX_CLUSTER_AGE + late
    && (forall x :: x in c.anomalies ==> x.detectedAt >= c.createdAt - late)
  }

  ghost predicate AllShortLived(vs: seq<ClusterView>, late: int) {
    forall i :: 0 <= i < |vs| ==> ShortLived(vs[i], late)
  }

  /** What the clusters an anomaly joins have in common; merging keeps it. */
  ghost predicate Near(c: ClusterView, now: int, late: int) {
    && now - MAX_CLUSTER_AGE < c.createdAt <= now + late
    && c.lastUpdated <= now + late
    && (forall x :: x in c.anomalies ==> x.detectedAt >= c.createdAt - late)
  }

  lemma {:induction false} MergeAllNear(c: ClusterView, others: seq<ClusterView>, now: int, late: int)
    requires Near(c, now, late) && forall i :: 0 <= i < |others| ==> Near(others[i], now, late)
    ensures Near(MergeAll(c, others), now, late)
  {
    if others != [] {
      MergeAllNear(c, others[..|others| - 1], now, late);
    }
  }

  lemma SelectKeepsShortLived(vs: seq<ClusterView>, keep: set<nat>, late: int)
    requires AllShortLived(vs, late)
    ensures AllShortLived(Select(vs, keep), late)
  {
  }

  lemma EligibleIsNear(c: ClusterView, now: int, late: int)
    requires Faithful(c) && ShortLived(c, late) && c.Eligible(now)
    requires forall x :: x in c.anomalies ==> now >= x.detectedAt - late
    ensures Near(c, now, late)
  {
  }

  lemma JoinedShortLived(vs: seq<ClusterView>, keep: set<nat>, a: Anomaly, late: nat)
    requires AllShortLived(vs, late) && Within(|vs|, keep) && keep != {}
    requires forall i :: i in keep ==> Near(vs[i], a.detectedAt, late)
    ensures AllShortLived(Joined(vs, keep, a), late)
  {
    var first, now := FirstOf(|vs|, keep), a.detectedAt;
    assert Near(vs[first].Add(a), now, late);
    MergeAllNear(vs[first].Add(a), Select(vs, keep - {first}), now, late);
    assert ShortLived(MergedTarget(vs, keep, a), late);
    SelectKeepsShortLived(vs[first := MergedTarget(vs, keep, a)], Outside(|vs|, keep - {first}), late);
  }

  lemma AddAnomalyShortLived(rel: Relation, vs: seq<ClusterView>, a: Anomaly, late: nat)
    requires AllFaithful(vs) && AllShortLived(vs, late)
    requires forall i, x :: 0 <= i < |vs| && x in vs[i].anomalies ==> a.detectedAt >= x.detectedAt - late
    ensures AllShortLived(AddAnomaly(rel, vs, a), late)
  {
    var keep := Matched(rel, vs, a);
    if keep != {} {
      forall i | i in keep ensures Near(vs[i], a.detectedAt, late) {
        EligibleIsNear(vs[i], a.detectedAt, late);
      }
      JoinedShortLived(vs, keep, a, late);
    }
  }

  /** With arrivals at most late milliseconds out of order, a cluster's members span less than
      the age cap plus late, and none is more than late older than created_at. */
  lemma {:induction false} ClustersAreShortLived(rel: Relation, events: seq<Event>, late: nat)
    requires AtMostLate(events, late)
    ensures AllShortLived(Run(rel, events).open, late) && AllShortLived(Run(rel, events).closed, late)
  {
    if events != [] {
      var n := |events| - 1;
      var before := events[..n];
      var l := Run(rel, before);
      ClustersAreShortLived(rel, before, late);
      match events[n]
      case Added(a) =>
        ClustersDescribeMembers(rel, before);
        forall i, x | 0 <= i < |l.open| && x in l.open[i].anomalies
          ensures a.detectedAt >= x.detectedAt - late
        {
          var j := HeldCameIn(rel, before, i, x);
          assert events[j] == Added(x);
        }
        AddAnomalyShortLived(rel, l.open, a, late);
      case Checked(now) =>
        var f := FinalizedAt(l.open, now);
        SelectKeepsShortLived(l.open, f, late);
        SelectKeepsShortLived(l.open, Outside(|l.open|, f), late);
    }
  }

  ghost predicate AgeDecides(c: ClusterView, now: int) {
    && (c.Eligible(now) <==> now - c.createdAt < MAX_CLUSTER_AGE)
    && (c.Finalizes(now) <==> now - c.createdAt > MAX_CLUSTER_AGE)
  }

  /** In any run the idle rule never decides anything: a cluster may still take part, or is
      finalised, by its age alone. An age of exactly the cap is neither. */
  lemma IdleRuleIsImplied(rel: Relation, events: seq<Event>, now: int)
    ensures forall i :: 0 <= i < |Run(rel, events).open| ==> AgeDecides(Run(rel, events).open[i], now)
  {
    ClustersDescribeMembers(rel, events);
    forall i | 0 <= i < |Run(rel, events).open| ensures AgeDecides(Run(rel, events).open[i], now) {
      assert Faithful(Run(rel, events).open[i]);
    }
  }
}
