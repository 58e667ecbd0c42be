/** What one call does, in numbers and fields alone: times in milliseconds, the related-services query
    as the clusterer asks it. */
module ClusterRules {
  import opened Selection
  import opened Walks
  import opened ClusterModel
  import opened ClusterLedger
  import opened ClusterComponents

  /** Still takes anomalies detected at now. */
  predicate Takes(c: ClusterView, now: int) {
    now - c.lastUpdated <= 300_000 && now - c.createdAt < 90_000
  }

  predicate Closes(c: ClusterView, now: int) {
    now - c.lastUpdated > 300_000 || now - c.createdAt > 90_000
  }

  /** The last cluster on the list that still takes anomalies and holds the service. */
  ghost predicate LastHolder(vs: seq<ClusterView>, now: int, s: string, i: nat) {
    && i < |vs| && Takes(vs[i], now) && s in vs[i].serviceIds
    && forall j :: i < j < |vs| && Takes(vs[j], now) ==> s !in vs[j].serviceIds
  }

  /** Some cluster holds the anomaly and all of these. */
  ghost predicate HeldTogether(vs: seq<ClusterView>, a: Anomaly, others: seq<Anomaly>) {
    exists k :: 0 <= k < |vs| && a in vs[k].anomalies && forall x :: x in others ==> x in vs[k].anomalies
  }

  /** An anomaly ends up with all anomalies of each cluster that is the last to hold its service or one
      the query relates to it. */
  ghost predicate JoinsRelated(related: set<string>, before: seq<ClusterView>, after: seq<ClusterView>, a: Anomaly) {
    forall i: nat, s :: (s == a.serviceId || s in related) && LastHolder(before, a.detectedAt, s, i) ==>
      HeldTogether(after, a, before[i].anomalies)
  }

  lemma AddJoinsRelated(query: string -> set<string>, vs: seq<ClusterView>, a: Anomaly)
    ensures JoinsRelated(query(a.serviceId), vs, AddAnomaly(WithSelf(query), vs, a), a)
  {
    forall i: nat, s | (s == a.serviceId || s in query(a.serviceId)) && LastHolder(vs, a.detectedAt, s, i)
      ensures HeldTogether(AddAnomaly(WithSelf(query), vs, a), a, vs[i].anomalies)
    {
      assert forall j: nat :: j in EligibleAt(vs, a.detectedAt) ==> Takes(vs[j], a.detectedAt);
      assert Owns(Services(vs), EligibleAt(vs, a.detectedAt), s, i);
      RelatedEndTogether(WithSelf(query), vs, a, i, s);
      var ws := AddAnomaly(WithSelf(query), vs, a);
      var k :| 0 <= k < |ws| && HoldsTogether(ws[k], a, vs[i]);
    }
  }

  /** No cluster that still takes anomalies holds the service or a related one. */
  ghost predicate NoneRelated(related: set<string>, vs: seq<ClusterView>, a: Anomaly) {
    forall i :: 0 <= i < |vs| && Takes(vs[i], a.detectedAt) ==>
      a.serviceId !in vs[i].serviceIds && forall s :: s in related ==> s !in vs[i].serviceIds
  }

  /** Then it opens a cluster of its own. */
  lemma AddOpensAlone(query: string -> set<string>, vs: seq<ClusterView>, a: Anomaly)
    requires NoneRelated(query(a.serviceId), vs, a)
    ensures AddAnomaly(WithSelf(query), vs, a)
         == vs + [ClusterView([a], {a.serviceId}, a.detectedAt, a.detectedAt)]
  {
    var rel, live := WithSelf(query), EligibleAt(vs, a.detectedAt);
    var ground := Ground(Services(vs), live, a.serviceId);
    forall p, t | Joins(rel, ground, p, a.serviceId, t) ensures t == a.serviceId {
      StaysHome(rel, ground, p, a.serviceId);
    }
    assert Matched(rel, vs, a) == {};
  }

  /** A walk whose start has no neighbour in the ground but itself stays there. */
  lemma {:induction false} StaysHome(rel: Relation, ground: set<string>, p: seq<string>, s: string)
    requires Walk(rel, ground, p) && p[0] == s && forall t :: t in rel(s) && t in ground ==> t == s
    ensures p[|p| - 1] == s
  {
    if |p| > 1 {
      StaysHome(rel, ground, p[..|p| - 1], s);
      assert p[|p| - 1] in rel(p[|p| - 2]);
    }
  }

  /** A cluster that takes no more anomalies is left as it is. */
  ghost predicate LeavesOthers(before: seq<ClusterView>, after: seq<ClusterView>, now: int) {
    forall i :: 0 <= i < |before| && !Takes(before[i], now) ==> before[i] in after
  }

  lemma AddLeavesOthers(rel: Relation, vs: seq<ClusterView>, a: Anomaly)
    ensures LeavesOthers(vs, AddAnomaly(rel, vs, a), a.detectedAt)
  {
    var keep, ws := Matched(rel, vs, a), AddAnomaly(rel, vs, a);
    forall i | 0 <= i < |vs| && !Takes(vs[i], a.detectedAt) ensures vs[i] in ws {
      if keep == {} {
        assert ws[i] == vs[i];
      } else {
        assert i !in keep;
        var k := JoinedPlace(vs, keep, a, i);
        assert ws[k] == vs[i];
      }
    }
  }

  // ---- Checks ----

  lemma SelectedElements<T>(xs: seq<T>, keep: set<nat>, x: T)
    ensures x in Select(xs, keep) <==> exists i: nat :: i < |xs| && i in keep && xs[i] == x
  {
    if i: nat :| i < |xs| && i in keep && xs[i] == x {
      var k := SelectHas(xs, keep, i);
    }
    if k :| 0 <= k < |Select(xs, keep)| && Select(xs, keep)[k] == x {
      var i := Indices(|xs|, keep)[k];
      assert i < |xs| && i in keep && xs[i] == x;
    }
  }

  /** Right after a check every open cluster is at most 90 s old, and the clusters it closed, appended to
      those closed before, are exactly the open ones that were older. */
  lemma CheckClosesExactly(rel: Relation, events: seq<Event>, now: int)
    ensures var before, after := Run(rel, events), Run(rel, events + [Checked(now)]);
            && before.closed <= after.closed
            && (forall c :: c in after.open <==> c in before.open && now - c.createdAt <= 90_000)
            && (forall c :: c in after.closed[|before.closed|..] <==> c in before.open && now - c.createdAt > 90_000)
  {
    assert (events + [Checked(now)])[..|events|] == events;
    IdleRuleIsImplied(rel, events, now);
    var before, after := Run(rel, events), Run(rel, events + [Checked(now)]);
    var vs, f := before.open, FinalizedAt(before.open, now);
    assert after.closed[|before.closed|..] == Select(vs, f);
    forall i | 0 <= i < |vs| ensures Closes(vs[i], now) <==> now - vs[i].createdAt > 90_000 {
      assert AgeDecides(vs[i], now);
    }
    forall c
      ensures c in Select(vs, Outside(|vs|, f)) <==> c in vs && now - c.createdAt <= 90_000
      ensures c in Select(vs, f) <==> c in vs && now - c.createdAt > 90_000
    {
      SelectedElements(vs, Outside(|vs|, f), c);
      SelectedElements(vs, f, c);
    }
  }
}
