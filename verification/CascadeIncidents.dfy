/** The simulator, the topology and the clusterer together: a cascade becomes one incident. */
module CascadeIncidents {
  import opened Walks
  import opened Cascade
  import opened Topology
  import opened ClusterModel
  import opened ClusterLedger
  import opened ClusterComponents
  import opened Clusterer

  /** Hops of the related-services query, and default depth of the cascade search. */
  const CORRELATION_HOPS: nat := 2
  const CASCADE_DEPTH: nat := 2

  /** One of the two services is the other's root, or is affected by a failure there. */
  ghost predicate CascadePair(g: CascadeMap, s: string, t: string) {
    exists d: nat :: d <= CASCADE_DEPTH && (Distance(g, s, t, d) || Distance(g, t, s, d))
  }

  ghost predicate OneClusterHolds(vs: seq<ClusterView>, a: Anomaly, b: Anomaly) {
    exists k :: 0 <= k < |vs| && a in vs[k].anomalies && b in vs[k].anomalies
  }

  lemma AfterAdded(rel: Relation, events: seq<Event>, a: Anomaly)
    ensures Run(rel, events + [Added(a)]).open == AddAnomaly(rel, Run(rel, events).open, a)
  {
    assert (events + [Added(a)])[..|events|] == events;
  }

  /** With anomalies in detection order: when an anomaly on a root, or on a service a cascade from
      it affects, comes in while the cluster of the other's anomaly is eligible, both end in one cluster. */
  lemma CascadeIsOneIncident(registry: set<string>, g: CascadeMap, calls: set<Call>,
                             events: seq<Event>, a: Anomaly, i: nat, earlier: Anomaly)
    requires Registered(registry, g) && PushedCalls(registry, g) <= calls
    requires InOrderUntil(events, a.detectedAt)
    requires i < |Run(RelatedOrSelf(calls, CORRELATION_HOPS), events).open|
    requires earlier in Run(RelatedOrSelf(calls, CORRELATION_HOPS), events).open[i].anomalies
    requires Run(RelatedOrSelf(calls, CORRELATION_HOPS), events).open[i].Eligible(a.detectedAt)
    requires CascadePair(g, earlier.serviceId, a.serviceId)
    ensures OneClusterHolds(Run(RelatedOrSelf(calls, CORRELATION_HOPS), events + [Added(a)]).open, a, earlier)
  {
    var rel := RelatedOrSelf(calls, CORRELATION_HOPS);
    RelatedIsSymmetric(calls, CORRELATION_HOPS);
    var d: nat :| d <= CASCADE_DEPTH &&
      (Distance(g, earlier.serviceId, a.serviceId, d) || Distance(g, a.serviceId, earlier.serviceId, d));
    if Distance(g, earlier.serviceId, a.serviceId, d) {
      CascadeStaysRelated(registry, g, calls, earlier.serviceId, a.serviceId, d, CORRELATION_HOPS);
    } else {
      CascadeStaysRelated(registry, g, calls, a.serviceId, earlier.serviceId, d, CORRELATION_HOPS);
    }
    RelatedIsOneIncident(rel, events, a, i, earlier);
  }

  lemma RelatedIsOneIncident(rel: Relation, events: seq<Event>, a: Anomaly, i: nat, earlier: Anomaly)
    requires Symmetric(rel) && Reflexive(rel) && InOrderUntil(events, a.detectedAt)
    requires i < |Run(rel, events).open| && earlier in Run(rel, events).open[i].anomalies
    requires Run(rel, events).open[i].Eligible(a.detectedAt) && earlier.serviceId in rel(a.serviceId)
    ensures OneClusterHolds(Run(rel, events + [Added(a)]).open, a, earlier)
  {
    var open := Run(rel, events).open;
    AfterAdded(rel, events, a);
    OnlyHolderOwns(rel, events, a, i, earlier);
    RelatedEndTogether(rel, open, a, i, earlier.serviceId);
    var k :| 0 <= k < |AddAnomaly(rel, open, a)| && HoldsTogether(AddAnomaly(rel, open, a)[k], a, open[i]);
  }

  lemma OnlyHolderOwns(rel: Relation, events: seq<Event>, a: Anomaly, i: nat, earlier: Anomaly)
    requires Symmetric(rel) && Reflexive(rel) && InOrderUntil(events, a.detectedAt)
    requires i < |Run(rel, events).open| && earlier in Run(rel, events).open[i].anomalies
    requires Run(rel, events).open[i].Eligible(a.detectedAt)
    ensures Owns(Services(Run(rel, events).open), EligibleAt(Run(rel, events).open, a.detectedAt), earlier.serviceId, i)
  {
    var open, s := Run(rel, events).open, earlier.serviceId;
    ClustersDescribeMembers(rel, events);
    RunSettled(rel, events, a.detectedAt);
    assert s in open[i].serviceIds && s in rel(s);
    forall j | i < j < |open| && j in EligibleAt(open, a.detectedAt) ensures s !in Services(open)[j] {
      assert BothEligible(open, a.detectedAt, i, j);
      assert Apart(rel, open[i].serviceIds, open[j].serviceIds);
    }
  }

  /** The clusterer's query is the pushed topology's, at two hops. */
  ghost predicate AsksTopology(query: string -> set<string>, calls: set<Call>) {
    forall s :: query(s) == RelatedServices(calls, s, 2)
  }

  lemma QueryIsRelation(query: string -> set<string>, calls: set<Call>)
    requires AsksTopology(query, calls)
    ensures Symmetric(WithSelf(query)) && Reflexive(WithSelf(query))
    ensures forall s :: WithSelf(query)(s) == RelatedOrSelf(calls, 2)(s)
  {
    RelatedIsSymmetric(calls, 2);
    assert forall s :: WithSelf(query)(s) == RelatedOrSelf(calls, 2)(s);
    forall a, b | b in WithSelf(query)(a) ensures a in WithSelf(query)(b) {
      assert b in RelatedOrSelf(calls, 2)(a);
    }
  }

  /** The same of a clusterer that asks the pushed topology: its call puts the anomaly with the earlier
      one, if one of the two services is within two cascade steps of the other and the earlier one's
      cluster still takes anomalies. */
  method AddCascading(c: IncidentClusterer, a: Anomaly, ghost registry: set<string>, ghost g: CascadeMap,
                      ghost calls: set<Call>, ghost events: seq<Event>, ghost i: nat, ghost earlier: Anomaly)
    requires c.Valid() && AsksTopology(c.query, calls)
    requires Registered(registry, g) && PushedCalls(registry, g) <= calls
    requires InOrderUntil(events, a.detectedAt) && Views(c.active) == Run(WithSelf(c.query), events).open
    requires i < |c.active| && earlier in c.active[i].anomalies
    requires a.detectedAt - c.active[i].lastUpdated <= 300_000 && a.detectedAt - c.active[i].createdAt < 90_000
    requires exists d: nat ::
      d <= 2 && (Distance(g, earlier.serviceId, a.serviceId, d) || Distance(g, a.serviceId, earlier.serviceId, d))
    modifies c, c.active
    ensures exists k :: 0 <= k < |c.active| && a in c.active[k].anomalies && earlier in c.active[k].anomalies
  {
    ghost var vs, query := Views(c.active), c.query;
    QueryIsRelation(query, calls);
    CascadeRelates(registry, g, calls, earlier.serviceId, a.serviceId);
    RelatedIsOneIncident(WithSelf(query), events, a, i, earlier);
    AfterAdded(WithSelf(query), events, a);
    c.AddAnomaly(a);
    ghost var after := Views(c.active);
    ghost var k :| 0 <= k < |after| && a in after[k].anomalies && earlier in after[k].anomalies;
  }

  lemma CascadeRelates(registry: set<string>, g: CascadeMap, calls: set<Call>, s: string, t: string)
    requires Registered(registry, g) && PushedCalls(registry, g) <= calls
    requires exists d: nat :: d <= 2 && (Distance(g, s, t, d) || Distance(g, t, s, d))
    ensures s in RelatedOrSelf(calls, 2)(t)
  {
    var d: nat :| d <= 2 && (Distance(g, s, t, d) || Distance(g, t, s, d));
    if Distance(g, s, t, d) {
      CascadeStaysRelated(registry, g, calls, s, t, d, 2);
    } else {
      CascadeStaysRelated(registry, g, calls, t, s, d, 2);
    }
  }
}
