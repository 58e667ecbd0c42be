/** What one call of the incident clusterer does to the list of open clusters,
    as a function of the list: the specification the heap class is proved against. */
module ClusterModel {
  import opened Selection
  import opened Walks

  /** Milliseconds; the configuration gives both in seconds. */
  const CORRELATION_WINDOW: int := 300_000
  const MAX_CLUSTER_AGE: int := 90_000

  datatype Anomaly = Anomaly(id: string, serviceId: string, anomalyType: string, detectedAt: int)

  /** The value of one open cluster. */
  datatype ClusterView = ClusterView(
    anomalies: seq<Anomaly>, serviceIds: set<string>, createdAt: int, lastUpdated: int)
  {
    function Add(a: Anomaly): ClusterView {
      ClusterView(anomalies + [a], serviceIds + {a.serviceId}, createdAt, Max(lastUpdated, a.detectedAt))
    }

    function Merge(other: ClusterView): ClusterView {
      ClusterView(anomalies + other.anomalies, serviceIds + other.serviceIds,
                  Min(createdAt, other.createdAt), Max(lastUpdated, other.lastUpdated))
    }

    /** May still take part when an anomaly detected at now comes in. */
    predicate Eligible(now: int) {
      now - lastUpdated <= CORRELATION_WINDOW && now - createdAt < MAX_CLUSTER_AGE
    }

    predicate Finalizes(now: int) {
      now - lastUpdated > CORRELATION_WINDOW || now - createdAt > MAX_CLUSTER_AGE
    }
  }

  function Max(a: int, b: int): int { if a >= b then a else b }
  function Min(a: int, b: int): int { if a <= b then a else b }

  function Opened(a: Anomaly): ClusterView {
    ClusterView([a], {a.serviceId}, a.detectedAt, a.detectedAt)
  }

  function MergeAll(c: ClusterView, others: seq<ClusterView>): ClusterView {
    if others == [] then c else MergeAll(c, others[..|others| - 1]).Merge(others[|others| - 1])
  }

  /** The related services of a topology query, the service itself always among them. */
  function WithSelf(query: string -> set<string>): Relation {
    (s: string) => query(s) + {s}
  }

  // ---- Which clusters an anomaly joins ----

  /** The owner map `{sid: c for c in eligible for sid in c.service_ids}`: the last list entry wins. */
  ghost predicate Owns(family: seq<set<string>>, live: set<nat>, s: string, i: nat) {
    && i in live && i < |family| && s in family[i]
    && (forall j :: i < j < |family| && j in live ==> s !in family[j])
  }

  /** The services that have an owner. */
  ghost function Owned(family: seq<set<string>>, live: set<nat>): set<string> {
    set i: nat, s | i in live && i < |family| && s in family[i] :: s
  }

  /** The services the search from start can visit. */
  ghost function Ground(family: seq<set<string>>, live: set<nat>, start: string): set<string> {
    Owned(family, live) + {start}
  }

  /** The clusters that own a service reachable from start through owned services. */
  ghost function Hits(rel: Relation, family: seq<set<string>>, live: set<nat>, start: string): set<nat> {
    set i: nat, s | i in live && i < |family| && s in family[i]
                    && Owns(family, live, s, i) && Reachable(rel, Ground(family, live, start), start, s) :: i
  }

  ghost function Services(vs: seq<ClusterView>): seq<set<string>> {
    seq(|vs|, i requires 0 <= i < |vs| => vs[i].serviceIds)
  }

  ghost function EligibleAt(vs: seq<ClusterView>, now: int): set<nat> {
    set i: nat | i < |vs| && vs[i].Eligible(now)
  }

  ghost function FinalizedAt(vs: seq<ClusterView>, now: int): set<nat> {
    set i: nat | i < |vs| && vs[i].Finalizes(now)
  }

  ghost function Matched(rel: Relation, vs: seq<ClusterView>, a: Anomaly): set<nat> {
    Hits(rel, Services(vs), EligibleAt(vs, a.detectedAt), a.serviceId)
  }

  // ---- The two operations ----

  ghost function AddAnomaly(rel: Relation, vs: seq<ClusterView>, a: Anomaly): seq<ClusterView> {
    var keep := Matched(rel, vs, a);
    if keep == {} then vs + [Opened(a)] else Joined(vs, keep, a)
  }

  /** The first matched cluster takes the anomaly and absorbs the other matched ones, in list order. */
  ghost function Joined(vs: seq<ClusterView>, keep: set<nat>, a: Anomaly): seq<ClusterView>
    requires Within(|vs|, keep) && keep != {}
  {
    var first := FirstOf(|vs|, keep);
    Select(vs[first := MergedTarget(vs, keep, a)], Outside(|vs|, keep - {first}))
  }

  ghost function MergedTarget(vs: seq<ClusterView>, keep: set<nat>, a: Anomaly): ClusterView
    requires Within(|vs|, keep) && keep != {}
  {
    var first := FirstOf(|vs|, keep);
    MergeAll(vs[first].Add(a), Select(vs, keep - {first}))
  }

  ghost predicate Within(n: nat, keep: set<nat>) {
    forall i :: i in keep ==> i < n
  }

  lemma LeastFirst(n: nat, keep: set<nat>)
    requires Within(n, keep) && keep != {}
    ensures Indices(n, keep) != [] && forall j :: j in keep ==> Indices(n, keep)[0] <= j
  {
    IndicesIncrease(n, keep);
    forall j | j in keep ensures Indices(n, keep) != [] && Indices(n, keep)[0] <= j {
      var k := IndexOf(n, keep, j);
    }
    var j :| j in keep;
  }

  ghost function FirstOf(n: nat, keep: set<nat>): (first: nat)
    requires Within(n, keep) && keep != {}
    ensures first < n && first in keep
    ensures forall j :: j in keep ==> first <= j
  {
    LeastFirst(n, keep);
    Indices(n, keep)[0]
  }

  ghost function PopFinalized(vs: seq<ClusterView>, now: int): (seq<ClusterView>, seq<ClusterView>) {
    var f := FinalizedAt(vs, now);
    (Select(vs, Outside(|vs|, f)), Select(vs, f))
  }

  // ---- Runs ----

  datatype Event = Added(anomaly: Anomaly) | Checked(now: int)

  /** The open clusters and, in order, every cluster handed over for root-cause analysis. */
  datatype Ledger = Ledger(open: seq<ClusterView>, closed: seq<ClusterView>)

  ghost function Step(rel: Relation, l: Ledger, e: Event): Ledger {
    match e
    case Added(a) => Ledger(AddAnomaly(rel, l.open, a), l.closed)
    case Checked(now) =>
      var (rest, popped) := PopFinalized(l.open, now);
      Ledger(rest, l.closed + popped)
  }

  ghost function Run(rel: Relation, events: seq<Event>): Ledger {
    if events == [] then Ledger([], [])
    else Step(rel, Run(rel, events[..|events| - 1]), events[|events| - 1])
  }

  // ---- Shape of the result ----

  /** Each open cluster after a joining call is an untouched unmatched one or the merged target. */
  lemma JoinedShape(vs: seq<ClusterView>, keep: set<nat>, a: Anomaly)
    requires Within(|vs|, keep) && keep != {}
    ensures var first := FirstOf(|vs|, keep);
            var f := Indices(|vs|, Outside(|vs|, keep - {first}));
            && |Joined(vs, keep, a)| == |f|
            && (forall k :: 0 <= k < |f| ==> f[k] < |vs| && (f[k] == first || f[k] !in keep))
            && (forall k :: 0 <= k < |f| ==>
                  Joined(vs, keep, a)[k] == if f[k] == first then MergedTarget(vs, keep, a) else vs[f[k]])
  {
  }

  /** Where an old cluster, or the one it merged into, stands after a joining call. */
  lemma JoinedPlace(vs: seq<ClusterView>, keep: set<nat>, a: Anomaly, i: nat) returns (k: nat)
    requires Within(|vs|, keep) && keep != {} && i < |vs|
    ensures var first := FirstOf(|vs|, keep);
            var f := Indices(|vs|, Outside(|vs|, keep - {first}));
            && k < |f| == |Joined(vs, keep, a)| && f[k] == (if i in keep then first else i)
            && Joined(vs, keep, a)[k] == if i in keep then MergedTarget(vs, keep, a) else vs[i]
  {
    var first := FirstOf(|vs|, keep);
    k := IndexOf(|vs|, Outside(|vs|, keep - {first}), if i in keep then first else i);
  }
}
