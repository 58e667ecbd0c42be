/** The main result on clustering: merging one anomaly at a time gives the connected
    components of the services that currently take part. */
module ClusterComponents {
  import opened Selection
  import opened Walks
  import opened ClusterModel
  import opened ClusterLedger

  /** The services of all clusters still eligible at now. */
  ghost function ActiveServices(vs: seq<ClusterView>, now: int): set<string> {
    Owned(Services(vs), EligibleAt(vs, now))
  }

  ghost predicate HasCluster(vs: seq<ClusterView>, now: int, services: set<string>) {
    exists i :: 0 <= i < |vs| && vs[i].Eligible(now) && vs[i].serviceIds == services
  }

  ghost predicate EachIsComponent(rel: Relation, vs: seq<ClusterView>, now: int) {
    forall i :: 0 <= i < |vs| && vs[i].Eligible(now) ==>
      vs[i].serviceIds in Components(rel, ActiveServices(vs, now))
  }

  ghost predicate EachComponentHeld(rel: Relation, vs: seq<ClusterView>, now: int) {
    forall comp :: comp in Components(rel, ActiveServices(vs, now)) ==> HasCluster(vs, now, comp)
  }

  ghost predicate BothEligible(vs: seq<ClusterView>, now: int, i: int, j: int) {
    0 <= i < |vs| && 0 <= j < |vs| && i != j && vs[i].Eligible(now) && vs[j].Eligible(now)
  }

  ghost predicate AllDiffer(vs: seq<ClusterView>, now: int) {
    forall i, j {:trigger BothEligible(vs, now, i, j)} :: BothEligible(vs, now, i, j) ==>
      vs[i].serviceIds != vs[j].serviceIds
  }

  /** One eligible cluster per connected component of the graph on the active services,
      holding exactly the services of that component. */
  ghost predicate EligibleAreComponents(rel: Relation, vs: seq<ClusterView>, now: int) {
    EachIsComponent(rel, vs, now) && EachComponentHeld(rel, vs, now) && AllDiffer(vs, now)
  }

  /** No two different eligible clusters touch. */
  ghost predicate Settled(rel: Relation, vs: seq<ClusterView>, now: int) {
    forall i, j {:trigger BothEligible(vs, now, i, j)} :: BothEligible(vs, now, i, j) ==>
      Apart(rel, vs[i].serviceIds, vs[j].serviceIds)
  }

  ghost predicate Sound(rel: Relation, c: ClusterView) {
    Connected(rel, c.serviceIds) && c.serviceIds != {}
  }

  ghost predicate AllSound(rel: Relation, vs: seq<ClusterView>) {
    forall i :: 0 <= i < |vs| ==> Sound(rel, vs[i])
  }

  // ---- Components of the active graph ----

  lemma ActiveHas(vs: seq<ClusterView>, now: int, i: nat)
    requires i < |vs| && vs[i].Eligible(now)
    ensures vs[i].serviceIds <= ActiveServices(vs, now)
  {
    assert i in EligibleAt(vs, now) && Services(vs)[i] == vs[i].serviceIds;
  }

  lemma ActiveFrom(vs: seq<ClusterView>, now: int, s: string) returns (i: nat)
    requires s in ActiveServices(vs, now)
    ensures i < |vs| && vs[i].Eligible(now) && s in vs[i].serviceIds
  {
    i :| i in EligibleAt(vs, now) && i < |Services(vs)| && s in Services(vs)[i];
  }

  /** An eligible cluster that touches no other is a whole component. */
  lemma ClusterIsComponent(rel: Relation, vs: seq<ClusterView>, now: int, i: nat, s: string)
    requires AllSound(rel, vs) && Settled(rel, vs, now)
    requires i < |vs| && vs[i].Eligible(now) && s in vs[i].serviceIds
    ensures Component(rel, ActiveServices(vs, now), s) == vs[i].serviceIds
  {
    var all, own := ActiveServices(vs, now), vs[i].serviceIds;
    ActiveHas(vs, now, i);
    forall t | t in own ensures t in Component(rel, all, s) {
      ReachWiden(rel, own, all, s, t);
    }
    forall t | t in Component(rel, all, s) ensures t in own {
      var p :| Joins(rel, all, p, s, t);
      forall a, b | a in own && b in rel(a) && b in all ensures b in own {
        var j := ActiveFrom(vs, now, b);
        assert j != i <==> BothEligible(vs, now, i, j);
      }
      ClosedContains(rel, all, own, p);
    }
  }

  lemma SettledIsOneOf(rel: Relation, vs: seq<ClusterView>, now: int, i: nat)
    requires AllSound(rel, vs) && Settled(rel, vs, now)
    requires i < |vs| && vs[i].Eligible(now)
    ensures vs[i].serviceIds in Components(rel, ActiveServices(vs, now))
  {
    assert Sound(rel, vs[i]);
    var s :| s in vs[i].serviceIds;
    ClusterIsComponent(rel, vs, now, i, s);
    ActiveHas(vs, now, i);
    ComponentListed(rel, ActiveServices(vs, now), s);
  }

  lemma ComponentListed(rel: Relation, dom: set<string>, s: string)
    requires s in dom
    ensures Component(rel, dom, s) in Components(rel, dom)
  {
  }

  lemma ComponentSource(rel: Relation, dom: set<string>, comp: set<string>) returns (s: string)
    requires comp in Components(rel, dom)
    ensures s in dom && comp == Component(rel, dom, s)
  {
    s :| s in dom && comp == Component(rel, dom, s);
  }

  lemma ComponentHasCluster(rel: Relation, vs: seq<ClusterView>, now: int, comp: set<string>)
    requires AllSound(rel, vs) && Settled(rel, vs, now)
    requires comp in Components(rel, ActiveServices(vs, now))
    ensures HasCluster(vs, now, comp)
  {
    var s := ComponentSource(rel, ActiveServices(vs, now), comp);
    var i := ActiveFrom(vs, now, s);
    ClusterIsComponent(rel, vs, now, i, s);
  }

  lemma SettledEach(rel: Relation, vs: seq<ClusterView>, now: int)
    requires AllSound(rel, vs) && Settled(rel, vs, now)
    ensures EachIsComponent(rel, vs, now)
  {
    forall i | 0 <= i < |vs| && vs[i].Eligible(now)
      ensures vs[i].serviceIds in Components(rel, ActiveServices(vs, now))
    {
      SettledIsOneOf(rel, vs, now, i);
    }
  }

  lemma SettledHeld(rel: Relation, vs: seq<ClusterView>, now: int)
    requires AllSound(rel, vs) && Settled(rel, vs, now)
    ensures EachComponentHeld(rel, vs, now)
  {
    forall comp | comp in Components(rel, ActiveServices(vs, now)) ensures HasCluster(vs, now, comp) {
      ComponentHasCluster(rel, vs, now, comp);
    }
  }

  lemma SettledAllDiffer(rel: Relation, vs: seq<ClusterView>, now: int)
    requires Reflexive(rel) && AllSound(rel, vs) && Settled(rel, vs, now)
    ensures AllDiffer(vs, now)
  {
    forall i, j | BothEligible(vs, now, i, j)
      ensures vs[i].serviceIds != vs[j].serviceIds
    {
      SettledDiffer(rel, vs, now, i, j);
    }
  }

  lemma SettledGivesComponents(rel: Relation, vs: seq<ClusterView>, now: int)
    requires Reflexive(rel) && AllSound(rel, vs) && Settled(rel, vs, now)
    ensures EligibleAreComponents(rel, vs, now)
  {
    SettledEach(rel, vs, now);
    SettledHeld(rel, vs, now);
    SettledAllDiffer(rel, vs, now);
  }

  lemma SettledDiffer(rel: Relation, vs: seq<ClusterView>, now: int, i: nat, j: nat)
    requires Reflexive(rel) && AllSound(rel, vs) && Settled(rel, vs, now)
    requires BothEligible(vs, now, i, j)
    ensures vs[i].serviceIds != vs[j].serviceIds
  {
    assert Sound(rel, vs[i]);
    assert Apart(rel, vs[i].serviceIds, vs[j].serviceIds);
    var s :| s in vs[i].serviceIds;
    assert s in rel(s);
  }

  /** Two components joined by an edge are one. */
  lemma TouchingComponents(rel: Relation, all: set<string>, c: set<string>, d: set<string>, a: string, b: string)
    requires Symmetric(rel)
    requires c in Components(rel, all) && d in Components(rel, all)
    requires a in c && b in d && b in rel(a)
    ensures c == d
  {
    var x := ComponentSource(rel, all, c);
    var y := ComponentSource(rel, all, d);
    ReachStep(rel, all, x, a, b);
    ReachBack(rel, all, y, b);
    ReachTransitive(rel, all, x, b, y);
    SameComponent(rel, all, x, y);
  }

  lemma DifferentComponentsApart(rel: Relation, all: set<string>, c: set<string>, d: set<string>)
    requires Symmetric(rel) && c in Components(rel, all) && d in Components(rel, all) && c != d
    ensures Apart(rel, c, d)
  {
    forall a, b | a in c && b in d ensures b !in rel(a) {
      if b in rel(a) { TouchingComponents(rel, all, c, d, a, b); }
    }
  }

  lemma EligibleApart(rel: Relation, vs: seq<ClusterView>, now: int, i: nat, j: nat)
    requires Symmetric(rel) && EachIsComponent(rel, vs, now) && AllDiffer(vs, now)
    requires BothEligible(vs, now, i, j)
    ensures Apart(rel, vs[i].serviceIds, vs[j].serviceIds)
  {
    DifferentComponentsApart(rel, ActiveServices(vs, now), vs[i].serviceIds, vs[j].serviceIds);
  }

  lemma ComponentsGiveSettled(rel: Relation, vs: seq<ClusterView>, now: int)
    requires Symmetric(rel) && EachIsComponent(rel, vs, now) && AllDiffer(vs, now)
    ensures Settled(rel, vs, now)
  {
    forall i, j | BothEligible(vs, now, i, j)
      ensures Apart(rel, vs[i].serviceIds, vs[j].serviceIds)
    {
      EligibleApart(rel, vs, now, i, j);
    }
  }

  lemma SameComponent(rel: Relation, all: set<string>, x: string, y: string)
    requires Symmetric(rel) && Reachable(rel, all, x, y)
    ensures Component(rel, all, x) == Component(rel, all, y)
  {
    ReachBack(rel, all, x, y);
    forall t | t in all ensures Reachable(rel, all, x, t) <==> Reachable(rel, all, y, t) {
      if Reachable(rel, all, x, t) { ReachTransitive(rel, all, y, x, t); }
      if Reachable(rel, all, y, t) { ReachTransitive(rel, all, x, y, t); }
    }
  }

  // ---- What the search finds ----

  lemma {:induction false} OwnerExists(family: seq<set<string>>, live: set<nat>, s: string, n: nat, low: nat)
    returns (i: nat)
    requires low < n <= |family| && low in live && s in family[low]
    requires forall j :: n <= j < |family| && j in live ==> s !in family[j]
    ensures Owns(family, live, s, i)
  {
    if n - 1 in live && s in family[n - 1] {
      i := n - 1;
    } else {
      i := OwnerExists(family, live, s, n - 1, low);
    }
  }

  /** The owner of a reached service is matched. */
  lemma ReachedOwnerMatched(rel: Relation, vs: seq<ClusterView>, a: Anomaly, t: string, i: nat)
    requires Reachable(rel, Ground(Services(vs), EligibleAt(vs, a.detectedAt), a.serviceId), a.serviceId, t)
    requires i < |vs| && vs[i].Eligible(a.detectedAt) && t in vs[i].serviceIds
    ensures exists k :: k in Matched(rel, vs, a) && t in vs[k].serviceIds
  {
    var family, live := Services(vs), EligibleAt(vs, a.detectedAt);
    var k := OwnerExists(family, live, t, |family|, i);
    assert k in Matched(rel, vs, a);
  }

  /** Every service of a matched cluster is reached. */
  lemma MatchedReached(rel: Relation, vs: seq<ClusterView>, a: Anomaly, i: nat, t: string)
    requires AllSound(rel, vs)
    requires i in Matched(rel, vs, a) && t in vs[i].serviceIds
    ensures Reachable(rel, Ground(Services(vs), EligibleAt(vs, a.detectedAt), a.serviceId), a.serviceId, t)
  {
    var family, live := Services(vs), EligibleAt(vs, a.detectedAt);
    var ground := Ground(family, live, a.serviceId);
    var s :| s in family[i] && Owns(family, live, s, i) && Reachable(rel, ground, a.serviceId, s);
    ActiveHas(vs, a.detectedAt, i);
    assert family[i] == vs[i].serviceIds;
    assert Sound(rel, vs[i]) && s in vs[i].serviceIds;
    assert Reachable(rel, vs[i].serviceIds, s, t);
    ReachWiden(rel, vs[i].serviceIds, ground, s, t);
    ReachTransitive(rel, ground, a.serviceId, s, t);
  }

  /** The services the anomaly's cluster has after the call. */
  ghost function JoinedServices(rel: Relation, vs: seq<ClusterView>, a: Anomaly): set<string> {
    {a.serviceId} + set i, s | i in Matched(rel, vs, a) && s in vs[i].serviceIds :: s
  }

  lemma JoinedReached(rel: Relation, vs: seq<ClusterView>, a: Anomaly, t: string)
    requires AllSound(rel, vs) && t in JoinedServices(rel, vs, a)
    ensures Reachable(rel, Ground(Services(vs), EligibleAt(vs, a.detectedAt), a.serviceId), a.serviceId, t)
  {
    if t == a.serviceId {
      ReachSelf(rel, Ground(Services(vs), EligibleAt(vs, a.detectedAt), a.serviceId), t);
    } else {
      var i :| i in Matched(rel, vs, a) && t in vs[i].serviceIds;
      MatchedReached(rel, vs, a, i, t);
    }
  }

  /** A touching eligible service's owner is matched too. */
  lemma JoinedClosed(rel: Relation, vs: seq<ClusterView>, a: Anomaly, s: string, t: string, i: nat)
    requires AllSound(rel, vs) && s in JoinedServices(rel, vs, a) && t in rel(s)
    requires i < |vs| && vs[i].Eligible(a.detectedAt) && t in vs[i].serviceIds
    ensures t in JoinedServices(rel, vs, a)
    ensures exists k :: k in Matched(rel, vs, a) && t in vs[k].serviceIds
  {
    JoinedReached(rel, vs, a, s);
    ActiveHas(vs, a.detectedAt, i);
    ReachStep(rel, Ground(Services(vs), EligibleAt(vs, a.detectedAt), a.serviceId), a.serviceId, s, t);
    ReachedOwnerMatched(rel, vs, a, t, i);
  }

  /** Every service of the joined cluster is reached without leaving the joined cluster. */
  lemma JoinedReachedInside(rel: Relation, vs: seq<ClusterView>, a: Anomaly, t: string)
    requires AllSound(rel, vs) && t in JoinedServices(rel, vs, a)
    ensures Reachable(rel, JoinedServices(rel, vs, a), a.serviceId, t)
  {
    var ground := Ground(Services(vs), EligibleAt(vs, a.detectedAt), a.serviceId);
    var joined := JoinedServices(rel, vs, a);
    JoinedReached(rel, vs, a, t);
    var p :| Joins(rel, ground, p, a.serviceId, t);
    forall s, u | s in joined && u in rel(s) && u in ground ensures u in joined {
      if u != a.serviceId {
        var i := ActiveFrom(vs, a.detectedAt, u);
        JoinedClosed(rel, vs, a, s, u, i);
      }
    }
    ClosedContains(rel, ground, joined, p);
    assert Joins(rel, joined, p, a.serviceId, t);
  }

  lemma JoinedConnected(rel: Relation, vs: seq<ClusterView>, a: Anomaly)
    requires Symmetric(rel) && AllSound(rel, vs)
    ensures Connected(rel, JoinedServices(rel, vs, a))
  {
    var joined := JoinedServices(rel, vs, a);
    forall s, t | s in joined && t in joined ensures Reachable(rel, joined, s, t) {
      JoinedReachedInside(rel, vs, a, s);
      JoinedReachedInside(rel, vs, a, t);
      ReachBack(rel, joined, a.serviceId, s);
      ReachTransitive(rel, joined, s, a.serviceId, t);
    }
  }

  lemma {:induction false} MergeAllServices(c: ClusterView, others: seq<ClusterView>)
    ensures forall s :: s in MergeAll(c, others).serviceIds <==>
      s in c.serviceIds || exists k :: 0 <= k < |others| && s in others[k].serviceIds
  {
    if others != [] {
      var n := |others| - 1;
      MergeAllServices(c, others[..n]);
      assert forall k :: 0 <= k < n ==> others[..n][k] == others[k];
    }
  }

  /** What the merged target's services are, cluster by cluster. */
  lemma TargetHas(vs: seq<ClusterView>, keep: set<nat>, a: Anomaly, s: string)
    requires Within(|vs|, keep) && keep != {}
    ensures s in MergedTarget(vs, keep, a).serviceIds <==>
      s == a.serviceId || exists i :: i in keep && s in vs[i].serviceIds
  {
    var first := FirstOf(|vs|, keep);
    var others := Select(vs, keep - {first});
    MergeAllServices(vs[first].Add(a), others);
    if k :| 0 <= k < |others| && s in others[k].serviceIds {
      assert Indices(|vs|, keep - {first})[k] in keep;
    }
    if i :| i in keep && s in vs[i].serviceIds {
      if i != first {
        var k := SelectHas(vs, keep - {first}, i);
      }
    }
  }

  lemma JoinedHas(rel: Relation, vs: seq<ClusterView>, a: Anomaly, s: string)
    ensures s in JoinedServices(rel, vs, a) <==>
      s == a.serviceId || exists i :: i in Matched(rel, vs, a) && s in vs[i].serviceIds
  {
  }

  lemma TargetServices(rel: Relation, vs: seq<ClusterView>, a: Anomaly)
    requires Matched(rel, vs, a) != {}
    ensures MergedTarget(vs, Matched(rel, vs, a), a).serviceIds == JoinedServices(rel, vs, a)
  {
    var target, joined := MergedTarget(vs, Matched(rel, vs, a), a).serviceIds, JoinedServices(rel, vs, a);
    forall s ensures s in target <==> s in joined {
      TargetHas(vs, Matched(rel, vs, a), a, s);
      JoinedHas(rel, vs, a, s);
    }
  }

  /** The merged cluster is itself eligible at the time of its newest anomaly. */
  lemma TargetEligible(vs: seq<ClusterView>, keep: set<nat>, a: Anomaly)
    requires Within(|vs|, keep) && keep != {}
    requires forall i :: i in keep ==> vs[i].Eligible(a.detectedAt)
    ensures MergedTarget(vs, keep, a).Eligible(a.detectedAt)
  {
    var first := FirstOf(|vs|, keep);
    MergeAllEligible(vs[first].Add(a), Select(vs, keep - {first}), a.detectedAt);
  }

  lemma {:induction false} MergeAllEligible(c: ClusterView, others: seq<ClusterView>, now: int)
    requires c.Eligible(now) && forall k :: 0 <= k < |others| ==> others[k].Eligible(now)
    ensures MergeAll(c, others).Eligible(now)
  {
    if others != [] {
      MergeAllEligible(c, others[..|others| - 1], now);
    }
  }

  // ---- One call ----

  lemma AddAnomalySound(rel: Relation, vs: seq<ClusterView>, a: Anomaly)
    requires Symmetric(rel) && AllSound(rel, vs)
    ensures AllSound(rel, AddAnomaly(rel, vs, a))
  {
    var keep := Matched(rel, vs, a);
    if keep == {} {
      ReachSelf(rel, {a.serviceId}, a.serviceId);
      assert Sound(rel, Opened(a));
    } else {
      JoinedConnected(rel, vs, a);
      TargetServices(rel, vs, a);
      assert Sound(rel, MergedTarget(vs, keep, a));
      JoinedShape(vs, keep, a);
    }
  }

  /** Two eligible clusters touch, but the search from the new anomaly does not reach both. */
  ghost predicate LeavesTouching(rel: Relation, vs: seq<ClusterView>, a: Anomaly, i: nat, j: nat) {
    && BothEligible(vs, a.detectedAt, i, j)
    && !Apart(rel, vs[i].serviceIds, vs[j].serviceIds)
    && !(i in Matched(rel, vs, a) && j in Matched(rel, vs, a))
  }

  lemma NewClusterApart(rel: Relation, vs: seq<ClusterView>, a: Anomaly, i: nat)
    requires Symmetric(rel) && AllSound(rel, vs) && Matched(rel, vs, a) == {}
    requires i < |vs| && vs[i].Eligible(a.detectedAt)
    ensures Apart(rel, vs[i].serviceIds, {a.serviceId}) && Apart(rel, {a.serviceId}, vs[i].serviceIds)
  {
    forall t | t in vs[i].serviceIds && (t in rel(a.serviceId) || a.serviceId in rel(t)) ensures false {
      JoinedClosed(rel, vs, a, a.serviceId, t, i);
    }
  }

  /** An unmatched cluster can only touch the joined services by touching a matched cluster. */
  lemma TouchesMatched(rel: Relation, vs: seq<ClusterView>, a: Anomaly, i: nat, t: string, s: string) returns (k: nat)
    requires Symmetric(rel) && Reflexive(rel) && AllSound(rel, vs)
    requires i < |vs| && vs[i].Eligible(a.detectedAt) && i !in Matched(rel, vs, a)
    requires t in vs[i].serviceIds && s in JoinedServices(rel, vs, a) && t in rel(s)
    ensures LeavesTouching(rel, vs, a, i, k)
  {
    JoinedClosed(rel, vs, a, s, t, i);
    k :| k in Matched(rel, vs, a) && t in vs[k].serviceIds;
    assert t in rel(t);
  }

  lemma TargetApart(rel: Relation, vs: seq<ClusterView>, a: Anomaly, i: nat)
    requires Symmetric(rel) && Reflexive(rel) && AllSound(rel, vs) && Matched(rel, vs, a) != {}
    requires i < |vs| && vs[i].Eligible(a.detectedAt) && i !in Matched(rel, vs, a)
    requires forall j: nat :: !LeavesTouching(rel, vs, a, i, j)
    ensures Apart(rel, vs[i].serviceIds, JoinedServices(rel, vs, a))
    ensures Apart(rel, JoinedServices(rel, vs, a), vs[i].serviceIds)
  {
    forall t, s | t in vs[i].serviceIds && s in JoinedServices(rel, vs, a) ensures t !in rel(s) && s !in rel(t) {
      if t in rel(s) || s in rel(t) {
        var k := TouchesMatched(rel, vs, a, i, t, s);
      }
    }
  }

  lemma SettledAfter(rel: Relation, vs: seq<ClusterView>, a: Anomaly)
    requires Symmetric(rel) && Reflexive(rel) && AllSound(rel, vs)
    requires forall i: nat, j: nat :: !LeavesTouching(rel, vs, a, i, j)
    ensures Settled(rel, AddAnomaly(rel, vs, a), a.detectedAt)
  {
    var keep, now := Matched(rel, vs, a), a.detectedAt;
    var ws := AddAnomaly(rel, vs, a);
    forall k, l | BothEligible(ws, now, k, l)
      ensures Apart(rel, ws[k].serviceIds, ws[l].serviceIds)
    {
      if keep == {} {
        if k < |vs| && l < |vs| {
          assert !LeavesTouching(rel, vs, a, k, l);
        } else {
          NewClusterApart(rel, vs, a, if k < |vs| then k else l);
        }
      } else {
        JoinedShape(vs, keep, a);
        TargetServices(rel, vs, a);
        var first := FirstOf(|vs|, keep);
        var f := Indices(|vs|, Outside(|vs|, keep - {first}));
        IndicesIncrease(|vs|, Outside(|vs|, keep - {first}));
        assert f[k] != f[l];
        if f[k] != first && f[l] != first {
          assert !LeavesTouching(rel, vs, a, f[k], f[l]);
        } else if f[k] == first {
          TargetApart(rel, vs, a, f[l]);
        } else {
          TargetApart(rel, vs, a, f[k]);
        }
      }
    }
  }

  lemma NotSettledAfter(rel: Relation, vs: seq<ClusterView>, a: Anomaly, i: nat, j: nat)
    requires Symmetric(rel) && AllSound(rel, vs)
    requires LeavesTouching(rel, vs, a, i, j)
    ensures !Settled(rel, AddAnomaly(rel, vs, a), a.detectedAt)
  {
    var keep, now := Matched(rel, vs, a), a.detectedAt;
    var ws := AddAnomaly(rel, vs, a);
    var s, t :| s in vs[i].serviceIds && t in vs[j].serviceIds && t in rel(s);
    if keep == {} {
      assert ws[i] == vs[i] && ws[j] == vs[j] && BothEligible(ws, now, i, j);
      assert !Apart(rel, ws[i].serviceIds, ws[j].serviceIds);
    } else {
      var k := StandsAt(rel, vs, a, i, s);
      var l := StandsAt(rel, vs, a, j, t);
      assert BothEligible(ws, now, k, l);
      assert !Apart(rel, ws[k].serviceIds, ws[l].serviceIds);
    }
  }

  /** Where the services of an old eligible cluster are after a joining call. */
  lemma StandsAt(rel: Relation, vs: seq<ClusterView>, a: Anomaly, i: nat, s: string) returns (k: nat)
    requires Matched(rel, vs, a) != {}
    requires i < |vs| && vs[i].Eligible(a.detectedAt) && s in vs[i].serviceIds
    ensures var keep := Matched(rel, vs, a);
            var f := Indices(|vs|, Outside(|vs|, keep - {FirstOf(|vs|, keep)}));
            k < |f| == |AddAnomaly(rel, vs, a)| && f[k] == if i in keep then FirstOf(|vs|, keep) else i
    ensures s in AddAnomaly(rel, vs, a)[k].serviceIds && AddAnomaly(rel, vs, a)[k].Eligible(a.detectedAt)
  {
    var keep := Matched(rel, vs, a);
    TargetServices(rel, vs, a);
    TargetEligible(vs, keep, a);
    k := JoinedPlace(vs, keep, a, i);
  }

  /** Exactly when one call leaves the eligible clusters equal to the components, at its own
      time and for arrivals in any order: every two eligible clusters that touch before the
      call are both reached by its search. */
  lemma AddGivesComponentsIff(rel: Relation, vs: seq<ClusterView>, a: Anomaly)
    requires Symmetric(rel) && Reflexive(rel) && AllSound(rel, vs)
    ensures EligibleAreComponents(rel, AddAnomaly(rel, vs, a), a.detectedAt)
       <==> forall i: nat, j: nat :: !LeavesTouching(rel, vs, a, i, j)
  {
    AddAnomalySound(rel, vs, a);
    if i: nat, j: nat :| LeavesTouching(rel, vs, a, i, j) {
      NotSettledAfter(rel, vs, a, i, j);
      if EligibleAreComponents(rel, AddAnomaly(rel, vs, a), a.detectedAt) {
        ComponentsGiveSettled(rel, AddAnomaly(rel, vs, a), a.detectedAt);
      }
    } else {
      SettledAfter(rel, vs, a);
      SettledGivesComponents(rel, AddAnomaly(rel, vs, a), a.detectedAt);
    }
  }

  // ---- Runs ----

  lemma SelectKeepsSound(rel: Relation, vs: seq<ClusterView>, keep: set<nat>)
    requires AllSound(rel, vs)
    ensures AllSound(rel, Select(vs, keep))
  {
  }

  lemma SelectKeepsSettled(rel: Relation, vs: seq<ClusterView>, keep: set<nat>, now: int)
    requires Settled(rel, vs, now)
    ensures Settled(rel, Select(vs, keep), now)
  {
    var ws, f := Select(vs, keep), Indices(|vs|, keep);
    IndicesIncrease(|vs|, keep);
    forall i, j | BothEligible(ws, now, i, j) ensures Apart(rel, ws[i].serviceIds, ws[j].serviceIds) {
      assert f[i] != f[j];
      assert BothEligible(vs, now, f[i], f[j]);
    }
  }

  /** In any run, ordered or not, every cluster's services are connected among themselves. */
  lemma {:induction false} ClustersStayConnected(rel: Relation, events: seq<Event>)
    requires Symmetric(rel)
    ensures AllSound(rel, Run(rel, events).open) && AllSound(rel, Run(rel, events).closed)
  {
    if events != [] {
      var l := Run(rel, events[..|events| - 1]);
      ClustersStayConnected(rel, events[..|events| - 1]);
      match events[|events| - 1]
      case Added(a) => AddAnomalySound(rel, l.open, a);
      case Checked(now) =>
        SelectKeepsSound(rel, l.open, FinalizedAt(l.open, now));
        SelectKeepsSound(rel, l.open, Outside(|l.open|, FinalizedAt(l.open, now)));
    }
  }

  /** Anomalies arrive in non-decreasing detection time, none later than now. Checks may carry any time. */
  ghost predicate InOrderUntil(events: seq<Event>, now: int) {
    && AtMostLate(events, 0)
    && (forall i :: 0 <= i < |events| && events[i].Added? ==> events[i].anomaly.detectedAt <= now)
  }

  /** A cluster eligible later was eligible before. */
  lemma SettledLater(rel: Relation, vs: seq<ClusterView>, now: int, later: int)
    requires Settled(rel, vs, now) && now <= later
    ensures Settled(rel, vs, later)
  {
    forall i, j | BothEligible(vs, later, i, j)
      ensures Apart(rel, vs[i].serviceIds, vs[j].serviceIds)
    {
      assert BothEligible(vs, now, i, j);
    }
  }

  lemma SettledHasNoTouching(rel: Relation, vs: seq<ClusterView>, a: Anomaly)
    requires Settled(rel, vs, a.detectedAt)
    ensures forall i: nat, j: nat :: !LeavesTouching(rel, vs, a, i, j)
  {
    forall i: nat, j: nat ensures !LeavesTouching(rel, vs, a, i, j) {
      if BothEligible(vs, a.detectedAt, i, j) { }
    }
  }

  lemma InOrderBefore(events: seq<Event>, now: int)
    requires InOrderUntil(events, now) && events != []
    ensures var n := |events| - 1;
            && InOrderUntil(events[..n], now)
            && (events[n].Added? ==>
                  InOrderUntil(events[..n], events[n].anomaly.detectedAt) && events[n].anomaly.detectedAt <= now)
  {
  }

  lemma AddSettles(rel: Relation, vs: seq<ClusterView>, a: Anomaly, now: int)
    requires Symmetric(rel) && Reflexive(rel) && AllSound(rel, vs)
    requires Settled(rel, vs, a.detectedAt) && a.detectedAt <= now
    ensures Settled(rel, AddAnomaly(rel, vs, a), now)
  {
    SettledHasNoTouching(rel, vs, a);
    SettledAfter(rel, vs, a);
    SettledLater(rel, AddAnomaly(rel, vs, a), a.detectedAt, now);
  }

  lemma {:induction false} RunSettled(rel: Relation, events: seq<Event>, now: int)
    requires Symmetric(rel) && Reflexive(rel) && InOrderUntil(events, now)
    ensures Settled(rel, Run(rel, events).open, now)
  {
    if events != [] {
      var n := |events| - 1;
      var before := events[..n];
      var open := Run(rel, before).open;
      InOrderBefore(events, now);
      match events[n]
      case Added(a) =>
        RunSettled(rel, before, a.detectedAt);
        ClustersStayConnected(rel, before);
        AddSettles(rel, open, a, now);
      case Checked(t) =>
        RunSettled(rel, before, now);
        SelectKeepsSettled(rel, open, Outside(|open|, FinalizedAt(open, t)), now);
    }
  }

  /** Incremental merging equals batch components: over any run with anomalies in detection
      order, and at any later time, the eligible clusters are exactly the connected
      components of the graph on their services. */
  lemma ClustersAreComponents(rel: Relation, events: seq<Event>, now: int)
    requires Symmetric(rel) && Reflexive(rel) && InOrderUntil(events, now)
    ensures EligibleAreComponents(rel, Run(rel, events).open, now)
  {
    ClustersStayConnected(rel, events);
    RunSettled(rel, events, now);
    SettledGivesComponents(rel, Run(rel, events).open, now);
  }

  lemma TargetAnomalies(vs: seq<ClusterView>, keep: set<nat>, a: Anomaly)
    requires Within(|vs|, keep) && keep != {}
    ensures a in MergedTarget(vs, keep, a).anomalies
    ensures forall i, x :: i in keep && x in vs[i].anomalies ==> x in MergedTarget(vs, keep, a).anomalies
  {
    var first := FirstOf(|vs|, keep);
    MergeAllAnomalies(vs[first].Add(a), Select(vs, keep - {first}));
    assert a in vs[first].Add(a).anomalies;
    forall i, x | i in keep && x in vs[i].anomalies ensures x in MergedTarget(vs, keep, a).anomalies {
      if i == first {
        assert x in vs[first].Add(a).anomalies;
      } else {
        var k := SelectHas(vs, keep - {first}, i);
      }
    }
  }

  lemma {:induction false} MergeAllAnomalies(c: ClusterView, others: seq<ClusterView>)
    ensures forall x :: x in c.anomalies ==> x in MergeAll(c, others).anomalies
    ensures forall k, x :: 0 <= k < |others| && x in others[k].anomalies ==> x in MergeAll(c, others).anomalies
  {
    if others != [] {
      var n := |others| - 1;
      MergeAllAnomalies(c, others[..n]);
      forall k, x | 0 <= k < |others| && x in others[k].anomalies ensures x in MergeAll(c, others).anomalies {
        if k < n { assert others[..n][k] == others[k]; }
      }
    }
  }

  ghost predicate HoldsTogether(c: ClusterView, a: Anomaly, other: ClusterView) {
    a in c.anomalies && forall x :: x in other.anomalies ==> x in c.anomalies
  }

  /** An anomaly whose service is related to one of an eligible cluster's services ends up in one
      cluster with all of that cluster's anomalies, if that cluster owns the related service. */
  lemma RelatedEndTogether(rel: Relation, vs: seq<ClusterView>, a: Anomaly, i: nat, s: string)
    requires s in rel(a.serviceId)
    requires Owns(Services(vs), EligibleAt(vs, a.detectedAt), s, i)
    ensures exists k :: 0 <= k < |AddAnomaly(rel, vs, a)| && HoldsTogether(AddAnomaly(rel, vs, a)[k], a, vs[i])
  {
    var keep := Matched(rel, vs, a);
    var ground := Ground(Services(vs), EligibleAt(vs, a.detectedAt), a.serviceId);
    ActiveHas(vs, a.detectedAt, i);
    ReachSelf(rel, ground, a.serviceId);
    ReachStep(rel, ground, a.serviceId, a.serviceId, s);
    assert i in keep;
    var k := JoinedPlace(vs, keep, a, i);
    TargetAnomalies(vs, keep, a);
    assert HoldsTogether(AddAnomaly(rel, vs, a)[k], a, vs[i]);
  }

  // ---- Out-of-order arrivals ----

  lemma NoneEligible(rel: Relation, vs: seq<ClusterView>, a: Anomaly)
    requires forall i :: 0 <= i < |vs| ==> !vs[i].Eligible(a.detectedAt)
    ensures AddAnomaly(rel, vs, a) == vs + [Opened(a)]
  {
    assert EligibleAt(vs, a.detectedAt) == {};
    assert Matched(rel, vs, a) == {};
  }

  /** Order matters: the second anomaly opens a second cluster because the first has aged out, the
      late third one finds both eligible again, and its search reaches only the newer of the two. */
  lemma LateArrivalSplitsComponent(rel: Relation, s: string)
    requires Symmetric(rel) && Reflexive(rel)
    ensures var at := (t: int) => Added(Anomaly("", s, "CPU_SPIKE", t));
            !EligibleAreComponents(rel, Run(rel, [at(0), at(100_000), at(50_000)]).open, 50_000)
  {
    var a, b, c := Anomaly("", s, "CPU_SPIKE", 0), Anomaly("", s, "CPU_SPIKE", 100_000),
        Anomaly("", s, "CPU_SPIKE", 50_000);
    var events := [Added(a), Added(b), Added(c)];
    assert events[..2] == [Added(a), Added(b)] && [Added(a), Added(b)][..1] == [Added(a)] && [Added(a)][..0] == [];
    NoneEligible(rel, [], a);
    assert Run(rel, [Added(a)]).open == [Opened(a)];
    NoneEligible(rel, [Opened(a)], b);
    var vs := [Opened(a), Opened(b)];
    assert Run(rel, events[..2]).open == vs;
    assert Run(rel, events).open == AddAnomaly(rel, vs, c);
    ClustersStayConnected(rel, events[..2]);
    assert s in rel(s) && !Apart(rel, vs[0].serviceIds, vs[1].serviceIds);
    assert 0 !in Matched(rel, vs, c) by {
      assert Services(vs)[1] == {s} && 1 in EligibleAt(vs, c.detectedAt);
    }
    assert LeavesTouching(rel, vs, c, 0, 1);
    AddGivesComponentsIff(rel, vs, c);
  }
}
