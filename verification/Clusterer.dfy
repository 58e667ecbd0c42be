/** The clusterer as it runs: clusters are objects, changed in place and removed by identity. */
module Clusterer {
  import opened Lists
  import opened Selection
  import opened Walks
  import opened ClusterModel
  import opened ClusterRules

  /** One in-progress incident candidate. */
  class Cluster {
    var anomalies: seq<Anomaly>
    var serviceIds: set<string>
    var createdAt: int
    var lastUpdated: int

    ghost function View(): ClusterView
      reads this
    {
      ClusterView(anomalies, serviceIds, createdAt, lastUpdated)
    }

    constructor (a: Anomaly)
      ensures View() == Opened(a)
      ensures anomalies == [a] && serviceIds == {a.serviceId} && createdAt == lastUpdated == a.detectedAt
    {
      anomalies := [a];
      serviceIds := {a.serviceId};
      createdAt := a.detectedAt;
      lastUpdated := a.detectedAt;
    }

    method Add(a: Anomaly)
      modifies this
      ensures View() == old(View()).Add(a)
      ensures anomalies == old(anomalies) + [a] && serviceIds == old(serviceIds) + {a.serviceId}
      ensures createdAt == old(createdAt)
      ensures lastUpdated == if a.detectedAt > old(lastUpdated) then a.detectedAt else old(lastUpdated)
    {
      anomalies := anomalies + [a];
      serviceIds := serviceIds + {a.serviceId};
      lastUpdated := Max(lastUpdated, a.detectedAt);
    }

    method Merge(other: Cluster)
      requires other != this
      modifies this
      ensures View() == old(View()).Merge(other.View())
      ensures anomalies == old(anomalies) + other.anomalies && serviceIds == old(serviceIds) + other.serviceIds
      ensures createdAt == if other.createdAt < old(createdAt) then other.createdAt else old(createdAt)
      ensures lastUpdated == if other.lastUpdated > old(lastUpdated) then other.lastUpdated else old(lastUpdated)
    {
      anomalies := anomalies + other.anomalies;
      serviceIds := serviceIds + other.serviceIds;
      createdAt := Min(createdAt, other.createdAt);
      lastUpdated := Max(lastUpdated, other.lastUpdated);
    }
  }

  ghost function Views(cs: seq<Cluster>): (vs: seq<ClusterView>)
    reads cs
    ensures |vs| == |cs| && forall i :: 0 <= i < |cs| ==> vs[i] == cs[i].View()
  {
    seq(|cs|, i requires 0 <= i < |cs| reads cs => cs[i].View())
  }

  class IncidentClusterer {
    /** `get_related_services` with the configured number of hops; the topology is static. */
    const query: string -> set<string>
    var relatedCache: map<string, set<string>>
    var active: seq<Cluster>

    ghost predicate Valid()
      reads this
    {
      && Distinct(active)
      && (forall s :: s in relatedCache ==> relatedCache[s] == WithSelf(query)(s))
    }

    constructor (query: string -> set<string>)
      ensures Valid() && active == [] && this.query == query
    {
      this.query := query;
      relatedCache := map[];
      active := [];
    }

    method Related(serviceId: string) returns (related: set<string>)
      requires Valid()
      modifies this`relatedCache
      ensures Valid() && related == WithSelf(query)(serviceId)
      ensures forall t :: t in related <==> t == serviceId || t in query(serviceId)
    {
      if serviceId !in relatedCache {
        var found := query(serviceId) + {serviceId};
        relatedCache := relatedCache[serviceId := found];
      }
      related := relatedCache[serviceId];
    }

    method Claim(owner: map<string, Cluster>, c: Cluster) returns (claimed: map<string, Cluster>)
      ensures claimed == owner + Claims(c.serviceIds, c)
    {
      claimed := owner;
      var todo := c.serviceIds;
      while todo != {}
        invariant todo <= c.serviceIds
        invariant claimed == owner + Claims(c.serviceIds - todo, c)
        decreases todo
      {
        var sid :| sid in todo;
        claimed := claimed[sid := c];
        todo := todo - {sid};
      }
      assert c.serviceIds - todo == c.serviceIds;
    }

    /** The last list entry holding a service owns it. */
    method BuildOwner(eligible: seq<Cluster>) returns (owner: map<string, Cluster>, ghost at: map<string, nat>)
      ensures OwnersUpTo(Services(Views(eligible)), at, |eligible|)
      ensures Follows(owner, at, eligible)
      ensures owner.Keys == Owned(Services(Views(eligible)), Outside(|eligible|, {}))
      ensures forall s, i: nat :: Owns(Services(Views(eligible)), Outside(|eligible|, {}), s, i) ==>
          s in owner && owner[s] == eligible[i]
    {
      owner, at := map[], map[];
      ghost var family := Services(Views(eligible));
      for i: nat := 0 to |eligible|
        invariant OwnersUpTo(family, at, i)
        invariant Follows(owner, at, eligible)
      {
        assert family[i] == eligible[i].serviceIds;
        OwnersStep(family, at, i);
        FollowsStep(owner, at, eligible, family[i], i);
        owner := Claim(owner, eligible[i]);
        at := at + Claims<nat>(family[i], i);
      }
      OwnersOwn(family, at);
    }

    /** The services reached from start by breadth-first search over owned services. Neighbours are
        taken in any order, as Python iterates a set. */
    method Search(start: string, ghost owned: set<string>, owner: map<string, Cluster>) returns (visited: set<string>)
      requires Valid() && owner.Keys == owned
      modifies this`relatedCache
      ensures Valid()
      ensures forall s :: s in visited <==>
          s in owned + {start} && Reachable(WithSelf(query), owned + {start}, start, s)
    {
      ghost var rel, ground := WithSelf(query), owned + {start};
      visited := {start};
      var frontier := [start];
      ReachSelf(rel, ground, start);
      while frontier != []
        invariant Valid()
        invariant start in visited && visited <= ground
        invariant forall k :: 0 <= k < |frontier| ==> frontier[k] in visited
        invariant forall s :: s in visited ==> Reachable(rel, ground, start, s)
        invariant forall s, t :: s in visited && s !in frontier && t in rel(s) && t in owned ==> t in visited
        decreases ground - visited, |frontier|
      {
        var service := frontier[0];
        ghost var waiting := frontier;
        frontier := frontier[1..];
        ghost var before := visited;
        var todo := Related(service);
        while todo != {}
          invariant Valid()
          invariant todo <= rel(service)
          invariant before <= visited <= ground
          invariant visited == before ==> frontier == waiting[1..]
          invariant forall k :: 0 <= k < |frontier| ==> frontier[k] in visited
          invariant forall s :: s in waiting[1..] ==> s in frontier
          invariant forall s :: s in visited && s !in before ==> s in frontier
          invariant forall s :: s in visited ==> Reachable(rel, ground, start, s)
          invariant forall t :: t in rel(service) && t in owned && t !in todo ==> t in visited
          decreases todo
        {
          var neighbour :| neighbour in todo;
          if neighbour in owner && neighbour !in visited {
            ReachStep(rel, ground, start, service, neighbour);
            visited := visited + {neighbour};
            frontier := frontier + [neighbour];
            assert frontier[|frontier| - 1] == neighbour;
          }
          todo := todo - {neighbour};
        }
        assert waiting == [service] + waiting[1..];
      }
      forall s | s in ground && Reachable(rel, ground, start, s) ensures s in visited {
        var p :| Joins(rel, ground, p, start, s);
        ClosedContains(rel, ground, visited, p);
      }
    }

    /** Keeps, in list order, the eligible clusters that own a reached service. */
    method ConnectedClusters(serviceId: string, eligible: seq<Cluster>) returns (matching: seq<Cluster>)
      requires Valid() && Distinct(eligible)
      modifies this`relatedCache
      ensures Valid()
      ensures matching == Select(eligible,
        Hits(WithSelf(query), Services(Views(eligible)), Outside(|eligible|, {}), serviceId))
    {
      var owner, at := BuildOwner(eligible);
      ghost var family := Services(Views(eligible));
      ghost var hits := Hits(WithSelf(query), family, Outside(|eligible|, {}), serviceId);
      OwnersOwn(family, at);
      var visited := Search(serviceId, Owned(family, Outside(|eligible|, {})), owner);
      var hit := OwnersOf(owner, visited);
      matching := [];
      for k := 0 to |eligible|
        invariant matching == Select(eligible[..k], hits)
        modifies {}
      {
        HitReached(WithSelf(query), family, at, serviceId, visited, k);
        HitObject(owner, at, eligible, visited, k);
        SelectSnoc(eligible[..k + 1], hits, hits);
        assert eligible[..k + 1][..k] == eligible[..k];
        if eligible[k] in hit {
          matching := matching + [eligible[k]];
        }
      }
      assert eligible[..|eligible|] == eligible;
    }

    method EligibleClusters(now: int) returns (eligible: seq<Cluster>)
      ensures eligible == Select(active, EligibleAt(Views(active), now))
      ensures forall c :: c in eligible <==>
        c in active && now - c.lastUpdated <= 300_000 && now - c.createdAt < 90_000
    {
      eligible := [];
      ghost var keep := EligibleAt(Views(active), now);
      for i := 0 to |active|
        invariant eligible == Select(active[..i], keep)
      {
        SelectSnoc(active[..i + 1], keep, keep);
        assert active[..i + 1][..i] == active[..i];
        var c := active[i];
        if now - c.lastUpdated <= CORRELATION_WINDOW && now - c.createdAt < MAX_CLUSTER_AGE {
          eligible := eligible + [c];
        }
      }
      assert active[..|active|] == active;
      forall c ensures c in eligible <==> exists i: nat :: i < |active| && i in keep && active[i] == c {
        SelectedElements(active, keep, c);
      }
    }

    /** Adds one anomaly: the open clusters become what the list function says. */
    method AddAnomaly(a: Anomaly)
      requires Valid()
      modifies this, active
      ensures Valid()
      ensures Views(active) == ClusterModel.AddAnomaly(WithSelf(query), old(Views(active)), a)
      ensures JoinsRelated(query(a.serviceId), old(Views(active)), Views(active), a)
      ensures LeavesOthers(old(Views(active)), Views(active), a.detectedAt)
      ensures NoneRelated(query(a.serviceId), old(Views(active)), a) ==>
        Views(active) == old(Views(active)) + [ClusterView([a], {a.serviceId}, a.detectedAt, a.detectedAt)]
      ensures forall c :: c in active ==> c in old(active) || fresh(c)
    {
      ghost var vs := Views(active);
      ghost var keep := Matched(WithSelf(query), vs, a);
      var eligible := EligibleClusters(a.detectedAt);
      SelectDistinct(active, EligibleAt(vs, a.detectedAt));
      var matching := ConnectedClusters(a.serviceId, eligible);
      MatchingPositions(WithSelf(query), active, eligible, vs, a);
      if matching == [] {
        assert keep == {} by {
          if i :| i in keep { var k := SelectHas(active, keep, i); }
        }
        var c := new Cluster(a);
        active := active + [c];
        assert Views(active) == vs + [Opened(a)];
      } else {
        MergeMatching(a, matching, keep);
      }
      AddJoinsRelated(query, vs, a);
      AddLeavesOthers(WithSelf(query), vs, a);
      if NoneRelated(query(a.serviceId), vs, a) { AddOpensAlone(query, vs, a); }
    }

    /** The first matching cluster takes the anomaly and every other one, each of which leaves the list. */
    method MergeMatching(a: Anomaly, matching: seq<Cluster>, ghost keep: set<nat>)
      requires Valid() && matching != [] && matching == Select(active, keep) && Within(|active|, keep)
      modifies this, active
      ensures Valid()
      ensures keep != {} && Views(active) == Joined(old(Views(active)), keep, a)
      ensures forall c :: c in active ==> c in old(active)
    {
      ghost var cs, vs := active, Views(active);
      MatchingHead(cs, matching, keep);
      var target := matching[0];
      target.Add(a);
      AbsorbOthers(target, matching[1..]);
      forall i | 0 <= i < |cs|
        ensures cs[i].View() == if i == FirstOf(|vs|, keep) then MergedTarget(vs, keep, a) else vs[i]
      {
        if i != FirstOf(|vs|, keep) { assert cs[i] != target; }
      }
      JoinedViews(cs, active, vs, keep, a);
    }

    /** Merges the other clusters into the target, taking each off the list. */
    method AbsorbOthers(target: Cluster, others: seq<Cluster>)
      requires target !in others
      modifies `active, target
      ensures active == RemoveAll(old(active), others)
      ensures target.View() == MergeAll(old(target.View()), old(Views(others)))
    {
      ghost var views := Views(others);
      for k := 0 to |others|
        invariant active == RemoveAll(old(active), others[..k])
        invariant target.View() == MergeAll(old(target.View()), views[..k])
      {
        assert views[..k + 1][..k] == views[..k] && others[..k + 1][..k] == others[..k];
        target.Merge(others[k]);
        active := RemoveFirst(active, others[k]);
      }
      assert views[..|others|] == views && others[..|others|] == others;
    }

    method FinalizedClusters(now: int) returns (finalized: seq<Cluster>)
      ensures finalized == Select(active, FinalizedAt(Views(active), now))
      ensures forall c :: c in finalized <==>
        c in active && (now - c.lastUpdated > 300_000 || now - c.createdAt > 90_000)
    {
      finalized := [];
      ghost var f := FinalizedAt(Views(active), now);
      for i := 0 to |active|
        invariant finalized == Select(active[..i], f)
      {
        SelectSnoc(active[..i + 1], f, f);
        assert active[..i + 1][..i] == active[..i];
        var c := active[i];
        if now - c.lastUpdated > CORRELATION_WINDOW || now - c.createdAt > MAX_CLUSTER_AGE {
          finalized := finalized + [c];
        }
      }
      assert active[..|active|] == active;
      forall c ensures c in finalized <==> exists i: nat :: i < |active| && i in f && active[i] == c {
        SelectedElements(active, f, c);
      }
    }

    /** Hands over the finalised clusters, in list order, and keeps the rest. */
    method PopFinalized(now: int) returns (finalized: seq<Cluster>)
      requires Valid()
      modifies this`active
      ensures Valid()
      ensures (Views(active), Views(finalized)) == ClusterModel.PopFinalized(old(Views(active)), now)
      ensures forall c :: c in finalized <==>
        c in old(active) && (now - c.lastUpdated > 300_000 || now - c.createdAt > 90_000)
      ensures forall c :: c in active <==> c in old(active) && c !in finalized
    {
      ghost var cs, vs := active, Views(active);
      finalized := FinalizedClusters(now);
      RemoveEach(finalized);
      assert Views(cs) == vs;
      PoppedViews(cs, active, finalized, now);
    }

    method RemoveEach(gone: seq<Cluster>)
      modifies `active
      ensures active == RemoveAll(old(active), gone)
    {
      for k := 0 to |gone|
        invariant active == RemoveAll(old(active), gone[..k])
      {
        assert gone[..k + 1][..k] == gone[..k];
        active := RemoveFirst(active, gone[k]);
      }
      assert gone[..|gone|] == gone;
    }
  }

  // ---- The owner map ----

  ghost function Claims<T>(services: set<string>, c: T): map<string, T> {
    map s | s in services :: c
  }

  /** at maps each service of the first n clusters to the last of them that holds it. */
  ghost predicate OwnersUpTo(family: seq<set<string>>, at: map<string, nat>, n: nat)
    requires n <= |family|
  {
    && (forall s :: s in at ==> at[s] < n && s in family[at[s]])
    && (forall s, j :: s in at && at[s] < j < n ==> s !in family[j])
    && (forall s, j :: 0 <= j < n && s in family[j] ==> s in at)
  }

  /** owner gives the list entry at the position at gives. */
  ghost predicate Follows<T>(owner: map<string, T>, at: map<string, nat>, xs: seq<T>) {
    owner.Keys == at.Keys && forall s :: s in at ==> at[s] < |xs| && owner[s] == xs[at[s]]
  }

  lemma FollowsStep<T>(owner: map<string, T>, at: map<string, nat>, xs: seq<T>, services: set<string>, i: nat)
    requires Follows(owner, at, xs) && i < |xs|
    ensures Follows(owner + Claims(services, xs[i]), at + Claims(services, i), xs)
  {
  }

  function OwnersOf<T>(owner: map<string, T>, visited: set<string>): set<T> {
    set s | s in visited && s in owner :: owner[s]
  }

  /** Identity of objects is identity of positions. */
  lemma HitObject<T>(owner: map<string, T>, at: map<string, nat>, xs: seq<T>, visited: set<string>, k: nat)
    requires Follows(owner, at, xs) && Distinct(xs) && k < |xs|
    ensures xs[k] in OwnersOf(owner, visited) <==> exists s :: s in visited && s in at && at[s] == k
  {
    if xs[k] in OwnersOf(owner, visited) {
      var s :| s in visited && s in owner && owner[s] == xs[k];
      assert xs[at[s]] == xs[k];
    }
    if s :| s in visited && s in at && at[s] == k {
      assert owner[s] == xs[k];
    }
  }

  lemma OwnersStep(family: seq<set<string>>, at: map<string, nat>, i: nat)
    requires i < |family| && OwnersUpTo(family, at, i)
    ensures OwnersUpTo(family, at + Claims(family[i], i), i + 1)
  {
  }

  lemma OwnersOwn(family: seq<set<string>>, at: map<string, nat>)
    requires OwnersUpTo(family, at, |family|)
    ensures at.Keys == Owned(family, Outside(|family|, {}))
    ensures forall s, i :: Owns(family, Outside(|family|, {}), s, i) <==> s in at && at[s] == i
  {
    var all := Outside(|family|, {});
    forall s | s in at ensures Owns(family, all, s, at[s]) && s in Owned(family, all) {
      assert at[s] in all;
    }
    forall s, i | Owns(family, all, s, i) ensures s in at && at[s] == i {
      assert s in at ==> at[s] in all;
    }
  }

  lemma HitReached(rel: Relation, family: seq<set<string>>, at: map<string, nat>, start: string, visited: set<string>,
                   k: nat)
    requires k < |family| && OwnersUpTo(family, at, |family|)
    requires forall s :: s in visited <==>
      s in Ground(family, Outside(|family|, {}), start) &&
          Reachable(rel, Ground(family, Outside(|family|, {}), start), start, s)
    ensures k in Hits(rel, family, Outside(|family|, {}), start) <==> exists s :: s in visited && s in at && at[s] == k
  {
    var all := Outside(|family|, {});
    OwnersOwn(family, at);
    if k in Hits(rel, family, all, start) {
      var s :| s in family[k] && Owns(family, all, s, k) && Reachable(rel, Ground(family, all, start), start, s);
      assert s in visited && s in at && at[s] == k;
    }
    if s :| s in visited && s in at && at[s] == k {
      assert Owns(family, all, s, k) && s in family[k];
    }
  }

  lemma ViewsOfSelect(cs: seq<Cluster>, keep: set<nat>)
    ensures Views(Select(cs, keep)) == Select(Views(cs), keep)
  {
  }

  lemma PoppedViews(cs: seq<Cluster>, active: seq<Cluster>, finalized: seq<Cluster>, now: int)
    requires Distinct(cs) && finalized == Select(cs, FinalizedAt(Views(cs), now))
    requires active == RemoveAll(cs, finalized)
    ensures Distinct(active)
    ensures (Views(active), Views(finalized)) == ClusterModel.PopFinalized(Views(cs), now)
    ensures forall c :: c in active <==> c in cs && c !in finalized
  {
    var f := FinalizedAt(Views(cs), now);
    forall c ensures c in Select(cs, Outside(|cs|, f)) <==> c in cs && c !in Select(cs, f) {
      SelectedElements(cs, f, c);
      SelectedElements(cs, Outside(|cs|, f), c);
    }
    RemoveAllSelected(cs, f);
    ViewsOfSelect(cs, f);
    ViewsOfSelect(cs, Outside(|cs|, f));
  }

  lemma MatchingHead(cs: seq<Cluster>, matching: seq<Cluster>, keep: set<nat>)
    requires Distinct(cs) && matching != [] && matching == Select(cs, keep) && Within(|cs|, keep)
    ensures keep != {} && matching[0] == cs[FirstOf(|cs|, keep)]
    ensures matching[1..] == Select(cs, keep - {FirstOf(|cs|, keep)}) && matching[0] !in matching[1..]
    ensures Views(matching[1..]) == Select(Views(cs), keep - {FirstOf(|cs|, keep)})
  {
    assert Indices(|cs|, keep)[0] in keep;
    var first := FirstOf(|cs|, keep);
    SelectHead(cs, keep, first);
    SelectDistinct(cs, keep);
    ViewsOfSelect(cs, keep - {first});
  }

  lemma RemovedOthers(cs: seq<Cluster>, keep: set<nat>)
    requires Distinct(cs) && Within(|cs|, keep)
    ensures var left := RemoveAll(cs, Select(cs, keep));
            && Distinct(left) && left == Select(cs, Outside(|cs|, keep))
            && (forall c :: c in left ==> c in cs)
  {
    RemoveAllSelected(cs, keep);
  }

  /** The list after the merging loop, as the list function says. */
  lemma JoinedViews(cs: seq<Cluster>, active: seq<Cluster>, vs: seq<ClusterView>, keep: set<nat>, a: Anomaly)
    requires Distinct(cs) && |cs| == |vs| && Within(|vs|, keep) && keep != {}
    requires active == RemoveAll(cs, Select(cs, keep - {FirstOf(|vs|, keep)}))
    requires forall i :: 0 <= i < |cs| ==>
      cs[i].View() == if i == FirstOf(|vs|, keep) then MergedTarget(vs, keep, a) else vs[i]
    ensures Distinct(active) && Views(active) == Joined(vs, keep, a)
    ensures forall c :: c in active ==> c in cs
  {
    var drop := keep - {FirstOf(|vs|, keep)};
    RemovedOthers(cs, drop);
    ViewsOfSelect(cs, Outside(|cs|, drop));
    assert Views(cs) == vs[FirstOf(|vs|, keep) := MergedTarget(vs, keep, a)];
  }

  /** Searching the eligible list is searching the whole list with the others left out. */
  lemma HitsOfSelection(rel: Relation, family: seq<set<string>>, live: set<nat>, picked: seq<set<string>>, s: string,
                        h: nat)
    requires Within(|family|, live) && picked == Select(family, live) && h < |picked|
    ensures h in Hits(rel, picked, Outside(|picked|, {}), s) <==>
        Indices(|family|, live)[h] in Hits(rel, family, live, s)
  {
    var e, all := Indices(|family|, live), Outside(|picked|, {});
    OwnedOfSelection(family, live, picked);
    assert Ground(picked, all, s) == Ground(family, live, s);
    forall t ensures Owns(picked, all, t, h) <==> Owns(family, live, t, e[h]) {
      OwnsOfSelection(family, live, picked, t, h);
    }
  }

  lemma OwnedOfSelection(family: seq<set<string>>, live: set<nat>, picked: seq<set<string>>)
    requires Within(|family|, live) && picked == Select(family, live)
    ensures Owned(picked, Outside(|picked|, {})) == Owned(family, live)
  {
    var e, all := Indices(|family|, live), Outside(|picked|, {});
    forall t | t in Owned(family, live) ensures t in Owned(picked, all) {
      var i :| i in live && i < |family| && t in family[i];
      var h := IndexOf(|family|, live, i);
      assert h in all && t in picked[h];
    }
  }

  lemma OrderReflects(e: seq<nat>, h: nat, g: nat)
    requires Increasing(e) && h < |e| && g < |e| && e[h] < e[g]
    ensures h < g
  {
  }

  lemma OwnsOfSelection(family: seq<set<string>>, live: set<nat>, picked: seq<set<string>>, t: string, h: nat)
    requires Within(|family|, live) && picked == Select(family, live) && h < |picked|
    ensures Owns(picked, Outside(|picked|, {}), t, h) <==> Owns(family, live, t, Indices(|family|, live)[h])
  {
    var e, all := Indices(|family|, live), Outside(|picked|, {});
    IndicesIncrease(|family|, live);
    if Owns(picked, all, t, h) {
      forall j | e[h] < j < |family| && j in live ensures t !in family[j] {
        var g := IndexOf(|family|, live, j);
        OrderReflects(e, h, g);
        assert g in all;
      }
    }
    if Owns(family, live, t, e[h]) {
      forall g | h < g < |picked| && g in all ensures t !in picked[g] {
        assert e[h] < e[g];
      }
    }
  }

  /** The matching objects stand exactly at the matched positions of the open list. */
  lemma MatchingPositions(rel: Relation, cs: seq<Cluster>, eligible: seq<Cluster>, vs: seq<ClusterView>, a: Anomaly)
    requires vs == Views(cs) && eligible == Select(cs, EligibleAt(vs, a.detectedAt))
    ensures Select(eligible, Hits(rel, Services(Views(eligible)), Outside(|eligible|, {}), a.serviceId))
         == Select(cs, Matched(rel, vs, a))
  {
    var live := EligibleAt(vs, a.detectedAt);
    var family, picked := Services(vs), Services(Views(eligible));
    assert picked == Select(family, live);
    var inner, both := Hits(rel, picked, Outside(|picked|, {}), a.serviceId), Matched(rel, vs, a);
    forall h | 0 <= h < |Indices(|cs|, live)| ensures h in inner <==> Indices(|cs|, live)[h] in both {
      HitsOfSelection(rel, family, live, picked, a.serviceId, h);
    }
    SelectSelect(cs, live, inner, both);
  }
}
