/** Picking the root cause of a finished cluster from the causal edges between its services. */
module RootCause {
  import opened Lists
  import opened Options

  datatype Anomaly = Anomaly(serviceId: string, anomalyType: string, detectedAt: int)

  /** From a cause to its effect. */
  type Edge = (string, string)

  /** What the stored metrics say: whether a service has enough history in the metric of its latest
      anomaly, and whether the one series helps to predict the other. */
  datatype Statistics = Statistics(enough: Anomaly -> bool, causes: (Anomaly, Anomaly) -> bool)

  datatype Method = FallbackEarliest | Granger

  datatype Report = Report(rootCause: string, how: Method, edges: seq<Edge>)

  // ---- The services and their latest anomalies ----

  /** Services in the order of their first anomaly. */
  function Services(anomalies: seq<Anomaly>): seq<string> {
    if anomalies == [] then []
    else
      var before, s := Services(anomalies[..|anomalies| - 1]), anomalies[|anomalies| - 1].serviceId;
      if s in before then before else before + [s]
  }

  function Latest(anomalies: seq<Anomaly>, s: string): Option<Anomaly> {
    if anomalies == [] then None
    else
      var before, a := Latest(anomalies[..|anomalies| - 1], s), anomalies[|anomalies| - 1];
      if a.serviceId == s && (before == None || a.detectedAt > before.value.detectedAt) then Some(a) else before
  }

  lemma {:induction false} ServicesAreThose(anomalies: seq<Anomaly>, s: string)
    ensures Distinct(Services(anomalies))
    ensures s in Services(anomalies) <==> exists i :: 0 <= i < |anomalies| && anomalies[i].serviceId == s
    ensures s in Services(anomalies) <==> Latest(anomalies, s).Some?
  {
    if anomalies != [] {
      var n := |anomalies| - 1;
      ServicesAreThose(anomalies[..n], s);
      assert anomalies[n].serviceId == s ==> s in Services(anomalies);
      forall i | 0 <= i < n && anomalies[i].serviceId == s ensures s in Services(anomalies) {
        assert anomalies[..n][i].serviceId == s;
      }
    }
  }

  /** The latest anomaly of a service; of several at that time, the first in the cluster. */
  lemma {:induction false} LatestIsLatest(anomalies: seq<Anomaly>, s: string) returns (k: nat)
    requires Latest(anomalies, s).Some?
    ensures k < |anomalies| && anomalies[k].serviceId == s && Latest(anomalies, s) == Some(anomalies[k])
    ensures forall i :: 0 <= i < |anomalies| && anomalies[i].serviceId == s ==>
        anomalies[i].detectedAt <= anomalies[k].detectedAt
    ensures forall i :: 0 <= i < k && anomalies[i].serviceId == s ==> anomalies[i].detectedAt < anomalies[k].detectedAt
  {
    var n := |anomalies| - 1;
    var before := anomalies[..n];
    assert forall i :: 0 <= i < n ==> before[i] == anomalies[i];
    if Latest(before, s).Some? {
      k := LatestIsLatest(before, s);
      if anomalies[n].serviceId == s && anomalies[n].detectedAt > before[k].detectedAt {
        k := n;
      }
    } else {
      k := n;
      forall i | 0 <= i < n ensures anomalies[i].serviceId != s {
        ServicesAreThose(before, before[i].serviceId);
      }
    }
  }

  // ---- Degrees ----

  datatype Way = Out | In

  function End(e: Edge, way: Way): string {
    if way == Out then e.0 else e.1
  }

  /** How many edges leave, or enter, a service. */
  function Degree(edges: seq<Edge>, s: string, way: Way): nat {
    if edges == [] then 0
    else Degree(edges[..|edges| - 1], s, way) + if End(edges[|edges| - 1], way) == s then 1 else 0
  }

  function Leaving(edges: seq<Edge>, s: string): set<nat> {
    set i: nat | i < |edges| && edges[i].0 == s
  }

  function Entering(edges: seq<Edge>, s: string): set<nat> {
    set i: nat | i < |edges| && edges[i].1 == s
  }

  lemma OneMoreLeaving(edges: seq<Edge>, e: Edge, s: string)
    ensures |Leaving(edges + [e], s)| == |Leaving(edges, s)| + if e.0 == s then 1 else 0
  {
    var n := |edges|;
    assert forall i: nat :: i < n ==> (edges + [e])[i] == edges[i];
    assert Leaving(edges + [e], s) == Leaving(edges, s) + if e.0 == s then {n} else {};
  }

  lemma OneMoreEntering(edges: seq<Edge>, e: Edge, s: string)
    ensures |Entering(edges + [e], s)| == |Entering(edges, s)| + if e.1 == s then 1 else 0
  {
    var n := |edges|;
    assert forall i: nat :: i < n ==> (edges + [e])[i] == edges[i];
    assert Entering(edges + [e], s) == Entering(edges, s) + if e.1 == s then {n} else {};
  }

  /** The degrees count the edges from the service, and to it. */
  lemma {:induction false} DegreesCount(edges: seq<Edge>, s: string)
    ensures Degree(edges, s, Out) == |Leaving(edges, s)| && Degree(edges, s, In) == |Entering(edges, s)|
  {
    if edges == [] {
      assert Leaving(edges, s) == {} && Entering(edges, s) == {};
    } else {
      var n := |edges| - 1;
      DegreesCount(edges[..n], s);
      OneMoreLeaving(edges[..n], edges[n], s);
      OneMoreEntering(edges[..n], edges[n], s);
      assert edges[..n] + [edges[n]] == edges;
    }
  }

  function DegreeSum(edges: seq<Edge>, services: seq<string>, way: Way): nat {
    if services == [] then 0
    else DegreeSum(edges, services[..|services| - 1], way) + Degree(edges, services[|services| - 1], way)
  }

  lemma {:induction false} OneMoreEdge(edges: seq<Edge>, services: seq<string>, way: Way)
    requires edges != [] && Distinct(services)
    ensures DegreeSum(edges, services, way)
         == DegreeSum(edges[..|edges| - 1], services, way) + if End(edges[|edges| - 1], way) in services then 1 else 0
  {
    if services != [] {
      var n := |services| - 1;
      OneMoreEdge(edges, services[..n], way);
      assert services == services[..n] + [services[n]];
    }
  }

  lemma {:induction false} NoEdgesNoDegrees(services: seq<string>, way: Way)
    ensures DegreeSum([], services, way) == 0
  {
    if services != [] {
      NoEdgesNoDegrees(services[..|services| - 1], way);
    }
  }

  ghost predicate Among(edges: seq<Edge>, services: seq<string>) {
    forall e :: e in edges ==> e.0 in services && e.1 in services
  }

  /** The out-degrees add up to the number of edges, and so do the in-degrees. */
  lemma {:induction false} DegreesAddUp(edges: seq<Edge>, services: seq<string>, way: Way)
    requires Distinct(services) && Among(edges, services)
    ensures DegreeSum(edges, services, way) == |edges|
  {
    if edges == [] {
      NoEdgesNoDegrees(services, way);
    } else {
      var n := |edges| - 1;
      assert edges[n] in edges && forall e :: e in edges[..n] ==> e in edges;
      DegreesAddUp(edges[..n], services, way);
      OneMoreEdge(edges, services, way);
    }
  }

  lemma {:induction false} DegreePositiveIff(edges: seq<Edge>, s: string, way: Way)
    ensures Degree(edges, s, way) > 0 <==> exists i :: 0 <= i < |edges| && End(edges[i], way) == s
  {
    if edges != [] {
      var n := |edges| - 1;
      DegreePositiveIff(edges[..n], s, way);
      forall i | 0 <= i < n && End(edges[i], way) == s ensures Degree(edges[..n], s, way) > 0 {
        assert End(edges[..n][i], way) == s;
      }
    }
  }

  // ---- The choice ----

  /** Services that nothing explains, in order. */
  function Sources(edges: seq<Edge>, services: seq<string>): seq<string> {
    if services == [] then []
    else
      var s := services[|services| - 1];
      Sources(edges, services[..|services| - 1]) + if Degree(edges, s, In) == 0 then [s] else []
  }

  lemma {:induction false} SourcesAreThose(edges: seq<Edge>, services: seq<string>, s: string)
    ensures s in Sources(edges, services) <==> s in services && Degree(edges, s, In) == 0
  {
    if services != [] {
      var n := |services| - 1;
      SourcesAreThose(edges, services[..n], s);
      assert services == services[..n] + [services[n]];
    }
  }

  function Candidates(edges: seq<Edge>, services: seq<string>): seq<string> {
    if Sources(edges, services) == [] then services else Sources(edges, services)
  }

  /** Of the first n candidates, the k-th is the first of those with the most outgoing edges. */
  ghost predicate FirstBest(edges: seq<Edge>, candidates: seq<string>, n: nat, k: nat) {
    && k < n <= |candidates|
    && (forall i :: 0 <= i < n ==> Degree(edges, candidates[i], Out) <= Degree(edges, candidates[k], Out))
    && (forall i :: 0 <= i < k ==> Degree(edges, candidates[i], Out) < Degree(edges, candidates[k], Out))
  }

  ghost predicate Chosen(edges: seq<Edge>, services: seq<string>, root: string) {
    var candidates := Candidates(edges, services);
    exists k: nat :: FirstBest(edges, candidates, |candidates|, k) && candidates[k] == root
  }

  /** A walk along edges. */
  ghost predicate Path(edges: seq<Edge>, p: seq<string>) {
    p != [] && forall i :: 0 <= i < |p| - 1 ==> (p[i], p[i + 1]) in edges
  }

  ghost predicate Acyclic(edges: seq<Edge>) {
    forall p :: Path(edges, p) && |p| >= 2 ==> p[0] != p[|p| - 1]
  }

  lemma NoRevisit(edges: seq<Edge>, v: string, p: seq<string>)
    requires Acyclic(edges) && Path(edges, p) && (v, p[0]) in edges
    ensures v !in p && Path(edges, [v] + p)
  {
    forall k | 0 <= k < |p| ensures p[k] != v {
      var q := [v] + p[..k + 1];
      assert forall i :: 0 <= i < |q| - 1 ==> q[i + 1] == p[i];
      assert Path(edges, q) && q[0] == v && q[|q| - 1] == p[k];
    }
  }

  /** Walking back along edges from any of them ends at a source with an outgoing edge. */
  lemma {:induction false} SourceBehind(edges: seq<Edge>, services: seq<string>, p: seq<string>, visited: set<string>)
    returns (s: string)
    requires Acyclic(edges) && Among(edges, services)
    requires Path(edges, p) && |p| >= 2 && Distinct(p)
    requires visited == (set x | x in p) && visited <= set x | x in services
    ensures s in services && Degree(edges, s, In) == 0 && Degree(edges, s, Out) > 0
    decreases (set x | x in services) - visited
  {
    assert (p[0], p[1]) in edges;
    if Degree(edges, p[0], In) == 0 {
      s := p[0];
      DegreePositiveIff(edges, s, Out);
      var i :| 0 <= i < |edges| && edges[i] == (p[0], p[1]);
      assert End(edges[i], Out) == s;
    } else {
      DegreePositiveIff(edges, p[0], In);
      var i :| 0 <= i < |edges| && End(edges[i], In) == p[0];
      var v := edges[i].0;
      assert edges[i] == (v, p[0]);
      NoRevisit(edges, v, p);
      s := SourceBehind(edges, services, [v] + p, visited + {v});
    }
  }

  lemma SomeSource(edges: seq<Edge>, services: seq<string>) returns (s: string)
    requires edges != [] && Among(edges, services) && Acyclic(edges)
    ensures s in services && Degree(edges, s, In) == 0 && Degree(edges, s, Out) > 0
  {
    var e := edges[0];
    assert e in edges && (e.0, [e.1][0]) in edges && Path(edges, [e.1]);
    NoRevisit(edges, e.0, [e.1]);
    assert [e.0] + [e.1] == [e.0, e.1];
    s := SourceBehind(edges, services, [e.0, e.1], {e.0, e.1});
  }

  ghost predicate BestSource(edges: seq<Edge>, services: seq<string>, root: string) {
    && root in services && Degree(edges, root, In) == 0 && Degree(edges, root, Out) > 0
    && (forall s :: s in services && Degree(edges, s, In) == 0 ==> Degree(edges, s, Out) <= Degree(edges, root, Out))
  }

  /** On causal edges without a cycle, the root cause is explained by nothing, explains something,
      and explains the most of all that nothing explains. */
  lemma AcyclicRootIsASource(edges: seq<Edge>, services: seq<string>, root: string)
    requires edges != [] && Among(edges, services)
    ensures Acyclic(edges) && Chosen(edges, services, root) ==> BestSource(edges, services, root)
  {
    if Acyclic(edges) && Chosen(edges, services, root) {
      var s := SomeSource(edges, services);
      SourcesAreThose(edges, services, s);
      SourcesAreThose(edges, services, root);
      forall t | t in services && Degree(edges, t, In) == 0 ensures Degree(edges, t, Out) <= Degree(edges, root, Out) {
        SourcesAreThose(edges, services, t);
      }
    }
  }

  /** In general the root cause has an outgoing edge exactly if some source has, or there is no source. */
  lemma RootExplainsIff(edges: seq<Edge>, services: seq<string>, root: string)
    requires edges != [] && Among(edges, services) && Chosen(edges, services, root)
    ensures Degree(edges, root, Out) > 0 <==>
            Sources(edges, services) == [] || exists s :: s in Sources(edges, services) && Degree(edges, s, Out) > 0
  {
    assert edges[0] in edges;
    DegreePositiveIff(edges, edges[0].0, Out);
    assert End(edges[0], Out) == edges[0].0;
  }

  /** And it is such a best source exactly if some source has an outgoing edge, cycles elsewhere or not. */
  lemma BestSourceIff(edges: seq<Edge>, services: seq<string>, root: string)
    requires edges != [] && Among(edges, services) && Chosen(edges, services, root)
    ensures BestSource(edges, services, root) <==>
            exists s :: s in Sources(edges, services) && Degree(edges, s, Out) > 0
  {
    RootExplainsIff(edges, services, root);
    SourcesAreThose(edges, services, root);
    forall s ensures s in Sources(edges, services) <==> s in services && Degree(edges, s, In) == 0 {
      SourcesAreThose(edges, services, s);
    }
  }

  /** It may have none: two services that explain each other, and a third with no edge, which is picked. */
  lemma IsolatedRoot()
    ensures var edges, services := [("a", "b"), ("b", "a")], ["a", "b", "c"];
            Among(edges, services) && Chosen(edges, services, "c") && Degree(edges, "c", Out) == 0
  {
    var edges, services := [("a", "b"), ("b", "a")], ["a", "b", "c"];
    assert edges[..1] == [("a", "b")] && edges[..1][..0] == [];
    forall s ensures Degree(edges, s, In) == Degree(edges[..1], s, In) + if s == "a" then 1 else 0 {
      assert End(edges[1], In) == "a";
    }
    forall s ensures Degree(edges[..1], s, In) == if s == "b" then 1 else 0 {
      assert End(edges[..1][0], In) == "b";
    }
    assert Sources(edges, []) == [];
    assert ["a"][..0] == [] && Sources(edges, ["a"]) == [];
    assert ["a", "b"][..1] == ["a"] && Sources(edges, ["a", "b"]) == [];
    assert services[..2] == ["a", "b"] && Sources(edges, services) == ["c"];
    DegreePositiveIff(edges, "c", Out);
    assert Candidates(edges, services) == ["c"];
    assert FirstBest(edges, Candidates(edges, services), 1, 0) && Candidates(edges, services)[0] == "c";
  }

  // ---- The engine ----

  method LatestByService(anomalies: seq<Anomaly>) returns (order: seq<string>, latest: map<string, Anomaly>)
    ensures order == Services(anomalies)
    ensures forall s :: s in latest <==> s in order
    ensures forall s :: s in latest ==> Latest(anomalies, s) == Some(latest[s])
  {
    order, latest := [], map[];
    for i := 0 to |anomalies|
      invariant order == Services(anomalies[..i])
      invariant forall s :: s in latest <==> s in order
      invariant forall s :: Latest(anomalies[..i], s) == if s in latest then Some(latest[s]) else None
    {
      assert anomalies[..i + 1][..i] == anomalies[..i];
      var a := anomalies[i];
      if a.serviceId !in latest {
        order := order + [a.serviceId];
        latest := latest[a.serviceId := a];
      } else if a.detectedAt > latest[a.serviceId].detectedAt {
        latest := latest[a.serviceId := a];
      }
    }
    assert anomalies[..|anomalies|] == anomalies;
  }

  /** Services with enough history, in order. */
  function Known(anomalies: seq<Anomaly>, stats: Statistics, order: seq<string>): seq<string> {
    if order == [] then []
    else
      var s := order[|order| - 1];
      Known(anomalies, stats, order[..|order| - 1])
      + if Latest(anomalies, s).Some? && stats.enough(Latest(anomalies, s).value) then [s] else []
  }

  lemma {:induction false} KnownAreThose(anomalies: seq<Anomaly>, stats: Statistics, order: seq<string>, s: string)
    ensures s in Known(anomalies, stats, order) <==>
            s in order && Latest(anomalies, s).Some? && stats.enough(Latest(anomalies, s).value)
    ensures Distinct(order) ==> Distinct(Known(anomalies, stats, order))
  {
    if order != [] {
      var n := |order| - 1;
      KnownAreThose(anomalies, stats, order[..n], s);
      KnownAreThose(anomalies, stats, order[..n], order[n]);
      assert order == order[..n] + [order[n]];
    }
  }

  /** Exactly the edges from these causes to these effects. */
  ghost predicate EdgesAre(edges: seq<Edge>, latest: map<string, Anomaly>, stats: Statistics, causes: seq<string>,
                           effects: seq<string>)
    requires (forall s :: s in causes || s in effects ==> s in latest)
  {
    forall a, b :: (a, b) in edges <==> a in causes && b in effects && a != b && stats.causes(latest[a], latest[b])
  }

  method CausalEdges(services: seq<string>, latest: map<string, Anomaly>, stats: Statistics) returns (edges: seq<Edge>)
    requires Distinct(services) && forall s :: s in services ==> s in latest
    ensures EdgesAre(edges, latest, stats, services, services) && Distinct(edges)
  {
    edges := [];
    for i := 0 to |services|
      invariant EdgesAre(edges, latest, stats, services[..i], services) && Distinct(edges)
    {
      var a := services[i];
      assert services[..i + 1] == services[..i] + [a];
      ghost var before := edges;
      ghost var row: seq<Edge> := [];
      for j := 0 to |services|
        invariant edges == before + row && Distinct(edges)
        invariant EdgesAre(row, latest, stats, [a], services[..j])
      {
        var b := services[j];
        assert services[..j + 1] == services[..j] + [b];
        if a != b && stats.causes(latest[a], latest[b]) {
          assert (a, b) !in before && (a, b) !in row;
          edges := edges + [(a, b)];
          row := row + [(a, b)];
        }
      }
      assert services[..|services|] == services;
    }
    assert services[..|services|] == services;
  }

  /** The degrees as counted are those of the edges. */
  ghost predicate Counted(edges: seq<Edge>, services: seq<string>, way: Way, degree: map<string, nat>) {
    forall s :: s in services ==> s in degree && degree[s] == Degree(edges, s, way)
  }

  lemma CountOneMore(edges: seq<Edge>, i: nat, services: seq<string>, way: Way, degree: map<string, nat>)
    requires i < |edges| && Counted(edges[..i], services, way, degree) && End(edges[i], way) in services
    ensures Counted(edges[..i + 1], services, way, degree[End(edges[i], way) := degree[End(edges[i], way)] + 1])
  {
    assert edges[..i + 1][..i] == edges[..i];
  }

  method CountDegrees(services: seq<string>, edges: seq<Edge>)
    returns (outDegree: map<string, nat>, inDegree: map<string, nat>)
    requires Among(edges, services)
    ensures Counted(edges, services, Out, outDegree) && Counted(edges, services, In, inDegree)
  {
    outDegree := map s | s in services :: 0;
    inDegree := outDegree;
    for i := 0 to |edges|
      invariant Counted(edges[..i], services, Out, outDegree) && Counted(edges[..i], services, In, inDegree)
    {
      assert edges[i] in edges;
      CountOneMore(edges, i, services, Out, outDegree);
      CountOneMore(edges, i, services, In, inDegree);
      var (a, b) := edges[i];
      outDegree := outDegree[a := outDegree[a] + 1];
      inDegree := inDegree[b := inDegree[b] + 1];
    }
    assert edges[..|edges|] == edges;
  }

  /** The first anomaly at the earliest time. */
  ghost predicate Earliest(anomalies: seq<Anomaly>, k: nat) {
    && k < |anomalies|
    && (forall i :: 0 <= i < |anomalies| ==> anomalies[k].detectedAt <= anomalies[i].detectedAt)
    && (forall i :: 0 <= i < k ==> anomalies[k].detectedAt < anomalies[i].detectedAt)
  }

  /** The services whose history allows a test. */
  function Testable(anomalies: seq<Anomaly>, stats: Statistics): seq<string> {
    Known(anomalies, stats, Services(anomalies))
  }

  /** The one's latest anomaly's series helps to predict the other's. */
  predicate Predicts(anomalies: seq<Anomaly>, stats: Statistics, a: string, b: string) {
    var x, y := Latest(anomalies, a), Latest(anomalies, b);
    x.Some? && y.Some? && stats.causes(x.value, y.value)
  }

  /** Exactly the edges there should be, each once. */
  ghost predicate CausalGraph(anomalies: seq<Anomaly>, stats: Statistics, edges: seq<Edge>) {
    var services := Testable(anomalies, stats);
    && Distinct(edges)
    && forall a, b :: (a, b) in edges <==> a in services && b in services && a != b && Predicts(anomalies, stats, a, b)
  }

  lemma TestableAreThose(anomalies: seq<Anomaly>, stats: Statistics, s: string)
    ensures Distinct(Testable(anomalies, stats))
    ensures s in Testable(anomalies, stats) <==> Latest(anomalies, s).Some? && stats.enough(Latest(anomalies, s).value)
  {
    ServicesAreThose(anomalies, s);
    KnownAreThose(anomalies, stats, Services(anomalies), s);
  }

  method BuildGraph(anomalies: seq<Anomaly>, stats: Statistics) returns (services: seq<string>, edges: seq<Edge>)
    ensures services == Testable(anomalies, stats) && CausalGraph(anomalies, stats, edges)
  {
    var order, latest := LatestByService(anomalies);
    services := [];
    for i := 0 to |order|
      invariant services == Known(anomalies, stats, order[..i])
    {
      assert order[..i + 1][..i] == order[..i];
      if stats.enough(latest[order[i]]) {
        services := services + [order[i]];
      }
    }
    assert order[..|order|] == order;
    forall s ensures Distinct(services) && (s in services ==> s in latest) {
      TestableAreThose(anomalies, stats, s);
      ServicesAreThose(anomalies, s);
    }
    edges := CausalEdges(services, latest, stats);
    forall a, b ensures (a, b) in edges <==>
        a in services && b in services && a != b && Predicts(anomalies, stats, a, b) {
    }
  }

  method FindSources(services: seq<string>, edges: seq<Edge>, inDegree: map<string, nat>) returns (sources: seq<string>)
    requires Counted(edges, services, In, inDegree)
    ensures sources == Sources(edges, services)
  {
    sources := [];
    for i := 0 to |services|
      invariant sources == Sources(edges, services[..i])
    {
      assert services[..i + 1][..i] == services[..i];
      if inDegree[services[i]] == 0 {
        sources := sources + [services[i]];
      }
    }
    assert services[..|services|] == services;
  }

  method MostEffects(candidates: seq<string>, edges: seq<Edge>, outDegree: map<string, nat>) returns (best: nat)
    requires candidates != [] && Counted(edges, candidates, Out, outDegree)
    ensures FirstBest(edges, candidates, |candidates|, best)
  {
    best := 0;
    for i := 1 to |candidates|
      invariant FirstBest(edges, candidates, i, best)
    {
      if outDegree[candidates[i]] > outDegree[candidates[best]] {
        best := i;
      }
    }
  }

  method PickRoot(services: seq<string>, edges: seq<Edge>) returns (root: string)
    requires edges != [] && Among(edges, services)
    ensures Chosen(edges, services, root)
  {
    var outDegree, inDegree := CountDegrees(services, edges);
    var sources := FindSources(services, edges, inDegree);
    var candidates := if sources != [] then sources else services;
    forall s | s in candidates ensures s in services {
      SourcesAreThose(edges, services, s);
    }
    assert edges[0] in edges;
    var best := MostEffects(candidates, edges, outDegree);
    root := candidates[best];
    assert candidates == Candidates(edges, services);
  }

  method FirstEarliest(anomalies: seq<Anomaly>) returns (first: nat)
    requires anomalies != []
    ensures Earliest(anomalies, first)
  {
    first := 0;
    for i := 1 to |anomalies|
      invariant Earliest(anomalies[..i], first)
    {
      if anomalies[i].detectedAt < anomalies[first].detectedAt {
        first := i;
      }
    }
    assert anomalies[..|anomalies|] == anomalies;
  }

  // ---- Ties ----

  /** The one service has an anomaly in the cluster ahead of every anomaly of the other. */
  ghost predicate SeenBefore(anomalies: seq<Anomaly>, s: string, t: string) {
    exists a :: 0 <= a < |anomalies| && anomalies[a].serviceId == s &&
      forall b :: 0 <= b <= a ==> anomalies[b].serviceId != t
  }

  /** Listed in the order of first anomalies. */
  ghost predicate InOrder(anomalies: seq<Anomaly>, services: seq<string>) {
    forall i, j :: 0 <= i < j < |services| ==> SeenBefore(anomalies, services[i], services[j])
  }

  lemma SeenBeforeGrows(anomalies: seq<Anomaly>, a: Anomaly, s: string, t: string)
    requires SeenBefore(anomalies, s, t)
    ensures SeenBefore(anomalies + [a], s, t)
  {
    var k :| 0 <= k < |anomalies| && anomalies[k].serviceId == s &&
      forall b :: 0 <= b <= k ==> anomalies[b].serviceId != t;
    assert (anomalies + [a])[k].serviceId == s;
  }

  lemma OldBeforeNew(anomalies: seq<Anomaly>, a: Anomaly, s: string)
    requires s in Services(anomalies) && a.serviceId !in Services(anomalies)
    ensures SeenBefore(anomalies + [a], s, a.serviceId)
  {
    ServicesAreThose(anomalies, s);
    ServicesAreThose(anomalies, a.serviceId);
    var k :| 0 <= k < |anomalies| && anomalies[k].serviceId == s;
    assert (anomalies + [a])[k].serviceId == s;
  }

  lemma {:induction false} ServicesInOrder(anomalies: seq<Anomaly>)
    ensures InOrder(anomalies, Services(anomalies))
  {
    if anomalies != [] {
      var before, a := anomalies[..|anomalies| - 1], anomalies[|anomalies| - 1];
      ServicesInOrder(before);
      assert before + [a] == anomalies;
      var all, old_ := Services(anomalies), Services(before);
      forall i, j | 0 <= i < j < |all| ensures SeenBefore(anomalies, all[i], all[j]) {
        if j < |old_| {
          SeenBeforeGrows(before, a, all[i], all[j]);
        } else {
          OldBeforeNew(before, a, all[i]);
        }
      }
    }
  }

  lemma OneMoreInOrder(anomalies: seq<Anomaly>, services: seq<string>, some: seq<string>)
    requires services != [] && InOrder(anomalies, services) && InOrder(anomalies, some)
    requires forall s :: s in some ==> s in services[..|services| - 1]
    ensures InOrder(anomalies, some + [services[|services| - 1]])
  {
    var n := |services| - 1;
    forall i | 0 <= i < |some| ensures SeenBefore(anomalies, some[i], services[n]) {
      assert some[i] in some;
      var k :| 0 <= k < n && services[k] == some[i];
    }
  }

  lemma {:induction false} KnownInOrder(anomalies: seq<Anomaly>, stats: Statistics, order: seq<string>)
    requires InOrder(anomalies, order)
    ensures InOrder(anomalies, Known(anomalies, stats, order))
  {
    if order != [] {
      var before := order[..|order| - 1];
      KnownInOrder(anomalies, stats, before);
      forall s ensures s in Known(anomalies, stats, before) ==> s in before {
        KnownAreThose(anomalies, stats, before, s);
      }
      OneMoreInOrder(anomalies, order, Known(anomalies, stats, before));
    }
  }

  lemma {:induction false} SourcesInOrder(anomalies: seq<Anomaly>, edges: seq<Edge>, services: seq<string>)
    requires InOrder(anomalies, services)
    ensures InOrder(anomalies, Sources(edges, services))
  {
    if services != [] {
      var before := services[..|services| - 1];
      SourcesInOrder(anomalies, edges, before);
      forall s ensures s in Sources(edges, before) ==> s in before {
        SourcesAreThose(edges, before, s);
      }
      OneMoreInOrder(anomalies, services, Sources(edges, before));
    }
  }

  /** A service that may be chosen: nothing explains it, or everything is explained. */
  ghost predicate MayBeChosen(edges: seq<Edge>, services: seq<string>, s: string) {
    s in services && (Degree(edges, s, In) == 0 || forall t :: t in services ==> Degree(edges, t, In) > 0)
  }

  lemma CandidatesAreThose(edges: seq<Edge>, services: seq<string>, s: string)
    ensures s in Candidates(edges, services) <==> MayBeChosen(edges, services, s)
  {
    SourcesAreThose(edges, services, s);
    forall t ensures t in Sources(edges, services) <==> t in services && Degree(edges, t, In) == 0 {
      SourcesAreThose(edges, services, t);
    }
    if Sources(edges, services) != [] {
      assert Sources(edges, services)[0] in Sources(edges, services);
    }
  }

  /** The root cause may be chosen, and every other that may explains fewer, or as many and is first seen
      later. */
  ghost predicate ChosenFirst(anomalies: seq<Anomaly>, edges: seq<Edge>, services: seq<string>, root: string) {
    && MayBeChosen(edges, services, root)
    && forall s :: MayBeChosen(edges, services, s) && s != root ==> ChosenOver(anomalies, edges, root, s)
  }

  ghost predicate ChosenOver(anomalies: seq<Anomaly>, edges: seq<Edge>, root: string, s: string) {
    || Degree(edges, s, Out) < Degree(edges, root, Out)
    || (Degree(edges, s, Out) == Degree(edges, root, Out) && SeenBefore(anomalies, root, s))
  }

  lemma ChosenIsFirst(anomalies: seq<Anomaly>, stats: Statistics, edges: seq<Edge>, root: string)
    requires Chosen(edges, Testable(anomalies, stats), root)
    ensures ChosenFirst(anomalies, edges, Testable(anomalies, stats), root)
  {
    var services := Testable(anomalies, stats);
    ServicesInOrder(anomalies);
    KnownInOrder(anomalies, stats, Services(anomalies));
    SourcesInOrder(anomalies, edges, services);
    var candidates := Candidates(edges, services);
    assert InOrder(anomalies, candidates);
    var k: nat :| FirstBest(edges, candidates, |candidates|, k) && candidates[k] == root;
    CandidatesAreThose(edges, services, root);
    forall s | MayBeChosen(edges, services, s) && s != root ensures ChosenOver(anomalies, edges, root, s) {
      CandidatesAreThose(edges, services, s);
      var i :| 0 <= i < |candidates| && candidates[i] == s;
      FirstBestOver(anomalies, edges, candidates, k, i);
    }
  }

  lemma FirstBestOver(anomalies: seq<Anomaly>, edges: seq<Edge>, candidates: seq<string>, k: nat, i: nat)
    requires FirstBest(edges, candidates, |candidates|, k) && InOrder(anomalies, candidates)
    requires i < |candidates| && i != k
    ensures ChosenOver(anomalies, edges, candidates[k], candidates[i])
  {
    if i > k { assert SeenBefore(anomalies, candidates[k], candidates[i]); }
  }

  method FindRootCause(anomalies: seq<Anomaly>, stats: Statistics) returns (r: Report)
    requires anomalies != []
    ensures CausalGraph(anomalies, stats, r.edges)
    ensures forall a, b :: (a, b) in r.edges ==>
      var x, y := Latest(anomalies, a), Latest(anomalies, b);
      x.Some? && y.Some? && stats.causes(x.value, y.value)
    ensures r.how == FallbackEarliest <==> r.edges == []
    ensures r.how == FallbackEarliest ==> exists k: nat ::
      && k < |anomalies| && r.rootCause == anomalies[k].serviceId
      && (forall i :: 0 <= i < |anomalies| ==> anomalies[k].detectedAt <= anomalies[i].detectedAt)
      && (forall i :: 0 <= i < k ==> anomalies[k].detectedAt < anomalies[i].detectedAt)
    ensures r.how == Granger ==> Chosen(r.edges, Testable(anomalies, stats), r.rootCause)
    ensures r.how == Granger ==> ChosenFirst(anomalies, r.edges, Testable(anomalies, stats), r.rootCause)
    ensures r.how == Granger && Acyclic(r.edges) ==> BestSource(r.edges, Testable(anomalies, stats), r.rootCause)
  {
    var services, edges := BuildGraph(anomalies, stats);
    if edges == [] {
      var first := FirstEarliest(anomalies);
      return Report(anomalies[first].serviceId, FallbackEarliest, []);
    }
    assert forall e: Edge :: e in edges ==> (e.0, e.1) in edges;
    var root := PickRoot(services, edges);
    AcyclicRootIsASource(edges, services, root);
    ChosenIsFirst(anomalies, stats, edges, root);
    return Report(root, Granger, edges);
  }
}
