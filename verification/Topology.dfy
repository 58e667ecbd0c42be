/** The service graph held in Neo4j: what is pushed into it, and the related-services query. */
module Topology {
  import opened Walks
  import opened Cascade
  import opened Lists

  /** A CALLS relationship: caller, callee. MERGE keeps one per ordered pair. */
  datatype Call = Call(caller: string, callee: string)

  /** The relationships the push asks for: both ends must be registered. */
  ghost function PushedCalls(registry: set<string>, g: CascadeMap): set<Call> {
    set a, b | a in g && a in registry && b in g[a] && b in registry :: Call(a, b)
  }

  /** Relationships join existing nodes. */
  ghost predicate JoinsNodes(services: set<string>, calls: set<Call>) {
    forall c :: c in calls ==> c.caller in services && c.callee in services
  }

  class ServiceGraph {
    var services: set<string>
    var calls: set<Call>

    ghost predicate Valid()
      reads this
    {
      JoinsNodes(services, calls)
    }

    constructor ()
      ensures Valid() && services == {} && calls == {}
    {
      services, calls := {}, {};
    }

    /** MERGE of every registered service, then of every call between registered services. */
    method MergeTopology(registry: set<string>, g: CascadeMap)
      requires Valid()
      modifies this
      ensures Valid()
      ensures services == old(services) + registry
      ensures calls == old(calls) + PushedCalls(registry, g)
      ensures forall a, b :: Call(a, b) in calls <==>
        Call(a, b) in old(calls) || (a in g && a in registry && b in g[a] && b in registry)
    {
      MergeServices(registry);
      var callers := g.Keys;
      ghost var done: set<string> := {};
      while callers != {}
        invariant Valid() && services == old(services) + registry
        invariant callers + done == g.Keys && callers !! done
        invariant calls == old(calls) + PushedCalls(registry, map a | a in done :: g[a])
        decreases callers
      {
        var caller :| caller in callers;
        callers := callers - {caller};
        ghost var part, part' := map a | a in done :: g[a], map a | a in done + {caller} :: g[a];
        ghost var calls0 := calls;
        if caller in registry {
          MergeCalls(caller, g[caller], registry);
        }
        assert PushedCalls(registry, part') ==
          PushedCalls(registry, part) + if caller in registry then CallsOf(caller, g[caller], registry) else {} by {
          PushedOne(registry, part, caller, g[caller]);
          assert part' == part[caller := g[caller]];
        }
        done := done + {caller};
      }
      assert (map a | a in done :: g[a]) == g;
    }

    method MergeServices(registry: set<string>)
      requires Valid()
      modifies `services
      ensures Valid() && services == old(services) + registry
    {
      var todo := registry;
      while todo != {}
        invariant todo <= registry && services == old(services) + (registry - todo)
        decreases todo
      {
        var id :| id in todo;
        services := services + {id};
        todo := todo - {id};
      }
    }

    method MergeCalls(caller: string, callees: seq<string>, registry: set<string>)
      requires Valid() && registry <= services && caller in registry
      modifies `calls
      ensures Valid() && calls == old(calls) + CallsOf(caller, callees, registry)
    {
      for i := 0 to |callees|
        invariant Valid() && calls == old(calls) + CallsOf(caller, callees[..i], registry)
      {
        assert callees[..i + 1] == callees[..i] + [callees[i]];
        CallsOfSnoc(caller, callees[..i], callees[i], registry);
        if callees[i] in registry {
          calls := calls + {Call(caller, callees[i])};
        }
      }
      assert callees[..|callees|] == callees;
    }
  }

  ghost function CallsOf(caller: string, callees: seq<string>, registry: set<string>): set<Call> {
    set b | b in callees && b in registry :: Call(caller, b)
  }

  lemma CallsOfSnoc(caller: string, callees: seq<string>, callee: string, registry: set<string>)
    ensures CallsOf(caller, callees + [callee], registry) ==
      CallsOf(caller, callees, registry) + if callee in registry then {Call(caller, callee)} else {}
  {
    assert forall b :: b in callees + [callee] <==> b in callees || b == callee;
  }

  lemma PushedOne(registry: set<string>, g: CascadeMap, caller: string, callees: seq<string>)
    requires caller !in g
    ensures PushedCalls(registry, g[caller := callees]) ==
      PushedCalls(registry, g) + if caller in registry then CallsOf(caller, callees, registry) else {}
  {
  }

  // ---- The query ----

  /** The relationship joins two services, whichever way it points. */
  predicate Links(c: Call, a: string, b: string) {
    c == Call(a, b) || c == Call(b, a)
  }

  /** A match of an undirected variable-length pattern: a walk whose relationships are all different. */
  ghost predicate Trail(calls: set<Call>, p: seq<string>, es: seq<Call>) {
    && |p| == |es| + 1
    && (forall k :: 0 <= k < |es| ==> es[k] in calls && Links(es[k], p[k], p[k + 1]))
    && (forall k, l :: 0 <= k < l < |es| ==> es[k] != es[l])
  }

  ghost predicate Matches(calls: set<Call>, a: string, b: string, hops: nat, p: seq<string>, es: seq<Call>) {
    Trail(calls, p, es) && 1 <= |es| <= hops && p[0] == a && p[|es|] == b
  }

  ghost function Endpoints(calls: set<Call>): set<string> {
    (set c | c in calls :: c.caller) + (set c | c in calls :: c.callee)
  }

  /** `MATCH (a)-[:CALLS*1..hops]-(b) RETURN DISTINCT b.id`. */
  ghost function RelatedServices(calls: set<Call>, a: string, hops: nat): set<string> {
    set b | b in Endpoints(calls) && exists p, es :: Matches(calls, a, b, hops, p, es)
  }

  /** What the clusterer works with: the query at the configured hops, the service itself included. */
  ghost function RelatedOrSelf(calls: set<Call>, hops: nat): Relation {
    (s: string) => RelatedServices(calls, s, hops) + {s}
  }

  /** An undirected walk, relationships free to repeat. */
  ghost predicate Connects(calls: set<Call>, p: seq<string>, a: string, b: string) {
    && |p| > 0 && p[0] == a && p[|p| - 1] == b
    && (forall k :: 0 < k < |p| ==> Adjacent(calls, p[k - 1], p[k]))
  }

  ghost predicate Adjacent(calls: set<Call>, a: string, b: string) {
    Call(a, b) in calls || Call(b, a) in calls
  }

  lemma MatchSymmetric(calls: set<Call>, a: string, b: string, hops: nat, p: seq<string>, es: seq<Call>)
    requires Matches(calls, a, b, hops, p, es)
    ensures a in RelatedServices(calls, b, hops)
  {
    var n := |es|;
    var q := seq(n + 1, k requires 0 <= k <= n => p[n - k]);
    var fs := seq(n, k requires 0 <= k < n => es[n - 1 - k]);
    forall k | 0 <= k < n ensures fs[k] in calls && Links(fs[k], q[k], q[k + 1]) {
      assert es[n - 1 - k] in calls && Links(es[n - 1 - k], p[n - 1 - k], p[n - 1 - k + 1]);
    }
    assert Matches(calls, b, a, hops, q, fs);
    assert Links(es[0], p[0], p[1]);
  }

  /** The relation the clustering theorems need: symmetric and reflexive, for any topology and any hops. */
  lemma RelatedIsSymmetric(calls: set<Call>, hops: nat)
    ensures Symmetric(RelatedOrSelf(calls, hops)) && Reflexive(RelatedOrSelf(calls, hops))
  {
    forall a, b | b in RelatedOrSelf(calls, hops)(a) ensures a in RelatedOrSelf(calls, hops)(b) {
      if a != b {
        var p, es :| Matches(calls, a, b, hops, p, es);
        MatchSymmetric(calls, a, b, hops, p, es);
      }
    }
  }

  /** Cutting out loops turns a walk into one with no service twice. */
  lemma {:induction false} Straighten(calls: set<Call>, p: seq<string>, a: string, b: string) returns (q: seq<string>)
    requires Connects(calls, p, a, b)
    ensures Connects(calls, q, a, b) && |q| <= |p| && Distinct(q)
    decreases |p|
  {
    if i, j :| 0 <= i < j < |p| && p[i] == p[j] {
      var cut := p[..i] + p[j..];
      forall k | 0 < k < |cut| ensures Adjacent(calls, cut[k - 1], cut[k]) {
        if k < i {
          assert cut[k - 1] == p[k - 1] && cut[k] == p[k];
        } else if k == i {
          assert cut[k - 1] == p[i - 1] && cut[k] == p[i];
        } else {
          assert cut[k - 1] == p[k - 1 + j - i] && cut[k] == p[k + j - i];
        }
      }
      q := Straighten(calls, cut, a, b);
    } else {
      q := p;
    }
  }

  /** A walk that meets no service twice uses no relationship twice. */
  lemma StraightIsTrail(calls: set<Call>, p: seq<string>, a: string, b: string) returns (es: seq<Call>)
    requires Connects(calls, p, a, b) && Distinct(p)
    ensures Trail(calls, p, es)
  {
    es := seq(|p| - 1, k requires 0 <= k < |p| - 1 =>
      if Call(p[k], p[k + 1]) in calls then Call(p[k], p[k + 1]) else Call(p[k + 1], p[k]));
    forall k | 0 <= k < |es| ensures es[k] in calls && Links(es[k], p[k], p[k + 1]) {
      assert Adjacent(calls, p[k + 1 - 1], p[k + 1]);
    }
    forall k, l | 0 <= k < l < |es| ensures es[k] != es[l] {
      assert p[k] != p[l] && p[k] != p[l + 1];
    }
  }

  /** The trail query answers by undirected distance: another service is related exactly when
      a walk of at most hops relationships joins the two. */
  lemma RelatedIffWithinHops(calls: set<Call>, a: string, b: string, hops: nat)
    requires a != b
    ensures b in RelatedServices(calls, a, hops) <==> exists p :: Connects(calls, p, a, b) && |p| <= hops + 1
  {
    if b in RelatedServices(calls, a, hops) {
      var p, es :| Matches(calls, a, b, hops, p, es);
      forall k | 0 < k < |p| ensures Adjacent(calls, p[k - 1], p[k]) {
        assert Links(es[k - 1], p[k - 1], p[k - 1 + 1]) && es[k - 1] in calls;
      }
      assert Connects(calls, p, a, b);
    }
    if p :| Connects(calls, p, a, b) && |p| <= hops + 1 {
      var q := Straighten(calls, p, a, b);
      var es := StraightIsTrail(calls, q, a, b);
      assert Matches(calls, a, b, hops, q, es);
      assert Links(es[|es| - 1], q[|es| - 1], q[|es| - 1 + 1]) && es[|es| - 1] in calls;
    }
  }

  /** The query names only services that were pushed. */
  lemma RelatedAreServices(services: set<string>, calls: set<Call>, a: string, hops: nat)
    requires JoinsNodes(services, calls)
    ensures RelatedServices(calls, a, hops) <= services
  {
  }

  // ---- Cascades stay inside the neighbourhood ----

  /** The map names registered services only, as the one built from the registry does. */
  ghost predicate Registered(registry: set<string>, g: CascadeMap) {
    forall a, b :: a in g && b in g[a] ==> a in registry && b in registry
  }

  /** Every service a cascade reaches within maxDepth is related to the root, or is the root. */
  lemma CascadeStaysRelated(registry: set<string>, g: CascadeMap, calls: set<Call>, root: string, x: string, d: nat,
                            hops: nat)
    requires Registered(registry, g) && PushedCalls(registry, g) <= calls
    requires Distance(g, root, x, d) && d <= hops
    ensures x in RelatedOrSelf(calls, hops)(root) && root in RelatedOrSelf(calls, hops)(x)
  {
    if x != root {
      var p :| IsPath(g, p, root, x, d);
      forall k | 0 < k < |p| ensures Adjacent(calls, p[k - 1], p[k]) {
        assert Follows(g, p, k);
        assert p[k - 1] in g && p[k] in g[p[k - 1]] && p[k - 1] in registry && p[k] in registry;
        assert Call(p[k - 1], p[k]) in PushedCalls(registry, g);
      }
      assert Connects(calls, p, root, x);
      RelatedIffWithinHops(calls, root, x, hops);
    }
    RelatedIsSymmetric(calls, hops);
  }
}
