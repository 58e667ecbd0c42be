/** Walks and connected components in the "related services" relation. */
module Walks {

  /** The services related to a service, itself included. */
  type Relation = string -> set<string>

  ghost predicate Symmetric(rel: Relation) {
    forall a, b :: b in rel(a) ==> a in rel(b)
  }

  ghost predicate Reflexive(rel: Relation) {
    forall a :: a in rel(a)
  }

  /** A walk that stays inside dom. */
  ghost predicate Walk(rel: Relation, dom: set<string>, p: seq<string>) {
    && |p| > 0
    && (forall k :: 0 <= k < |p| ==> p[k] in dom)
    && (forall k :: 0 < k < |p| ==> p[k] in rel(p[k - 1]))
  }

  ghost predicate Joins(rel: Relation, dom: set<string>, p: seq<string>, a: string, b: string) {
    Walk(rel, dom, p) && p[0] == a && p[|p| - 1] == b
  }

  ghost predicate Reachable(rel: Relation, dom: set<string>, a: string, b: string) {
    exists p :: Joins(rel, dom, p, a, b)
  }

  ghost predicate Connected(rel: Relation, dom: set<string>) {
    forall a, b :: a in dom && b in dom ==> Reachable(rel, dom, a, b)
  }

  /** The connected component of a in the graph induced on dom. */
  ghost function Component(rel: Relation, dom: set<string>, a: string): set<string> {
    set b | b in dom && Reachable(rel, dom, a, b)
  }

  ghost function Components(rel: Relation, dom: set<string>): set<set<string>> {
    set a | a in dom :: Component(rel, dom, a)
  }

  /** No service of one set is related to a service of the other. */
  ghost predicate Apart(rel: Relation, c: set<string>, d: set<string>) {
    forall a, b :: a in c && b in d ==> b !in rel(a)
  }

  lemma ReachSelf(rel: Relation, dom: set<string>, a: string)
    requires a in dom
    ensures Reachable(rel, dom, a, a)
  {
    assert Joins(rel, dom, [a], a, a);
  }

  lemma ReachStep(rel: Relation, dom: set<string>, a: string, b: string, c: string)
    requires Reachable(rel, dom, a, b) && c in rel(b) && c in dom
    ensures Reachable(rel, dom, a, c)
  {
    var p :| Joins(rel, dom, p, a, b);
    assert Joins(rel, dom, p + [c], a, c);
  }

  lemma ReachTransitive(rel: Relation, dom: set<string>, a: string, b: string, c: string)
    requires Reachable(rel, dom, a, b) && Reachable(rel, dom, b, c)
    ensures Reachable(rel, dom, a, c)
  {
    var p :| Joins(rel, dom, p, a, b);
    var q :| Joins(rel, dom, q, b, c);
    var r := p + q[1..];
    forall k | 0 < k < |r| ensures r[k] in rel(r[k - 1]) {
      if k >= |p| {
        assert r[k] == q[k - |p| + 1];
        assert r[k - 1] == q[k - |p|];
      }
    }
    assert Joins(rel, dom, r, a, c);
  }

  lemma ReachWiden(rel: Relation, dom: set<string>, wide: set<string>, a: string, b: string)
    requires Reachable(rel, dom, a, b) && dom <= wide
    ensures Reachable(rel, wide, a, b)
  {
    var p :| Joins(rel, dom, p, a, b);
    assert Joins(rel, wide, p, a, b);
  }

  lemma ReachBack(rel: Relation, dom: set<string>, a: string, b: string)
    requires Symmetric(rel) && Reachable(rel, dom, a, b)
    ensures Reachable(rel, dom, b, a)
  {
    var p :| Joins(rel, dom, p, a, b);
    var n := |p|;
    var r := seq(n, k requires 0 <= k < n => p[n - 1 - k]);
    forall k | 0 < k < n ensures r[k] in rel(r[k - 1]) {
      assert p[n - k] in rel(p[n - k - 1]);
    }
    assert Joins(rel, dom, r, b, a);
  }

  /** A walk that starts in a set closed under dom's edges never leaves it. */
  lemma {:induction false} ClosedContains(rel: Relation, dom: set<string>, closed: set<string>, p: seq<string>)
    requires Walk(rel, dom, p) && p[0] in closed
    requires forall a, b :: a in closed && b in rel(a) && b in dom ==> b in closed
    ensures forall k :: 0 <= k < |p| ==> p[k] in closed
  {
    if |p| > 1 {
      ClosedContains(rel, dom, closed, p[..|p| - 1]);
      assert p[..|p| - 1][|p| - 2] == p[|p| - 2];
      assert p[|p| - 1] in rel(p[|p| - 2]);
      forall k | 0 <= k < |p| ensures p[k] in closed {
        if k < |p| - 1 { assert p[..|p| - 1][k] == p[k]; }
      }
    }
  }
}
