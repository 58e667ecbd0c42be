/** Depth-bounded breadth-first search of the cascade map. */
module Cascade {
  import opened Lists

  type CascadeMap = map<string, seq<string>>

  /** A queue entry: a service and the depth it was queued at. */
  datatype Entry = Entry(service: string, depth: nat)

  /** `cascade_map.get(service, [])`. */
  function Downstream(g: CascadeMap, service: string): seq<string> {
    if service in g then g[service] else []
  }

  /** p steps from a to b along the map, in k steps. */
  ghost predicate IsPath(g: CascadeMap, p: seq<string>, a: string, b: string, k: nat) {
    && |p| == k + 1 && p[0] == a && p[k] == b
    && (forall i :: 0 < i < |p| ==> Follows(g, p, i))
  }

  ghost predicate Follows(g: CascadeMap, p: seq<string>, i: int)
    requires 0 < i < |p|
  {
    p[i - 1] in g && p[i] in g[p[i - 1]]
  }

  /** b can be reached from a in exactly k steps. */
  ghost predicate HasPath(g: CascadeMap, a: string, b: string, k: nat) {
    exists p :: IsPath(g, p, a, b, k)
  }

  lemma PathHere(g: CascadeMap, a: string, b: string)
    ensures HasPath(g, a, b, 0) <==> a == b
  {
    assert IsPath(g, [a], a, a, 0);
  }

  lemma PathStep(g: CascadeMap, a: string, m: string, b: string, k: nat)
    requires HasPath(g, a, m, k) && b in Downstream(g, m)
    ensures HasPath(g, a, b, k + 1)
  {
    var p :| IsPath(g, p, a, m, k);
    var q := p + [b];
    assert forall i :: 0 < i < |p| ==> (Follows(g, q, i) <==> Follows(g, p, i));
    assert IsPath(g, q, a, b, k + 1);
  }

  lemma PathBefore(g: CascadeMap, a: string, b: string, k: nat) returns (m: string)
    requires k > 0 && HasPath(g, a, b, k)
    ensures HasPath(g, a, m, k - 1) && b in Downstream(g, m)
  {
    var p :| IsPath(g, p, a, b, k);
    m := p[k - 1];
    assert Follows(g, p, k);
    assert forall i :: 0 < i < k ==> (Follows(g, p[..k], i) <==> Follows(g, p, i));
    assert IsPath(g, p[..k], a, m, k - 1);
  }

  /** d is the shortest directed distance from a to b. */
  ghost predicate Distance(g: CascadeMap, a: string, b: string, d: nat) {
    HasPath(g, a, b, d) && forall k: nat :: k < d ==> !HasPath(g, a, b, k)
  }

  /** Exactly the services other than the root whose distance from it is between 1 and maxDepth. */
  ghost predicate ListsWithin(g: CascadeMap, root: string, maxDepth: int, affected: seq<string>) {
    forall x :: x in affected <==> x != root && exists d: nat :: 1 <= d <= maxDepth && Distance(g, root, x, d)
  }

  ghost predicate NearestFirst(g: CascadeMap, root: string, affected: seq<string>) {
    forall i, j, di: nat, dj: nat ::
      0 <= i < j < |affected| && Distance(g, root, affected[i], di) && Distance(g, root, affected[j], dj) ==> di <= dj
  }

  // ---- Search state ----

  /** The entries queued, when a service of this depth is visited, for its downstream services not visited yet. */
  function Queued(ds: seq<string>, visited: set<string>, depth: nat): seq<Entry> {
    if ds == [] then []
    else
      var x := ds[|ds| - 1];
      Queued(ds[..|ds| - 1], visited, depth) + if x in visited then [] else [Entry(x, depth + 1)]
  }

  lemma {:induction false} QueuedShape(ds: seq<string>, visited: set<string>, depth: nat)
    ensures var q := Queued(ds, visited, depth);
            && (forall j :: 0 <= j < |q| ==> q[j].depth == depth + 1 && q[j].service in ds)
            && (forall w :: w in ds && w !in visited ==> exists j :: 0 <= j < |q| && q[j].service == w)
  {
    if ds != [] {
      var n := |ds| - 1;
      var x := ds[n];
      QueuedShape(ds[..n], visited, depth);
      var q, q' := Queued(ds, visited, depth), Queued(ds[..n], visited, depth);
      assert forall j :: 0 <= j < |q'| ==> q[j] == q'[j];
      forall w | w in ds && w !in visited ensures exists j :: 0 <= j < |q| && q[j].service == w {
        if w == x {
          assert q[|q'|].service == w;
        } else {
          assert w in ds[..n];
          var j :| 0 <= j < |q'| && q'[j].service == w;
          assert q[j].service == w;
        }
      }
    }
  }

  /** The first m entries have depth d, the others depth d + 1. */
  ghost predicate Split(queue: seq<Entry>, d: nat, m: nat) {
    && m <= |queue|
    && (forall i :: 0 <= i < m ==> queue[i].depth == d)
    && (forall i :: m <= i < |queue| ==> queue[i].depth == d + 1)
  }

  /** The queue holds one level of the search, then the next. */
  ghost predicate Layered(queue: seq<Entry>) {
    queue == [] || exists m: nat :: Split(queue, queue[0].depth, m)
  }

  /** w is visited, or waits in the queue, at depth at most d. */
  ghost predicate Settled(queue: seq<Entry>, dist: map<string, nat>, w: string, d: nat) {
    (w in dist && dist[w] <= d) || exists i :: 0 <= i < |queue| && queue[i].service == w && queue[i].depth <= d
  }

  /** Every service downstream of a visited one above the depth bound is settled one level on. */
  ghost predicate Expanded(g: CascadeMap, maxDepth: int, queue: seq<Entry>, dist: map<string, nat>) {
    forall v, w :: v in dist && dist[v] < maxDepth && w in Downstream(g, v) ==> Settled(queue, dist, w, dist[v] + 1)
  }

  ghost predicate Sound(g: CascadeMap, root: string, maxDepth: int, queue: seq<Entry>, dist: map<string, nat>) {
    && (forall i :: 0 <= i < |queue| ==> HasPath(g, root, queue[i].service, queue[i].depth))
    && (forall v :: v in dist ==> HasPath(g, root, v, dist[v]) && dist[v] <= maxDepth)
    && (queue != [] ==> forall v :: v in dist ==> dist[v] <= queue[0].depth)
  }

  /** The result lists the visited services other than the root, once each, in order of depth. */
  ghost predicate Reported(root: string, affected: seq<string>, dist: map<string, nat>, depth: nat) {
    if affected == [] then dist.Keys <= {root}
    else
      var n := |affected| - 1;
      var x := affected[n];
      && x in dist && x != root && dist[x] <= depth
      && Reported(root, affected[..n], dist - {x}, dist[x])
  }

  /** All services affected by a failure at the root: exactly those within max_depth directed
      steps, each once, nearest first. */
  method GetAffectedServices(root: string, g: CascadeMap, maxDepth: int) returns (affected: seq<string>)
    ensures Distinct(affected) && ListsWithin(g, root, maxDepth, affected) && NearestFirst(g, root, affected)
  {
    affected := [];
    var visited: set<string> := {};
    var queue: seq<Entry> := [Entry(root, 0)];
    ghost var dist: map<string, nat> := map[];
    ghost var depth: nat := 0;
    Start(g, root, maxDepth);
    while queue != []
      invariant visited == dist.Keys
      invariant Searching(g, root, maxDepth, queue, dist)
      invariant queue != [] ==> depth <= queue[0].depth
      invariant Reported(root, affected, dist, depth)
      decreases |g.Keys - visited|, |queue|
    {
      var Entry(current, d) := queue[0];
      if current in visited || d > maxDepth {
        Popped(g, root, maxDepth, queue, dist);
        queue := queue[1..];
        continue;
      }
      Fewer(g.Keys, visited, current);
      AlsoReported(root, affected, dist, depth, current, d);
      visited := visited + {current};
      if current != root {
        affected := affected + [current];
      }
      var grown := Enqueue(queue[1..], Downstream(g, current), visited, d);
      AlsoSearching(g, root, maxDepth, queue, dist, visited, grown);
      queue, dist, depth := grown, dist[current := d], d;
    }
    Finished(g, root, maxDepth, affected, dist, depth);
  }

  /** Appends the downstream services not visited yet, however often they wait in the queue already. */
  method Enqueue(queue: seq<Entry>, ds: seq<string>, visited: set<string>, depth: nat) returns (grown: seq<Entry>)
    ensures grown == queue + Queued(ds, visited, depth)
  {
    grown := queue;
    for i := 0 to |ds|
      invariant grown == queue + Queued(ds[..i], visited, depth)
    {
      assert ds[..i + 1][..i] == ds[..i];
      if ds[i] !in visited {
        grown := grown + [Entry(ds[i], depth + 1)];
      }
    }
    assert ds[..|ds|] == ds;
  }

  lemma Fewer(keys: set<string>, visited: set<string>, x: string)
    requires x !in visited
    ensures |keys - (visited + {x})| <= |keys - visited|
    ensures x in keys ==> |keys - (visited + {x})| < |keys - visited|
    ensures x !in keys ==> keys - (visited + {x}) == keys - visited
  {
    var rest := keys - (visited + {x});
    if x in keys {
      assert rest < keys - visited;
      Smaller(rest, keys - visited);
    } else {
      assert rest == keys - visited;
    }
  }

  lemma Smaller<T>(a: set<T>, b: set<T>)
    requires a < b
    ensures |a| < |b|
  {
    var x :| x in b && x !in a;
    assert a <= b - {x};
    SubsetSize(a, b - {x});
  }

  lemma {:induction false} SubsetSize<T>(a: set<T>, b: set<T>)
    requires a <= b
    ensures |a| <= |b|
  {
    if a != {} {
      var x :| x in a;
      SubsetSize(a - {x}, b - {x});
    }
  }

  /** Popping an entry that is visited already, or lies too deep, loses nothing. */
  lemma Popped(g: CascadeMap, root: string, maxDepth: int, queue: seq<Entry>, dist: map<string, nat>)
    requires queue != [] && Searching(g, root, maxDepth, queue, dist)
    requires queue[0].service in dist || queue[0].depth > maxDepth
    ensures Searching(g, root, maxDepth, queue[1..], dist)
    ensures queue[1..] != [] ==> queue[0].depth <= queue[1..][0].depth
  {
    var rest := queue[1..];
    assert forall i :: 0 <= i < |rest| ==> rest[i] == queue[i + 1];
    assert rest != [] ==> rest[0] == queue[1];
    var m: nat :| Split(queue, queue[0].depth, m);
    if m > 1 {
      assert Split(rest, queue[0].depth, m - 1);
    } else if rest != [] {
      assert Split(rest, queue[0].depth + 1, |rest|);
    }
    forall w, d: nat | Settled(queue, dist, w, d) && d <= maxDepth ensures Settled(rest, dist, w, d) {
      if !(w in dist && dist[w] <= d) {
        var i :| 0 <= i < |queue| && queue[i].service == w && queue[i].depth <= d;
        if i > 0 { assert rest[i - 1] == queue[i]; }
      }
    }
  }

  /** The queue after visiting the popped entry. */
  ghost function Grown(g: CascadeMap, queue: seq<Entry>, visited: set<string>): seq<Entry>
    requires queue != []
  {
    queue[1..] + Queued(Downstream(g, queue[0].service), visited, queue[0].depth)
  }

  lemma GrownShape(g: CascadeMap, queue: seq<Entry>, visited: set<string>)
    requires queue != []
    ensures var grown, n := Grown(g, queue, visited), |queue| - 1;
            && |grown| >= n
            && (forall j :: 0 <= j < n ==> grown[j] == queue[j + 1])
            && (forall j :: n <= j < |grown| ==>
                  grown[j].depth == queue[0].depth + 1 && grown[j].service in Downstream(g, queue[0].service))
            && (forall w :: w in Downstream(g, queue[0].service) && w !in visited ==>
                  exists j :: 0 <= j < |grown| && grown[j].service == w && grown[j].depth <= queue[0].depth + 1)
  {
    var grown, n := Grown(g, queue, visited), |queue| - 1;
    var q := Queued(Downstream(g, queue[0].service), visited, queue[0].depth);
    QueuedShape(Downstream(g, queue[0].service), visited, queue[0].depth);
    assert forall j :: n <= j < |grown| ==> grown[j] == q[j - n];
    forall w | w in Downstream(g, queue[0].service) && w !in visited
      ensures exists j :: 0 <= j < |grown| && grown[j].service == w && grown[j].depth <= queue[0].depth + 1
    {
      var j :| 0 <= j < |q| && q[j].service == w;
      assert grown[n + j] == q[j];
    }
  }

  lemma StaysSettled(g: CascadeMap, queue: seq<Entry>, dist: map<string, nat>, w: string, e: nat)
    requires queue != [] && queue[0].service !in dist && Settled(queue, dist, w, e)
    ensures var dist' := dist[queue[0].service := queue[0].depth];
            Settled(Grown(g, queue, dist'.Keys), dist', w, e)
  {
    var dist' := dist[queue[0].service := queue[0].depth];
    GrownShape(g, queue, dist'.Keys);
    var grown := Grown(g, queue, dist'.Keys);
    if !(w in dist && dist[w] <= e) {
      var i :| 0 <= i < |queue| && queue[i].service == w && queue[i].depth <= e;
      if i > 0 { assert grown[i - 1] == queue[i]; }
    }
  }

  lemma VisitedExpanded(g: CascadeMap, maxDepth: int, queue: seq<Entry>, dist: map<string, nat>)
    requires queue != [] && queue[0].service !in dist && Expanded(g, maxDepth, queue, dist)
    requires forall v :: v in dist ==> dist[v] <= queue[0].depth
    ensures var dist' := dist[queue[0].service := queue[0].depth];
            Expanded(g, maxDepth, Grown(g, queue, dist'.Keys), dist')
  {
    var dist' := dist[queue[0].service := queue[0].depth];
    var grown := Grown(g, queue, dist'.Keys);
    forall v, w | v in dist' && dist'[v] < maxDepth && w in Downstream(g, v)
      ensures Settled(grown, dist', w, dist'[v] + 1)
    {
      if v == queue[0].service {
        GrownShape(g, queue, dist'.Keys);
      } else {
        StaysSettled(g, queue, dist, w, dist[v] + 1);
      }
    }
  }

  lemma VisitedLayered(g: CascadeMap, queue: seq<Entry>, visited: set<string>)
    requires queue != [] && Layered(queue)
    ensures Layered(Grown(g, queue, visited))
    ensures Grown(g, queue, visited) != [] ==> queue[0].depth <= Grown(g, queue, visited)[0].depth
  {
    GrownShape(g, queue, visited);
    var grown, d := Grown(g, queue, visited), queue[0].depth;
    var m: nat :| Split(queue, d, m);
    assert m >= 1 && (|queue| > 1 ==> grown[0] == queue[1]);
    if m > 1 {
      assert Split(grown, d, m - 1);
    } else if grown != [] {
      assert Split(grown, d + 1, |grown|);
    }
  }

  lemma VisitedSound(g: CascadeMap, root: string, maxDepth: int, queue: seq<Entry>, dist: map<string, nat>)
    requires queue != [] && Layered(queue) && Sound(g, root, maxDepth, queue, dist)
    requires queue[0].service !in dist && queue[0].depth <= maxDepth
    ensures var dist' := dist[queue[0].service := queue[0].depth];
            Sound(g, root, maxDepth, Grown(g, queue, dist'.Keys), dist')
  {
    var dist' := dist[queue[0].service := queue[0].depth];
    var grown := Grown(g, queue, dist'.Keys);
    GrownShape(g, queue, dist'.Keys);
    VisitedLayered(g, queue, dist'.Keys);
    forall i | 0 <= i < |grown| ensures HasPath(g, root, grown[i].service, grown[i].depth) {
      if i < |queue| - 1 {
        assert grown[i] == queue[i + 1];
      } else {
        PathStep(g, root, queue[0].service, grown[i].service, queue[0].depth);
      }
    }
  }

  ghost predicate Searching(g: CascadeMap, root: string, maxDepth: int, queue: seq<Entry>, dist: map<string, nat>) {
    && Layered(queue)
    && Sound(g, root, maxDepth, queue, dist)
    && Expanded(g, maxDepth, queue, dist)
    && (Settled(queue, dist, root, 0) || maxDepth < 0)
  }

  lemma Start(g: CascadeMap, root: string, maxDepth: int)
    ensures Searching(g, root, maxDepth, [Entry(root, 0)], map[])
    ensures Reported(root, [], map[], 0)
  {
    PathHere(g, root, root);
    var queue: seq<Entry> := [Entry(root, 0)];
    assert queue[0].service == root && queue[0].depth <= 0;
    assert Split(queue, 0, 1);
  }

  /** Visiting the popped entry, with its downstream services appended, keeps the search state. */
  lemma Visited(g: CascadeMap, root: string, maxDepth: int, queue: seq<Entry>, dist: map<string, nat>)
    requires queue != [] && Searching(g, root, maxDepth, queue, dist)
    requires queue[0].service !in dist && queue[0].depth <= maxDepth
    ensures var dist' := dist[queue[0].service := queue[0].depth];
            var grown := Grown(g, queue, dist'.Keys);
            && Searching(g, root, maxDepth, grown, dist')
            && (grown != [] ==> queue[0].depth <= grown[0].depth)
  {
    VisitedLayered(g, queue, dist[queue[0].service := queue[0].depth].Keys);
    VisitedSound(g, root, maxDepth, queue, dist);
    VisitedExpanded(g, maxDepth, queue, dist);
    if maxDepth >= 0 { StaysSettled(g, queue, dist, root, 0); }
  }

  lemma AlsoSearching(g: CascadeMap, root: string, maxDepth: int, queue: seq<Entry>, dist: map<string, nat>,
                      visited: set<string>, grown: seq<Entry>)
    requires queue != [] && Searching(g, root, maxDepth, queue, dist)
    requires queue[0].service !in dist && queue[0].depth <= maxDepth
    requires visited == dist.Keys + {queue[0].service} && grown == Grown(g, queue, visited)
    ensures var dist' := dist[queue[0].service := queue[0].depth];
            && Searching(g, root, maxDepth, grown, dist') && visited == dist'.Keys
            && (grown != [] ==> queue[0].depth <= grown[0].depth)
  {
    assert visited == dist[queue[0].service := queue[0].depth].Keys;
    Visited(g, root, maxDepth, queue, dist);
  }

  lemma {:induction false} ReportedRoot(root: string, affected: seq<string>, dist: map<string, nat>, depth: nat,
                                        e: nat, d: nat)
    requires Reported(root, affected, dist, depth) && depth <= d
    ensures Reported(root, affected, dist, d)
    ensures root !in dist ==> Reported(root, affected, dist[root := e], d)
  {
    if affected != [] {
      var n := |affected| - 1;
      var x := affected[n];
      ReportedRoot(root, affected[..n], dist - {x}, dist[x], e, dist[x]);
      assert (dist - {x})[root := e] == dist[root := e] - {x};
    }
  }

  lemma AlsoReported(root: string, affected: seq<string>, dist: map<string, nat>, depth: nat, current: string, d: nat)
    requires Reported(root, affected, dist, depth) && current !in dist && depth <= d
    ensures Reported(root, if current == root then affected else affected + [current], dist[current := d], d)
  {
    ReportedRoot(root, affected, dist, depth, d, d);
    if current != root {
      assert (affected + [current])[..|affected|] == affected;
      assert dist[current := d] - {current} == dist;
    }
  }

  lemma {:induction false} ReportedMeans(root: string, affected: seq<string>, dist: map<string, nat>, depth: nat)
    requires Reported(root, affected, dist, depth)
    ensures Distinct(affected)
    ensures forall x :: x in affected <==> x in dist && x != root
    ensures forall i, j :: 0 <= i <= j < |affected| ==>
      affected[i] in dist && affected[j] in dist && dist[affected[i]] <= dist[affected[j]] <= depth
  {
    if affected != [] {
      var n := |affected| - 1;
      ReportedMeans(root, affected[..n], dist - {affected[n]}, dist[affected[n]]);
      MeansSnoc(root, affected[..n], affected[n], dist, depth);
      assert affected == affected[..n] + [affected[n]];
    }
  }

  lemma MeansSnoc(root: string, rest: seq<string>, x: string, dist: map<string, nat>, depth: nat)
    requires x in dist && x != root && dist[x] <= depth
    requires Distinct(rest) && forall y :: y in rest <==> y in dist && y != x && y != root
    requires forall i, j :: 0 <= i <= j < |rest| ==>
      rest[i] in dist && rest[j] in dist && dist[rest[i]] <= dist[rest[j]] <= dist[x]
    ensures var affected := rest + [x];
            && Distinct(affected)
            && (forall y :: y in affected <==> y in dist && y != root)
            && (forall i, j :: 0 <= i <= j < |affected| ==>
                  affected[i] in dist && affected[j] in dist && dist[affected[i]] <= dist[affected[j]] <= depth)
  {
    assert forall i :: 0 <= i < |rest| ==> rest[i] in rest;
  }

  /** With an empty queue the recorded depths are the distances, up to the bound. */
  lemma {:induction false} ReachedWithin(g: CascadeMap, root: string, maxDepth: int, dist: map<string, nat>,
                                         x: string, k: nat)
    requires Sound(g, root, maxDepth, [], dist) && Expanded(g, maxDepth, [], dist)
    requires Settled([], dist, root, 0)
    requires HasPath(g, root, x, k) && k <= maxDepth
    ensures x in dist && dist[x] <= k
    decreases k
  {
    PathHere(g, root, x);
    if k > 0 {
      var m := PathBefore(g, root, x, k);
      ReachedWithin(g, root, maxDepth, dist, m, k - 1);
      assert Settled([], dist, x, dist[m] + 1);
    }
  }

  lemma Exact(g: CascadeMap, root: string, maxDepth: int, dist: map<string, nat>)
    requires Sound(g, root, maxDepth, [], dist) && Expanded(g, maxDepth, [], dist)
    requires Settled([], dist, root, 0) || maxDepth < 0
    ensures forall x, d: nat :: d <= maxDepth ==> (Distance(g, root, x, d) <==> x in dist && dist[x] == d)
    ensures forall x :: x in dist ==> dist[x] <= maxDepth
  {
    forall x, d: nat | d <= maxDepth ensures Distance(g, root, x, d) <==> x in dist && dist[x] == d {
      if Distance(g, root, x, d) {
        ReachedWithin(g, root, maxDepth, dist, x, d);
      }
      if x in dist && dist[x] == d {
        forall k: nat | k < d ensures !HasPath(g, root, x, k) {
          if HasPath(g, root, x, k) { ReachedWithin(g, root, maxDepth, dist, x, k); }
        }
      }
    }
  }

  lemma DistanceUnique(g: CascadeMap, a: string, b: string, d: nat, e: nat)
    requires Distance(g, a, b, d) && Distance(g, a, b, e)
    ensures d == e
  {
  }

  /** When the queue has run empty, the reported list is the answer. */
  lemma Finished(g: CascadeMap, root: string, maxDepth: int, affected: seq<string>, dist: map<string, nat>, depth: nat)
    requires Searching(g, root, maxDepth, [], dist) && Reported(root, affected, dist, depth)
    ensures Distinct(affected) && ListsWithin(g, root, maxDepth, affected) && NearestFirst(g, root, affected)
  {
    ReportedMeans(root, affected, dist, depth);
    Exact(g, root, maxDepth, dist);
    forall x ensures x in affected <==> x != root && exists d: nat :: 1 <= d <= maxDepth && Distance(g, root, x, d) {
      if x in affected {
        assert Distance(g, root, x, dist[x]);
        PathHere(g, root, x);
      }
    }
    forall i, j, di: nat, dj: nat |
      0 <= i < j < |affected| && Distance(g, root, affected[i], di) && Distance(g, root, affected[j], dj)
      ensures di <= dj
    {
      DistanceUnique(g, root, affected[i], di, dist[affected[i]]);
      DistanceUnique(g, root, affected[j], dj, dist[affected[j]]);
    }
  }
}
