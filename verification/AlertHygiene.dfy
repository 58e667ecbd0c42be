/** Which incidents are acted on: redeliveries, stale ones and repeats of a handled fault are not. */
module AlertHygiene {
  import opened Lists
  import opened Options

  /** Any key may be missing from the message. */
  datatype Incident = Incident(id: Option<string>, closedAt: Option<int>, rootCause: Option<string>,
                               severity: Option<int>)

  /** `severity or 0`. */
  function Severity(i: Incident): int {
    if i.severity.Some? then i.severity.value else 0
  }

  datatype Config = Config(cooldown: int, maxAge: int, maxSeen: nat)

  datatype Acted = Acted(at: int, severity: int)

  datatype Filter = Filter(seen: seq<Option<string>>, last: map<Option<string>, Acted>)

  datatype Verdict = Act | Duplicate | Stale | Cooldown

  predicate HoldsBack(c: Config, last: Acted, now: int, i: Incident) {
    now - last.at < c.cooldown && Severity(i) <= last.severity
  }

  function Decide(c: Config, f: Filter, now: int, i: Incident): Verdict {
    if i.id in f.seen then Duplicate
    else if i.closedAt.Some? && now - i.closedAt.value > c.maxAge then Stale
    else if i.rootCause in f.last && HoldsBack(c, f.last[i.rootCause], now, i) then Cooldown
    else Act
  }

  /** The newest `bound` elements. */
  function Newest<T>(bound: nat, s: seq<T>): seq<T> {
    if |s| <= bound then s else s[|s| - bound..]
  }

  function Checked(c: Config, f: Filter, now: int, i: Incident): Filter {
    Filter(if i.id in f.seen then f.seen else Newest(c.maxSeen, f.seen + [i.id]),
           if Decide(c, f, now, i) == Act then f.last[i.rootCause := Acted(now, Severity(i))] else f.last)
  }

  class IncidentFilter {
    const config: Config
    var seen: seq<Option<string>>
    var last: map<Option<string>, Acted>

    ghost function View(): Filter
      reads this
    {
      Filter(seen, last)
    }

    constructor (config: Config)
      ensures this.config == config && View() == Filter([], map[])
    {
      this.config := config;
      seen, last := [], map[];
    }

    method Check(now: int, incident: Incident) returns (verdict: Verdict)
      modifies this
      ensures verdict == Decide(config, old(View()), now, incident)
      ensures View() == Checked(config, old(View()), now, incident)
      ensures verdict == Duplicate <==> incident.id in old(seen)
      ensures verdict == Stale <==>
        && incident.id !in old(seen)
        && incident.closedAt.Some? && now - incident.closedAt.value > config.maxAge
      ensures verdict == Cooldown ==> incident.rootCause in old(last)
      ensures verdict in {Act, Cooldown} && incident.rootCause in old(last) ==>
        (verdict == Cooldown <==>
         && now - old(last)[incident.rootCause].at < config.cooldown
         && (if incident.severity == None then 0 else incident.severity.value)
            <= old(last)[incident.rootCause].severity)
      ensures last ==
        if verdict != Act then old(last)
        else
          old(last)[incident.rootCause := Acted(now, if incident.severity == None then 0 else incident.severity.value)]
      ensures seen ==
        if verdict == Duplicate then old(seen)
        else if |old(seen)| < config.maxSeen then old(seen) + [incident.id]
        else (old(seen) + [incident.id])[|old(seen)| + 1 - config.maxSeen..]
    {
      if incident.id in seen {
        return Duplicate;
      }
      seen := seen + [incident.id];
      while |seen| > config.maxSeen
        invariant last == old(last)
        invariant Newest(config.maxSeen, seen) == Newest(config.maxSeen, old(seen) + [incident.id])
      {
        seen := seen[1..];
      }
      if incident.closedAt.Some? && now - incident.closedAt.value > config.maxAge {
        return Stale;
      }
      var severity := Severity(incident);
      if incident.rootCause in last {
        var acted := last[incident.rootCause];
        if now - acted.at < config.cooldown && severity <= acted.severity {
          return Cooldown;
        }
      }
      last := last[incident.rootCause := Acted(now, severity)];
      return Act;
    }
  }

  // ---- Runs ----

  datatype Event = Event(now: int, incident: Incident)

  function After(c: Config, es: seq<Event>): Filter {
    if es == [] then Filter([], map[])
    else Checked(c, After(c, es[..|es| - 1]), es[|es| - 1].now, es[|es| - 1].incident)
  }

  /** What the k-th check said. */
  function VerdictAt(c: Config, es: seq<Event>, k: nat): Verdict
    requires k < |es|
  {
    Decide(c, After(c, es[..k]), es[k].now, es[k].incident)
  }

  /** The clock never goes back. */
  ghost predicate Ordered(es: seq<Event>) {
    es != [] ==> Ordered(es[..|es| - 1]) && forall i: nat :: i < |es| ==> es[i].now <= es[|es| - 1].now
  }

  // ---- Duplicates ----

  /** Every id recorded so far, oldest first, whatever was evicted since. */
  function Recorded(c: Config, es: seq<Event>): seq<Option<string>> {
    if es == [] then []
    else
      var before := Recorded(c, es[..|es| - 1]);
      if VerdictAt(c, es, |es| - 1) == Duplicate then before else before + [es[|es| - 1].incident.id]
  }

  /** The filter remembers exactly the newest maxSeen ids recorded. */
  lemma {:induction false} SeenIsNewest(c: Config, es: seq<Event>)
    ensures After(c, es).seen == Newest(c.maxSeen, Recorded(c, es))
  {
    if es != [] {
      SeenIsNewest(c, es[..|es| - 1]);
      var r, id := Recorded(c, es[..|es| - 1]), es[|es| - 1].incident.id;
      assert Newest(c.maxSeen, Newest(c.maxSeen, r) + [id]) == Newest(c.maxSeen, r + [id]);
    }
  }

  /** So a check calls its incident a duplicate exactly if the id is one of those. */
  lemma DuplicateIff(c: Config, es: seq<Event>, k: nat)
    requires k < |es|
    ensures VerdictAt(c, es, k) == Duplicate <==> es[k].incident.id in Newest(c.maxSeen, Recorded(c, es[..k]))
  {
    SeenIsNewest(c, es[..k]);
  }

  /** Ids recorded less than maxSeen apart are different. */
  lemma {:induction false} RecordedDiffer(c: Config, es: seq<Event>, i: nat, j: nat)
    requires i < j < |Recorded(c, es)| && j - i <= c.maxSeen
    ensures Recorded(c, es)[i] != Recorded(c, es)[j]
  {
    var n := |es| - 1;
    var r := Recorded(c, es[..n]);
    if j < |r| {
      RecordedDiffer(c, es[..n], i, j);
    } else {
      DuplicateIff(c, es, n);
      assert Newest(c.maxSeen, r)[i - (|r| - |Newest(c.maxSeen, r)|)] == r[i];
    }
  }

  /** What was recorded after the i-th check and before the j-th. */
  function Between(c: Config, es: seq<Event>, i: nat, j: nat): seq<Option<string>>
    requires i < j <= |es|
  {
    var p, upTo := |Recorded(c, es[..i + 1])|, Recorded(c, es[..j]);
    if p <= |upTo| then upTo[p..] else []
  }

  lemma {:induction false} RecordedGrows(c: Config, es: seq<Event>, i: nat)
    requires i <= |es|
    ensures Recorded(c, es[..i]) <= Recorded(c, es)
  {
    if i < |es| {
      assert es[..|es| - 1][..i] == es[..i];
      RecordedGrows(c, es[..|es| - 1], i);
    } else {
      assert es[..i] == es;
    }
  }

  lemma WindowDistinct(c: Config, es: seq<Event>, p: nat, n: nat)
    requires p + n <= |Recorded(c, es)| && n <= c.maxSeen + 1
    ensures Distinct(Recorded(c, es)[p..p + n])
  {
    var window := Recorded(c, es)[p..p + n];
    forall a, b | 0 <= a < b < |window| ensures window[a] != window[b] {
      RecordedDiffer(c, es, p + a, p + b);
    }
  }

  lemma NewestHas<T>(bound: nat, s: seq<T>, p: nat)
    requires p < |s|
    ensures p + bound >= |s| ==> s[p] in Newest(bound, s)
  {
    if p + bound >= |s| {
      assert Newest(bound, s)[p - (|s| - |Newest(bound, s)|)] == s[p];
    }
  }

  /** The first n are pairwise different, and none of them is x. */
  ghost predicate StartsWithOthers<T(!new)>(s: seq<T>, n: nat, x: T) {
    |s| >= n && x !in s[..n] && Distinct(s[..n])
  }

  lemma AfterHead<T(!new)>(s: seq<T>, p: nat, n: nat)
    requires p + n < |s| && Distinct(s[p..p + (n + 1)])
    ensures StartsWithOthers(s[p + 1..], n, s[p])
  {
    var window := s[p..p + (n + 1)];
    assert s[p + 1..][..n] == window[1..] && window[0] == s[p];
  }

  /** The id the i-th check recorded, at its place in what is recorded later. */
  lemma RecordedAt(c: Config, es: seq<Event>, i: nat)
    requires i < |es| && VerdictAt(c, es, i) != Duplicate
    ensures var p := |Recorded(c, es[..i + 1])| - 1;
            0 <= p < |Recorded(c, es)| && Recorded(c, es)[p] == es[i].incident.id
  {
    assert es[..i + 1][..i] == es[..i];
    var before := Recorded(c, es[..i + 1]);
    assert before[|before| - 1] == es[i].incident.id;
    RecordedGrows(c, es, i + 1);
  }

  lemma PassedFar(c: Config, es: seq<Event>, i: nat, j: nat)
    requires i < j < |es| && es[i].incident.id == es[j].incident.id
    requires VerdictAt(c, es, i) != Duplicate && VerdictAt(c, es, j) != Duplicate
    ensures var p, upTo := |Recorded(c, es[..i + 1])| - 1, Recorded(c, es[..j]);
            0 <= p && p + c.maxSeen < |upTo| && upTo[p] == es[i].incident.id
  {
    var upTo, p := Recorded(c, es[..j]), |Recorded(c, es[..i + 1])| - 1;
    assert es[..j][..i + 1] == es[..i + 1] && es[..j][..i] == es[..i];
    RecordedAt(c, es[..j], i);
    DuplicateIff(c, es, j);
    NewestHas(c.maxSeen, upTo, p);
  }

  /** An id is let past the duplicate test twice only if maxSeen others, all different, were
      recorded in between. */
  lemma PassedTwice(c: Config, es: seq<Event>, i: nat, j: nat)
    requires i < j < |es| && es[i].incident.id == es[j].incident.id
    requires VerdictAt(c, es, i) != Duplicate && VerdictAt(c, es, j) != Duplicate
    ensures StartsWithOthers(Between(c, es, i, j), c.maxSeen, es[i].incident.id)
  {
    PassedFar(c, es, i, j);
    var p := |Recorded(c, es[..i + 1])| - 1;
    WindowDistinct(c, es[..j], p, c.maxSeen + 1);
    AfterHead(Recorded(c, es[..j]), p, c.maxSeen);
  }

  // ---- The cooldown ----

  /** The k-th check acted on this root cause. */
  predicate ActsOn(c: Config, es: seq<Event>, k: nat, root: Option<string>) {
    k < |es| && VerdictAt(c, es, k) == Act && es[k].incident.rootCause == root
  }

  lemma ActsOnPrefix(c: Config, es: seq<Event>, k: nat, n: nat, root: Option<string>)
    requires k < n <= |es|
    ensures ActsOn(c, es[..n], k, root) == ActsOn(c, es, k, root)
  {
    assert es[..n][..k] == es[..k];
  }

  lemma {:induction false} LastIsAnAct(c: Config, es: seq<Event>, root: Option<string>) returns (i: nat)
    requires root in After(c, es).last
    ensures ActsOn(c, es, i, root) && After(c, es).last[root] == Acted(es[i].now, Severity(es[i].incident))
  {
    var n := |es| - 1;
    if VerdictAt(c, es, n) == Act && es[n].incident.rootCause == root {
      return n;
    }
    i := LastIsAnAct(c, es[..n], root);
    ActsOnPrefix(c, es, i, n, root);
  }

  /** What is remembered of a root cause is no older than any act on it, and no less severe than
      those less than a cooldown older. */
  lemma {:induction false} LastCovers(c: Config, es: seq<Event>, i: nat, root: Option<string>)
    requires Ordered(es) && ActsOn(c, es, i, root)
    ensures root in After(c, es).last
    ensures var a := After(c, es).last[root];
            a.at >= es[i].now && (a.at - es[i].now < c.cooldown ==> a.severity >= Severity(es[i].incident))
  {
    var n := |es| - 1;
    var f, e := After(c, es[..n]), es[n];
    assert After(c, es) == Checked(c, f, e.now, e.incident) && es[i].now <= e.now;
    if i < n {
      ActsOnPrefix(c, es, i, n, root);
      LastCovers(c, es[..n], i, root);
      assert es[..n][i] == es[i];
      var a := LastIsAnAct(c, es[..n], root);
      assert es[a].now <= e.now;
    } else {
      assert Decide(c, f, e.now, e.incident) == Act;
    }
  }

  /** An earlier act on the same root cause, less than a cooldown ago and at least as severe. */
  ghost predicate Handled(c: Config, es: seq<Event>, i: nat, k: nat)
    requires k < |es|
  {
    && i < k && ActsOn(c, es, i, es[k].incident.rootCause)
    && es[k].now - es[i].now < c.cooldown && Severity(es[k].incident) <= Severity(es[i].incident)
  }

  /** An incident neither duplicate nor stale is held back exactly if its root cause was handled
      within the cooldown at its severity or above; an escalation always gets through. */
  lemma CooldownIff(c: Config, es: seq<Event>, k: nat)
    requires k < |es| && Ordered(es[..k + 1]) && VerdictAt(c, es, k) in {Act, Cooldown}
    ensures VerdictAt(c, es, k) == Cooldown <==> exists i: nat :: Handled(c, es, i, k)
  {
    var root := es[k].incident.rootCause;
    assert es[..k + 1][..k] == es[..k];
    if VerdictAt(c, es, k) == Cooldown {
      var i := LastIsAnAct(c, es[..k], root);
      ActsOnPrefix(c, es, i, k, root);
      assert Handled(c, es, i, k);
    }
    if i: nat :| Handled(c, es, i, k) {
      ActsOnPrefix(c, es, i, k, root);
      LastCovers(c, es[..k], i, root);
      assert es[..k + 1][k].now == es[k].now;
      var a := LastIsAnAct(c, es[..k], root);
      assert es[..k + 1][a].now <= es[k].now;
    }
  }

  /** Closed longer ago than the maximum age, when checked. */
  predicate TooOld(c: Config, e: Event) {
    e.incident.closedAt.Some? && e.now - e.incident.closedAt.value > c.maxAge
  }

  /** Exactly which incidents are acted on: those whose id is not among the newest maxSeen recorded, that
      were not closed too long ago, and whose root cause was not handled within the cooldown at their
      severity or above. */
  lemma ActIff(c: Config, es: seq<Event>, k: nat)
    requires k < |es| && Ordered(es[..k + 1])
    ensures VerdictAt(c, es, k) == Act <==>
            && es[k].incident.id !in Newest(c.maxSeen, Recorded(c, es[..k]))
            && !TooOld(c, es[k])
            && !exists i: nat :: Handled(c, es, i, k)
  {
    DuplicateIff(c, es, k);
    if VerdictAt(c, es, k) in {Act, Cooldown} {
      CooldownIff(c, es, k);
    }
  }

  /** In particular a stale incident is never acted on, and is called that unless it is a duplicate. */
  lemma StaleIff(c: Config, es: seq<Event>, k: nat)
    requires k < |es|
    ensures VerdictAt(c, es, k) == Stale <==>
            es[k].incident.id !in Newest(c.maxSeen, Recorded(c, es[..k])) && TooOld(c, es[k])
    ensures TooOld(c, es[k]) ==> VerdictAt(c, es, k) != Act
  {
    DuplicateIff(c, es, k);
  }

  lemma {:induction false} OrderedPrefix(es: seq<Event>, n: nat)
    requires Ordered(es) && n <= |es|
    ensures Ordered(es[..n])
    decreases |es|
  {
    if n < |es| {
      assert es[..|es| - 1][..n] == es[..n];
      OrderedPrefix(es[..|es| - 1], n);
    } else {
      assert es[..n] == es;
    }
  }

  /** Two acts on one root cause less than a cooldown apart: the later is strictly more severe. */
  lemma ActsEscalate(c: Config, es: seq<Event>, i: nat, j: nat, root: Option<string>)
    requires Ordered(es) && i < j && ActsOn(c, es, i, root) && ActsOn(c, es, j, root)
    requires es[j].now - es[i].now < c.cooldown
    ensures Severity(es[i].incident) < Severity(es[j].incident)
  {
    OrderedPrefix(es, j + 1);
    CooldownIff(c, es, j);
    assert !Handled(c, es, i, j);
  }

  /** The checks at these places, in order, acted on one root cause, all in [t, t + cooldown). */
  ghost predicate Burst(c: Config, es: seq<Event>, at: seq<nat>, root: Option<string>, t: int) {
    && (forall k :: 0 <= k < |at| ==> ActsOn(c, es, at[k], root) && t <= es[at[k]].now < t + c.cooldown)
    && (forall k :: 0 < k < |at| ==> at[k - 1] < at[k])
  }

  lemma {:induction false} BurstClimbs(c: Config, es: seq<Event>, at: seq<nat>, root: Option<string>, t: int)
    requires Ordered(es) && at != [] && Burst(c, es, at, root, t)
    ensures Severity(es[at[|at| - 1]].incident) - Severity(es[at[0]].incident) >= |at| - 1
  {
    var n := |at| - 1;
    if n > 0 {
      BurstClimbs(c, es, at[..n], root, t);
      ActsEscalate(c, es, at[n - 1], at[n], root);
    }
  }

  /** With severities 0 to 5, at most six acts on one root cause fall within a cooldown. */
  lemma AtMostSix(c: Config, es: seq<Event>, at: seq<nat>, root: Option<string>, t: int)
    requires Ordered(es) && Burst(c, es, at, root, t)
    requires forall k :: 0 <= k < |es| ==> 0 <= Severity(es[k].incident) <= 5
    ensures |at| <= 6
  {
    if at != [] {
      BurstClimbs(c, es, at, root, t);
    }
  }
}
