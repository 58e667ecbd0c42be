/** The bounded sorted set of the worst anomalies: insert, then trim by rank, compared with
    ranking everything ever recorded. */
module TopK {

  datatype Entry = Entry(score: real, member: string)

  /** A sorted set, best entry first. */
  datatype Ranking = Nil | Cons(best: Entry, others: Ranking)

  /** Redis orders members of equal score by their bytes. */
  predicate LexLess(a: string, b: string) {
    b != [] && (a == [] || a[0] < b[0] || (a[0] == b[0] && LexLess(a[1..], b[1..])))
  }

  predicate Below(e: Entry, f: Entry) {
    e.score < f.score || (e.score == f.score && LexLess(e.member, f.member))
  }

  function Members(r: Ranking): set<string> {
    match r
    case Nil => {}
    case Cons(t, o) => {t.member} + Members(o)
  }

  function Entries(r: Ranking): set<Entry> {
    match r
    case Nil => {}
    case Cons(t, o) => {t} + Entries(o)
  }

  /** Each entry above the next, one entry a member. */
  ghost predicate Ranked(r: Ranking) {
    match r
    case Nil => true
    case Cons(t, o) => Ranked(o) && (o.Cons? ==> Below(o.best, t)) && t.member !in Members(o)
  }

  function Without(r: Ranking, member: string): Ranking {
    match r
    case Nil => Nil
    case Cons(t, o) => if t.member == member then Without(o, member) else Cons(t, Without(o, member))
  }

  function Insert(r: Ranking, e: Entry): Ranking {
    match r
    case Nil => Cons(e, Nil)
    case Cons(t, o) => if Below(t, e) then Cons(e, r) else Cons(t, Insert(o, e))
  }

  /** ZADD: the member gets this score, whatever it had. */
  function Zadd(r: Ranking, e: Entry): Ranking {
    Insert(Without(r, e.member), e)
  }

  /** ZREMRANGEBYRANK 0 -(size+1): the size highest stay. */
  function Trim(r: Ranking, size: nat): Ranking {
    if size == 0 || r.Nil? then Nil else Cons(r.best, Trim(r.others, size - 1))
  }

  /** What trimming takes away. */
  function Evicted(r: Ranking, size: nat): Ranking {
    if size == 0 || r.Nil? then r else Evicted(r.others, size - 1)
  }

  function Length(r: Ranking): nat {
    match r
    case Nil => 0
    case Cons(_, o) => 1 + Length(o)
  }

  // ---- The order ----

  lemma {:induction false} LexTotal(a: string, b: string)
    ensures a == b || LexLess(a, b) || LexLess(b, a)
  {
    if a != [] && b != [] && a[0] == b[0] {
      LexTotal(a[1..], b[1..]);
      assert a == [a[0]] + a[1..] && b == [b[0]] + b[1..];
    }
  }

  lemma {:induction false} LexTransitive(a: string, b: string, c: string)
    requires LexLess(a, b) && LexLess(b, c)
    ensures LexLess(a, c)
  {
    if a != [] && a[0] == b[0] == c[0] {
      LexTransitive(a[1..], b[1..], c[1..]);
    }
  }

  lemma {:induction false} LexIrreflexive(a: string)
    ensures !LexLess(a, a)
  {
    if a != [] { LexIrreflexive(a[1..]); }
  }

  lemma BelowTotal(e: Entry, f: Entry)
    requires e.member != f.member
    ensures Below(e, f) <==> !Below(f, e)
  {
    LexTotal(e.member, f.member);
    if LexLess(e.member, f.member) && LexLess(f.member, e.member) {
      LexTransitive(e.member, f.member, e.member);
      LexIrreflexive(e.member);
    }
  }

  lemma BelowTransitive(e: Entry, f: Entry, g: Entry)
    requires Below(e, f) && Below(f, g)
    ensures Below(e, g)
  {
    if e.score == f.score == g.score { LexTransitive(e.member, f.member, g.member); }
  }

  // ---- Rankings stay rankings ----

  /** Everything in a ranked list is at or below its best. */
  lemma {:induction false} BestIsTop(r: Ranking, e: Entry)
    requires Ranked(r) && r.Cons? && e in Entries(r)
    ensures e == r.best || Below(e, r.best)
  {
    if e != r.best {
      BestIsTop(r.others, e);
      if e != r.others.best { BelowTransitive(e, r.others.best, r.best); }
    }
  }

  lemma {:induction false} WithoutRanked(r: Ranking, member: string)
    requires Ranked(r)
    ensures Ranked(Without(r, member)) && Members(Without(r, member)) == Members(r) - {member}
    ensures forall f :: f in Entries(Without(r, member)) <==> f in Entries(r) && f.member != member
  {
    if r.Cons? {
      WithoutRanked(r.others, member);
      var o := Without(r.others, member);
      if o.Cons? {
        assert o.best in Entries(r.others);
        BestIsTop(r.others, o.best);
        if o.best != r.others.best { BelowTransitive(o.best, r.others.best, r.best); }
      }
    }
  }

  lemma {:induction false} InsertRanked(r: Ranking, e: Entry)
    requires Ranked(r) && e.member !in Members(r)
    ensures Ranked(Insert(r, e)) && Members(Insert(r, e)) == Members(r) + {e.member}
    ensures Entries(Insert(r, e)) == Entries(r) + {e}
  {
    if r.Cons? && !Below(r.best, e) {
      InsertRanked(r.others, e);
      BelowTotal(r.best, e);
    }
  }

  /** ZADD keeps the ranking: the member has exactly the new score, every other its own. */
  lemma ZaddRanked(r: Ranking, e: Entry)
    requires Ranked(r)
    ensures Ranked(Zadd(r, e)) && Members(Zadd(r, e)) == Members(r) + {e.member}
    ensures forall f :: f in Entries(Zadd(r, e)) <==> f == e || (f in Entries(r) && f.member != e.member)
  {
    WithoutRanked(r, e.member);
    InsertRanked(Without(r, e.member), e);
  }

  // ---- What trimming keeps ----

  /** Trimming keeps the size best: as many as there are up to size, each above everything evicted. */
  lemma {:induction false} TrimKeepsBest(r: Ranking, size: nat)
    requires Ranked(r)
    ensures Ranked(Trim(r, size)) && Length(Trim(r, size)) == (if Length(r) < size then Length(r) else size)
    ensures Entries(Trim(r, size)) + Entries(Evicted(r, size)) == Entries(r)
    ensures Members(Trim(r, size)) + Members(Evicted(r, size)) == Members(r)
    ensures Members(Trim(r, size)) !! Members(Evicted(r, size)) && Ranked(Evicted(r, size))
    ensures forall e, f :: e in Entries(Evicted(r, size)) && f in Entries(Trim(r, size)) ==> Below(e, f)
  {
    if size > 0 && r.Cons? {
      TrimKeepsBest(r.others, size - 1);
      forall e, f | e in Entries(Evicted(r, size)) && f in Entries(Trim(r, size)) ensures Below(e, f) {
        if f == r.best {
          BestIsTop(r, e);
          MemberOf(Evicted(r, size), e);
        }
      }
    }
  }

  lemma {:induction false} MemberOf(r: Ranking, e: Entry)
    requires e in Entries(r)
    ensures e.member in Members(r)
  {
    if e != r.best { MemberOf(r.others, e); }
  }

  // ---- Trimming early and trimming late ----

  lemma {:induction false} TrimBeforeInsert(r: Ranking, e: Entry, size: nat)
    ensures Trim(Insert(Trim(r, size), e), size) == Trim(Insert(r, e), size)
  {
    if size > 0 && r.Cons? {
      if Below(r.best, e) {
        TrimTrim(r, size - 1, size);
      } else {
        TrimBeforeInsert(r.others, e, size - 1);
      }
    }
  }

  lemma {:induction false} TrimTrim(r: Ranking, size: nat, more: nat)
    requires size <= more
    ensures Trim(Trim(r, more), size) == Trim(r, size)
  {
    if size > 0 && r.Cons? { TrimTrim(r.others, size - 1, more - 1); }
  }

  lemma {:induction false} WithoutAbsent(r: Ranking, member: string)
    requires member !in Members(r)
    ensures Without(r, member) == r
  {
    if r.Cons? { WithoutAbsent(r.others, member); }
  }

  lemma {:induction false} TrimWithoutAbsent(r: Ranking, member: string, size: nat)
    requires member !in Members(Trim(r, size))
    ensures Trim(Without(r, member), size) == Trim(r, size) == Without(Trim(r, size), member)
  {
    if size > 0 && r.Cons? { TrimWithoutAbsent(r.others, member, size - 1); }
  }

  lemma {:induction false} TrimWithoutHeld(r: Ranking, member: string, size: nat)
    requires Ranked(r) && member in Members(Trim(r, size))
    ensures size > 0
    ensures Without(Trim(r, size), member) == Trim(Without(r, member), size - 1)
    ensures Evicted(Without(r, member), size - 1) == Evicted(r, size)
  {
    if r.best.member == member {
      TrimKeepsBest(r.others, size - 1);
      WithoutAbsent(r.others, member);
      WithoutAbsent(Trim(r.others, size - 1), member);
    } else {
      TrimWithoutHeld(r.others, member, size - 1);
    }
  }

  /** Putting an entry into a list cut at j, or into the whole list and then cutting at j + 1, is
      the same exactly unless the entry goes below the first one cut off. */
  lemma {:induction false} CutThenInsert(r: Ranking, e: Entry, j: nat)
    requires Ranked(r) && e.member !in Members(r)
    ensures Insert(Trim(r, j), e) == Trim(Insert(r, e), j + 1)
       <==> Evicted(r, j).Nil? || !Below(e, Evicted(r, j).best)
  {
    if r.Cons? {
      BelowTotal(r.best, e);
      if j > 0 {
        if Below(r.best, e) {
          TrimKeepsBest(r, j);
          if Evicted(r, j).Cons? {
            var f := Evicted(r, j).best;
            assert f in Entries(Evicted(r, j)) && r.best in Entries(Trim(r, j));
            BelowTransitive(f, r.best, e);
            MemberOf(Evicted(r, j), f);
            BelowTotal(f, e);
          }
        } else {
          CutThenInsert(r.others, e, j - 1);
        }
      }
    }
  }

  lemma {:induction false} TrimShort(r: Ranking, size: nat)
    requires Length(r) <= size
    ensures Trim(r, size) == r
  {
    if r.Cons? { TrimShort(r.others, size - 1); }
  }

  lemma {:induction false} InsertLength(r: Ranking, e: Entry)
    ensures Length(Insert(r, e)) == Length(r) + 1
  {
    if r.Cons? && !Below(r.best, e) { InsertLength(r.others, e); }
  }

  /** The new score of a member still held falls below the best entry evicted. */
  predicate FallsBelowEvicted(all: Ranking, e: Entry, size: nat) {
    e.member in Members(Trim(all, size)) && Evicted(all, size).Cons? && Below(e, Evicted(all, size).best)
  }

  /** Trimming after every insertion gives what trimming at the end would, exactly unless the new
      score of a member still held drops it below the best entry already evicted. */
  lemma TrimEarlyIff(all: Ranking, e: Entry, size: nat)
    requires Ranked(all)
    ensures Trim(Zadd(Trim(all, size), e), size) == Trim(Zadd(all, e), size) <==> !FallsBelowEvicted(all, e, size)
  {
    var rest := Without(all, e.member);
    WithoutRanked(all, e.member);
    if e.member in Members(Trim(all, size)) {
      TrimWithoutHeld(all, e.member, size);
      TrimKeepsBest(rest, size - 1);
      InsertLength(Trim(rest, size - 1), e);
      TrimShort(Insert(Trim(rest, size - 1), e), size);
      CutThenInsert(rest, e, size - 1);
    } else {
      TrimWithoutAbsent(all, e.member, size);
      TrimBeforeInsert(rest, e, size);
    }
  }

  // ---- Whole runs ----

  /** Nothing reached Redis; only the insertion did; or both commands did, acknowledged or not. */
  datatype Outcome = Lost | AddedOnly | Trimmed(acknowledged: bool)

  datatype Call = Call(entry: Entry, outcome: Outcome)

  function Record(stored: Ranking, c: Call, size: nat): Ranking {
    match c.outcome
    case Lost => stored
    case AddedOnly => Zadd(stored, c.entry)
    case Trimmed(_) => Trim(Zadd(stored, c.entry), size)
  }

  function Stored(calls: seq<Call>, size: nat): Ranking {
    if calls == [] then Nil else Record(Stored(calls[..|calls| - 1], size), calls[|calls| - 1], size)
  }

  /** Every member that ever reached Redis, with its last score. */
  function Recorded(calls: seq<Call>): Ranking {
    if calls == [] then Nil
    else
      var c := calls[|calls| - 1];
      var before := Recorded(calls[..|calls| - 1]);
      if c.outcome.Lost? then before else Zadd(before, c.entry)
  }

  /** No recording lowers the score of a member, as when a member always carries the same score. */
  ghost predicate NeverLowered(calls: seq<Call>) {
    if calls == [] then true
    else
      var c := calls[|calls| - 1];
      && NeverLowered(calls[..|calls| - 1])
      && NotLower(Recorded(calls[..|calls| - 1]), c.entry)
  }

  ghost predicate NotLower(r: Ranking, e: Entry) {
    forall f :: f in Entries(r) && f.member == e.member ==> f.score <= e.score
  }

  lemma NotLowerNotFalling(all: Ranking, e: Entry, size: nat)
    requires Ranked(all) && NotLower(all, e)
    ensures !FallsBelowEvicted(all, e, size)
  {
    TrimKeepsBest(all, size);
    if FallsBelowEvicted(all, e, size) {
      var f := EntryOf(Trim(all, size), e.member);
      var top := Evicted(all, size).best;
      assert top in Entries(Evicted(all, size)) && Below(top, f);
      MemberOf(Evicted(all, size), top);
      BelowTotal(top, e);
      if f.score != e.score { BelowTransitive(top, f, e); }
    }
  }

  lemma {:induction false} EntryOf(r: Ranking, member: string) returns (e: Entry)
    requires member in Members(r)
    ensures e in Entries(r) && e.member == member
  {
    if r.best.member == member { e := r.best; } else { e := EntryOf(r.others, member); }
  }

  lemma {:induction false} RecordedRanked(calls: seq<Call>)
    ensures Ranked(Recorded(calls))
  {
    if calls != [] {
      RecordedRanked(calls[..|calls| - 1]);
      ZaddRanked(Recorded(calls[..|calls| - 1]), calls[|calls| - 1].entry);
    }
  }

  lemma {:induction false} StoredHolds(calls: seq<Call>, size: nat)
    requires NeverLowered(calls)
    ensures Ranked(Stored(calls, size)) && Entries(Stored(calls, size)) <= Entries(Recorded(calls))
    ensures Trim(Stored(calls, size), size) == Trim(Recorded(calls), size)
  {
    if calls != [] {
      var before, c := calls[..|calls| - 1], calls[|calls| - 1];
      var stored, all := Stored(before, size), Recorded(before);
      StoredHolds(before, size);
      RecordedRanked(before);
      if !c.outcome.Lost? {
        ZaddRanked(stored, c.entry);
        ZaddRanked(all, c.entry);
        NotLowerNotFalling(all, c.entry, size);
        NotLowerNotFalling(stored, c.entry, size);
        TrimEarlyIff(all, c.entry, size);
        TrimEarlyIff(stored, c.entry, size);
        TrimKeepsBest(Zadd(stored, c.entry), size);
        TrimTrim(Zadd(stored, c.entry), size, size);
      }
    }
  }

  /** After any calls, failures at any command included, that never lower a member's score: once a
      call has trimmed, the sorted set is exactly the size best of everything ever recorded. */
  lemma HoldsTheBestRecorded(calls: seq<Call>, size: nat)
    requires NeverLowered(calls) && calls != [] && calls[|calls| - 1].outcome.Trimmed?
    ensures Stored(calls, size) == Trim(Recorded(calls), size)
  {
    var before, c := calls[..|calls| - 1], calls[|calls| - 1];
    StoredHolds(calls, size);
    StoredHolds(before, size);
    TrimTrim(Zadd(Stored(before, size), c.entry), size, size);
  }

  // ---- The same in plain terms ----

  /** Up to the first difference the same, and there less, or at its end. */
  ghost predicate BytewiseLess(a: string, b: string) {
    exists k: nat :: SplitsAt(a, b, k)
  }

  ghost predicate SplitsAt(a: string, b: string, k: nat) {
    k <= |a| && k < |b| && a[..k] == b[..k] && (k == |a| || a[k] < b[k])
  }

  lemma {:induction false} LexIsBytewise(a: string, b: string)
    ensures LexLess(a, b) <==> BytewiseLess(a, b)
  {
    if b == [] {
    } else if a == [] {
      assert SplitsAt(a, b, 0);
    } else {
      LexIsBytewise(a[1..], b[1..]);
      if a[0] < b[0] { assert SplitsAt(a, b, 0); }
      if a[0] == b[0] && BytewiseLess(a[1..], b[1..]) {
        var k: nat :| SplitsAt(a[1..], b[1..], k);
        assert a[..k + 1] == [a[0]] + a[1..][..k] && b[..k + 1] == [b[0]] + b[1..][..k];
        assert SplitsAt(a, b, k + 1);
      }
      if k: nat :| SplitsAt(a, b, k) && k > 0 {
        assert a[..k][0] == a[0] && b[..k][0] == b[0];
        assert a[1..][..k - 1] == a[..k][1..] && b[1..][..k - 1] == b[..k][1..];
        assert SplitsAt(a[1..], b[1..], k - 1);
      }
    }
  }

  /** A greater score, or at the same score the member that is greater byte by byte. */
  ghost predicate Ahead(f: Entry, e: Entry) {
    f.score > e.score || (f.score == e.score && BytewiseLess(e.member, f.member))
  }

  /** The i-th call reached Redis, and no later one that did had its member. */
  ghost predicate LastOfMember(calls: seq<Call>, i: int) {
    && 0 <= i < |calls| && !calls[i].outcome.Lost?
    && forall j :: i < j < |calls| && !calls[j].outcome.Lost? ==> calls[j].entry.member != calls[i].entry.member
  }

  /** What counts as recorded: of each member the last score that reached Redis. */
  lemma {:induction false} RecordedAre(calls: seq<Call>, e: Entry)
    ensures e in Entries(Recorded(calls)) <==> exists i :: LastOfMember(calls, i) && calls[i].entry == e
  {
    if calls != [] {
      var n := |calls| - 1;
      var before, c := calls[..n], calls[n];
      RecordedAre(before, e);
      RecordedRanked(before);
      ZaddRanked(Recorded(before), c.entry);
      if !c.outcome.Lost? { assert LastOfMember(calls, n); }
      forall i | 0 <= i < n
        ensures LastOfMember(calls, i) <==>
                LastOfMember(before, i) && (c.outcome.Lost? || c.entry.member != calls[i].entry.member)
      {
        assert before[i] == calls[i];
      }
    }
  }

  /** Once a call has trimmed, the set holds size entries, or all if fewer were recorded, and each of them
      is ahead of every recorded one it does not hold. */
  lemma KeepsTheGreatest(calls: seq<Call>, size: nat)
    requires NeverLowered(calls) && calls != [] && calls[|calls| - 1].outcome.Trimmed?
    ensures var kept, all := Stored(calls, size), Recorded(calls);
            && Length(kept) == (if Length(all) < size then Length(all) else size)
            && Entries(kept) <= Entries(all)
            && forall e, f :: e in Entries(all) && e !in Entries(kept) && f in Entries(kept) ==> Ahead(f, e)
  {
    HoldsTheBestRecorded(calls, size);
    RecordedRanked(calls);
    TrimKeepsBest(Recorded(calls), size);
    var kept, all := Entries(Stored(calls, size)), Entries(Recorded(calls));
    forall e, f | e in all && e !in kept && f in kept
      ensures Ahead(f, e)
    {
      LexIsBytewise(e.member, f.member);
    }
  }

  lemma {:induction false} InsertBack(r: Ranking, e: Entry)
    requires Ranked(r) && e in Entries(r)
    ensures Insert(Without(r, e.member), e) == r
  {
    if r.best == e {
      WithoutAbsent(r.others, e.member);
    } else {
      MemberOf(r.others, e);
      BestIsTop(r, e);
      BelowTotal(e, r.best);
      InsertBack(r.others, e);
    }
  }

  /** Replaying a recorded call, even of an evicted member, changes nothing. */
  lemma ReplayChangesNothing(calls: seq<Call>, again: Call, size: nat)
    requires NeverLowered(calls) && calls != [] && calls[|calls| - 1].outcome.Trimmed?
    requires again.entry in Entries(Recorded(calls)) && again.outcome.Trimmed?
    ensures Stored(calls + [again], size) == Stored(calls, size)
  {
    var all := Recorded(calls);
    HoldsTheBestRecorded(calls, size);
    RecordedRanked(calls);
    InsertBack(all, again.entry);
    assert NotLower(all, again.entry) by { OneEntryEach(all, again.entry); }
    NotLowerNotFalling(all, again.entry, size);
    TrimEarlyIff(all, again.entry, size);
    assert (calls + [again])[..|calls|] == calls;
  }

  lemma {:induction false} OneEntryEach(r: Ranking, e: Entry)
    requires Ranked(r) && e in Entries(r)
    ensures forall f :: f in Entries(r) && f.member == e.member ==> f == e
  {
    forall f | f in Entries(r) && f.member == e.member ensures f == e {
      if e != r.best && f != r.best {
        OneEntryEach(r.others, e);
      } else if e != r.best {
        MemberOf(r.others, e);
      } else if f != r.best {
        MemberOf(r.others, f);
      }
    }
  }

  /** Without that condition the sink is not a top-k: lowering a held member keeps it in front of an
      evicted better one. */
  lemma LoweringLosesTheBest(a: string, b: string)
    requires a != b
    ensures var calls := [Call(Entry(5.0, a), Trimmed(true)), Call(Entry(3.0, b), Trimmed(true)),
        Call(Entry(1.0, a), Trimmed(true))];
            Stored(calls, 1) == Cons(Entry(1.0, a), Nil) && Trim(Recorded(calls), 1) == Cons(Entry(3.0, b), Nil)
  {
    var x, y, z := Call(Entry(5.0, a), Trimmed(true)), Call(Entry(3.0, b), Trimmed(true)),
        Call(Entry(1.0, a), Trimmed(true));
    assert [x, y, z][..2] == [x, y] && [x, y][..1] == [x] && [x][..0] == [];
    TrimOne(x.entry, Nil);
    assert Zadd(Nil, x.entry) == Cons(x.entry, Nil);
    assert Recorded([x]) == Cons(x.entry, Nil) == Stored([x], 1);
    var two := Cons(x.entry, Cons(y.entry, Nil));
    assert Without(Cons(x.entry, Nil), b) == Cons(x.entry, Nil);
    assert !Below(x.entry, y.entry) && !Below(y.entry, z.entry);
    assert Insert(Nil, y.entry) == Cons(y.entry, Nil) && Insert(Nil, z.entry) == Cons(z.entry, Nil);
    assert Zadd(Cons(x.entry, Nil), y.entry) == two;
    TrimOne(x.entry, two.others);
    assert Recorded([x, y]) == two && Stored([x, y], 1) == Cons(x.entry, Nil);
    assert Without(two, a) == Cons(y.entry, Nil);
    assert Zadd(two, z.entry) == Cons(y.entry, Cons(z.entry, Nil));
    assert Zadd(Cons(x.entry, Nil), z.entry) == Cons(z.entry, Nil);
    TrimOne(y.entry, Cons(z.entry, Nil));
    TrimOne(z.entry, Nil);
  }

  lemma TrimOne(e: Entry, others: Ranking)
    ensures Trim(Cons(e, others), 1) == Cons(e, Nil)
  {
    assert Trim(others, 0) == Nil;
  }

  // ---- The sink ----

  class RedisTopKSink {
    const size: nat
    var stored: Ranking

    constructor (size: nat)
      ensures this.size == size && stored == Nil
    {
      this.size := size;
      stored := Nil;
    }

    /** Failures are swallowed: the caller only learns whether both commands were acknowledged. */
    method RecordAnomaly(serviceId: string, anomalyType: string, detectedAt: string, score: real, outcome: Outcome)
      returns (acknowledged: bool)
      modifies this
      ensures stored == Record(old(stored),
                               Call(Entry(score, serviceId + "|" + anomalyType + "|" + detectedAt), outcome), size)
      ensures acknowledged <==> outcome == Trimmed(true)
    {
      var member := serviceId + "|" + anomalyType + "|" + detectedAt;
      if outcome == Lost {
        return false;
      }
      stored := Zadd(stored, Entry(score, member));
      if outcome == AddedOnly {
        return false;
      }
      stored := Trim(stored, size);
      return outcome.acknowledged;
    }
  }
}
