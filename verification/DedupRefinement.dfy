/** The filter in front of the state changes nothing that can be observed. */
module DedupRefinement {
  import opened Options
  import opened DedupModel

  datatype Addition = Addition(key: string, at: int)

  /** The additions made since the filter was last started. */
  ghost function Additions(ops: seq<Op>): seq<Addition> {
    if ops == [] then []
    else
      var o := ops[|ops| - 1];
      if o.Event? then Additions(ops[..|ops| - 1]) + [Addition(o.key, o.t.add)] else []
  }

  /** The last reading of the clock. */
  ghost function LastTick(start: int, ops: seq<Op>): int {
    if ops == [] then start
    else
      match ops[|ops| - 1]
      case Event(_, t) => t.burst
      case Restart(now) => now
      case Rewind(now, _) => now
  }

  /** The clock never goes back, and a checkpoint holds no write from the future. */
  ghost predicate Ordered(start: int, ops: seq<Op>) {
    if ops == [] then true
    else
      var before := ops[..|ops| - 1];
      Ordered(start, before) &&
      match ops[|ops| - 1]
      case Event(_, t) => LastTick(start, before) <= t.warm && t.Ascending()
      case Restart(now) => LastTick(start, before) <= now
      case Rewind(now, restored) => LastTick(start, before) <= now && forall k :: k in restored ==> restored[k] <= now
  }

  /** The newest addition comes at least a TTL after the one capacity + 1 places before it. */
  ghost predicate PacedLast(cfg: Config, h: seq<Addition>) {
    |h| > cfg.capacity + 1 ==> h[|h| - 1].at - h[|h| - 2 - cfg.capacity].at >= cfg.ttlMs
  }

  /** At most capacity + 1 additions in any interval shorter than the TTL, between restarts. */
  ghost predicate Paced(cfg: Config, ops: seq<Op>) {
    ops == [] || (Paced(cfg, ops[..|ops| - 1]) && PacedLast(cfg, Additions(ops)))
  }

  // ---- What the two generations hold ----

  /** Additions from lo on are in prev, from hi on in cur; those before lo are forgotten, and older than a TTL. */
  ghost predicate Covers(cfg: Config, r: Rotating, h: seq<Addition>, lo: nat, hi: nat, now: int) {
    && lo <= hi <= |h|
    && r.startedMs <= r.rotatedMs <= now
    && (forall j :: hi <= j < |h| ==> Contains(cfg.hash, r.cur, h[j].key))
    && (lo < hi ==> r.prev.Some?)
    && (forall j :: lo <= j < hi ==> Contains(cfg.hash, r.prev.value, h[j].key))
    && (forall j :: 0 <= j < lo ==> h[j].at + cfg.ttlMs <= now)
    && (forall j :: 0 <= j < hi ==> h[j].at <= r.rotatedMs)
    && (forall j :: 0 <= j < |h| ==> h[j].at <= now)
    && (forall i, j :: 0 <= i <= j < |h| ==> h[i].at <= h[j].at)
    && r.cur.count <= |h| - hi
  }

  ghost predicate Covered(cfg: Config, r: Rotating, h: seq<Addition>, now: int) {
    exists lo: nat, hi: nat :: Covers(cfg, r, h, lo, hi, now)
  }

  lemma RotateCovers(cfg: Config, r: Rotating, h: seq<Addition>, now: int, later: int)
    requires Covered(cfg, r, h, now) && now <= later
    ensures Covered(cfg, RotateIfDue(cfg, r, later), h, later)
  {
    var lo: nat, hi: nat :| Covers(cfg, r, h, lo, hi, now);
    if later - r.rotatedMs >= cfg.ttlMs {
      assert Covers(cfg, RotateIfDue(cfg, r, later), h, hi, |h|, later);
    } else {
      assert Covers(cfg, r, h, lo, hi, later);
    }
  }

  /** A full generation is retired early: what it pushes out is older than a TTL, at this pace. */
  lemma BurstCovers(cfg: Config, r: Rotating, h: seq<Addition>, lo: nat, hi: nat, key: string, add: int, burst: int)
    requires cfg.capacity > 0 && Full(cfg, r.cur) && Covers(cfg, r, h, lo, hi, add) && add <= burst
    requires PacedLast(cfg, h + [Addition(key, add)])
    ensures Covers(cfg, Rotating(r.startedMs, burst, Include(cfg.hash, EMPTY, key), Some(r.cur)),
                   h + [Addition(key, add)], hi, |h|, burst)
  {
    var h' := h + [Addition(key, add)];
    if hi > 0 {
      assert h'[|h'| - 2 - cfg.capacity] == h[|h| - 1 - cfg.capacity];
    }
  }

  lemma KeyCovers(cfg: Config, r: Rotating, h: seq<Addition>, lo: nat, hi: nat, key: string, add: int, burst: int)
    requires Covers(cfg, r, h, lo, hi, add) && add <= burst
    ensures Covers(cfg, r.(cur := Include(cfg.hash, r.cur, key)), h + [Addition(key, add)], lo, hi, burst)
  {
  }

  /** An addition keeps every one younger than a TTL findable, even when it retires a full generation early. */
  lemma AddCovers(cfg: Config, r: Rotating, h: seq<Addition>, key: string, now: int, add: int, burst: int)
    requires cfg.capacity > 0 && Covered(cfg, r, h, now) && now <= add <= burst
    requires PacedLast(cfg, h + [Addition(key, add)])
    ensures Covered(cfg, AddKey(cfg, r, key, add, burst), h + [Addition(key, add)], burst)
  {
    RotateCovers(cfg, r, h, now, add);
    var r1 := RotateIfDue(cfg, r, add);
    var lo: nat, hi: nat :| Covers(cfg, r1, h, lo, hi, add);
    if Full(cfg, r1.cur) {
      BurstCovers(cfg, r1, h, lo, hi, key, add, burst);
    } else {
      KeyCovers(cfg, r1, h, lo, hi, key, add, burst);
    }
  }

  /** Every state entry is older than the filter, or its key was added to the filter after the write. */
  ghost predicate Tracked(seen: Seen, h: seq<Addition>, startedMs: int) {
    forall k :: k in seen ==> seen[k] <= startedMs || exists j :: 0 <= j < |h| && h[j].key == k && seen[k] <= h[j].at
  }

  /** A key with a live state entry is always known to a warm filter, so a miss proves the key new. */
  lemma LiveKeyIsFound(cfg: Config, op: Operator, h: seq<Addition>, now: int, key: string, t: Ticks)
    requires Covered(cfg, op.bloom, h, now) && Tracked(op.seen, h, op.bloom.startedMs)
    requires now <= t.warm && t.Ascending()
    requires IsWarm(cfg, op.bloom, t.warm) && Visible(cfg, op.seen, key, t.read)
    ensures InEither(cfg, RotateIfDue(cfg, op.bloom, t.look), key)
  {
    RotateCovers(cfg, op.bloom, h, now, t.look);
    var r := RotateIfDue(cfg, op.bloom, t.look);
    var lo: nat, hi: nat :| Covers(cfg, r, h, lo, hi, t.look);
    var j :| 0 <= j < |h| && h[j].key == key && op.seen[key] <= h[j].at;
    assert j >= lo;
  }

  lemma ProcessTracks(cfg: Config, op: Operator, h: seq<Addition>, key: string, t: Ticks)
    requires Tracked(op.seen, h, op.bloom.startedMs) && t.Ascending()
    ensures Tracked(Process(cfg, op, key, t).seen, h + [Addition(key, t.add)], op.bloom.startedMs)
  {
    var seen', h' := Process(cfg, op, key, t).seen, h + [Addition(key, t.add)];
    forall k | k in seen' && seen'[k] > op.bloom.startedMs
      ensures exists j :: 0 <= j < |h'| && h'[j].key == k && seen'[k] <= h'[j].at
    {
      if k == key && Yields(cfg, op, key, t) {
        assert h'[|h|] == Addition(key, t.add);
      } else {
        var j :| 0 <= j < |h| && h[j].key == k && op.seen[k] <= h[j].at;
        assert h'[j] == h[j];
      }
    }
  }

  lemma ProcessKeeps(cfg: Config, op: Operator, h: seq<Addition>, now: int, key: string, t: Ticks)
    requires cfg.capacity > 0
    requires Covered(cfg, op.bloom, h, now) && Tracked(op.seen, h, op.bloom.startedMs)
    requires now <= t.warm && t.Ascending() && PacedLast(cfg, h + [Addition(key, t.add)])
    ensures var op', h' := Process(cfg, op, key, t), h + [Addition(key, t.add)];
            Covered(cfg, op'.bloom, h', t.burst) && Tracked(op'.seen, h', op'.bloom.startedMs)
  {
    ProcessTracks(cfg, op, h, key, t);
    if IsWarm(cfg, op.bloom, t.warm) {
      RotateCovers(cfg, op.bloom, h, now, t.look);
      AddCovers(cfg, RotateIfDue(cfg, op.bloom, t.look), h, key, t.look, t.add, t.burst);
    } else {
      AddCovers(cfg, op.bloom, h, key, now, t.add, t.burst);
    }
  }

  lemma {:induction false} RunKeeps(cfg: Config, start: int, ops: seq<Op>)
    requires cfg.capacity > 0 && Ordered(start, ops) && Paced(cfg, ops)
    ensures var op := Run(cfg, start, ops);
            && Covered(cfg, op.bloom, Additions(ops), LastTick(start, ops))
            && Tracked(op.seen, Additions(ops), op.bloom.startedMs)
            && (forall k :: k in op.seen ==> op.seen[k] <= LastTick(start, ops))
  {
    if ops == [] {
      assert Covers(cfg, Started(start), [], 0, 0, start);
    } else {
      var before := ops[..|ops| - 1];
      RunKeeps(cfg, start, before);
      var op := Run(cfg, start, before);
      match ops[|ops| - 1]
      case Event(key, t) => ProcessKeeps(cfg, op, Additions(before), LastTick(start, before), key, t);
      case Restart(now) => assert Covers(cfg, Started(now), [], 0, 0, now);
      case Rewind(now, restored) => assert Covers(cfg, Started(now), [], 0, 0, now);
    }
  }

  /** Refinement: with a clock that never goes back, any hash, and at most capacity + 1 additions in any
      interval shorter than the TTL, the operator with the Bloom pre-check yields exactly the events
      the plain operator yields and keeps exactly its state, across restarts that empty the filter
      and rewinds of the state to a checkpoint. */
  lemma {:induction false} FilterRefinesState(cfg: Config, start: int, ops: seq<Op>)
    requires cfg.capacity > 0 && Ordered(start, ops) && Paced(cfg, ops)
    ensures Yielded(cfg, start, ops) == PlainYielded(cfg, ops)
    ensures Run(cfg, start, ops).seen == PlainRun(cfg, ops)
  {
    if ops != [] {
      var before := ops[..|ops| - 1];
      FilterRefinesState(cfg, start, before);
      RunKeeps(cfg, start, before);
      match ops[|ops| - 1]
      case Event(key, t) =>
        var op := Run(cfg, start, before);
        if IsWarm(cfg, op.bloom, t.warm) && Visible(cfg, op.seen, key, t.read) {
          LiveKeyIsFound(cfg, op, Additions(before), LastTick(start, before), key, t);
        }
      case _ =>
    }
  }

  // ---- What deduplication promises ----

  ghost predicate NoRewind(ops: seq<Op>) {
    forall i :: 0 <= i < |ops| ==> !ops[i].Rewind?
  }

  lemma {:induction false} YieldLength(cfg: Config, ops: seq<Op>)
    ensures |PlainYielded(cfg, ops)| == |ops|
  {
    if ops != [] { YieldLength(cfg, ops[..|ops| - 1]); }
  }

  lemma {:induction false} YieldPrefix(cfg: Config, ops: seq<Op>, i: nat)
    requires i < |ops|
    ensures |PlainYielded(cfg, ops)| == |ops|
    ensures PlainYielded(cfg, ops)[i] ==
        (ops[i].Event? && !Visible(cfg, PlainRun(cfg, ops[..i]), ops[i].key, ops[i].t.read))
  {
    YieldLength(cfg, ops);
    var n := |ops| - 1;
    YieldLength(cfg, ops[..n]);
    if i < n {
      YieldPrefix(cfg, ops[..n], i);
      assert ops[..n][..i] == ops[..i];
    }
  }

  /** The state entry of a key is its last yield, or nothing. */
  lemma {:induction false} StateIsLastYield(cfg: Config, start: int, ops: seq<Op>, key: string)
    requires Ordered(start, ops) && NoRewind(ops)
    ensures key in PlainRun(cfg, ops) ==>
        exists i :: YieldOf(cfg, ops, key, i) && ops[i].t.write == PlainRun(cfg, ops)[key]
    ensures forall i :: YieldOf(cfg, ops, key, i) ==>
        key in PlainRun(cfg, ops) && ops[i].t.write <= PlainRun(cfg, ops)[key]
    ensures forall i :: YieldOf(cfg, ops, key, i) ==> ops[i].t.write <= LastTick(start, ops)
  {
    YieldLength(cfg, ops);
    if ops != [] {
      var n := |ops| - 1;
      var before := ops[..n];
      StateIsLastYield(cfg, start, before, key);
      YieldLength(cfg, before);
      forall i | 0 <= i < n ensures YieldOf(cfg, ops, key, i) <==> YieldOf(cfg, before, key, i) {
        assert before[i] == ops[i];
      }
      if key in PlainRun(cfg, before) {
        var i :| YieldOf(cfg, before, key, i) && before[i].t.write == PlainRun(cfg, before)[key];
        assert YieldOf(cfg, ops, key, i);
      }
      if ops[n].Event? && ops[n].key == key && !Visible(cfg, PlainRun(cfg, before), key, ops[n].t.read) {
        assert YieldOf(cfg, ops, key, n);
      }
    }
  }

  ghost predicate YieldOf(cfg: Config, ops: seq<Op>, key: string, i: int) {
    0 <= i < |ops| && i < |PlainYielded(cfg, ops)| && ops[i].Event? && ops[i].key == key && PlainYielded(cfg, ops)[i]
  }

  lemma {:induction false} OrderedPrefix(start: int, ops: seq<Op>, i: nat)
    requires Ordered(start, ops) && i <= |ops|
    ensures Ordered(start, ops[..i])
  {
    var n := |ops|;
    if i < n {
      OrderedPrefix(start, ops[..n - 1], i);
      assert ops[..n - 1][..i] == ops[..i];
    } else {
      assert ops[..i] == ops;
    }
  }

  lemma YieldSince(cfg: Config, ops: seq<Op>, j: nat, key: string, i: int)
    requires j < |ops| && i < j
    ensures YieldOf(cfg, ops[..j], key, i) <==> YieldOf(cfg, ops, key, i)
  {
    YieldLength(cfg, ops);
    YieldLength(cfg, ops[..j]);
    if 0 <= i {
      YieldPrefix(cfg, ops, i);
      YieldPrefix(cfg, ops[..j], i);
      assert ops[..j][..i] == ops[..i] && ops[..j][i] == ops[i];
    }
  }

  /** Op i is an event with the span id of op j, before it, and was yielded. */
  ghost predicate EarlierYield(ops: seq<Op>, out: seq<bool>, i: int, j: nat) {
    0 <= i < j < |ops| == |out| && ops[i].Event? && ops[j].Event? && ops[i].key == ops[j].key && out[i]
  }
}
