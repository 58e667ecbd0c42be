/** Exactly what the rotating filter holds and forgets, read off the history of additions and rotations. */
module DedupHistory {
  import opened Options
  import opened DedupModel
  import opened DedupRefinement

  datatype Mark = Added(key: string) | Rotated

  function DueMark(cfg: Config, r: Rotating, now: int): seq<Mark> {
    if now - r.rotatedMs >= cfg.ttlMs then [Rotated] else []
  }

  /** A due rotation, a burst rotation, the key. */
  function AddMarks(cfg: Config, r: Rotating, key: string, now: int): seq<Mark> {
    DueMark(cfg, r, now) + (if Full(cfg, RotateIfDue(cfg, r, now).cur) then [Rotated] else []) + [Added(key)]
  }

  /** The rotation a warm filter's look-up may do first. */
  function LookMark(cfg: Config, r: Rotating, t: Ticks): seq<Mark> {
    if IsWarm(cfg, r, t.warm) then DueMark(cfg, r, t.look) else []
  }

  function Looked(cfg: Config, r: Rotating, t: Ticks): Rotating {
    if IsWarm(cfg, r, t.warm) then RotateIfDue(cfg, r, t.look) else r
  }

  /** What happened to the filter since it was last started. */
  function Marks(cfg: Config, start: int, ops: seq<Op>): seq<Mark> {
    if ops == [] then []
    else
      var before, o := ops[..|ops| - 1], ops[|ops| - 1];
      var r := Run(cfg, start, before).bloom;
      if o.Event? then
        Marks(cfg, start, before) + LookMark(cfg, r, o.t) + AddMarks(cfg, Looked(cfg, r, o.t), o.key, o.t.add)
      else []
  }

  /** The keys added after the last rotation, and those between it and the one before. */
  function Current(marks: seq<Mark>): set<string> {
    if marks == [] then {}
    else
      match marks[|marks| - 1]
      case Added(k) => Current(marks[..|marks| - 1]) + {k}
      case Rotated => {}
  }

  function Previous(marks: seq<Mark>): Option<set<string>> {
    if marks == [] then None
    else
      match marks[|marks| - 1]
      case Added(_) => Previous(marks[..|marks| - 1])
      case Rotated => Some(Current(marks[..|marks| - 1]))
  }

  /** How many rotations came since the key was last added, if it was. */
  function RotationsSince(marks: seq<Mark>, key: string): Option<nat> {
    if marks == [] then None
    else
      var before := RotationsSince(marks[..|marks| - 1], key);
      match marks[|marks| - 1]
      case Added(k) => if k == key then Some(0) else before
      case Rotated => if before.Some? then Some(before.value + 1) else None
  }

  function Bits(h: Hash, keys: set<string>): set<nat> {
    set k, b | k in keys && b in h(k) :: b
  }

  ghost predicate Holds(h: Hash, r: Rotating, marks: seq<Mark>) {
    && r.cur.bits == Bits(h, Current(marks))
    && r.prev.Some? == Previous(marks).Some?
    && (r.prev.Some? ==> r.prev.value.bits == Bits(h, Previous(marks).value))
  }

  lemma MarkSnoc(marks: seq<Mark>, m: Mark)
    ensures (marks + [m])[..|marks|] == marks
  {
  }

  lemma RetireHolds(h: Hash, r: Rotating, marks: seq<Mark>, at: int)
    requires Holds(h, r, marks)
    ensures Holds(h, Rotating(r.startedMs, at, EMPTY, Some(r.cur)), marks + [Rotated])
  {
    MarkSnoc(marks, Rotated);
  }

  lemma DueHolds(cfg: Config, r: Rotating, marks: seq<Mark>, now: int)
    requires Holds(cfg.hash, r, marks)
    ensures Holds(cfg.hash, RotateIfDue(cfg, r, now), marks + DueMark(cfg, r, now))
  {
    RetireHolds(cfg.hash, r, marks, now);
    assert marks + [] == marks;
  }

  lemma KeyHolds(h: Hash, r: Rotating, marks: seq<Mark>, key: string)
    requires Holds(h, r, marks)
    ensures Holds(h, r.(cur := Include(h, r.cur, key)), marks + [Added(key)])
  {
    MarkSnoc(marks, Added(key));
  }

  lemma AddHolds(cfg: Config, r: Rotating, marks: seq<Mark>, key: string, now: int, burst: int)
    requires Holds(cfg.hash, r, marks)
    ensures Holds(cfg.hash, AddKey(cfg, r, key, now, burst), marks + AddMarks(cfg, r, key, now))
  {
    var r1, m1 := RotateIfDue(cfg, r, now), marks + DueMark(cfg, r, now);
    DueHolds(cfg, r, marks, now);
    if Full(cfg, r1.cur) {
      RetireHolds(cfg.hash, r1, m1, burst);
      KeyHolds(cfg.hash, Rotating(r1.startedMs, burst, EMPTY, Some(r1.cur)), m1 + [Rotated], key);
      assert marks + AddMarks(cfg, r, key, now) == m1 + [Rotated] + [Added(key)];
    } else {
      KeyHolds(cfg.hash, r1, m1, key);
      assert marks + AddMarks(cfg, r, key, now) == m1 + [Added(key)];
    }
  }

  /** In any run, whatever the clock does, the two generations hold exactly the bits of the keys added
      since the last rotation and between the last two. */
  lemma {:induction false} FilterHoldsExactly(cfg: Config, start: int, ops: seq<Op>)
    ensures Holds(cfg.hash, Run(cfg, start, ops).bloom, Marks(cfg, start, ops))
  {
    if ops != [] {
      var before, o := ops[..|ops| - 1], ops[|ops| - 1];
      FilterHoldsExactly(cfg, start, before);
      if o.Event? {
        var r, marks := Run(cfg, start, before).bloom, Marks(cfg, start, before);
        DueHolds(cfg, r, marks, o.t.look);
        assert marks + [] == marks;
        AddHolds(cfg, Looked(cfg, r, o.t), marks + LookMark(cfg, r, o.t), o.key, o.t.add, o.t.burst);
        assert Marks(cfg, start, ops)
            == marks + LookMark(cfg, r, o.t) + AddMarks(cfg, Looked(cfg, r, o.t), o.key, o.t.add);
      }
    }
  }

  lemma {:induction false} RecentIsHeld(marks: seq<Mark>, key: string)
    ensures key in Current(marks) <==> RotationsSince(marks, key) == Some(0)
    ensures RotationsSince(marks, key) == Some(1) ==> Previous(marks).Some? && key in Previous(marks).value
  {
    if marks != [] { RecentIsHeld(marks[..|marks| - 1], key); }
  }

  /** One of the generations that these marks leave covers the key's bits. */
  predicate BitsCovered(h: Hash, marks: seq<Mark>, key: string) {
    || h(key) <= Bits(h, Current(marks))
    || (Previous(marks).Some? && h(key) <= Bits(h, Previous(marks).value))
  }

  /** The key was added, two rotations came since, and no generation covers its bits by other keys. */
  predicate Forgotten(h: Hash, marks: seq<Mark>, key: string) {
    RotationsSince(marks, key).Some? && RotationsSince(marks, key).value >= 2 && !BitsCovered(h, marks, key)
  }

  lemma KeyIsCovered(h: Hash, keys: set<string>, key: string)
    requires key in keys
    ensures h(key) <= Bits(h, keys)
  {
  }

  /** A filter misses a key it was given exactly if it was forgotten so. */
  lemma MissedIff(cfg: Config, r: Rotating, marks: seq<Mark>, key: string)
    requires Holds(cfg.hash, r, marks) && RotationsSince(marks, key).Some?
    ensures !InEither(cfg, r, key) <==> Forgotten(cfg.hash, marks, key)
  {
    RecentIsHeld(marks, key);
    if RotationsSince(marks, key) == Some(0) { KeyIsCovered(cfg.hash, Current(marks), key); }
    if RotationsSince(marks, key) == Some(1) { KeyIsCovered(cfg.hash, Previous(marks).value, key); }
  }

  /** One addition makes the filter forget a key it held, exactly if it retires a full generation
      that does not cover the key, and the key it adds does not either. */
  lemma AddForgetsIff(cfg: Config, r: Rotating, key: string, now: int, burst: int, other: string)
    requires InEither(cfg, RotateIfDue(cfg, r, now), other)
    ensures !InEither(cfg, AddKey(cfg, r, key, now, burst), other) <==>
            && Full(cfg, RotateIfDue(cfg, r, now).cur)
            && !Contains(cfg.hash, RotateIfDue(cfg, r, now).cur, other)
            && !(cfg.hash(other) <= cfg.hash(key))
  {
  }

  // ---- When the filter in front of the state can be observed ----

  /** The filter as an event's look-up finds it. */
  function MarksAtLook(cfg: Config, start: int, before: seq<Op>, t: Ticks): seq<Mark> {
    Marks(cfg, start, before) + LookMark(cfg, Run(cfg, start, before).bloom, t)
  }

  /** At this event a warm filter has forgotten a key whose state entry is live. */
  predicate ForgetsLive(cfg: Config, start: int, before: seq<Op>, o: Op) {
    && o.Event? && IsWarm(cfg, Run(cfg, start, before).bloom, o.t.warm)
    && Visible(cfg, PlainRun(cfg, before), o.key, o.t.read)
    && Forgotten(cfg.hash, MarksAtLook(cfg, start, before, o.t), o.key)
  }

  predicate NeverForgetsLive(cfg: Config, start: int, ops: seq<Op>) {
    ops != [] ==>
      && NeverForgetsLive(cfg, start, ops[..|ops| - 1])
      && !ForgetsLive(cfg, start, ops[..|ops| - 1], ops[|ops| - 1])
  }

  lemma {:induction false} StaysAdded(marks: seq<Mark>, more: seq<Mark>, key: string)
    requires RotationsSince(marks, key).Some?
    ensures RotationsSince(marks + more, key).Some?
  {
    if more == [] {
      assert marks + more == marks;
    } else {
      assert (marks + more)[..|marks + more| - 1] == marks + more[..|more| - 1];
      StaysAdded(marks, more[..|more| - 1], key);
    }
  }

  /** A state entry younger than the filter was written by an event the filter was told of. */
  ghost predicate Told(seen: Seen, marks: seq<Mark>, startedMs: int, now: int, key: string) {
    key in seen ==> seen[key] <= now && (seen[key] > startedMs ==> RotationsSince(marks, key).Some?)
  }

  lemma EventTells(cfg: Config, seen: Seen, marks: seq<Mark>, marks': seq<Mark>, startedMs: int, now: int, o: Op,
                   key: string)
    requires Told(seen, marks, startedMs, now, key) && o.Event? && now <= o.t.warm && o.t.Ascending()
    requires o.key == key || RotationsSince(marks, key).Some? ==> RotationsSince(marks', key).Some?
    ensures Told(PlainStep(cfg, seen, o), marks', startedMs, o.t.burst, key)
  {
  }

  lemma EventAdds(cfg: Config, start: int, before: seq<Op>, o: Op, key: string)
    requires o.Event? && (o.key == key || RotationsSince(Marks(cfg, start, before), key).Some?)
    ensures RotationsSince(Marks(cfg, start, before + [o]), key).Some?
  {
    assert (before + [o])[..|before|] == before;
    var r, marks := Run(cfg, start, before).bloom, Marks(cfg, start, before);
    var more := LookMark(cfg, r, o.t) + AddMarks(cfg, Looked(cfg, r, o.t), o.key, o.t.add);
    assert Marks(cfg, start, before + [o]) == marks + more;
    if o.key == key {
      assert (marks + more)[|marks + more| - 1] == Added(key);
    } else {
      StaysAdded(marks, more, key);
    }
  }

  lemma {:induction false} YoungEntriesWereAdded(cfg: Config, start: int, ops: seq<Op>, key: string)
    requires Ordered(start, ops)
    ensures Told(PlainRun(cfg, ops), Marks(cfg, start, ops), Run(cfg, start, ops).bloom.startedMs,
                 LastTick(start, ops), key)
  {
    if ops != [] {
      var before, o := ops[..|ops| - 1], ops[|ops| - 1];
      YoungEntriesWereAdded(cfg, start, before, key);
      assert before + [o] == ops;
      if o.Event? {
        if o.key == key || RotationsSince(Marks(cfg, start, before), key).Some? {
          EventAdds(cfg, start, before, o, key);
        }
        EventTells(cfg, PlainRun(cfg, before), Marks(cfg, start, before), Marks(cfg, start, ops),
                   Run(cfg, start, before).bloom.startedMs, LastTick(start, before), o, key);
      }
    }
  }

  lemma ForgetsIsMiss(cfg: Config, start: int, before: seq<Op>, o: Op)
    requires Ordered(start, before + [o]) && o.Event?
    ensures ForgetsLive(cfg, start, before, o) <==>
            && Skips(cfg, Run(cfg, start, before).bloom, o.key, o.t)
            && Visible(cfg, PlainRun(cfg, before), o.key, o.t.read)
  {
    assert (before + [o])[..|before|] == before;
    var r, marks := Run(cfg, start, before).bloom, Marks(cfg, start, before);
    if IsWarm(cfg, r, o.t.warm) && Visible(cfg, PlainRun(cfg, before), o.key, o.t.read) {
      YoungEntriesWereAdded(cfg, start, before, o.key);
      StaysAdded(marks, LookMark(cfg, r, o.t), o.key);
      FilterHoldsExactly(cfg, start, before);
      DueHolds(cfg, r, marks, o.t.look);
      MissedIff(cfg, RotateIfDue(cfg, r, o.t.look), marks + LookMark(cfg, r, o.t), o.key);
    }
  }

  /** Exactly when the pre-check changes nothing: with a clock that never goes back, the operator yields
      what the plain operator yields if and only if at no event a warm filter has forgotten a key whose
      state entry is live, that is, seen two rotations since and not got its bits from other keys. */
  lemma {:induction false} FilterRefinesStateIff(cfg: Config, start: int, ops: seq<Op>)
    requires Ordered(start, ops)
    ensures Yielded(cfg, start, ops) == PlainYielded(cfg, ops) <==> NeverForgetsLive(cfg, start, ops)
    ensures NeverForgetsLive(cfg, start, ops) ==> Run(cfg, start, ops).seen == PlainRun(cfg, ops)
    ensures |Yielded(cfg, start, ops)| == |PlainYielded(cfg, ops)| == |ops|
  {
    if ops != [] {
      var before, o := ops[..|ops| - 1], ops[|ops| - 1];
      FilterRefinesStateIff(cfg, start, before);
      var out, plain := Yielded(cfg, start, ops), PlainYielded(cfg, ops);
      assert out[..|before|] == Yielded(cfg, start, before) && plain[..|before|] == PlainYielded(cfg, before);
      assert out == plain <==> out[..|before|] == plain[..|before|] && out[|before|] == plain[|before|];
      if o.Event? {
        assert before + [o] == ops;
        ForgetsIsMiss(cfg, start, before, o);
      }
    }
  }

  /** The pace suffices: at most capacity + 1 additions in any interval shorter than the TTL. */
  lemma PaceSuffices(cfg: Config, start: int, ops: seq<Op>)
    requires cfg.capacity > 0 && Ordered(start, ops) && Paced(cfg, ops)
    ensures NeverForgetsLive(cfg, start, ops)
  {
    FilterRefinesState(cfg, start, ops);
    FilterRefinesStateIff(cfg, start, ops);
  }

  /** Then two yields of one span id are at least a TTL apart, and every dropped event repeats one
      yielded less than a TTL before; with the Bloom pre-check in place, across restarts. */
  lemma DeduplicatesWithinTtl(cfg: Config, start: int, ops: seq<Op>, j: nat)
    requires Ordered(start, ops) && NeverForgetsLive(cfg, start, ops) && NoRewind(ops)
    requires j < |ops| && ops[j].Event?
    ensures var out := Yielded(cfg, start, ops);
            && |out| == |ops|
            && (out[j] ==> forall i :: EarlierYield(ops, out, i, j) ==> ops[j].t.read - ops[i].t.write >= cfg.ttlMs)
            && (!out[j] ==> exists i :: EarlierYield(ops, out, i, j) && ops[j].t.read - ops[i].t.write < cfg.ttlMs)
  {
    var key := ops[j].key;
    FilterRefinesStateIff(cfg, start, ops);
    YieldPrefix(cfg, ops, j);
    OrderedPrefix(start, ops, j);
    StateIsLastYield(cfg, start, ops[..j], key);
    var out := Yielded(cfg, start, ops);
    forall i | EarlierYield(ops, out, i, j)
      ensures YieldOf(cfg, ops[..j], key, i) && ops[..j][i] == ops[i]
    {
      YieldSince(cfg, ops, j, key, i);
    }
    if !out[j] {
      var i :| YieldOf(cfg, ops[..j], key, i) && ops[..j][i].t.write == PlainRun(cfg, ops[..j])[key];
      YieldSince(cfg, ops, j, key, i);
      assert ops[..j][i] == ops[i];
    }
  }

  // ---- The pace matters ----

  /** Keys of different lengths have different bits; there is room for one key a generation. */
  const TINY: Config := Config(1000, 1, (key: string) => {|key|})

  function At(now: int): Ticks { Ticks(now, now, now, now, now, now) }

  lemma Snoc(cfg: Config, start: int, ops: seq<Op>, o: Op)
    ensures var ops' := ops + [o];
            && Run(cfg, start, ops') == Step(cfg, Run(cfg, start, ops), o)
            && PlainRun(cfg, ops') == PlainStep(cfg, PlainRun(cfg, ops), o)
            && Yielded(cfg, start, ops') ==
                 Yielded(cfg, start, ops) + [o.Event? && Yields(cfg, Run(cfg, start, ops), o.key, o.t)]
            && PlainYielded(cfg, ops') ==
                 PlainYielded(cfg, ops) + [o.Event? && !Visible(cfg, PlainRun(cfg, ops), o.key, o.t.read)]
            && LastTick(start, ops') == (if o.Event? then o.t.burst else o.now)
            && (o.Event? && Ordered(start, ops) && LastTick(start, ops) <= o.t.warm && o.t.Ascending() ==>
                Ordered(start, ops'))
  {
    assert (ops + [o])[..|ops|] == ops;
  }

  function Three(x: int, y: int, z: int): seq<Op> {
    [Event("a", At(x)), Event("bb", At(y)), Event("ccc", At(z))]
  }

  /** So far both operators agree, and everything was yielded. */
  ghost predicate AllYielded(cfg: Config, ops: seq<Op>, now: int, r: Rotating, seen: Seen) {
    && Ordered(0, ops) && LastTick(0, ops) == now
    && Run(cfg, 0, ops) == Operator(r, seen) && PlainRun(cfg, ops) == seen
    && Yielded(cfg, 0, ops) == seq(|ops|, _ => true) == PlainYielded(cfg, ops)
  }

  lemma NewKeyYielded(cfg: Config, ops: seq<Op>, now: int, r: Rotating, seen: Seen, key: string, later: int)
    requires AllYielded(cfg, ops, now, r, seen) && key !in seen && now <= later
    ensures AllYielded(cfg, ops + [Event(key, At(later))], later,
                       AddKey(cfg, Looked(cfg, r, At(later)), key, later, later),
                       seen[key := later])
  {
    Snoc(cfg, 0, ops, Event(key, At(later)));
  }

  /** Three different keys in a row are all yielded, whatever the filter goes through. */
  lemma ThreeYielded(cfg: Config, x: int, y: int, z: int, r1: Rotating, r2: Rotating, r3: Rotating)
    requires 0 <= x <= y <= z
    requires AddKey(cfg, Looked(cfg, Started(0), At(x)), "a", x, x) == r1
    requires AddKey(cfg, Looked(cfg, r1, At(y)), "bb", y, y) == r2
    requires AddKey(cfg, Looked(cfg, r2, At(z)), "ccc", z, z) == r3
    ensures AllYielded(cfg, Three(x, y, z), z, r3, map["a" := x, "bb" := y, "ccc" := z])
  {
    var a, b := Event("a", At(x)), Event("bb", At(y));
    assert AllYielded(cfg, [], 0, Started(0), map[]);
    NewKeyYielded(cfg, [], 0, Started(0), map[], "a", x);
    assert [] + [a] == [a];
    NewKeyYielded(cfg, [a], x, r1, map["a" := x], "bb", y);
    assert [a] + [b] == [a, b];
    NewKeyYielded(cfg, [a, b], y, r2, map["a" := x, "bb" := y], "ccc", z);
    assert [a, b] + [Event("ccc", At(z))] == Three(x, y, z);
  }

  /** The repeat of a key the filter has lost is yielded again, though its state entry is live. */
  lemma LostRepeatYielded(cfg: Config, ops: seq<Op>, now: int, r: Rotating, seen: Seen, key: string, later: int)
    requires AllYielded(cfg, ops, now, r, seen) && key in seen && now <= later < seen[key] + cfg.ttlMs
    requires IsWarm(cfg, r, later) && later - r.rotatedMs < cfg.ttlMs && !InEither(cfg, r, key)
    ensures Ordered(0, ops + [Event(key, At(later))])
    ensures Yielded(cfg, 0, ops + [Event(key, At(later))]) == seq(|ops|, _ => true) + [true]
    ensures PlainYielded(cfg, ops + [Event(key, At(later))]) == seq(|ops|, _ => true) + [false]
  {
    Snoc(cfg, 0, ops, Event(key, At(later)));
  }

  /** ... and the repeat of the first is yielded with them, if the filter lost it. */
  ghost predicate FourthToo(cfg: Config, x: int, y: int, z: int, w: int) {
    var ops := Three(x, y, z) + [Event("a", At(w))];
    && Ordered(0, ops) && w - x < cfg.ttlMs
    && Yielded(cfg, 0, ops) == [true, true, true, true]
    && PlainYielded(cfg, ops) == [true, true, true, false]
  }

  lemma FourthYielded(cfg: Config, x: int, y: int, z: int, w: int, r1: Rotating, r2: Rotating, r3: Rotating)
    requires 0 <= x <= y <= z <= w < x + cfg.ttlMs
    requires AddKey(cfg, Looked(cfg, Started(0), At(x)), "a", x, x) == r1
    requires AddKey(cfg, Looked(cfg, r1, At(y)), "bb", y, y) == r2
    requires AddKey(cfg, Looked(cfg, r2, At(z)), "ccc", z, z) == r3
    requires IsWarm(cfg, r3, w) && w - r3.rotatedMs < cfg.ttlMs && !InEither(cfg, r3, "a")
    ensures FourthToo(cfg, x, y, z, w)
  {
    ThreeYielded(cfg, x, y, z, r1, r2, r3);
    LostRepeatYielded(cfg, Three(x, y, z), z, r3, map["a" := x, "bb" := y, "ccc" := z], "a", w);
  }

  /** Capacity + 2 additions within a TTL are too many: two bursts forget the first key while its
      state entry is live, and its repeat is yielded again. */
  lemma BurstsForgetLiveKeys()
    ensures FourthToo(TINY, 1000, 1000, 1000, 1001)
  {
    FourthYielded(TINY, 1000, 1000, 1000, 1001, Rotating(0, 1000, Bloom({1}, 1), Some(EMPTY)),
                  Rotating(0, 1000, Bloom({2}, 1), Some(Bloom({1}, 1))),
                  Rotating(0, 1000, Bloom({3}, 1), Some(Bloom({2}, 1))));
  }

  /** So are a due rotation and a burst. */
  lemma DueThenBurstForgets()
    ensures FourthToo(TINY, 999, 1000, 1001, 1002)
  {
    FourthYielded(TINY, 999, 1000, 1001, 1002, Rotating(0, 0, Bloom({1}, 1), None),
                  Rotating(0, 1000, Bloom({2}, 1), Some(Bloom({1}, 1))),
                  Rotating(0, 1001, Bloom({3}, 1), Some(Bloom({2}, 1))));
  }
}
