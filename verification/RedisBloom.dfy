/** Span deduplication on shared Redis bitmaps, one per time bucket. Commands of different callers
    interleave freely; the server runs them one at a time. Times are in milliseconds. */
module RedisBloom {

  /** positions gives the i-th bit position of an item: any function, as far as the theorems go. */
  datatype Config = Config(numHashes: nat, bucketMs: nat, positions: (string, nat) -> nat)

  ghost predicate ValidConfig(cfg: Config) {
    cfg.numHashes > 0 && cfg.bucketMs > 0
  }

  const SLACK_MS: int := 60_000

  /** The digest's second half is made odd with `| 1`. */
  function MakeOdd(h: nat): nat {
    if h % 2 == 0 then h + 1 else h
  }

  /** Double hashing: k positions from the two halves of one digest. */
  function DoubleHashing(digest: string -> (nat, nat), numBits: nat): (string, nat) -> nat
    requires numBits > 0
  {
    (item: string, i: nat) => (digest(item).0 + i * MakeOdd(digest(item).1)) % numBits
  }

  lemma PositionsAreDoubleHashed(digest: string -> (nat, nat), numBits: nat, item: string, i: nat)
    requires numBits > 0
    ensures exists odd: nat ::
      OddFrom(digest(item).1, odd) && DoubleHashing(digest, numBits)(item, i) == (digest(item).0 + i * odd) % numBits
  {
    assert OddFrom(digest(item).1, MakeOdd(digest(item).1));
  }

  /** `h | 1`. */
  predicate OddFrom(h: nat, odd: nat) {
    odd % 2 == 1 && h <= odd <= h + 1
  }

  function Position(cfg: Config, item: string, i: nat): nat {
    cfg.positions(item, i)
  }

  function BucketOf(cfg: Config, clock: int): int
    requires ValidConfig(cfg)
  {
    clock / cfg.bucketMs
  }

  // ---- The server ----

  datatype Command =
    | GetBit(bucket: int, position: nat)
    | SetBit(bucket: int, position: nat)
    | Expire(bucket: int, ttl: int)

  /** A command and the server time it ran at. */
  datatype Timed = Timed(at: int, command: Command)

  datatype Server = Server(bits: map<int, set<nat>>, expiry: map<int, int>)

  const NEW_SERVER := Server(map[], map[])

  predicate Alive(s: Server, bucket: int, now: int) {
    bucket in s.bits && (bucket in s.expiry ==> now < s.expiry[bucket])
  }

  predicate IsSet(s: Server, bucket: int, position: nat, now: int) {
    Alive(s, bucket, now) && position in s.bits[bucket]
  }

  function Exec(s: Server, c: Timed): Server {
    match c.command
    case GetBit(_, _) => s
    case SetBit(b, p) =>
      if Alive(s, b, c.at) then s.(bits := s.bits[b := s.bits[b] + {p}])
      else Server(s.bits[b := {p}], s.expiry - {b})
    case Expire(b, ttl) =>
      if Alive(s, b, c.at) then s.(expiry := s.expiry[b := c.at + ttl]) else s
  }

  function After(log: seq<Timed>): Server {
    if log == [] then NEW_SERVER else Exec(After(log[..|log| - 1]), log[|log| - 1])
  }

  /** Server time does not go back. */
  ghost predicate Ordered(log: seq<Timed>) {
    forall i, j :: 0 <= i <= j < |log| ==> log[i].at <= log[j].at
  }

  /** Every EXPIRE comes from a call that read its clock in, or after the start of, that bucket. */
  ghost predicate ExpiresOwnBucket(cfg: Config, log: seq<Timed>) {
    forall i :: 0 <= i < |log| && log[i].command.Expire? ==>
      && log[i].command.ttl == 2 * cfg.bucketMs + SLACK_MS
      && log[i].at >= log[i].command.bucket * cfg.bucketMs
  }

  /** No bitmap goes before this time: the end of the next bucket, and the slack. */
  function Deadline(cfg: Config, bucket: int): int {
    (bucket + 2) * cfg.bucketMs + SLACK_MS
  }

  lemma {:induction false} ExpiryAfterDeadline(cfg: Config, log: seq<Timed>, bucket: int)
    requires ExpiresOwnBucket(cfg, log)
    ensures bucket in After(log).expiry ==> After(log).expiry[bucket] >= Deadline(cfg, bucket)
  {
    if log != [] {
      ExpiryAfterDeadline(cfg, log[..|log| - 1], bucket);
      var c := log[|log| - 1];
      if c.command.Expire? && c.command.bucket == bucket {
        assert c.at >= bucket * cfg.bucketMs;
        assert (bucket + 2) * cfg.bucketMs == bucket * cfg.bucketMs + 2 * cfg.bucketMs;
      }
    }
  }

  /** A bit once set stays set until its bucket's deadline, whatever commands run in between. */
  lemma {:induction false} BitStays(cfg: Config, log: seq<Timed>, i: nat, bucket: int, position: nat, now: int)
    requires Ordered(log) && ExpiresOwnBucket(cfg, log) && i < |log|
    requires log[i].command == SetBit(bucket, position)
    requires log[|log| - 1].at <= now < Deadline(cfg, bucket)
    ensures IsSet(After(log), bucket, position, now)
  {
    var n := |log| - 1;
    ExpiryAfterDeadline(cfg, log, bucket);
    ExpiryAfterDeadline(cfg, log[..n], bucket);
    if i < n {
      assert log[..n][i] == log[i] && log[..n][n - 1] == log[n - 1];
      BitStays(cfg, log[..n], i, bucket, position, log[n].at);
    }
  }

  // ---- Calls ----

  /** The commands a call has run, by their places in the log: a read of each position in the
      current and in the previous bitmap, each within the slack of the call's clock reading. */
  ghost predicate Reads(cfg: Config, log: seq<Timed>, item: string, clock: int, current: seq<nat>, previous: seq<nat>)
    requires ValidConfig(cfg)
  {
    && |current| == |previous| == cfg.numHashes
    && (forall r :: 0 <= r < cfg.numHashes ==> ReadsAt(cfg, log, item, clock, current[r], BucketOf(cfg, clock), r))
    && (forall r :: 0 <= r < cfg.numHashes ==> ReadsAt(cfg, log, item, clock, previous[r], BucketOf(cfg, clock) - 1, r))
  }

  ghost predicate ReadsAt(cfg: Config, log: seq<Timed>, item: string, clock: int, at: nat, bucket: int, r: nat)
    requires ValidConfig(cfg)
  {
    && at < |log| && log[at].command == GetBit(bucket, Position(cfg, item, r))
    && clock <= log[at].at < clock + SLACK_MS
  }

  /** All its SETBITs done. */
  ghost predicate Writes(cfg: Config, log: seq<Timed>, item: string, clock: int, writes: seq<nat>)
    requires ValidConfig(cfg)
  {
    && |writes| == cfg.numHashes
    && (forall r :: 0 <= r < cfg.numHashes ==>
          writes[r] < |log| && log[writes[r]].command == SetBit(BucketOf(cfg, clock), Position(cfg, item, r)))
  }

  /** The reply of the GETBIT at this place. */
  ghost predicate Reply(log: seq<Timed>, at: nat)
    requires at < |log| && log[at].command.GetBit?
  {
    IsSet(After(log[..at]), log[at].command.bucket, log[at].command.position, log[at].at)
  }

  /** What the call answers from its replies: seen if every bit was set in either bitmap. */
  ghost predicate Answer(cfg: Config, log: seq<Timed>, item: string, clock: int, current: seq<nat>, previous: seq<nat>)
    requires ValidConfig(cfg) && Reads(cfg, log, item, clock, current, previous)
  {
    || (forall r :: 0 <= r < cfg.numHashes ==>
        ReadsAt(cfg, log, item, clock, current[r], BucketOf(cfg, clock), r) && Reply(log, current[r]))
    || (forall r :: 0 <= r < cfg.numHashes ==>
        ReadsAt(cfg, log, item, clock, previous[r], BucketOf(cfg, clock) - 1, r) && Reply(log, previous[r]))
  }

  /** Some command before this place set the bit. */
  ghost predicate SetBefore(log: seq<Timed>, at: nat, bucket: int, position: nat) {
    exists w: nat :: w < at && w < |log| && log[w].command == SetBit(bucket, position)
  }

  /** A bit that is set was set by somebody. */
  lemma {:induction false} BitWasSet(log: seq<Timed>, bucket: int, position: nat)
    requires bucket in After(log).bits && position in After(log).bits[bucket]
    ensures SetBefore(log, |log|, bucket, position)
  {
    var n := |log| - 1;
    if log[n].command != SetBit(bucket, position) {
      BitWasSet(log[..n], bucket, position);
      var w: nat :| w < n && log[..n][w].command == SetBit(bucket, position);
      assert log[w].command == SetBit(bucket, position);
    }
  }

  lemma ReplyIff(cfg: Config, log: seq<Timed>, at: nat, bucket: int, position: nat)
    requires Ordered(log) && ExpiresOwnBucket(cfg, log)
    requires at < |log| && log[at].command == GetBit(bucket, position) && log[at].at < Deadline(cfg, bucket)
    ensures Reply(log, at) <==> SetBefore(log, at, bucket, position)
  {
    if Reply(log, at) {
      BitWasSet(log[..at], bucket, position);
      var w: nat :| w < at && log[..at][w].command == SetBit(bucket, position);
      assert log[w].command == SetBit(bucket, position);
    }
    if w: nat :| w < at && log[w].command == SetBit(bucket, position) {
      assert log[..at][w] == log[w];
      BitStays(cfg, log[..at], w, bucket, position, log[at].at);
    }
  }

  /** Every position of the item was set in this bitmap before the call read it. */
  ghost predicate AllSetBefore(cfg: Config, log: seq<Timed>, item: string, bucket: int, probes: seq<nat>)
    requires ValidConfig(cfg) && |probes| == cfg.numHashes
  {
    forall r :: 0 <= r < cfg.numHashes ==> SetBefore(log, probes[r], bucket, Position(cfg, item, r))
  }

  lemma AllRepliesIff(cfg: Config, log: seq<Timed>, item: string, clock: int, bucket: int, probes: seq<nat>)
    requires ValidConfig(cfg) && Ordered(log) && ExpiresOwnBucket(cfg, log) && |probes| == cfg.numHashes
    requires bucket == BucketOf(cfg, clock) || bucket == BucketOf(cfg, clock) - 1
    requires forall r :: 0 <= r < cfg.numHashes ==> ReadsAt(cfg, log, item, clock, probes[r], bucket, r)
    ensures (forall r :: 0 <= r < cfg.numHashes ==>
             ReadsAt(cfg, log, item, clock, probes[r], bucket, r) && Reply(log, probes[r]))
       <==> AllSetBefore(cfg, log, item, bucket, probes)
  {
    BucketEnds(cfg, clock);
    NextBucket(cfg, bucket, BucketOf(cfg, clock));
    forall r | 0 <= r < cfg.numHashes
      ensures Reply(log, probes[r]) <==> SetBefore(log, probes[r], bucket, Position(cfg, item, r))
    {
      assert ReadsAt(cfg, log, item, clock, probes[r], bucket, r);
      ReplyIff(cfg, log, probes[r], bucket, Position(cfg, item, r));
    }
  }

  /** Exactly when a call answers "seen", whatever other callers' commands interleave: in the current
      or in the previous bitmap, each position of the item had been set before the call read it. */
  lemma AnswerIff(cfg: Config, log: seq<Timed>, item: string, clock: int, current: seq<nat>, previous: seq<nat>)
    requires ValidConfig(cfg) && Ordered(log) && ExpiresOwnBucket(cfg, log)
    requires Reads(cfg, log, item, clock, current, previous)
    ensures Answer(cfg, log, item, clock, current, previous) <==>
            || AllSetBefore(cfg, log, item, BucketOf(cfg, clock), current)
            || AllSetBefore(cfg, log, item, BucketOf(cfg, clock) - 1, previous)
  {
    AllRepliesIff(cfg, log, item, clock, BucketOf(cfg, clock), current);
    AllRepliesIff(cfg, log, item, clock, BucketOf(cfg, clock) - 1, previous);
  }

  /** No false negative, whatever other callers' commands interleave: once a call's bits are set,
      every later call for the item whose clock reads the same or the next bucket answers "seen". */
  lemma SeenOnceWritten(cfg: Config, log: seq<Timed>, item: string, clock: int, writes: seq<nat>,
                        later: int, current: seq<nat>, previous: seq<nat>)
    requires ValidConfig(cfg) && Ordered(log) && ExpiresOwnBucket(cfg, log)
    requires Writes(cfg, log, item, clock, writes)
    requires Reads(cfg, log, item, later, current, previous)
    requires forall r, q :: 0 <= r < cfg.numHashes && 0 <= q < cfg.numHashes ==>
      writes[r] < current[q] && writes[r] < previous[q]
    requires BucketOf(cfg, later) == BucketOf(cfg, clock) || BucketOf(cfg, later) == BucketOf(cfg, clock) + 1
    ensures Answer(cfg, log, item, later, current, previous)
  {
    AnswerIff(cfg, log, item, later, current, previous);
    var probes := if BucketOf(cfg, later) == BucketOf(cfg, clock) then current else previous;
    assert AllSetBefore(cfg, log, item, BucketOf(cfg, clock), probes);
  }

  predicate SetsSeen(cfg: Config, c: Timed, item: string, later: int, bucket: int, r: nat)
    requires ValidConfig(cfg)
  {
    && BucketOf(cfg, later) - 1 <= bucket <= BucketOf(cfg, later)
    && c.command == SetBit(bucket, Position(cfg, item, r))
  }

  /** Nobody but this call sets the item's bits where the later call looks. */
  ghost predicate OnlyWriter(cfg: Config, log: seq<Timed>, item: string, clock: int, writes: seq<nat>, later: int)
    requires ValidConfig(cfg) && |writes| == cfg.numHashes
  {
    forall w: nat, r, b :: w < |log| && 0 <= r < cfg.numHashes && SetsSeen(cfg, log[w], item, later, b, r) ==>
        w in writes
  }

  /** The call read this position before any of those writes set it. */
  ghost predicate ReadTooSoon(cfg: Config, item: string, writes: seq<nat>, probes: seq<nat>, r: nat)
    requires ValidConfig(cfg) && |writes| == |probes| == cfg.numHashes && r < cfg.numHashes
  {
    forall q :: 0 <= q < cfg.numHashes && Position(cfg, item, q) == Position(cfg, item, r) ==> probes[r] <= writes[q]
  }

  lemma TooSoonIff(cfg: Config, log: seq<Timed>, item: string, clock: int, writes: seq<nat>, later: int,
                   probes: seq<nat>, r: nat)
    requires ValidConfig(cfg) && Writes(cfg, log, item, clock, writes) &&
        OnlyWriter(cfg, log, item, clock, writes, later)
    requires |probes| == cfg.numHashes && r < cfg.numHashes
    requires BucketOf(cfg, later) == BucketOf(cfg, clock) || BucketOf(cfg, later) == BucketOf(cfg, clock) + 1
    ensures SetBefore(log, probes[r], BucketOf(cfg, clock), Position(cfg, item, r)) <==>
        !ReadTooSoon(cfg, item, writes, probes, r)
  {
    var b, p := BucketOf(cfg, clock), Position(cfg, item, r);
    if w: nat :| w < probes[r] && w < |log| && log[w].command == SetBit(b, p) {
      assert SetsSeen(cfg, log[w], item, later, b, r);
      var q :| 0 <= q < |writes| && writes[q] == w;
      assert log[writes[q]].command == SetBit(b, Position(cfg, item, q));
    }
    if !ReadTooSoon(cfg, item, writes, probes, r) {
      var q :| 0 <= q < cfg.numHashes && Position(cfg, item, q) == p && writes[q] < probes[r];
      assert log[writes[q]].command == SetBit(b, p);
    }
  }

  lemma WriterBitmapIff(cfg: Config, log: seq<Timed>, item: string, clock: int, writes: seq<nat>, later: int,
                        probes: seq<nat>)
    requires ValidConfig(cfg) && Writes(cfg, log, item, clock, writes) &&
        OnlyWriter(cfg, log, item, clock, writes, later)
    requires |probes| == cfg.numHashes
    requires BucketOf(cfg, later) == BucketOf(cfg, clock) || BucketOf(cfg, later) == BucketOf(cfg, clock) + 1
    ensures !AllSetBefore(cfg, log, item, BucketOf(cfg, clock), probes) <==>
            exists r: nat :: r < cfg.numHashes && ReadTooSoon(cfg, item, writes, probes, r)
  {
    forall r: nat | r < cfg.numHashes
      ensures SetBefore(log, probes[r], BucketOf(cfg, clock), Position(cfg, item, r)) <==>
              !ReadTooSoon(cfg, item, writes, probes, r)
    {
      TooSoonIff(cfg, log, item, clock, writes, later, probes, r);
    }
  }

  lemma OtherBitmapUnset(cfg: Config, log: seq<Timed>, item: string, clock: int, writes: seq<nat>, later: int,
                         bucket: int, probes: seq<nat>)
    requires ValidConfig(cfg) && Writes(cfg, log, item, clock, writes) &&
        OnlyWriter(cfg, log, item, clock, writes, later)
    requires BucketOf(cfg, later) - 1 <= bucket <= BucketOf(cfg, later) && bucket != BucketOf(cfg, clock)
    requires |probes| == cfg.numHashes
    ensures !AllSetBefore(cfg, log, item, bucket, probes)
  {
    forall w: nat | w < |log| ensures log[w].command != SetBit(bucket, Position(cfg, item, 0)) {
      if w in writes {
        var q :| 0 <= q < |writes| && writes[q] == w;
        assert log[writes[q]].command == SetBit(BucketOf(cfg, clock), Position(cfg, item, q));
      } else {
        assert !SetsSeen(cfg, log[w], item, later, bucket, 0);
      }
    }
    assert !SetBefore(log, probes[0], bucket, Position(cfg, item, 0));
  }

  /** Exactly when a second call for an item new to the filter is told "new" as well: the test and the
      write are separate pipelines, and it read some position before the first call had set it. */
  lemma SecondAdmittedIff(cfg: Config, log: seq<Timed>, item: string, clock: int, writes: seq<nat>,
                          later: int, current: seq<nat>, previous: seq<nat>)
    requires ValidConfig(cfg) && Ordered(log) && ExpiresOwnBucket(cfg, log)
    requires Writes(cfg, log, item, clock, writes) && OnlyWriter(cfg, log, item, clock, writes, later)
    requires Reads(cfg, log, item, later, current, previous)
    requires BucketOf(cfg, later) == BucketOf(cfg, clock) || BucketOf(cfg, later) == BucketOf(cfg, clock) + 1
    ensures var probes := if BucketOf(cfg, later) == BucketOf(cfg, clock) then current else previous;
            !Answer(cfg, log, item, later, current, previous) <==>
            exists r: nat :: r < cfg.numHashes && ReadTooSoon(cfg, item, writes, probes, r)
  {
    AnswerIff(cfg, log, item, later, current, previous);
    if BucketOf(cfg, later) == BucketOf(cfg, clock) {
      OtherBitmapUnset(cfg, log, item, clock, writes, later, BucketOf(cfg, later) - 1, previous);
      WriterBitmapIff(cfg, log, item, clock, writes, later, current);
    } else {
      OtherBitmapUnset(cfg, log, item, clock, writes, later, BucketOf(cfg, later), current);
      WriterBitmapIff(cfg, log, item, clock, writes, later, previous);
    }
  }

  lemma BucketEnds(cfg: Config, clock: int)
    requires ValidConfig(cfg)
    ensures BucketOf(cfg, clock) * cfg.bucketMs <= clock < (BucketOf(cfg, clock) + 1) * cfg.bucketMs
  {
  }

  lemma NextBucket(cfg: Config, b: int, c: int)
    requires c == b || c == b + 1
    ensures (c + 1) * cfg.bucketMs + SLACK_MS <= Deadline(cfg, b)
  {
  }

  /** In particular within one bucket length of the first call's clock reading. */
  lemma WithinOneBucket(cfg: Config, clock: int, later: int)
    requires ValidConfig(cfg) && clock <= later <= clock + cfg.bucketMs
    ensures BucketOf(cfg, later) == BucketOf(cfg, clock) || BucketOf(cfg, later) == BucketOf(cfg, clock) + 1
  {
    var b, c := BucketOf(cfg, clock), BucketOf(cfg, later);
    BucketEnds(cfg, clock);
    BucketEnds(cfg, later);
    if c > b + 1 { Grows(b + 2, c, cfg.bucketMs); }
    if c < b { Grows(c + 1, b, cfg.bucketMs); }
  }

  lemma Grows(a: int, b: int, m: nat)
    requires a <= b
    ensures a * m <= b * m
  {
  }

  /** The plainest case: two callers that both read before anybody writes both answer "new". */
  lemma RacingCallsBothAdmit(cfg: Config, log: seq<Timed>, item: string,
                             clock1: int, current1: seq<nat>, previous1: seq<nat>,
                             clock2: int, current2: seq<nat>, previous2: seq<nat>)
    requires ValidConfig(cfg) && Ordered(log) && forall i :: 0 <= i < |log| ==> log[i].command.GetBit?
    requires Reads(cfg, log, item, clock1, current1, previous1) && Reads(cfg, log, item, clock2, current2, previous2)
    ensures !Answer(cfg, log, item, clock1, current1, previous1) && !Answer(cfg, log, item, clock2, current2, previous2)
  {
    AnswerIff(cfg, log, item, clock1, current1, previous1);
    AnswerIff(cfg, log, item, clock2, current2, previous2);
    NoneSet(cfg, log, item, BucketOf(cfg, clock1), current1);
    NoneSet(cfg, log, item, BucketOf(cfg, clock1) - 1, previous1);
    NoneSet(cfg, log, item, BucketOf(cfg, clock2), current2);
    NoneSet(cfg, log, item, BucketOf(cfg, clock2) - 1, previous2);
  }

  lemma NoneSet(cfg: Config, log: seq<Timed>, item: string, bucket: int, probes: seq<nat>)
    requires ValidConfig(cfg) && |probes| == cfg.numHashes
    requires forall i :: 0 <= i < |log| ==> log[i].command.GetBit?
    ensures !AllSetBefore(cfg, log, item, bucket, probes)
  {
    assert !SetBefore(log, probes[0], bucket, Position(cfg, item, 0));
  }

  // ---- One call among others ----

  /** When the server runs the r-th command of a stretch of a call's commands, and which commands of
      other callers it runs between that and the one before. */
  datatype Schedule = Schedule(at: nat -> int, others: nat -> seq<Timed>)

  datatype Stretch = ReadBits(bucket: int) | WriteBits(bucket: int)

  function Own(cfg: Config, item: string, s: Stretch, r: nat): Command
    requires ValidConfig(cfg)
  {
    if s.ReadBits? then GetBit(s.bucket, Position(cfg, item, r)) else SetBit(s.bucket, Position(cfg, item, r))
  }

  /** What the server runs up to and including the stretch's n-th command. */
  function Interleaved(cfg: Config, item: string, s: Stretch, t: Schedule, n: nat): seq<Timed>
    requires ValidConfig(cfg)
  {
    if n == 0 then []
    else Interleaved(cfg, item, s, t, n - 1) + t.others(n - 1) + [Timed(t.at(n - 1), Own(cfg, item, s, n - 1))]
  }

  /** The stretch's commands stand at these places in the log. */
  ghost predicate StandAt(cfg: Config, log: seq<Timed>, item: string, s: Stretch, t: Schedule, places: seq<nat>)
    requires ValidConfig(cfg)
  {
    forall r :: 0 <= r < |places| ==> places[r] < |log| && log[places[r]] == Timed(t.at(r), Own(cfg, item, s, r))
  }

  ghost predicate AllAfter(places: seq<nat>, n: nat) {
    forall r :: 0 <= r < |places| ==> places[r] >= n
  }

  /** Commands run within the slack of the call's clock reading. */
  ghost predicate Prompt(t: Schedule, clock: int) {
    forall r: nat :: clock <= t.at(r) < clock + SLACK_MS
  }

  ghost predicate Replied(log: seq<Timed>, at: nat) {
    at < |log| && log[at].command.GetBit? && Reply(log, at)
  }

  ghost predicate AllReplied(log: seq<Timed>, places: seq<nat>) {
    forall r :: 0 <= r < |places| ==> Replied(log, places[r])
  }

  lemma RepliedStays(log: seq<Timed>, longer: seq<Timed>, at: nat)
    requires log <= longer && at < |log|
    ensures Replied(longer, at) == Replied(log, at)
  {
    assert longer[..at] == log[..at];
  }

  lemma RepliesStay(log: seq<Timed>, longer: seq<Timed>, places: seq<nat>)
    requires log <= longer && forall r :: 0 <= r < |places| ==> places[r] < |log|
    ensures AllReplied(longer, places) == AllReplied(log, places)
  {
    forall r | 0 <= r < |places| ensures Replied(longer, places[r]) == Replied(log, places[r]) {
      RepliedStays(log, longer, places[r]);
    }
  }

  lemma StillStandAt(cfg: Config, log: seq<Timed>, longer: seq<Timed>, item: string, s: Stretch, t: Schedule,
                     places: seq<nat>)
    requires ValidConfig(cfg) && StandAt(cfg, log, item, s, t, places) && log <= longer
    ensures StandAt(cfg, longer, item, s, t, places)
  {
  }

  lemma OneMorePlace(cfg: Config, log: seq<Timed>, longer: seq<Timed>, item: string, s: Stretch, t: Schedule,
                     places: seq<nat>, place: nat)
    requires ValidConfig(cfg) && StandAt(cfg, log, item, s, t, places) && log <= longer
    requires place < |longer| && longer[place] == Timed(t.at(|places|), Own(cfg, item, s, |places|))
    ensures StandAt(cfg, longer, item, s, t, places + [place])
    ensures AllReplied(longer, places + [place]) <==> AllReplied(log, places) && Replied(longer, place)
  {
    RepliesStay(log, longer, places);
    var all := places + [place];
    assert forall r :: 0 <= r < |places| ==> all[r] == places[r];
    assert all[|places|] == place;
  }

  /** Two stretches of reads make up what the theorems above call the reads of a call, and its answer. */
  lemma AnswerIsReplies(cfg: Config, log: seq<Timed>, item: string, clock: int, t1: Schedule, t2: Schedule,
                        current: seq<nat>, previous: seq<nat>)
    requires ValidConfig(cfg) && Prompt(t1, clock) && Prompt(t2, clock) && |current| == |previous| == cfg.numHashes
    requires StandAt(cfg, log, item, ReadBits(BucketOf(cfg, clock)), t1, current)
    requires StandAt(cfg, log, item, ReadBits(BucketOf(cfg, clock) - 1), t2, previous)
    ensures Reads(cfg, log, item, clock, current, previous)
    ensures Answer(cfg, log, item, clock, current, previous) <==> AllReplied(log, current) || AllReplied(log, previous)
  {
    forall r | 0 <= r < cfg.numHashes
      ensures ReadsAt(cfg, log, item, clock, current[r], BucketOf(cfg, clock), r)
      ensures ReadsAt(cfg, log, item, clock, previous[r], BucketOf(cfg, clock) - 1, r)
    {
    }
  }

  lemma StoodWrites(cfg: Config, log: seq<Timed>, item: string, clock: int, t: Schedule, places: seq<nat>)
    requires ValidConfig(cfg) && |places| == cfg.numHashes
    requires StandAt(cfg, log, item, WriteBits(BucketOf(cfg, clock)), t, places)
    ensures Writes(cfg, log, item, clock, places)
  {
  }

  lemma AskLogIs(cfg: Config, before: seq<Timed>, item: string, bucket: int, t1: Schedule, t2: Schedule)
    requires ValidConfig(cfg)
    ensures before + Interleaved(cfg, item, ReadBits(bucket), t1, cfg.numHashes)
            + Interleaved(cfg, item, ReadBits(bucket - 1), t2, cfg.numHashes)
         == before + AskLog(cfg, item, bucket, t1, t2)
  {
  }

  lemma InterleavedSnoc(cfg: Config, before: seq<Timed>, item: string, s: Stretch, t: Schedule, r: nat)
    requires ValidConfig(cfg)
    ensures before + Interleaved(cfg, item, s, t, r) + t.others(r) + [Timed(t.at(r), Own(cfg, item, s, r))]
         == before + Interleaved(cfg, item, s, t, r + 1)
  {
  }

  /** A stretch's commands so far went to these places; all says that all were answered yes. */
  ghost predicate Sent(cfg: Config, before: nat, log: seq<Timed>, item: string, s: Stretch, t: Schedule,
                       places: seq<nat>, all: bool)
    requires ValidConfig(cfg)
  {
    StandAt(cfg, log, item, s, t, places) && AllAfter(places, before) && (all <==> AllReplied(log, places))
  }

  lemma NoneSent(cfg: Config, log: seq<Timed>, item: string, s: Stretch, t: Schedule)
    requires ValidConfig(cfg)
    ensures Sent(cfg, |log|, log, item, s, t, [], true) && log == log + Interleaved(cfg, item, s, t, 0)
  {
  }

  lemma SentOneMore(cfg: Config, before: nat, log: seq<Timed>, longer: seq<Timed>, item: string, s: Stretch,
                    t: Schedule, places: seq<nat>, place: nat, all: bool, bit: bool)
    requires ValidConfig(cfg) && Sent(cfg, before, log, item, s, t, places, all) && log <= longer
    requires before <= place < |longer| && longer[place] == Timed(t.at(|places|), Own(cfg, item, s, |places|))
    requires bit <==> Replied(longer, place)
    ensures Sent(cfg, before, longer, item, s, t, places + [place], all && bit)
  {
    OneMorePlace(cfg, log, longer, item, s, t, places, place);
  }

  class RedisBloomFilter {
    const cfg: Config
    var server: Server
    ghost var log: seq<Timed>

    ghost predicate Valid()
      reads this
    {
      ValidConfig(cfg) && server == After(log)
    }

    constructor (digest: string -> (nat, nat), numBits: nat, numHashes: nat, bucketMs: nat)
      requires numBits > 0 && numHashes > 0 && bucketMs > 0
      ensures Valid() && log == [] && cfg == Config(numHashes, bucketMs, DoubleHashing(digest, numBits))
    {
      cfg := Config(numHashes, bucketMs, DoubleHashing(digest, numBits));
      server := NEW_SERVER;
      log := [];
    }

    /** The server runs one command; a GETBIT is answered. */
    method Run(c: Timed) returns (reply: bool)
      requires Valid()
      modifies this
      ensures Valid() && log == old(log) + [c]
      ensures reply <==> c.command.GetBit? && Reply(log, |old(log)|)
    {
      reply := c.command.GetBit? && IsSet(server, c.command.bucket, c.command.position, c.at);
      server := Exec(server, c);
      log := log + [c];
      assert log[..|log| - 1] == old(log);
    }

    /** Commands of other callers. */
    method RunOthers(cs: seq<Timed>)
      requires Valid()
      modifies this
      ensures Valid() && log == old(log) + cs
    {
      for i := 0 to |cs|
        invariant Valid() && log == old(log) + cs[..i]
      {
        var _ := Run(cs[i]);
        assert cs[..i + 1] == cs[..i] + [cs[i]];
      }
      assert cs[..|cs|] == cs;
    }

    /** The r-th command of a stretch, after those of others. */
    method SendOne(item: string, s: Stretch, t: Schedule, r: nat) returns (reply: bool)
      requires Valid()
      modifies this
      ensures Valid() && log == old(log) + t.others(r) + [Timed(t.at(r), Own(cfg, item, s, r))]
      ensures reply <==> Replied(log, |log| - 1)
    {
      RunOthers(t.others(r));
      ghost var sofar := log;
      reply := Run(Timed(t.at(r), Own(cfg, item, s, r)));
      assert log[|sofar|] == Timed(t.at(r), Own(cfg, item, s, r));
    }

    /** The r-th command of a stretch, with what is known of those before it. */
    method SendNext(item: string, s: Stretch, t: Schedule, r: nat, ghost before: seq<Timed>, ghost places: seq<nat>,
                    all: bool)
      returns (bit: bool, ghost place: nat)
      requires Valid() && log == before + Interleaved(cfg, item, s, t, r) && r == |places|
      requires Sent(cfg, |before|, log, item, s, t, places, all)
      modifies this
      ensures Valid() && log == before + Interleaved(cfg, item, s, t, r + 1)
      ensures Sent(cfg, |before|, log, item, s, t, places + [place], all && bit)
    {
      ghost var sofar := log;
      place := |log| + |t.others(r)|;
      bit := SendOne(item, s, t, r);
      InterleavedSnoc(cfg, before, item, s, t, r);
      SentOneMore(cfg, |before|, sofar, log, item, s, t, places, place, all, bit);
    }

    /** One stretch of a call's commands, among those of the others. */
    method Send(item: string, s: Stretch, t: Schedule) returns (all: bool, ghost places: seq<nat>)
      requires Valid()
      modifies this
      ensures Valid() && log == old(log) + Interleaved(cfg, item, s, t, cfg.numHashes)
      ensures |places| == cfg.numHashes && Sent(cfg, |old(log)|, log, item, s, t, places, all)
    {
      ghost var before := log;
      all, places := true, [];
      NoneSent(cfg, log, item, s, t);
      for r: nat := 0 to cfg.numHashes
        invariant Valid() && log == before + Interleaved(cfg, item, s, t, r)
        invariant |places| == r && Sent(cfg, |before|, log, item, s, t, places, all)
      {
        var bit, place := SendNext(item, s, t, r, before, places, all);
        places := places + [place];
        all := all && bit;
      }
    }

    /** Sets every bit in the current bitmap and renews its expiry. */
    method Record(item: string, clock: int, t3: Schedule, last: Schedule) returns (ghost writes: seq<nat>)
      requires Valid()
      modifies this
      ensures Valid() && Writes(cfg, log, item, clock, writes) && AllAfter(writes, |old(log)|)
      ensures log == old(log) + RecordLog(cfg, item, clock, t3, last)
      ensures log[|log| - 1] == Timed(last.at(0), Expire(BucketOf(cfg, clock), 2 * cfg.bucketMs + 60_000))
    {
      var bucket := BucketOf(cfg, clock);
      var _, places := Send(item, WriteBits(bucket), t3);
      writes := places;
      ghost var sofar := log;
      RunOthers(last.others(0));
      var _ := Run(Timed(last.at(0), Expire(bucket, 2 * cfg.bucketMs + SLACK_MS)));
      StillStandAt(cfg, sofar, log, item, WriteBits(bucket), t3, writes);
      StoodWrites(cfg, log, item, clock, t3, writes);
    }

    /** Reads both bitmaps. */
    method Ask(item: string, bucket: int, t1: Schedule, t2: Schedule)
      returns (seen: bool, ghost current: seq<nat>, ghost previous: seq<nat>)
      requires Valid()
      modifies this
      ensures Valid() && log == old(log) + AskLog(cfg, item, bucket, t1, t2)
      ensures Asked(cfg, log, item, bucket, t1, t2, current, previous)
      ensures AllAfter(current, |old(log)|) && AllAfter(previous, |old(log)|)
      ensures seen <==> AllReplied(log, current) || AllReplied(log, previous)
    {
      ghost var before := log;
      var inCurrent, inPrevious;
      inCurrent, current := Send(item, ReadBits(bucket), t1);
      ghost var middle := log;
      inPrevious, previous := Send(item, ReadBits(bucket - 1), t2);
      AskLogIs(cfg, before, item, bucket, t1, t2);
      RepliesStay(middle, log, current);
      StillStandAt(cfg, middle, log, item, ReadBits(bucket), t1, current);
      seen := inCurrent || inPrevious;
    }

    /** Answers whether every bit was set in the current or the previous bitmap; if not, sets them all
        in the current one and renews its expiry. Other callers' commands come in between anywhere. */
    method SeenOrAdd(item: string, clock: int, t1: Schedule, t2: Schedule, t3: Schedule, last: Schedule)
      returns (seen: bool, ghost current: seq<nat>, ghost previous: seq<nat>, ghost writes: seq<nat>)
      requires Valid() && Prompt(t1, clock) && Prompt(t2, clock)
      modifies this
      ensures Valid()
      ensures log == old(log) + AskLog(cfg, item, BucketOf(cfg, clock), t1, t2)
                     + if seen then [] else RecordLog(cfg, item, clock, t3, last)
      ensures Reads(cfg, log, item, clock, current, previous)
      ensures AllAfter(current, |old(log)|) && AllAfter(previous, |old(log)|)
      ensures seen <==> Answer(cfg, log, item, clock, current, previous)
      ensures !seen ==> Writes(cfg, log, item, clock, writes) && AllAfter(writes, |old(log)|)
    {
      seen, current, previous := Ask(item, BucketOf(cfg, clock), t1, t2);
      ghost var asked := log;
      writes := [];
      if !seen {
        writes := Record(item, clock, t3, last);
      }
      StillAsked(cfg, asked, log, item, clock, t1, t2, current, previous);
    }
  }

  ghost predicate Asked(cfg: Config, log: seq<Timed>, item: string, bucket: int, t1: Schedule, t2: Schedule,
                        current: seq<nat>, previous: seq<nat>)
    requires ValidConfig(cfg)
  {
    && |current| == |previous| == cfg.numHashes
    && StandAt(cfg, log, item, ReadBits(bucket), t1, current)
    && StandAt(cfg, log, item, ReadBits(bucket - 1), t2, previous)
  }

  /** What comes after the reads changes nothing about them. */
  lemma StillAsked(cfg: Config, log: seq<Timed>, longer: seq<Timed>, item: string, clock: int, t1: Schedule,
                   t2: Schedule, current: seq<nat>, previous: seq<nat>)
    requires ValidConfig(cfg) && Prompt(t1, clock) && Prompt(t2, clock)
    requires Asked(cfg, log, item, BucketOf(cfg, clock), t1, t2, current, previous) && log <= longer
    ensures Reads(cfg, longer, item, clock, current, previous)
    ensures Answer(cfg, longer, item, clock, current, previous) <==>
        AllReplied(log, current) || AllReplied(log, previous)
  {
    StillStandAt(cfg, log, longer, item, ReadBits(BucketOf(cfg, clock)), t1, current);
    StillStandAt(cfg, log, longer, item, ReadBits(BucketOf(cfg, clock) - 1), t2, previous);
    RepliesStay(log, longer, current);
    RepliesStay(log, longer, previous);
    AnswerIsReplies(cfg, longer, item, clock, t1, t2, current, previous);
  }

  /** All the server runs during the reads of a call, and during its writes. */
  ghost function AskLog(cfg: Config, item: string, bucket: int, t1: Schedule, t2: Schedule): seq<Timed>
    requires ValidConfig(cfg)
  {
    Interleaved(cfg, item, ReadBits(bucket), t1, cfg.numHashes)
    + Interleaved(cfg, item, ReadBits(bucket - 1), t2, cfg.numHashes)
  }

  ghost function RecordLog(cfg: Config, item: string, clock: int, t3: Schedule, last: Schedule): seq<Timed>
    requires ValidConfig(cfg)
  {
    var b := BucketOf(cfg, clock);
    Interleaved(cfg, item, WriteBits(b), t3, cfg.numHashes) + last.others(0)
    + [Timed(last.at(0), Expire(b, 2 * cfg.bucketMs + SLACK_MS))]
  }

  lemma {:induction false} StretchExpiresOwn(cfg: Config, log: seq<Timed>, item: string, s: Stretch, t: Schedule,
                                             n: nat)
    requires ValidConfig(cfg) && ExpiresOwnBucket(cfg, log)
    requires forall r :: 0 <= r < n ==> ExpiresOwnBucket(cfg, t.others(r))
    ensures ExpiresOwnBucket(cfg, log + Interleaved(cfg, item, s, t, n))
  {
    if n == 0 {
      assert log + Interleaved(cfg, item, s, t, 0) == log;
    } else {
      StretchExpiresOwn(cfg, log, item, s, t, n - 1);
      assert log + Interleaved(cfg, item, s, t, n)
          == log + Interleaved(cfg, item, s, t, n - 1) + t.others(n - 1)
             + [Timed(t.at(n - 1), Own(cfg, item, s, n - 1))];
    }
  }

  ghost predicate OthersExpireOwn(cfg: Config, t: Schedule) {
    forall r: nat :: ExpiresOwnBucket(cfg, t.others(r))
  }

  /** A call keeps the rule on expiries, if the others do and its EXPIRE runs after its clock reading. */
  lemma CallExpiresOwn(cfg: Config, log: seq<Timed>, item: string, clock: int,
                       t1: Schedule, t2: Schedule, t3: Schedule, last: Schedule)
    requires ValidConfig(cfg) && ExpiresOwnBucket(cfg, log) && last.at(0) >= clock
    requires OthersExpireOwn(cfg, t1) && OthersExpireOwn(cfg, t2) && OthersExpireOwn(cfg, t3) &&
        OthersExpireOwn(cfg, last)
    ensures ExpiresOwnBucket(cfg, log + AskLog(cfg, item, BucketOf(cfg, clock), t1, t2))
    ensures ExpiresOwnBucket(cfg, log + AskLog(cfg, item, BucketOf(cfg, clock), t1, t2)
                                  + RecordLog(cfg, item, clock, t3, last))
  {
    var b, k := BucketOf(cfg, clock), cfg.numHashes;
    var log1 := log + Interleaved(cfg, item, ReadBits(b), t1, k);
    StretchExpiresOwn(cfg, log, item, ReadBits(b), t1, k);
    var log2 := log + AskLog(cfg, item, BucketOf(cfg, clock), t1, t2);
    StretchExpiresOwn(cfg, log1, item, ReadBits(b - 1), t2, k);
    assert log2 == log1 + Interleaved(cfg, item, ReadBits(b - 1), t2, k);
    StretchExpiresOwn(cfg, log2, item, WriteBits(b), t3, k);
    BucketEnds(cfg, clock);
    assert log2 + RecordLog(cfg, item, clock, t3, last) ==
        log2 + Interleaved(cfg, item, WriteBits(b), t3, k) + last.others(0)
      + [Timed(last.at(0), Expire(b, 2 * cfg.bucketMs + SLACK_MS))];
  }
}
