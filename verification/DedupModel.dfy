/** The two-layer deduplication operator as a function of its clock readings: a rotating pair of
    Bloom filters in front of a keyed state whose entries expire. */
module DedupModel {
  import opened Options

  /** The bit positions of a key; any function, so any rate of false positives. */
  type Hash = string -> set<nat>

  datatype Config = Config(ttlMs: nat, capacity: nat, hash: Hash)

  // ---- One Bloom filter ----

  /** The library's filter: bits only get set, and count goes up when an addition sets a new one. */
  datatype Bloom = Bloom(bits: set<nat>, count: nat)

  const EMPTY := Bloom({}, 0)

  function Contains(h: Hash, b: Bloom, key: string): bool {
    h(key) <= b.bits
  }

  /** `add` raises IndexError from here on. */
  predicate Full(cfg: Config, b: Bloom) {
    b.count >= cfg.capacity
  }

  function Include(h: Hash, b: Bloom, key: string): Bloom {
    if Contains(h, b, key) then b else Bloom(b.bits + h(key), b.count + 1)
  }

  // ---- The rotating pair ----

  datatype Rotating = Rotating(startedMs: int, rotatedMs: int, cur: Bloom, prev: Option<Bloom>)

  function Started(now: int): Rotating {
    Rotating(now, now, EMPTY, None)
  }

  function RotateIfDue(cfg: Config, r: Rotating, now: int): Rotating {
    if now - r.rotatedMs >= cfg.ttlMs then Rotating(r.startedMs, now, EMPTY, Some(r.cur)) else r
  }

  predicate IsWarm(cfg: Config, r: Rotating, now: int) {
    now - r.startedMs >= cfg.ttlMs
  }

  predicate InEither(cfg: Config, r: Rotating, key: string) {
    Contains(cfg.hash, r.cur, key) || (r.prev.Some? && Contains(cfg.hash, r.prev.value, key))
  }

  /** Adds a key at now; if the current generation is full it is retired at once, at burst. */
  function AddKey(cfg: Config, r: Rotating, key: string, now: int, burst: int): Rotating {
    var r' := RotateIfDue(cfg, r, now);
    if Full(cfg, r'.cur) then Rotating(r'.startedMs, burst, Include(cfg.hash, EMPTY, key), Some(r'.cur))
    else r'.(cur := Include(cfg.hash, r'.cur, key))
  }

  // ---- The operator ----

  /** The readings of the clock while one event is processed, in the order they are taken:
      warm-up test, filter test, state read, state write, filter addition, burst. */
  datatype Ticks = Ticks(warm: int, look: int, read: int, write: int, add: int, burst: int) {
    predicate Ascending() {
      warm <= look <= read <= write <= add <= burst
    }
  }

  /** The keyed state: when each key was last written. */
  type Seen = map<string, int>

  /** The state shows an entry until it is a TTL old, and never after. */
  predicate Visible(cfg: Config, seen: Seen, key: string, now: int) {
    key in seen && now < seen[key] + cfg.ttlMs
  }

  datatype Operator = Operator(bloom: Rotating, seen: Seen)

  /** The filter says the key is new, and has run long enough to be believed. */
  predicate Skips(cfg: Config, r: Rotating, key: string, t: Ticks) {
    IsWarm(cfg, r, t.warm) && !InEither(cfg, RotateIfDue(cfg, r, t.look), key)
  }

  predicate Yields(cfg: Config, op: Operator, key: string, t: Ticks) {
    Skips(cfg, op.bloom, key, t) || !Visible(cfg, op.seen, key, t.read)
  }

  function Process(cfg: Config, op: Operator, key: string, t: Ticks): Operator {
    var looked := if IsWarm(cfg, op.bloom, t.warm) then RotateIfDue(cfg, op.bloom, t.look) else op.bloom;
    Operator(AddKey(cfg, looked, key, t.add, t.burst),
             if Yields(cfg, op, key, t) then op.seen[key := t.write] else op.seen)
  }

  // ---- Runs ----

  /** An event; a restart that empties the filter and keeps the state; a restart from a checkpoint,
      which brings back some earlier state. */
  datatype Op = Event(key: string, t: Ticks) | Restart(now: int) | Rewind(now: int, restored: Seen)

  function Open(now: int, seen: Seen): Operator {
    Operator(Started(now), seen)
  }

  function Step(cfg: Config, op: Operator, o: Op): Operator {
    match o
    case Event(key, t) => Process(cfg, op, key, t)
    case Restart(now) => Open(now, op.seen)
    case Rewind(now, restored) => Open(now, restored)
  }

  function Run(cfg: Config, start: int, ops: seq<Op>): Operator {
    if ops == [] then Open(start, map[]) else Step(cfg, Run(cfg, start, ops[..|ops| - 1]), ops[|ops| - 1])
  }

  /** Which ops yield their event downstream. */
  function Yielded(cfg: Config, start: int, ops: seq<Op>): seq<bool> {
    if ops == [] then []
    else
      var o := ops[|ops| - 1];
      Yielded(cfg, start, ops[..|ops| - 1])
      + [o.Event? && Yields(cfg, Run(cfg, start, ops[..|ops| - 1]), o.key, o.t)]
  }

  // ---- The plain operator: the state read is always performed, no filter ----

  function PlainStep(cfg: Config, seen: Seen, o: Op): Seen {
    match o
    case Event(key, t) => if Visible(cfg, seen, key, t.read) then seen else seen[key := t.write]
    case Restart(_) => seen
    case Rewind(_, restored) => restored
  }

  function PlainRun(cfg: Config, ops: seq<Op>): Seen {
    if ops == [] then map[] else PlainStep(cfg, PlainRun(cfg, ops[..|ops| - 1]), ops[|ops| - 1])
  }

  function PlainYielded(cfg: Config, ops: seq<Op>): seq<bool> {
    if ops == [] then []
    else
      var o := ops[|ops| - 1];
      PlainYielded(cfg, ops[..|ops| - 1])
      + [o.Event? && !Visible(cfg, PlainRun(cfg, ops[..|ops| - 1]), o.key, o.t.read)]
  }
}
