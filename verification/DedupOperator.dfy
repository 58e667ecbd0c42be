/** The deduplication operator as it runs, its clock readings passed in. */
module DedupOperator {
  import opened Options
  import opened DedupModel

  class RotatingBloom {
    const cfg: Config
    var startedMs: int
    var rotatedMs: int
    var cur: Bloom
    var prev: Option<Bloom>

    ghost function View(): Rotating
      reads this
    {
      Rotating(startedMs, rotatedMs, cur, prev)
    }

    constructor (cfg: Config, now: int)
      ensures this.cfg == cfg && View() == Started(now)
      ensures startedMs == rotatedMs == now && cur == Bloom({}, 0) && prev == None
    {
      this.cfg := cfg;
      startedMs, rotatedMs := now, now;
      cur, prev := EMPTY, None;
    }

    method RotateIfDue(now: int)
      modifies this
      ensures View() == DedupModel.RotateIfDue(cfg, old(View()), now)
      ensures startedMs == old(startedMs)
      ensures if now - old(rotatedMs) >= cfg.ttlMs then
                rotatedMs == now && prev == Some(old(cur)) && cur == Bloom({}, 0)
              else
                rotatedMs == old(rotatedMs) && prev == old(prev) && cur == old(cur)
    {
      if now - rotatedMs >= cfg.ttlMs {
        prev, cur := Some(cur), EMPTY;
        rotatedMs := now;
      }
    }

    method IsWarm(now: int) returns (warm: bool)
      ensures warm == DedupModel.IsWarm(cfg, View(), now)
      ensures warm <==> now - startedMs >= cfg.ttlMs
    {
      warm := now - startedMs >= cfg.ttlMs;
    }

    method MaybeContains(key: string, now: int) returns (found: bool)
      modifies this
      ensures View() == DedupModel.RotateIfDue(cfg, old(View()), now)
      ensures found == InEither(cfg, View(), key)
      ensures found <==> cfg.hash(key) <= cur.bits || (prev.Some? && cfg.hash(key) <= prev.value.bits)
    {
      RotateIfDue(now);
      found := Contains(cfg.hash, cur, key) || (prev != None && Contains(cfg.hash, prev.value, key));
    }

    method Add(key: string, now: int, burst: int)
      modifies this
      ensures View() == AddKey(cfg, old(View()), key, now, burst)
      ensures cfg.hash(key) <= cur.bits && startedMs == old(startedMs)
      ensures now - old(rotatedMs) < cfg.ttlMs && old(cur).count < cfg.capacity ==>
        cur.bits == old(cur).bits + cfg.hash(key) && prev == old(prev) && rotatedMs == old(rotatedMs)
      ensures now - old(rotatedMs) < cfg.ttlMs && old(cur).count >= cfg.capacity ==>
        cur.bits == cfg.hash(key) && prev == Some(old(cur)) && rotatedMs == burst
    {
      RotateIfDue(now);
      if Full(cfg, cur) {
        prev, cur := Some(cur), EMPTY;
        rotatedMs := burst;
      }
      cur := Include(cfg.hash, cur, key);
    }
  }

  class DeduplicationFilter {
    var bloom: RotatingBloom
    var seen: Seen

    ghost function View(): Operator
      reads this, bloom
    {
      Operator(bloom.View(), seen)
    }

    /** `open`: a new filter in front of whatever state was restored. */
    constructor (cfg: Config, now: int, restored: Seen)
      ensures fresh(bloom) && bloom.cfg == cfg && View() == Open(now, restored)
    {
      bloom := new RotatingBloom(cfg, now);
      seen := restored;
    }

    method ProcessElement(spanId: string, t: Ticks) returns (yielded: bool)
      modifies this, bloom
      ensures bloom == old(bloom)
      ensures yielded == Yields(bloom.cfg, old(View()), spanId, t)
      ensures View() == Process(bloom.cfg, old(View()), spanId, t)
      ensures !yielded ==> spanId in old(seen) && t.read < old(seen)[spanId] + bloom.cfg.ttlMs
      ensures yielded && spanId in old(seen) && t.read < old(seen)[spanId] + bloom.cfg.ttlMs ==>
        t.warm - old(bloom.startedMs) >= bloom.cfg.ttlMs
      ensures seen == if yielded then old(seen)[spanId := t.write] else old(seen)
      ensures bloom.cfg.hash(spanId) <= bloom.cur.bits
    {
      var warm := bloom.IsWarm(t.warm);
      var known := true;
      if warm {
        known := bloom.MaybeContains(spanId, t.look);
      }
      if known && Visible(bloom.cfg, seen, spanId, t.read) {
        bloom.Add(spanId, t.add, t.burst);
        return false;
      }
      seen := seen[spanId := t.write];
      bloom.Add(spanId, t.add, t.burst);
      return true;
    }
  }
}
