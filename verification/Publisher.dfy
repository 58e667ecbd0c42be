/** Batching spans into gRPC calls on one event loop. A coroutine runs undisturbed up to its next
    await, so what interleaves are the stretches in between, with several flushes in flight. */
module Publisher {
  import opened Options

  const BATCH_MAX: nat := 200
  const SEND_ATTEMPTS: nat := 3

  datatype Span = Span(id: string, payload: string)

  /** Where one flush is: awaiting its a-th call, or the pause after that call failed; or done. */
  datatype Status = Calling(attempt: nat) | Pausing(attempt: nat) | Sent(accepted: nat) | Dropped

  datatype Flush = Flush(batch: seq<Span>, status: Status)

  /** `added` is what the Bloom filter was told; `flushes` has one entry per swapped batch, oldest first. */
  datatype State = State(added: set<string>, buffer: seq<Span>, flushes: seq<Flush>, counts: Counts)

  datatype Counts = Counts(sent: nat, accepted: nat, dropped: nat, duplicates: nat)

  const START := State({}, [], [], Counts(0, 0, 0, 0))

  datatype Reply = Answer(spansAccepted: nat) | RpcError

  /** What happens between two suspensions: a span is published, which the filter may wrongly take for
      a duplicate, and whose conversion may raise; the flush timer fires; the i-th flush gets its
      reply; its pause ends. */
  datatype Event =
    | Publish(span: Span, falsePositive: bool, malformed: bool)
    | Timer
    | Replied(i: nat, reply: Reply)
    | Resumed(i: nat)

  /** A span without an id is never tested. */
  predicate Flagged(s: State, e: Event)
    requires e.Publish?
  {
    e.span.id != "" && (e.span.id in s.added || e.falsePositive)
  }

  /** `_flush` up to its first await. */
  function Swap(s: State): State {
    if s.buffer == [] then s else s.(buffer := [], flushes := s.flushes + [Flush(s.buffer, Calling(1))])
  }

  function Told(s: State, span: Span): State {
    s.(added := if span.id != "" then s.added + {span.id} else s.added)
  }

  function Buffered(s: State, span: Span): State {
    Told(s, span).(buffer := s.buffer + [span])
  }

  function Published(s: State, e: Event): State
    requires e.Publish?
  {
    if Flagged(s, e) then s.(counts := s.counts.(duplicates := s.counts.duplicates + 1))
    else
      if e.malformed then Told(s, e.span)
      else
        var longer := Buffered(s, e.span);
        if |longer.buffer| >= BATCH_MAX then Swap(longer) else longer
  }

  predicate Awaiting(s: State, i: nat) {
    i < |s.flushes| && s.flushes[i].status.Calling?
  }

  predicate Asleep(s: State, i: nat) {
    i < |s.flushes| && s.flushes[i].status.Pausing?
  }

  function At(s: State, i: nat, status: Status): seq<Flush>
    requires i < |s.flushes|
  {
    s.flushes[i := s.flushes[i].(status := status)]
  }

  function Answered(s: State, i: nat, reply: Reply): State
    requires Awaiting(s, i)
  {
    var n, attempt := |s.flushes[i].batch|, s.flushes[i].status.attempt;
    match reply
    case Answer(k) =>
      s.(flushes := At(s, i, Sent(k)),
         counts := s.counts.(sent := s.counts.sent + n, accepted := s.counts.accepted + k))
    case RpcError =>
      if attempt == SEND_ATTEMPTS then
        s.(flushes := At(s, i, Dropped), counts := s.counts.(dropped := s.counts.dropped + n))
      else s.(flushes := At(s, i, Pausing(attempt)))
  }

  /** An event that cannot happen changes nothing. */
  function Step(s: State, e: Event): State {
    match e
    case Publish(_, _, _) => Published(s, e)
    case Timer => Swap(s)
    case Replied(i, reply) => if Awaiting(s, i) then Answered(s, i, reply) else s
    case Resumed(i) => if Asleep(s, i) then s.(flushes := At(s, i, Calling(s.flushes[i].status.attempt + 1))) else s
  }

  function After(es: seq<Event>): State {
    if es == [] then START else Step(After(es[..|es| - 1]), es[|es| - 1])
  }

  // ---- The publisher, started ----

  class GrpcPublisher {
    var added: set<string>
    var buffer: seq<Span>
    var flushes: seq<Flush>
    var counts: Counts

    ghost function View(): State
      reads this
    {
      State(added, buffer, flushes, counts)
    }

    constructor ()
      ensures View() == START
    {
      added, buffer, flushes, counts := {}, [], [], Counts(0, 0, 0, 0);
    }

    method StartFlush()
      modifies this
      ensures View() == Swap(old(View()))
      ensures buffer == [] && added == old(added) && counts == old(counts)
      ensures flushes == old(flushes) + if old(buffer) == [] then [] else [Flush(old(buffer), Calling(1))]
    {
      var batch := buffer;
      buffer := [];
      if batch == [] {
        return;
      }
      flushes := flushes + [Flush(batch, Calling(1))];
    }

    method Publish(span: Span, falsePositive: bool, malformed: bool) returns (raised: bool)
      modifies this
      ensures View() == Step(old(View()), Event.Publish(span, falsePositive, malformed))
      ensures raised <==> malformed && !Flagged(old(View()), Event.Publish(span, falsePositive, malformed))
      ensures
        if span.id != "" && (span.id in old(added) || falsePositive) then
          && !raised && buffer == old(buffer) && flushes == old(flushes) && added == old(added)
          && counts == old(counts).(duplicates := old(counts).duplicates + 1)
        else
          && raised == malformed && counts == old(counts)
          && added == old(added) + (if span.id == "" then {} else {span.id})
          && (malformed ==> buffer == old(buffer) && flushes == old(flushes))
          && (!malformed && |old(buffer)| + 1 < 200 ==> buffer == old(buffer) + [span] && flushes == old(flushes))
          && (!malformed && |old(buffer)| + 1 >= 200 ==>
                buffer == [] && flushes == old(flushes) + [Flush(old(buffer) + [span], Calling(1))])
    {
      if span.id != "" && (span.id in added || falsePositive) {
        counts := counts.(duplicates := counts.duplicates + 1);
        return false;
      }
      if span.id != "" {
        added := added + {span.id};
      }
      if malformed {
        return true;
      }
      buffer := buffer + [span];
      if |buffer| >= BATCH_MAX {
        StartFlush();
      }
      return false;
    }

    method OnReply(i: nat, reply: Reply)
      requires Awaiting(View(), i)
      modifies this
      ensures View() == Step(old(View()), Replied(i, reply))
      ensures buffer == old(buffer) && added == old(added) && |flushes| == |old(flushes)|
      ensures forall j :: 0 <= j < |flushes| && j != i ==> flushes[j] == old(flushes)[j]
      ensures flushes[i].batch == old(flushes)[i].batch
      ensures reply.Answer? ==> flushes[i].status == Sent(reply.spansAccepted)
      ensures reply.Answer? ==>
        counts == old(counts).(sent := old(counts).sent + |flushes[i].batch|,
                               accepted := old(counts).accepted + reply.spansAccepted)
      ensures reply.RpcError? && old(flushes)[i].status.attempt == 3 ==> flushes[i].status == Dropped
      ensures reply.RpcError? && old(flushes)[i].status.attempt == 3 ==>
        counts == old(counts).(dropped := old(counts).dropped + |flushes[i].batch|)
      ensures reply.RpcError? && old(flushes)[i].status.attempt != 3 ==>
        flushes[i].status == Pausing(old(flushes)[i].status.attempt) && counts == old(counts)
    {
      var Flush(batch, status) := flushes[i];
      match reply {
        case RpcError =>
          if status.attempt == SEND_ATTEMPTS {
            counts := counts.(dropped := counts.dropped + |batch|);
            flushes := flushes[i := Flush(batch, Dropped)];
          } else {
            flushes := flushes[i := Flush(batch, Pausing(status.attempt))];
          }
        case Answer(k) =>
          counts := counts.(sent := counts.sent + |batch|, accepted := counts.accepted + k);
          flushes := flushes[i := Flush(batch, Sent(k))];
      }
    }

    method OnResume(i: nat)
      requires Asleep(View(), i)
      modifies this
      ensures View() == Step(old(View()), Resumed(i))
      ensures flushes == old(flushes)[i := Flush(old(flushes)[i].batch, Calling(old(flushes)[i].status.attempt + 1))]
      ensures buffer == old(buffer) && added == old(added) && counts == old(counts)
    {
      var Flush(batch, status) := flushes[i];
      flushes := flushes[i := Flush(batch, Calling(status.attempt + 1))];
    }
  }

  // ---- Conservation ----

  /** The spans taken, in the order they were published. */
  function Taken(es: seq<Event>): seq<Span> {
    if es == [] then []
    else
      var s, e := After(es[..|es| - 1]), es[|es| - 1];
      Taken(es[..|es| - 1]) + if e.Publish? && !Flagged(s, e) && !e.malformed then [e.span] else []
  }

  /** All batches put together, in the order they were swapped out. */
  function Batched(flushes: seq<Flush>): seq<Span> {
    if flushes == [] then [] else Batched(flushes[..|flushes| - 1]) + flushes[|flushes| - 1].batch
  }

  lemma {:induction false} SameBatchSameBatched(flushes: seq<Flush>, i: nat, f: Flush)
    requires i < |flushes| && f.batch == flushes[i].batch
    ensures Batched(flushes[i := f]) == Batched(flushes)
  {
    var n := |flushes| - 1;
    if i < n {
      assert flushes[i := f][..n] == flushes[..n][i := f];
      SameBatchSameBatched(flushes[..n], i, f);
    } else {
      assert flushes[i := f][..n] == flushes[..n];
    }
  }

  lemma SwapMovesAll(s: State)
    ensures Batched(Swap(s).flushes) + Swap(s).buffer == Batched(s.flushes) + s.buffer
  {
    if s.buffer != [] {
      assert (s.flushes + [Flush(s.buffer, Calling(1))])[..|s.flushes|] == s.flushes;
    }
  }

  lemma PublishConserves(s: State, e: Event)
    requires e.Publish? && !Flagged(s, e) && !e.malformed
    ensures Batched(Published(s, e).flushes) + Published(s, e).buffer == Batched(s.flushes) + s.buffer + [e.span]
  {
    SwapMovesAll(Buffered(s, e.span));
    assert Batched(s.flushes) + (s.buffer + [e.span]) == Batched(s.flushes) + s.buffer + [e.span];
  }

  lemma StepConserves(s: State, e: Event)
    ensures Batched(Step(s, e).flushes) + Step(s, e).buffer
         == Batched(s.flushes) + s.buffer + if e.Publish? && !Flagged(s, e) && !e.malformed then [e.span] else []
  {
    match e
    case Publish(_, _, _) => if !Flagged(s, e) && !e.malformed { PublishConserves(s, e); }
    case Timer => SwapMovesAll(s);
    case Replied(i, reply) =>
      if Awaiting(s, i) { SameBatchSameBatched(s.flushes, i, Answered(s, i, reply).flushes[i]); }
    case Resumed(i) => if Asleep(s, i) { SameBatchSameBatched(s.flushes, i, Step(s, e).flushes[i]); }
  }

  /** In every interleaving the spans taken are, in order, the batches and then the buffer. */
  lemma {:induction false} NothingLostOrReordered(es: seq<Event>)
    ensures Taken(es) == Batched(After(es).flushes) + After(es).buffer
  {
    if es != [] {
      NothingLostOrReordered(es[..|es| - 1]);
      StepConserves(After(es[..|es| - 1]), es[|es| - 1]);
    }
  }

  /** At every suspension the buffer is short of a batch, and every batch is neither empty nor too long. */
  ghost predicate Sized(s: State) {
    |s.buffer| < BATCH_MAX && forall i :: 0 <= i < |s.flushes| ==> 0 < |s.flushes[i].batch| <= BATCH_MAX
  }

  lemma {:induction false} AlwaysSized(es: seq<Event>)
    ensures Sized(After(es))
  {
    if es != [] {
      AlwaysSized(es[..|es| - 1]);
    }
  }

  // ---- What becomes of each batch ----

  /** How many calls of the i-th flush have failed. */
  function Failures(es: seq<Event>, i: nat): nat {
    if es == [] then 0
    else
      var s, e := After(es[..|es| - 1]), es[|es| - 1];
      Failures(es[..|es| - 1], i) + if e == Replied(i, RpcError) && Awaiting(s, i) then 1 else 0
  }

  ghost predicate FailuresRight(es: seq<Event>, i: nat) {
    var flushes, failed := After(es).flushes, Failures(es, i);
    if i >= |flushes| then failed == 0
    else match flushes[i].status
      case Calling(a) => failed == a - 1 < SEND_ATTEMPTS
      case Pausing(a) => failed == a < SEND_ATTEMPTS
      case Sent(_) => failed < SEND_ATTEMPTS
      case Dropped => failed == SEND_ATTEMPTS
  }

  /** A batch is given up exactly when three calls failed; one that is sent, or still on its way, had
      fewer, and on its way it is at the call after those. */
  lemma {:induction false} DroppedAfterThree(es: seq<Event>, i: nat)
    ensures FailuresRight(es, i)
  {
    if es != [] {
      DroppedAfterThree(es[..|es| - 1], i);
    }
  }

  datatype Fate = IsSent | IsDropped | InFlight

  function FateOf(status: Status): Fate {
    match status
    case Sent(_) => IsSent
    case Dropped => IsDropped
    case _ => InFlight
  }

  function Weight(f: Flush, fate: Fate): nat {
    if FateOf(f.status) == fate then |f.batch| else 0
  }

  /** The lengths of all batches with this fate. */
  function Total(flushes: seq<Flush>, fate: Fate): nat {
    if flushes == [] then 0 else Total(flushes[..|flushes| - 1], fate) + Weight(flushes[|flushes| - 1], fate)
  }

  lemma {:induction false} TotalChanges(flushes: seq<Flush>, i: nat, f: Flush, fate: Fate)
    requires i < |flushes|
    ensures Total(flushes[i := f], fate) + Weight(flushes[i], fate) == Total(flushes, fate) + Weight(f, fate)
  {
    var n := |flushes| - 1;
    if i < n {
      assert flushes[i := f][..n] == flushes[..n][i := f];
      TotalChanges(flushes[..n], i, f, fate);
    } else {
      assert flushes[i := f][..n] == flushes[..n];
    }
  }

  lemma {:induction false} TotalsAreAll(flushes: seq<Flush>)
    ensures Total(flushes, IsSent) + Total(flushes, IsDropped) + Total(flushes, InFlight) == |Batched(flushes)|
  {
    if flushes != [] {
      TotalsAreAll(flushes[..|flushes| - 1]);
    }
  }

  ghost predicate CountsRight(s: State) {
    s.counts.sent == Total(s.flushes, IsSent) && s.counts.dropped == Total(s.flushes, IsDropped)
  }

  lemma SwapKeepsCounts(s: State)
    requires CountsRight(s)
    ensures CountsRight(Swap(s))
  {
    if s.buffer != [] {
      assert (s.flushes + [Flush(s.buffer, Calling(1))])[..|s.flushes|] == s.flushes;
    }
  }

  lemma StepKeepsCounts(s: State, e: Event)
    requires CountsRight(s)
    ensures CountsRight(Step(s, e))
  {
    match e
    case Publish(span, _, _) =>
      if !Flagged(s, e) && !e.malformed {
        SwapKeepsCounts(Buffered(s, span));
      }
    case Timer => SwapKeepsCounts(s);
    case Replied(i, reply) =>
      if Awaiting(s, i) {
        forall fate { TotalChanges(s.flushes, i, Answered(s, i, reply).flushes[i], fate); }
      }
    case Resumed(i) =>
      if Asleep(s, i) {
        forall fate { TotalChanges(s.flushes, i, Step(s, e).flushes[i], fate); }
      }
  }

  /** The tally: spans sent, dropped, in flight and buffered are all the spans taken, and the first two
      are what the counters say. */
  lemma {:induction false} TallyIsRight(es: seq<Event>)
    ensures var s := After(es);
            && CountsRight(s)
            && s.counts.sent + s.counts.dropped + Total(s.flushes, InFlight) + |s.buffer| == |Taken(es)|
  {
    NothingLostOrReordered(es);
    TotalsAreAll(After(es).flushes);
    if es != [] {
      TallyIsRight(es[..|es| - 1]);
      StepKeepsCounts(After(es[..|es| - 1]), es[|es| - 1]);
    }
  }

  // ---- Duplicates ----

  /** No two spans taken have the same id, empty ones aside. */
  ghost predicate IdsDiffer(spans: seq<Span>) {
    forall i, j :: 0 <= i < j < |spans| && spans[i].id != "" ==> spans[i].id != spans[j].id
  }

  ghost predicate IdsAmong(spans: seq<Span>, ids: set<string>) {
    forall i :: 0 <= i < |spans| && spans[i].id != "" ==> spans[i].id in ids
  }

  lemma OneMoreId(spans: seq<Span>, ids: set<string>, span: Span)
    requires IdsDiffer(spans) && IdsAmong(spans, ids) && span.id !in ids
    ensures IdsDiffer(spans + [span])
  {
  }

  lemma {:induction false} TakenOnce(es: seq<Event>)
    ensures IdsDiffer(Taken(es)) && IdsAmong(Taken(es), After(es).added)
  {
    if es != [] {
      var before, s, e := Taken(es[..|es| - 1]), After(es[..|es| - 1]), es[|es| - 1];
      TakenOnce(es[..|es| - 1]);
      if e.Publish? && !Flagged(s, e) && !e.malformed {
        OneMoreId(before, s.added - {""}, e.span);
      }
    }
  }

  /** The first publication of an id. */
  function First(es: seq<Event>, id: string): (first: Option<Event>)
    ensures first.Some? ==> first.value.Publish? && first.value.span.id == id
  {
    if es == [] then None
    else
      var before, e := First(es[..|es| - 1], id), es[|es| - 1];
      if before == None && e.Publish? && e.span.id == id then Some(e) else before
  }

  ghost predicate IsTaken(es: seq<Event>, id: string) {
    exists i :: 0 <= i < |Taken(es)| && Taken(es)[i].id == id
  }

  /** The filter never wrongly takes this id for a duplicate. */
  ghost predicate NoFalsePositive(es: seq<Event>, id: string) {
    es != [] ==>
      && NoFalsePositive(es[..|es| - 1], id)
      && var e := es[|es| - 1];
         e.Publish? && e.span.id == id ==> !e.falsePositive
  }

  /** Without false positives a span with a given id is taken exactly if the first one published could
      be converted: a malformed first one is remembered as seen, and those after it count as duplicates. */
  lemma {:induction false} FirstDecides(es: seq<Event>, id: string)
    requires id != "" && NoFalsePositive(es, id)
    ensures id in After(es).added <==> First(es, id).Some?
    ensures IsTaken(es, id) <==> First(es, id).Some? && !First(es, id).value.malformed
  {
    if es != [] {
      var before, s, e := es[..|es| - 1], After(es[..|es| - 1]), es[|es| - 1];
      FirstDecides(before, id);
      if e.Publish? && !Flagged(s, e) && !e.malformed {
        assert Taken(es) == Taken(before) + [e.span] && Taken(es)[|Taken(before)|] == e.span;
      }
      forall i | 0 <= i < |Taken(before)| ensures Taken(es)[i] == Taken(before)[i] { }
    }
  }
}
