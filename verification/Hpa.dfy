/** Raising an autoscaler's minReplicas, holding it, and putting it back. Times are milliseconds. */
module Hpa {
  import opened Options

  const REVERT_RETRY: nat := 60_000

  /** The services that have a real workload behind them. */
  function RolloutNameFor(serviceId: string): Option<string> {
    if serviceId == "svc-a0bc923b" then Some("payment-service")
    else if serviceId == "svc-be899d1f" then Some("order-service")
    else if serviceId == "svc-02c8974b" then Some("inventory-service")
    else if serviceId == "svc-bc56eed1" then Some("auth-service")
    else None
  }

  /** spec.minReplicas of each autoscaler; it may be unset. */
  type Cluster = map<string, Option<nat>>

  /** `min_replicas or 1`: unset and 0 both read as 1. */
  function Effective(minReplicas: Option<nat>): nat {
    if minReplicas == None || minReplicas.value == 0 then 1 else minReplicas.value
  }

  datatype Hold = Hold(original: nat, revertAt: int)

  datatype Config = Config(minReplicas: nat, revertAfter: nat)

  datatype Scaler = Scaler(raised: map<string, Hold>, cluster: Cluster)

  /** A patch is acknowledged; refused, so without effect; or takes effect although the call raises. */
  datatype Patch = Acknowledged | Refused | Unacknowledged

  /** What the API server does to one trigger. */
  datatype Answer = ReadFails | Reads(patch: Patch)

  datatype Outcome = NoDeployment | AlreadyRaised | AlreadyEnough | Raised | Raises

  /** What one trigger comes to. */
  function TriggerOutcome(c: Config, s: Scaler, serviceId: string, answer: Answer): Outcome {
    var name := RolloutNameFor(serviceId);
    if name == None then NoDeployment
    else if name.value in s.raised then AlreadyRaised
    else if answer == ReadFails || name.value !in s.cluster then Raises
    else if Effective(s.cluster[name.value]) >= c.minReplicas then AlreadyEnough
    else if answer.patch == Acknowledged then Raised
    else Raises
  }

  function Triggered(c: Config, s: Scaler, serviceId: string, now: int, answer: Answer): Scaler {
    var name := RolloutNameFor(serviceId);
    if name == None then s
    else
      var r := name.value;
      if r in s.raised then s.(raised := s.raised[r := Hold(s.raised[r].original, now + c.revertAfter)])
      else if answer == ReadFails || r !in s.cluster then s
      else if Effective(s.cluster[r]) >= c.minReplicas || answer.patch == Refused then s
      else
        var cluster := s.cluster[r := Some(c.minReplicas)];
        if answer.patch == Unacknowledged then s.(cluster := cluster)
        else Scaler(s.raised[r := Hold(Effective(s.cluster[r]), now + c.revertAfter)], cluster)
  }

  /** What becomes of one hold when holds are checked, and of its autoscaler. */
  function HoldAfter(h: Hold, now: int, fate: Patch): Option<Hold> {
    if now < h.revertAt then Some(h)
    else if fate == Acknowledged then None
    else Some(Hold(h.original, now + REVERT_RETRY))
  }

  function CellAfter(h: Hold, cell: Option<nat>, now: int, fate: Patch): Option<nat> {
    if now < h.revertAt || fate == Refused then cell else Some(h.original)
  }

  function HoldsLeft(raised: map<string, Hold>, now: int, fates: string -> Patch): map<string, Hold> {
    map r | r in raised && HoldAfter(raised[r], now, fates(r)).Some? :: HoldAfter(raised[r], now, fates(r)).value
  }

  function PutBack(s: Scaler, now: int, fates: string -> Patch): Cluster {
    map r | r in s.cluster ::
      if r in s.raised then CellAfter(s.raised[r], s.cluster[r], now, fates(r)) else s.cluster[r]
  }

  function Expired(s: Scaler, now: int, fates: string -> Patch): Scaler {
    Scaler(HoldsLeft(s.raised, now, fates), PutBack(s, now, fates))
  }

  function HoldOf(raised: map<string, Hold>, r: string): Option<Hold> {
    if r in raised then Some(raised[r]) else None
  }

  /** Every hold has been dealt with but those still to do. */
  ghost predicate HoldsDone(snapshot: map<string, Hold>, todo: set<string>, raised: map<string, Hold>, now: int,
                            fates: string -> Patch)
  {
    && raised.Keys <= snapshot.Keys
    && forall r :: r in snapshot ==>
         HoldOf(raised, r) == if r in todo then Some(snapshot[r]) else HoldAfter(snapshot[r], now, fates(r))
  }

  ghost predicate CellsDone(snapshot: map<string, Hold>, todo: set<string>, before: Cluster, cluster: Cluster,
                            now: int, fates: string -> Patch)
  {
    && cluster.Keys == before.Keys
    && forall r :: r in before ==>
         cluster[r] ==
         if r in snapshot && r !in todo then CellAfter(snapshot[r], before[r], now, fates(r)) else before[r]
  }

  lemma AllHoldsDone(snapshot: map<string, Hold>, raised: map<string, Hold>, now: int, fates: string -> Patch)
    requires HoldsDone(snapshot, {}, raised, now, fates)
    ensures raised == HoldsLeft(snapshot, now, fates)
  {
    forall r ensures HoldOf(raised, r) == HoldOf(HoldsLeft(snapshot, now, fates), r) {
      if r in snapshot { }
    }
    assert forall r :: r in raised <==> HoldOf(raised, r).Some?;
    assert raised.Keys == HoldsLeft(snapshot, now, fates).Keys;
  }

  lemma OneHoldDone(snapshot: map<string, Hold>, todo: set<string>, r: string, raised: map<string, Hold>,
                    next: map<string, Hold>, now: int, fates: string -> Patch)
    requires HoldsDone(snapshot, todo, raised, now, fates) && r in todo && r in snapshot
    requires HoldOf(next, r) == HoldAfter(snapshot[r], now, fates(r)) && next - {r} == raised - {r}
    ensures HoldsDone(snapshot, todo - {r}, next, now, fates)
  {
    forall k | k != r ensures HoldOf(next, k) == HoldOf(raised, k) {
      assert HoldOf(next - {r}, k) == HoldOf(raised - {r}, k);
    }
    forall k | k in next ensures k in snapshot {
      if k != r { assert HoldOf(next, k) == HoldOf(raised, k); }
    }
  }

  lemma OneCellDone(snapshot: map<string, Hold>, todo: set<string>, r: string, before: Cluster, cluster: Cluster,
                    now: int, fates: string -> Patch)
    requires CellsDone(snapshot, todo, before, cluster, now, fates) && r in todo && r in snapshot && r in before
    ensures CellsDone(snapshot, todo - {r}, before, cluster[r := CellAfter(snapshot[r], before[r], now, fates(r))],
                      now, fates)
  {
  }

  /** Every held autoscaler exists. */
  predicate Known(s: Scaler) {
    s.raised.Keys <= s.cluster.Keys
  }

  // ---- One call in plain numbers ----

  predicate Rollout(serviceId: string, r: string) {
    || (serviceId == "svc-a0bc923b" && r == "payment-service")
    || (serviceId == "svc-be899d1f" && r == "order-service")
    || (serviceId == "svc-02c8974b" && r == "inventory-service")
    || (serviceId == "svc-bc56eed1" && r == "auth-service")
  }

  /** The number a reading stands for: unset and 0 count as 1. */
  predicate ReadsAs(cell: Option<nat>, n: nat) {
    if cell == None || cell == Some(0) then n == 1 else cell == Some(n)
  }

  /** A trigger extends a hold; without one it patches exactly if the number read is below the target,
      and holds what it read exactly if the patch is acknowledged. */
  ghost predicate TriggersRight(c: Config, s: Scaler, s': Scaler, r: string, now: int, answer: Answer,
                                outcome: Outcome)
  {
    if r in s.raised then
      && outcome == AlreadyRaised && s'.cluster == s.cluster
      && s'.raised == s.raised[r := Hold(s.raised[r].original, now + c.revertAfter)]
    else if answer == ReadFails || r !in s.cluster then outcome == Raises && s' == s
    else exists n: nat :: ReadsAs(s.cluster[r], n) && ReadThen(c, s, s', r, n, now, answer.patch, outcome)
  }

  ghost predicate ReadThen(c: Config, s: Scaler, s': Scaler, r: string, n: nat, now: int, patch: Patch,
                           outcome: Outcome)
  {
    if n >= c.minReplicas then outcome == AlreadyEnough && s' == s
    else
      && (outcome == if patch == Acknowledged then Raised else Raises)
      && s'.cluster == (if patch == Refused then s.cluster else s.cluster[r := Some(c.minReplicas)])
      && s'.raised == if patch == Acknowledged then s.raised[r := Hold(n, now + c.revertAfter)] else s.raised
  }

  lemma TriggerInNumbers(c: Config, s: Scaler, serviceId: string, now: int, answer: Answer)
    ensures (forall r :: !Rollout(serviceId, r)) ==>
      Triggered(c, s, serviceId, now, answer) == s && TriggerOutcome(c, s, serviceId, answer) == NoDeployment
    ensures forall r :: Rollout(serviceId, r) ==>
      TriggersRight(c, s, Triggered(c, s, serviceId, now, answer), r, now, answer,
                    TriggerOutcome(c, s, serviceId, answer))
  {
    if RolloutNameFor(serviceId) == None {
      forall r ensures !Rollout(serviceId, r) { }
    } else {
      var r := RolloutNameFor(serviceId).value;
      assert Rollout(serviceId, r);
      forall q | Rollout(serviceId, q) ensures q == r { }
      if r !in s.raised && answer != ReadFails && r in s.cluster {
        assert ReadsAs(s.cluster[r], Effective(s.cluster[r]));
      }
    }
  }

  /** What a check does to one autoscaler: nothing before the deadline; then the original is put back
      unless the patch is refused, and the hold ends if it is acknowledged and is retried 60 seconds
      later if not. */
  ghost predicate ChecksRight(s: Scaler, s': Scaler, r: string, now: int, fate: Patch) {
    if r !in s.raised || now < s.raised[r].revertAt then
      && (r in s'.raised <==> r in s.raised) && (r in s.raised ==> s'.raised[r] == s.raised[r])
      && (r in s'.cluster <==> r in s.cluster) && (r in s.cluster ==> s'.cluster[r] == s.cluster[r])
    else
      && (r in s'.raised <==> fate != Acknowledged)
      && (r in s'.raised ==> s'.raised[r] == Hold(s.raised[r].original, now + 60_000))
      && (r in s'.cluster <==> r in s.cluster)
      && (r in s.cluster ==> s'.cluster[r] == if fate == Refused then s.cluster[r] else Some(s.raised[r].original))
  }

  lemma CheckInNumbers(s: Scaler, now: int, fates: string -> Patch)
    ensures forall r :: ChecksRight(s, Expired(s, now, fates), r, now, fates(r))
  {
  }

  // ---- The client ----

  /** The client together with the cluster it alone writes to. */
  class K8sClient {
    const config: Config
    var raised: map<string, Hold>
    var cluster: Cluster

    ghost function View(): Scaler
      reads this
    {
      Scaler(raised, cluster)
    }

    constructor (config: Config, cluster: Cluster)
      ensures this.config == config && View() == Begin(cluster)
    {
      this.config := config;
      raised := map[];
      this.cluster := cluster;
    }

    method TriggerHpa(serviceId: string, now: int, answer: Answer) returns (outcome: Outcome)
      modifies this
      ensures outcome == TriggerOutcome(config, old(View()), serviceId, answer)
      ensures View() == Triggered(config, old(View()), serviceId, now, answer)
      ensures (forall r :: !Rollout(serviceId, r)) ==> outcome == NoDeployment && View() == old(View())
      ensures forall r :: Rollout(serviceId, r) ==>
        TriggersRight(config, old(View()), View(), r, now, answer, outcome)
    {
      TriggerInNumbers(config, View(), serviceId, now, answer);
      var name := RolloutNameFor(serviceId);
      if name == None {
        return NoDeployment;
      }
      var revertAt := now + config.revertAfter;
      if name.value in raised {
        raised := raised[name.value := Hold(raised[name.value].original, revertAt)];
        return AlreadyRaised;
      }
      if answer == ReadFails || name.value !in cluster {
        return Raises;
      }
      var current := Effective(cluster[name.value]);
      if current >= config.minReplicas {
        return AlreadyEnough;
      }
      if answer.patch != Refused {
        cluster := cluster[name.value := Some(config.minReplicas)];
      }
      if answer.patch != Acknowledged {
        return Raises;
      }
      raised := raised[name.value := Hold(current, revertAt)];
      return Raised;
    }

    /** The body of the loop below. */
    method RevertOne(r: string, now: int, fate: Patch)
      requires r in raised && r in cluster
      modifies this
      ensures HoldOf(raised, r) == HoldAfter(old(raised[r]), now, fate) && raised - {r} == old(raised) - {r}
      ensures cluster == old(cluster)[r := CellAfter(old(raised[r]), old(cluster[r]), now, fate)]
    {
      var original := raised[r].original;
      if now < raised[r].revertAt {
        return;
      }
      if fate != Refused {
        cluster := cluster[r := Some(original)];
      }
      if fate == Acknowledged {
        raised := raised - {r};
      } else {
        raised := raised[r := Hold(original, now + REVERT_RETRY)];
      }
    }

    /** One pass over a snapshot of the holds, in any order. */
    method RevertExpired(now: int, fates: string -> Patch)
      requires Known(View())
      modifies this
      ensures View() == Expired(old(View()), now, fates)
      ensures forall r :: ChecksRight(old(View()), View(), r, now, fates(r))
    {
      var snapshot := raised;
      ghost var before := cluster;
      var todo := snapshot.Keys;
      while todo != {}
        invariant todo <= snapshot.Keys && HoldsDone(snapshot, todo, raised, now, fates)
        invariant CellsDone(snapshot, todo, before, cluster, now, fates)
        decreases |todo|
      {
        var r :| r in todo;
        ghost var holds := raised;
        assert HoldOf(holds, r) == Some(snapshot[r]);
        OneCellDone(snapshot, todo, r, before, cluster, now, fates);
        RevertOne(r, now, fates(r));
        OneHoldDone(snapshot, todo, r, holds, raised, now, fates);
        todo := todo - {r};
      }
      AllHoldsDone(snapshot, raised, now, fates);
      CheckInNumbers(old(View()), now, fates);
      assert cluster == PutBack(Scaler(snapshot, before), now, fates);
    }
  }

  // ---- Runs ----

  datatype Event =
    | Trigger(serviceId: string, now: int, answer: Answer)
    | RevertExpired(now: int, fates: string -> Patch)

  function Begin(cluster: Cluster): Scaler {
    Scaler(map[], cluster)
  }

  function Step(c: Config, s: Scaler, e: Event): Scaler {
    match e
    case Trigger(serviceId, now, answer) => Triggered(c, s, serviceId, now, answer)
    case RevertExpired(now, fates) => Expired(s, now, fates)
  }

  function After(c: Config, cluster: Cluster, es: seq<Event>): Scaler {
    if es == [] then Begin(cluster) else Step(c, After(c, cluster, es[..|es| - 1]), es[|es| - 1])
  }

  /** The raise was patched in although the call raised: no hold is recorded for it. */
  ghost predicate LosesRaise(c: Config, s: Scaler, e: Event, r: string) {
    && e.Trigger? && RolloutNameFor(e.serviceId) == Some(r) && e.answer == Reads(Unacknowledged)
    && r !in s.raised && r in s.cluster && Effective(s.cluster[r]) < c.minReplicas
  }

  ghost predicate LostRaise(c: Config, start: Cluster, es: seq<Event>, r: string) {
    && es != []
    && (LostRaise(c, start, es[..|es| - 1], r) || LosesRaise(c, After(c, start, es[..|es| - 1]), es[|es| - 1], r))
  }

  /** The original was patched back although the call raised: the hold is kept for a retry. */
  ghost predicate LosesRevert(s: Scaler, e: Event, r: string) {
    e.RevertExpired? && r in s.raised && e.now >= s.raised[r].revertAt && e.fates(r) == Unacknowledged
  }

  /** ... and that hold is still there. */
  ghost predicate LostRevert(c: Config, start: Cluster, es: seq<Event>, r: string) {
    && es != [] && r in After(c, start, es).raised
    && (LostRevert(c, start, es[..|es| - 1], r) || LosesRevert(After(c, start, es[..|es| - 1]), es[|es| - 1], r))
  }

  ghost predicate EverHeld(c: Config, start: Cluster, es: seq<Event>, r: string) {
    r in After(c, start, es).raised || (es != [] && EverHeld(c, start, es[..|es| - 1], r))
  }

  // ---- Where each autoscaler sits ----

  ghost function Expected(c: Config, start: Cluster, es: seq<Event>, r: string): Option<nat>
    requires r in start
  {
    if r in After(c, start, es).raised then
      Some(if LostRevert(c, start, es, r) then Effective(start[r]) else c.minReplicas)
    else if LostRaise(c, start, es, r) then Some(c.minReplicas)
    else if EverHeld(c, start, es, r) then Some(Effective(start[r]))
    else start[r]
  }

  ghost predicate SitsRight(c: Config, start: Cluster, es: seq<Event>, r: string)
    requires r in start
  {
    var s := After(c, start, es);
    && r in s.cluster && s.cluster[r] == Expected(c, start, es, r)
    && (r in s.raised ==> s.raised[r].original == Effective(start[r]) < c.minReplicas && !LostRaise(c, start, es, r))
    && (LostRaise(c, start, es, r) ==> Effective(start[r]) < c.minReplicas)
  }

  /** Over any run: a hold stores the true original, and every autoscaler sits where its history says. */
  lemma {:induction false} EverySitsRight(c: Config, start: Cluster, es: seq<Event>)
    ensures After(c, start, es).cluster.Keys == start.Keys && Known(After(c, start, es))
    ensures forall r :: r in start ==> SitsRight(c, start, es, r)
  {
    if es != [] {
      EverySitsRight(c, start, es[..|es| - 1]);
      forall r | r in start ensures SitsRight(c, start, es, r) {
        StepSitsRight(c, start, es, r);
      }
    }
  }

  lemma StepSitsRight(c: Config, start: Cluster, es: seq<Event>, r: string)
    requires es != [] && r in start && SitsRight(c, start, es[..|es| - 1], r)
    ensures SitsRight(c, start, es, r)
  {
    var before, e := es[..|es| - 1], es[|es| - 1];
    var s := After(c, start, before);
    assert After(c, start, es) == Step(c, s, e);
    assert r in s.raised ==> EverHeld(c, start, before, r);
    assert LostRevert(c, start, before, r) ==> r in s.raised;
    if e.Trigger? {
      if RolloutNameFor(e.serviceId) != Some(r) {
        assert HoldOf(Step(c, s, e).raised, r) == HoldOf(s.raised, r) && Step(c, s, e).cluster[r] == s.cluster[r];
      }
    } else if r in s.raised {
      assert HoldOf(Step(c, s, e).raised, r) == HoldAfter(s.raised[r], e.now, e.fates(r));
    }
  }

  /** Without a hold an autoscaler reads as it did at first, exactly if no raise of it was lost. */
  lemma FreeAtOriginalIff(c: Config, start: Cluster, es: seq<Event>, r: string)
    requires r in start && r !in After(c, start, es).raised
    ensures r in After(c, start, es).cluster
    ensures Effective(After(c, start, es).cluster[r]) == Effective(start[r]) <==> !LostRaise(c, start, es, r)
  {
    EverySitsRight(c, start, es);
    assert SitsRight(c, start, es, r);
  }

  /** ... and its very field is what it was, exactly if besides it was never held or was set to 1 or
      more at first: unset and 0 come back as 1. */
  lemma FreeUnchangedIff(c: Config, start: Cluster, es: seq<Event>, r: string)
    requires r in start && r !in After(c, start, es).raised
    ensures r in After(c, start, es).cluster
    ensures After(c, start, es).cluster[r] == start[r] <==>
            !LostRaise(c, start, es, r) && (EverHeld(c, start, es, r) ==> start[r] == Some(Effective(start[r])))
  {
    EverySitsRight(c, start, es);
    assert SitsRight(c, start, es, r);
  }

  /** With a hold it stores the true original, and sits at the target exactly if no revert of this
      hold was lost. */
  lemma HeldAtTargetIff(c: Config, start: Cluster, es: seq<Event>, r: string)
    requires r in After(c, start, es).raised
    ensures r in start && r in After(c, start, es).cluster
    ensures After(c, start, es).raised[r].original == Effective(start[r]) < c.minReplicas
    ensures After(c, start, es).cluster[r] == Some(c.minReplicas) <==> !LostRevert(c, start, es, r)
  {
    EverySitsRight(c, start, es);
    assert r in start && SitsRight(c, start, es, r);
  }

  /** A trigger that reports success leaves the service scaled up, exactly if it was not one that
      merely extended a hold whose revert was lost. */
  lemma SuccessMeansScaledIff(c: Config, start: Cluster, es: seq<Event>, serviceId: string, now: int, answer: Answer)
    requires TriggerOutcome(c, After(c, start, es), serviceId, answer) in {AlreadyRaised, AlreadyEnough, Raised}
    ensures var r, s := RolloutNameFor(serviceId).value, Triggered(c, After(c, start, es), serviceId, now, answer);
            && r in s.cluster
            && (Effective(s.cluster[r]) >= c.minReplicas <==> !LostRevert(c, start, es, r))
  {
    var r := RolloutNameFor(serviceId).value;
    EverySitsRight(c, start, es);
    if r in start {
      assert SitsRight(c, start, es, r);
    }
  }

  /** In plain numbers: a hold stores what minReplicas was at first, or 1 if that was unset or 0. */
  lemma HoldsTheOriginal(c: Config, start: Cluster, es: seq<Event>, r: string)
    requires r in After(c, start, es).raised
    ensures r in start && ReadsAs(start[r], After(c, start, es).raised[r].original)
    ensures After(c, start, es).raised[r].original < c.minReplicas
  {
    HeldAtTargetIff(c, start, es, r);
  }

  const DEMO := Config(4, 900_000)
  const IDLE: Cluster := map["payment-service" := Some(1)]
  const PAYMENT := "svc-a0bc923b"

  /** A raise whose answer is lost is never put back: no hold remembers it. */
  lemma {:induction false} LostRaiseStays(es: seq<Event>, now: int)
    requires es != [] && es[0] == Trigger(PAYMENT, now, Reads(Unacknowledged))
    ensures After(DEMO, IDLE, es) == Scaler(map[], map["payment-service" := Some(4)])
    decreases |es|
  {
    var r := "payment-service";
    var before := es[..|es| - 1];
    assert RolloutNameFor(PAYMENT) == Some(r);
    if |es| == 1 {
      assert After(DEMO, IDLE, before) == Scaler(map[], IDLE);
      assert Triggered(DEMO, Scaler(map[], IDLE), PAYMENT, now, Reads(Unacknowledged)).cluster == map[r := Some(4)];
    } else {
      LostRaiseStays(before, now);
      var s := After(DEMO, IDLE, before);
      if es[|es| - 1].RevertExpired? {
        assert PutBack(s, es[|es| - 1].now, es[|es| - 1].fates) == s.cluster;
        assert HoldsLeft(s.raised, es[|es| - 1].now, es[|es| - 1].fates) == map[];
      }
    }
  }

  /** After a revert whose answer is lost, the next trigger reports the service as raised although it
      runs at its original size. */
  lemma LostRevertReportsRaised(lost: string -> Patch)
    requires lost("payment-service") == Unacknowledged
    ensures var s := After(DEMO, IDLE, [Trigger(PAYMENT, 0, Reads(Acknowledged)), RevertExpired(900_000, lost)]);
            && TriggerOutcome(DEMO, s, PAYMENT, Reads(Acknowledged)) == AlreadyRaised
            && Triggered(DEMO, s, PAYMENT, 930_000, Reads(Acknowledged)).cluster == IDLE
  {
    var r := "payment-service";
    var e0, e1 := Trigger(PAYMENT, 0, Reads(Acknowledged)), RevertExpired(900_000, lost);
    assert [e0, e1][..1] == [e0] && [e0][..0] == [];
    var s0 := After(DEMO, IDLE, [e0]);
    assert After(DEMO, IDLE, []) == Scaler(map[], IDLE);
    assert s0 == Triggered(DEMO, Scaler(map[], IDLE), PAYMENT, 0, Reads(Acknowledged));
    assert RolloutNameFor(PAYMENT) == Some(r);
    assert s0.raised == map[r := Hold(1, 900_000)] && s0.cluster == map[r := Some(4)];
    assert PutBack(s0, 900_000, lost) == IDLE;
    assert After(DEMO, IDLE, [e0, e1]) == Expired(s0, 900_000, lost);
    assert r in HoldsLeft(s0.raised, 900_000, lost);
  }

  // ---- When holds end ----

  /** The clock never goes back. */
  ghost predicate Ordered(es: seq<Event>) {
    es != [] ==> Ordered(es[..|es| - 1]) && forall i: nat :: i < |es| ==> es[i].now <= es[|es| - 1].now
  }

  predicate TriggerFor(e: Event, r: string) {
    e.Trigger? && RolloutNameFor(e.serviceId) == Some(r)
  }

  /** How one event leaves a hold's deadline. */
  lemma DeadlineStep(c: Config, s: Scaler, e: Event, r: string)
    requires r in Step(c, s, e).raised
    ensures TriggerFor(e, r) ==> Step(c, s, e).raised[r].revertAt == e.now + c.revertAfter
    ensures !TriggerFor(e, r) ==> r in s.raised
    ensures !TriggerFor(e, r) && Step(c, s, e).raised[r].revertAt != s.raised[r].revertAt ==>
              && e.RevertExpired? && s.raised[r].revertAt <= e.now
              && Step(c, s, e).raised[r].revertAt == e.now + REVERT_RETRY
  {
  }

  /** The i-th event is a trigger for r, and r is held after it. */
  ghost predicate TriggersHold(c: Config, start: Cluster, es: seq<Event>, i: nat, r: string)
    requires i < |es|
  {
    TriggerFor(es[i], r) && r in After(c, start, es[..i + 1]).raised
  }

  lemma {:induction false} HoldOutlastsTrigger(c: Config, start: Cluster, es: seq<Event>, i: nat, r: string)
    requires Ordered(es) && i < |es| && TriggersHold(c, start, es, i, r) && r in After(c, start, es).raised
    ensures After(c, start, es).raised[r].revertAt >= es[i].now + c.revertAfter
  {
    var n := |es| - 1;
    var s, e := After(c, start, es[..n]), es[n];
    DeadlineStep(c, s, e, r);
    if i == n {
      assert es[..i + 1] == es;
    } else if !TriggerFor(e, r) {
      assert es[..n][..i + 1] == es[..i + 1];
      HoldOutlastsTrigger(c, start, es[..n], i, r);
    }
  }

  /** A check that touches r's hold or its autoscaler comes no sooner than revertAfter past each
      earlier trigger after which r was held. */
  lemma NoEarlyRevert(c: Config, start: Cluster, es: seq<Event>, now: int, fates: string -> Patch, i: nat, r: string)
    requires Ordered(es) && r in After(c, start, es).cluster
    requires i < |es| && TriggersHold(c, start, es, i, r)
    requires var s := After(c, start, es);
             HoldOf(Expired(s, now, fates).raised, r) != HoldOf(s.raised, r) ||
                 Expired(s, now, fates).cluster[r] != s.cluster[r]
    ensures now >= es[i].now + c.revertAfter
  {
    assert r in After(c, start, es).raised;
    HoldOutlastsTrigger(c, start, es, i, r);
  }

  /** The i-th event is a check that found r's hold due and did not get its patch acknowledged. */
  ghost predicate FailsToEnd(c: Config, start: Cluster, es: seq<Event>, i: nat, r: string)
    requires i < |es|
  {
    var s := After(c, start, es[..i]);
    es[i].RevertExpired? && r in s.raised && es[i].now >= s.raised[r].revertAt && es[i].fates(r) != Acknowledged
  }

  /** The i-th event gave r's hold this deadline: a trigger, or a check that failed to end it. */
  ghost predicate SetsDeadline(c: Config, start: Cluster, es: seq<Event>, i: nat, r: string, deadline: int)
    requires i < |es|
  {
    || (TriggerFor(es[i], r) && deadline == es[i].now + c.revertAfter)
    || (FailsToEnd(c, start, es, i, r) && deadline == es[i].now + REVERT_RETRY)
  }

  /** ... and no later event gave it another. */
  ghost predicate LastDeadline(c: Config, start: Cluster, es: seq<Event>, i: nat, r: string, deadline: int) {
    && i < |es| && SetsDeadline(c, start, es, i, r, deadline)
    && forall j: nat :: i < j < |es| ==> !TriggerFor(es[j], r) && !FailsToEnd(c, start, es, j, r)
  }

  lemma FailsInPrefix(c: Config, start: Cluster, es: seq<Event>, n: nat, j: nat, r: string)
    requires j < n <= |es|
    ensures FailsToEnd(c, start, es[..n], j, r) == FailsToEnd(c, start, es, j, r)
  {
    assert es[..n][..j] == es[..j];
  }

  lemma KeepsDeadline(c: Config, start: Cluster, es: seq<Event>, i: nat, r: string, deadline: int)
    requires es != [] && LastDeadline(c, start, es[..|es| - 1], i, r, deadline)
    requires !TriggerFor(es[|es| - 1], r) && !FailsToEnd(c, start, es, |es| - 1, r)
    ensures LastDeadline(c, start, es, i, r, deadline)
  {
    forall j: nat | j < |es| - 1 ensures FailsToEnd(c, start, es[..|es| - 1], j, r) == FailsToEnd(c, start, es, j, r) {
      FailsInPrefix(c, start, es, |es| - 1, j, r);
    }
  }

  /** The exact deadline of a hold: revertAfter past the last trigger for it, or the retry delay past
      the last check that failed to end it, whichever came last. */
  lemma {:induction false} DeadlineIsLastSet(c: Config, start: Cluster, es: seq<Event>, r: string) returns (i: nat)
    requires r in After(c, start, es).raised
    ensures LastDeadline(c, start, es, i, r, After(c, start, es).raised[r].revertAt)
  {
    var n := |es| - 1;
    DeadlineStep(c, After(c, start, es[..n]), es[n], r);
    if TriggerFor(es[n], r) || FailsToEnd(c, start, es, n, r) {
      i := n;
    } else {
      i := DeadlineIsLastSet(c, start, es[..n], r);
      KeepsDeadline(c, start, es, i, r, After(c, start, es[..n]).raised[r].revertAt);
    }
  }

  lemma OneDeadline(c: Config, start: Cluster, es: seq<Event>, r: string, i: nat, d: int, j: nat, e: int)
    requires LastDeadline(c, start, es, i, r, d) && LastDeadline(c, start, es, j, r, e)
    ensures d == e
  {
  }

  /** Exactly when a check ends a hold and puts the original back: its deadline has come, and the patch
      is acknowledged. */
  lemma HoldEndsIff(c: Config, start: Cluster, es: seq<Event>, i: nat, deadline: int,
                    now: int, fates: string -> Patch, r: string)
    requires r in After(c, start, es).raised && LastDeadline(c, start, es, i, r, deadline)
    ensures var s := Expired(After(c, start, es), now, fates);
            && (r !in s.raised <==> now >= deadline && fates(r) == Acknowledged)
            && (r !in s.raised ==> r in start && r in s.cluster && s.cluster[r] == Some(Effective(start[r])))
  {
    var j := DeadlineIsLastSet(c, start, es, r);
    OneDeadline(c, start, es, r, i, deadline, j, After(c, start, es).raised[r].revertAt);
    HeldAtTargetIff(c, start, es, r);
  }

  /** revertAfter has passed since every trigger for r, and the retry delay since every failure to end it. */
  ghost predicate Overdue(c: Config, start: Cluster, es: seq<Event>, r: string, now: int) {
    forall i: nat :: i < |es| ==>
      && (TriggerFor(es[i], r) ==> now >= es[i].now + c.revertAfter)
      && (FailsToEnd(c, start, es, i, r) ==> now >= es[i].now + REVERT_RETRY)
  }

  /** And it does come then: a check, however often others came before, ends an overdue hold and puts
      the original back, if its patch is acknowledged. */
  lemma OverdueIsReverted(c: Config, start: Cluster, es: seq<Event>, now: int, fates: string -> Patch, r: string)
    requires Overdue(c, start, es, r, now) && r in After(c, start, es).raised && fates(r) == Acknowledged
    ensures var s := Expired(After(c, start, es), now, fates);
            && r !in s.raised && r in start && r in s.cluster && s.cluster[r] == Some(Effective(start[r]))
  {
    var i := DeadlineIsLastSet(c, start, es, r);
    HeldAtTargetIff(c, start, es, r);
  }

  /** ... and an acknowledged check that ends it leaves minReplicas as it was at first, or 1. */
  lemma OriginalComesBack(c: Config, start: Cluster, es: seq<Event>, now: int, fates: string -> Patch, r: string)
    requires r in After(c, start, es).raised && r !in Expired(After(c, start, es), now, fates).raised
    ensures r in start && r in Expired(After(c, start, es), now, fates).cluster
    ensures Expired(After(c, start, es), now, fates).cluster[r] ==
            if start[r] == None || start[r] == Some(0) then Some(1) else start[r]
  {
    HeldAtTargetIff(c, start, es, r);
  }
}
