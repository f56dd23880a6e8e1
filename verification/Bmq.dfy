/** The vCPU scheduler of one VM: ten FIFO chains and the vCPU that runs (src/core/sched.c). */
module Bmq {
  import opened Options

  const LEVELS := 10
  const MAX_ADJ := 5
  const DEFAULT_PRIO := 5
  const LOWEST := LEVELS - 1

  /** What the scheduler knows of a vCPU; `slot` is its place in the node pool, so it names the vCPU. */
  datatype Vcpu = Vcpu(slot: nat, base: nat, adj: int, prio: nat)

  /** The chains, front first, and the vCPU taken out of them to run. */
  datatype Queue = Queue(chains: seq<seq<Vcpu>>, running: Option<Vcpu>)

  ghost predicate At(chains: seq<seq<Vcpu>>, i: int, k: int) {
    0 <= i < |chains| && 0 <= k < |chains[i]|
  }

  /** Every queued vCPU is in the chain of its own priority, and in one position only. */
  ghost function Placed(chains: seq<seq<Vcpu>>): (r: bool)
    ensures r ==> |chains| == LEVELS
  {
    && |chains| == LEVELS
    && (forall i, k :: At(chains, i, k) ==> chains[i][k].prio == i)
    && (forall i, k, j, l :: At(chains, i, k) && At(chains, j, l) && chains[i][k].slot == chains[j][l].slot
         ==> i == j && k == l)
  }

  ghost predicate Queued(chains: seq<seq<Vcpu>>, slot: nat) {
    exists i, k :: At(chains, i, k) && chains[i][k].slot == slot
  }

  /** Each vCPU is either in one position of one chain or it is the one that runs. */
  ghost function WF(q: Queue): (r: bool)
    ensures r ==> |q.chains| == LEVELS && (q.running.Some? ==> q.running.value.prio < LEVELS)
  {
    && Placed(q.chains)
    && (q.running.Some? ==> q.running.value.prio < LEVELS && !Queued(q.chains, q.running.value.slot))
  }

  /** The vCPUs of the VM. */
  ghost predicate Owns(q: Queue, slot: nat) {
    Queued(q.chains, slot) || (q.running.Some? && q.running.value.slot == slot)
  }

  // ------------------------------------------------------------------ operations

  /** prio_manage: a boost at the lower limit takes the other branch and lowers the priority. */
  function Adjusted(v: Vcpu, up: bool): (w: Vcpu)
    ensures w.slot == v.slot && w.base == v.base
    ensures v.prio < LEVELS ==> w.prio < LEVELS
  {
    var adj := if up && v.adj > -MAX_ADJ then v.adj - 1 else if v.adj < MAX_ADJ then v.adj + 1 else v.adj;
    var prio := if 0 <= v.base + adj <= LOWEST then v.base + adj else v.prio;
    Vcpu(v.slot, v.base, adj, prio)
  }

  /** The adjustment is within its limits, and the priority is the adjusted one, kept among the levels. */
  ghost predicate InRange(v: Vcpu) {
    var wanted := v.base + v.adj;
    && v.base < LEVELS && -MAX_ADJ <= v.adj <= MAX_ADJ
    && v.prio == if wanted < 0 then 0 else if wanted > LOWEST then LOWEST else wanted
  }

  /** The vCPU after the boosts (true) and the used-up slices (false) of `ups`, in their order. */
  function AdjustedBy(v: Vcpu, ups: seq<bool>): Vcpu {
    if ups == [] then v else Adjusted(AdjustedBy(v, ups[..|ups| - 1]), ups[|ups| - 1])
  }

  /** However often it is boosted and lowered, a vCPU stays within five of its static priority. */
  lemma {:induction false} AdjustmentRange(v: Vcpu, ups: seq<bool>)
    requires InRange(v)
    ensures InRange(AdjustedBy(v, ups)) && AdjustedBy(v, ups).base == v.base
  {
    if ups != [] {
      AdjustmentRange(v, ups[..|ups| - 1]);
    }
  }

  /**
   * Exactly when a boost does what it is for: after any history it raises the adjustment unless that
   * is at its lower limit, where it lowers the vCPU instead, by a level if there is one.
   */
  lemma BoostExactlyWhen(v: Vcpu, ups: seq<bool>)
    requires InRange(v)
    ensures var u := AdjustedBy(v, ups);
            var w := AdjustedBy(v, ups + [true]);
            && (w.adj == u.adj - 1 <==> u.adj != -MAX_ADJ) && (w.adj == u.adj + 1 <==> u.adj == -MAX_ADJ)
            && (w.prio < u.prio <==> u.adj != -MAX_ADJ && 0 < u.base + u.adj < LEVELS)
            && (w.prio > u.prio <==> u.adj == -MAX_ADJ && u.base >= MAX_ADJ)
  {
    AdjustmentRange(v, ups);
    assert (ups + [true])[..|ups|] == ups;
  }

  function Insert(chains: seq<seq<Vcpu>>, v: Vcpu): seq<seq<Vcpu>>
    requires v.prio < |chains|
  {
    chains[v.prio := chains[v.prio] + [v]]
  }

  function Pop(chains: seq<seq<Vcpu>>, i: nat): seq<seq<Vcpu>>
    requires i < |chains| && chains[i] != []
  {
    chains[i := chains[i][1..]]
  }

  /** The first level from `i` on whose chain is not empty. */
  function First(chains: seq<seq<Vcpu>>, i: nat): (r: nat)
    requires i <= |chains|
    ensures i <= r <= |chains|
    ensures r < |chains| ==> chains[r] != []
    ensures forall j :: i <= j < r ==> chains[j] == []
    decreases |chains| - i
  {
    if i == |chains| || chains[i] != [] then i else First(chains, i + 1)
  }

  /** The chains once the vCPU that ran has been queued again, one step lower. */
  function Requeued(q: Queue): (chains: seq<seq<Vcpu>>)
    requires |q.chains| == LEVELS && (q.running.Some? ==> q.running.value.prio < LEVELS)
    ensures |chains| == LEVELS
  {
    if q.running.Some? then Insert(q.chains, Adjusted(q.running.value, false)) else q.chains
  }

  ghost predicate Runnable(q: Queue) {
    q.running.Some? || exists i :: 0 <= i < |q.chains| && q.chains[i] != []
  }

  lemma RequeuedHasWork(q: Queue)
    requires WF(q) && Runnable(q)
    ensures First(Requeued(q), 0) < LEVELS
  {
    if q.running.Some? {
      var v := Adjusted(q.running.value, false);
      assert Requeued(q)[v.prio] != [];
    }
  }

  /** bmq_scheduler: the vCPU that ran goes to the end of a chain, the front of the best chain runs. */
  ghost function Scheduled(q: Queue): (r: Queue)
    requires WF(q) && Runnable(q)
  {
    RequeuedHasWork(q);
    var chains := Requeued(q);
    var i := First(chains, 0);
    Queue(Pop(chains, i), Some(chains[i][0]))
  }

  // ------------------------------------------------------------------ placement

  lemma InsertPlaced(chains: seq<seq<Vcpu>>, v: Vcpu)
    requires Placed(chains) && v.prio < LEVELS && !Queued(chains, v.slot)
    ensures Placed(Insert(chains, v))
    ensures forall s :: Queued(Insert(chains, v), s) <==> Queued(chains, s) || s == v.slot
  {
    var c := Insert(chains, v);
    assert forall i, k :: At(c, i, k) <==> At(chains, i, k) || (i == v.prio && k == |chains[i]|);
    assert forall i, k :: At(chains, i, k) ==> c[i][k] == chains[i][k];
    assert c[v.prio][|chains[v.prio]|] == v;
    forall s ensures Queued(c, s) <==> Queued(chains, s) || s == v.slot {
      if s == v.slot {
        assert At(c, v.prio, |chains[v.prio]|);
      }
      if Queued(chains, s) {
        var i, k :| At(chains, i, k) && chains[i][k].slot == s;
        assert At(c, i, k) && c[i][k].slot == s;
      }
    }
  }

  lemma PopPlaced(chains: seq<seq<Vcpu>>, i: nat)
    requires Placed(chains) && i < LEVELS && chains[i] != []
    ensures Placed(Pop(chains, i)) && !Queued(Pop(chains, i), chains[i][0].slot)
    ensures forall s :: Queued(chains, s) <==> Queued(Pop(chains, i), s) || s == chains[i][0].slot
  {
    var c := Pop(chains, i);
    assert At(chains, i, 0);
    forall j, k | At(c, j, k)
      ensures At(chains, j, if j == i then k + 1 else k)
      ensures c[j][k] == chains[j][if j == i then k + 1 else k]
    {
    }
    forall s ensures Queued(chains, s) <==> Queued(c, s) || s == chains[i][0].slot {
      if Queued(chains, s) && s != chains[i][0].slot {
        var j, k :| At(chains, j, k) && chains[j][k].slot == s;
        var l := if j == i then k - 1 else k;
        assert At(c, j, l) && c[j][l].slot == s;
      }
    }
  }

  /**
   * A scheduling step loses no vCPU, invents none and puts none in two places: a vCPU is in the
   * chains or running afterwards if and only if it was before.
   */
  lemma ScheduledKeepsPlaces(q: Queue)
    requires WF(q) && Runnable(q)
    ensures WF(Scheduled(q)) && Scheduled(q).running.Some?
    ensures forall s :: Owns(Scheduled(q), s) <==> Owns(q, s)
  {
    RequeuedHasWork(q);
    if q.running.Some? {
      InsertPlaced(q.chains, Adjusted(q.running.value, false));
    }
    var chains := Requeued(q);
    var i := First(chains, 0);
    assert At(chains, i, 0);
    PopPlaced(chains, i);
  }

  /** The vCPU picked is at the front of its chain and no vCPU in a chain has a better priority. */
  lemma ScheduledIsBest(q: Queue)
    requires WF(q) && Runnable(q)
    ensures Scheduled(q).running.Some?
    ensures var v := Scheduled(q).running.value;
            && v.prio < LEVELS && Requeued(q)[v.prio] != [] && Requeued(q)[v.prio][0] == v
            && forall i, k :: At(Scheduled(q).chains, i, k) ==> v.prio <= Scheduled(q).chains[i][k].prio
  {
    ScheduledKeepsPlaces(q);
    RequeuedHasWork(q);
    if q.running.Some? {
      InsertPlaced(q.chains, Adjusted(q.running.value, false));
    }
    var chains := Requeued(q);
    var i := First(chains, 0);
    assert At(chains, i, 0);
  }

  // ------------------------------------------------------------------ runs

  /** The queue after `n` calls of bmq_scheduler. */
  ghost function After(q: Queue, n: nat): (r: Queue)
    requires WF(q) && Runnable(q)
    ensures WF(r) && Runnable(r)
    decreases n
  {
    if n == 0 then q else
      ScheduledKeepsPlaces(After(q, n - 1));
      Scheduled(After(q, n - 1))
  }

  lemma AfterNext(q: Queue, n: nat)
    requires WF(q) && Runnable(q)
    ensures WF(Scheduled(q)) && Runnable(Scheduled(q))
    ensures After(q, n + 1) == After(Scheduled(q), n)
  {
    ScheduledKeepsPlaces(q);
    if n > 0 {
      AfterNext(q, n - 1);
    } else {
      assert After(q, 0) == q;
    }
  }

  // ------------------------------------------------------------------ starvation

  /** Without boosts a vCPU starts at its static priority and only sinks, to the lowest level or five below. */
  ghost predicate Sinking(v: Vcpu) {
    && v.base < LEVELS && 0 <= v.adj <= MAX_ADJ
    && v.prio == if v.base + v.adj <= LOWEST then v.base + v.adj else LOWEST
  }

  ghost predicate NoBoosts(q: Queue) {
    && (forall i, k :: At(q.chains, i, k) ==> Sinking(q.chains[i][k]))
    && (q.running.Some? ==> Sinking(q.running.value))
  }

  /** Every vCPU of the VM has the default static priority, as each one that is started has. */
  ghost predicate AllDefault(q: Queue) {
    && (forall i, k :: At(q.chains, i, k) ==> q.chains[i][k].base == DEFAULT_PRIO)
    && (q.running.Some? ==> q.running.value.base == DEFAULT_PRIO)
  }

  lemma DefaultsKept(q: Queue)
    requires WF(q) && Runnable(q) && AllDefault(q)
    ensures AllDefault(Scheduled(q))
  {
    RequeuedHasWork(q);
    var chains := Requeued(q);
    forall i, k | At(chains, i, k) ensures chains[i][k].base == DEFAULT_PRIO {
      assert !At(q.chains, i, k) || chains[i][k] != q.chains[i][k] ==> chains[i][k] == Adjusted(q.running.value, false);
    }
    var f := First(chains, 0);
    assert At(chains, f, 0);
    forall i, k | At(Pop(chains, f), i, k) ensures Pop(chains, f)[i][k].base == DEFAULT_PRIO {
      assert At(chains, i, if i == f then k + 1 else k);
    }
  }

  lemma NoBoostsKept(q: Queue)
    requires WF(q) && Runnable(q) && NoBoosts(q)
    ensures NoBoosts(Scheduled(q))
  {
    RequeuedHasWork(q);
    var chains := Requeued(q);
    forall i, k | At(chains, i, k) ensures Sinking(chains[i][k]) {
      if !(At(q.chains, i, k) && chains[i][k] == q.chains[i][k]) {
        assert chains[i][k] == Adjusted(q.running.value, false);
      }
    }
    var f := First(chains, 0);
    assert At(chains, f, 0);
    var c := Pop(chains, f);
    forall i, k | At(c, i, k) ensures Sinking(c[i][k]) {
      assert At(chains, i, if i == f then k + 1 else k);
    }
  }

  /** What happens to the queue of one VM: bmq_scheduler is called, or a vCPU of it is started. */
  datatype QueueEvent = Call | Start(slot: nat)

  function Started(slot: nat): Vcpu {
    Vcpu(slot, DEFAULT_PRIO, 0, DEFAULT_PRIO)
  }

  ghost predicate QueueStep(q: Queue, e: QueueEvent, r: Queue)
    requires WF(q)
  {
    match e
    case Call => Runnable(q) && r == Scheduled(q)
    case Start(slot) => !Owns(q, slot) && r == Queue(Insert(q.chains, Started(slot)), q.running)
  }

  lemma StepKeepsPlaces(q: Queue, e: QueueEvent, r: Queue)
    requires WF(q) && QueueStep(q, e, r)
    ensures WF(r) && (NoBoosts(q) ==> NoBoosts(r)) && (AllDefault(q) ==> AllDefault(r))
    ensures forall s :: Owns(r, s) <==> Owns(q, s) || e == Start(s)
  {
    if e.Call? {
      ScheduledKeepsPlaces(q);
      if AllDefault(q) {
        DefaultsKept(q);
      }
      if NoBoosts(q) {
        NoBoostsKept(q);
      }
    } else {
      InsertPlaced(q.chains, Started(e.slot));
      assert forall i, k :: At(r.chains, i, k) ==> At(q.chains, i, k) || r.chains[i][k] == Started(e.slot);
    }
  }

  /** `states` is a run of the queue: each state follows from the one before by the event between them. */
  ghost predicate QueueRun(states: seq<Queue>, events: seq<QueueEvent>) {
    && |states| == |events| + 1
    && forall i :: 0 <= i < |events| ==> WF(states[i]) ==> QueueStep(states[i], events[i], states[i + 1])
  }

  /**
   * In every run each vCPU of the VM, first or started later, is in exactly one place: in one
   * position of the chain of its own priority, or running.
   */
  lemma {:induction false} RunKeepsPlaces(states: seq<Queue>, events: seq<QueueEvent>, slot: nat)
    requires QueueRun(states, events) && WF(states[0])
    ensures WF(states[|events|]) && (NoBoosts(states[0]) ==> NoBoosts(states[|events|]))
    ensures AllDefault(states[0]) ==> AllDefault(states[|events|])
    ensures Owns(states[|events|], slot) <==> Owns(states[0], slot) || Start(slot) in events
    decreases |events|
  {
    hide QueueStep, WF, Owns, NoBoosts, AllDefault;
    var n := |events|;
    if n > 0 {
      RunKeepsPlaces(states[..n], events[..n - 1], slot);
      StepKeepsPlaces(states[n - 1], events[n - 1], states[n]);
      assert events == events[..n - 1] + [events[n - 1]];
    }
  }

  /** How many vCPUs are queued below level `n`. */
  ghost function Below(chains: seq<seq<Vcpu>>, n: nat): nat
    requires n <= |chains|
  {
    if n == 0 then 0 else Below(chains, n - 1) + |chains[n - 1]|
  }

  /** The levels the queued vCPUs still have to sink before they reach level `n`. */
  ghost function Levels(chains: seq<seq<Vcpu>>, n: nat): nat
    requires n <= |chains|
  {
    if n == 0 then 0 else Levels(chains, n - 1) + Below(chains, n)
  }

  ghost function Gap(i: nat, p: nat): nat {
    if i < p then p - i else 0
  }

  lemma BelowChanges(a: seq<seq<Vcpu>>, b: seq<seq<Vcpu>>, i: nat, d: int, n: nat)
    requires |a| == |b| && i < |a| && n <= |a|
    requires forall j :: 0 <= j < |a| && j != i ==> a[j] == b[j]
    requires |b[i]| == |a[i]| + d
    ensures Below(b, n) == Below(a, n) + (if i < n then d else 0)
  {
    if n > 0 {
      BelowChanges(a, b, i, d, n - 1);
    }
  }

  lemma LevelsAdd(a: seq<seq<Vcpu>>, b: seq<seq<Vcpu>>, i: nat, n: nat)
    requires |a| == |b| && i < |a| && n <= |a|
    requires forall j :: 0 <= j < |a| && j != i ==> a[j] == b[j]
    requires |b[i]| == |a[i]| + 1
    ensures Levels(b, n) == Levels(a, n) + Gap(i, n)
  {
    if n > 0 {
      BelowChanges(a, b, i, 1, n);
      LevelsAdd(a, b, i, n - 1);
    }
  }

  lemma NoLevelsMeansEmpty(chains: seq<seq<Vcpu>>, n: nat)
    requires n <= |chains|
    ensures Levels(chains, n) == 0 <==> forall i :: 0 <= i < n ==> chains[i] == []
    ensures Below(chains, n) == 0 <==> forall i :: 0 <= i < n ==> chains[i] == []
  {
    if n > 0 {
      NoLevelsMeansEmpty(chains, n - 1);
    }
  }

  /** The turns other vCPUs can still get before the one at position `k` of level `p`. */
  ghost function Potential(q: Queue, p: nat, k: nat): nat
    requires |q.chains| == LEVELS && p < LEVELS
  {
    Levels(q.chains, p) + k
      + if q.running.Some? then Gap(Adjusted(q.running.value, false).prio, p) else 0
  }

  /** No other vCPU stays above level `p` for good. */
  ghost predicate AllSink(q: Queue, p: nat) {
    && (forall i, k :: At(q.chains, i, k) && i <= p ==> q.chains[i][k].base + MAX_ADJ >= p)
    && (q.running.Some? ==> q.running.value.base + MAX_ADJ >= p)
  }

  lemma RequeuedPotential(q: Queue, p: nat, k: nat)
    requires WF(q) && At(q.chains, p, k)
    ensures At(Requeued(q), p, k) && Requeued(q)[p][k] == q.chains[p][k]
    ensures Levels(Requeued(q), p) + k == Potential(q, p, k)
  {
    if q.running.Some? {
      var v := Adjusted(q.running.value, false);
      LevelsAdd(q.chains, Requeued(q), v.prio, p);
    }
  }

  /** One call either picks the vCPU, when no turns are left before it, or uses up exactly one of them. */
  lemma PotentialFalls(q: Queue, p: nat, k: nat) returns (l: nat)
    requires WF(q) && NoBoosts(q) && At(q.chains, p, k) && AllSink(q, p)
    ensures WF(Scheduled(q)) && NoBoosts(Scheduled(q)) && Scheduled(q).running.Some?
    ensures Potential(q, p, k) == 0 ==> Scheduled(q).running.value == q.chains[p][k]
    ensures Potential(q, p, k) > 0 ==>
      && Scheduled(q).running.value.slot != q.chains[p][k].slot
      && At(Scheduled(q).chains, p, l) && Scheduled(q).chains[p][l] == q.chains[p][k]
      && AllSink(Scheduled(q), p) && Potential(Scheduled(q), p, l) == Potential(q, p, k) - 1
  {
    assert q.chains[p] != [];
    ScheduledKeepsPlaces(q);
    NoBoostsKept(q);
    RequeuedHasWork(q);
    RequeuedPotential(q, p, k);
    var chains := Requeued(q);
    var f := First(chains, 0);
    var u := chains[f][0];
    var after := Pop(chains, f);
    NoLevelsMeansEmpty(chains, p);
    l := if f == p && k > 0 then k - 1 else k;
    if Potential(q, p, k) > 0 {
      assert f < p || (f == p && k > 0);
      assert At(chains, f, 0);
      PickSinks(q, p, f);
      LevelsAdd(after, chains, f, p);
      assert Potential(Scheduled(q), p, l) == Levels(after, p) + l + Gap(Adjusted(u, false).prio, p);
      StillAllSink(q, p);
      if q.running.Some? {
        InsertPlaced(q.chains, Adjusted(q.running.value, false));
      }
      assert At(chains, p, k) && (f != p || k != 0);
    }
  }

  lemma PickSinks(q: Queue, p: nat, f: nat)
    requires WF(q) && NoBoosts(q) && AllSink(q, p) && p < LEVELS && f <= p && At(Requeued(q), f, 0)
    ensures var u := Requeued(q)[f][0];
            && u.base + MAX_ADJ >= p
            && Gap(Adjusted(u, false).prio, p) == (if f < p then Gap(f, p) - 1 else 0)
  {
    var u := Requeued(q)[f][0];
    if At(q.chains, f, 0) && u == q.chains[f][0] {
      assert Sinking(u) && u.prio == f;
    } else {
      assert u == Adjusted(q.running.value, false) && u.prio == f;
      assert Sinking(q.running.value);
    }
  }

  lemma StillAllSink(q: Queue, p: nat)
    requires WF(q) && Runnable(q) && NoBoosts(q) && AllSink(q, p) && p < LEVELS
    requires First(Requeued(q), 0) <= p
    ensures AllSink(Scheduled(q), p)
  {
    RequeuedHasWork(q);
    var chains := Requeued(q);
    var f := First(chains, 0);
    assert At(chains, f, 0);
    forall i, k | At(chains, i, k) && i <= p ensures chains[i][k].base + MAX_ADJ >= p {
      if !(At(q.chains, i, k) && chains[i][k] == q.chains[i][k]) {
        assert chains[i][k] == Adjusted(q.running.value, false);
      }
    }
    forall i, k | At(Pop(chains, f), i, k) && i <= p ensures Pop(chains, f)[i][k].base + MAX_ADJ >= p {
      assert At(chains, i, if i == f then k + 1 else k);
    }
  }

  /**
   * Starvation bound: a vCPU is picked by exactly the call number Potential + 1 and by none before,
   * as long as no other vCPU is confined to better levels.
   */
  lemma {:induction false} PickedAfterPotential(q: Queue, p: nat, k: nat, n: nat)
    requires WF(q) && NoBoosts(q) && At(q.chains, p, k) && AllSink(q, p) && n <= Potential(q, p, k)
    ensures Runnable(q) && After(q, n + 1).running.Some?
    ensures After(q, n + 1).running.value.slot == q.chains[p][k].slot <==> n == Potential(q, p, k)
    decreases n
  {
    assert Runnable(q) by {
      assert q.chains[p] != [];
    }
    hide Scheduled, Potential, AllSink, NoBoosts, Placed, Runnable;
    var l := PotentialFalls(q, p, k);
    AfterNext(q, n);
    if n > 0 {
      PickedAfterPotential(Scheduled(q), p, l, n - 1);
    }
  }

  /** With the default static priority every vCPU can sink past every level. */
  lemma DefaultsAllSink(q: Queue, p: nat)
    requires p < LEVELS && AllDefault(q)
    ensures AllSink(q, p) && !Confined(q, p)
  {
  }

  /** A vCPU that never leaves the levels above `p`. */
  ghost predicate Confined(q: Queue, p: nat) {
    || (exists i, k :: At(q.chains, i, k) && i < p && q.chains[i][k].base + MAX_ADJ < p)
    || (q.running.Some? && q.running.value.base + MAX_ADJ < p)
  }

  lemma ConfinedStays(q: Queue, p: nat, k: nat)
    requires WF(q) && NoBoosts(q) && At(q.chains, p, k) && Confined(q, p)
    ensures Runnable(q) && WF(Scheduled(q)) && NoBoosts(Scheduled(q)) && Confined(Scheduled(q), p)
    ensures Scheduled(q).running.Some? && Scheduled(q).running.value.slot != q.chains[p][k].slot
    ensures At(Scheduled(q).chains, p, k) && Scheduled(q).chains[p][k] == q.chains[p][k]
  {
    assert q.chains[p] != [];
    ScheduledKeepsPlaces(q);
    NoBoostsKept(q);
    RequeuedHasWork(q);
    RequeuedPotential(q, p, k);
    var chains := Requeued(q);
    var i, j := ConfinedQueued(q, p);
    var f := First(chains, 0);
    assert f <= i < p;
    var after := Pop(chains, f);
    if f != i {
      assert At(after, i, j);
    } else if j > 0 {
      assert At(after, i, j - 1) && after[i][j - 1] == chains[i][j];
    }
    if q.running.Some? {
      InsertPlaced(q.chains, Adjusted(q.running.value, false));
    }
    assert At(chains, f, 0) && At(chains, p, k);
  }

  lemma ConfinedQueued(q: Queue, p: nat) returns (i: nat, j: nat)
    requires WF(q) && NoBoosts(q) && p < LEVELS && Confined(q, p)
    ensures At(Requeued(q), i, j) && i < p && Requeued(q)[i][j].base + MAX_ADJ < p
  {
    if q.running.Some? && q.running.value.base + MAX_ADJ < p {
      var v := Adjusted(q.running.value, false);
      i, j := v.prio, |q.chains[v.prio]|;
      assert Requeued(q)[i][j] == v;
    } else {
      i, j :| At(q.chains, i, j) && i < p && q.chains[i][j].base + MAX_ADJ < p;
      assert Requeued(q)[i][j] == q.chains[i][j];
    }
  }

  lemma {:induction false} ConfinedStarves(q: Queue, p: nat, k: nat, n: nat)
    requires WF(q) && NoBoosts(q) && At(q.chains, p, k) && Confined(q, p)
    ensures Runnable(q) && After(q, n + 1).running.Some?
    ensures After(q, n + 1).running.value.slot != q.chains[p][k].slot
    decreases n
  {
    ConfinedStays(q, p, k);
    hide Scheduled, NoBoosts, Placed, Runnable, Confined;
    AfterNext(q, n);
    if n > 0 {
      ConfinedStarves(Scheduled(q), p, k, n - 1);
    }
  }

  /**
   * Exactly when a queued vCPU is starved: it is picked at some call if and only if no other vCPU
   * has a static priority more than five levels better than the level it waits at.
   */
  lemma PickedUnlessConfined(q: Queue, p: nat, k: nat)
    requires WF(q) && NoBoosts(q) && At(q.chains, p, k)
    ensures Runnable(q)
    ensures (exists n: nat :: Picks(q, n, q.chains[p][k].slot)) <==> !Confined(q, p)
  {
    assert q.chains[p] != [];
    if Confined(q, p) {
      forall n: nat ensures !Picks(q, n, q.chains[p][k].slot) {
        ConfinedStarves(q, p, k, n);
      }
    } else {
      forall i, j | At(q.chains, i, j) && i <= p ensures q.chains[i][j].base + MAX_ADJ >= p {
        assert i == p ==> Sinking(q.chains[i][j]);
      }
      PickedAfterPotential(q, p, k, Potential(q, p, k));
      assert Picks(q, Potential(q, p, k), q.chains[p][k].slot);
    }
  }

  /** Call number n + 1 picks the vCPU `slot`. */
  ghost predicate Picks(q: Queue, n: nat, slot: nat)
    requires WF(q) && Runnable(q)
  {
    After(q, n + 1).running.Some? && After(q, n + 1).running.value.slot == slot
  }

  // ------------------------------------------------------------------ nobody starves

  /** With the default priority everywhere, each queued vCPU is picked, at the call its potential tells. */
  lemma DefaultsArePicked(q: Queue, p: nat, k: nat)
    requires WF(q) && NoBoosts(q) && AllDefault(q) && At(q.chains, p, k)
    ensures Runnable(q) && !Confined(q, p) && Picks(q, Potential(q, p, k), q.chains[p][k].slot)
  {
    hide NoBoosts, AllDefault, AllSink, Confined;
    DefaultsAllSink(q, p);
    PickedAfterPotential(q, p, k, Potential(q, p, k));
  }

  /**
   * In every state of every run of calls and starts that begins with default priorities only, no
   * vCPU is confined to better levels, so each queued one is picked.
   */
  lemma NobodyStarves(states: seq<Queue>, events: seq<QueueEvent>, p: nat, k: nat)
    requires QueueRun(states, events) && WF(states[0]) && NoBoosts(states[0]) && AllDefault(states[0])
    requires At(states[|events|].chains, p, k)
    ensures var q := states[|events|];
      && WF(q) && Runnable(q) && !Confined(q, p) && Picks(q, Potential(q, p, k), q.chains[p][k].slot)
  {
    hide QueueStep, NoBoosts, AllDefault, Confined, Picks, Placed, Potential;
    RunKeepsPlaces(states, events, 0);
    DefaultsArePicked(states[|events|], p, k);
  }

  /** A vCPU that is started comes before those that wait below its level, once for each level. */
  lemma StartPotential(q: Queue, slot: nat, r: Queue, p: nat, k: nat)
    requires WF(q) && QueueStep(q, Start(slot), r) && At(q.chains, p, k)
    ensures WF(r) && At(r.chains, p, k) && r.chains[p][k] == q.chains[p][k]
    ensures Potential(r, p, k) == Potential(q, p, k) + Gap(DEFAULT_PRIO, p)
  {
    StepKeepsPlaces(q, Start(slot), r);
    LevelsAdd(q.chains, r.chains, DEFAULT_PRIO, p);
  }

  function Starts(events: seq<QueueEvent>): (n: nat)
    ensures n <= |events|
  {
    if events == [] then 0 else Starts(events[..|events| - 1]) + if events[|events| - 1].Start? then 1 else 0
  }

  ghost predicate NotPicked(states: seq<Queue>, slot: nat) {
    forall i :: 0 < i < |states| ==> states[i].running.Some? ==> states[i].running.value.slot != slot
  }

  /**
   * How long a vCPU waits while others are started: as long as it is not picked, it keeps its level,
   * every call uses up one turn, and every start adds one for each level between the default and its
   * own. So it is picked before there have been more calls than that.
   */
  lemma {:induction false} WaitInRun(states: seq<Queue>, events: seq<QueueEvent>, p: nat, k: nat) returns (l: nat)
    requires QueueRun(states, events) && WF(states[0]) && NoBoosts(states[0]) && AllDefault(states[0])
    requires At(states[0].chains, p, k) && NotPicked(states, states[0].chains[p][k].slot)
    ensures var q, starts := states[|events|], Starts(events);
      && WF(q) && At(q.chains, p, l) && q.chains[p][l] == states[0].chains[p][k]
      && Potential(q, p, l) + (|events| - starts) == Potential(states[0], p, k) + starts * Gap(DEFAULT_PRIO, p)
    decreases |events|
  {
    hide QueueStep, WF, NoBoosts, AllDefault, AllSink, Confined, Scheduled, Potential;
    var n := |events|;
    l := k;
    if n > 0 {
      var m := WaitInRun(states[..n], events[..n - 1], p, k);
      RunKeepsPlaces(states[..n], events[..n - 1], 0);
      var q, r := states[n - 1], states[n];
      assert QueueStep(q, events[n - 1], r);
      assert events == events[..n - 1] + [events[n - 1]];
      l := WaitStep(q, events[n - 1], r, p, m);
      var starts := Starts(events[..n - 1]);
      assert (starts + 1) * Gap(DEFAULT_PRIO, p) == starts * Gap(DEFAULT_PRIO, p) + Gap(DEFAULT_PRIO, p);
    }
  }

  lemma WaitStep(q: Queue, e: QueueEvent, r: Queue, p: nat, k: nat) returns (l: nat)
    requires WF(q) && NoBoosts(q) && AllDefault(q) && At(q.chains, p, k) && QueueStep(q, e, r)
    requires r.running.Some? ==> r.running.value.slot != q.chains[p][k].slot
    ensures WF(r) && At(r.chains, p, l) && r.chains[p][l] == q.chains[p][k]
    ensures Potential(r, p, l) == Potential(q, p, k) + if e.Start? then Gap(DEFAULT_PRIO, p) else -1
  {
    hide NoBoosts, AllDefault, AllSink, Confined, Scheduled, Potential;
    DefaultsAllSink(q, p);
    if e.Start? {
      StartPotential(q, e.slot, r, p, k);
      l := k;
    } else {
      l := PotentialFalls(q, p, k);
    }
  }
}
