/** All CPUs together: ticks, the two critical sections of bfs_scheduler, and vCPU starts (src/core/sched.c). */
module SchedRun {
  import opened Bmq
  import opened Bfs
  import Barrier

  /** TIMER_WAIT, bmq_rr_interval and bfs_rr_interval. */
  datatype Config = Config(tick: nat, bmq: nat, bfs: nat)

  datatype Vm = Vm(nrCpus: nat, diff: nat, vdeadline: nat, slice: nat, need: bool,
                   queue: Queue, vslice: nat, vneed: bool)

  /**
   * Where a CPU that holds a VM is: in the guest, at the barrier of update_task_times, in an interrupt
   * before try_reschedule, about to link the VM with the deadline it has computed, or before
   * bmq_scheduler.
   */
  datatype Stage = Guest | Ticking | Interrupted | Releasing | Taken

  datatype Cpu = Looking | Holding(vm: nat, at: Stage)

  /** `list` is the list of waiting VMs, from the sentinel on; `bar` is cpu_glb_sync, the barrier of the ticks. */
  datatype Sys = Sys(clock: nat, list: seq<nat>, vms: seq<Vm>, cpus: seq<Cpu>, bar: Barrier.Token)

  datatype Event =
    | Tick(cpu: nat)
    | Pass(cpu: nat)
    | Irq(cpu: nat)
    | Resched(cpu: nat)
    | Link(cpu: nat)
    | Take(cpu: nat)
    | Dispatch(cpu: nat)
    | StartVcpu(cpu: nat, slot: nat)

  /** The list entry of a VM; nr_vcpu_ready starts at the number of CPUs and counts the queued vCPUs on top. */
  ghost function EntryOf(vms: seq<Vm>, v: nat): Entry {
    if v < |vms| && |vms[v].queue.chains| == LEVELS then
      Entry(v, vms[v].vdeadline, vms[v].nrCpus + Below(vms[v].queue.chains, LEVELS))
    else Entry(v, 0, 0)
  }

  ghost function Waiting(s: Sys): (es: seq<Entry>)
    ensures |es| == |s.list| && forall k :: 0 <= k < |es| ==> es[k] == EntryOf(s.vms, s.list[k])
  {
    seq(|s.list|, i requires 0 <= i < |s.list| => EntryOf(s.vms, s.list[i]))
  }

  // ------------------------------------------------------------------ steps

  ghost predicate Holds(s: Sys, c: nat, at: Stage) {
    c < |s.cpus| && s.cpus[c].Holding? && s.cpus[c].at == at && s.cpus[c].vm < |s.vms|
  }

  function Minus(slice: nat, tick: nat): nat {
    if slice <= tick then 0 else slice - tick
  }

  function Ticked(cfg: Config, vm: Vm): Vm {
    vm.(vslice := Minus(vm.vslice, cfg.tick), vneed := vm.vneed || vm.vslice <= cfg.tick,
        slice := Minus(vm.slice, cfg.tick), need := vm.need || vm.slice <= cfg.tick)
  }

  ghost function Switched(cfg: Config, vm: Vm): Vm
    requires WF(vm.queue) && Runnable(vm.queue)
  {
    vm.(queue := Scheduled(vm.queue), vslice := cfg.bmq, vneed := false)
  }

  function With(s: Sys, c: nat, cpu: Cpu, v: nat, vm: Vm): Sys
    requires c < |s.cpus| && v < |s.vms|
  {
    s.(cpus := s.cpus[c := cpu], vms := s.vms[v := vm])
  }

  /**
   * The first half of update_task_times: CPU 0 advances the clock, and the CPU arrives at the
   * barrier. CPU 0 does both in one step, since nobody waits for the clock.
   */
  ghost predicate TickStep(cfg: Config, s: Sys, c: nat, t: Sys) {
    Holds(s, c, Guest) && Barrier.Step(s.bar, Barrier.Arrive(c), t.bar) &&
    t == s.(cpus := s.cpus[c := Holding(s.cpus[c].vm, Ticking)], bar := t.bar,
            clock := if c == 0 then s.clock + cfg.tick else s.clock)
  }

  /** The second half: once the barrier lets the CPU go, it takes the tick off both slices. */
  ghost predicate PassStep(cfg: Config, s: Sys, c: nat, t: Sys) {
    Holds(s, c, Ticking) && Barrier.Step(s.bar, Barrier.Leave(c), t.bar) &&
    var v := s.cpus[c].vm;
    t == With(s, c, Holding(v, Interrupted), v, Ticked(cfg, s.vms[v])).(bar := t.bar)
  }

  ghost predicate NeedsVcpu(vm: Vm) {
    vm.queue.running.None? || vm.vneed
  }

  /** try_reschedule: reads the clock to give the VM up, or switches its vCPU, or goes back to the guest. */
  ghost predicate ReschedStep(cfg: Config, s: Sys, c: nat, t: Sys) {
    Holds(s, c, Interrupted) &&
    var v := s.cpus[c].vm;
    var vm := s.vms[v];
    if vm.need then
      t == With(s, c, Holding(v, Releasing), v, vm.(vdeadline := s.clock + vm.diff))
    else if NeedsVcpu(vm) then
      WF(vm.queue) && Runnable(vm.queue) && t == With(s, c, Holding(v, Guest), v, Switched(cfg, vm))
    else
      t == s.(cpus := s.cpus[c := Holding(v, Guest)])
  }

  /** rq_insert: the VM is linked under the lock, with the deadline computed before. */
  ghost predicate LinkStep(s: Sys, c: nat, t: Sys) {
    Holds(s, c, Releasing) && t == s.(cpus := s.cpus[c := Looking], list := [s.cpus[c].vm] + s.list)
  }

  /** bmq_scheduler on the VM just taken. */
  ghost predicate DispatchStep(cfg: Config, s: Sys, c: nat, t: Sys) {
    Holds(s, c, Taken) &&
    var v := s.cpus[c].vm;
    WF(s.vms[v].queue) && Runnable(s.vms[v].queue) &&
    t == With(s, c, Holding(v, Guest), v, Switched(cfg, s.vms[v]))
  }

  ghost predicate StartStep(s: Sys, c: nat, slot: nat, t: Sys) {
    Holds(s, c, Guest) && Unused(s, slot) &&
    var v := s.cpus[c].vm;
    var q := s.vms[v].queue;
    WF(q) && t == s.(vms := s.vms[v := s.vms[v].(queue := Queue(Insert(q.chains, Started(slot)), q.running))])
  }

  ghost predicate Step(cfg: Config, s: Sys, e: Event, t: Sys) {
    match e
    case Tick(c) => TickStep(cfg, s, c, t)
    case Pass(c) => PassStep(cfg, s, c, t)
    case Link(c) => LinkStep(s, c, t)
    case Irq(c) => Holds(s, c, Guest) && t == s.(cpus := s.cpus[c := Holding(s.cpus[c].vm, Interrupted)])
    case Resched(c) => ReschedStep(cfg, s, c, t)
    case Take(c) => exists k: nat :: Earliest(Waiting(s), k) && TakeAt(cfg, s, c, k, t)
    case Dispatch(c) => DispatchStep(cfg, s, c, t)
    case StartVcpu(c, slot) => StartStep(s, c, slot, t)
  }

  ghost predicate TakeAt(cfg: Config, s: Sys, c: nat, k: nat, t: Sys) {
    c < |s.cpus| && s.cpus[c].Looking? && k < |s.list| && s.list[k] < |s.vms| &&
    var v := s.list[k];
    t == With(s, c, Holding(v, Taken), v, s.vms[v].(slice := cfg.bfs, need := false))
         .(list := s.list[..k] + s.list[k + 1..])
  }

  /** A slot of the vCPU pool that malloc_vpnode can hand out. */
  ghost predicate Unused(s: Sys, slot: nat) {
    forall v :: 0 <= v < |s.vms| ==> !Owns(s.vms[v].queue, slot)
  }

  /**
   * After vm_init: every VM waits in the list with its first vCPU queued, and no CPU has taken one.
   * The rounds of the barrier during start-up are over.
   */
  ghost predicate Initial(s: Sys) {
    && s.clock == 0 && |s.bar.cpus| == |s.cpus| && Barrier.Inv(s.bar)
    && (forall c :: 0 <= c < |s.bar.cpus| ==> s.bar.cpus[c].phase.Out?)
    && (forall c :: 0 <= c < |s.cpus| ==> s.cpus[c].Looking?)
    && |s.list| == |s.vms|
    && (forall k :: 0 <= k < |s.list| ==> s.list[k] < |s.vms|)
    && (forall v :: 0 <= v < |s.vms| ==> v in s.list)
    && (forall j, k :: 0 <= j < k < |s.list| ==> s.list[j] != s.list[k])
    && (forall v :: 0 <= v < |s.vms| ==> NewVm(s.vms[v]))
    && Apart(s.vms)
  }

  ghost predicate NewVm(vm: Vm) {
    && vm.nrCpus > 0 && vm.diff > 0 && vm.vdeadline == vm.diff && vm.slice == 0 && vm.need
    && WF(vm.queue) && NoBoosts(vm.queue) && AllDefault(vm.queue) && vm.queue.running.None? && Runnable(vm.queue)
  }

  ghost predicate Apart(vms: seq<Vm>) {
    forall v, w, slot :: 0 <= v < |vms| && 0 <= w < |vms| && v != w ==>
      !(Owns(vms[v].queue, slot) && Owns(vms[w].queue, slot))
  }

  ghost predicate Run(cfg: Config, states: seq<Sys>, events: seq<Event>) {
    && |states| == |events| + 1 && Initial(states[0])
    && forall i :: 0 <= i < |events| ==> Step(cfg, states[i], events[i], states[i + 1])
  }

  // ------------------------------------------------------------------ one place for every VM

  ghost function Held(cpus: seq<Cpu>, n: nat): nat
    requires n <= |cpus|
  {
    if n == 0 then 0 else Held(cpus, n - 1) + if cpus[n - 1].Holding? then 1 else 0
  }

  ghost predicate HeldBy(s: Sys, c: int, v: nat) {
    0 <= c < |s.cpus| && s.cpus[c].Holding? && s.cpus[c].vm == v
  }

  /** Every VM is linked in the list once or held by one CPU, never both. */
  ghost predicate Exclusive(s: Sys) {
    && (forall k :: 0 <= k < |s.list| ==> s.list[k] < |s.vms|)
    && (forall j, k :: 0 <= j < k < |s.list| ==> s.list[j] != s.list[k])
    && (forall c, v: nat :: HeldBy(s, c, v) ==> v < |s.vms| && v !in s.list)
    && (forall c, d, v: nat :: HeldBy(s, c, v) && HeldBy(s, d, v) ==> c == d)
    && (forall v :: 0 <= v < |s.vms| ==> v in s.list || exists c :: HeldBy(s, c, v))
    && |s.list| + Held(s.cpus, |s.cpus|) == |s.vms|
  }

  lemma HeldChanges(a: seq<Cpu>, b: seq<Cpu>, c: nat, n: nat)
    requires |a| == |b| && c < |a| && n <= |a| && b == a[c := b[c]]
    ensures Held(b, n) + (if c < n && a[c].Holding? then 1 else 0)
         == Held(a, n) + (if c < n && b[c].Holding? then 1 else 0)
  {
    if n > 0 {
      HeldChanges(a, b, c, n - 1);
    }
  }

  lemma HeldBound(cpus: seq<Cpu>, n: nat, c: nat)
    requires n <= |cpus|
    ensures Held(cpus, n) <= n && (c < n && cpus[c].Looking? ==> Held(cpus, n) < n)
  {
    if n > 0 {
      HeldBound(cpus, n - 1, c);
    }
  }

  lemma NothingHeld(cpus: seq<Cpu>, n: nat)
    requires n <= |cpus| && forall c :: 0 <= c < |cpus| ==> cpus[c].Looking?
    ensures Held(cpus, n) == 0
  {
  }

  /** A step that leaves the list and the holders of all VMs as they are. */
  lemma ExclusiveKept(s: Sys, t: Sys)
    requires Exclusive(s) && t.list == s.list && |t.vms| == |s.vms| && |t.cpus| == |s.cpus|
    requires forall c, v: nat :: HeldBy(t, c, v) <==> HeldBy(s, c, v)
    requires Held(t.cpus, |t.cpus|) == Held(s.cpus, |s.cpus|)
    ensures Exclusive(t)
  {
    forall v | 0 <= v < |t.vms| && v !in t.list ensures exists c :: HeldBy(t, c, v) {
      var c :| HeldBy(s, c, v);
      assert HeldBy(t, c, v);
    }
  }

  lemma GivingUpExclusive(s: Sys, c: nat, t: Sys)
    requires Exclusive(s) && c < |s.cpus| && s.cpus[c].Holding? && |t.vms| == |s.vms|
    requires t.cpus == s.cpus[c := Looking] && t.list == [s.cpus[c].vm] + s.list
    ensures Exclusive(t)
  {
    var v := s.cpus[c].vm;
    assert HeldBy(s, c, v);
    HeldChanges(s.cpus, t.cpus, c, |s.cpus|);
    forall d, w: nat | HeldBy(t, d, w) ensures HeldBy(s, d, w) && d != c && w != v {
      assert d != c && HeldBy(s, d, w);
    }
    forall w | 0 <= w < |t.vms| && w !in t.list ensures exists d :: HeldBy(t, d, w) {
      assert t.list[0] == v && forall k :: 0 <= k < |s.list| ==> t.list[k + 1] == s.list[k];
      var d :| HeldBy(s, d, w);
      assert HeldBy(t, d, w);
    }
  }

  lemma TakingExclusive(cfg: Config, s: Sys, c: nat, k: nat, t: Sys)
    requires Exclusive(s) && TakeAt(cfg, s, c, k, t)
    ensures Exclusive(t)
  {
    var v := s.list[k];
    HeldChanges(s.cpus, t.cpus, c, |s.cpus|);
    assert forall j :: 0 <= j < |t.list| ==> t.list[j] == s.list[if j < k then j else j + 1];
    forall d, w: nat | HeldBy(t, d, w) ensures (d == c && w == v) || (d != c && HeldBy(s, d, w) && w != v) {
      assert d != c ==> HeldBy(s, d, w);
    }
    assert v !in t.list;
    forall w | 0 <= w < |t.vms| && w !in t.list ensures exists d :: HeldBy(t, d, w) {
      if w == v {
        assert HeldBy(t, c, v);
      } else {
        RemovalKeeps(s.list, k, w);
        var d :| HeldBy(s, d, w);
        assert HeldBy(t, d, w);
      }
    }
  }

  lemma RemovalKeeps(list: seq<nat>, k: nat, w: nat)
    requires k < |list|
    ensures w in list && w != list[k] ==> w in list[..k] + list[k + 1..]
  {
  }

  lemma StepExclusive(cfg: Config, s: Sys, e: Event, t: Sys)
    requires Exclusive(s) && Step(cfg, s, e, t)
    ensures Exclusive(t) && |t.vms| == |s.vms| && |t.cpus| == |s.cpus|
  {
    hide Exclusive, Earliest, Switched, Ticked, Unused, WF, Runnable;
    if e.Take? {
      var k: nat :| Earliest(Waiting(s), k) && TakeAt(cfg, s, e.cpu, k, t);
      TakingExclusive(cfg, s, e.cpu, k, t);
    } else if e.Link? {
      GivingUpExclusive(s, e.cpu, t);
    } else {
      HeldChanges(s.cpus, t.cpus, e.cpu, |s.cpus|);
      ExclusiveKept(s, t);
    }
  }

  // ------------------------------------------------------------------ one place for every vCPU

  ghost predicate SoundVm(vm: Vm) {
    && vm.nrCpus > 0 && vm.diff > 0
    && WF(vm.queue) && NoBoosts(vm.queue) && AllDefault(vm.queue) && Runnable(vm.queue)
  }

  ghost predicate Sound(s: Sys) {
    Apart(s.vms) && forall v :: 0 <= v < |s.vms| ==> SoundVm(s.vms[v])
  }

  /** One VM's queue changes, and gains no vCPU but `e`'s, which no other VM has. */
  lemma ApartKept(vms: seq<Vm>, v: nat, vm: Vm, e: QueueEvent)
    requires Apart(vms) && v < |vms|
    requires forall s :: Owns(vm.queue, s) ==> Owns(vms[v].queue, s) || e == Bmq.Start(s)
    requires e.Start? ==> forall w :: 0 <= w < |vms| ==> !Owns(vms[w].queue, e.slot)
    ensures Apart(vms[v := vm])
  {
    hide Owns;
  }

  lemma StepSound(cfg: Config, s: Sys, e: Event, t: Sys)
    requires Sound(s) && Step(cfg, s, e, t)
    ensures Sound(t)
  {
    hide Owns, WF, Runnable, NoBoosts, AllDefault, Earliest, Scheduled, Apart;
    if t.vms != s.vms {
      var v: nat;
      if e.Take? {
        v := TakenVm(cfg, s, e.cpu, t);
      } else {
        v := s.cpus[e.cpu].vm;
      }
      var q, r := s.vms[v].queue, t.vms[v].queue;
      assert SoundVm(s.vms[v]);
      var b := if e.StartVcpu? then Bmq.Start(e.slot) else Bmq.Call;
      if q != r {
        StepKeepsPlaces(q, b, r);
        StillRunnable(q, b, r);
      }
      ApartKept(s.vms, v, t.vms[v], b);
    }
  }

  lemma StillRunnable(q: Queue, e: QueueEvent, r: Queue)
    requires WF(q) && QueueStep(q, e, r)
    ensures Runnable(r)
  {
    if e.Start? {
      assert r.chains[DEFAULT_PRIO] != [];
    }
  }

  lemma TakenVm(cfg: Config, s: Sys, c: nat, t: Sys) returns (v: nat)
    requires Step(cfg, s, Take(c), t)
    ensures v < |s.vms| && t.vms == s.vms[v := s.vms[v].(slice := cfg.bfs, need := false)]
  {
    var k: nat :| Earliest(Waiting(s), k) && TakeAt(cfg, s, c, k, t);
    v := s.list[k];
  }

  // ------------------------------------------------------------------ ticks

  /** A CPU is at the barrier exactly during its tick, and then polls for the end of its own round. */
  ghost predicate BarredAt(s: Sys, c: nat)
    requires c < |s.cpus| == |s.bar.cpus|
  {
    if s.cpus[c].Holding? && s.cpus[c].at == Ticking then Barrier.OwnEnd(s.bar, c) else s.bar.cpus[c].phase.Out?
  }

  ghost predicate Barred(s: Sys) {
    && |s.bar.cpus| == |s.cpus| && Barrier.Inv(s.bar)
    && forall c: nat :: c < |s.cpus| ==> BarredAt(s, c)
  }

  lemma StepBarred(cfg: Config, s: Sys, e: Event, t: Sys)
    requires Barred(s) && Step(cfg, s, e, t)
    ensures Barred(t)
  {
    hide Barrier.Step, Barrier.Inv, Earliest, Switched, Ticked, Unused, WF, Runnable;
    if e.Tick? {
      Barrier.StepInv(s.bar, Barrier.Arrive(e.cpu), t.bar);
      Barrier.WhoPollsForOwnRound(s.bar, Barrier.Arrive(e.cpu), t.bar);
      OthersAtBarrier(s.bar, Barrier.Arrive(e.cpu), t.bar);
    } else if e.Pass? {
      Barrier.StepInv(s.bar, Barrier.Leave(e.cpu), t.bar);
      OthersAtBarrier(s.bar, Barrier.Leave(e.cpu), t.bar);
    }
    forall c: nat | c < |t.cpus| ensures BarredAt(t, c) {
      assert BarredAt(s, c);
    }
  }

  lemma OthersAtBarrier(s: Barrier.Token, e: Barrier.Event, t: Barrier.Token)
    requires Barrier.Step(s, e, t)
    ensures e.cpu < |t.cpus| == |s.cpus| && forall c :: 0 <= c < |s.cpus| && c != e.cpu ==> t.cpus[c] == s.cpus[c]
    ensures e.Arrive? ==> t.cpus[e.cpu].arrived == s.cpus[e.cpu].arrived + 1
    ensures e.Leave? ==> t.cpus[e.cpu] == Barrier.Cpu(s.cpus[e.cpu].arrived, Barrier.Out)
  {
  }

  /** The deadline computed for a VM that is not linked yet is late by one tick at most. */
  ghost predicate ClockedAt(cfg: Config, s: Sys, c: nat)
    requires Holds(s, c, Releasing) && |s.cpus| == |s.bar.cpus|
  {
    var vm := s.vms[s.cpus[c].vm];
    s.clock + vm.diff <= vm.vdeadline + if s.bar.cpus[0].arrived > s.bar.cpus[c].arrived then cfg.tick else 0
  }

  ghost predicate Clocked(cfg: Config, s: Sys)
    requires |s.cpus| == |s.bar.cpus|
  {
    forall c: nat :: Holds(s, c, Releasing) ==> ClockedAt(cfg, s, c)
  }

  /** While a CPU is outside the barrier, CPU 0 arrives there once at most. */
  lemma OneTickAhead(s: Barrier.Token, c: nat)
    requires Barrier.Inv(s) && c < |s.cpus| && s.cpus[c].phase.Out?
    ensures s.cpus[c].arrived <= s.cpus[0].arrived <= s.cpus[c].arrived + 1
    ensures s.cpus[0].phase.Out? ==> s.cpus[0].arrived == s.cpus[c].arrived
  {
    assert Barrier.Left(s.cpus[c]) == s.cpus[c].arrived;
    assert Barrier.Left(s.cpus[0]) <= s.cpus[c].arrived;
  }

  lemma StepClocked(cfg: Config, s: Sys, e: Event, t: Sys)
    requires Exclusive(s) && Barred(s) && Clocked(cfg, s) && Step(cfg, s, e, t) && Barred(t)
    ensures Clocked(cfg, t)
  {
    hide Barrier.Step, Barrier.Inv, Earliest, Switched, Ticked, Unused, WF, Runnable;
    forall c: nat | Holds(t, c, Releasing) ensures ClockedAt(cfg, t, c) {
      assert BarredAt(t, c);
      if e.Resched? && e.cpu == c {
        assert s.cpus[c].vm == t.cpus[c].vm;
      } else {
        OtherReleasing(cfg, s, e, t, c);
        assert ClockedAt(cfg, s, c) && BarredAt(s, c);
        if e.Tick? {
          OthersAtBarrier(s.bar, Barrier.Arrive(e.cpu), t.bar);
          assert BarredAt(s, e.cpu);
          OneTickAhead(s.bar, c);
        } else if e.Pass? {
          OthersAtBarrier(s.bar, Barrier.Leave(e.cpu), t.bar);
        }
      }
    }
  }

  /** A VM about to be linked is changed by nobody. */
  lemma OtherReleasing(cfg: Config, s: Sys, e: Event, t: Sys, c: nat)
    requires Exclusive(s) && Step(cfg, s, e, t) && Holds(t, c, Releasing) && !(e.Resched? && e.cpu == c)
    ensures Holds(s, c, Releasing) && c != e.cpu && s.cpus[c].vm == t.cpus[c].vm
    ensures t.vms[t.cpus[c].vm] == s.vms[t.cpus[c].vm]
  {
    hide Barrier.Step, Earliest, Switched, Ticked, Unused, WF, Runnable;
    if e.Take? {
      var k: nat :| Earliest(Waiting(s), k) && TakeAt(cfg, s, e.cpu, k, t);
      assert HeldBy(s, c, s.cpus[c].vm);
    } else {
      assert HeldBy(s, c, s.cpus[c].vm);
      assert s.cpus[e.cpu].Holding? ==> HeldBy(s, e.cpu, s.cpus[e.cpu].vm);
    }
  }

  lemma StepDiffs(cfg: Config, s: Sys, e: Event, t: Sys)
    requires Step(cfg, s, e, t)
    ensures |t.vms| == |s.vms| && forall v :: 0 <= v < |s.vms| ==> t.vms[v].diff == s.vms[v].diff
  {
    hide Barrier.Step, Earliest, Unused, WF, Runnable;
  }

  // ------------------------------------------------------------------ runs

  lemma InitialInvariant(s: Sys)
    requires Initial(s)
    ensures Exclusive(s) && Sound(s) && Barred(s)
  {
    NothingHeld(s.cpus, |s.cpus|);
  }

  lemma NobodyReleasing(cfg: Config, s: Sys)
    requires Initial(s)
    ensures Clocked(cfg, s)
  {
  }

  lemma {:induction false} RunInvariant(cfg: Config, states: seq<Sys>, events: seq<Event>, n: nat)
    requires Run(cfg, states, events) && n <= |events|
    ensures Exclusive(states[n]) && Sound(states[n]) && Barred(states[n]) && Clocked(cfg, states[n])
    ensures |states[n].vms| == |states[0].vms| && |states[n].cpus| == |states[0].cpus|
    ensures forall v :: 0 <= v < |states[n].vms| ==> states[n].vms[v].diff == states[0].vms[v].diff
  {
    hide Exclusive, Sound, Step, Initial, Barrier.Inv, BarredAt, Clocked;
    if n == 0 {
      InitialInvariant(states[0]);
      NobodyReleasing(cfg, states[0]);
    } else {
      RunInvariant(cfg, states, events, n - 1);
      assert Step(cfg, states[n - 1], events[n - 1], states[n]);
      StepExclusive(cfg, states[n - 1], events[n - 1], states[n]);
      StepSound(cfg, states[n - 1], events[n - 1], states[n]);
      StepBarred(cfg, states[n - 1], events[n - 1], states[n]);
      StepClocked(cfg, states[n - 1], events[n - 1], states[n]);
      StepDiffs(cfg, states[n - 1], events[n - 1], states[n]);
    }
  }

  /**
   * In every reachable state a VM is linked in the list exactly once or held by exactly one CPU, so
   * the unlocked queue operations never run on one run-queue node from two CPUs.
   */
  lemma EveryVmHasOnePlace(cfg: Config, states: seq<Sys>, events: seq<Event>, n: nat, v: nat)
    requires Run(cfg, states, events) && n <= |events| && v < |states[n].vms|
    ensures v in states[n].list <==> !exists c :: HeldBy(states[n], c, v)
    ensures forall j, k :: 0 <= j < k < |states[n].list| ==> !(states[n].list[j] == v == states[n].list[k])
    ensures forall c, d :: HeldBy(states[n], c, v) && HeldBy(states[n], d, v) ==> c == d
  {
    RunInvariant(cfg, states, events, n);
  }

  /**
   * Over the whole system each vCPU is in one VM and there in one place: queued in the chain of its
   * priority, or running.
   */
  lemma EveryVcpuHasOnePlace(cfg: Config, states: seq<Sys>, events: seq<Event>, n: nat, slot: nat, v: nat, w: nat)
    requires Run(cfg, states, events) && n <= |events| && v < |states[n].vms| && w < |states[n].vms|
    requires Owns(states[n].vms[v].queue, slot) && Owns(states[n].vms[w].queue, slot)
    ensures v == w && WF(states[n].vms[v].queue)
  {
    RunInvariant(cfg, states, events, n);
    hide Owns, WF;
    assert SoundVm(states[n].vms[v]);
  }

  /** In every reachable state each queued vCPU of each VM is picked, by the call its potential tells. */
  lemma NoVcpuStarves(cfg: Config, states: seq<Sys>, events: seq<Event>, n: nat, v: nat, p: nat, k: nat)
    requires Run(cfg, states, events) && n <= |events| && v < |states[n].vms|
    requires At(states[n].vms[v].queue.chains, p, k)
    ensures var q := states[n].vms[v].queue;
      && WF(q) && Runnable(q) && AllDefault(q) && !Confined(q, p)
      && Picks(q, Potential(q, p, k), q.chains[p][k].slot)
  {
    hide Step, Initial, Exclusive, Barred, Clocked, Placed, NoBoosts, AllDefault, Confined, Picks, Potential;
    RunInvariant(cfg, states, events, n);
    assert SoundVm(states[n].vms[v]);
    DefaultsArePicked(states[n].vms[v].queue, p, k);
  }

  lemma SomeEarliest(es: seq<Entry>, n: nat) returns (k: nat)
    requires 0 < n <= |es| && forall i :: 0 <= i < |es| ==> es[i].ready > 0
    ensures EarliestOf(es, n, k)
  {
    if n == 1 {
      k := 0;
    } else {
      var j := SomeEarliest(es, n - 1);
      k := if es[n - 1].vdeadline < es[j].vdeadline then n - 1 else j;
    }
  }

  lemma AllReady(s: Sys)
    requires Exclusive(s) && Sound(s)
    ensures forall i :: 0 <= i < |Waiting(s)| ==> Waiting(s)[i].ready > 0
  {
    forall i | 0 <= i < |s.list| ensures Waiting(s)[i].ready > 0 {
      assert SoundVm(s.vms[s.list[i]]);
    }
  }

  /** With at least as many VMs as CPUs, a CPU that looks for a VM always finds one to take. */
  lemma LookingFinds(cfg: Config, states: seq<Sys>, events: seq<Event>, n: nat, c: nat)
    requires Run(cfg, states, events) && n <= |events|
    requires |states[0].vms| >= |states[0].cpus| && c < |states[n].cpus| && states[n].cpus[c].Looking?
    ensures states[n].list != [] && exists t :: Step(cfg, states[n], Take(c), t)
  {
    RunInvariant(cfg, states, events, n);
    var s := states[n];
    HeldBound(s.cpus, |s.cpus|, c);
    var t := NextTakes(cfg, s, c);
    assert Step(cfg, s, Take(c), t);
  }

  ghost predicate Busy(s: Sys, c: nat) {
    c <= |s.cpus| && (forall d :: 0 <= d < |s.cpus| ==> (s.cpus[d].Looking? <==> d >= c))
  }

  /** The first `c` CPUs take a VM each, as long as there are enough. */
  lemma {:induction false} EachTakes(cfg: Config, s: Sys, c: nat) returns (states: seq<Sys>, events: seq<Event>)
    requires Initial(s) && c <= |s.vms| && c <= |s.cpus|
    ensures Run(cfg, states, events) && states[0] == s
    ensures Busy(states[|events|], c)
  {
    if c == 0 {
      states, events := [s], [];
    } else {
      hide Initial, Step, Barred, Clocked, Sound;
      states, events := EachTakes(cfg, s, c - 1);
      var n := |events|;
      var r := states[n];
      RunInvariant(cfg, states, events, n);
      HeldCount(r.cpus, c - 1, |r.cpus|);
      var t := NextTakes(cfg, r, c - 1);
      states, events := states + [t], events + [Take(c - 1)];
    }
  }

  lemma HeldCount(cpus: seq<Cpu>, c: nat, n: nat)
    requires n <= |cpus| && forall d :: 0 <= d < |cpus| ==> (cpus[d].Looking? <==> d >= c)
    ensures Held(cpus, n) == if n < c then n else c
  {
    if n > 0 {
      HeldCount(cpus, c, n - 1);
    }
  }

  lemma NextTakes(cfg: Config, s: Sys, c: nat) returns (t: Sys)
    requires Exclusive(s) && Sound(s) && c < |s.cpus| && s.cpus[c].Looking? && s.list != []
    ensures Step(cfg, s, Take(c), t) && t.cpus[c].Holding? && |t.cpus| == |s.cpus|
    ensures forall d :: 0 <= d < |s.cpus| && d != c ==> t.cpus[d] == s.cpus[d]
  {
    AllReady(s);
    var k := SomeEarliest(Waiting(s), |s.list|);
    var v := s.list[k];
    t := With(s, c, Holding(v, Taken), v, s.vms[v].(slice := cfg.bfs, need := false))
         .(list := s.list[..k] + s.list[k + 1..]);
    assert Earliest(Waiting(s), k) && TakeAt(cfg, s, c, k, t);
  }

  /** With fewer VMs than CPUs, some CPU comes to look into an empty list. */
  lemma FewerVmsSpin(cfg: Config, s: Sys) returns (states: seq<Sys>, events: seq<Event>)
    requires Initial(s) && |s.vms| < |s.cpus|
    ensures Run(cfg, states, events) && states[0] == s && |states[|events|].cpus| == |s.cpus|
    ensures states[|events|].list == [] && exists c :: 0 <= c < |s.cpus| && states[|events|].cpus[c].Looking?
  {
    states, events := EachTakes(cfg, s, |s.vms|);
    var r := states[|events|];
    RunInvariant(cfg, states, events, |events|);
    HeldCount(r.cpus, |s.vms|, |r.cpus|);
    assert r.cpus[|s.vms|].Looking?;
  }
}
