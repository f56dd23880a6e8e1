/** When the two slice assertions of the schedulers can fail (src/core/sched.c, lines 192 and 306). */
module SliceAsserts {
  import opened Blocks
  import opened Bmq
  import opened Bfs
  import opened SchedRun

  ghost predicate Positive(cfg: Config) {
    cfg.tick > 0 && cfg.bmq > 0 && cfg.bfs > 0
  }

  /** The ticks until a slice is used up. */
  function Ticks(slice: nat, tick: nat): nat
    requires tick > 0
    decreases slice
  {
    if slice == 0 then 0 else 1 + Ticks(Minus(slice, tick), tick)
  }

  lemma {:induction false} TicksIsQuotient(slice: nat, tick: nat)
    requires tick > 0
    ensures Ticks(slice, tick) == (slice + tick - 1) / tick
    decreases slice
  {
    QuotIsDivision(slice + tick - 1, tick);
    if slice > 0 {
      TicksIsQuotient(Minus(slice, tick), tick);
      QuotIsDivision(Minus(slice, tick) + tick - 1, tick);
      assert slice <= tick ==> Quot(slice - 1, tick) == 0 && Quot(tick - 1, tick) == 0;
    }
  }

  lemma TicksZero(slice: nat, tick: nat)
    requires tick > 0
    ensures Ticks(slice, tick) == 0 <==> slice == 0
  {
  }

  /** The assertion an event checks fails: line 192 when a VM is given up, line 306 when a vCPU is replaced. */
  ghost predicate Fires(s: Sys, e: Event) {
    match e
    case Resched(c) => Holds(s, c, Interrupted) &&
      (var vm := s.vms[s.cpus[c].vm];
       if vm.need then vm.slice != 0 else NeedsVcpu(vm) && vm.queue.running.Some? && vm.vslice != 0)
    case Dispatch(c) => Holds(s, c, Taken) &&
      (var vm := s.vms[s.cpus[c].vm]; vm.queue.running.Some? && vm.vslice != 0)
    case _ => false
  }

  // ------------------------------------------------------------------ in step

  /** The ticks left to the VM exceed those left to its vCPU by whole vCPU slices. */
  ghost predicate InStep(cfg: Config, vm: Vm)
    requires Positive(cfg)
  {
    var (a, b) := (Ticks(vm.slice, cfg.tick), Ticks(vm.vslice, cfg.tick));
    && b <= a && b <= Ticks(cfg.bmq, cfg.tick)
    && Rem(a - b, Ticks(cfg.bmq, cfg.tick)) == 0
  }

  ghost predicate Resting(vm: Vm) {
    vm.queue.running.Some? ==> vm.vslice == 0
  }

  ghost predicate Timed(cfg: Config, vm: Vm, at: Stage)
    requires Positive(cfg)
  {
    match at
    case Taken => Resting(vm) && vm.slice == cfg.bfs && !vm.need
    case Interrupted => InStep(cfg, vm) && (vm.need <==> vm.slice == 0) && (vm.vneed <==> vm.vslice == 0)
                        && vm.queue.running.Some?
    case Releasing => Resting(vm)
    case _ => InStep(cfg, vm) && !vm.need && vm.slice > 0 && !vm.vneed && vm.vslice > 0 && vm.queue.running.Some?
  }

  ghost predicate AllTimed(cfg: Config, s: Sys)
    requires Positive(cfg)
  {
    && (forall c :: 0 <= c < |s.cpus| && s.cpus[c].Holding? ==>
          s.cpus[c].vm < |s.vms| && Timed(cfg, s.vms[s.cpus[c].vm], s.cpus[c].at))
    && (forall k :: 0 <= k < |s.list| ==> s.list[k] < |s.vms| && Resting(s.vms[s.list[k]]))
  }

  lemma TickInStep(cfg: Config, vm: Vm)
    requires Positive(cfg) && Timed(cfg, vm, Ticking)
    ensures Timed(cfg, Ticked(cfg, vm), Interrupted)
  {
  }

  lemma SwitchInStep(cfg: Config, vm: Vm)
    requires Positive(cfg) && WF(vm.queue) && Runnable(vm.queue) && Scheduled(vm.queue).running.Some?
    requires vm.slice > 0 && !vm.need && Rem(Ticks(vm.slice, cfg.tick), Ticks(cfg.bmq, cfg.tick)) == 0
    ensures Timed(cfg, Switched(cfg, vm), Guest)
  {
    hide Scheduled, WF, Runnable;
    var a, b := Ticks(vm.slice, cfg.tick), Ticks(cfg.bmq, cfg.tick);
    TicksZero(vm.slice, cfg.tick);
    assert a >= b > 0;
    RemShift(a - b, b);
  }

  /** A VM whose slice is used up has a vCPU whose slice is used up. */
  lemma UsedUpTogether(cfg: Config, vm: Vm)
    requires Positive(cfg) && InStep(cfg, vm) && vm.slice == 0
    ensures vm.vslice == 0
  {
    TicksZero(vm.vslice, cfg.tick);
  }

  lemma NothingFires(cfg: Config, s: Sys, e: Event)
    requires Positive(cfg) && AllTimed(cfg, s)
    ensures !Fires(s, e)
  {
  }

  /** The VM of CPU `c` changes; nobody else's does. */
  lemma TimedKept(cfg: Config, s: Sys, c: nat, t: Sys)
    requires Positive(cfg) && Exclusive(s) && AllTimed(cfg, s) && c < |s.cpus| && s.cpus[c].Holding?
    requires t.list == s.list && |t.cpus| == |s.cpus| && t.cpus == s.cpus[c := t.cpus[c]]
    requires t.cpus[c].Holding? && t.cpus[c].vm == s.cpus[c].vm < |s.vms|
    requires |t.vms| == |s.vms| && t.vms == s.vms[s.cpus[c].vm := t.vms[s.cpus[c].vm]]
    requires Timed(cfg, t.vms[s.cpus[c].vm], t.cpus[c].at)
    ensures AllTimed(cfg, t)
  {
    hide Timed, Resting;
    var v := s.cpus[c].vm;
    assert HeldBy(s, c, v);
    forall d | 0 <= d < |t.cpus| && t.cpus[d].Holding?
      ensures t.cpus[d].vm < |t.vms| && Timed(cfg, t.vms[t.cpus[d].vm], t.cpus[d].at)
    {
      assert HeldBy(s, d, s.cpus[d].vm) || d == c;
    }
  }

  /** A VM about to be linked has used up its vCPU's slice with its own. */
  lemma ReleasingTimed(cfg: Config, vm: Vm, clock: nat)
    requires Positive(cfg) && Timed(cfg, vm, Interrupted) && vm.need
    ensures Timed(cfg, vm.(vdeadline := clock), Releasing)
  {
    UsedUpTogether(cfg, vm);
  }

  lemma LinkingTimed(cfg: Config, s: Sys, c: nat, t: Sys)
    requires Positive(cfg) && Exclusive(s) && AllTimed(cfg, s) && LinkStep(s, c, t)
    ensures AllTimed(cfg, t)
  {
    var v := s.cpus[c].vm;
    assert Timed(cfg, s.vms[v], Releasing);
    hide Timed;
    assert HeldBy(s, c, v);
    forall d | 0 <= d < |t.cpus| && t.cpus[d].Holding?
      ensures t.cpus[d].vm < |t.vms| && Timed(cfg, t.vms[t.cpus[d].vm], t.cpus[d].at)
    {
      assert HeldBy(s, d, s.cpus[d].vm) && d != c;
    }
  }

  lemma TakingTimed(cfg: Config, s: Sys, c: nat, k: nat, t: Sys)
    requires Positive(cfg) && Exclusive(s) && AllTimed(cfg, s) && TakeAt(cfg, s, c, k, t)
    ensures AllTimed(cfg, t)
  {
    var v := s.list[k];
    assert Timed(cfg, t.vms[v], Taken);
    hide Timed, Resting;
    forall d | 0 <= d < |t.cpus| && t.cpus[d].Holding?
      ensures t.cpus[d].vm < |t.vms| && Timed(cfg, t.vms[t.cpus[d].vm], t.cpus[d].at)
    {
      assert d != c ==> HeldBy(s, d, s.cpus[d].vm);
    }
    forall j | 0 <= j < |t.list| ensures t.list[j] < |t.vms| && Resting(t.vms[t.list[j]]) {
      assert t.list[j] == s.list[if j < k then j else j + 1];
    }
  }

  lemma StepTimed(cfg: Config, s: Sys, e: Event, t: Sys)
    requires Positive(cfg) && Rem(Ticks(cfg.bfs, cfg.tick), Ticks(cfg.bmq, cfg.tick)) == 0
    requires Exclusive(s) && Sound(s) && AllTimed(cfg, s) && Step(cfg, s, e, t)
    ensures AllTimed(cfg, t)
  {
    hide Exclusive, Sound, Scheduled, WF, Runnable, Unused, Earliest, Rem, Ticks, Barrier.Step;
    match e {
      case Tick(c) =>
        TimedKept(cfg, s, c, t);
      case Pass(c) =>
        TickInStep(cfg, s.vms[s.cpus[c].vm]);
        TimedKept(cfg, s, c, t);
      case Link(c) =>
        LinkingTimed(cfg, s, c, t);
      case Irq(c) =>
        TimedKept(cfg, s, c, t);
      case StartVcpu(c, slot) =>
        TimedKept(cfg, s, c, t);
      case Take(c) =>
        var k: nat :| Earliest(Waiting(s), k) && TakeAt(cfg, s, c, k, t);
        TakingTimed(cfg, s, c, k, t);
      case Dispatch(c) =>
        SwitchStep(cfg, s, c, t);
      case Resched(c) =>
        var vm := s.vms[s.cpus[c].vm];
        if vm.need {
          ReleasingTimed(cfg, vm, s.clock + vm.diff);
          TimedKept(cfg, s, c, t);
        } else if NeedsVcpu(vm) {
          SwitchStep(cfg, s, c, t);
        } else {
          TimedKept(cfg, s, c, t);
        }
    }
  }

  lemma SwitchStep(cfg: Config, s: Sys, c: nat, t: Sys)
    requires Positive(cfg) && Rem(Ticks(cfg.bfs, cfg.tick), Ticks(cfg.bmq, cfg.tick)) == 0
    requires Exclusive(s) && AllTimed(cfg, s) && c < |s.cpus| && s.cpus[c].Holding? && s.cpus[c].vm < |s.vms|
    requires var vm := s.vms[s.cpus[c].vm];
             && WF(vm.queue) && Runnable(vm.queue)
             && (s.cpus[c].at == Taken || (s.cpus[c].at == Interrupted && !vm.need && NeedsVcpu(vm)))
             && t == With(s, c, Holding(s.cpus[c].vm, Guest), s.cpus[c].vm, Switched(cfg, vm))
    ensures AllTimed(cfg, t)
  {
    hide Exclusive, Scheduled, WF, Runnable;
    var vm := s.vms[s.cpus[c].vm];
    ScheduledKeepsPlaces(vm.queue);
    TicksZero(vm.vslice, cfg.tick);
    SwitchInStep(cfg, vm);
    TimedKept(cfg, s, c, t);
  }

  lemma {:induction false} RunTimed(cfg: Config, states: seq<Sys>, events: seq<Event>, n: nat)
    requires Positive(cfg) && Rem(Ticks(cfg.bfs, cfg.tick), Ticks(cfg.bmq, cfg.tick)) == 0
    requires Run(cfg, states, events) && n <= |events|
    ensures AllTimed(cfg, states[n])
  {
    hide Exclusive, Sound, Step, AllTimed;
    if n == 0 {
      InitialTimed(cfg, states[0]);
    } else {
      RunTimed(cfg, states, events, n - 1);
      RunInvariant(cfg, states, events, n - 1);
      assert Step(cfg, states[n - 1], events[n - 1], states[n]);
      StepTimed(cfg, states[n - 1], events[n - 1], states[n]);
    }
  }

  lemma InitialTimed(cfg: Config, s: Sys)
    requires Positive(cfg) && Initial(s)
    ensures AllTimed(cfg, s)
  {
  }

  // ------------------------------------------------------------------ reachable states

  ghost predicate Reachable(cfg: Config, from: Sys, s: Sys) {
    exists states, events :: Run(cfg, states, events) && states[0] == from && states[|events|] == s
  }

  lemma ReachStart(cfg: Config, from: Sys)
    requires Initial(from)
    ensures Reachable(cfg, from, from)
  {
    var states, events: seq<Event> := [from], [];
    assert Run(cfg, states, events) && states[|events|] == from;
  }

  lemma ReachStep(cfg: Config, from: Sys, s: Sys, e: Event, t: Sys)
    requires Reachable(cfg, from, s) && Step(cfg, s, e, t)
    ensures Reachable(cfg, from, t)
  {
    hide Step, Initial;
    var states, events :| Run(cfg, states, events) && states[0] == from && states[|events|] == s;
    var more, also := states + [t], events + [e];
    forall i | 0 <= i < |also| ensures Step(cfg, more[i], also[i], more[i + 1]) {
      assert i < |events| ==> Step(cfg, states[i], events[i], states[i + 1]);
    }
    assert Run(cfg, more, also) && more[0] == from && more[|also|] == t;
  }

  lemma ReachInvariant(cfg: Config, from: Sys, s: Sys)
    requires Reachable(cfg, from, s)
    ensures Exclusive(s) && Sound(s) && Barred(s) && Clocked(cfg, s)
    ensures |s.vms| == |from.vms| && |s.cpus| == |from.cpus|
    ensures forall v :: 0 <= v < |s.vms| ==> s.vms[v].diff == from.vms[v].diff
  {
    hide Exclusive, Sound, Step, Initial, Barred, Clocked;
    var states, events :| Run(cfg, states, events) && states[0] == from && states[|events|] == s;
    RunInvariant(cfg, states, events, |events|);
  }

  lemma NeverFires(cfg: Config, from: Sys, s: Sys, e: Event)
    requires Positive(cfg) && Rem(Ticks(cfg.bfs, cfg.tick), Ticks(cfg.bmq, cfg.tick)) == 0
    requires Reachable(cfg, from, s)
    ensures !Fires(s, e)
  {
    hide Ticks, Rem, Step, Initial, Fires, AllTimed;
    var states, events :| Run(cfg, states, events) && states[0] == from && states[|events|] == s;
    RunTimed(cfg, states, events, |events|);
    NothingFires(cfg, s, e);
  }

  /** Intervals that are multiples of each other meet the condition. */
  lemma NestedIntervals(cfg: Config, i: nat, j: nat)
    requires Positive(cfg) && i > 0 && cfg.bmq == i * cfg.tick && cfg.bfs == j * cfg.bmq
    ensures ((cfg.bfs + cfg.tick - 1) / cfg.tick) % Ticks(cfg.bmq, cfg.tick) == 0
  {
    TicksIsQuotient(cfg.bmq, cfg.tick);
    RoundsUpExactly(i, cfg.tick);
    assert cfg.bfs == (j * i) * cfg.tick;
    RoundsUpExactly(j * i, cfg.tick);
    ModuloUnique(j * i, i, j, 0);
  }

  lemma RoundsUpExactly(n: nat, m: nat)
    requires m > 0
    ensures (n * m + m - 1) / m == n
  {
    DivisionUnique(n * m + m - 1, m, n, m - 1);
  }
}
