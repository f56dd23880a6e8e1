/**
 * Runs in which the CPUs tick in rounds, as the barrier in update_task_times makes them, and what
 * they show of the slice assertions (src/core/sched.c, lines 192, 306 and 368-411).
 */
module Rounds {
  import opened Blocks
  import opened Bmq
  import opened Bfs
  import opened SchedRun
  import opened SliceAsserts

  /**
   * Where a CPU is in a round, with `r` arrivals at the barrier behind it: it looks for a VM; its VM
   * is in the guest or in a tick, `k` ticks after it was taken; or it is about to link its VM.
   */
  datatype Spot = Looks(r: nat) | Guests(k: nat, r: nat) | InTick(k: nat, r: nat) | Releases(r: nat)

  /** The VM was taken `k` ticks ago; its vCPUs have been replaced whenever theirs ran out. */
  ghost predicate VmAt(cfg: Config, vm: Vm, k: nat)
    requires Positive(cfg)
  {
    && !vm.need && !vm.vneed && vm.slice > 0 && vm.vslice > 0 && vm.queue.running.Some?
    && k + Ticks(vm.slice, cfg.tick) == Ticks(cfg.bfs, cfg.tick)
    && Rem(k + Ticks(vm.vslice, cfg.tick), Ticks(cfg.bmq, cfg.tick)) == 0
  }

  ghost predicate AtSpot(cfg: Config, s: Sys, c: nat, spot: Spot)
    requires Positive(cfg) && c < |s.cpus| == |s.bar.cpus|
  {
    && s.bar.cpus[c].arrived == spot.r
    && match spot
       case Looks(_) => s.cpus[c] == Looking
       case Releases(_) => Holds(s, c, Releasing)
       case Guests(k, _) => Holds(s, c, Guest) && VmAt(cfg, s.vms[s.cpus[c].vm], k)
       case InTick(k, _) => Holds(s, c, Ticking) && VmAt(cfg, s.vms[s.cpus[c].vm], k)
  }

  /** The first `n` CPUs have come to `done`, the others are still at `before`. */
  ghost function Split(cfg: Config, s: Sys, n: nat, done: Spot, before: Spot): (r: bool)
    ensures r ==> Positive(cfg) && n <= |s.cpus| == |s.bar.cpus|
  {
    && Positive(cfg) && n <= |s.cpus| == |s.bar.cpus|
    && (forall c: nat :: c < n ==> AtSpot(cfg, s, c, done))
    && (forall c: nat :: n <= c < |s.cpus| ==> AtSpot(cfg, s, c, before))
  }

  // ------------------------------------------------------------------ one CPU at a time

  /** Nothing that the CPUs other than `c` hold or do changes. */
  ghost predicate Only(s: Sys, t: Sys, c: nat) {
    && |t.cpus| == |s.cpus| && |t.bar.cpus| == |s.bar.cpus| && |t.vms| == |s.vms|
    && (forall d: nat :: d < |s.cpus| && d != c ==>
          && t.cpus[d] == s.cpus[d]
          && (s.cpus[d].Holding? && s.cpus[d].vm < |s.vms| ==> t.vms[s.cpus[d].vm] == s.vms[s.cpus[d].vm]))
    && (forall d: nat :: d < |s.bar.cpus| && d != c ==> t.bar.cpus[d] == s.bar.cpus[d])
  }

  /** The VMs in the list were in the list before, and have not changed. */
  ghost predicate Untouched(s: Sys, t: Sys) {
    && |t.vms| == |s.vms|
    && (forall v :: v in t.list ==> v in s.list)
    && (forall v :: v in t.list && v < |s.vms| ==> t.vms[v] == s.vms[v])
  }

  lemma TakeOnly(cfg: Config, s: Sys, c: nat, k: nat, t: Sys)
    requires Exclusive(s) && TakeAt(cfg, s, c, k, t)
    ensures Only(s, t, c) && Untouched(s, t)
  {
    forall d: nat | d < |s.cpus| && s.cpus[d].Holding? ensures s.cpus[d].vm != s.list[k] {
      assert HeldBy(s, d, s.cpus[d].vm);
    }
    forall v | v in t.list ensures v in s.list && v != s.list[k] {
      var j :| 0 <= j < |t.list| && t.list[j] == v;
      assert t.list[j] == s.list[if j < k then j else j + 1];
    }
  }

  /** Only what the CPU holds has changed. */
  lemma HolderOnly(s: Sys, c: nat, t: Sys)
    requires Exclusive(s) && c < |s.cpus| && s.cpus[c].Holding? && |t.cpus| == |s.cpus| && |t.vms| == |s.vms|
    requires t.cpus == s.cpus[c := t.cpus[c]] && s.cpus[c].vm < |s.vms|
    requires t.vms == s.vms[s.cpus[c].vm := t.vms[s.cpus[c].vm]]
    requires |t.bar.cpus| == |s.bar.cpus| && forall d: nat :: d < |s.bar.cpus| && d != c ==> t.bar.cpus[d] == s.bar.cpus[d]
    ensures Only(s, t, c) && (t.list == s.list ==> Untouched(s, t))
  {
    assert HeldBy(s, c, s.cpus[c].vm);
    forall d: nat | d < |s.cpus| && s.cpus[d].Holding? && d != c ensures s.cpus[d].vm != s.cpus[c].vm {
      assert HeldBy(s, d, s.cpus[d].vm);
    }
  }

  lemma StepOnly(cfg: Config, s: Sys, e: Event, t: Sys)
    requires Exclusive(s) && Step(cfg, s, e, t)
    ensures Only(s, t, e.cpu) && (!e.Link? ==> Untouched(s, t))
  {
    hide Exclusive, WF, Runnable, Unused, Earliest, Switched, Ticked, Barrier.Step, Only, Untouched;
    if e.Take? {
      var k: nat :| Earliest(Waiting(s), k) && TakeAt(cfg, s, e.cpu, k, t);
      TakeOnly(cfg, s, e.cpu, k, t);
    } else {
      if e.Tick? {
        OthersAtBarrier(s.bar, Barrier.Arrive(e.cpu), t.bar);
      } else if e.Pass? {
        OthersAtBarrier(s.bar, Barrier.Leave(e.cpu), t.bar);
      }
      HolderOnly(s, e.cpu, t);
    }
  }

  /** One more step of CPU `c`, of which everything but its own doings is known. */
  lemma Next(cfg: Config, from: Sys, s: Sys, e: Event, t: Sys)
    requires Reachable(cfg, from, s) && Step(cfg, s, e, t)
    ensures Reachable(cfg, from, t) && Only(s, t, e.cpu) && (!e.Link? ==> Untouched(s, t))
  {
    hide Step, Exclusive, Sound, Barred, Clocked, Reachable;
    ReachInvariant(cfg, from, s);
    ReachStep(cfg, from, s, e, t);
    StepOnly(cfg, s, e, t);
  }

  /** CPU `n` has come to where the first ones are. */
  lemma Advance(cfg: Config, s: Sys, t: Sys, n: nat, done: Spot, before: Spot)
    requires Split(cfg, s, n, done, before) && n < |s.cpus| && Only(s, t, n) && AtSpot(cfg, t, n, done)
    ensures Split(cfg, t, n + 1, done, before)
  {
    hide VmAt;
    forall c: nat | c < n ensures AtSpot(cfg, t, c, done) {
      assert AtSpot(cfg, s, c, done);
    }
    forall c: nat | n < c < |t.cpus| ensures AtSpot(cfg, t, c, before) {
      assert AtSpot(cfg, s, c, before);
    }
  }

  lemma OnlyTwice(s: Sys, t: Sys, u: Sys, c: nat)
    requires Only(s, t, c) && Only(t, u, c)
    ensures Only(s, u, c)
  {
  }

  lemma SpotOf(cfg: Config, s: Sys, n: nat, done: Spot, before: Spot, c: nat)
    requires Split(cfg, s, n, done, before) && c < |s.cpus|
    ensures if c < n then AtSpot(cfg, s, c, done) else AtSpot(cfg, s, c, before)
  {
    hide AtSpot;
  }

  // ------------------------------------------------------------------ spoiled VMs

  /** A VM that would fail the assertion of line 306 if it were taken. */
  ghost predicate Spoiled(vm: Vm) {
    vm.queue.running.Some? && vm.vslice != 0
  }

  ghost function Unspoiled(vms: seq<Vm>, n: nat): nat
    requires n <= |vms|
  {
    if n == 0 then 0 else Unspoiled(vms, n - 1) + if Spoiled(vms[n - 1]) then 0 else 1
  }

  ghost function AllUnspoiled(s: Sys): nat {
    Unspoiled(s.vms, |s.vms|)
  }

  lemma SpoilingOne(a: seq<Vm>, b: seq<Vm>, v: nat, n: nat)
    requires |b| == |a| && v < |a| && n <= |a| && b == a[v := b[v]] && Spoiled(b[v])
    ensures Unspoiled(b, n) == Unspoiled(a, n) - if v < n && !Spoiled(a[v]) then 1 else 0
  {
    if n > 0 {
      SpoilingOne(a, b, v, n - 1);
    }
  }

  // ------------------------------------------------------------------ the phases of a round

  /** Any CPU with a VM in the guest can come to the barrier. */
  lemma ArriveStep(cfg: Config, from: Sys, s: Sys, n: nat) returns (t: Sys)
    requires Reachable(cfg, from, s) && Holds(s, n, Guest)
    ensures Reachable(cfg, from, t) && Only(s, t, n) && t.vms == s.vms && t.list == s.list
    ensures t.clock == s.clock + if n == 0 then cfg.tick else 0
    ensures n < |s.bar.cpus| == |t.bar.cpus| == |s.cpus| && t.bar.cpus[n].arrived == s.bar.cpus[n].arrived + 1
    ensures Holds(t, n, Ticking) && t.cpus[n].vm == s.cpus[n].vm
  {
    ReachInvariant(cfg, from, s);
    assert BarredAt(s, n);
    Barrier.InRoundThreshold(s.bar, n);
    hide Reachable, Exclusive, Sound, Clocked, Barrier.Threshold, Barrier.Inv;
    var r := s.bar.cpus[n].arrived;
    var bar := Barrier.Put(s.bar, n, Barrier.Cpu(r + 1, Barrier.Waiting(Barrier.Threshold(s.bar.count + 1, |s.bar.cpus|))))
                 .(count := s.bar.count + 1);
    assert Barrier.Step(s.bar, Barrier.Arrive(n), bar);
    t := s.(cpus := s.cpus[n := Holding(s.cpus[n].vm, Ticking)], bar := bar,
            clock := if n == 0 then s.clock + cfg.tick else s.clock);
    assert TickStep(cfg, s, n, t);
    Next(cfg, from, s, Tick(n), t);
  }

  lemma ArrivesOne(cfg: Config, from: Sys, s: Sys, n: nat, k: nat, r: nat) returns (t: Sys)
    requires Reachable(cfg, from, s) && Split(cfg, s, n, InTick(k, r + 1), Guests(k, r)) && n < |s.cpus|
    ensures Reachable(cfg, from, t) && Split(cfg, t, n + 1, InTick(k, r + 1), Guests(k, r))
    ensures t.vms == s.vms && t.list == s.list && t.clock == s.clock + if n == 0 then cfg.tick else 0
    ensures |t.cpus| == |s.cpus|
  {
    SpotOf(cfg, s, n, InTick(k, r + 1), Guests(k, r), n);
    hide VmAt, Reachable, Split, Only;
    t := ArriveStep(cfg, from, s, n);
    OnlySizes(s, t, n);
    Advance(cfg, s, t, n, InTick(k, r + 1), Guests(k, r));
  }

  /** With everybody there, the barrier lets the CPU go and the tick is taken off the slices. */
  lemma PassesOne(cfg: Config, from: Sys, s: Sys, n: nat, k: nat, r: nat, done: Spot) returns (t: Sys)
    requires Reachable(cfg, from, s) && Split(cfg, s, n, done, InTick(k, r)) && n < |s.cpus| && done.r == r
    ensures Reachable(cfg, from, t) && Only(s, t, n) && Untouched(s, t) && t.list == s.list && t.clock == s.clock
    ensures s.cpus[n].Holding? && s.cpus[n].vm < |s.vms| == |t.vms|
    ensures Holds(t, n, Interrupted) && t.cpus[n].vm == s.cpus[n].vm && t.bar.cpus[n].arrived == r
    ensures t.vms == s.vms[s.cpus[n].vm := Ticked(cfg, s.vms[s.cpus[n].vm])] && VmAt(cfg, s.vms[s.cpus[n].vm], k)
  {
    ReachInvariant(cfg, from, s);
    SpotOf(cfg, s, n, done, InTick(k, r), n);
    assert BarredAt(s, n);
    forall d: nat | d < |s.bar.cpus| ensures s.bar.cpus[d].arrived == r {
      SpotOf(cfg, s, n, done, InTick(k, r), d);
    }
    hide VmAt, Reachable, Exclusive, Sound, Clocked, Split, Barrier.Inv, Ticked;
    Barrier.ReleasedWhenAllArrived(s.bar, n);
    var bar :| Barrier.Step(s.bar, Barrier.Leave(n), bar);
    var v := s.cpus[n].vm;
    t := With(s, n, Holding(v, Interrupted), v, Ticked(cfg, s.vms[v])).(bar := bar);
    assert PassStep(cfg, s, n, t);
    Next(cfg, from, s, Pass(n), t);
  }

  /** The VM that the CPU holds gets its next vCPU, at a time at which a vCPU slice begins. */
  lemma SwitchesOne(cfg: Config, from: Sys, s: Sys, n: nat, k: nat) returns (t: Sys)
    requires Positive(cfg) && Reachable(cfg, from, s) && n < |s.cpus| && s.cpus[n].Holding? && s.cpus[n].vm < |s.vms|
    requires Holds(s, n, Taken) || (Holds(s, n, Interrupted) && NeedsVcpu(s.vms[s.cpus[n].vm]))
    requires var vm := s.vms[s.cpus[n].vm];
             && !vm.need && vm.slice > 0 && Rem(k, Ticks(cfg.bmq, cfg.tick)) == 0
             && k + Ticks(vm.slice, cfg.tick) == Ticks(cfg.bfs, cfg.tick)
    ensures Reachable(cfg, from, t) && Only(s, t, n) && Untouched(s, t) && t.list == s.list && t.clock == s.clock
    ensures Holds(t, n, Guest) && t.cpus[n].vm == s.cpus[n].vm && t.bar == s.bar && |t.vms| == |s.vms|
    ensures t.vms == s.vms[s.cpus[n].vm := t.vms[s.cpus[n].vm]] && VmAt(cfg, t.vms[s.cpus[n].vm], k)
  {
    var v := s.cpus[n].vm;
    ReachInvariant(cfg, from, s);
    assert SoundVm(s.vms[v]);
    hide Scheduled, WF, Runnable, Reachable, Exclusive, Sound, Barred, Clocked;
    ScheduledKeepsPlaces(s.vms[v].queue);
    t := With(s, n, Holding(v, Guest), v, Switched(cfg, s.vms[v]));
    RemShift(k, Ticks(cfg.bmq, cfg.tick));
    TicksZero(cfg.bmq, cfg.tick);
    Next(cfg, from, s, if s.cpus[n].at == Taken then Dispatch(n) else Resched(n), t);
  }

  /** Neither slice has run out. */
  lemma BackToGuest(cfg: Config, from: Sys, s: Sys, n: nat) returns (t: Sys)
    requires Reachable(cfg, from, s) && Holds(s, n, Interrupted)
    requires !s.vms[s.cpus[n].vm].need && !NeedsVcpu(s.vms[s.cpus[n].vm])
    ensures Reachable(cfg, from, t) && Only(s, t, n) && Untouched(s, t)
    ensures t == s.(cpus := s.cpus[n := Holding(s.cpus[n].vm, Guest)])
  {
    t := s.(cpus := s.cpus[n := Holding(s.cpus[n].vm, Guest)]);
    Next(cfg, from, s, Resched(n), t);
  }

  /** After a tick with slice left, the CPU goes back to the guest, with another vCPU if that one's slice is used up. */
  lemma Resumes(cfg: Config, from: Sys, s: Sys, n: nat, k: nat, was: Vm) returns (t: Sys)
    requires Positive(cfg) && Reachable(cfg, from, s) && Holds(s, n, Interrupted) && VmAt(cfg, was, k)
    requires s.vms[s.cpus[n].vm] == Ticked(cfg, was) && k + 1 < Ticks(cfg.bfs, cfg.tick)
    ensures Reachable(cfg, from, t) && Only(s, t, n) && Untouched(s, t) && t.list == s.list && t.clock == s.clock
    ensures Holds(t, n, Guest) && t.cpus[n].vm == s.cpus[n].vm && t.bar == s.bar && |t.vms| == |s.vms|
    ensures t.vms == s.vms[s.cpus[n].vm := t.vms[s.cpus[n].vm]] && VmAt(cfg, t.vms[s.cpus[n].vm], k + 1)
  {
    var vm := s.vms[s.cpus[n].vm];
    UsedUpSlices(cfg, was, k);
    hide WF, Runnable, Rem, Reachable, Ticks, Ticked, Only, Untouched;
    if vm.vslice == 0 {
      t := SwitchesOne(cfg, from, s, n, k + 1);
    } else {
      t := BackToGuest(cfg, from, s, n);
    }
  }

  /** One CPU completes the tick. */
  lemma ReturnsOne(cfg: Config, from: Sys, s: Sys, n: nat, k: nat, r: nat) returns (t: Sys)
    requires Reachable(cfg, from, s) && Split(cfg, s, n, Guests(k + 1, r), InTick(k, r)) && n < |s.cpus|
    requires k + 1 < Ticks(cfg.bfs, cfg.tick)
    ensures Reachable(cfg, from, t) && Split(cfg, t, n + 1, Guests(k + 1, r), InTick(k, r)) && |t.cpus| == |s.cpus|
    ensures Untouched(s, t) && t.list == s.list && t.clock == s.clock && AllUnspoiled(t) == AllUnspoiled(s)
  {
    hide Rem, Reachable, Split, Untouched, Ticks, Ticked, Only;
    var u := PassesOne(cfg, from, s, n, k, r, Guests(k + 1, r));
    var v := s.cpus[n].vm;
    t := Resumes(cfg, from, u, n, k, s.vms[v]);
    OnlyTwice(s, u, t, n);
    UntouchedTwice(s, u, t);
    OnlySizes(s, t, n);
    Advance(cfg, s, t, n, Guests(k + 1, r), InTick(k, r));
    assert t.vms == s.vms[v := t.vms[v]];
    SpoilingOne(s.vms, t.vms, v, |s.vms|);
  }

  lemma OnlySizes(s: Sys, t: Sys, c: nat)
    requires Only(s, t, c)
    ensures |t.cpus| == |s.cpus| && |t.bar.cpus| == |s.bar.cpus| && |t.vms| == |s.vms|
  {
  }

  lemma UntouchedTwice(s: Sys, t: Sys, u: Sys)
    requires Untouched(s, t) && Untouched(t, u)
    ensures Untouched(s, u)
  {
  }

  /** What a tick does to the slices of a VM that is in the guest. */
  lemma UsedUpSlices(cfg: Config, vm: Vm, k: nat)
    requires Positive(cfg) && VmAt(cfg, vm, k)
    ensures var u := Ticked(cfg, vm);
      && u.queue == vm.queue && u.diff == vm.diff
      && k + 1 + Ticks(u.slice, cfg.tick) == Ticks(cfg.bfs, cfg.tick)
      && Rem(k + 1 + Ticks(u.vslice, cfg.tick), Ticks(cfg.bmq, cfg.tick)) == 0
      && (u.need <==> u.slice == 0) && (u.vneed <==> u.vslice == 0)
      && (u.slice == 0 <==> k + 1 == Ticks(cfg.bfs, cfg.tick))
      && (u.vslice == 0 ==> Rem(k + 1, Ticks(cfg.bmq, cfg.tick)) == 0)
  {
    TicksZero(Ticked(cfg, vm).slice, cfg.tick);
    TicksZero(Ticked(cfg, vm).vslice, cfg.tick);
  }

  /** The VM slice runs out with vCPU slice left: the CPU computes the deadline with which it gives the VM up. */
  lemma ReleasesOne(cfg: Config, from: Sys, s: Sys, n: nat, r: nat, done: Spot) returns (t: Sys)
    requires Positive(cfg) && done.r == r && n < |s.cpus| && Ticks(cfg.bfs, cfg.tick) > 0
    requires Reachable(cfg, from, s) && Split(cfg, s, n, done, InTick(Ticks(cfg.bfs, cfg.tick) - 1, r))
    ensures Reachable(cfg, from, t) && Only(s, t, n) && Untouched(s, t) && t.list == s.list && t.clock == s.clock
    ensures s.cpus[n].Holding? && s.cpus[n].vm < |s.vms| == |t.vms| && t.bar.cpus[n].arrived == r
    ensures Holds(t, n, Releasing) && t.cpus[n].vm == s.cpus[n].vm && t.vms == s.vms[s.cpus[n].vm := t.vms[s.cpus[n].vm]]
    ensures t.vms[s.cpus[n].vm].vdeadline == s.clock + s.vms[s.cpus[n].vm].diff && Spoiled(s.vms[s.cpus[n].vm])
    ensures Rem(Ticks(cfg.bfs, cfg.tick), Ticks(cfg.bmq, cfg.tick)) != 0 ==> Spoiled(t.vms[s.cpus[n].vm])
  {
    var k := Ticks(cfg.bfs, cfg.tick) - 1;
    var u := PassesOne(cfg, from, s, n, k, r, done);
    var v := s.cpus[n].vm;
    hide WF, Runnable, Rem, Reachable, Split, Untouched, Ticks;
    UsedUpSlices(cfg, s.vms[v], k);
    var vm := u.vms[v];
    t := With(u, n, Holding(v, Releasing), v, vm.(vdeadline := u.clock + vm.diff));
    assert ReschedStep(cfg, u, n, t);
    Next(cfg, from, u, Resched(n), t);
    OnlyTwice(s, u, t, n);
    UntouchedTwice(s, u, t);
  }

  lemma LinksOne(cfg: Config, from: Sys, s: Sys, n: nat) returns (t: Sys)
    requires Reachable(cfg, from, s) && Holds(s, n, Releasing)
    ensures Reachable(cfg, from, t) && Only(s, t, n) && LinkStep(s, n, t)
  {
    t := s.(cpus := s.cpus[n := Looking], list := [s.cpus[n].vm] + s.list);
    Next(cfg, from, s, Link(n), t);
  }

  lemma GivesUpOne(cfg: Config, from: Sys, s: Sys, n: nat, r: nat) returns (t: Sys)
    requires Positive(cfg) && Rem(Ticks(cfg.bfs, cfg.tick), Ticks(cfg.bmq, cfg.tick)) != 0
    requires n < |s.cpus| && Ticks(cfg.bfs, cfg.tick) > 0
    requires Reachable(cfg, from, s) && Split(cfg, s, n, Looks(r), InTick(Ticks(cfg.bfs, cfg.tick) - 1, r))
    ensures Reachable(cfg, from, t) && Split(cfg, t, n + 1, Looks(r), InTick(Ticks(cfg.bfs, cfg.tick) - 1, r))
    ensures |t.cpus| == |s.cpus| && |t.vms| == |s.vms| && AllUnspoiled(t) == AllUnspoiled(s)
  {
    hide Reachable, Split, Untouched, Rem, Ticks;
    var u := ReleasesOne(cfg, from, s, n, r, Looks(r));
    t := LinksOne(cfg, from, u, n);
    OnlyTwice(s, u, t, n);
    Advance(cfg, s, t, n, Looks(r), InTick(Ticks(cfg.bfs, cfg.tick) - 1, r));
    SpoilingOne(s.vms, t.vms, s.cpus[n].vm, |s.vms|);
  }

  lemma TakesNext(cfg: Config, s: Sys, n: nat) returns (t: Sys, v: nat)
    requires Exclusive(s) && Sound(s) && n < |s.cpus| <= |s.vms| && s.cpus[n].Looking?
    ensures Step(cfg, s, Take(n), t) && v < |s.vms| && v in s.list && Holds(t, n, Taken) && t.cpus[n].vm == v
    ensures t.vms == s.vms[v := s.vms[v].(slice := cfg.bfs, need := false)] && t.clock == s.clock && t.bar == s.bar
  {
    HeldBound(s.cpus, |s.cpus|, n);
    AllReady(s);
    hide Exclusive, Sound;
    var k := SomeEarliest(Waiting(s), |s.list|);
    v := s.list[k];
    t := With(s, n, Holding(v, Taken), v, s.vms[v].(slice := cfg.bfs, need := false))
         .(list := s.list[..k] + s.list[k + 1..]);
    assert Earliest(Waiting(s), k) && TakeAt(cfg, s, n, k, t);
  }

  /** A CPU takes a VM and starts a vCPU of it, unless the assertion of line 306 fails there. */
  lemma TakesOne(cfg: Config, from: Sys, s: Sys, n: nat, r: nat) returns (t: Sys, fails: bool)
    requires Reachable(cfg, from, s) && Split(cfg, s, n, Guests(0, r), Looks(r)) && n < |s.cpus| <= |s.vms|
    ensures Reachable(cfg, from, t) && |t.vms| == |s.vms| && |t.cpus| == |s.cpus|
    ensures fails ==> Fires(t, Dispatch(n)) && exists v :: v in s.list && v < |s.vms| && Spoiled(s.vms[v])
    ensures !fails ==>
      && Split(cfg, t, n + 1, Guests(0, r), Looks(r)) && Untouched(s, t) && t.clock == s.clock
      && AllUnspoiled(t) < AllUnspoiled(s)
  {
    ReachInvariant(cfg, from, s);
    SpotOf(cfg, s, n, Guests(0, r), Looks(r), n);
    var u, v := TakesNext(cfg, s, n);
    hide Exclusive, Sound, Barred, Clocked, Earliest, Reachable, Split, Rem, Step, VmAt, Ticks;
    Next(cfg, from, s, Take(n), u);
    fails := Spoiled(s.vms[v]);
    if fails {
      t := u;
    } else {
      TicksZero(cfg.bfs, cfg.tick);
      RemOfZero(Ticks(cfg.bmq, cfg.tick));
      t := SwitchesOne(cfg, from, u, n, 0);
      OnlyTwice(s, u, t, n);
      UntouchedTwice(s, u, t);
      Advance(cfg, s, t, n, Guests(0, r), Looks(r));
      assert t.vms == s.vms[v := t.vms[v]];
      SpoilingOne(s.vms, t.vms, v, |s.vms|);
    }
  }

  lemma RemOfZero(m: nat)
    requires m > 0
    ensures Rem(0, m) == 0
  {
  }

  // ------------------------------------------------------------------ all CPUs

  /** All CPUs are at that spot. */
  ghost predicate All(cfg: Config, s: Sys, spot: Spot) {
    Split(cfg, s, 0, spot, spot)
  }

  lemma AllOf(cfg: Config, s: Sys, done: Spot, before: Spot)
    requires Positive(cfg) && |s.cpus| == |s.bar.cpus|
    ensures All(cfg, s, before) <==> Split(cfg, s, 0, done, before)
    ensures All(cfg, s, done) <==> Split(cfg, s, |s.cpus|, done, before)
  {
    hide AtSpot;
  }

  lemma {:induction false} AllArrive(cfg: Config, from: Sys, s: Sys, n: nat, k: nat, r: nat) returns (t: Sys)
    requires Reachable(cfg, from, s) && Split(cfg, s, n, InTick(k, r + 1), Guests(k, r))
    ensures Reachable(cfg, from, t) && All(cfg, t, InTick(k, r + 1)) && |t.cpus| == |s.cpus|
    ensures t.vms == s.vms && t.list == s.list
    ensures t.clock == s.clock + if n == 0 < |s.cpus| then cfg.tick else 0
    decreases |s.cpus| - n
  {
    hide Split, Reachable, All;
    if n == |s.cpus| {
      t := s;
      AllOf(cfg, s, InTick(k, r + 1), Guests(k, r));
    } else {
      var u := ArrivesOne(cfg, from, s, n, k, r);
      t := AllArrive(cfg, from, u, n + 1, k, r);
    }
  }

  lemma {:induction false} AllReturn(cfg: Config, from: Sys, s: Sys, n: nat, k: nat, r: nat) returns (t: Sys)
    requires Reachable(cfg, from, s) && Split(cfg, s, n, Guests(k + 1, r), InTick(k, r))
    requires k + 1 < Ticks(cfg.bfs, cfg.tick)
    ensures Reachable(cfg, from, t) && All(cfg, t, Guests(k + 1, r)) && |t.cpus| == |s.cpus|
    ensures Untouched(s, t) && t.list == s.list && t.clock == s.clock && AllUnspoiled(t) == AllUnspoiled(s)
    decreases |s.cpus| - n
  {
    hide Split, Reachable, All, Ticks;
    if n == |s.cpus| {
      t := s;
      AllOf(cfg, s, Guests(k + 1, r), InTick(k, r));
    } else {
      var u := ReturnsOne(cfg, from, s, n, k, r);
      t := AllReturn(cfg, from, u, n + 1, k, r);
      UntouchedTwice(s, u, t);
    }
  }

  /** Round after round until the last tick of the VM slice; `r` is the number of arrivals then. */
  lemma {:induction false} LastTick(cfg: Config, from: Sys, s: Sys, k: nat, r0: nat) returns (t: Sys, r: nat)
    requires Reachable(cfg, from, s) && All(cfg, s, Guests(k, r0)) && k < Ticks(cfg.bfs, cfg.tick) && |s.cpus| > 0
    ensures Reachable(cfg, from, t) && All(cfg, t, InTick(Ticks(cfg.bfs, cfg.tick) - 1, r)) && |t.cpus| == |s.cpus|
    ensures Untouched(s, t) && t.list == s.list && t.clock > s.clock && AllUnspoiled(t) == AllUnspoiled(s)
    decreases Ticks(cfg.bfs, cfg.tick) - k
  {
    hide Split, Reachable, All, Ticks;
    SizesOf(cfg, s, Guests(k, r0));
    AllOf(cfg, s, InTick(k, r0 + 1), Guests(k, r0));
    var u := AllArrive(cfg, from, s, 0, k, r0);
    if k + 1 == Ticks(cfg.bfs, cfg.tick) {
      t, r := u, r0 + 1;
    } else {
      SizesOf(cfg, u, InTick(k, r0 + 1));
      AllOf(cfg, u, Guests(k + 1, r0 + 1), InTick(k, r0 + 1));
      var w := AllReturn(cfg, from, u, 0, k, r0 + 1);
      t, r := LastTick(cfg, from, w, k + 1, r0 + 1);
      UntouchedTwice(s, w, t);
    }
  }

  lemma SizesOf(cfg: Config, s: Sys, spot: Spot)
    requires All(cfg, s, spot)
    ensures Positive(cfg) && |s.cpus| == |s.bar.cpus|
  {
  }

  lemma {:induction false} AllGiveUp(cfg: Config, from: Sys, s: Sys, n: nat, r: nat) returns (t: Sys)
    requires Positive(cfg) && Rem(Ticks(cfg.bfs, cfg.tick), Ticks(cfg.bmq, cfg.tick)) != 0
    requires Ticks(cfg.bfs, cfg.tick) > 0
    requires Reachable(cfg, from, s) && Split(cfg, s, n, Looks(r), InTick(Ticks(cfg.bfs, cfg.tick) - 1, r))
    ensures Reachable(cfg, from, t) && All(cfg, t, Looks(r))
    ensures |t.cpus| == |s.cpus| && |t.vms| == |s.vms| && AllUnspoiled(t) == AllUnspoiled(s)
    decreases |s.cpus| - n
  {
    hide Split, Reachable, All, Rem, Ticks;
    if n == |s.cpus| {
      t := s;
      AllOf(cfg, s, Looks(r), InTick(Ticks(cfg.bfs, cfg.tick) - 1, r));
    } else {
      var u := GivesUpOne(cfg, from, s, n, r);
      t := AllGiveUp(cfg, from, u, n + 1, r);
    }
  }

  lemma {:induction false} AllTake(cfg: Config, from: Sys, s: Sys, n: nat, r: nat) returns (t: Sys, e: Event, fails: bool)
    requires Reachable(cfg, from, s) && Split(cfg, s, n, Guests(0, r), Looks(r)) && |s.cpus| <= |s.vms|
    ensures Reachable(cfg, from, t) && |t.vms| == |s.vms| && |t.cpus| == |s.cpus|
    ensures fails ==> Fires(t, e) && exists v :: v in s.list && v < |s.vms| && Spoiled(s.vms[v])
    ensures !fails ==>
      && All(cfg, t, Guests(0, r)) && Untouched(s, t) && t.clock == s.clock
      && AllUnspoiled(t) <= AllUnspoiled(s) - (|s.cpus| - n)
    decreases |s.cpus| - n
  {
    hide Split, Reachable, All, Fires;
    e := Dispatch(n);
    if n == |s.cpus| {
      t, fails := s, false;
      AllOf(cfg, s, Guests(0, r), Looks(r));
    } else {
      t, fails := TakesOne(cfg, from, s, n, r);
      if !fails {
        var u := t;
        t, e, fails := AllTake(cfg, from, u, n + 1, r);
        if fails {
          var v :| v in u.list && v < |u.vms| && Spoiled(u.vms[v]);
          assert v in s.list && Spoiled(s.vms[v]);
        } else {
          UntouchedTwice(s, u, t);
        }
      }
    }
  }

  /** Taking VM after VM, the CPUs come to one that they have spoiled before. */
  lemma {:induction false} ComesToFire(cfg: Config, from: Sys, s: Sys, r: nat) returns (t: Sys, e: Event)
    requires Positive(cfg) && Rem(Ticks(cfg.bfs, cfg.tick), Ticks(cfg.bmq, cfg.tick)) != 0
    requires Reachable(cfg, from, s) && All(cfg, s, Looks(r)) && 0 < |s.cpus| <= |s.vms|
    ensures Reachable(cfg, from, t) && Fires(t, e)
    decreases AllUnspoiled(s)
  {
    TicksZero(cfg.bfs, cfg.tick);
    SizesOf(cfg, s, Looks(r));
    AllOf(cfg, s, Guests(0, r), Looks(r));
    hide Split, Reachable, All, Rem, Fires, Ticks, AllUnspoiled;
    var fails;
    t, e, fails := AllTake(cfg, from, s, 0, r);
    if !fails {
      var u, r2 := LastTick(cfg, from, t, 0, r);
      SizesOf(cfg, u, InTick(Ticks(cfg.bfs, cfg.tick) - 1, r2));
      AllOf(cfg, u, Looks(r2), InTick(Ticks(cfg.bfs, cfg.tick) - 1, r2));
      var w := AllGiveUp(cfg, from, u, 0, r2);
      t, e := ComesToFire(cfg, from, w, r2);
    }
  }

  /** In the beginning all CPUs look for a VM, with as many rounds behind them. */
  lemma AllLook(cfg: Config, s: Sys) returns (r: nat)
    requires Positive(cfg) && Initial(s)
    ensures All(cfg, s, Looks(r))
  {
    r := s.bar.cpus[0].arrived;
    forall c: nat | c < |s.cpus| ensures s.bar.cpus[c].arrived == r {
      assert Barrier.Left(s.bar.cpus[c]) <= s.bar.cpus[0].arrived;
      assert Barrier.Left(s.bar.cpus[0]) <= s.bar.cpus[c].arrived;
    }
  }

  // ------------------------------------------------------------------ fewer VMs than CPUs

  /** The VM that the CPU holds is its first, and it is in its first tick at most. */
  ghost predicate FirstAt(s: Sys, c: nat, r: nat)
    requires c < |s.cpus| == |s.bar.cpus|
  {
    && s.bar.cpus[c].arrived == (if s.cpus[c].Holding? && s.cpus[c].at == Ticking then r + 1 else r)
    && (s.cpus[c].Holding? ==>
         && s.cpus[c].vm < |s.vms| && s.cpus[c].at != Releasing && !s.vms[s.cpus[c].vm].need
         && (s.cpus[c].at == Taken ==> s.vms[s.cpus[c].vm].queue.running.None?)
         && (s.cpus[c].at != Taken ==> !NeedsVcpu(s.vms[s.cpus[c].vm])))
  }

  ghost predicate First(s: Sys, r: nat) {
    && |s.bar.cpus| == |s.cpus|
    && (forall c: nat :: c < |s.cpus| ==> FirstAt(s, c, r))
    && (forall v :: v in s.list && v < |s.vms| ==> s.vms[v].queue.running.None?)
  }

  lemma AllHold(cpus: seq<Cpu>, n: nat)
    requires n <= |cpus| && forall c :: 0 <= c < n ==> cpus[c].Holding?
    ensures Held(cpus, n) == n
  {
  }

  /** A tick ends only when every CPU holds a VM. */
  lemma TickNeedsAll(cfg: Config, s: Sys, c: nat, t: Sys, r: nat)
    requires Exclusive(s) && Barred(s) && First(s, r) && PassStep(cfg, s, c, t)
    ensures |s.vms| >= |s.cpus|
  {
    assert BarredAt(s, c) && FirstAt(s, c, r);
    hide Barrier.Inv, Ticked;
    Barrier.AllArrived(s.bar, c);
    forall d: nat | d < |s.cpus| ensures s.cpus[d].Holding? {
      assert FirstAt(s, d, r);
    }
    AllHold(s.cpus, |s.cpus|);
  }

  lemma FirstKept(cfg: Config, s: Sys, e: Event, t: Sys, r: nat)
    requires Exclusive(s) && Barred(s) && Sound(s) && First(s, r) && Step(cfg, s, e, t) && |s.vms| < |s.cpus|
    ensures First(t, r) && !e.Pass?
  {
    if e.Pass? {
      TickNeedsAll(cfg, s, e.cpu, t, r);
    }
    assert FirstAt(s, e.cpu, r);
    StepOnly(cfg, s, e, t);
    FirstMoves(cfg, s, e, t, r);
    hide Step, Exclusive, Sound, Barred;
    forall c: nat | c < |t.cpus| ensures FirstAt(t, c, r) {
      assert FirstAt(s, c, r);
    }
  }

  /** The CPU that moves. */
  lemma FirstMoves(cfg: Config, s: Sys, e: Event, t: Sys, r: nat)
    requires Exclusive(s) && Sound(s) && First(s, r) && Step(cfg, s, e, t) && !e.Pass? && e.cpu < |s.cpus|
    requires FirstAt(s, e.cpu, r)
    ensures !e.Link? && |t.cpus| == |s.cpus| && |t.bar.cpus| == |s.bar.cpus| && FirstAt(t, e.cpu, r)
  {
    hide Exclusive, Unused, Earliest, Runnable, WF, Barrier.Step, Scheduled;
    if e.Take? {
      var k: nat :| Earliest(Waiting(s), k) && TakeAt(cfg, s, e.cpu, k, t);
      assert s.list[k] in s.list;
    } else if e.Dispatch? {
      assert SoundVm(s.vms[s.cpus[e.cpu].vm]);
      ScheduledKeepsPlaces(s.vms[s.cpus[e.cpu].vm].queue);
    } else if e.Tick? {
      OthersAtBarrier(s.bar, Barrier.Arrive(e.cpu), t.bar);
    }
  }

  lemma {:induction false} FirstForever(cfg: Config, states: seq<Sys>, events: seq<Event>, n: nat) returns (r: nat)
    requires Positive(cfg) && Run(cfg, states, events) && n <= |events| && |states[0].vms| < |states[0].cpus|
    ensures First(states[n], r)
  {
    hide Step, Exclusive, Sound, Barred, Clocked, First, Initial;
    if n == 0 {
      r := FirstOfAll(cfg, states[0]);
    } else {
      r := FirstForever(cfg, states, events, n - 1);
      RunInvariant(cfg, states, events, n - 1);
      assert Step(cfg, states[n - 1], events[n - 1], states[n]);
      FirstKept(cfg, states[n - 1], events[n - 1], states[n], r);
    }
  }

  lemma FirstOfAll(cfg: Config, s: Sys) returns (r: nat)
    requires Positive(cfg) && Initial(s)
    ensures First(s, r)
  {
    r := AllLook(cfg, s);
    hide Barrier.Inv, Apart;
    forall c: nat | c < |s.cpus| ensures FirstAt(s, c, r) {
      SpotOf(cfg, s, 0, Looks(r), Looks(r), c);
    }
    forall v | v in s.list && v < |s.vms| ensures s.vms[v].queue.running.None? {
      assert NewVm(s.vms[v]);
    }
  }

  /** With fewer VMs than CPUs no tick ever ends: the CPUs that look for a VM never come to the barrier. */
  lemma FewerVmsStop(cfg: Config, from: Sys, s: Sys, e: Event)
    requires Positive(cfg) && Reachable(cfg, from, s) && |from.vms| < |from.cpus|
    ensures (forall t :: Step(cfg, s, e, t) ==> !e.Pass?) && !Fires(s, e)
  {
    hide Step, Initial, Exclusive, Sound, Barred, Clocked;
    var states, events :| Run(cfg, states, events) && states[0] == from && states[|events|] == s;
    var r := FirstForever(cfg, states, events, |events|);
    RunInvariant(cfg, states, events, |events|);
    forall t | Step(cfg, s, e, t) ensures !e.Pass? {
      FirstKept(cfg, s, e, t, r);
    }
    if e.cpu < |s.cpus| {
      assert FirstAt(s, e.cpu, r);
    }
  }

  // ------------------------------------------------------------------ the assertions

  /**
   * Exactly when the slice assertions can fail: in any system, some run fails one of them if and only
   * if there are as many VMs as CPUs and the ticks of a vCPU slice do not divide those of a VM slice.
   */
  lemma AssertsFailExactlyWhen(cfg: Config, from: Sys)
    requires Positive(cfg) && Initial(from)
    ensures (exists s, e :: Reachable(cfg, from, s) && Fires(s, e))
       <==> |from.vms| >= |from.cpus|
            && ((cfg.bfs + cfg.tick - 1) / cfg.tick) % Ticks(cfg.bmq, cfg.tick) != 0
    ensures Ticks(cfg.bmq, cfg.tick) == (cfg.bmq + cfg.tick - 1) / cfg.tick
  {
    TicksIsQuotient(cfg.bfs, cfg.tick);
    TicksIsQuotient(cfg.bmq, cfg.tick);
    TicksZero(cfg.bmq, cfg.tick);
    var a, b := Ticks(cfg.bfs, cfg.tick), Ticks(cfg.bmq, cfg.tick);
    RemIsModulo(a, b);
    hide Ticks, Rem, Reachable, Fires, Split;
    if Rem(a, b) != 0 && |from.vms| >= |from.cpus| {
      var r := AllLook(cfg, from);
      ReachStart(cfg, from);
      var s, e := ComesToFire(cfg, from, from, r);
    } else {
      forall s, e | Reachable(cfg, from, s) ensures !Fires(s, e) {
        if Rem(a, b) == 0 {
          NeverFires(cfg, from, s, e);
        } else {
          FewerVmsStop(cfg, from, s, e);
        }
      }
    }
  }
}
