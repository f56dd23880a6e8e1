/** When a VM can be overtaken by one that was not ahead of it (src/core/sched.c, lines 189-213 and 368-387). */
module Overtaking {
  import opened Options
  import opened Bmq
  import opened Bfs
  import opened SchedRun
  import opened SliceAsserts
  import opened Bypass
  import opened Rounds

  /** The clock has reached the deadline of a waiting VM in state `i`; event `m` takes one that was not ahead of it then. */
  ghost predicate Overtakes(cfg: Config, states: seq<Sys>, events: seq<Event>, i: nat, m: nat, v: nat) {
    && Run(cfg, states, events) && i <= m < |events| && Due(states[i], v)
    && (forall j :: i <= j <= m ==> v in states[j].list)
    && events[m].Take? && !HeldBy(states[m + 1], events[m].cpu, v) && !TakesOneAhead(states, events, i, m, v)
  }

  /** All VMs have at least this distance of deadlines. */
  ghost predicate Distance(s: Sys, d: nat) {
    forall v :: 0 <= v < |s.vms| ==> s.vms[v].diff >= d
  }

  /** As long as the VM waits, no more VMs have been taken than were ahead of it. */
  lemma {:induction false} StillBehind(cfg: Config, states: seq<Sys>, events: seq<Event>, i: nat, j: nat, v: nat, p: nat)
    requires Run(cfg, states, events) && i <= j <= |events| && ShortTick(cfg, states[0])
    requires WaitsAt(states[i], v, p) && Due(states[i], v) && forall l :: i <= l <= j ==> v in states[l].list
    ensures Takes(events, i, j) <= Wait(states[i], p)
    decreases j
  {
    hide Step, Sound, Initial, Wait, Due, WaitsAt, IsAhead, Barred, Clocked, ShortTick;
    if i < j {
      StillBehind(cfg, states, events, i, j - 1, v, p);
      var r := BoundedBypass(cfg, states, events, i, j - 1, v, p);
      RunInvariant(cfg, states, events, j);
    }
  }

  lemma NeverOvertaken(cfg: Config, states: seq<Sys>, events: seq<Event>, i: nat, m: nat, v: nat)
    requires Run(cfg, states, events) && ShortTick(cfg, states[0])
    ensures !Overtakes(cfg, states, events, i, m, v)
  {
    hide Step, Exclusive, Sound, Initial, Wait, IsAhead, Barred, Clocked, ShortTick, TakesOneAhead;
    if Overtakes(cfg, states, events, i, m, v) {
      var p: nat :| p < |states[i].list| && states[i].list[p] == v;
      StillBehind(cfg, states, events, i, m, v, p);
      var r := BoundedBypass(cfg, states, events, i, m, v, p);
      r := BoundedBypass(cfg, states, events, i, m + 1, v, p);
    }
  }

  // ------------------------------------------------------------------ a new system

  ghost function NewQueue(slot: nat): Queue {
    Queue(Insert(seq(LEVELS, i => []), Started(slot)), None)
  }

  lemma NewQueueIsNew(slot: nat)
    ensures WF(NewQueue(slot)) && NoBoosts(NewQueue(slot)) && AllDefault(NewQueue(slot))
    ensures Runnable(NewQueue(slot)) && NewQueue(slot).running.None?
    ensures forall s :: Owns(NewQueue(slot), s) <==> s == slot
  {
    var none: seq<seq<Vcpu>> := seq(LEVELS, i => []);
    InsertPlaced(none, Started(slot));
    assert NewQueue(slot).chains[DEFAULT_PRIO] != [];
  }

  /** `m` VMs with one vCPU each, `n` CPUs. */
  ghost function NewSystem(m: nat, n: nat, d: nat): Sys {
    Sys(0, seq(m, v requires 0 <= v => v), seq(m, v requires 0 <= v => Vm(1, d, d, 0, true, NewQueue(v), 0, true)),
        seq(n, c => Looking), Barrier.Token(0, seq(n, c => Barrier.Cpu(0, Barrier.Out))))
  }

  lemma NewSystemIsInitial(m: nat, n: nat, d: nat)
    requires n > 0 && d > 0
    ensures Initial(NewSystem(m, n, d))
  {
    var s := NewSystem(m, n, d);
    Barrier.InitialInv(s.bar);
    hide WF, NoBoosts, AllDefault, Runnable, Owns, NewQueue, Barrier.Inv;
    forall v | 0 <= v < m ensures NewVm(s.vms[v]) && v in s.list {
      NewQueueIsNew(v);
      assert s.list[v] == v;
    }
    forall v, w, slot | 0 <= v < m && 0 <= w < m && v != w ensures !(Owns(s.vms[v].queue, slot) && Owns(s.vms[w].queue, slot)) {
      NewQueueIsNew(v);
      NewQueueIsNew(w);
    }
  }

  // ------------------------------------------------------------------ a run with an overtaken VM

  /** Three VMs and two CPUs, up to the last tick of the first VM slice; the third VM has waited all the time. */
  lemma FirstSlice(cfg: Config, d: nat) returns (s: Sys, w: nat, r: nat)
    requires Positive(cfg) && d > 0
    ensures var from := NewSystem(3, 2, d);
      && Initial(from) && Reachable(cfg, from, s) && All(cfg, s, InTick(Ticks(cfg.bfs, cfg.tick) - 1, r))
      && Ticks(cfg.bfs, cfg.tick) > 0 && s.list == [w] && w < |s.vms| == 3 && s.vms[w].vdeadline == d && s.clock > 0
      && |s.cpus| == 2
  {
    var from := NewSystem(3, 2, d);
    NewSystemIsInitial(3, 2, d);
    TicksZero(cfg.bfs, cfg.tick);
    ReachStart(cfg, from);
    var r0 := AllLook(cfg, from);
    assert forall v :: 0 <= v < 3 ==> !Spoiled(from.vms[v]) && from.vms[v].vdeadline == d;
    assert |from.vms| == 3 && |from.cpus| == 2;
    hide Initial, Reachable, All, Split, NewSystem, Ticks, Spoiled, Fires;
    SizesOf(cfg, from, Looks(r0));
    AllOf(cfg, from, Guests(0, r0), Looks(r0));
    var t, e, fails := AllTake(cfg, from, from, 0, r0);
    s, r := LastTick(cfg, from, t, 0, r0);
    UntouchedTwice(from, t, s);
    OneLeft(cfg, from, s, Ticks(cfg.bfs, cfg.tick) - 1, r);
    w := s.list[0];
    assert w in s.list && w in from.list;
  }

  lemma OneLeft(cfg: Config, from: Sys, s: Sys, k: nat, r: nat)
    requires Reachable(cfg, from, s) && All(cfg, s, InTick(k, r)) && |from.vms| == 3 && |from.cpus| == 2
    ensures |s.list| == 1 && |s.vms| == 3 && s.list[0] < 3
  {
    ReachInvariant(cfg, from, s);
    hide Reachable, Sound, Barred, Clocked, VmAt;
    forall c: nat | c < |s.cpus| ensures s.cpus[c].Holding? {
      SpotOf(cfg, s, 0, InTick(k, r), InTick(k, r), c);
    }
    AllHold(s.cpus, |s.cpus|);
  }

  /** Both CPUs have read the clock to give their VMs up. */
  lemma BothRelease(cfg: Config, d: nat) returns (s: Sys, a: nat, b: nat, w: nat)
    requires Positive(cfg) && d > 0
    ensures Reachable(cfg, NewSystem(3, 2, d), s) && s.list == [w] && |s.vms| == 3 && |s.cpus| == 2
    ensures a < 3 && b < 3 && w < 3 && a != b && a != w && b != w
    ensures s.cpus == [Holding(a, Releasing), Holding(b, Releasing)]
    ensures s.vms[a].vdeadline == s.vms[b].vdeadline == s.clock + d > s.vms[w].vdeadline
  {
    var from := NewSystem(3, 2, d);
    var r;
    s, w, r := FirstSlice(cfg, d);
    var k := Ticks(cfg.bfs, cfg.tick) - 1;
    assert forall v :: 0 <= v < 3 ==> from.vms[v].diff == d;
    assert |from.vms| == 3;
    hide Initial, Reachable, Split, All, NewSystem, Ticks, Spoiled, Rounds.Only;
    SizesOf(cfg, s, InTick(k, r));
    AllOf(cfg, s, Releases(r), InTick(k, r));
    ReachDiffs(cfg, from, s, d);
    var t := ReleasesOne(cfg, from, s, 0, r, Releases(r));
    a := t.cpus[0].vm;
    OnlySizes(s, t, 0);
    Advance(cfg, s, t, 0, Releases(r), InTick(k, r));
    ReachDiffs(cfg, from, t, d);
    s := ReleasesOne(cfg, from, t, 1, r, Releases(r));
    b := s.cpus[1].vm;
    SameOther(t, s, 1, 0);
    Distinct(cfg, from, s);
    assert w in s.list;
  }

  lemma SameOther(s: Sys, t: Sys, c: nat, d: nat)
    requires Only(s, t, c) && d < |s.cpus| && d != c
    ensures |t.cpus| == |s.cpus| && |t.vms| == |s.vms| && t.cpus[d] == s.cpus[d]
    ensures s.cpus[d].Holding? && s.cpus[d].vm < |s.vms| ==> t.vms[s.cpus[d].vm] == s.vms[s.cpus[d].vm]
  {
  }

  /** CPU 0 links its VM, takes the third, and ticks: its first VM is due, while the other is not linked yet. */
  lemma SecondTick(cfg: Config, d: nat) returns (s: Sys, a: nat, b: nat)
    requires Positive(cfg) && 0 < d <= cfg.tick
    ensures Reachable(cfg, NewSystem(3, 2, d), s) && s.list == [a] && a != b && a < |s.vms| && b < |s.vms|
    ensures |s.cpus| == 2 && s.cpus[1] == Holding(b, Releasing) && Due(s, a)
    ensures s.vms[a].vdeadline == s.vms[b].vdeadline
  {
    var from := NewSystem(3, 2, d);
    var w;
    s, a, b, w := BothRelease(cfg, d);
    hide Reachable, NewSystem, Rounds.Only;
    var t := LinksOne(cfg, from, s, 0);
    SameOther(s, t, 0, 1);
    var u := TakesSecond(cfg, from, t, a, w);
    SameOther(t, u, 0, 1);
    var x := DispatchesFirst(cfg, from, u);
    SameOther(u, x, 0, 1);
    s := ArriveStep(cfg, from, x, 0);
    SameOther(x, s, 0, 1);
  }

  lemma ReachDiffs(cfg: Config, from: Sys, s: Sys, d: nat)
    requires Reachable(cfg, from, s) && forall v :: 0 <= v < |from.vms| ==> from.vms[v].diff == d
    ensures |s.vms| == |from.vms| && forall v :: 0 <= v < |s.vms| ==> s.vms[v].diff == d
  {
    hide Reachable, Exclusive, Sound, Barred, Clocked;
    ReachInvariant(cfg, from, s);
  }

  lemma Distinct(cfg: Config, from: Sys, s: Sys)
    requires Reachable(cfg, from, s) && |s.cpus| == 2 && s.cpus[0].Holding? && s.cpus[1].Holding?
    ensures s.cpus[0].vm != s.cpus[1].vm && s.cpus[0].vm !in s.list && s.cpus[1].vm !in s.list
  {
    hide Reachable, Sound, Barred, Clocked;
    ReachInvariant(cfg, from, s);
    assert HeldBy(s, 0, s.cpus[0].vm) && HeldBy(s, 1, s.cpus[1].vm);
  }

  /** CPU 0 takes the VM behind the one that it has linked, which has the earlier deadline. */
  lemma TakesSecond(cfg: Config, from: Sys, s: Sys, a: nat, w: nat) returns (t: Sys)
    requires Positive(cfg) && Reachable(cfg, from, s) && s.list == [a, w] && a != w && a < |s.vms| && w < |s.vms|
    requires 0 < |s.cpus| && s.cpus[0].Looking? && s.vms[w].vdeadline < s.vms[a].vdeadline
    ensures Reachable(cfg, from, t) && Only(s, t, 0) && Holds(t, 0, Taken) && t.cpus[0].vm == w && t.list == [a]
    ensures t.vms == s.vms[w := s.vms[w].(slice := cfg.bfs, need := false)] && t.clock == s.clock
  {
    ReachInvariant(cfg, from, s);
    AllReady(s);
    EntriesOf(s, 0);
    EntriesOf(s, 1);
    hide Reachable, Exclusive, Sound, Barred, Clocked;
    t := With(s, 0, Holding(w, Taken), w, s.vms[w].(slice := cfg.bfs, need := false)).(list := [a]);
    assert s.list[..1] + s.list[2..] == [a];
    assert Earliest(Waiting(s), 1) && TakeAt(cfg, s, 0, 1, t);
    Next(cfg, from, s, Take(0), t);
  }

  lemma DispatchesFirst(cfg: Config, from: Sys, s: Sys) returns (t: Sys)
    requires Positive(cfg) && Reachable(cfg, from, s) && Holds(s, 0, Taken)
    requires s.vms[s.cpus[0].vm].slice == cfg.bfs && !s.vms[s.cpus[0].vm].need
    ensures Reachable(cfg, from, t) && Only(s, t, 0) && Holds(t, 0, Guest) && t.list == s.list && t.clock == s.clock
    ensures t.cpus[0].vm == s.cpus[0].vm && t.vms == s.vms[s.cpus[0].vm := t.vms[s.cpus[0].vm]] && |t.vms| == |s.vms|
  {
    TicksZero(cfg.bmq, cfg.tick);
    RemOfZero(Ticks(cfg.bmq, cfg.tick));
    t := SwitchesOne(cfg, from, s, 0, 0);
  }

  /** The other CPU links its VM with the old clock value, in front, and takes it before the one that was due. */
  lemma TakesLate(cfg: Config, from: Sys, s: Sys, a: nat, b: nat) returns (t: Sys, u: Sys)
    requires Reachable(cfg, from, s) && s.list == [a] && a != b && a < |s.vms| && b < |s.vms|
    requires |s.cpus| == 2 && s.cpus[1] == Holding(b, Releasing) && s.vms[a].vdeadline == s.vms[b].vdeadline
    ensures Step(cfg, s, Link(1), t) && Step(cfg, t, Take(1), u) && t.list == [b, a]
    ensures |u.cpus| == 2 && u.cpus[1] == Holding(b, Taken)
  {
    t := s.(cpus := s.cpus[1 := Looking], list := [b] + s.list);
    assert LinkStep(s, 1, t);
    ReachStep(cfg, from, s, Link(1), t);
    ReachInvariant(cfg, from, t);
    AllReady(t);
    EntriesOf(t, 0);
    EntriesOf(t, 1);
    hide Reachable, Exclusive, Sound, Barred, Clocked;
    u := With(t, 1, Holding(b, Taken), b, t.vms[b].(slice := cfg.bfs, need := false)).(list := [a]);
    assert t.list[..0] + t.list[1..] == [a];
    assert Earliest(Waiting(t), 0) && TakeAt(cfg, t, 1, 0, u);
  }

  /** The run goes on for two steps. */
  lemma TwoMore(cfg: Config, states: seq<Sys>, events: seq<Event>, e: Event, t: Sys, f: Event, u: Sys)
    requires Run(cfg, states, events) && Step(cfg, states[|events|], e, t) && Step(cfg, t, f, u)
    ensures Run(cfg, states + [t, u], events + [e, f])
  {
    hide Initial, Step;
    var more, also := states + [t, u], events + [e, f];
    forall j | 0 <= j < |also| ensures Step(cfg, more[j], also[j], more[j + 1]) {
      assert j < |events| ==> Step(cfg, states[j], events[j], states[j + 1]);
    }
  }

  /** The last two events of a run link VM `b` and take it before VM `a`. */
  lemma LateTaker(cfg: Config, states: seq<Sys>, events: seq<Event>, i: nat, a: nat, b: nat)
    requires Run(cfg, states, events) && |states| == i + 3 && |events| == i + 2 && events[i + 1] == Take(1)
    requires Due(states[i], a) && states[i].list == [a] && a in states[i + 1].list && a != b
    requires 1 < |states[i + 2].cpus| && states[i + 2].cpus[1] == Holding(b, Taken)
    ensures Overtakes(cfg, states, events, i, i + 1, a)
  {
    hide Run, Due;
    assert !IsAhead(states[i], b, a);
  }

  lemma SomebodyOvertakes(cfg: Config, d: nat) returns (states: seq<Sys>, events: seq<Event>, i: nat, m: nat, v: nat)
    requires Positive(cfg) && 0 < d <= cfg.tick
    ensures Overtakes(cfg, states, events, i, m, v) && Distance(states[0], d)
  {
    var from := NewSystem(3, 2, d);
    assert Distance(from, d);
    var s, a, b := SecondTick(cfg, d);
    var t, u := TakesLate(cfg, from, s, a, b);
    hide Initial, NewSystem, Step, Distance;
    var before, steps :| Run(cfg, before, steps) && before[0] == from && before[|steps|] == s;
    TwoMore(cfg, before, steps, Link(1), t, Take(1), u);
    hide Run, Due, Overtakes;
    states, events := before + [t, u], steps + [Link(1), Take(1)];
    i, m, v := |steps|, |steps| + 1, a;
    LateTaker(cfg, states, events, i, a, b);
  }

  /**
   * Exactly when a VM that is due can be overtaken by one that was not ahead of it: with deadlines at
   * least `d` after the clock, some system can if and only if a tick is not shorter than `d`.
   */
  lemma BypassExactlyWhen(cfg: Config, d: nat)
    requires Positive(cfg) && d > 0
    ensures (exists states, events, i, m, v :: Overtakes(cfg, states, events, i, m, v) && Distance(states[0], d))
       <==> d <= cfg.tick
  {
    if d <= cfg.tick {
      var states, events, i, m, v := SomebodyOvertakes(cfg, d);
    } else {
      forall states, events, i, m, v | Overtakes(cfg, states, events, i, m, v)
        ensures !Distance(states[0], d)
      {
        if Distance(states[0], d) {
          NeverOvertaken(cfg, states, events, i, m, v);
        }
      }
    }
  }
}
