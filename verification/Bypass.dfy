/** How many VMs can be taken before a waiting one (src/core/sched.c, p_task_lookup and bfs_scheduler). */
module Bypass {
  import opened Bmq
  import opened Bfs
  import opened SchedRun

  /** The entries with deadline at most `d`. */
  ghost function UpTo(es: seq<Entry>, d: nat): nat {
    if es == [] then 0 else UpTo(es[..|es| - 1], d) + if es[|es| - 1].vdeadline <= d then 1 else 0
  }

  /** The entries with deadline below `d`. */
  ghost function Under(es: seq<Entry>, d: nat): nat {
    if es == [] then 0 else Under(es[..|es| - 1], d) + if es[|es| - 1].vdeadline < d then 1 else 0
  }

  lemma CountsJoin(a: seq<Entry>, b: seq<Entry>, d: nat)
    ensures UpTo(a + b, d) == UpTo(a, d) + UpTo(b, d)
    ensures Under(a + b, d) == Under(a, d) + Under(b, d)
  {
    if b == [] {
      assert a + b == a;
    } else {
      CountsJoin(a, b[..|b| - 1], d);
      assert (a + b)[..|a + b| - 1] == a + b[..|b| - 1];
    }
  }

  lemma CountsWithout(es: seq<Entry>, k: nat, d: nat)
    requires k < |es|
    ensures UpTo(es[..k] + es[k + 1..], d) == UpTo(es, d) - if es[k].vdeadline <= d then 1 else 0
    ensures Under(es[..k] + es[k + 1..], d) == Under(es, d) - if es[k].vdeadline < d then 1 else 0
  {
    assert es == (es[..k] + [es[k]]) + es[k + 1..];
    CountsJoin(es[..k], [es[k]], d);
    CountsJoin(es[..k] + [es[k]], es[k + 1..], d);
    CountsJoin(es[..k], es[k + 1..], d);
  }

  lemma CountsBound(es: seq<Entry>, d: nat)
    ensures UpTo(es, d) <= |es| && Under(es, d) <= |es|
    ensures UpTo(es, d) == 0 <==> forall i :: 0 <= i < |es| ==> es[i].vdeadline > d
    ensures Under(es, d) == 0 <==> forall i :: 0 <= i < |es| ==> es[i].vdeadline >= d
  {
    if es != [] {
      CountsBound(es[..|es| - 1], d);
    }
  }

  /** The entries that p_task_lookup prefers to the one at position `p`. */
  ghost function Ahead(es: seq<Entry>, p: nat): nat
    requires p < |es|
  {
    UpTo(es[..p], es[p].vdeadline) + Under(es[p + 1..], es[p].vdeadline)
  }

  /** The VM is taken exactly when nothing is ahead of it. */
  lemma TakenWhenFirst(es: seq<Entry>, k: nat, p: nat)
    requires p < |es| && Earliest(es, k)
    requires forall i :: 0 <= i < |es| ==> es[i].ready > 0
    ensures k == p <==> Ahead(es, p) == 0
    ensures k < p ==> es[k].vdeadline <= es[p].vdeadline
    ensures k > p ==> es[k].vdeadline < es[p].vdeadline
  {
    var d := es[p].vdeadline;
    CountsBound(es[..p], d);
    CountsBound(es[p + 1..], d);
    if k < p {
      assert es[..p][k] == es[k];
    } else if k > p {
      assert es[p + 1..][k - p - 1] == es[k];
    }
  }

  /** Whatever is taken instead of the VM was ahead of it. */
  lemma TakingFromAhead(es: seq<Entry>, k: nat, p: nat)
    requires p < |es| && k < |es| && k != p
    requires if k < p then es[k].vdeadline <= es[p].vdeadline else es[k].vdeadline < es[p].vdeadline
    ensures Ahead(es[..k] + es[k + 1..], if k < p then p - 1 else p) == Ahead(es, p) - 1
  {
    var d := es[p].vdeadline;
    var left := es[..k] + es[k + 1..];
    if k < p {
      CountsWithout(es[..p], k, d);
      assert left[..p - 1] == es[..p][..k] + es[..p][k + 1..];
      assert left[p..] == es[p + 1..];
    } else {
      var j := k - p - 1;
      CountsWithout(es[p + 1..], j, d);
      assert left[..p] == es[..p];
      assert left[p + 1..] == es[p + 1..][..j] + es[p + 1..][j + 1..];
    }
  }

  /** A VM whose new deadline is later goes behind, although it is linked in front. */
  lemma InsertingBehind(es: seq<Entry>, e: Entry, p: nat)
    requires p < |es| && e.vdeadline > es[p].vdeadline
    ensures Ahead([e] + es, p + 1) == Ahead(es, p)
  {
    var d := es[p].vdeadline;
    CountsJoin([e], es[..p], d);
    assert ([e] + es)[..p + 1] == [e] + es[..p];
    assert ([e] + es)[p + 2..] == es[p + 1..];
  }

  // ------------------------------------------------------------------ runs

  ghost predicate WaitsAt(s: Sys, v: nat, p: nat) {
    p < |s.list| && s.list[p] == v && v < |s.vms|
  }

  /** The VM waits and the clock has reached its deadline. */
  ghost predicate Due(s: Sys, v: nat) {
    v in s.list && v < |s.vms| && s.vms[v].vdeadline <= s.clock
  }

  /** p_task_lookup prefers the VM at position `k` to the one at position `p`. */
  ghost predicate Prefers(s: Sys, k: nat, p: nat)
    requires k < |s.list| && p < |s.list| && s.list[k] < |s.vms| && s.list[p] < |s.vms|
  {
    k != p && var (a, b) := (s.vms[s.list[k]].vdeadline, s.vms[s.list[p]].vdeadline); if k < p then a <= b else a < b
  }

  /** VM `w` waits ahead of VM `v`. */
  ghost predicate IsAhead(s: Sys, w: nat, v: nat) {
    exists k: nat, p: nat :: WaitsAt(s, w, k) && WaitsAt(s, v, p) && Prefers(s, k, p)
  }

  /** The waiting VMs keep their deadlines. */
  ghost predicate SameDeadlines(s: Sys, t: Sys) {
    |t.vms| == |s.vms| && forall v :: v in s.list && v < |s.vms| ==> t.vms[v].vdeadline == s.vms[v].vdeadline
  }

  /** Whoever is ahead after a VM has been taken was ahead before. */
  lemma TakeAhead(s: Sys, k0: nat, t: Sys, w: nat, v: nat)
    requires k0 < |s.list| && t.list == s.list[..k0] + s.list[k0 + 1..] && SameDeadlines(s, t) && IsAhead(t, w, v)
    ensures IsAhead(s, w, v)
  {
    var k: nat, p: nat :| WaitsAt(t, w, k) && WaitsAt(t, v, p) && Prefers(t, k, p);
    var k2, p2 := if k < k0 then k else k + 1, if p < k0 then p else p + 1;
    assert WaitsAt(s, w, k2) && WaitsAt(s, v, p2) && Prefers(s, k2, p2);
  }

  lemma QuietAhead(s: Sys, t: Sys, w: nat, v: nat)
    requires t.list == s.list && SameDeadlines(s, t) && IsAhead(t, w, v)
    ensures IsAhead(s, w, v)
  {
    var k: nat, p: nat :| WaitsAt(t, w, k) && WaitsAt(t, v, p) && Prefers(t, k, p);
    assert WaitsAt(s, w, k) && WaitsAt(s, v, p) && Prefers(s, k, p);
  }

  /** A VM linked with a later deadline is not ahead of one that was due, and nobody else comes to be. */
  lemma LinkAhead(s: Sys, u: nat, t: Sys, w: nat, v: nat)
    requires Due(s, v) && u < |s.vms| && u !in s.list && t.list == [u] + s.list && t.vms == s.vms
    requires t.vms[u].vdeadline > s.clock && IsAhead(t, w, v)
    ensures IsAhead(s, w, v)
  {
    var k: nat, p: nat :| WaitsAt(t, w, k) && WaitsAt(t, v, p) && Prefers(t, k, p);
    assert p > 0 && k > 0;
    assert WaitsAt(s, w, k - 1) && WaitsAt(s, v, p - 1) && Prefers(s, k - 1, p - 1);
  }

  lemma CountsAgree(a: seq<Entry>, b: seq<Entry>, d: nat)
    requires |a| == |b| && forall i :: 0 <= i < |a| ==> a[i].vdeadline == b[i].vdeadline
    ensures UpTo(a, d) == UpTo(b, d) && Under(a, d) == Under(b, d)
  {
    if a != [] {
      CountsAgree(a[..|a| - 1], b[..|b| - 1], d);
    }
  }

  lemma AheadAgrees(a: seq<Entry>, b: seq<Entry>, p: nat)
    requires |a| == |b| && p < |a| && forall i :: 0 <= i < |a| ==> a[i].vdeadline == b[i].vdeadline
    ensures Ahead(a, p) == Ahead(b, p)
  {
    CountsAgree(a[..p], b[..p], a[p].vdeadline);
    CountsAgree(a[p + 1..], b[p + 1..], a[p].vdeadline);
  }

  ghost function Wait(s: Sys, p: nat): nat
    requires p < |s.list|
  {
    Ahead(Waiting(s), p)
  }

  lemma EntriesOf(s: Sys, i: nat)
    requires Exclusive(s) && Sound(s) && i < |s.list|
    ensures s.list[i] < |s.vms| && Waiting(s)[i].vdeadline == s.vms[s.list[i]].vdeadline && Waiting(s)[i].ready > 0
  {
    assert SoundVm(s.vms[s.list[i]]);
  }

  /** The VM that the CPU has taken was ahead. */
  ghost predicate TakesAhead(s: Sys, t: Sys, c: nat, v: nat) {
    exists w: nat :: HeldBy(t, c, w) && IsAhead(s, w, v)
  }

  lemma PrefersIsAhead(s: Sys, k: nat, p: nat)
    requires k < |s.list| && p < |s.list| && s.list[k] < |s.vms| && s.list[p] < |s.vms| && Prefers(s, k, p)
    ensures IsAhead(s, s.list[k], s.list[p])
  {
    assert WaitsAt(s, s.list[k], k) && WaitsAt(s, s.list[p], p);
  }

  /** A CPU takes the VM at position `k`. */
  lemma TakeStep(cfg: Config, s: Sys, c: nat, k: nat, t: Sys, v: nat, p: nat) returns (r: nat)
    requires Exclusive(s) && Sound(s) && Exclusive(t) && Sound(t)
    requires WaitsAt(s, v, p) && Due(s, v) && Earliest(Waiting(s), k) && TakeAt(cfg, s, c, k, t)
    ensures Wait(s, p) == 0 ==> HeldBy(t, c, v)
    ensures Wait(s, p) > 0 ==> WaitsAt(t, v, r) && Due(t, v) && Wait(t, r) == Wait(s, p) - 1
    ensures Wait(s, p) > 0 ==> TakesAhead(s, t, c, v) && forall w: nat :: IsAhead(t, w, v) ==> IsAhead(s, w, v)
  {
    hide Exclusive, Sound, Earliest, Ahead, IsAhead;
    AllReady(s);
    TakenWhenFirst(Waiting(s), k, p);
    if Wait(s, p) > 0 {
      EntriesOf(s, k);
      EntriesOf(s, p);
      PrefersIsAhead(s, k, p);
      assert HeldBy(t, c, s.list[k]);
      forall w: nat | IsAhead(t, w, v) ensures IsAhead(s, w, v) {
        TakeAhead(s, k, t, w, v);
      }
    }
    r := if k < p then p - 1 else p;
    if k != p {
      TakingFromAhead(Waiting(s), k, p);
      var left := Waiting(s)[..k] + Waiting(s)[k + 1..];
      forall i | 0 <= i < |t.list| ensures left[i].vdeadline == Waiting(t)[i].vdeadline {
        EntriesOf(t, i);
        EntriesOf(s, if i < k then i else i + 1);
      }
      AheadAgrees(left, Waiting(t), r);
    }
  }

  /** A tick is shorter than every VM's distance to its next deadline. */
  ghost predicate ShortTick(cfg: Config, s: Sys) {
    forall v :: 0 <= v < |s.vms| ==> cfg.tick < s.vms[v].diff
  }

  /** TIMER_WAIT once timer_init has set it to one second. */
  const TIMER_WAIT := 1000

  /** With the interval, the ratios and the timer of the source, ticks are short. */
  lemma SourceTickIsShort(cfg: Config, s: Sys)
    requires cfg.tick == TIMER_WAIT
    requires forall v :: 0 <= v < |s.vms| ==> exists prio: nat :: s.vms[v].diff == DeadlineDiff(prio)
    ensures ShortTick(cfg, s)
  {
    forall v | 0 <= v < |s.vms| ensures cfg.tick < s.vms[v].diff {
      var prio: nat :| s.vms[v].diff == DeadlineDiff(prio);
      DeadlineDiffGrows(prio, prio + 1);
    }
  }

  /** However late the deadline of a VM has been computed, it lies after the clock when the VM is linked. */
  lemma LinkedLater(cfg: Config, s: Sys, c: nat)
    requires Barred(s) && Clocked(cfg, s) && ShortTick(cfg, s) && Holds(s, c, Releasing)
    ensures s.vms[s.cpus[c].vm].vdeadline > s.clock
  {
    assert ClockedAt(cfg, s, c);
  }

  /** A CPU links a VM that it gives up: the new deadline lies after that of the VM that is due. */
  lemma LinkingStep(cfg: Config, s: Sys, c: nat, t: Sys, v: nat, p: nat)
    requires Exclusive(s) && Sound(s) && Exclusive(t) && Sound(t) && Barred(s) && Clocked(cfg, s) && ShortTick(cfg, s)
    requires WaitsAt(s, v, p) && Due(s, v) && LinkStep(s, c, t)
    ensures WaitsAt(t, v, p + 1) && Due(t, v) && Wait(t, p + 1) == Wait(s, p)
    ensures forall w: nat :: IsAhead(t, w, v) ==> IsAhead(s, w, v)
  {
    hide Sound, Ahead, IsAhead, Clocked, ShortTick, Barrier.Inv;
    var u := s.cpus[c].vm;
    assert HeldBy(s, c, u);
    LinkedLater(cfg, s, c);
    EntriesOf(t, 0);
    EntriesOf(s, p);
    InsertingBehind(Waiting(s), Waiting(t)[0], p);
    var more := [Waiting(t)[0]] + Waiting(s);
    forall i | 0 <= i < |t.list| ensures more[i].vdeadline == Waiting(t)[i].vdeadline {
      EntriesOf(t, i);
      if i > 0 {
        EntriesOf(s, i - 1);
      }
    }
    AheadAgrees(more, Waiting(t), p + 1);
    forall w: nat | IsAhead(t, w, v) ensures IsAhead(s, w, v) {
      LinkAhead(s, u, t, w, v);
    }
  }

  lemma QuietDeadlines(cfg: Config, s: Sys, e: Event, t: Sys)
    requires Exclusive(s) && Step(cfg, s, e, t) && !e.Take? && !e.Link?
    ensures t.list == s.list && SameDeadlines(s, t) && t.clock >= s.clock
  {
    hide WF, Runnable, Unused, Barrier.Step;
    assert s.cpus[e.cpu].Holding? ==> HeldBy(s, e.cpu, s.cpus[e.cpu].vm);
  }

  /** Any other step leaves the list and the deadlines in it alone. */
  lemma QuietStep(cfg: Config, s: Sys, e: Event, t: Sys, v: nat, p: nat)
    requires Exclusive(s) && Sound(s) && Exclusive(t) && Sound(t)
    requires WaitsAt(s, v, p) && Due(s, v) && Step(cfg, s, e, t) && !e.Take? && !e.Link?
    ensures WaitsAt(t, v, p) && Due(t, v) && Wait(t, p) == Wait(s, p)
    ensures forall w: nat :: IsAhead(t, w, v) ==> IsAhead(s, w, v)
  {
    hide Step, Sound, Exclusive, Ahead, IsAhead;
    QuietDeadlines(cfg, s, e, t);
    forall w: nat | IsAhead(t, w, v) ensures IsAhead(s, w, v) {
      QuietAhead(s, t, w, v);
    }
    forall i | 0 <= i < |t.list| ensures Waiting(s)[i].vdeadline == Waiting(t)[i].vdeadline {
      EntriesOf(t, i);
      EntriesOf(s, i);
    }
    EntriesOf(s, p);
    AheadAgrees(Waiting(s), Waiting(t), p);
  }

  lemma WaitingStep(cfg: Config, s: Sys, e: Event, t: Sys, v: nat, p: nat) returns (r: nat)
    requires Exclusive(s) && Sound(s) && Barred(s) && Clocked(cfg, s) && ShortTick(cfg, s)
    requires WaitsAt(s, v, p) && Due(s, v) && Step(cfg, s, e, t)
    ensures e.Take? && Wait(s, p) == 0 ==> HeldBy(t, e.cpu, v)
    ensures !(e.Take? && Wait(s, p) == 0) ==>
      WaitsAt(t, v, r) && Due(t, v) && Wait(t, r) == Wait(s, p) - if e.Take? then 1 else 0
    ensures e.Take? && Wait(s, p) > 0 ==> TakesAhead(s, t, e.cpu, v)
    ensures !(e.Take? && Wait(s, p) == 0) ==> forall w: nat :: IsAhead(t, w, v) ==> IsAhead(s, w, v)
  {
    hide Exclusive, Sound, Earliest, Wait, Due, IsAhead, TakesAhead, Barred, Clocked, ShortTick, TickStep, PassStep,
      ReschedStep, DispatchStep, StartStep, LinkStep, TakeAt, WaitsAt, HeldBy;
    StepExclusive(cfg, s, e, t);
    StepSound(cfg, s, e, t);
    if e.Take? {
      var k: nat :| Earliest(Waiting(s), k) && TakeAt(cfg, s, e.cpu, k, t);
      r := TakeStep(cfg, s, e.cpu, k, t, v, p);
    } else if e.Link? {
      LinkingStep(cfg, s, e.cpu, t, v, p);
      r := p + 1;
    } else {
      QuietStep(cfg, s, e, t, v, p);
      r := p;
    }
  }

  /** The VMs taken by events `i` to `j`. */
  function Takes(events: seq<Event>, i: nat, j: nat): nat
    requires i <= j <= |events|
  {
    if i == j then 0 else Takes(events, i, j - 1) + if events[j - 1].Take? then 1 else 0
  }

  /** Event `m` takes a VM that was ahead in state `i`. */
  ghost predicate TakesOneAhead(states: seq<Sys>, events: seq<Event>, i: nat, m: nat, v: nat)
    requires i <= m < |events| && |states| == |events| + 1
  {
    exists w: nat :: HeldBy(states[m + 1], events[m].cpu, w) && IsAhead(states[i], w, v)
  }

  /**
   * Bounded bypass: once the clock has reached the deadline of a waiting VM, every VM taken before it
   * is one that was ahead of it then, nobody comes to be ahead later, and when those are used up the
   * next one taken is the VM itself. So fewer than |vms| VMs are taken before it. The deadline of a VM
   * that is given up can be a tick old when the VM is linked, so a tick must be shorter than the
   * distance of deadlines.
   */
  lemma {:induction false} BoundedBypass(cfg: Config, states: seq<Sys>, events: seq<Event>, i: nat, j: nat, v: nat, p: nat)
    returns (r: nat)
    requires Run(cfg, states, events) && i <= j <= |events| && ShortTick(cfg, states[0])
    requires WaitsAt(states[i], v, p) && Due(states[i], v)
    requires Takes(events, i, j) <= Wait(states[i], p)
    ensures WaitsAt(states[j], v, r) && Due(states[j], v)
    ensures Wait(states[j], r) + Takes(events, i, j) == Wait(states[i], p) < |states[i].vms|
    ensures forall m :: i <= m < j && events[m].Take? ==> TakesOneAhead(states, events, i, m, v)
    ensures forall w: nat :: IsAhead(states[j], w, v) ==> IsAhead(states[i], w, v)
    ensures j < |events| && events[j].Take? && Takes(events, i, j) == Wait(states[i], p) ==>
              HeldBy(states[j + 1], events[j].cpu, v)
    decreases j
  {
    hide Step, Exclusive, Sound, Initial, Wait, Due, WaitsAt, IsAhead, HeldBy, Barred, Clocked;
    RunInvariant(cfg, states, events, j);
    if i == j {
      r := p;
      WaitBound(states[i], v, p);
    } else {
      var q := BoundedBypass(cfg, states, events, i, j - 1, v, p);
      RunInvariant(cfg, states, events, j - 1);
      assert Step(cfg, states[j - 1], events[j - 1], states[j]);
      r := WaitingStep(cfg, states[j - 1], events[j - 1], states[j], v, q);
      assert events[j - 1].Take? ==> TakesOneAhead(states, events, i, j - 1, v);
    }
    if j < |events| {
      assert Step(cfg, states[j], events[j], states[j + 1]);
      var x := WaitingStep(cfg, states[j], events[j], states[j + 1], v, r);
    }
  }

  lemma WaitBound(s: Sys, v: nat, p: nat)
    requires Exclusive(s) && WaitsAt(s, v, p)
    ensures Wait(s, p) < |s.vms|
  {
    CountsBound(Waiting(s)[..p], Waiting(s)[p].vdeadline);
    CountsBound(Waiting(s)[p + 1..], Waiting(s)[p].vdeadline);
  }
}
