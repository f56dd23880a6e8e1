/** The CPU barrier, in both the forms the source has (src/core/inc/cpu.h). */
module Barrier {
  import opened Blocks

  /**
   * Where a CPU is: outside; past the separate increment of cpu_sync_and_clear_msgs but not past its
   * read; or polling the counter for a threshold.
   */
  datatype Phase = Out | Added | Waiting(threshold: nat)

  /** `arrived` counts the increments this CPU has made. */
  datatype Cpu = Cpu(arrived: nat, phase: Phase)

  datatype Token = Token(count: nat, cpus: seq<Cpu>)

  datatype Event = Arrive(cpu: nat) | Add(cpu: nat) | Read(cpu: nat) | Leave(cpu: nat)

  /** The barriers a CPU has left. */
  function Left(c: Cpu): int {
    if c.phase.Out? then c.arrived else c.arrived - 1
  }

  /** The threshold of cpu_sync_barrier: `val` is the value the atomic increment returned. */
  function Threshold(val: nat, n: nat): int
    requires n > 0
  {
    ((val - 1) / n + 1) * n
  }

  /** The ALIGN macro, which cpu_sync_and_clear_msgs applies to a separate read. */
  function Align(val: nat, n: nat): int
    requires n > 0
  {
    (val + n - 1) / n * n
  }

  function Put(s: Token, c: nat, cpu: Cpu): Token
    requires c < |s.cpus|
  {
    s.(cpus := s.cpus[c := cpu])
  }

  ghost predicate Step(s: Token, e: Event, t: Token) {
    var n := |s.cpus|;
    e.cpu < n && var c := s.cpus[e.cpu];
    match e
    case Arrive(i) => c.phase.Out? && Threshold(s.count + 1, n) >= 0 &&
      t == Put(s, i, Cpu(c.arrived + 1, Waiting(Threshold(s.count + 1, n)))).(count := s.count + 1)
    case Add(i) => c.phase.Out? && t == Put(s, i, Cpu(c.arrived + 1, Added)).(count := s.count + 1)
    case Read(i) => c.phase.Added? && Align(s.count, n) >= 0 &&
      t == Put(s, i, Cpu(c.arrived, Waiting(Align(s.count, n))))
    case Leave(i) => c.phase.Waiting? && s.count >= c.phase.threshold && t == Put(s, i, Cpu(c.arrived, Out))
  }

  ghost predicate Initial(s: Token) {
    s.count == 0 && |s.cpus| > 0 && forall c :: 0 <= c < |s.cpus| ==> s.cpus[c] == Cpu(0, Out)
  }

  ghost predicate Run(states: seq<Token>, events: seq<Event>) {
    && |states| == |events| + 1 && Initial(states[0])
    && forall i :: 0 <= i < |events| ==> Step(states[i], events[i], states[i + 1])
  }

  // ------------------------------------------------------------------ arithmetic of rounds

  /** The product of `a` and `k`, by repeated addition; ProductIs says that it is the usual one. */
  function Times(a: nat, k: nat): nat {
    if k == 0 then 0 else Times(a, k - 1) + a
  }

  lemma {:induction false} ProductIs(a: nat, k: nat)
    ensures Times(a, k) == a * k
  {
    if k > 0 {
      ProductIs(a, k - 1);
    }
  }

  lemma {:induction false} TimesNext(a: nat, k: nat)
    ensures Times(a + 1, k) == Times(a, k) + k
  {
    if k > 0 {
      TimesNext(a, k - 1);
    }
  }

  /** For a count inside round `a` + 1 both forms give the end of that round. */
  lemma BothFormsAgree(val: nat, a: nat, n: nat)
    requires n > 0 && Times(a, n) < val <= Times(a, n) + n
    ensures Threshold(val, n) == Align(val, n) == Times(a + 1, n)
  {
    ProductIs(a, n);
    ProductIs(a + 1, n);
    TimesNext(a, n);
    DivisionUnique(val - 1, n, a, val - 1 - a * n);
    DivisionUnique(val + n - 1, n, a + 1, val - 1 - a * n);
  }

  ghost function Sum(cpus: seq<Cpu>, k: nat): nat
    requires k <= |cpus|
  {
    if k == 0 then 0 else Sum(cpus, k - 1) + cpus[k - 1].arrived
  }

  lemma SumChanges(a: seq<Cpu>, b: seq<Cpu>, c: nat, k: nat)
    requires |a| == |b| && c < |a| && k <= |a| && b == a[c := b[c]]
    ensures Sum(b, k) == Sum(a, k) + if c < k then b[c].arrived - a[c].arrived else 0
  {
    if k > 0 {
      SumChanges(a, b, c, k - 1);
    }
  }

  lemma SumAtLeast(cpus: seq<Cpu>, k: nat, a: nat)
    requires k <= |cpus| && forall c :: 0 <= c < k ==> cpus[c].arrived >= a
    ensures Sum(cpus, k) >= Times(a, k)
  {
    if k > 0 {
      SumAtLeast(cpus, k - 1, a);
    }
  }

  /** `d` is short of `a`, and nobody is beyond it. */
  lemma SumAtMost(cpus: seq<Cpu>, k: nat, a: nat, d: nat)
    requires k <= |cpus| && forall c :: 0 <= c < k ==> cpus[c].arrived <= a
    requires d < |cpus| && cpus[d].arrived < a
    ensures Sum(cpus, k) <= Times(a, k) - if d < k then 1 else 0
  {
    if k > 0 {
      SumAtMost(cpus, k - 1, a, d);
    }
  }

  // ------------------------------------------------------------------ invariant

  /** Nobody has left a barrier before everybody arrived at it, and no threshold is below the round's end. */
  ghost predicate Inv(s: Token) {
    && |s.cpus| > 0 && s.count == Sum(s.cpus, |s.cpus|)
    && (forall c, d :: 0 <= c < |s.cpus| && 0 <= d < |s.cpus| ==> Left(s.cpus[c]) <= s.cpus[d].arrived)
    && (forall c :: 0 <= c < |s.cpus| && !s.cpus[c].phase.Out? ==> s.cpus[c].arrived > 0)
    && (forall c :: 0 <= c < |s.cpus| && s.cpus[c].phase.Waiting? ==>
          OwnEnd(s, c) || NextEnd(s, c))
  }

  /** The CPU polls for the end of its own round. */
  ghost predicate OwnEnd(s: Token, c: nat) {
    c < |s.cpus| && s.cpus[c].phase.Waiting? && s.cpus[c].phase.threshold == Times(s.cpus[c].arrived, |s.cpus|)
  }

  /** The CPU polls for the end of the round after its own. */
  ghost predicate NextEnd(s: Token, c: nat) {
    c < |s.cpus| && s.cpus[c].phase.Waiting?
    && s.cpus[c].phase.threshold == Times(s.cpus[c].arrived, |s.cpus|) + |s.cpus|
  }

  /** When a CPU that is outside has arrived `a` times, the count is inside round `a` + 1. */
  lemma CountInRound(s: Token, c: nat)
    requires Inv(s) && c < |s.cpus| && s.cpus[c].phase.Out?
    ensures Times(s.cpus[c].arrived, |s.cpus|) <= s.count < Times(s.cpus[c].arrived, |s.cpus|) + |s.cpus|
  {
    var a, n := s.cpus[c].arrived, |s.cpus|;
    assert Left(s.cpus[c]) == a;
    forall d | 0 <= d < n ensures a <= s.cpus[d].arrived <= a + 1 {
      assert Left(s.cpus[d]) <= s.cpus[c].arrived;
    }
    SumAtLeast(s.cpus, n, a);
    SumAtMost(s.cpus, n, a + 1, c);
    TimesNext(a, n);
  }

  /** Once the count has reached the end of a CPU's round, everybody has arrived for that round. */
  lemma AllArrived(s: Token, c: nat)
    requires Inv(s) && c < |s.cpus| && s.count >= Times(s.cpus[c].arrived, |s.cpus|)
    ensures forall d :: 0 <= d < |s.cpus| ==> s.cpus[d].arrived >= s.cpus[c].arrived
  {
    var a, n := s.cpus[c].arrived, |s.cpus|;
    forall d | 0 <= d < n ensures s.cpus[d].arrived >= a {
      if s.cpus[d].arrived < a {
        forall e | 0 <= e < n ensures s.cpus[e].arrived <= a {
          assert Left(s.cpus[e]) <= s.cpus[d].arrived;
        }
        SumAtMost(s.cpus, n, a, d);
      }
    }
  }

  lemma InRoundThreshold(s: Token, c: nat)
    requires Inv(s) && c < |s.cpus| && s.cpus[c].phase.Out?
    ensures Threshold(s.count + 1, |s.cpus|) == Times(s.cpus[c].arrived + 1, |s.cpus|)
  {
    CountInRound(s, c);
    BothFormsAgree(s.count + 1, s.cpus[c].arrived, |s.cpus|);
  }

  /** A CPU past its own increment has carried the count into its round. */
  lemma CountAfterAdd(s: Token, c: nat)
    requires Inv(s) && c < |s.cpus| && !s.cpus[c].phase.Out?
    ensures s.cpus[c].arrived > 0
    ensures Times(s.cpus[c].arrived - 1, |s.cpus|) < s.count < Times(s.cpus[c].arrived, |s.cpus|) + |s.cpus|
    ensures Times(s.cpus[c].arrived, |s.cpus|) == Times(s.cpus[c].arrived - 1, |s.cpus|) + |s.cpus|
  {
    var a, n := s.cpus[c].arrived, |s.cpus|;
    assert a > 0 && Left(s.cpus[c]) == a - 1;
    forall d | 0 <= d < n ensures a - 1 <= s.cpus[d].arrived <= a + 1 {
      assert Left(s.cpus[c]) <= s.cpus[d].arrived;
      assert Left(s.cpus[d]) <= s.cpus[c].arrived;
    }
    assert s.count == Sum(s.cpus, n);
    hide Inv, Left, Sum;
    SumAbove(s.cpus, n, a - 1, c);
    SumAtMost(s.cpus, n, a + 1, c);
    TimesNext(a - 1, n);
    TimesNext(a, n);
  }

  /**
   * The separate read comes after the CPU's own increment, so it cannot align to an earlier round;
   * it aligns to the next round exactly when the count has already passed the end of its own.
   */
  lemma ReadThreshold(s: Token, c: nat)
    requires Inv(s) && c < |s.cpus| && s.cpus[c].phase.Added?
    ensures var end := Times(s.cpus[c].arrived, |s.cpus|);
            Align(s.count, |s.cpus|) == if s.count <= end then end else end + |s.cpus|
  {
    var a, n := s.cpus[c].arrived, |s.cpus|;
    CountAfterAdd(s, c);
    hide Inv;
    if s.count <= Times(a, n) {
      BothFormsAgree(s.count, a - 1, n);
    } else {
      BothFormsAgree(s.count, a, n);
      TimesNext(a, n);
    }
  }

  lemma SumAbove(cpus: seq<Cpu>, k: nat, a: nat, d: nat)
    requires k <= |cpus| && forall c :: 0 <= c < |cpus| ==> cpus[c].arrived >= a
    requires d < |cpus| && cpus[d].arrived > a
    ensures Sum(cpus, k) >= Times(a, k) + if d < k then 1 else 0
  {
    if k > 0 {
      SumAbove(cpus, k - 1, a, d);
    }
  }

  lemma InitialInv(s: Token)
    requires Initial(s)
    ensures Inv(s)
  {
    SumZero(s.cpus, |s.cpus|);
  }

  lemma SumZero(cpus: seq<Cpu>, k: nat)
    requires k <= |cpus| && forall c :: 0 <= c < |cpus| ==> cpus[c].arrived == 0
    ensures Sum(cpus, k) == 0
  {
  }

  /** A CPU that is outside arrives, in one atomic step or in two. */
  lemma ArrivalInv(s: Token, c: nat, t: Token, p: Phase)
    requires Inv(s) && c < |s.cpus| && s.cpus[c].phase.Out?
    requires t == Put(s, c, Cpu(s.cpus[c].arrived + 1, p)).(count := s.count + 1)
    requires p == Added || p == Waiting(Times(s.cpus[c].arrived + 1, |s.cpus|))
    ensures Inv(t)
  {
    SumChanges(s.cpus, t.cpus, c, |s.cpus|);
  }

  lemma ReadInv(s: Token, c: nat, t: Token)
    requires Inv(s) && c < |s.cpus| && s.cpus[c].phase.Added?
    requires |t.cpus| == |s.cpus| && t == Put(s, c, Cpu(s.cpus[c].arrived, t.cpus[c].phase))
    requires OwnEnd(t, c) || NextEnd(t, c)
    ensures Inv(t)
  {
    SumChanges(s.cpus, t.cpus, c, |s.cpus|);
  }

  lemma LeaveInv(s: Token, c: nat, t: Token)
    requires Inv(s) && Step(s, Leave(c), t)
    ensures Inv(t)
  {
    SumChanges(s.cpus, t.cpus, c, |s.cpus|);
    AllArrived(s, c);
  }

  lemma StepInv(s: Token, e: Event, t: Token)
    requires Inv(s) && Step(s, e, t)
    ensures Inv(t) && |t.cpus| == |s.cpus|
  {
    hide Threshold, Align, Inv;
    match e {
      case Arrive(c) =>
        InRoundThreshold(s, c);
        ArrivalInv(s, c, t, t.cpus[c].phase);
      case Add(c) =>
        ArrivalInv(s, c, t, Added);
      case Read(c) =>
        ReadThreshold(s, c);
        ReadInv(s, c, t);
      case Leave(c) =>
        LeaveInv(s, c, t);
    }
  }

  lemma {:induction false} RunInv(states: seq<Token>, events: seq<Event>, i: nat)
    requires Run(states, events) && i <= |events|
    ensures Inv(states[i]) && |states[i].cpus| == |states[0].cpus|
  {
    hide Inv, Step, Initial;
    if i == 0 {
      InitialInv(states[0]);
    } else {
      RunInv(states, events, i - 1);
      assert Step(states[i - 1], events[i - 1], states[i]);
      StepInv(states[i - 1], events[i - 1], states[i]);
    }
  }

  // ------------------------------------------------------------------ results

  /**
   * Safety, for any number of CPUs and both forms: no CPU has left its k-th barrier before every CPU
   * has made its k-th arrival, and the arrivals never differ by more than one.
   */
  lemma NobodyLeavesEarly(states: seq<Token>, events: seq<Event>, i: nat, c: nat, d: nat)
    requires Run(states, events) && i <= |events| && c < |states[i].cpus| && d < |states[i].cpus|
    ensures Left(states[i].cpus[c]) <= states[i].cpus[d].arrived
    ensures states[i].cpus[c].arrived <= states[i].cpus[d].arrived + 1
  {
    RunInv(states, events, i);
  }

  /** A waiting CPU can leave exactly when everybody has arrived, if it polls for its own round; else it cannot leave. */
  lemma ReleasedWhenAllArrived(s: Token, c: nat)
    requires Inv(s) && c < |s.cpus| && s.cpus[c].phase.Waiting?
    ensures OwnEnd(s, c) ==>
      ((exists t :: Step(s, Leave(c), t)) <==> forall d :: 0 <= d < |s.cpus| ==> s.cpus[d].arrived >= s.cpus[c].arrived)
  {
    if forall d :: 0 <= d < |s.cpus| ==> s.cpus[d].arrived >= s.cpus[c].arrived {
      SumAtLeast(s.cpus, |s.cpus|, s.cpus[c].arrived);
      if OwnEnd(s, c) {
        assert Step(s, Leave(c), Put(s, c, Cpu(s.cpus[c].arrived, Out)));
      }
    } else if OwnEnd(s, c) && s.count >= s.cpus[c].phase.threshold {
      AllArrived(s, c);
    }
  }

  /** cpu_sync_barrier always polls for its own round; the separate read does so only if nobody is a round ahead yet. */
  lemma WhoPollsForOwnRound(s: Token, e: Event, t: Token)
    requires Inv(s) && Step(s, e, t)
    ensures e.Arrive? ==> OwnEnd(t, e.cpu)
    ensures e.Read? ==> (OwnEnd(t, e.cpu) <==> forall d :: 0 <= d < |s.cpus| ==> s.cpus[d].arrived <= s.cpus[e.cpu].arrived)
  {
    if e.Arrive? {
      InRoundThreshold(s, e.cpu);
    } else if e.Read? {
      var a, n := s.cpus[e.cpu].arrived, |s.cpus|;
      ReadThreshold(s, e.cpu);
      if d :| 0 <= d < n && s.cpus[d].arrived > a {
        assert Left(s.cpus[d]) >= a;
        forall c | 0 <= c < n ensures s.cpus[c].arrived >= a {
          assert Left(s.cpus[d]) <= s.cpus[c].arrived;
        }
        SumAbove(s.cpus, n, a, d);
      } else if s.count > Times(a, n) {
        SumUpTo(s.cpus, n, a);
      }
    }
  }

  lemma SumUpTo(cpus: seq<Cpu>, k: nat, a: nat)
    requires k <= |cpus| && forall c :: 0 <= c < |cpus| ==> cpus[c].arrived <= a
    ensures Sum(cpus, k) <= Times(a, k)
  {
    if k > 0 {
      SumUpTo(cpus, k - 1, a);
    }
  }

  /** A CPU that polls for the next round can never leave, whatever the CPUs do from then on. */
  lemma {:induction false} NextEndIsForever(states: seq<Token>, events: seq<Event>, i: nat, j: nat, c: nat)
    requires Run(states, events) && i <= j <= |events| && NextEnd(states[i], c)
    ensures NextEnd(states[j], c) && states[j].cpus[c] == states[i].cpus[c]
    decreases j
  {
    if i < j {
      NextEndIsForever(states, events, i, j - 1, c);
      RunInv(states, events, j - 1);
      RunInv(states, events, j);
      assert Step(states[j - 1], events[j - 1], states[j]);
      CountAfterAdd(states[j - 1], c);
    }
  }

  /**
   * Exactly when a waiting CPU can be released: if it polls for its own round, as soon as everybody
   * has arrived; if it does not, never.
   */
  lemma ReleasedExactlyWhen(states: seq<Token>, events: seq<Event>, i: nat, c: nat)
    requires Run(states, events) && i <= |events| && c < |states[i].cpus| && states[i].cpus[c].phase.Waiting?
    ensures (exists t :: Step(states[i], Leave(c), t)) <==>
      OwnEnd(states[i], c)
      && forall d :: 0 <= d < |states[i].cpus| ==> states[i].cpus[d].arrived >= states[i].cpus[c].arrived
  {
    RunInv(states, events, i);
    ReleasedWhenAllArrived(states[i], c);
    CountAfterAdd(states[i], c);
  }

  /**
   * In every run of cpu_sync_barrier alone, all waiters are released once the last CPU arrives: a
   * waiting CPU can leave if and only if everybody has arrived at its barrier.
   */
  lemma BarrierReleases(states: seq<Token>, events: seq<Event>, i: nat, c: nat)
    requires Run(states, events) && (forall j :: 0 <= j < |events| ==> events[j].Arrive? || events[j].Leave?)
    requires i <= |events| && c < |states[i].cpus| && states[i].cpus[c].phase.Waiting?
    ensures (exists t :: Step(states[i], Leave(c), t))
       <==> forall d :: 0 <= d < |states[i].cpus| ==> states[i].cpus[d].arrived >= states[i].cpus[c].arrived
  {
    ReleasedExactlyWhen(states, events, i, c);
    AtomicOwnEnd(states, events, i, c);
  }

  lemma {:induction false} AtomicOwnEnd(states: seq<Token>, events: seq<Event>, i: nat, c: nat)
    requires Run(states, events) && (forall j :: 0 <= j < |events| ==> events[j].Arrive? || events[j].Leave?)
    requires i <= |events| && c < |states[i].cpus|
    ensures !states[i].cpus[c].phase.Added?
    ensures states[i].cpus[c].phase.Waiting? ==> OwnEnd(states[i], c)
  {
    if i > 0 {
      RunInv(states, events, i - 1);
      assert Step(states[i - 1], events[i - 1], states[i]);
      AtomicOwnEnd(states, events, i - 1, c);
      hide Inv, Threshold;
      WhoPollsForOwnRound(states[i - 1], events[i - 1], states[i]);
    }
  }

  ghost predicate Reachable(s: Token) {
    exists states, events :: Run(states, events) && states[|events|] == s
  }

  lemma ReachStep(s: Token, e: Event, t: Token)
    requires Reachable(s) && Step(s, e, t)
    ensures Reachable(t)
  {
    hide Step, Initial;
    var states, events :| Run(states, events) && states[|events|] == s;
    var more, also := states + [t], events + [e];
    forall i | 0 <= i < |also| ensures Step(more[i], also[i], more[i + 1]) {
      assert i < |events| ==> Step(states[i], events[i], states[i + 1]);
    }
    assert Run(more, also) && more[|also|] == t;
  }

  lemma ReachPair(count: nat, a: Cpu, b: Cpu, e: Event, t: Token)
    requires Reachable(Token(count, [a, b])) && Step(Token(count, [a, b]), e, t)
    ensures Reachable(t)
  {
    ReachStep(Token(count, [a, b]), e, t);
  }

  lemma InitialReachable(s: Token)
    requires Initial(s)
    ensures Reachable(s)
  {
    var states, events: seq<Event> := [s], [];
    assert Run(states, events) && states[|events|] == s;
  }

  lemma Rounds()
    ensures Threshold(1, 2) == Threshold(2, 2) == 2 && Threshold(5, 2) == 6 && Align(4, 2) == 4 && Align(5, 2) == 6
  {
  }

  lemma TwoCpus()
    ensures Reachable(Token(0, [Cpu(0, Out), Cpu(0, Out)]))
  {
    InitialReachable(Token(0, [Cpu(0, Out), Cpu(0, Out)]));
  }

  lemma OneArrives()
    ensures Reachable(Token(1, [Cpu(1, Waiting(2)), Cpu(0, Out)]))
  {
    TwoCpus();
    Rounds();
    hide Reachable, Threshold, Align;
    assert [Cpu(0, Out), Cpu(0, Out)][0 := Cpu(1, Waiting(2))] == [Cpu(1, Waiting(2)), Cpu(0, Out)];
    ReachPair(0, Cpu(0, Out), Cpu(0, Out), Arrive(0), Token(1, [Cpu(1, Waiting(2)), Cpu(0, Out)]));
  }

  lemma BothArrive()
    ensures Reachable(Token(2, [Cpu(1, Waiting(2)), Cpu(1, Waiting(2))]))
  {
    OneArrives();
    Rounds();
    hide Reachable, Threshold, Align;
    ReachPair(1, Cpu(1, Waiting(2)), Cpu(0, Out), Arrive(1), Token(2, [Cpu(1, Waiting(2)), Cpu(1, Waiting(2))]));
  }

  lemma OpeningBarrier()
    ensures Reachable(Token(2, [Cpu(1, Out), Cpu(1, Out)]))
  {
    BothArrive();
    hide Reachable, Threshold, Align;
    ReachPair(2, Cpu(1, Waiting(2)), Cpu(1, Waiting(2)), Leave(0), Token(2, [Cpu(1, Out), Cpu(1, Waiting(2))]));
    ReachPair(2, Cpu(1, Out), Cpu(1, Waiting(2)), Leave(1), Token(2, [Cpu(1, Out), Cpu(1, Out)]));
  }

  lemma MiddleBarrier()
    ensures Reachable(Token(4, [Cpu(2, Out), Cpu(2, Added)]))
  {
    OpeningBarrier();
    Rounds();
    hide Reachable, Threshold, Align;
    ReachPair(2, Cpu(1, Out), Cpu(1, Out), Add(0), Token(3, [Cpu(2, Added), Cpu(1, Out)]));
    ReachPair(3, Cpu(2, Added), Cpu(1, Out), Add(1), Token(4, [Cpu(2, Added), Cpu(2, Added)]));
    ReachPair(4, Cpu(2, Added), Cpu(2, Added), Read(0), Token(4, [Cpu(2, Waiting(4)), Cpu(2, Added)]));
    ReachPair(4, Cpu(2, Waiting(4)), Cpu(2, Added), Leave(0), Token(4, [Cpu(2, Out), Cpu(2, Added)]));
  }

  /**
   * Two CPUs in cpu_sync_and_clear_msgs: both have added in its middle part, the first reads, leaves
   * and arrives at the closing barrier before the second reads. The second then polls for the
   * closing barrier's round, as the first does, and no step at all is possible any more.
   */
  lemma LateReadDeadlocks() returns (s: Token)
    ensures Reachable(s) && |s.cpus| == 2 && NextEnd(s, 1)
    ensures forall e, t :: !Step(s, e, t)
  {
    MiddleBarrier();
    Rounds();
    hide Reachable, Threshold, Align;
    ReachPair(4, Cpu(2, Out), Cpu(2, Added), Arrive(0), Token(5, [Cpu(3, Waiting(6)), Cpu(2, Added)]));
    s := Token(5, [Cpu(3, Waiting(6)), Cpu(2, Waiting(6))]);
    ReachPair(5, Cpu(3, Waiting(6)), Cpu(2, Added), Read(1), s);
  }
}
