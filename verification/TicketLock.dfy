/** The ticket lock, one load or store at a time (src/lib/inc/spinlock.h). */
module TicketLock {
  const W := 0x1_0000_0000

  /**
   * Where a CPU is. Loaded is between the exclusive load and store of `ticket`; `exclusive` says
   * that its monitor is still set. Unlocking is between the load and the store of `next`.
   */
  datatype Cpu =
    | Idle
    | Loaded(value: nat, exclusive: bool)
    | Waiting(mine: nat)
    | Critical
    | Unlocking(value: nat)

  /**
   * The two words of the lock and the CPUs, with the history of the run: the CPUs in the order their
   * tickets were stored, the CPUs in the order they entered, and the number of unlocks finished.
   */
  datatype Lock = Lock(ticket: nat, next: nat, cpus: seq<Cpu>, taken: seq<nat>, entered: seq<nat>, unlocks: nat)

  datatype Event =
    | LoadTicket(cpu: nat)
    | StoreTicket(cpu: nat)
    | StoreFails(cpu: nat)
    | Poll(cpu: nat)
    | LoadNext(cpu: nat)
    | StoreNext(cpu: nat)

  function Put(s: Lock, c: nat, cpu: Cpu): Lock
    requires c < |s.cpus|
  {
    s.(cpus := s.cpus[c := cpu])
  }

  /** A store to `ticket` clears every other monitor set for it. */
  function Disturbed(cpus: seq<Cpu>): (r: seq<Cpu>)
    ensures |r| == |cpus|
  {
    seq(|cpus|, i requires 0 <= i < |cpus| => if cpus[i].Loaded? then cpus[i].(exclusive := false) else cpus[i])
  }

  ghost predicate Step(s: Lock, e: Event, t: Lock) {
    e.cpu < |s.cpus| && var cpu := s.cpus[e.cpu];
    match e
    case LoadTicket(c) => cpu.Idle? && t == Put(s, c, Loaded(s.ticket, true))
    case StoreTicket(c) => cpu.Loaded? && cpu.exclusive &&
      t == s.(ticket := (cpu.value + 1) % W, cpus := Disturbed(s.cpus)[c := Waiting(cpu.value)],
              taken := s.taken + [c])
    case StoreFails(c) => cpu.Loaded? && t == Put(s, c, Idle)
    case Poll(c) => cpu.Waiting? &&
      t == if s.next == cpu.mine then Put(s, c, Critical).(entered := s.entered + [c]) else s
    case LoadNext(c) => cpu.Critical? && t == Put(s, c, Unlocking(s.next))
    case StoreNext(c) =>
      cpu.Unlocking? && t == Put(s, c, Idle).(next := (cpu.value + 1) % W, unlocks := s.unlocks + 1)
  }

  ghost predicate Initial(s: Lock) {
    && s.ticket == s.next == s.unlocks == 0 && s.taken == s.entered == [] && |s.cpus| < W
    && forall c :: 0 <= c < |s.cpus| ==> s.cpus[c] == Idle
  }

  ghost predicate Run(states: seq<Lock>, events: seq<Event>) {
    && |states| == |events| + 1 && Initial(states[0])
    && forall i :: 0 <= i < |events| ==> Step(states[i], events[i], states[i + 1])
  }

  // ------------------------------------------------------------------ invariant

  /** CPU `c` holds ticket number `k`, which is not yet unlocked. */
  ghost predicate Holds(s: Lock, c: nat, k: int) {
    s.unlocks <= k < |s.taken| && s.taken[k] == c
  }

  ghost predicate Inside(cpu: Cpu) {
    cpu.Critical? || cpu.Unlocking?
  }

  /** What a CPU that holds ticket number `k` is doing: inside if the ticket is called, else waiting with its low bits. */
  ghost predicate HolderOk(s: Lock, c: nat, k: int) {
    c < |s.cpus| &&
    if k < |s.entered| then Inside(s.cpus[c]) && (s.cpus[c].Unlocking? ==> s.cpus[c].value == s.next)
    else s.cpus[c].Waiting? && s.cpus[c].mine == k % W
  }

  /** Tickets are entered in the order taken, one at a time; the words are the counts' low 32 bits. */
  ghost predicate Inv(s: Lock) {
    && |s.cpus| < W
    && s.entered <= s.taken && s.unlocks <= |s.entered| <= s.unlocks + 1
    && s.ticket == |s.taken| % W && s.next == s.unlocks % W
    && (forall c, k :: Holds(s, c, k) ==> HolderOk(s, c, k))
    && (forall c, j, k :: Holds(s, c, j) && Holds(s, c, k) ==> j == k)
    && (forall c :: 0 <= c < |s.cpus| && (Inside(s.cpus[c]) || s.cpus[c].Waiting?) ==> exists k :: Holds(s, c, k))
    && (forall c :: 0 <= c < |s.cpus| && s.cpus[c].Loaded? && s.cpus[c].exclusive ==> s.cpus[c].value == s.ticket)
  }

  lemma DistinctBelow(a: seq<nat>, n: nat)
    requires forall i :: 0 <= i < |a| ==> a[i] < n
    requires forall i, j :: 0 <= i < j < |a| ==> a[i] != a[j]
    ensures |a| <= n
    decreases n
  {
    if a != [] {
      assert a[0] < n;
      if n - 1 in a {
        var k :| 0 <= k < |a| && a[k] == n - 1;
        var b := a[..k] + a[k + 1..];
        assert forall i :: 0 <= i < |b| ==> b[i] == a[if i < k then i else i + 1];
        DistinctBelow(b, n - 1);
      } else {
        DistinctBelow(a, n - 1);
      }
    }
  }

  /** There are no more tickets out than CPUs, so their low 32 bits tell them apart. */
  lemma FewTickets(s: Lock)
    requires Inv(s)
    ensures |s.taken| - s.unlocks <= |s.cpus|
  {
    var out := s.taken[s.unlocks..];
    forall i | 0 <= i < |out| ensures out[i] < |s.cpus| && Holds(s, out[i], s.unlocks + i) {
      assert out[i] == s.taken[s.unlocks + i] && Holds(s, out[i], s.unlocks + i);
      assert HolderOk(s, out[i], s.unlocks + i);
    }
    DistinctBelow(out, |s.cpus|);
  }

  /** A waiting CPU that reads its own ticket from `next` is the one whose turn it is. */
  lemma PollIsTurn(s: Lock, c: nat) returns (k: int)
    requires Inv(s) && c < |s.cpus| && s.cpus[c].Waiting?
    ensures Holds(s, c, k) && k >= |s.entered| && s.cpus[c].mine == k % W
    ensures s.cpus[c].mine == s.next <==> k == s.unlocks
  {
    k :| Holds(s, c, k);
    assert HolderOk(s, c, k);
    FewTickets(s);
    SameLowBits(s.unlocks, k);
  }

  lemma SameLowBits(a: nat, b: nat)
    requires a <= b < a + W
    ensures a % W == b % W <==> a == b
  {
  }

  lemma NextWord(n: nat)
    ensures (n % W + 1) % W == (n + 1) % W
  {
  }

  lemma StoreTicketInv(s: Lock, c: nat, t: Lock)
    requires Inv(s) && Step(s, StoreTicket(c), t)
    ensures Inv(t)
  {
    NextWord(|s.taken|);
    assert s.ticket == |s.taken| % W && t.ticket == |t.taken| % W;
    forall d, k | Holds(t, d, k) ensures HolderOk(t, d, k) && (Holds(s, d, k) || (d == c && k == |s.taken|)) {
      if k < |s.taken| {
        assert Holds(s, d, k) && HolderOk(s, d, k);
      }
    }
    forall d | 0 <= d < |t.cpus| && (Inside(t.cpus[d]) || t.cpus[d].Waiting?) ensures exists k :: Holds(t, d, k) {
      if d == c {
        assert Holds(t, c, |s.taken|);
      } else {
        var k :| Holds(s, d, k);
        assert Holds(t, d, k);
      }
    }
    assert forall k :: !Holds(s, c, k) by {
      forall k ensures !Holds(s, c, k) {
        assert Holds(s, c, k) ==> HolderOk(s, c, k);
      }
    }
  }

  lemma EnterInv(s: Lock, c: nat, t: Lock)
    requires Inv(s) && Step(s, Poll(c), t) && t != s
    ensures Inv(t)
  {
    var n := PollIsTurn(s, c);
    assert |s.entered| == s.unlocks && s.taken[s.unlocks] == c;
    forall d, k | Holds(t, d, k) ensures HolderOk(t, d, k) && Holds(s, d, k) {
      assert Holds(s, d, k) && HolderOk(s, d, k);
    }
    forall d | 0 <= d < |t.cpus| && (Inside(t.cpus[d]) || t.cpus[d].Waiting?) ensures exists k :: Holds(t, d, k) {
      var k :| Holds(s, d, k);
      assert Holds(t, d, k);
    }
  }

  lemma StoreNextInv(s: Lock, c: nat, t: Lock)
    requires Inv(s) && Step(s, StoreNext(c), t)
    ensures Inv(t)
  {
    var n :| Holds(s, c, n);
    assert HolderOk(s, c, n) && n == s.unlocks;
    forall d, k | Holds(t, d, k) ensures HolderOk(t, d, k) && Holds(s, d, k) {
      assert Holds(s, d, k) && HolderOk(s, d, k);
    }
    forall d | 0 <= d < |t.cpus| && (Inside(t.cpus[d]) || t.cpus[d].Waiting?) ensures exists k :: Holds(t, d, k) {
      var k :| Holds(s, d, k);
      assert Holds(t, d, k);
    }
  }

  /** The remaining steps change neither the words nor the history, only one CPU that holds the same ticket, or none. */
  lemma LocalInv(s: Lock, c: nat, t: Lock)
    requires Inv(s) && c < |s.cpus| && |t.cpus| == |s.cpus| && t == Put(s, c, t.cpus[c])
    requires || (s.cpus[c].Critical? && t.cpus[c] == Unlocking(s.next))
             || (s.cpus[c].Idle? && t.cpus[c] == Loaded(s.ticket, true))
             || (s.cpus[c].Loaded? && t.cpus[c] == Idle)
    ensures Inv(t)
  {
    forall d, k | Holds(t, d, k) ensures HolderOk(t, d, k) && Holds(s, d, k) {
      assert Holds(s, d, k) && HolderOk(s, d, k);
    }
    forall d | 0 <= d < |t.cpus| && (Inside(t.cpus[d]) || t.cpus[d].Waiting?) ensures exists k :: Holds(t, d, k) {
      var k :| Holds(s, d, k);
      assert Holds(t, d, k);
    }
  }

  lemma StepInv(s: Lock, e: Event, t: Lock)
    requires Inv(s) && Step(s, e, t)
    ensures Inv(t) && |t.cpus| == |s.cpus|
  {
    hide Inv;
    match e {
      case StoreTicket(c) => StoreTicketInv(s, c, t);
      case StoreNext(c) => StoreNextInv(s, c, t);
      case Poll(c) => if t != s {
          EnterInv(s, c, t);
        }
      case _ => LocalInv(s, e.cpu, t);
    }
  }

  lemma {:induction false} RunInv(states: seq<Lock>, events: seq<Event>, i: nat)
    requires Run(states, events) && i <= |events|
    ensures Inv(states[i])
  {
    hide Inv, Step;
    if i > 0 {
      RunInv(states, events, i - 1);
      assert Step(states[i - 1], events[i - 1], states[i]);
      StepInv(states[i - 1], events[i - 1], states[i]);
    } else {
      InitialInv(states[0]);
    }
  }

  lemma InitialInv(s: Lock)
    requires Initial(s)
    ensures Inv(s)
  {
  }

  // ------------------------------------------------------------------ results

  /** In every reachable state at most one CPU is between its lock and the end of its unlock. */
  lemma MutualExclusion(states: seq<Lock>, events: seq<Event>, i: nat, c: nat, d: nat)
    requires Run(states, events) && i <= |events| && c < |states[i].cpus| && d < |states[i].cpus|
    requires Inside(states[i].cpus[c]) && Inside(states[i].cpus[d])
    ensures c == d
  {
    RunInv(states, events, i);
    var j :| Holds(states[i], c, j);
    var k :| Holds(states[i], d, k);
    assert HolderOk(states[i], c, j) && HolderOk(states[i], d, k);
  }

  /** The CPUs enter in the order in which they stored their tickets, through every wrap-around. */
  lemma ServedInOrder(states: seq<Lock>, events: seq<Event>, i: nat)
    requires Run(states, events) && i <= |events|
    ensures states[i].entered <= states[i].taken
  {
    RunInv(states, events, i);
  }

  /** No increment of either word is lost: they always are the number of tickets and of unlocks, in 32 bits. */
  lemma NoIncrementLost(states: seq<Lock>, events: seq<Event>, i: nat)
    requires Run(states, events) && i <= |events|
    ensures states[i].ticket == |states[i].taken| % W && states[i].next == states[i].unlocks % W
    ensures states[i].unlocks <= |states[i].entered| <= states[i].unlocks + 1
  {
    RunInv(states, events, i);
  }

  /**
   * As long as a ticket is out, its first holder is inside, or waiting, and then its next poll lets it
   * in, whatever the counts have grown to. Inside, it can go on to the end of its unlock.
   */
  lemma FirstHolderMoves(states: seq<Lock>, events: seq<Event>, i: nat)
    requires Run(states, events) && i <= |events| && states[i].unlocks < |states[i].taken|
    ensures var s := states[i]; var c := s.taken[s.unlocks];
      && c < |s.cpus| && (Inside(s.cpus[c]) || s.cpus[c].Waiting?)
      && (s.cpus[c].Waiting? ==> forall t :: Step(s, Poll(c), t) ==> Inside(t.cpus[c]) && t.entered == s.entered + [c])
      && (s.cpus[c].Waiting? ==> exists t :: Step(s, Poll(c), t) && Inside(t.cpus[c]))
      && (s.cpus[c].Critical? ==> exists t :: Step(s, LoadNext(c), t) && t.cpus[c].Unlocking?)
      && (s.cpus[c].Unlocking? ==> exists t :: Step(s, StoreNext(c), t) && t.unlocks == s.unlocks + 1 && t.cpus[c].Idle?)
  {
    RunInv(states, events, i);
    var s := states[i];
    var c := s.taken[s.unlocks];
    assert Holds(s, c, s.unlocks) && HolderOk(s, c, s.unlocks);
    var entered := Put(s, c, Critical).(entered := s.entered + [c]);
    var loaded := Put(s, c, Unlocking(s.next));
    var left := Put(s, c, Idle).(next := (s.next + 1) % W, unlocks := s.unlocks + 1);
    assert s.cpus[c].Waiting? ==> Step(s, Poll(c), entered);
    assert s.cpus[c].Critical? ==> Step(s, LoadNext(c), loaded);
    assert s.cpus[c].Unlocking? ==> Step(s, StoreNext(c), left);
  }

  // ------------------------------------------------------------------ runs that go on

  /** The second run goes on where the first stops. */
  ghost predicate GoesOn(states: seq<Lock>, events: seq<Event>, more: seq<Lock>, moves: seq<Event>) {
    Run(states, events) && Run(more, moves) && states <= more && events <= moves
  }

  ghost function Last(states: seq<Lock>): Lock
    requires states != []
  {
    states[|states| - 1]
  }

  lemma OneMore(states: seq<Lock>, events: seq<Event>, e: Event, t: Lock)
    requires Run(states, events) && Step(Last(states), e, t)
    ensures GoesOn(states, events, states + [t], events + [e])
  {
    hide Step, Initial;
    var more, moves := states + [t], events + [e];
    forall i | 0 <= i < |moves| ensures Step(more[i], moves[i], more[i + 1]) {
      assert i < |events| ==> more[i] == states[i] && moves[i] == events[i] && more[i + 1] == states[i + 1];
    }
  }

  /** A CPU that is inside gets to the end of its unlock. */
  lemma Leave(states: seq<Lock>, events: seq<Event>, c: nat) returns (more: seq<Lock>, moves: seq<Event>)
    requires Run(states, events) && c < |Last(states).cpus| && Inside(Last(states).cpus[c])
    ensures GoesOn(states, events, more, moves) && Last(more).taken == Last(states).taken
    ensures Last(more).unlocks == Last(states).unlocks + 1
  {
    hide Initial, Inv;
    more, moves := states, events;
    if Last(more).cpus[c].Critical? {
      var t := Put(Last(more), c, Unlocking(Last(more).next));
      OneMore(more, moves, LoadNext(c), t);
      more, moves := more + [t], moves + [LoadNext(c)];
    }
    var s := Last(more);
    var t := Put(s, c, Idle).(next := (s.cpus[c].value + 1) % W, unlocks := s.unlocks + 1);
    OneMore(more, moves, StoreNext(c), t);
    more, moves := more + [t], moves + [StoreNext(c)];
  }

  /** The first holder of a ticket comes to be inside. */
  lemma Enter(states: seq<Lock>, events: seq<Event>) returns (more: seq<Lock>, moves: seq<Event>)
    requires Run(states, events) && Last(states).unlocks < |Last(states).taken|
    ensures GoesOn(states, events, more, moves) && Last(more).taken == Last(states).taken
    ensures Last(more).unlocks == Last(states).unlocks
    ensures var c := Last(states).taken[Last(states).unlocks]; c < |Last(more).cpus| && Inside(Last(more).cpus[c])
  {
    hide Initial, Inv;
    more, moves := states, events;
    var c := Last(states).taken[Last(states).unlocks];
    FirstHolderMoves(more, moves, |moves|);
    if Last(more).cpus[c].Waiting? {
      var t :| Step(Last(more), Poll(c), t) && Inside(t.cpus[c]);
      OneMore(more, moves, Poll(c), t);
      more, moves := more + [t], moves + [Poll(c)];
    }
  }

  lemma {:induction false} ServeUpTo(states: seq<Lock>, events: seq<Event>, k: nat)
    returns (more: seq<Lock>, moves: seq<Event>)
    requires Run(states, events) && Last(states).unlocks <= k <= |Last(states).taken|
    ensures GoesOn(states, events, more, moves) && Last(more).taken == Last(states).taken && Last(more).unlocks == k
    decreases k - Last(states).unlocks
  {
    more, moves := states, events;
    if Last(states).unlocks < k {
      more, moves := Enter(states, events);
      more, moves := Leave(more, moves, Last(states).taken[Last(states).unlocks]);
      more, moves := ServeUpTo(more, moves, k);
    }
  }

  /** Every run can go on to where any ticket already out has been served, in the order taken, by all before it too. */
  lemma EveryTicketCanBeServed(states: seq<Lock>, events: seq<Event>, k: nat)
    requires Run(states, events) && k < |Last(states).taken|
    ensures exists more, moves ::
      && GoesOn(states, events, more, moves) && k < Last(more).unlocks
      && Last(more).taken == Last(states).taken && Last(states).taken[..k + 1] <= Last(more).entered
  {
    var s := Last(states);
    RunInv(states, events, |events|);
    var more, moves := ServeUpTo(states, events, if k < s.unlocks then s.unlocks else k + 1);
    RunInv(more, moves, |moves|);
  }

  /** A waiting CPU comes to be inside once those before it have been served. */
  lemma WaitingEnters(states: seq<Lock>, events: seq<Event>, c: nat) returns (more: seq<Lock>, moves: seq<Event>)
    requires Run(states, events) && c < |Last(states).cpus| && Last(states).cpus[c].Waiting?
    ensures GoesOn(states, events, more, moves) && c < |Last(more).cpus| && Inside(Last(more).cpus[c])
  {
    RunInv(states, events, |events|);
    var k := PollIsTurn(Last(states), c);
    more, moves := ServeUpTo(states, events, k);
    more, moves := Enter(more, moves);
  }

  /** No CPU is ever shut out: wherever it stands, every run can go on to where it is inside. */
  lemma EveryCpuCanEnter(states: seq<Lock>, events: seq<Event>, c: nat)
    requires Run(states, events) && c < |Last(states).cpus|
    ensures exists more, moves :: GoesOn(states, events, more, moves) && c < |Last(more).cpus| && Inside(Last(more).cpus[c])
  {
    hide Inv, Initial;
    var more, moves := states, events;
    if Last(more).cpus[c].Loaded? {
      var t := Put(Last(more), c, Idle);
      OneMore(more, moves, StoreFails(c), t);
      more, moves := more + [t], moves + [StoreFails(c)];
    }
    if Last(more).cpus[c].Idle? {
      var s := Last(more);
      var t := Put(s, c, Loaded(s.ticket, true));
      OneMore(more, moves, LoadTicket(c), t);
      more, moves := more + [t], moves + [LoadTicket(c)];
      var u := t.(ticket := (s.ticket + 1) % W, cpus := Disturbed(t.cpus)[c := Waiting(s.ticket)], taken := t.taken + [c]);
      OneMore(more, moves, StoreTicket(c), u);
      more, moves := more + [u], moves + [StoreTicket(c)];
    }
    if Last(more).cpus[c].Waiting? {
      more, moves := WaitingEnters(more, moves, c);
    }
    assert GoesOn(states, events, more, moves) && Inside(Last(more).cpus[c]);
  }
}
