/** Interrupts between software state, list registers and spill lists, GICv2 build (src/arch/aarch64/vgic.c). */
module Vgic {
  const INV := 0
  const PEND := 1
  const ACT := 2
  const PENDACT := 3

  const SGIS := 16
  const CPU_PRIV := 32
  const TARGETS := 8
  const LOWEST_PRIO := 0xff
  const VALID_INTERRUPTS := 1020
  const EOI_BIT := 512

  predicate HasPend(state: nat) {
    state == PEND || state == PENDACT
  }

  predicate HasAct(state: nat) {
    state == ACT || state == PENDACT
  }

  /** A set of source CPUs, one bit each. */
  type Sources = p: seq<bool> | |p| == TARGETS witness seq(TARGETS, i => false)

  predicate None(p: Sources) {
    forall i :: 0 <= i < TARGETS ==> !p[i]
  }

  /**
   * A list register: the virtual id (10 bits); bits 10 to 19, which are the physical id of a hardware
   * interrupt and else hold the source CPU (3 bits) and the EOI request (bit 19); the priority (5
   * bits); the state (2 bits); the hardware flag.
   */
  datatype Lr = Lr(vid: nat, middle: nat, prio: nat, state: nat, hw: bool)

  const NO_LR := Lr(0, 0, 0, INV, false)

  function CpuId(lr: Lr): nat {
    lr.middle % 8
  }

  /** What struct vgic_int holds, apart from owner and lists. */
  datatype Int = Int(id: nat, state: nat, prio: nat, hw: bool, inLr: bool, lr: nat, act: nat, pend: Sources)

  predicate IsSgi(i: Int) {
    i.id < SGIS
  }

  predicate IsHw(i: Int) {
    !IsSgi(i) && i.hw
  }

  /** gich_get_lr finds the interrupt in its list register. */
  predicate Present(i: Int, lr: Lr) {
    i.inLr && lr.vid == i.id && lr.state != INV
  }

  /** vgic_get_state; `lr` is the list register the interrupt names. */
  function State(i: Int, lr: Lr): nat {
    var s := if Present(i, lr) then lr.state else i.state;
    if IsSgi(i) && !None(i.pend) then (if HasAct(s) then PENDACT else PEND) else s
  }

  /** The highest source CPU that is pending. */
  function Top(p: Sources, n: nat): (k: int)
    requires n <= TARGETS
    ensures -1 <= k < n && (k != -1 ==> p[k]) && forall i :: k < i < n ==> !p[i]
  {
    if n == 0 then -1 else if p[n - 1] then n - 1 else Top(p, n - 1)
  }

  function Written(i: Int, s: nat, ind: nat): (r: (Int, Lr)) {
    var id, prio := i.id % 1024, i.prio / 8 % 32;
    var gone := i.(state := INV, inLr := true, lr := ind);
    if IsHw(i) then
      (gone, Lr(id, i.id % 1024, prio, if s == PENDACT then ACT else s % 4, true))
    else if IsSgi(i) then
      if HasAct(s) then
        (gone, Lr(id, i.act % 8 + Eoi(!None(i.pend)), prio, ACT, false))
      else
        var k := Top(i.pend, TARGETS);
        if k == -1 then (gone, Lr(id, 0, prio, INV, false))
        else
          var rest: Sources := i.pend[k := false];
          (gone.(pend := rest), Lr(id, k + Eoi(!None(rest)), prio, PEND, false))
    else
      (gone, Lr(id, Eoi(i.id >= CPU_PRIV), prio, s % 4, false))
  }

  function Eoi(wanted: bool): nat {
    if wanted then EOI_BIT else 0
  }

  /** vgic_remove_lr on an interrupt that is in list register `lr`. */
  function Removed(i: Int, lr: Lr): Int {
    var out := i.(inLr := false);
    if !Present(i, lr) then out
    else if !IsSgi(i) then out.(state := lr.state)
    else if HasAct(lr.state) then out.(state := lr.state, act := CpuId(lr))
    else if HasPend(lr.state) then out.(state := lr.state, pend := i.pend[CpuId(lr) := true])
    else out.(state := lr.state)
  }

  // ------------------------------------------------------------------ lossless moves

  predicate Sane(i: Int) {
    i.id < 1024 && i.state <= PENDACT && !i.inLr
  }

  /** The state, the pending sources and, of an active SGI, the active source survive the round trip. */
  predicate Survives(i: Int) {
    var (w, lr) := Written(i, State(i, NO_LR), i.lr);
    var r := Removed(w, lr);
    && State(r, NO_LR) == State(i, NO_LR) && !r.inLr
    && (IsSgi(i) ==> r.pend == i.pend && (HasAct(State(i, NO_LR)) ==> r.act == i.act))
  }

  /**
   * Moving an interrupt into a list register and back loses nothing, with exactly these exceptions: a
   * hardware interrupt that is pending and active, an SGI marked pending without a pending source,
   * and an active source beyond the three bits of the register.
   */
  lemma MoveIsLossless(i: Int)
    requires Sane(i)
    ensures Survives(i) <==>
      && (IsHw(i) ==> i.state != PENDACT)
      && (IsSgi(i) ==> (HasPend(i.state) ==> !None(i.pend)) && (HasAct(i.state) ==> i.act < TARGETS))
  {
    var s := State(i, NO_LR);
    var (w, lr) := Written(i, s, i.lr);
    var r := Removed(w, lr);
    if IsSgi(i) && !HasAct(s) {
      var k := Top(i.pend, TARGETS);
      if k != -1 {
        assert i.pend[k := false][k := true] == i.pend;
        assert CpuId(lr) == k;
      }
    }
  }

  // ------------------------------------------------------------------ urgency

  /** Priority first, then id; the smaller is the more urgent. */
  datatype Key = Key(prio: nat, id: nat)

  predicate LessUrgent(a: Key, b: Key) {
    a.prio > b.prio || (a.prio == b.prio && a.id > b.id)
  }

  /** What the eviction loop compares of a list register: its priority has lost its three low bits. */
  function KeyOf(lr: Lr): Key {
    Key(lr.prio * 8, lr.vid)
  }

  /** A register compares like the interrupt in it, but for the three low bits of its priority. */
  lemma RegisterKey(i: Int, s: nat, ind: nat)
    requires i.id < 1024 && i.prio <= LOWEST_PRIO
    ensures var key := KeyOf(Written(i, s, ind).1);
            key.id == i.id && key.prio <= i.prio < key.prio + 8
    ensures WrittenFrom(Written(i, s, ind).1, Key(i.prio, i.id))
  {
  }

  /**
   * What the hardware is told of interrupt `i`, taken in state `s`; `rest` are the sources still
   * pending in memory afterwards. The guest's end of a hardware interrupt ends the physical one of
   * the same number. Else the hypervisor is called at the end: for every shared interrupt, for no
   * private one, and for an SGI exactly if a source is left.
   */
  ghost predicate Carries(i: Int, s: nat, rest: Sources, lr: Lr) {
    && lr.vid == i.id && lr.prio * 8 <= i.prio < lr.prio * 8 + 8
    && (lr.hw <==> i.hw && i.id >= SGIS)
    && (lr.hw ==> lr.middle == i.id && lr.state == if s == PENDACT then ACT else s)
    && (i.id >= SGIS ==> rest == i.pend)
    && (i.id >= SGIS && !i.hw ==> lr.state == s && lr.middle == if i.id >= CPU_PRIV then EOI_BIT else 0)
    && (i.id < SGIS ==> (lr.middle >= EOI_BIT <==> exists k :: 0 <= k < TARGETS && rest[k]))
    && (i.id < SGIS && HasAct(s) ==> lr.state == ACT && CpuId(lr) == i.act % TARGETS && rest == i.pend)
    && (i.id < SGIS && !HasAct(s) && None(i.pend) ==> lr.state == INV && rest == i.pend)
    && (i.id < SGIS && !HasAct(s) && !None(i.pend) ==>
          lr.state == PEND && i.pend[CpuId(lr)] && rest == i.pend[CpuId(lr) := false]
          && forall k :: CpuId(lr) < k < TARGETS ==> !i.pend[k])
  }

  /** An interrupt that a register has room for. */
  predicate Encodable(i: Int) {
    Sane(i) && i.prio <= LOWEST_PRIO
  }

  lemma RegisterContents(i: Int, ind: nat)
    requires Encodable(i)
    ensures var s := State(i, NO_LR); var (w, lr) := Written(i, s, ind);
      && Carries(i, s, w.pend, lr)
      && w == i.(state := INV, inLr := true, lr := ind, pend := w.pend)
  {
    var k := Top(i.pend, TARGETS);
    assert None(i.pend) <==> k == -1;
  }

  predicate Active(lr: Lr) {
    HasAct(lr.state)
  }

  predicate OnlyPending(lr: Lr) {
    lr.state == PEND
  }

  predicate InClass(lr: Lr, active: bool) {
    if active then Active(lr) else OnlyPending(lr)
  }

  /**
   * Register `k` of the first `n` is the least urgent of its class and less urgent than the newcomer;
   * -1 when no register of the class is less urgent.
   */
  ghost predicate Victim(lrs: seq<Lr>, n: nat, active: bool, newcomer: Key, k: int) {
    && n <= |lrs|
    && (k == -1 ==> forall i :: 0 <= i < n && InClass(lrs[i], active) ==> !LessUrgent(KeyOf(lrs[i]), newcomer))
    && (k != -1 ==>
         && 0 <= k < n && InClass(lrs[k], active) && LessUrgent(KeyOf(lrs[k]), newcomer)
         && forall i :: 0 <= i < n && InClass(lrs[i], active) ==> !LessUrgent(KeyOf(lrs[i]), KeyOf(lrs[k])))
  }

  /** Register `lr` was written from an interrupt of this priority and number. */
  predicate WrittenFrom(lr: Lr, own: Key) {
    lr.vid == own.id && lr.prio == own.prio / 8
  }

  /** Priorities compare coarsely, but what is evicted is strictly less urgent itself, by its own priority. */
  lemma EvictedIsLessUrgent(lrs: seq<Lr>, active: bool, newcomer: Key, k: int, own: Key)
    requires Victim(lrs, |lrs|, active, newcomer, k) && 0 <= k < |lrs| && WrittenFrom(lrs[k], own)
    ensures LessUrgent(own, newcomer)
  {
  }

  /**
   * What the three bits that a register loses do to the choice. A register is passed over although
   * its interrupt is less urgent than the newcomer only when the priorities are equal or less than
   * eight apart; and the interrupt evicted is the least urgent of its class if and only if no other of
   * the class has a larger priority that agrees with its own but for those bits.
   */
  lemma LeastUrgentExactlyWhen(lrs: seq<Lr>, active: bool, newcomer: Key, k: int, own: seq<Key>)
    requires Victim(lrs, |lrs|, active, newcomer, k) && |own| == |lrs|
    requires forall i :: 0 <= i < |lrs| && InClass(lrs[i], active) ==> WrittenFrom(lrs[i], own[i])
    ensures k == -1 ==> forall i :: 0 <= i < |lrs| && InClass(lrs[i], active) && LessUrgent(own[i], newcomer) ==>
              newcomer.prio <= own[i].prio < newcomer.prio + 8
    ensures k != -1 ==> 0 <= k < |lrs|
    ensures k != -1 ==> (
      (forall i :: 0 <= i < |lrs| && InClass(lrs[i], active) ==> !LessUrgent(own[i], own[k]))
      <==> forall i :: 0 <= i < |lrs| && InClass(lrs[i], active) && own[i].prio / 8 == own[k].prio / 8 ==>
             own[i].prio <= own[k].prio)
  {
    if k != -1 {
      forall i | 0 <= i < |lrs| && InClass(lrs[i], active) && LessUrgent(own[i], own[k])
        ensures own[i].prio / 8 == own[k].prio / 8 && own[i].prio > own[k].prio
      {
        assert !LessUrgent(KeyOf(lrs[i]), KeyOf(lrs[k]));
      }
    }
  }

  /** It can be another than the least urgent: of priorities 0xff and 0xf8 the larger id makes room. */
  lemma CoarseChoice(a: Lr, b: Lr, newcomer: Key)
    requires WrittenFrom(a, Key(0xff, 40)) && WrittenFrom(b, Key(0xf8, 41)) && newcomer.prio < 0xf8
    requires OnlyPending(a) && OnlyPending(b)
    ensures Pending([a, b], 2) == 2 && Victim([a, b], 2, false, newcomer, 1)
    ensures LessUrgent(Key(0xff, 40), Key(0xf8, 41))
  {
    assert [a, b][0] == a && [a, b][1] == b;
    assert Pending([a, b], 1) == Pending([a, b], 0) + 1;
  }

  ghost function Pending(lrs: seq<Lr>, n: nat): nat
    requires n <= |lrs|
  {
    if n == 0 then 0 else Pending(lrs, n - 1) + if OnlyPending(lrs[n - 1]) then 1 else 0
  }

  lemma NoVictimYet(lrs: seq<Lr>, active: bool, newcomer: Key)
    ensures Victim(lrs, 0, active, newcomer, -1)
  {
  }

  /** One more register has been looked at; `best` is the key of the choice so far, the newcomer's if there is none. */
  lemma VictimNext(lrs: seq<Lr>, n: nat, active: bool, newcomer: Key, k: int, best: Key)
    requires n < |lrs| && Victim(lrs, n, active, newcomer, k)
    requires best == if k == -1 then newcomer else KeyOf(lrs[k])
    ensures var taken := InClass(lrs[n], active) && LessUrgent(KeyOf(lrs[n]), best);
            var m := n + 1;
            if taken then Victim(lrs, m, active, newcomer, n) else Victim(lrs, m, active, newcomer, k)
  {
  }

  /** The choice of vgic_add_lr: among the pending registers if more than one is pending, else among the active ones. */
  method ChooseVictim(lrs: array<Lr>, prio: nat, id: nat) returns (lrInd: int)
    ensures Victim(lrs[..], lrs.Length, Pending(lrs[..], lrs.Length) <= 1, Key(prio, id), lrInd)
  {
    hide Victim;
    ghost var newcomer, regs := Key(prio, id), lrs[..];
    var minPrioPend: nat, minPrioAct: nat := prio, prio;
    var minIdAct: nat, minIdPend: nat := id, id;
    var pendFound, actFound := 0, 0;
    var pendInd, actInd := -1, -1;
    NoVictimYet(regs, false, newcomer);
    NoVictimYet(regs, true, newcomer);
    for i := 0 to lrs.Length
      invariant -1 <= pendInd < i && -1 <= actInd < i && pendFound == Pending(regs, i)
      invariant Victim(regs, i, false, newcomer, pendInd) && Victim(regs, i, true, newcomer, actInd)
      invariant Key(minPrioPend, minIdPend) == if pendInd == -1 then newcomer else KeyOf(regs[pendInd])
      invariant Key(minPrioAct, minIdAct) == if actInd == -1 then newcomer else KeyOf(regs[actInd])
    {
      VictimNext(regs, i, false, newcomer, pendInd, Key(minPrioPend, minIdPend));
      VictimNext(regs, i, true, newcomer, actInd, Key(minPrioAct, minIdAct));
      var lr := lrs[i];
      var lrPrio := lr.prio * 8;
      if HasAct(lr.state) {
        if lrPrio > minPrioAct || (lrPrio == minPrioAct && lr.vid > minIdAct) {
          minIdAct := lr.vid;
          minPrioAct := lrPrio;
          actInd := i;
        }
        actFound := actFound + 1;
      } else if HasPend(lr.state) {
        if lrPrio > minPrioPend || (lrPrio == minPrioPend && lr.vid > minIdPend) {
          minIdPend := lr.vid;
          minPrioPend := lrPrio;
          pendInd := i;
        }
        pendFound := pendFound + 1;
      }
    }
    if pendFound > 1 {
      lrInd := pendInd;
    } else {
      lrInd := actInd;
    }
  }

  // ------------------------------------------------------------------ objects

  class Interrupt {
    const id: nat
    const hw: bool
    var state: nat
    var prio: nat
    var enabled: bool
    var inLr: bool
    var lr: nat
    var act: nat
    var pend: Sources
    // The vCPU that owns the interrupt, -1 for none.
    var owner: int

    constructor (id: nat, hw: bool)
      ensures this.id == id && this.hw == hw && state == INV && !inLr && !enabled && owner == -1 && None(pend)
    {
      this.id, this.hw := id, hw;
      state, prio, enabled, inLr, lr, act, owner := INV, LOWEST_PRIO, false, false, 0, 0, -1;
      pend := seq(TARGETS, i => false);
    }

    function Value(): Int
      reads this
    {
      Int(id, state, prio, hw, inLr, lr, act, pend)
    }
  }

  /** One vCPU on its CPU, with the interrupts it sees, its list registers and the two spill lists. */
  class Vcpu {
    const vid: nat
    const ints: seq<Interrupt>
    const lrs: array<Lr>
    const currLrs: array<nat>
    var spilledPriv: seq<Interrupt>
    var spilledVm: seq<Interrupt>
    // The enable bits of the hypervisor control register: no register pending, and underflow.
    var npie: bool
    var uie: bool

    ghost predicate Valid()
      reads ints
    {
      && (forall k :: 0 <= k < |ints| ==> ints[k].id == k)
      && lrs.Length == currLrs.Length
      && (forall i :: i in ints && i.inLr && i.owner == vid ==> i.lr < lrs.Length)
    }

    function GetInt(id: nat): Interrupt?
      ensures GetInt(id) != null ==> GetInt(id) in ints
    {
      if id < |ints| then ints[id] else null
    }

    /** The register an interrupt of this vCPU names, if it is in one. */
    function Register(i: Interrupt): Lr
      reads i, lrs
    {
      if i.inLr && i.owner == vid && i.lr < lrs.Length then lrs[i.lr] else NO_LR
    }

    function GetState(i: Interrupt): nat
      reads i, lrs
    {
      State(i.Value(), Register(i))
    }

    /** vgic_yield_ownership: only a shared interrupt that is neither in a register nor active is given up. */
    method YieldOwnership(i: Interrupt)
      modifies i`owner
      ensures i.owner == old(i.owner) || (i.owner == -1 && old(i.owner) == vid)
      ensures old(i.owner) == vid ==> (i.owner == -1 <==> i.id >= CPU_PRIV && !i.inLr && !HasAct(old(GetState(i))))
    {
      if i.id < CPU_PRIV || i.owner != vid || i.inLr || HasAct(GetState(i)) {
        return;
      }
      i.owner := -1;
    }

    /** The registers in use have the priorities of their interrupts, as written into them. */
    ghost predicate Mirrored()
      reads lrs, ints`prio
    {
      forall k :: 0 <= k < lrs.Length ==> MirrorsOwn(lrs[k])
    }

    ghost predicate MirrorsOwn(lr: Lr)
      reads ints`prio
    {
      lr.state != INV ==> lr.vid < |ints| && ints[lr.vid].prio <= LOWEST_PRIO && lr.prio == ints[lr.vid].prio / 8
    }

    /** A register remembers the shared interrupt of this vCPU that believes to be in it. */
    ghost predicate Tracked()
      reads ints`owner, ints`inLr, ints`lr, currLrs
    {
      forall j :: j in ints ==> TrackedAt(j)
    }

    ghost predicate TrackedAt(j: Interrupt)
      reads j`owner, j`inLr, j`lr, currLrs
    {
      j.owner == vid && j.inLr && j.id >= CPU_PRIV ==> j.lr < currLrs.Length && currLrs[j.lr] == j.id
    }

    /** The shared interrupt that was in the register before, if it still believes so, is told that it is not. */
    method Displace(i: Interrupt, ind: nat)
      requires Valid() && ind < lrs.Length && i in ints
      modifies ints`inLr, ints`owner
      ensures Valid() && i.Value() == old(i.Value()) && i.owner == old(i.owner)
      ensures forall j :: j in ints && (j.id != currLrs[ind] || !old(j.inLr)) ==>
        j.Value() == old(j.Value()) && j.owner == old(j.owner)
      ensures forall j :: j in ints && j.id == currLrs[ind] != i.id && j.id >= CPU_PRIV ==>
        if old(j.owner == vid && j.inLr && j.lr == ind) then
          !j.inLr && j.owner == if HasAct(State(j.Value(), NO_LR)) then vid else -1
        else j.Value() == old(j.Value()) && j.owner == old(j.owner)
    {
      var prevId := currLrs[ind];
      if prevId != i.id && prevId >= CPU_PRIV {
        var prev := GetInt(prevId);
        if prev != null {
          if prev.owner == vid && prev.inLr && prev.lr == ind {
            prev.inLr := false;
            YieldOwnership(prev);
          }
        }
      }
    }

    /** vgic_write_lr for an interrupt this vCPU owns and that is in no register. */
    method WriteLr(i: Interrupt, ind: nat)
      requires Valid() && ind < lrs.Length && i in ints && i.owner == vid && !i.inLr
      modifies lrs, currLrs, ints`inLr, ints`owner, i`state, i`lr, i`pend
      ensures Valid() && i.owner == vid && currLrs[ind] == i.id
      ensures forall j :: j in ints && j != i && !old(j.inLr) ==> j.Value() == old(j.Value())
      ensures (i.Value(), lrs[ind]) == Written(old(i.Value()), State(old(i.Value()), NO_LR), ind)
      ensures Encodable(old(i.Value())) ==> Carries(old(i.Value()), State(old(i.Value()), NO_LR), i.pend, lrs[ind])
      ensures i.state == INV && i.inLr && i.lr == ind
      ensures old(Tracked()) ==> Tracked()
      ensures old(Mirrored()) && i.id < 1024 && i.prio <= LOWEST_PRIO ==> Mirrored()
      ensures forall k :: 0 <= k < lrs.Length && k != ind ==> lrs[k] == old(lrs[k]) && currLrs[k] == old(currLrs[k])
    {
      hide Written, Carries, State, None;
      ghost var was := i.Value();
      Displace(i, ind);
      var lr := Compose(i, GetState(i), ind);
      i.state := INV;
      i.inLr := true;
      i.lr := ind;
      currLrs[ind] := i.id;
      if i.id < 1024 && i.prio <= LOWEST_PRIO {
        RegisterKey(was, State(was, NO_LR), ind);
      }
      lrs[ind] := lr;
    }

    /** The register value; of an SGI that is not active, one pending source moves into it. */
    method Compose(i: Interrupt, state: nat, ghost ind: nat) returns (lr: Lr)
      modifies i`pend
      ensures Written(old(i.Value()), state, ind)
           == (old(i.Value()).(state := INV, inLr := true, lr := ind, pend := i.pend), lr)
      ensures Encodable(old(i.Value())) && state == State(old(i.Value()), NO_LR) ==>
        Carries(old(i.Value()), state, i.pend, lr)
    {
      hide Carries;
      if Encodable(i.Value()) {
        RegisterContents(i.Value(), ind);
      }
      lr := Lr(i.id % 1024, 0, i.prio / 8 % 32, INV, false);
      if !(i.id < SGIS) && i.hw {
        lr := lr.(hw := true, middle := i.id % 1024);
        lr := lr.(state := if state == PENDACT then ACT else state % 4);
      } else if i.id < SGIS {
        if HasAct(state) {
          lr := lr.(middle := i.act % 8, state := ACT);
        } else {
          var k := TARGETS;
          while k > 0 && !i.pend[k - 1]
            invariant 0 <= k <= TARGETS && Top(i.pend, TARGETS) == Top(i.pend, k)
          {
            k := k - 1;
          }
          if k > 0 {
            lr := lr.(middle := k - 1, state := PEND);
            i.pend := i.pend[k - 1 := false];
          }
        }
        if !None(i.pend) {
          lr := lr.(middle := lr.middle + EOI_BIT);
        }
      } else {
        if i.id >= CPU_PRIV {
          lr := lr.(middle := EOI_BIT);
        }
        lr := lr.(state := state % 4);
      }
    }

    /** vgic_remove_lr; the maintenance interrupts that lead to a refill are switched on. */
    method RemoveLr(i: Interrupt) returns (ret: bool)
      requires Valid() && i in ints
      modifies lrs, i, `npie, `uie
      ensures Valid() && i.owner == old(i.owner) && i.enabled == old(i.enabled)
      ensures ret <==> old(i.owner == vid && Present(i.Value(), Register(i)))
      ensures uie == (old(uie) || ret) && npie == (old(npie) || (ret && HasPend(i.state) && i.enabled))
      ensures if old(i.owner == vid && i.inLr) then i.Value() == Removed(old(i.Value()), old(Register(i)))
              else i.Value() == old(i.Value())
      ensures forall k :: 0 <= k < lrs.Length ==> lrs[k] == if ret && k == old(i.lr) then NO_LR else old(lrs[k])
      ensures old(Tracked()) ==> Tracked()
      ensures i.state == if ret then old(Register(i)).state else old(i.state)
      ensures ret && i.id < SGIS && HasAct(i.state) ==> i.act == CpuId(old(Register(i))) && i.pend == old(i.pend)
      ensures ret && i.id < SGIS && i.state == PEND ==>
        i.act == old(i.act) && i.pend == old(i.pend)[CpuId(old(Register(i))) := true]
    {
      ret := false;
      if i.owner != vid || !i.inLr {
        return;
      }
      var lr := NO_LR;
      if Present(i.Value(), lrs[i.lr]) {
        lr := lrs[i.lr];
        lrs[i.lr] := NO_LR;
      }
      i.inLr := false;
      if lr.state != INV {
        i.state := lr.state;
        if i.id < SGIS {
          if HasAct(i.state) {
            i.act := CpuId(lr);
          } else if HasPend(i.state) {
            i.pend := i.pend[CpuId(lr) := true];
          }
        }
        npie := npie || (HasPend(i.state) && i.enabled);
        uie := true;
        ret := true;
      }
    }

    /**
     * Into a list register and back, with no guest progress in between: the state, the pending
     * sources and the source of an active SGI are what they were, with the exceptions stated.
     */
    method WriteAndRemove(i: Interrupt, ind: nat)
      requires Valid() && ind < lrs.Length && i in ints && i.owner == vid && Sane(i.Value())
      modifies lrs, currLrs, ints, `npie, `uie
      ensures !i.inLr && (
        && GetState(i) == old(GetState(i))
        && (i.id < SGIS ==> i.pend == old(i.pend) && (HasAct(old(GetState(i))) ==> i.act == old(i.act)))
        <==>
        && (old(IsHw(i.Value())) ==> old(i.state) != PENDACT)
        && (i.id < SGIS ==> old((HasPend(i.state) ==> !None(i.pend)) && (HasAct(i.state) ==> i.act < TARGETS))))
    {
      hide Written, Removed;
      ghost var before := i.Value();
      MoveIsLossless(before);
      IndexIsIrrelevant(before, State(before, NO_LR), ind);
      WriteLr(i, ind);
      assert Register(i) == lrs[ind];
      var removed := RemoveLr(i);
      ghost var (w, lr) := Written(before, State(before, NO_LR), ind);
      assert i.Value() == Removed(w, lr) && GetState(i) == State(i.Value(), NO_LR);
    }

    /** vgic_add_spilled: at the end of the vCPU's list for private interrupts, of the VM's for the others. */
    method AddSpilled(i: Interrupt)
      modifies `spilledPriv, `spilledVm, `npie
      ensures SpilledAfter(i, old(spilledPriv), old(spilledVm)) && npie
    {
      if i.id < CPU_PRIV {
        spilledPriv := spilledPriv + [i];
      } else {
        spilledVm := spilledVm + [i];
      }
      npie := true;
    }

    ghost predicate SpilledAfter(i: Interrupt, priv: seq<Interrupt>, vm: seq<Interrupt>)
      reads `spilledPriv, `spilledVm
    {
      && spilledPriv == (if i.id < CPU_PRIV then priv + [i] else priv)
      && spilledVm == (if i.id < CPU_PRIV then vm else vm + [i])
    }

    /**
     * vgic_spill_lr: the interrupt in the register goes back to software state and into a spill list.
     * A shared one that is not active is nobody's then, so any vCPU may take it up; a private or an
     * active one stays with this vCPU. A refill is asked for.
     */
    method SpillLr(ind: nat)
      requires Valid() && ind < lrs.Length && lrs[ind].vid < |ints|
      modifies lrs, ints[lrs[ind].vid], `spilledPriv, `spilledVm, `npie, `uie
      ensures Valid() && npie && (old(Mirrored()) ==> Mirrored()) && (old(Tracked()) ==> Tracked())
      ensures var j := ints[old(lrs[ind]).vid];
        && SpilledAfter(j, old(spilledPriv), old(spilledVm)) && j.enabled == old(j.enabled)
        && (if old(j.owner == vid && j.inLr) then j.Value() == Removed(old(j.Value()), old(Register(j)))
            else j.Value() == old(j.Value()))
        && (old(j.owner) != vid ==> j.owner == old(j.owner))
        && (old(j.owner) == vid ==> (j.owner == -1 <==> j.id >= CPU_PRIV && !HasAct(GetState(j))))
        && forall k :: 0 <= k < lrs.Length ==> lrs[k] == old(lrs[k]) || (k == old(j.lr) && lrs[k] == NO_LR)
    {
      var spilled := GetInt(lrs[ind].vid);
      var removed := RemoveLr(spilled);
      AddSpilled(spilled);
      YieldOwnership(spilled);
    }

    ghost predicate NoneFree(elrsr: seq<bool>) {
      forall k :: 0 <= k < |elrsr| ==> !elrsr[k]
    }

    /** What is needed of the registers: they name interrupts there are, and not the newcomer. */
    ghost predicate Named(i: Interrupt)
      reads lrs
    {
      forall k :: 0 <= k < lrs.Length ==> lrs[k].vid < |ints| && (lrs[k].state != INV ==> lrs[k].vid != i.id)
    }

    /** The first register that is empty, -1 for none. */
    method FirstEmpty(elrsr: seq<bool>) returns (lrInd: int)
      requires |elrsr| == lrs.Length
      ensures lrInd == -1 <==> NoneFree(elrsr)
      ensures lrInd != -1 ==> 0 <= lrInd < |elrsr| && elrsr[lrInd] && forall j :: 0 <= j < lrInd ==> !elrsr[j]
    {
      for k := 0 to lrs.Length
        invariant forall j :: 0 <= j < k ==> !elrsr[j]
      {
        if elrsr[k] {
          return k;
        }
      }
      return -1;
    }

    /** With no register empty, the least urgent of its class is spilled, if it is less urgent than the newcomer. */
    method MakeRoom(i: Interrupt) returns (lrInd: int)
      requires Valid() && i in ints && Named(i)
      modifies lrs, ints, `spilledPriv, `spilledVm, `npie, `uie
      ensures Valid() && i.Value() == old(i.Value()) && i.owner == old(i.owner)
      ensures (old(Mirrored()) ==> Mirrored()) && (old(Tracked()) ==> Tracked())
      ensures Victim(old(lrs[..]), lrs.Length, Pending(old(lrs[..]), lrs.Length) <= 1, Key(i.prio, i.id), lrInd)
      ensures lrInd == -1 ==> lrs[..] == old(lrs[..]) && spilledPriv == old(spilledPriv) && spilledVm == old(spilledVm)
      ensures lrInd != -1 ==> 0 <= lrInd < lrs.Length && npie
      ensures lrInd != -1 ==>
        var j := ints[old(lrs[lrInd]).vid];
        && j != i && SpilledAfter(j, old(spilledPriv), old(spilledVm))
        && (old(j.owner == vid && j.inLr && j.lr == lrInd) ==>
              !j.inLr && j.Value() == Removed(old(j.Value()), old(lrs[lrInd])))
        && (old(Mirrored()) ==> LessUrgent(Key(old(j.prio), j.id), Key(i.prio, i.id)))
    {
      hide Victim, LessUrgent;
      lrInd := ChooseVictim(lrs, i.prio, i.id);
      if lrInd != -1 {
        VictimIsThere(lrs[..], lrs.Length, Pending(lrs[..], lrs.Length) <= 1, Key(i.prio, i.id), lrInd);
        if Mirrored() {
          EvictedIsLessUrgent(lrs[..], Pending(lrs[..], lrs.Length) <= 1, Key(i.prio, i.id), lrInd,
                              KeyIn(ints[lrs[lrInd].vid]));
        }
        SpillLr(lrInd);
      }
    }

    /**
     * vgic_add_lr, with the empty-register bits the hardware reports. A free register is used if there
     * is one. Else the least urgent interrupt of its class makes room, and only if it is strictly less
     * urgent than the newcomer; otherwise the newcomer itself is spilled.
     */
    method AddLr(i: Interrupt, elrsr: seq<bool>) returns (ret: bool, ghost ind: int)
      requires Valid() && i in ints && i.owner == vid && |elrsr| == lrs.Length && Named(i)
      modifies lrs, currLrs, ints, `spilledPriv, `spilledVm, `npie, `uie
      ensures Valid() && (Spilled() != old(Spilled()) ==> npie) && (old(Tracked()) ==> Tracked())
      ensures old(Mirrored()) && i.id < 1024 && i.prio <= LOWEST_PRIO ==> Mirrored()
      ensures old(!i.enabled || i.inLr) ==>
        !ret && ind == -1 && lrs[..] == old(lrs[..]) && i.Value() == old(i.Value())
        && spilledPriv == old(spilledPriv) && spilledVm == old(spilledVm)
      ensures old(i.enabled && !i.inLr) && !NoneFree(elrsr) ==>
        && ret && 0 <= ind < |elrsr| && elrsr[ind] && (forall k :: 0 <= k < ind ==> !elrsr[k])
        && spilledPriv == old(spilledPriv) && spilledVm == old(spilledVm)
        && forall k :: 0 <= k < lrs.Length && k != ind ==> lrs[k] == old(lrs[k])
      ensures old(i.enabled && !i.inLr) && NoneFree(elrsr) ==>
        && Victim(old(lrs[..]), lrs.Length, Pending(old(lrs[..]), lrs.Length) <= 1, Key(old(i.prio), i.id), ind)
        && (ret <==> ind != -1)
        && SpilledAfter(if ret then ints[old(lrs[ind].vid)] else i, old(spilledPriv), old(spilledVm))
      ensures ret ==> 0 <= ind < lrs.Length
      ensures ret ==> (i.Value(), lrs[ind]) == Written(old(i.Value()), State(old(i.Value()), NO_LR), ind)
      ensures ret && Encodable(old(i.Value())) ==>
        Carries(old(i.Value()), State(old(i.Value()), NO_LR), i.pend, lrs[ind]) && i.inLr && i.lr == ind && i.state == INV
      ensures ret && NoneFree(elrsr) ==>
        var j := ints[old(lrs[ind].vid)];
        && (old(j.owner == vid && j.inLr && j.lr == ind) ==> j.Value() == Removed(old(j.Value()), old(lrs[ind])))
        && (old(Mirrored()) ==> LessUrgent(Key(old(j.prio), j.id), Key(old(i.prio), i.id)))
      ensures !ret ==> lrs[..] == old(lrs[..]) && i.Value() == old(i.Value())
    {
      ret, ind := false, -1;
      if !i.enabled || i.inLr {
        return;
      }
      hide Victim, Written, Removed, LessUrgent, Carries;
      var lrInd := FirstEmpty(elrsr);
      if lrInd == -1 {
        lrInd := MakeRoom(i);
      }
      ind := lrInd;
      if lrInd != -1 {
        WriteLr(i, lrInd);
        ret := true;
      } else {
        AddSpilled(i);
      }
    }

    /** The two lists in the order in which they are searched. */
    function Spilled(): seq<Interrupt>
      reads `spilledPriv, `spilledVm
    {
      spilledPriv + spilledVm
    }

    /** The entries of the spill lists that `flags` asks for, most urgent first, first in the lists on a tie. */
    ghost predicate MostUrgent(list: seq<Interrupt>, n: nat, flags: nat, at: int)
      reads list, ints, lrs
    {
      && n <= |list|
      && (at == -1 ==> forall j :: 0 <= j < n ==> !Flagged(GetState(list[j]), flags))
      && (at != -1 ==>
           && 0 <= at < n && Flagged(GetState(list[at]), flags)
           && (forall j :: 0 <= j < n && Flagged(GetState(list[j]), flags) ==> !LessUrgent(KeyIn(list[at]), KeyIn(list[j])))
           && (forall j :: 0 <= j < at && Flagged(GetState(list[j]), flags) ==> LessUrgent(KeyIn(list[j]), KeyIn(list[at]))))
    }

    function KeyIn(i: Interrupt): Key
      reads i
    {
      Key(i.prio, i.id)
    }

    /**
     * vgic_highest_prio_spilled: the most urgent entry of both lists that has one of the flags, and
     * nothing only when no entry has. The second result tells the list.
     */
    method HighestPrioSpilled(flags: nat) returns (irq: Interrupt?, inPriv: bool, ghost at: int)
      requires forall i :: i in Spilled() ==> i.prio <= LOWEST_PRIO && i.id < VALID_INTERRUPTS
      ensures MostUrgent(Spilled(), |Spilled()|, flags, at)
      ensures irq == null <==> forall i :: i in Spilled() ==> !Flagged(GetState(i), flags)
      ensures irq != null ==>
        && irq in Spilled() && Flagged(GetState(irq), flags) && irq == Spilled()[at] && (inPriv <==> at < |spilledPriv|)
        && forall i :: i in Spilled() && Flagged(GetState(i), flags) ==> !LessUrgent(KeyIn(irq), KeyIn(i))
    {
      irq, inPriv, at := null, false, -1;
      for n := 0 to |Spilled()|
        invariant MostUrgent(Spilled(), n, flags, at)
        invariant if at == -1 then irq == null else irq == Spilled()[at] && (inPriv <==> at < |spilledPriv|)
      {
        var temp := Spilled()[n];
        assert temp in Spilled();
        if Flagged(GetState(temp), flags) {
          var irqPrio := if irq == null then LOWEST_PRIO else irq.prio;
          var irqId := if irq == null then VALID_INTERRUPTS else irq.id;
          if temp.prio < irqPrio || (temp.prio == irqPrio && temp.id < irqId) {
            irq := temp;
            inPriv := n < |spilledPriv|;
            at := n;
          }
        }
      }
    }
  }

  /** The state has one of the bits of `flags`. */
  predicate Flagged(state: nat, flags: nat) {
    (HasPend(state) && HasPend(flags)) || (HasAct(state) && HasAct(flags))
  }

  /** Which register is used makes no difference to what comes back. */
  lemma IndexIsIrrelevant(i: Int, s: nat, ind: nat)
    ensures var (w, lr) := Written(i, s, ind);
            var (v, lr2) := Written(i, s, i.lr);
            && w.inLr && w.lr == ind && lr == lr2 && w.id == i.id && w.hw == i.hw
            && !Removed(w, lr).inLr && !Removed(v, lr2).inLr
            && Removed(w, lr) == Removed(v, lr2).(lr := ind)
            && State(Removed(w, lr), NO_LR) == State(Removed(v, lr2), NO_LR)
  {
  }

  lemma VictimIsThere(lrs: seq<Lr>, n: nat, active: bool, newcomer: Key, k: int)
    requires Victim(lrs, n, active, newcomer, k) && k != -1
    ensures 0 <= k < n <= |lrs| && lrs[k].state != INV
  {
  }
}
