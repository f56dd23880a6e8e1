/** The command ring with wrap bits (src/arch/aarch64/smmuv3.c). */
module Smmuv3 {
  import opened Blocks

  const OVERFLOW := 0x8000_0000
  const REG_LIMIT := 0x1_0000_0000

  /** Q_IDX: the bits below `shift`. */
  function Idx(reg: nat, shift: nat): nat {
    Rem(reg, Pow(shift))
  }

  /** Q_WRP: bit `shift`, in its place. */
  function Wrp(reg: nat, shift: nat): nat {
    if Rem(reg, 2 * Pow(shift)) >= Pow(shift) then Pow(shift) else 0
  }

  /** Q_OVF: bit 31, in its place. */
  function Ovf(reg: nat): nat {
    if reg % REG_LIMIT >= OVERFLOW then OVERFLOW else 0
  }

  predicate Empty(prod: nat, cons: nat, shift: nat) {
    Idx(prod, shift) == Idx(cons, shift) && Wrp(prod, shift) == Wrp(cons, shift)
  }

  predicate Full(prod: nat, cons: nat, shift: nat) {
    Idx(prod, shift) == Idx(cons, shift) && Wrp(prod, shift) != Wrp(cons, shift)
  }

  /** queue_inc_prod's new register value. */
  function Incremented(reg: nat, shift: nat): nat {
    var prod := Wrp(reg, shift) + Idx(reg, shift) + 1;
    Ovf(reg) + Wrp(prod, shift) + Idx(prod, shift)
  }

  // ------------------------------------------------------------------ registers and counters

  /** The index and wrap bits of the register are those of the unbounded counter. */
  ghost predicate Stands(reg: nat, count: nat, shift: nat) {
    Rem(reg, 2 * Pow(shift)) == Rem(count, 2 * Pow(shift))
  }

  lemma TwiceIsMultiple(n: nat)
    requires n > 0
    ensures Rem(2 * n, n) == 0
  {
    RemShift(n, n);
    RemShift(0, n);
  }

  /** The index and the wrap bit together are the remainder by twice the size. */
  lemma IdxAndWrp(reg: nat, shift: nat)
    ensures Wrp(reg, shift) + Idx(reg, shift) == Rem(reg, 2 * Pow(shift))
    ensures Idx(reg, shift) < Pow(shift)
  {
    var n := Pow(shift);
    TwiceIsMultiple(n);
    RemNest(reg, 2 * n, n);
    var r := Rem(reg, 2 * n);
    if r >= n {
      RemShift(r - n, n);
    }
  }

  /** Counters no more than the size apart are equal when the ring looks empty and the size apart when it looks full. */
  lemma WrapBitsTell(prod: nat, cons: nat, shift: nat, p: nat, c: nat)
    requires Stands(prod, p, shift) && Stands(cons, c, shift) && c <= p <= c + Pow(shift)
    ensures Empty(prod, cons, shift) <==> p == c
    ensures Full(prod, cons, shift) <==> p == c + Pow(shift)
  {
    var n := Pow(shift);
    var d := p - c;
    IdxAndWrp(prod, shift);
    IdxAndWrp(cons, shift);
    var r := Rem(c, 2 * n);
    assert Rem(p, 2 * n) == Rem(r + d, 2 * n) by {
      RemPlus(c, d, 2 * n);
    }
    if r + d >= 2 * n {
      RemShift(r + d - 2 * n, 2 * n);
    }
    assert Rem(p, 2 * n) == if r + d >= 2 * n then r + d - 2 * n else r + d;
    assert Wrp(prod, shift) == if Rem(p, 2 * n) >= n then n else 0;
    assert Wrp(cons, shift) == if r >= n then n else 0;
  }

  lemma OverflowIsPower()
    ensures Pow(31) == OVERFLOW
  {
    assert Pow(8) == 0x100;
    PowSum(8, 8);
    PowSum(16, 8);
    PowSum(24, 7);
  }

  lemma OverflowIsMultiple(shift: nat)
    requires shift < 31
    ensures Rem(OVERFLOW, 2 * Pow(shift)) == 0 && 2 * Pow(shift) <= OVERFLOW
  {
    OverflowIsPower();
    PowDivides(shift + 1, 31);
    RemShift(0, 2 * Pow(shift));
    MultipleGap(0, OVERFLOW, 2 * Pow(shift));
  }

  /** Incrementing the register increments the counter, for every shift that leaves bit 31 to the overflow flag. */
  lemma IncrementStands(reg: nat, p: nat, shift: nat)
    requires shift < 31 && Stands(reg, p, shift)
    ensures Stands(Incremented(reg, shift), p + 1, shift)
    ensures Incremented(reg, shift) < REG_LIMIT
  {
    var m := 2 * Pow(shift);
    var r := Rem(reg, m) + 1;
    IdxAndWrp(reg, shift);
    IdxAndWrp(r, shift);
    OverflowIsMultiple(shift);
    var low := Rem(r, m);
    assert Incremented(reg, shift) == Ovf(reg) + low;
    hide Pow;
    RemAddMultiple(low, Ovf(reg), m);
    RemPlus(p, 1, m);
  }

  /** Counters less than the size apart have different indices. */
  lemma SlotsDiffer(j: nat, k: nat, shift: nat)
    requires j < k < j + Pow(shift)
    ensures Rem(j, Pow(shift)) != Rem(k, Pow(shift))
  {
    var n := Pow(shift);
    RemPlus(j, k - j, n);
    var r := Rem(j, n) + (k - j);
    if r >= n {
      RemShift(r - n, n);
    }
  }

  // ------------------------------------------------------------------ the ring

  lemma SlotFits(i: nat, n: nat, w: nat)
    requires i < n
    ensures i * w + w <= n * w
  {
    MulMonotone(i + 1, n, w);
  }

  lemma SlotsApart(i: nat, j: nat, w: nat)
    requires i != j
    ensures i * w + w <= j * w || j * w + w <= i * w
  {
    MulMonotone(i + 1, j, w);
    MulMonotone(j + 1, i, w);
  }

  /**
   * The driver's view of the command queue. `issued` is every command inserted so far and `consumed`
   * is how many of them the device had taken when the driver last read its register.
   */
  class CmdQueue {
    const shift: nat
    const entDwords: nat
    const base: array<nat>
    var prod: nat
    var cons: nat
    ghost var issued: seq<seq<nat>>
    ghost var consumed: nat

    /** Where command `k` is. */
    ghost function At(k: nat): nat {
      Rem(k, Pow(shift)) * entDwords
    }

    /** The words of command `k` are in its entry. */
    ghost predicate InPlace(k: nat)
      reads base, `issued
    {
      && k < |issued| && At(k) + entDwords <= base.Length
      && |issued[k]| == entDwords && base[At(k)..At(k) + entDwords] == issued[k]
    }

    /** Every command the device may still have to take is in its entry, and the registers stand for the counters. */
    ghost predicate Valid()
      reads this, base
    {
      && shift < 31 && base.Length == Pow(shift) * entDwords
      && prod < REG_LIMIT && cons < REG_LIMIT
      && Stands(prod, |issued|, shift) && Stands(cons, consumed, shift)
      && consumed <= |issued| <= consumed + Pow(shift)
      && forall k :: consumed <= k < |issued| ==> InPlace(k)
    }

    /** The ring as a queue: the commands inserted and not yet taken, oldest first. */
    ghost function Pending(): seq<seq<nat>>
      requires consumed <= |issued|
      reads this
    {
      issued[consumed..]
    }

    constructor (shift: nat, entDwords: nat)
      requires shift < 31
      ensures Valid() && this.shift == shift && this.entDwords == entDwords && fresh(base)
      ensures issued == [] && consumed == 0
    {
      this.shift, this.entDwords := shift, entDwords;
      base := new nat[Pow(shift) * entDwords](i => 0);
      prod, cons, issued, consumed := 0, 0, [], 0;
    }

    method QueueFull() returns (full: bool)
      requires Valid()
      ensures full <==> |Pending()| == Pow(shift)
    {
      WrapBitsTell(prod, cons, shift, |issued|, consumed);
      return Full(prod, cons, shift);
    }

    method QueueEmpty() returns (empty: bool)
      requires Valid()
      ensures empty <==> Pending() == []
    {
      WrapBitsTell(prod, cons, shift, |issued|, consumed);
      return Empty(prod, cons, shift);
    }

    /** The device has taken `done` commands by now and its register says so. */
    method QueueSyncCons(reg: nat, ghost done: nat)
      requires Valid() && reg < REG_LIMIT && consumed <= done <= |issued| && Stands(reg, done, shift)
      modifies `cons, `consumed
      ensures Valid() && consumed == done
      ensures Pending() == old(Pending())[done - old(consumed)..]
    {
      cons := reg;
      consumed := done;
    }

    method QueueWrite(at: nat, cmd: seq<nat>)
      requires |cmd| == entDwords && at + entDwords <= base.Length
      modifies base
      ensures base[at..at + entDwords] == cmd
      ensures forall i :: 0 <= i < base.Length && !(at <= i < at + entDwords) ==> base[i] == old(base[i])
    {
      for n := 0 to entDwords
        invariant base[at..at + n] == cmd[..n]
        invariant forall i :: 0 <= i < base.Length && !(at <= i < at + n) ==> base[i] == old(base[i])
      {
        base[at + n] := cmd[n];
      }
    }

    /** Writes a command into the entry at `prod` of a ring that is not full; no pending command is touched. */
    method Push(cmd: seq<nat>)
      requires Valid() && |cmd| == entDwords && |Pending()| < Pow(shift)
      modifies base, `prod, `issued
      ensures Valid() && issued == old(issued) + [cmd] && consumed == old(consumed)
      ensures Pending() == old(Pending()) + [cmd]
    {
      hide Pow, Rem, Stands, Incremented, Idx;
      ghost var p := |issued|;
      var at := Idx(prod, shift) * entDwords;
      IndexOfCount(prod, p, shift);
      SlotFits(Idx(prod, shift), Pow(shift), entDwords);
      QueueWrite(at, cmd);
      prod := Incremented(prod, shift);
      issued := issued + [cmd];
      IncrementStands(old(prod), p, shift);
      forall k | consumed <= k < |issued| ensures InPlace(k) {
        if k < p {
          assert old(InPlace(k));
          SlotsDiffer(k, p, shift);
          SlotsApart(Rem(k, Pow(shift)), Rem(p, Pow(shift)), entDwords);
          assert base[At(k)..At(k) + entDwords] == old(base[At(k)..At(k) + entDwords]);
        }
      }
    }

    /**
     * arm_smmu_cmdq_insert_cmd up to its wait for the device: `readings` are the values the device's
     * register shows while the ring is full. Without enough of them the driver keeps waiting.
     */
    method InsertCmd(cmd: seq<nat>, readings: seq<nat>, ghost done: seq<nat>) returns (inserted: bool)
      requires Valid() && |cmd| == entDwords && |done| == |readings|
      requires forall i :: 0 <= i < |done| ==> consumed <= done[i] <= |issued|
      requires forall i :: 0 <= i < |done| ==> readings[i] < REG_LIMIT && Stands(readings[i], done[i], shift)
      requires forall i, j :: 0 <= i < j < |done| ==> done[i] <= done[j]
      modifies base, `prod, `cons, `issued, `consumed
      ensures Valid() && old(consumed) <= consumed
      ensures issued == if inserted then old(issued) + [cmd] else old(issued)
      ensures inserted <==>
        |old(Pending())| < Pow(shift) || exists i :: 0 <= i < |done| && |old(issued)| - done[i] < Pow(shift)
      ensures !inserted ==> |Pending()| == Pow(shift)
      ensures |old(Pending())| < Pow(shift) ==> consumed == old(consumed)
    {
      hide Pow, Rem, Stands;
      var i := 0;
      var full := QueueFull();
      while full
        invariant Valid() && issued == old(issued) && old(consumed) <= consumed && 0 <= i <= |readings|
        invariant i < |done| ==> consumed <= done[i]
        invariant full <==> |Pending()| == Pow(shift)
        invariant if i == 0 then consumed == old(consumed) else consumed == done[i - 1] && |old(Pending())| == Pow(shift)
        decreases |readings| - i, full
      {
        if i == |readings| {
          return false;
        }
        QueueSyncCons(readings[i], done[i]);
        i := i + 1;
        full := QueueFull();
      }
      Push(cmd);
      return true;
    }
  }

  lemma IndexOfCount(reg: nat, count: nat, shift: nat)
    requires Stands(reg, count, shift)
    ensures Idx(reg, shift) == Rem(count, Pow(shift))
  {
    var n := Pow(shift);
    TwiceIsMultiple(n);
    RemNest(reg, 2 * n, n);
    RemNest(count, 2 * n, n);
  }
}
