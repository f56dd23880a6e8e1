/** Inflating a range to pages and mapping it. */
module Mapping {
  import opened Blocks
  import opened PageTable
  import opened Expansion
  import opened Ranges

  /** `t1` means the same as `t0` and its leaves are no coarser. */
  ghost predicate Kept(t0: Tree, t1: Tree) {
    && t0.Valid() && t1.Valid() && t0.g == t1.g
    && (forall y: nat :: t1.State(y) == t0.State(y))
    && (forall y: nat :: t0.Leaf(y) <= t1.Leaf(y))
  }

  lemma ExpandedKept(t0: Tree, t1: Tree, t2: Tree, l: nat, x: nat)
    requires Kept(t0, t1) && Expanded(t1, t2, l, x)
    ensures Kept(t0, t2)
  {
    hide Tree.Valid, Tree.State, Tree.Leaf, Geometry.Block;
    forall y: nat
      ensures t0.Leaf(y) <= t2.Leaf(y)
    {
      assert t2.Leaf(y) == LeafAfter(t1, l, x, y);
    }
  }

  /** Every leaf over the range is at level `lvl` or finer. */
  ghost predicate Inflated(t0: Tree, t1: Tree, va: nat, len: nat, lvl: nat) {
    && Kept(t0, t1)
    && (forall y: nat :: va <= y < va + len ==> lvl <= t1.Leaf(y))
  }

  /** The steps of the inflation loop over level `l` come to the last block, unless that is a table. */
  ghost predicate StepsReach(t: Tree, va: nat, len: nat, l: nat)
    requires t.Valid() && 0 < len && l < t.g.Lvls()
  {
    var last := va + len - 1;
    t.Leaf(last) <= l ==> Rem(va, t.g.sz[l]) <= Rem(last, t.g.sz[l]) || t.SameBlock(l, va, last)
  }

  /**
   * The inflation loop steps from `va` by whole blocks and stops at the end of the range. At every
   * level at which the end of the range may still be a leaf, its steps come to the last block. The
   * two ends can share a block at different offsets when the range goes round the address space.
   */
  ghost predicate StepsReachEnd(t: Tree, va: nat, len: nat)
    requires t.Valid() && 0 < len
  {
    forall l: nat :: l + 1 < t.g.Lvls() ==> StepsReach(t, va, len, l)
  }

  /** Inflating level `lvl` has got as far as `vaddr`. */
  ghost predicate Inflating(t0: Tree, t1: Tree, va: nat, len: nat, lvl: nat, vaddr: nat) {
    && Inflated(t0, t1, va, len, lvl) && lvl < t0.g.Lvls() && va <= vaddr
    && Rem(vaddr, t0.g.sz[lvl]) == Rem(va, t0.g.sz[lvl])
    && (forall y: nat :: va <= y < va + len && y < Down(vaddr, t0.g.sz[lvl]) ==> lvl < t1.Leaf(y))
  }

  lemma InflateStart(t0: Tree, t1: Tree, va: nat, len: nat, lvl: nat)
    requires Inflated(t0, t1, va, len, lvl) && lvl < t0.g.Lvls()
    ensures Inflating(t0, t1, va, len, lvl, va)
  {
  }

  lemma InflateStep(t0: Tree, t1: Tree, t2: Tree, va: nat, len: nat, lvl: nat, vaddr: nat)
    requires Inflating(t0, t1, va, len, lvl, vaddr) && vaddr < va + len && lvl + 1 < t0.g.Lvls()
    requires Expanded(t1, t2, lvl, vaddr)
    ensures Inflating(t0, t2, va, len, lvl, vaddr + t0.g.sz[lvl])
  {
    hide Tree.Valid, Tree.State, Tree.Leaf, Geometry.Block, Geometry.WF, Rem;
    var s := t0.g.sz[lvl];
    ExpandedKept(t0, t1, t2, lvl, vaddr);
    DownStep(vaddr, s);
    forall y: nat | va <= y < va + len
      ensures lvl <= t2.Leaf(y) && (y < Down(vaddr + s, s) ==> lvl < t2.Leaf(y))
    {
      assert t2.Leaf(y) == LeafAfter(t1, lvl, vaddr, y);
      if Down(vaddr, s) <= y < Down(vaddr, s) + s {
        DownOrder(vaddr, y, s);
        SameDownSameBlock(t0.g, lvl, vaddr, y);
      }
    }
  }

  lemma InflateLevel(t0: Tree, t1: Tree, va: nat, len: nat, lvl: nat, vaddr: nat)
    requires Inflating(t0, t1, va, len, lvl, vaddr) && va + len <= vaddr && lvl + 1 < t0.g.Lvls()
    requires 0 < len ==> StepsReach(t0, va, len, lvl)
    ensures Inflated(t0, t1, va, len, lvl + 1)
  {
    hide Tree.Valid, Tree.State, Tree.Leaf, Geometry.Block, Geometry.WF, Rem;
    var s, last := t0.g.sz[lvl], va + len - 1;
    forall y: nat | va <= y < va + len
      ensures lvl < t1.Leaf(y)
    {
      if Down(vaddr, s) <= y && t1.Leaf(y) == lvl {
        DownOrder(vaddr, y, s);
        DownOrder(vaddr, last, s);
        SameDownSameBlock(t0.g, lvl, y, last);
        SameLeaf(t1, y, last);
        assert t0.Leaf(last) <= t1.Leaf(last);
        SameLeaf(t1, last, va);
        DownOrder(vaddr, va, s);
      }
    }
  }

  /** The highest level that the last address of the range can be a leaf of before the loop over `lvl`. */
  ghost function LeafBound(t: Tree, va: nat, len: nat, lvl: nat): nat
    requires t.Valid() && 0 < len
  {
    if t.Leaf(va + len - 1) <= lvl then lvl else t.Leaf(va + len - 1)
  }

  /** The loop over `lvl` has not made the last block finer than it may. */
  ghost predicate Bounded(t0: Tree, t1: Tree, va: nat, len: nat, lvl: nat)
    requires t0.Valid() && t1.Valid() && t0.g == t1.g && lvl < t0.g.Lvls()
  {
    0 < len <= t0.g.space ==>
      t1.Leaf(va + len - 1) <= LeafBound(t0, va, len, if StepsReach(t0, va, len, lvl) then lvl + 1 else lvl)
  }

  /** The loop over level `f` has passed by the last block, which stays a leaf of that level for good. */
  ghost predicate MissedAt(t0: Tree, t1: Tree, va: nat, len: nat, f: nat) {
    && Kept(t0, t1) && 0 < len && f + 1 < t0.g.Lvls() && !StepsReach(t0, va, len, f)
    && (len <= t0.g.space ==> t1.Leaf(va + len - 1) == f)
  }

  ghost predicate Missed(t0: Tree, t1: Tree, va: nat, len: nat, lvl: nat) {
    exists f: nat :: f < lvl && MissedAt(t0, t1, va, len, f)
  }

  /** An address that the loop steps to does not lie in a last block that it misses. */
  lemma StepsPassBy(g: Geometry, l: nat, va: nat, len: nat, vaddr: nat)
    requires g.WF() && l < g.Lvls() && 0 < len <= g.space && va <= vaddr < va + len
    requires Rem(vaddr, g.sz[l]) == Rem(va, g.sz[l]) && Rem(va, g.sz[l]) > Rem(va + len - 1, g.sz[l])
    requires g.Block(l, va) != g.Block(l, va + len - 1)
    ensures g.Block(l, vaddr) != g.Block(l, va + len - 1)
  {
    hide Rem, Geometry.WF, Geometry.Block, Quot;
    var last, s := va + len - 1, g.sz[l];
    var b := Down(last, s);
    DownIsMultiple(last, s);
    BlockIsOff(g, l, b, vaddr);
    BlockIsOff(g, l, b, last);
    g.SpaceDivides(l);
    OffNear(g, b, last);
    if b <= vaddr {
      DownOrder(last, vaddr, s);
      assert false;
    } else if vaddr + g.space >= b {
      OffBefore(g, b, vaddr);
      if vaddr > va {
        EqualRem(va, vaddr, s);
      }
    }
  }

  lemma OffBefore(g: Geometry, b: nat, y: nat)
    requires g.WF() && y < b <= y + g.space
    ensures Off(g, b, y) == if b == y + g.space then 0 else y + g.space - b
  {
    RemShift(y - b, g.space);
  }

  /** Different addresses at one offset are at least a block apart. */
  lemma EqualRem(a: nat, b: nat, s: nat)
    requires 0 < s && a < b && Rem(a, s) == Rem(b, s)
    ensures a + s <= b
  {
    DownIsMultiple(a, s);
    DownIsMultiple(b, s);
    MultipleGap(Down(a, s), Down(b, s), s);
  }

  lemma BoundedStart(t0: Tree, t1: Tree, va: nat, len: nat, lvl: nat)
    requires t0.Valid() && t1.Valid() && t0.g == t1.g && lvl < t0.g.Lvls()
    requires 0 < len <= t0.g.space ==> t1.Leaf(va + len - 1) <= LeafBound(t0, va, len, lvl)
    ensures Bounded(t0, t1, va, len, lvl)
  {
  }

  lemma BoundedStep(t0: Tree, t1: Tree, t2: Tree, va: nat, len: nat, lvl: nat, vaddr: nat)
    requires Inflating(t0, t1, va, len, lvl, vaddr) && vaddr < va + len && lvl + 1 < t0.g.Lvls()
    requires Bounded(t0, t1, va, len, lvl) && Expanded(t1, t2, lvl, vaddr)
    ensures Bounded(t0, t2, va, len, lvl)
  {
    hide Tree.Valid, Tree.State, Tree.Leaf, Geometry.Block, Geometry.WF, Rem;
    if len <= t0.g.space {
      assert t2.Leaf(va + len - 1) == LeafAfter(t1, lvl, vaddr, va + len - 1);
      if !StepsReach(t0, va, len, lvl) {
        StepsPassBy(t0.g, lvl, va, len, vaddr);
      }
    }
  }

  ghost predicate ReachedBefore(t: Tree, va: nat, len: nat, lvl: nat)
    requires t.Valid() && lvl < t.g.Lvls()
  {
    forall f: nat :: f < lvl && 0 < len ==> StepsReach(t, va, len, f)
  }

  /** What the loops have done before the one over `lvl`. */
  ghost predicate Progress(t0: Tree, t1: Tree, va: nat, len: nat, lvl: nat) {
    && Kept(t0, t1) && lvl < t0.g.Lvls()
    && (Missed(t0, t1, va, len, lvl)
        || (Inflated(t0, t1, va, len, lvl) && ReachedBefore(t0, va, len, lvl)
            && (0 < len <= t0.g.space ==> t1.Leaf(va + len - 1) <= LeafBound(t0, va, len, lvl))))
  }

  /** And what the one over `lvl` has done so far. */
  ghost predicate Progressing(t0: Tree, t1: Tree, va: nat, len: nat, lvl: nat, vaddr: nat) {
    && Kept(t0, t1) && lvl < t0.g.Lvls()
    && (Missed(t0, t1, va, len, lvl)
        || (Inflating(t0, t1, va, len, lvl, vaddr) && ReachedBefore(t0, va, len, lvl) && Bounded(t0, t1, va, len, lvl)))
  }

  lemma NoProgressYet(t: Tree, va: nat, len: nat)
    requires t.Valid()
    ensures Progress(t, t, va, len, 0)
  {
  }

  lemma ProgressStart(t0: Tree, t1: Tree, va: nat, len: nat, lvl: nat)
    requires Progress(t0, t1, va, len, lvl)
    ensures Progressing(t0, t1, va, len, lvl, va)
  {
    if !Missed(t0, t1, va, len, lvl) {
      InflateStart(t0, t1, va, len, lvl);
      BoundedStart(t0, t1, va, len, lvl);
    }
  }

  /** Without a table over `vaddr` the loops have missed a block before. */
  lemma ProgressHas(t0: Tree, t1: Tree, va: nat, len: nat, lvl: nat, vaddr: nat)
    requires Progressing(t0, t1, va, len, lvl, vaddr) && vaddr < va + len && !t1.Has(lvl, vaddr)
    ensures !StepsReachEnd(t0, va, len)
  {
    hide Tree.Valid, Tree.State, Tree.Leaf, Geometry.Block, Geometry.WF, Rem, StepsReach;
    HasIffLeaf(t1, lvl, vaddr);
  }

  lemma ProgressStep(t0: Tree, t1: Tree, t2: Tree, va: nat, len: nat, lvl: nat, vaddr: nat)
    requires Progressing(t0, t1, va, len, lvl, vaddr) && vaddr < va + len && lvl + 1 < t0.g.Lvls()
    requires Expanded(t1, t2, lvl, vaddr)
    ensures Progressing(t0, t2, va, len, lvl, vaddr + t0.g.sz[lvl])
  {
    hide Tree.Valid, Tree.State, Tree.Leaf, Geometry.Block, Geometry.WF, Rem, StepsReach, Inflating, Bounded;
    ExpandedKept(t0, t1, t2, lvl, vaddr);
    if Missed(t0, t1, va, len, lvl) {
      var f: nat :| f < lvl && MissedAt(t0, t1, va, len, f);
      assert t2.Leaf(va + len - 1) == LeafAfter(t1, lvl, vaddr, va + len - 1);
      assert MissedAt(t0, t2, va, len, f);
    } else {
      InflateStep(t0, t1, t2, va, len, lvl, vaddr);
      BoundedStep(t0, t1, t2, va, len, lvl, vaddr);
    }
  }

  lemma ProgressLevel(t0: Tree, t1: Tree, va: nat, len: nat, lvl: nat, vaddr: nat)
    requires Progressing(t0, t1, va, len, lvl, vaddr) && va + len <= vaddr && lvl + 1 < t0.g.Lvls()
    ensures Progress(t0, t1, va, len, lvl + 1)
  {
    hide Tree.Valid, Tree.State, Tree.Leaf, Geometry.Block, Geometry.WF, Rem, StepsReach;
    if Missed(t0, t1, va, len, lvl) {
      var f: nat :| f < lvl && MissedAt(t0, t1, va, len, f);
      assert Missed(t0, t1, va, len, lvl + 1);
    } else if len == 0 || StepsReach(t0, va, len, lvl) {
      InflateLevel(t0, t1, va, len, lvl, vaddr);
    } else {
      NotReached(t0, va, len, lvl);
      assert MissedAt(t0, t1, va, len, lvl);
    }
  }

  lemma NotReached(t: Tree, va: nat, len: nat, l: nat)
    requires t.Valid() && 0 < len && l < t.g.Lvls() && !StepsReach(t, va, len, l)
    ensures t.Leaf(va + len - 1) <= l
  {
  }

  /** What inflation comes to: pages all over the range, or, when it misses a block, not at its end. */
  ghost predicate InflatedOrMissed(t0: Tree, t1: Tree, va: nat, len: nat) {
    && Kept(t0, t1)
    && (len == 0 || StepsReachEnd(t0, va, len) ==> Inflated(t0, t1, va, len, t0.g.Lvls() - 1))
    && (0 < len <= t0.g.space && !StepsReachEnd(t0, va, len) ==> t1.Leaf(va + len - 1) + 1 < t0.g.Lvls())
  }

  lemma ProgressEnd(t0: Tree, t1: Tree, va: nat, len: nat)
    requires t0.Valid() && Progress(t0, t1, va, len, t0.g.Lvls() - 1)
    ensures InflatedOrMissed(t0, t1, va, len)
  {
    hide Tree.Valid, Tree.State, Tree.Leaf, Geometry.Block, Geometry.WF, Rem;
    hide StepsReach;
  }

  /** Where the byte `off` bytes into a range of pages mapped from `base` on goes. */
  function MapsTo(base: nat, off: nat): nat {
    AddrMask(base + off / PAGE_SIZE * PAGE_SIZE) + off % PAGE_SIZE
  }

  /** `t1` is `t0` with the first `p` bytes from `va` on mapped from `base` on, with attributes `flags`. */
  ghost predicate MappedUpTo(t0: Tree, t1: Tree, va: nat, base: nat, p: nat, flags: nat) {
    && t0.Valid() && t1.Valid() && t0.g == t1.g && t1.tables.Keys == t0.tables.Keys
    && (forall y: nat :: t1.Leaf(y) == t0.Leaf(y))
    && (forall y: nat :: t1.State(y) == AfterMap(t0, va, base, p, y))
    && (forall y: nat :: t1.Entry(y) == EntryAfterMap(t0, va, base, p, flags, y))
  }

  ghost function EntryAfterMap(t: Tree, va: nat, base: nat, p: nat, flags: nat, y: nat): Pte
    requires t.Valid()
  {
    var off := Off(t.g, va, y);
    if off < p then PteSet(base + off / PAGE_SIZE * PAGE_SIZE, PTE_PAGE, flags) else t.Entry(y)
  }

  ghost function AfterMap(t: Tree, va: nat, base: nat, p: nat, y: nat): PageState
    requires t.Valid()
  {
    if Off(t.g, va, y) < p then Mapped(MapsTo(base, Off(t.g, va, y))) else t.State(y)
  }

  lemma PageOffset(g: Geometry, a: nat, y: nat)
    requires g.WF() && Rem(a, PAGE_SIZE) == 0 && Off(g, a, y) < PAGE_SIZE
    ensures Off(g, a, y) == Rem(y, PAGE_SIZE)
  {
    g.SpaceDivides(g.Lvls() - 1);
    RemNest(y - a, g.space, PAGE_SIZE);
    RemSubMultiple(y, a, PAGE_SIZE);
  }

  /** The page `p` bytes into the range is where the offset from `va` is in `[p, p + PAGE_SIZE)`. */
  lemma PageInRange(g: Geometry, va: nat, p: nat, y: nat)
    requires g.WF() && Rem(va + p, PAGE_SIZE) == 0 && p + PAGE_SIZE <= g.space
    ensures g.Block(g.Lvls() - 1, va + p) == g.Block(g.Lvls() - 1, y)
       <==> p <= Off(g, va, y) < p + PAGE_SIZE
    ensures p <= Off(g, va, y) < p + PAGE_SIZE ==> Off(g, va, y) == p + Rem(y, PAGE_SIZE)
  {
    hide Rem, Off, Quot;
    BlockIsOff(g, g.Lvls() - 1, va + p, y);
    if p <= Off(g, va, y) {
      OffAhead(g, va, p, y);
      if Off(g, va, y) < p + PAGE_SIZE {
        PageOffset(g, va + p, y);
      }
    } else {
      OffBehind(g, va, p, y);
    }
  }

  lemma EntryStep(t: Tree, va: nat, base: nat, i: nat, flags: nat, y: nat)
    requires t.Valid()
    ensures var p, q := i * PAGE_SIZE, (i + 1) * PAGE_SIZE;
      EntryAfterMap(t, va, base, q, flags, y) ==
        if p <= Off(t.g, va, y) < q then PteSet(base + p, PTE_PAGE, flags) else EntryAfterMap(t, va, base, p, flags, y)
  {
    hide Tree.Valid, Tree.Entry, PteSet, Off;
  }

  /** A page entry is well formed whatever its address. */
  lemma PageEntryOk(t: Tree, a: nat, flags: nat)
    requires t.g.WF()
    ensures var v := PteSet(a, PTE_PAGE, flags);
      && t.EntryOk(t.g.Lvls() - 1, v) && !t.IsTable(t.g.Lvls() - 1, v) && v.IsValid()
      && forall y: nat :: t.StateOf(t.g.Lvls() - 1, v, y) == Mapped(AddrMask(a) + Rem(y, PAGE_SIZE))
  {
    hide Rem;
    LastIsPage(t.g);
  }

  lemma MapStep(t0: Tree, t1: Tree, va: nat, base: nat, i: nat, flags: nat)
    requires MappedUpTo(t0, t1, va, base, i * PAGE_SIZE, flags)
    requires va % PAGE_SIZE == 0 && (i + 1) * PAGE_SIZE <= t0.g.space
    requires t1.Has(t0.g.Lvls() - 1, va + i * PAGE_SIZE)
    ensures var a, l := va + i * PAGE_SIZE, t0.g.Lvls() - 1;
      var v := PteSet(base + i * PAGE_SIZE, PTE_PAGE, flags);
      && !t1.IsTable(l, t1.E(l, a)) && !t1.IsTable(l, v) && t1.EntryOk(l, v)
      && t1.Put(l, a, v).Valid() && MappedUpTo(t0, t1.Put(l, a, v), va, base, (i + 1) * PAGE_SIZE, flags)
  {
    hide Rem, Quot, Down, Off, Tree.Valid, Tree.State, Tree.StateOf, Tree.Leaf, Tree.Entry, Geometry.WF, Geometry.Block,
      Geometry.Index, AddrMask, EntryAfterMap, PteSet, Tree.EntryOk;
    var g, a, l, p := t0.g, va + i * PAGE_SIZE, t0.g.Lvls() - 1, i * PAGE_SIZE;
    var v := PteSet(base + p, PTE_PAGE, flags);
    RemIsModulo(a, PAGE_SIZE);
    PageEntryOk(t1, base + p, flags);
    PutLeaf(t1, l, a, v);
    var t2 := t1.Put(l, a, v);
    TablesAfter(t1, l, a, v, 0, 0);
    var q := (i + 1) * PAGE_SIZE;
    forall y: nat
      ensures t2.Leaf(y) == t0.Leaf(y) && t2.State(y) == AfterMap(t0, va, base, q, y)
      ensures t2.Entry(y) == EntryAfterMap(t0, va, base, q, flags, y)
    {
      PutLeafState(t1, l, a, v, y);
      PageInRange(g, va, p, y);
      EntryStep(t0, va, base, i, flags, y);
      assert t1.State(y) == AfterMap(t0, va, base, p, y) && t1.Entry(y) == EntryAfterMap(t0, va, base, p, flags, y);
    }
  }

  lemma LastIsPage(g: Geometry)
    requires g.WF()
    ensures g.sz[g.Lvls() - 1] == PAGE_SIZE
  {
  }

  lemma MapNothing(t: Tree, va: nat, base: nat, flags: nat)
    requires t.Valid()
    ensures MappedUpTo(t, t, va, base, 0, flags)
  {
  }

  /** Whatever is mapped is mapped page by page. */
  ghost predicate PageLeaves(t: Tree)
    requires t.Valid()
  {
    forall y: nat :: t.State(y).Mapped? ==> t.Leaf(y) == t.g.Lvls() - 1
  }

  /** The whole page of a last-level leaf is one. */
  lemma PageIsLeaf(t: Tree, a: nat, y: nat)
    requires t.Valid() && a % PAGE_SIZE == 0 && a <= y < a + PAGE_SIZE
    ensures t.Leaf(a) == t.g.Lvls() - 1 <==> t.Leaf(y) == t.g.Lvls() - 1
  {
    hide Rem, Quot, Tree.Valid, Tree.Leaf, Geometry.WF;
    LastIsPage(t.g);
    RemIsModulo(a, PAGE_SIZE);
    DownIsMultiple(a, PAGE_SIZE);
    DownOfBlock(a, 0, PAGE_SIZE);
    DownOfBlock(a, y - a, PAGE_SIZE);
    SameDownSameBlock(t.g, t.g.Lvls() - 1, a, y);
    if t.Leaf(a) == t.g.Lvls() - 1 {
      SameLeaf(t, a, y);
    }
    if t.Leaf(y) == t.g.Lvls() - 1 {
      SameLeaf(t, y, a);
    }
  }

  /** With no leaf coarser and nothing mapped in addition, that stays so. */
  lemma KeepsPageLeaves(t0: Tree, t: Tree)
    requires t0.Valid() && t.Valid() && t0.g == t.g && PageLeaves(t0)
    requires forall y: nat :: t0.Leaf(y) <= t.Leaf(y) && (t.State(y).Mapped? ==> t0.State(y).Mapped?)
    ensures PageLeaves(t)
  {
    hide Tree.Valid, Tree.State, Tree.Leaf, Geometry.WF;
  }

  lemma MapKeepsPageLeaves(t0: Tree, t1: Tree, t2: Tree, va: nat, base: nat, p: nat, flags: nat)
    requires Kept(t0, t1) && MappedUpTo(t1, t2, va, base, p, flags) && PageLeaves(t0)
    requires forall y: nat :: va <= y < va + p ==> t2.Leaf(y) == t2.g.Lvls() - 1
    ensures PageLeaves(t2)
  {
    hide Tree.Valid, Tree.State, Tree.Leaf, Tree.Entry, Geometry.WF, Off, MapsTo, EntryAfterMap;
    forall y: nat | t2.State(y).Mapped? ensures t2.Leaf(y) == t2.g.Lvls() - 1 {
      assert t2.State(y) == AfterMap(t1, va, base, p, y);
      if Off(t1.g, va, y) < p {
        CanonOff(t1.g, va, y);
        Periodic(t2, y, va + Off(t1.g, va, y));
      } else {
        assert t1.State(y) == t0.State(y) && t0.Leaf(y) <= t1.Leaf(y);
      }
    }
  }

  /** A page entry is never expanded. */
  lemma PageKept(t0: Tree, t1: Tree, attrs: nat, y: nat)
    requires t0.Valid() && t1.Valid() && t0.g == t1.g && AttrsKeptAt(t0, t1, attrs, y)
    requires t0.Leaf(y) == t0.g.Lvls() - 1 && t1.State(y).Mapped?
    ensures t1.Entry(y) == t0.Entry(y)
  {
    assert t1.Has(t1.Leaf(y), y);
  }

  /** The attributes of what has been mapped, and of what was mapped elsewhere. */
  ghost predicate AttrsAfterMap(t0: Tree, t1: Tree, va: nat, p: nat, flags: nat, attrs: nat) {
    && t0.Valid() && t1.Valid() && t0.g == t1.g
    && (forall y: nat :: Off(t0.g, va, y) < p ==> t1.Entry(y).attrs == flags)
    && (forall y: nat :: p <= Off(t0.g, va, y) ==> AttrsKeptAt(t0, t1, attrs, y))
    && (forall y: nat :: p <= Off(t0.g, va, y) && t0.Leaf(y) == t0.g.Lvls() - 1 && t1.State(y).Mapped? ==>
      t1.Entry(y) == t0.Entry(y))
  }

  lemma MapAttrs(t0: Tree, t1: Tree, t2: Tree, va: nat, base: nat, p: nat, flags: nat, attrs: nat)
    requires AttrsKept(t0, t1, attrs) && MappedUpTo(t1, t2, va, base, p, flags)
    ensures AttrsAfterMap(t0, t2, va, p, flags, attrs)
  {
    hide Tree.Valid, Tree.State, Tree.Leaf, Tree.Entry, Geometry.WF, Off, MapsTo, AddrMask;
    forall y: nat
      ensures Off(t0.g, va, y) < p ==> t2.Entry(y).attrs == flags
      ensures p <= Off(t0.g, va, y) ==> AttrsKeptAt(t0, t2, attrs, y)
      ensures p <= Off(t0.g, va, y) && t0.Leaf(y) == t0.g.Lvls() - 1 && t2.State(y).Mapped? ==> t2.Entry(y) == t0.Entry(y)
    {
      assert t2.Entry(y) == EntryAfterMap(t1, va, base, p, flags, y);
      assert t2.State(y) == AfterMap(t1, va, base, p, y) && t2.Leaf(y) == t1.Leaf(y);
      assert AttrsKeptAt(t0, t1, attrs, y);
      if p <= Off(t0.g, va, y) && t0.Leaf(y) == t0.g.Lvls() - 1 && t2.State(y).Mapped? {
        PageKept(t0, t2, attrs, y);
      }
    }
  }

  /** Where the loop of `mem_map` stands, the last level is as deep as it was before the loop. */
  lemma MapAt(t0: Tree, t1: Tree, va: nat, base: nat, i: nat, flags: nat)
    requires MappedUpTo(t0, t1, va, base, i * PAGE_SIZE, flags)
    ensures t0.Valid() && t1.Valid() && t0.g == t1.g
    ensures t1.Has(t0.g.Lvls() - 1, va + i * PAGE_SIZE) <==> t0.Leaf(va + i * PAGE_SIZE) == t0.g.Lvls() - 1
  {
    hide Tree.State, Tree.Entry, Tree.Leaf, Tree.Valid, Geometry.WF;
    var a := va + i * PAGE_SIZE;
    HasIffLeaf(t1, t0.g.Lvls() - 1, a);
    HasIffLeaf(t1, t1.Leaf(a), a);
  }

  lemma MappedAttrs(t0: Tree, t1: Tree, va: nat, base: nat, i: nat, flags: nat)
    requires MappedUpTo(t0, t1, va, base, (i + 1) * PAGE_SIZE, flags) && (i + 1) * PAGE_SIZE <= t0.g.space
    ensures forall y: nat :: va + i * PAGE_SIZE <= y < va + i * PAGE_SIZE + PAGE_SIZE ==> t1.Entry(y).attrs == flags
  {
    hide Tree.Valid, Tree.State, Tree.Leaf, Tree.Entry, Geometry.WF, Off, AddrMask;
    forall y: nat | va + i * PAGE_SIZE <= y < va + i * PAGE_SIZE + PAGE_SIZE ensures t1.Entry(y).attrs == flags {
      OffNear(t0.g, va, y);
      assert t1.Entry(y) == EntryAfterMap(t0, va, base, (i + 1) * PAGE_SIZE, flags, y);
    }
  }

  /** Inflation and the loop together: what every address stands for, and with what attributes. */
  lemma MapOutcome(t0: Tree, t1: Tree, t2: Tree, va: nat, base: nat, n: nat, flags: nat, attrs: nat)
    requires Kept(t0, t1) && AttrsKept(t0, t1, attrs) && MappedUpTo(t1, t2, va, base, n * PAGE_SIZE, flags)
    requires forall y: nat :: va <= y < va + n * PAGE_SIZE ==> t2.Leaf(y) == t2.g.Lvls() - 1
    ensures forall y: nat :: t2.State(y) == AfterMap(t0, va, base, n * PAGE_SIZE, y)
    ensures forall y: nat :: t2.Leaf(y) == t1.Leaf(y) && t0.Leaf(y) <= t2.Leaf(y)
    ensures PageLeaves(t0) ==> PageLeaves(t2)
    ensures AttrsAfterMap(t0, t2, va, n * PAGE_SIZE, flags, attrs)
  {
    hide Tree.Valid, Tree.State, Tree.Leaf, Tree.Entry, Geometry.WF, Off, MapsTo, PageLeaves, AttrsAfterMap, AttrsKept,
      EntryAfterMap;
    var p := n * PAGE_SIZE;
    MapAttrs(t0, t1, t2, va, base, p, flags, attrs);
    if PageLeaves(t0) {
      MapKeepsPageLeaves(t0, t1, t2, va, base, p, flags);
    }
    forall y: nat
      ensures t2.State(y) == AfterMap(t0, va, base, p, y) && t2.Leaf(y) == t1.Leaf(y) && t0.Leaf(y) <= t2.Leaf(y)
    {
      assert t2.State(y) == AfterMap(t1, va, base, p, y);
    }
  }

  lemma AttrsAfterBoth(t0: Tree, t1: Tree, t2: Tree, va: nat, p: nat, flags: nat, attrs: nat)
    requires AttrsKept(t0, t1, attrs) && AttrsAfterMap(t1, t2, va, p, flags, attrs)
    ensures AttrsAfterMap(t0, t2, va, p, flags, attrs)
    ensures p == 0 ==> AttrsKept(t0, t2, attrs)
  {
    hide Tree.Valid, Tree.State, Tree.Leaf, Tree.Entry, Geometry.WF, Off;
    forall y: nat | p <= Off(t0.g, va, y)
      ensures AttrsKeptAt(t0, t2, attrs, y)
      ensures t0.Leaf(y) == t0.g.Lvls() - 1 && t2.State(y).Mapped? ==> t2.Entry(y) == t0.Entry(y)
    {
      assert AttrsKeptAt(t0, t1, attrs, y) && AttrsKeptAt(t1, t2, attrs, y);
      if t0.Leaf(y) == t0.g.Lvls() - 1 && t2.State(y).Mapped? {
        PageKept(t0, t2, attrs, y);
      }
    }
  }

  /** Whether the loop over the pages gets to its end. */
  lemma MapVerdict(t0: Tree, t1: Tree, t2: Tree, va: nat, pages: nat, nrPages: nat, done: nat)
    requires InflatedOrMissed(t0, t1, va, nrPages * PAGE_SIZE) && t2.Valid() && t2.g == t0.g
    requires done <= pages <= nrPages && pages * PAGE_SIZE <= t0.g.space
    requires forall y: nat :: t2.Leaf(y) == t1.Leaf(y)
    requires forall y: nat :: va <= y < va + done * PAGE_SIZE ==> t2.Leaf(y) == t2.g.Lvls() - 1
    requires done < pages ==> t2.Leaf(va + done * PAGE_SIZE) < t2.g.Lvls() - 1
    ensures done < pages ==> 0 < nrPages && !StepsReachEnd(t0, va, nrPages * PAGE_SIZE)
    ensures done == pages == nrPages && 0 < nrPages ==> StepsReachEnd(t0, va, nrPages * PAGE_SIZE)
    ensures 0 < nrPages && StepsReachEnd(t0, va, nrPages * PAGE_SIZE) ==>
      forall y: nat :: va <= y < va + nrPages * PAGE_SIZE ==> t2.Leaf(y) == t2.g.Lvls() - 1
  {
    hide Tree.Valid, Tree.State, Tree.Leaf, Geometry.WF, StepsReachEnd;
    if 0 < nrPages && StepsReachEnd(t0, va, nrPages * PAGE_SIZE) {
      forall y: nat | va <= y < va + nrPages * PAGE_SIZE ensures t2.Leaf(y) == t2.g.Lvls() - 1 {
        assert t2.Has(t2.Leaf(y), y);
      }
    }
  }
}
