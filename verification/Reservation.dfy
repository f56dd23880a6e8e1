/** Reserving a run of free pages, and what the outcome of a search tells. */
module Reservation {
  import opened Blocks
  import opened PageTable
  import opened Ranges
  import opened Expansion
  import opened Mapping
  import opened Scanning

  ghost function AfterReserve(t: Tree, va: nat, p: nat, y: nat): PageState
    requires t.Valid()
  {
    if Off(t.g, va, y) < p then Reserved else t.State(y)
  }

  /** Every address stands for what it stood for, but for the `n` pages from `va` on, which are reserved. */
  ghost predicate Reserves(t0: Tree, t1: Tree, va: nat, n: nat)
    requires t0.Valid() && t1.Valid()
  {
    forall y: nat :: t1.State(y) == AfterReserve(t0, va, n * PAGE_SIZE, y)
  }

  /** `t1` is `t0` with the first `p` bytes from `va` on reserved. */
  ghost predicate ReservedUpTo(t0: Tree, t1: Tree, va: nat, p: nat) {
    && t0.Valid() && t1.Valid() && t0.g == t1.g
    && (forall y: nat :: t1.Leaf(y) == t0.Leaf(y))
    && (forall y: nat :: t1.State(y) == AfterReserve(t0, va, p, y))
  }

  /** `addr` is where a leaf block of the run ends, or where the run starts. */
  ghost predicate Tiled(t: Tree, va: nat, addr: nat)
    requires t.Valid() && va <= addr
  {
    va < addr ==> Down(addr - 1, t.g.sz[t.Leaf(addr - 1)]) + t.g.sz[t.Leaf(addr - 1)] == addr
  }

  /** Inside a run made of whole leaf blocks, every leaf starts where the previous one ends. */
  lemma NextTile(t: Tree, va: nat, e: nat, addr: nat)
    requires t.Valid() && Run(t, va, e) && va <= addr < e && Tiled(t, va, addr)
    ensures var s := t.g.sz[t.Leaf(addr)];
      Rem(addr, s) == 0 && addr + s <= e && Tiled(t, va, addr + s)
  {
    hide Rem, Quot, Tree.Valid, Tree.Leaf, Geometry.WF, Geometry.Block;
    var s := t.g.sz[t.Leaf(addr)];
    assert InsideAt(t, addr, va, e);
    if Down(addr, s) < addr {
      DownOrder(addr, addr - 1, s);
      SameDownSameBlock(t.g, t.Leaf(addr), addr, addr - 1);
      SameLeaf(t, addr, addr - 1);
      assert false;
    }
    DownOrder(addr, addr + s - 1, s);
    SameDownSameBlock(t.g, t.Leaf(addr), addr, addr + s - 1);
    SameLeaf(t, addr, addr + s - 1);
    DownIsMultiple(addr, s);
  }

  lemma BlockAhead(g: Geometry, l: nat, va: nat, p: nat, y: nat)
    requires g.WF() && l < g.Lvls() && Rem(va + p, g.sz[l]) == 0
    ensures Off(g, va, y) < p + g.sz[l]
       <==> Off(g, va, y) < p || g.Block(l, va + p) == g.Block(l, y)
  {
    hide Rem, Off, Quot, Geometry.Block;
    BlockIsOff(g, l, va + p, y);
    if p <= Off(g, va, y) {
      OffAhead(g, va, p, y);
    }
  }

  lemma ReserveStep(t0: Tree, t1: Tree, va: nat, e: nat, p: nat)
    requires ReservedUpTo(t0, t1, va, p) && Run(t0, va, e) && va + p < e && Tiled(t0, va, va + p)
    ensures var addr := va + p;
      var l := t1.Leaf(addr);
      var v := PteSetRsw(t1.E(l, addr), RSW_RSRV);
      && !t1.E(l, addr).IsValid() && !t1.IsTable(l, v) && t1.EntryOk(l, v)
      && addr + t0.g.sz[l] <= e && Tiled(t0, va, addr + t0.g.sz[l])
      && t1.Put(l, addr, v).Valid()
      && ReservedUpTo(t0, t1.Put(l, addr, v), va, p + t0.g.sz[l])
  {
    hide Rem, Quot, Down, Off, Tree.Valid, Tree.Leaf, Geometry.WF, Geometry.Block, Geometry.Index, Tiled;
    var addr := va + p;
    var l := t1.Leaf(addr);
    NextTile(t0, va, e, addr);
    assert t1.State(addr) == AfterReserve(t0, va, p, addr);
    LeafOk(t1, l, addr);
    var v := PteSetRsw(t1.E(l, addr), RSW_RSRV);
    PutLeaf(t1, l, addr, v);
    var t2 := t1.Put(l, addr, v);
    var q := p + t0.g.sz[l];
    forall y: nat
      ensures t2.Leaf(y) == t0.Leaf(y) && t2.State(y) == AfterReserve(t0, va, q, y)
    {
      PutLeafState(t1, l, addr, v, y);
      BlockAhead(t0.g, l, va, p, y);
      assert t1.State(y) == AfterReserve(t0, va, p, y);
    }
  }

  lemma ReserveNothing(t: Tree, va: nat)
    requires t.Valid()
    ensures ReservedUpTo(t, t, va, 0) && Tiled(t, va, va)
  {
  }

  /** A run stays a run under reservation of other pages and its whole blocks let inflation through. */
  lemma RunStepsReachEnd(t: Tree, va: nat, len: nat)
    requires t.Valid() && 0 < len
    requires InsideAt(t, va + len - 1, va, va + len)
    ensures StepsReachEnd(t, va, len)
  {
    hide Quot, Tree.Valid, Tree.Leaf, Geometry.WF, Geometry.Block;
    var last := va + len - 1;
    forall l: nat | l + 1 < t.g.Lvls()
      ensures StepsReach(t, va, len, l)
    {
      if t.Leaf(last) <= l {
        FinerInside(t.g, t.Leaf(last), l, last);
        EndOfBlock(t.g, t.Leaf(last), l, last);
      }
    }
  }

  /** The last address of a block is the last address of every finer block that holds it. */
  lemma EndOfBlock(g: Geometry, l: nat, m: nat, y: nat)
    requires g.WF() && l <= m < g.Lvls() && y + 1 == Down(y, g.sz[l]) + g.sz[l]
    ensures Rem(y, g.sz[m]) == g.sz[m] - 1
  {
    hide Quot, Geometry.WF;
    var s, u := g.sz[l], g.sz[m];
    g.Divides(l, m);
    DownIsMultiple(y, s);
    RemShift(Down(y, s), s);
    RemTransitive(y + 1, s, u);
    DownIsMultiple(y, u);
    MultipleGap(Down(y, u), y + 1, u);
  }

  // ---------------------------------------------------------------------------------------------
  // What a failed search tells

  lemma BlockedAnywhere(t: Tree, n: nat, p: nat)
    requires t.Valid() && AllBlocked(t, t.g.space, n) && p % PAGE_SIZE == 0
    ensures Blocked(t, p, n)
  {
    var c := t.g.Canon(p);
    CanonPage(t.g, p);
    assert Blocked(t, c, n);
    var y: nat :| c <= y < c + n * PAGE_SIZE && t.State(y) != Free;
    var z := y - c + p;
    SameCanonAhead(t.g, p, y - c);
    Periodic(t, y, z);
  }

  lemma CanonPage(g: Geometry, p: nat)
    requires g.WF() && p % PAGE_SIZE == 0
    ensures g.Canon(p) % PAGE_SIZE == 0
  {
    g.SpaceDivides(g.Lvls() - 1);
    RemIsModulo(p, PAGE_SIZE);
    RemNest(p, g.space, PAGE_SIZE);
    RemIsModulo(g.Canon(p), PAGE_SIZE);
  }

  lemma SameCanonAhead(g: Geometry, p: nat, d: nat)
    requires g.WF()
    ensures g.Canon(g.Canon(p) + d) == g.Canon(p + d)
  {
    RemPlus(p, d, g.space);
  }

  datatype VpageResult = Address(va: nat) | NoRange | SearchWraps | NoPages

  /** The scan has found a run. */
  lemma ScanDone(t0: Tree, t: Tree, want: nat, n: nat, s: Scan)
    requires ScanAt(t0, t, want, n, s) && s.count == n && 0 < n
    ensures Kept(t0, t) && s.vpage == s.addr - n * PAGE_SIZE && s.vpage != INVALID_VA
    ensures s.vpage % PAGE_SIZE == 0 && s.vpage + n * PAGE_SIZE <= VA_LIMIT
    ensures Run(t, s.vpage, s.vpage + n * PAGE_SIZE)
    ensures forall y: nat :: s.vpage <= y < s.vpage + n * PAGE_SIZE ==> t0.State(y) == Free
    ensures want != INVALID_VA ==> s.vpage == want
    ensures want == INVALID_VA ==> AllBlocked(t0, s.vpage, n)
  {
  }

  /** A search without a given place has run into the end of the 64-bit addresses, or too close to it. */
  lemma ScanStuck(t0: Tree, t: Tree, n: nat, s: Scan)
    requires ScanAt(t0, t, INVALID_VA, n, s) && s.count < n && n * PAGE_SIZE <= t0.g.space
    requires s.addr == VA_LIMIT || (VA_LIMIT - s.addr) / PAGE_SIZE < n
    ensures AllBlocked(t0, t0.g.space, n)
  {
    hide Tree.Valid, Tree.State, Tree.Leaf, Blocked;
  }

  lemma ScanBegin(t: Tree, want: nat, n: nat)
    requires t.Valid() && want < VA_LIMIT && (want == INVALID_VA || want % PAGE_SIZE == 0)
    ensures ScanAt(t, t, want, n, Scan(0, if want == INVALID_VA then 0 else want, 0, INVALID_VA, false))
  {
    ScanStart(t, want, n);
  }

  lemma ReservedRun(t0: Tree, t1: Tree, t2: Tree, va: nat, n: nat)
    requires Kept(t0, t1) && ReservedUpTo(t1, t2, va, n * PAGE_SIZE) && 0 < n
    requires Run(t1, va, va + n * PAGE_SIZE)
    ensures forall y: nat :: t2.State(y) == AfterReserve(t0, va, n * PAGE_SIZE, y)
    ensures forall y: nat :: t0.Leaf(y) <= t2.Leaf(y)
    ensures InsideAt(t2, va + n * PAGE_SIZE - 1, va, va + n * PAGE_SIZE)
    ensures forall y: nat :: va <= y < va + n * PAGE_SIZE ==> BlockLevel(t2.g, t2.Leaf(y))
  {
    hide Rem, Quot, Down, Tree.Valid, Tree.State, Tree.Leaf, Geometry.WF, Off, BlockLevel;
    var e := va + n * PAGE_SIZE;
    assert InsideAt(t1, e - 1, va, e);
    forall y: nat
      ensures t2.State(y) == AfterReserve(t0, va, n * PAGE_SIZE, y) && t0.Leaf(y) <= t2.Leaf(y)
    {
      assert t2.Leaf(y) == t1.Leaf(y);
      assert t2.State(y) == AfterReserve(t1, va, n * PAGE_SIZE, y);
    }
  }

  lemma ReservedNothing(t0: Tree, t1: Tree)
    requires t0.Valid() && t1.Valid() && forall y: nat :: t1.State(y) == t0.State(y)
    ensures Reserves(t0, t1, 0, 0)
  {
    hide Tree.Valid, Tree.State;
  }

  /** With no page mapped yet, the range found is all that has changed. */
  lemma ReservedOnly(t0: Tree, t1: Tree, t2: Tree, va: nat, base: nat, n: nat)
    requires t0.Valid() && t1.Valid() && t2.Valid() && t0.g == t1.g && Reserves(t0, t1, va, n)
    requires forall y: nat :: t2.State(y) == AfterMap(t1, va, base, 0, y)
    ensures Reserves(t0, t2, va, n)
  {
    hide Tree.Valid, Tree.State, Off;
    forall y: nat ensures t2.State(y) == AfterReserve(t0, va, n * PAGE_SIZE, y) {
      assert t1.State(y) == AfterReserve(t0, va, n * PAGE_SIZE, y);
      assert t2.State(y) == AfterMap(t1, va, base, 0, y);
    }
  }
}
