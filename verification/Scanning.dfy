/** Searching for free address space, page by page in meaning but block by block in the tables. */
module Scanning {
  import opened Blocks
  import opened PageTable
  import opened Ranges
  import opened Expansion
  import opened Mapping

  const INVALID_VA: nat := VA_LIMIT - 1

  /** Some page of the `n` pages from `p` on is mapped or reserved. */
  ghost predicate Blocked(t: Tree, p: nat, n: nat)
    requires t.Valid()
  {
    exists y: nat :: p <= y < p + n * PAGE_SIZE && t.State(y) != Free
  }

  /** The leaf block of `y` lies within `[s, e)`. */
  ghost predicate InsideAt(t: Tree, y: nat, s: nat, e: nat)
    requires t.Valid()
  {
    var sz := t.g.sz[t.Leaf(y)];
    s <= Down(y, sz) && Down(y, sz) + sz <= e
  }

  /** A level at which an entry can map something itself, or one below such a level. */
  ghost predicate BlockLevel(g: Geometry, l: nat) {
    l + 1 == g.Lvls() || exists k :: 0 <= k <= l && k < |g.term| && g.term[k]
  }

  lemma FinerBlockLevel(g: Geometry, l: nat, m: nat)
    requires BlockLevel(g, l) && l <= m < g.Lvls()
    ensures BlockLevel(g, m)
  {
  }

  /** `[s, e)` is free and made of whole leaf blocks, at levels at which there are blocks. */
  ghost predicate Run(t: Tree, s: nat, e: nat)
    requires t.Valid()
  {
    forall y: nat :: s <= y < e ==> t.State(y) == Free && InsideAt(t, y, s, e) && BlockLevel(t.g, t.Leaf(y))
  }

  /** Wherever `addr` is inside a block, that block is a table. */
  ghost predicate Settled(t: Tree, addr: nat)
    requires t.Valid()
  {
    forall l: nat :: l < t.g.Lvls() && Rem(addr, t.g.sz[l]) != 0 ==> l < t.Leaf(addr)
  }

  ghost predicate AllBlocked(t: Tree, s: nat, n: nat)
    requires t.Valid()
  {
    forall p: nat :: p < s && p % PAGE_SIZE == 0 ==> Blocked(t, p, n)
  }

  /** The scan stands at `addr`, having counted `count` pages up to it. */
  ghost function ScanInv(t0: Tree, t: Tree, at: nat, n: nat, lvl: nat, addr: nat, count: nat): (r: bool)
    ensures r ==> Kept(t0, t)
  {
    && Kept(t0, t) && lvl <= t.Leaf(addr)
    && addr % PAGE_SIZE == 0 && count <= n && count * PAGE_SIZE <= addr
    && Run(t, addr - count * PAGE_SIZE, addr)
    && (at != INVALID_VA ==> addr - count * PAGE_SIZE == at)
    && (at == INVALID_VA ==> Settled(t, addr) && AllBlocked(t0, addr - count * PAGE_SIZE, n))
  }

  lemma ScanStart(t: Tree, at: nat, n: nat)
    requires t.Valid() && (at == INVALID_VA || at % PAGE_SIZE == 0)
    ensures ScanInv(t, t, at, n, 0, if at == INVALID_VA then 0 else at, 0)
  {
  }

  /** A free entry that cannot be counted whole becomes a table. */
  lemma ScanSplit(t0: Tree, t: Tree, at: nat, n: nat, lvl: nat, addr: nat, count: nat,
                  base: nat, attrs: nat)
    requires ScanInv(t0, t, at, n, lvl, addr, count)
    requires t.Has(lvl, addr) && lvl + 1 < t.g.Lvls() && !t.IsTable(lvl, t.E(lvl, addr))
    requires !t.E(lvl, addr).IsValid() && t.E(lvl, addr).rsw != RSW_RSRV
    ensures t.Split(lvl, addr, base, attrs).Valid()
    ensures ScanInv(t0, t.Split(lvl, addr, base, attrs), at, n, lvl + 1, addr, count)
  {
    hide Rem, Quot, Down, Tree.Valid, Tree.Leaf, Geometry.Block, Geometry.WF, Tree.Split, Blocked;
    SplitValid(t, lvl, addr, base, attrs);
    var t1 := t.Split(lvl, addr, base, attrs);
    assert t1.g == t.g by { SplitGeometry(t, lvl, addr, base, attrs); }
    var s := addr - count * PAGE_SIZE;
    forall y: nat
      ensures t1.State(y) == t.State(y) && t.Leaf(y) <= t1.Leaf(y)
    {
      SplitState(t, lvl, addr, base, attrs, y);
      if t.SameBlock(lvl, addr, y) {
        SameBlockSameEntry(t, lvl, addr, y);
        assert t.State(y) == Free;
      }
    }
    forall y: nat | s <= y < addr
      ensures InsideAt(t1, y, s, addr) && BlockLevel(t1.g, t1.Leaf(y))
    {
      assert InsideAt(t, y, s, addr);
      FinerInside(t.g, t.Leaf(y), t1.Leaf(y), y);
      FinerBlockLevel(t.g, t.Leaf(y), t1.Leaf(y));
    }
    SplitState(t, lvl, addr, base, attrs, addr);
  }

  lemma FinerInside(g: Geometry, l: nat, m: nat, y: nat)
    requires g.WF() && l <= m < g.Lvls()
    ensures Down(y, g.sz[l]) <= Down(y, g.sz[m])
    ensures Down(y, g.sz[m]) + g.sz[m] <= Down(y, g.sz[l]) + g.sz[l]
  {
    g.Divides(l, m);
    DownNest(y, g.sz[l], g.sz[m]);
  }

  /** Stepping over the leaf at `addr` keeps the search settled. */
  lemma SettledStep(t: Tree, addr: nat)
    requires t.Valid() && Settled(t, addr)
    ensures Rem(addr, t.g.sz[t.Leaf(addr)]) == 0
    ensures Settled(t, addr + t.g.sz[t.Leaf(addr)])
  {
    hide Quot, Tree.Valid, Tree.Leaf, Geometry.Block, Geometry.WF;
    var lvl := t.Leaf(addr);
    var s, a := t.g.sz[lvl], addr + t.g.sz[lvl];
    forall l: nat | l < t.g.Lvls() && Rem(a, t.g.sz[l]) != 0
      ensures l < t.Leaf(a)
    {
      if lvl <= l {
        t.g.Divides(lvl, l);
        RemShift(addr, s);
        RemTransitive(a, s, t.g.sz[l]);
      } else {
        StayInBlock(t.g, l, lvl, addr);
        SameDownSameBlock(t.g, l, addr, a);
        HasIffLeaf(t, l + 1, addr);
        HasIffLeaf(t, l + 1, a);
        HasIffLeaf(t, l, a);
        SameTable(t, l, addr, a);
      }
    }
  }

  /** Blocks in one coarser block have the same table below it. */
  lemma SameTable(t: Tree, l: nat, x: nat, y: nat)
    requires t.Valid() && l + 1 < t.g.Lvls() && t.SameBlock(l, x, y)
    ensures t.Has(l + 1, x) <==> t.Has(l + 1, y)
  {
  }

  lemma StayInBlock(g: Geometry, l: nat, lvl: nat, addr: nat)
    requires g.WF() && l < lvl < g.Lvls() && Rem(addr, g.sz[lvl]) == 0
    requires Rem(addr + g.sz[lvl], g.sz[l]) != 0
    ensures Down(addr + g.sz[lvl], g.sz[l]) == Down(addr, g.sz[l])
  {
    hide Quot, Geometry.WF;
    var a := addr + g.sz[lvl];
    var b := Down(a, g.sz[l]);
    g.Divides(l, lvl);
    DownIsMultiple(a, g.sz[l]);
    RemTransitive(b, g.sz[l], g.sz[lvl]);
    RemShift(addr, g.sz[lvl]);
    MultipleGap(b, a, g.sz[lvl]);
    DownOrder(a, addr, g.sz[l]);
  }

  /** Stepping within a table stays within its span. */
  lemma IndexStep(g: Geometry, l: nat, x: nat)
    requires g.WF() && l < g.Lvls() && g.Index(l, x) + 1 < g.nent[l]
    ensures g.Index(l, x + g.sz[l]) == g.Index(l, x) + 1
    ensures g.TableKey(l, x + g.sz[l]) == g.TableKey(l, x)
  {
    hide Geometry.WF;
    var s := g.sz[l];
    RemSucc(Quot(x, s), g.nent[l]);
    if 0 < l {
      RoomInTable(g, l, x);
      var t := g.sz[l - 1];
      DownOrder(x, x + s, t);
      SameDownSameBlock(g, l - 1, x, x + s);
    }
  }

  lemma {:induction false} RemSucc(q: nat, n: nat)
    requires 0 < n && Rem(q, n) + 1 < n
    ensures Rem(q + 1, n) == Rem(q, n) + 1
    decreases q
  {
    if n <= q {
      RemSucc(q - n, n);
    }
  }

  lemma RoomInTable(g: Geometry, l: nat, x: nat)
    requires g.WF() && 0 < l < g.Lvls() && g.Index(l, x) + 1 < g.nent[l]
    ensures Rem(x, g.sz[l - 1]) + g.sz[l] < g.sz[l - 1]
  {
    var s, t, i := g.sz[l], g.sz[l - 1], g.Index(l, x);
    IndexInTable(g, l, x);
    QuotTimes(Rem(x, t), s);
    assert g.Exact(l);
    MulMonotone(i + 2, g.nent[l], s);
    assert (i + 2) * s == i * s + s + s;
  }

  /** A free leaf at the end of a run makes it longer. */
  lemma RunTake(t: Tree, b: nat, addr: nat)
    requires t.Valid() && Run(t, b, addr) && b <= addr
    requires t.State(addr) == Free && Rem(addr, t.g.sz[t.Leaf(addr)]) == 0 && BlockLevel(t.g, t.Leaf(addr))
    ensures Run(t, b, addr + t.g.sz[t.Leaf(addr)])
  {
    hide Rem, Quot, Tree.Valid, Tree.State, Tree.Leaf, Geometry.WF, Geometry.Block;
    var lvl := t.Leaf(addr);
    var s, a := t.g.sz[lvl], addr + t.g.sz[lvl];
    forall y: nat | b <= y < a
      ensures t.State(y) == Free && InsideAt(t, y, b, a) && BlockLevel(t.g, t.Leaf(y))
    {
      if y < addr {
        assert InsideAt(t, y, b, addr);
      } else {
        DownOfBlock(addr, 0, s);
        DownOfBlock(addr, y - addr, s);
        SameDownSameBlock(t.g, lvl, addr, y);
        SameBlockFree(t, addr, y);
      }
    }
  }

  /** A free leaf counted whole extends the run. */
  lemma ScanTake(t0: Tree, t: Tree, at: nat, n: nat, lvl: nat, addr: nat, count: nat)
    requires ScanInv(t0, t, at, n, lvl, addr, count)
    requires t.Leaf(addr) == lvl && t.State(addr) == Free && Rem(addr, t.g.sz[lvl]) == 0
    requires t.g.sz[lvl] <= (n - count) * PAGE_SIZE && BlockLevel(t.g, lvl)
    ensures t.g.sz[lvl] / PAGE_SIZE * PAGE_SIZE == t.g.sz[lvl]
    ensures ScanInv(t0, t, at, n, 0, addr + t.g.sz[lvl], count + t.g.sz[lvl] / PAGE_SIZE)
  {
    hide BlockLevel, Rem, Quot, Tree.Valid, Tree.State, Tree.Leaf, Geometry.WF, Geometry.Block, Blocked, InsideAt;
    BlockIsPages(t.g, lvl);
    RunTake(t, addr - count * PAGE_SIZE, addr);
    if at == INVALID_VA {
      SettledStep(t, addr);
    }
    HasIffLeaf(t, 0, addr + t.g.sz[lvl]);
  }

  lemma SameBlockFree(t: Tree, x: nat, y: nat)
    requires t.Valid() && t.State(x) == Free && t.SameBlock(t.Leaf(x), x, y)
    ensures t.Leaf(y) == t.Leaf(x) && t.State(y) == Free
  {
    SameLeaf(t, x, y);
    SameBlockSameEntry(t, t.Leaf(x), x, y);
  }

  /** An occupied leaf blocks every start up to its end. */
  lemma SkipBlocks(t0: Tree, t: Tree, n: nat, addr: nat, count: nat, p: nat)
    requires Kept(t0, t) && count < n && count * PAGE_SIZE <= addr
    requires Rem(addr, t.g.sz[t.Leaf(addr)]) == 0 && t.State(addr) != Free
    requires addr - count * PAGE_SIZE <= p < addr + t.g.sz[t.Leaf(addr)]
    ensures Blocked(t0, p, n)
  {
    hide Rem, Quot, Tree.Valid, Tree.State, Tree.Leaf, Geometry.WF, Geometry.Block;
    var s := t.g.sz[t.Leaf(addr)];
    if p <= addr {
      assert t0.State(addr) != Free;
    } else {
      DownOfBlock(addr, 0, s);
      DownOfBlock(addr, p - addr, s);
      SameDownSameBlock(t.g, t.Leaf(addr), addr, p);
      SameBlockTaken(t, addr, p);
      assert t0.State(p) != Free;
    }
  }

  lemma ScanSkip(t0: Tree, t: Tree, n: nat, lvl: nat, addr: nat, count: nat)
    requires ScanInv(t0, t, INVALID_VA, n, lvl, addr, count) && count < n
    requires t.Leaf(addr) == lvl && t.State(addr) != Free
    ensures ScanInv(t0, t, INVALID_VA, n, 0, addr + t.g.sz[lvl], 0)
    ensures Rem(addr, t.g.sz[lvl]) == 0
  {
    hide Rem, Quot, Tree.Valid, Tree.State, Tree.Leaf, Geometry.WF, Geometry.Block, Blocked;
    var a := addr + t.g.sz[lvl];
    BlockIsPages(t.g, lvl);
    SettledStep(t, addr);
    forall p: nat | p < a && p % PAGE_SIZE == 0
      ensures Blocked(t0, p, n)
    {
      if addr - count * PAGE_SIZE <= p {
        SkipBlocks(t0, t, n, addr, count, p);
      }
    }
  }

  lemma SameBlockTaken(t: Tree, x: nat, y: nat)
    requires t.Valid() && t.State(x) != Free && t.SameBlock(t.Leaf(x), x, y)
    ensures t.State(y) != Free
  {
    SameLeaf(t, x, y);
    SameBlockSameEntry(t, t.Leaf(x), x, y);
  }

  /** Where the scan stands; `vpage` is the first page of what has been counted. */
  datatype Scan = Scan(lvl: nat, addr: nat, count: nat, vpage: nat, failed: bool)

  /** The scan is under way. */
  ghost function ScanAt(t0: Tree, t: Tree, want: nat, n: nat, s: Scan): (r: bool)
    ensures r ==> Kept(t0, t) && s.addr <= VA_LIMIT
  {
    && ScanInv(t0, t, want, n, s.lvl, s.addr, s.count)
    && s.vpage == (if s.count == 0 then INVALID_VA else s.addr - s.count * PAGE_SIZE)
    && s.addr <= VA_LIMIT
  }

  /** The scan has met a taken page where only a given place would do. */
  ghost predicate ScanFailed(t0: Tree, t: Tree, want: nat, n: nat, s: Scan) {
    && Kept(t0, t) && want != INVALID_VA && Blocked(t0, want, n) && s.vpage == INVALID_VA
  }

  /** The entry for `x` is a leaf of the walk and says what `x` stands for. */
  lemma EntryIsLeaf(t: Tree, l: nat, x: nat)
    requires t.Valid() && t.Has(l, x)
    ensures t.EntryOk(l, t.E(l, x))
    ensures t.IsTable(l, t.E(l, x)) ==> l + 1 <= t.Leaf(x)
    ensures !t.IsTable(l, t.E(l, x)) ==>
      t.Leaf(x) == l && t.State(x) == t.StateOf(l, t.E(l, x), x)
  {
    if t.IsTable(l, t.E(l, x)) {
      assert t.Linked(l + 1, x);
      HasIffLeaf(t, l + 1, x);
    } else {
      LeafUnique(t, l, x);
    }
  }

  /** The next block of a level does not reach past the last address. */
  lemma BlockBelowTop(g: Geometry, l: nat, addr: nat)
    requires g.WF() && l < g.Lvls() && Rem(addr, g.sz[l]) == 0 && addr < VA_LIMIT
    ensures addr + g.sz[l] <= VA_LIMIT
  {
    g.SpaceDivides(l);
    assert Rem(VA_LIMIT, g.space) == 0;
    RemTransitive(VA_LIMIT, g.space, g.sz[l]);
    MultipleGap(addr, VA_LIMIT, g.sz[l]);
  }

  /** The last address is the end of a table. */
  lemma TopStartsTable(g: Geometry, l: nat)
    requires g.WF() && l < g.Lvls()
    ensures g.Index(l, VA_LIMIT) == 0
  {
    IndexInTable(g, l, VA_LIMIT);
    g.SpanDivides(l);
    assert Rem(VA_LIMIT, g.space) == 0;
    RemTransitive(VA_LIMIT, g.space, g.Span(l));
  }

  lemma OccupiedFails(t0: Tree, t: Tree, want: nat, n: nat, lvl: nat, addr: nat, count: nat)
    requires ScanInv(t0, t, want, n, lvl, addr, count) && want != INVALID_VA && count < n
    requires t.State(addr) != Free
    ensures Blocked(t0, want, n)
  {
    assert t0.State(addr) != Free;
  }

  /** Within a table, the next entry is for the next block. */
  lemma NextEntry(t: Tree, l: nat, x: nat)
    requires t.Valid() && t.Has(l, x) && t.g.Index(l, x) + 1 < t.g.nent[l]
    ensures t.Has(l, x + t.g.sz[l])
    ensures t.g.TableKey(l, x + t.g.sz[l]) == t.g.TableKey(l, x)
    ensures t.g.Index(l, x + t.g.sz[l]) == t.g.Index(l, x) + 1
  {
    IndexStep(t.g, l, x);
  }

  lemma ScanAtLevel(t0: Tree, t: Tree, want: nat, n: nat, s: Scan, lvl: nat)
    requires ScanAt(t0, t, want, n, s.(lvl := 0)) && t.Has(lvl, s.addr)
    ensures ScanAt(t0, t, want, n, s.(lvl := lvl))
  {
    HasIffLeaf(t, lvl, s.addr);
  }

  lemma ScanHas(t0: Tree, t: Tree, want: nat, n: nat, s: Scan)
    requires ScanAt(t0, t, want, n, s)
    ensures Kept(t0, t) && t.Has(s.lvl, s.addr) && s.lvl <= t.Leaf(s.addr) && s.count <= n
    ensures s.addr % PAGE_SIZE == 0 && (s.vpage == INVALID_VA <==> s.count == 0)
  {
    HasIffLeaf(t, s.lvl, s.addr);
  }

  lemma TakeEntry(t0: Tree, t: Tree, want: nat, n: nat, s: Scan)
    requires ScanAt(t0, t, want, n, s) && s.addr < VA_LIMIT && s.count < n
    requires t.Leaf(s.addr) == s.lvl && t.State(s.addr) == Free
    requires s.lvl + 1 == t.g.Lvls() ||
      (t.g.term[s.lvl] && t.g.sz[s.lvl] <= (n - s.count) * PAGE_SIZE && s.addr % t.g.sz[s.lvl] == 0)
    ensures ScanAt(t0, t, want, n, Scan(0, s.addr + t.g.sz[s.lvl], s.count + t.g.sz[s.lvl] / PAGE_SIZE,
      if s.count == 0 then s.addr else s.vpage, s.failed))
    ensures Rem(s.addr, t.g.sz[s.lvl]) == 0
  {
    hide Rem, Quot, Tree.Valid, Tree.State, Tree.Leaf, Geometry.WF, ScanInv;
    ScanHas(t0, t, want, n, s);
    LastIsPage(t.g);
    RemIsModulo(s.addr, t.g.sz[s.lvl]);
    ScanTake(t0, t, want, n, s.lvl, s.addr, s.count);
    BlockBelowTop(t.g, s.lvl, s.addr);
    BlockIsPages(t.g, s.lvl);
  }

  lemma SkipEntry(t0: Tree, t: Tree, n: nat, s: Scan)
    requires ScanAt(t0, t, INVALID_VA, n, s) && s.addr < VA_LIMIT && s.count < n
    requires t.Leaf(s.addr) == s.lvl && t.State(s.addr) != Free
    ensures ScanAt(t0, t, INVALID_VA, n, Scan(0, s.addr + t.g.sz[s.lvl], 0, INVALID_VA, s.failed))
    ensures Rem(s.addr, t.g.sz[s.lvl]) == 0
  {
    hide Rem, Quot, Tree.Valid, Tree.State, Tree.Leaf, Geometry.WF, ScanInv;
    ScanSkip(t0, t, n, s.lvl, s.addr, s.count);
    BlockBelowTop(t.g, s.lvl, s.addr);
  }

  lemma DescendEntry(t0: Tree, t: Tree, want: nat, n: nat, s: Scan)
    requires ScanAt(t0, t, want, n, s) && t.Has(s.lvl, s.addr) && t.IsTable(s.lvl, t.E(s.lvl, s.addr))
    ensures ScanAt(t0, t, want, n, s.(lvl := s.lvl + 1))
  {
    ScanHas(t0, t, want, n, s);
    EntryIsLeaf(t, s.lvl, s.addr);
  }

  lemma SplitEntryScan(t0: Tree, t: Tree, want: nat, n: nat, s: Scan, base: nat, attrs: nat)
    requires ScanAt(t0, t, want, n, s)
    requires t.Has(s.lvl, s.addr) && s.lvl + 1 < t.g.Lvls() && !t.IsTable(s.lvl, t.E(s.lvl, s.addr))
    requires !t.E(s.lvl, s.addr).IsValid() && t.E(s.lvl, s.addr).rsw != RSW_RSRV
    ensures t.Split(s.lvl, s.addr, base, attrs).Valid()
    ensures ScanAt(t0, t.Split(s.lvl, s.addr, base, attrs), want, n, s.(lvl := s.lvl + 1))
    ensures t.Split(s.lvl, s.addr, base, attrs).Has(s.lvl, s.addr)
    ensures t.Split(s.lvl, s.addr, base, attrs).E(s.lvl, s.addr).typ == PTE_TABLE
  {
    ScanSplit(t0, t, want, n, s.lvl, s.addr, s.count, base, attrs);
    SplitEntry(t, s.lvl, s.addr, base, attrs, s.lvl, s.addr);
  }

  /** Inside a table the scan is not at the very top. */
  lemma BelowTop(t0: Tree, t: Tree, want: nat, n: nat, s: Scan)
    requires ScanAt(t0, t, want, n, s) && s.lvl < t.g.Lvls() && t.g.Index(s.lvl, s.addr) != 0
    ensures s.addr < VA_LIMIT
  {
    TopStartsTable(t.g, s.lvl);
  }
}
