/**
 * Where a search that finds nothing enters its tables, and whether it ever ends (src/core/mmu.c,
 * lines 211-256). Without an address given, the only way out is the test at the head of the outer
 * loop; at the end of the 64-bit addresses the search starts over at 0.
 */
module Seams {
  import opened Blocks
  import opened PageTable
  import opened Ranges
  import opened Mapping
  import opened Scanning
  import opened Reservation

  // ------------------------------------------------------------------ where a search stops to look

  /** A free entry of this level can be taken whole. */
  predicate Terminal(g: Geometry, l: nat)
    requires l < |g.term|
  {
    l + 1 == g.Lvls() || g.term[l]
  }

  /** The first level from `l` on at which free entries can be taken whole. */
  ghost function NextTerminal(g: Geometry, l: nat): (r: nat)
    requires g.WF() && l < g.Lvls()
    ensures l <= r < g.Lvls() && Terminal(g, r)
    ensures forall m: nat :: l <= m < r ==> !Terminal(g, m)
    decreases g.Lvls() - l
  {
    if Terminal(g, l) then l else NextTerminal(g, l + 1)
  }

  /** The level at which a search that finds nothing looks at `y`. */
  ghost function ScanLevel(t: Tree, y: nat): (r: nat)
    requires t.Valid()
    ensures t.Leaf(y) <= r < t.g.Lvls()
  {
    if t.State(y) == Free then NextTerminal(t.g, t.Leaf(y)) else t.Leaf(y)
  }

  /** The search comes to `a` from another table: `a` starts one, or is looked at on another level than what is before. */
  ghost predicate Seam(t: Tree, a: nat)
    requires t.Valid() && 0 < a
  {
    var l := ScanLevel(t, a);
    t.g.SpanDivides(l);
    ScanLevel(t, a - 1) != l || Rem(a, t.g.Span(l)) == 0
  }

  /** From every seam on there is room for `n` pages below the end of the 64-bit addresses. */
  ghost predicate RoomAtSeams(t: Tree, n: nat)
    requires t.Valid()
  {
    forall a: nat :: 0 < a < VA_LIMIT && Seam(t, a) ==> a + n * PAGE_SIZE <= VA_LIMIT
  }

  /** No `n` pages in a row are free, wherever they start. */
  ghost predicate Hopeless(t: Tree, n: nat)
    requires t.Valid()
  {
    forall p: nat :: p % PAGE_SIZE == 0 ==> Blocked(t, p, n)
  }

  // ------------------------------------------------------------------ the same at a given place

  /** A free block of level `l` over `y` can be taken whole by a search for exactly `[lo, hi)`. */
  predicate Fitting(g: Geometry, l: nat, lo: nat, hi: nat, y: nat)
    requires l < |g.sz| == |g.term| && 0 < g.sz[l]
  {
    l + 1 == g.Lvls() || (g.term[l] && lo <= Down(y, g.sz[l]) && Down(y, g.sz[l]) + g.sz[l] <= hi)
  }

  ghost function NextFitting(g: Geometry, l: nat, lo: nat, hi: nat, y: nat): (r: nat)
    requires g.WF() && l < g.Lvls()
    ensures l <= r < g.Lvls() && Fitting(g, r, lo, hi, y)
    ensures forall m: nat :: l <= m < r ==> !Fitting(g, m, lo, hi, y)
    decreases g.Lvls() - l
  {
    if Fitting(g, l, lo, hi, y) then l else NextFitting(g, l + 1, lo, hi, y)
  }

  /** The level at which a search for exactly `[lo, hi)`, all of it free, looks at `y`. */
  ghost function TileLevel(t: Tree, lo: nat, hi: nat, y: nat): (r: nat)
    requires t.Valid()
    ensures t.Leaf(y) <= r < t.g.Lvls()
  {
    NextFitting(t.g, t.Leaf(y), lo, hi, y)
  }

  /** Such a search comes to `a` from another table. */
  ghost predicate Stop(t: Tree, lo: nat, hi: nat, a: nat)
    requires t.Valid() && 0 < a
  {
    var l := TileLevel(t, lo, hi, a);
    t.g.SpanDivides(l);
    TileLevel(t, lo, hi, a - 1) != l || Rem(a, t.g.Span(l)) == 0
  }

  ghost predicate RoomWithin(t: Tree, lo: nat, hi: nat, size: nat)
    requires t.Valid()
  {
    forall a: nat :: lo < a < hi && Stop(t, lo, hi, a) ==> a + size <= VA_LIMIT
  }

  /** From every stop inside the range there is room for `n` pages. */
  ghost predicate RoomAtStops(t: Tree, want: nat, n: nat)
    requires t.Valid()
  {
    RoomWithin(t, want, want + n * PAGE_SIZE, n * PAGE_SIZE)
  }

  // ------------------------------------------------------------------ following the search

  ghost function LookLevel(t: Tree, want: nat, n: nat, y: nat): (r: nat)
    requires t.Valid()
    ensures t.Leaf(y) <= r < t.g.Lvls()
  {
    if want == INVALID_VA then ScanLevel(t, y) else TileLevel(t, want, want + n * PAGE_SIZE, y)
  }

  ghost predicate SeamAt(t: Tree, want: nat, n: nat, a: nat)
    requires t.Valid() && 0 < a
  {
    if want == INVALID_VA then Seam(t, a) else Stop(t, want, want + n * PAGE_SIZE, a)
  }

  /** What the search comes to look at. */
  predicate Scope(want: nat, n: nat, y: nat) {
    want == INVALID_VA || want <= y < want + n * PAGE_SIZE
  }

  /** The searches that are followed: those that find nothing anywhere, and those for a free range. */
  ghost predicate Telling(t: Tree, want: nat, n: nat)
    requires t.Valid()
  {
    if want == INVALID_VA then Hopeless(t, n) else !Blocked(t, want, n) && n * PAGE_SIZE <= t.g.space
  }

  /** The tree has become no finer than the search needs, and as fine as that before `addr`. */
  ghost predicate Surveyed(t0: Tree, t: Tree, want: nat, n: nat, addr: nat)
    requires t0.Valid() && t.Valid()
  {
    && (forall y: nat :: Scope(want, n, y) ==> t.Leaf(y) <= LookLevel(t0, want, n, y))
    && (forall y: nat :: Scope(want, n, y) && y < addr ==> t.Leaf(y) == LookLevel(t0, want, n, y))
  }

  ghost predicate NoSeams(t: Tree, want: nat, n: nat, a: nat, b: nat)
    requires t.Valid()
  {
    forall x: nat :: a < x < b ==> !SeamAt(t, want, n, x)
  }

  /** Inside a table of level `lvl`, entered at `from`, the search has come to `addr`. */
  ghost predicate Survey(t0: Tree, t: Tree, want: nat, n: nat, from: nat, addr: nat, lvl: nat) {
    && Kept(t0, t) && from <= addr && (want == INVALID_VA || want <= from)
    && (Telling(t0, want, n) ==>
         && Surveyed(t0, t, want, n, addr) && NoSeams(t0, want, n, from, addr)
         && (from < addr ==> LookLevel(t0, want, n, addr - 1) == lvl))
  }

  /** It leaves that table at `addr`, which is the next seam, or has come to its end there. */
  ghost predicate Surveying(t0: Tree, t: Tree, want: nat, n: nat, from: nat, addr: nat, ended: bool) {
    && Kept(t0, t) && from <= addr && (want == INVALID_VA || want <= from)
    && (Telling(t0, want, n) ==>
         && Surveyed(t0, t, want, n, addr) && NoSeams(t0, want, n, from, addr)
         && (from < addr && !ended ==> SeamAt(t0, want, n, addr)))
  }

  function Begin(want: nat): nat {
    if want == INVALID_VA then 0 else want
  }

  /** At the head of the outer loop: every seam passed had room. */
  ghost predicate Rounding(t0: Tree, t: Tree, want: nat, n: nat, addr: nat, ended: bool) {
    && Kept(t0, t) && Begin(want) <= addr
    && (Telling(t0, want, n) ==>
         && Surveyed(t0, t, want, n, addr) && (Begin(want) < addr && !ended ==> SeamAt(t0, want, n, addr))
         && (forall a: nat :: Begin(want) < a < addr && SeamAt(t0, want, n, a) ==> a + n * PAGE_SIZE <= VA_LIMIT))
  }

  lemma LevelOfTaken(t0: Tree, t: Tree, n: nat, addr: nat, a: nat, y: nat)
    requires Kept(t0, t) && Surveyed(t0, t, INVALID_VA, n, a)
    requires t.SameBlock(t.Leaf(addr), addr, y)
    requires t.State(addr) != Free || Terminal(t.g, t.Leaf(addr))
    ensures ScanLevel(t0, y) == t.Leaf(y) == t.Leaf(addr)
  {
    hide Rem, Quot, Tree.Valid, Tree.State, Tree.Leaf, Geometry.WF, Geometry.Block;
    SameLeaf(t, addr, y);
    if t.State(addr) == Free {
      SameBlockFree(t, addr, y);
    } else {
      SameBlockTaken(t, addr, y);
    }
    assert Scope(INVALID_VA, n, y) && t.Leaf(y) <= LookLevel(t0, INVALID_VA, n, y);
    assert t0.State(y) == t.State(y) && t0.Leaf(y) <= t.Leaf(y);
  }

  /** At a given place, a block taken whole lies in the range. */
  lemma TileOfTaken(t0: Tree, t: Tree, want: nat, n: nat, addr: nat, y: nat)
    requires Kept(t0, t) && Surveyed(t0, t, want, n, addr) && want != INVALID_VA && want <= addr
    requires var s := t.g.sz[t.Leaf(addr)];
             Rem(addr, s) == 0 && addr <= y < addr + s <= want + n * PAGE_SIZE && t.SameBlock(t.Leaf(addr), addr, y)
    requires Terminal(t.g, t.Leaf(addr))
    ensures TileLevel(t0, want, want + n * PAGE_SIZE, y) == t.Leaf(y) == t.Leaf(addr)
  {
    hide Rem, Quot, Tree.Valid, Tree.State, Tree.Leaf, Geometry.WF, Geometry.Block;
    SameLeaf(t, addr, y);
    DownOfBlock(addr, y - addr, t.g.sz[t.Leaf(addr)]);
    assert Scope(want, n, y) && t.Leaf(y) <= LookLevel(t0, want, n, y);
    assert t0.Leaf(y) <= t.Leaf(y);
    assert Fitting(t0.g, t.Leaf(addr), want, want + n * PAGE_SIZE, y);
  }

  /** Inside a block there is no seam, nor at its start when the table goes on there. */
  lemma BlockHasNoSeam(t0: Tree, want: nat, n: nat, lvl: nat, addr: nat, x: nat)
    requires t0.Valid() && lvl < t0.g.Lvls() && Rem(addr, t0.g.sz[lvl]) == 0
    requires forall y: nat :: addr <= y < addr + t0.g.sz[lvl] ==> LookLevel(t0, want, n, y) == lvl
    requires addr < x < addr + t0.g.sz[lvl]
    ensures !SeamAt(t0, want, n, x)
  {
    hide Quot, Tree.Valid, Tree.State, Tree.Leaf, Geometry.WF, ScanLevel, TileLevel;
    var s := t0.g.sz[lvl];
    t0.g.SpanPositive(lvl);
    DownOfBlock(addr, x - addr, s);
    RemNest(x, t0.g.Span(lvl), s);
    assert LookLevel(t0, want, n, x) == lvl == LookLevel(t0, want, n, x - 1);
  }

  /** One entry has been counted or stepped over. */
  lemma SurveyStep(t0: Tree, t: Tree, want: nat, n: nat, from: nat, addr: nat, lvl: nat)
    requires Survey(t0, t, want, n, from, addr, lvl) && t.Leaf(addr) == lvl && Rem(addr, t.g.sz[lvl]) == 0
    requires if want == INVALID_VA then t.State(addr) != Free || Terminal(t.g, lvl)
             else Terminal(t.g, lvl) && addr + t.g.sz[lvl] <= want + n * PAGE_SIZE
    requires from < addr ==> t.g.Index(lvl, addr) != 0
    ensures Survey(t0, t, want, n, from, addr + t.g.sz[lvl], lvl)
  {
    hide Rem, Quot, Tree.Valid, Tree.State, Tree.Leaf, Geometry.WF, Geometry.Block, ScanLevel, TileLevel, Telling;
    if Telling(t0, want, n) {
      var s := t.g.sz[lvl];
      forall y: nat | addr <= y < addr + s ensures LookLevel(t0, want, n, y) == t.Leaf(y) == lvl {
        DownOfBlock(addr, 0, s);
        DownOfBlock(addr, y - addr, s);
        SameDownSameBlock(t.g, lvl, addr, y);
        if want == INVALID_VA {
          LevelOfTaken(t0, t, n, addr, addr, y);
        } else {
          TileOfTaken(t0, t, want, n, addr, y);
        }
      }
      SeamlessStep(t0, want, n, from, addr, lvl);
      hide LookLevel;
      assert Surveyed(t0, t, want, n, addr + s);
    }
  }

  lemma SeamlessStep(t0: Tree, want: nat, n: nat, from: nat, addr: nat, lvl: nat)
    requires t0.Valid() && lvl < t0.g.Lvls() && Rem(addr, t0.g.sz[lvl]) == 0 && NoSeams(t0, want, n, from, addr)
    requires from <= addr && (from < addr ==> LookLevel(t0, want, n, addr - 1) == lvl && t0.g.Index(lvl, addr) != 0)
    requires forall y: nat :: addr <= y < addr + t0.g.sz[lvl] ==> LookLevel(t0, want, n, y) == lvl
    ensures NoSeams(t0, want, n, from, addr + t0.g.sz[lvl])
  {
    hide Rem, Quot, Tree.Valid, Tree.State, Tree.Leaf, Geometry.WF, Geometry.Block, ScanLevel, TileLevel;
    NotFirstNotAligned(t0.g, lvl, addr);
    assert LookLevel(t0, want, n, addr) == lvl;
    forall x: nat | from < x < addr + t0.g.sz[lvl] ensures !SeamAt(t0, want, n, x) {
      if addr < x {
        BlockHasNoSeam(t0, want, n, lvl, addr, x);
      }
    }
  }

  lemma NotFirstNotAligned(g: Geometry, l: nat, x: nat)
    requires g.WF() && l < g.Lvls()
    ensures 0 < g.Span(l)
    ensures Rem(x, g.Span(l)) == 0 ==> g.Index(l, x) == 0
  {
    IndexInTable(g, l, x);
  }

  /** A hopeless search takes whole whatever it meets free: else it would have found its run. */
  lemma HopelessFits(t0: Tree, t: Tree, n: nat, lvl: nat, addr: nat, count: nat)
    requires ScanInv(t0, t, INVALID_VA, n, lvl, addr, count) && count < n && Hopeless(t0, n)
    requires t.Leaf(addr) == lvl && t.State(addr) == Free
    ensures t.g.sz[lvl] <= (n - count) * PAGE_SIZE && Rem(addr, t.g.sz[lvl]) == 0
  {
    hide Rem, Quot, Tree.Valid, Tree.State, Tree.Leaf, Geometry.WF, Geometry.Block, InsideAt;
    SettledStep(t, addr);
    var p, s := addr - count * PAGE_SIZE, t.g.sz[lvl];
    assert p % PAGE_SIZE == 0;
    if s > (n - count) * PAGE_SIZE {
      FreeTake(t, p, addr);
      StretchIsFree(t0, t, p, n, addr + s);
    }
  }

  /** A free leaf behind a run. */
  lemma FreeTake(t: Tree, b: nat, addr: nat)
    requires t.Valid() && Run(t, b, addr) && b <= addr
    requires t.State(addr) == Free && Rem(addr, t.g.sz[t.Leaf(addr)]) == 0
    ensures forall y: nat :: b <= y < addr + t.g.sz[t.Leaf(addr)] ==> t.State(y) == Free
  {
    hide Rem, Quot, Tree.Valid, Tree.State, Tree.Leaf, Geometry.WF, Geometry.Block;
    var s := t.g.sz[t.Leaf(addr)];
    forall y: nat | addr <= y < addr + s ensures t.State(y) == Free {
      DownOfBlock(addr, 0, s);
      DownOfBlock(addr, y - addr, s);
      SameDownSameBlock(t.g, t.Leaf(addr), addr, y);
      SameBlockFree(t, addr, y);
    }
  }

  lemma StretchIsFree(t0: Tree, t: Tree, p: nat, n: nat, e: nat)
    requires Kept(t0, t) && p + n * PAGE_SIZE <= e && forall y: nat :: p <= y < e ==> t.State(y) == Free
    ensures !Blocked(t0, p, n)
  {
    hide Tree.Valid, Tree.State, Tree.Leaf, Geometry.WF, InsideAt;
    forall y: nat | p <= y < p + n * PAGE_SIZE ensures t0.State(y) == Free {
      assert t.State(y) == Free;
    }
  }

  lemma SurveySplit(t0: Tree, t: Tree, n: nat, lvl: nat, addr: nat, base: nat, attrs: nat)
    requires Kept(t0, t) && Surveyed(t0, t, INVALID_VA, n, addr) && t.Has(lvl, addr) && lvl + 1 < t.g.Lvls()
    requires !t.IsTable(lvl, t.E(lvl, addr)) && t.State(addr) == Free && !Terminal(t.g, lvl)
    ensures t.Split(lvl, addr, base, attrs).Valid()
    ensures Surveyed(t0, t.Split(lvl, addr, base, attrs), INVALID_VA, n, addr) && lvl < ScanLevel(t0, addr)
  {
    hide Rem, Quot, Tree.Valid, Tree.State, Tree.Leaf, Geometry.WF, Geometry.Block, Tree.Split;
    SplitValid(t, lvl, addr, base, attrs);
    LeafUnique(t, lvl, addr);
    forall y: nat
      ensures t.SameBlock(lvl, addr, y) ==> lvl < ScanLevel(t0, y) && addr <= y
      ensures t.Split(lvl, addr, base, attrs).Leaf(y) == if t.SameBlock(lvl, addr, y) then lvl + 1 else t.Leaf(y)
    {
      SplitState(t, lvl, addr, base, attrs, y);
      assert Scope(INVALID_VA, n, y);
      if t.SameBlock(lvl, addr, y) {
        SameBlockFree(t, addr, y);
        assert t0.State(y) == t.State(y) && t.Leaf(y) <= LookLevel(t0, INVALID_VA, n, y);
      }
    }
    assert t.SameBlock(lvl, addr, addr);
  }

  /** What the search counts or goes into lies in its range. */
  lemma InScope(t0: Tree, t: Tree, want: nat, n: nat, s: Scan)
    requires ScanAt(t0, t, want, n, s) && s.count < n && s.lvl < t.g.Lvls()
    ensures Scope(want, n, s.addr)
    ensures want != INVALID_VA && (s.lvl + 1 == t.g.Lvls() || t.g.sz[s.lvl] <= (n - s.count) * PAGE_SIZE) ==>
      s.addr + t.g.sz[s.lvl] <= want + n * PAGE_SIZE
  {
    hide Kept, Run, Settled, AllBlocked;
    GeometryOfKept(t0, t);
    LastIsPage(t.g);
  }

  lemma GeometryOfKept(t0: Tree, t: Tree)
    requires Kept(t0, t)
    ensures t.g.WF()
  {
  }

  /** A block that a search for a given range splits is taken whole at no address of the range. */
  lemma SplitTile(t0: Tree, t: Tree, want: nat, n: nat, lvl: nat, addr: nat, y: nat)
    requires Kept(t0, t) && Surveyed(t0, t, want, n, addr) && want != INVALID_VA && n * PAGE_SIZE <= t.g.space
    requires Run(t, want, addr) && want <= addr < want + n * PAGE_SIZE && t.Leaf(addr) == lvl && lvl + 1 < t.g.Lvls()
    requires !(t.g.term[lvl] && addr + t.g.sz[lvl] <= want + n * PAGE_SIZE && Rem(addr, t.g.sz[lvl]) == 0)
    requires Scope(want, n, y) && t.SameBlock(lvl, addr, y)
    ensures lvl < LookLevel(t0, want, n, y) && addr <= y
  {
    hide Rem, Quot, Tree.Valid, Tree.State, Tree.Leaf, Geometry.WF, Geometry.Block, Down;
    var s, hi := t.g.sz[lvl], want + n * PAGE_SIZE;
    SameLeaf(t, addr, y);
    assert lvl <= LookLevel(t0, want, n, y);
    if LookLevel(t0, want, n, y) == lvl {
      assert Fitting(t.g, lvl, want, hi, y);
      NearBlock(t.g, lvl, want, hi, addr, y);
      AtBlockStart(t0, t, want, n, lvl, addr, y);
    }
  }

  /** In a range no longer than the address space, the block of `y`, if it lies in the range, is met once. */
  lemma NearBlock(g: Geometry, l: nat, lo: nat, hi: nat, x: nat, y: nat)
    requires g.WF() && l < g.Lvls() && lo <= x < hi <= lo + g.space && g.Block(l, x) == g.Block(l, y)
    requires lo <= Down(y, g.sz[l]) && Down(y, g.sz[l]) + g.sz[l] <= hi
    ensures Down(y, g.sz[l]) <= x < Down(y, g.sz[l]) + g.sz[l] && Down(x, g.sz[l]) == Down(y, g.sz[l])
  {
    hide Rem, Quot, Geometry.WF, Geometry.Block;
    var b, s := Down(y, g.sz[l]), g.sz[l];
    DownIsMultiple(y, s);
    SpaceHolds(g, l);
    OffNear(g, b, y);
    BlockIsOff(g, l, b, y);
    BlockIsOff(g, l, b, x);
    if b <= x {
      OffNear(g, b, x);
      DownOrder(y, x, s);
    } else {
      OffBefore(g, b, x);
      assert false;
    }
  }

  lemma SpaceHolds(g: Geometry, l: nat)
    requires g.WF() && l < g.Lvls()
    ensures g.sz[l] <= g.space
  {
    g.SpaceDivides(l);
  }

  /** A block of the range that begins before `addr` has been taken before. */
  lemma AtBlockStart(t0: Tree, t: Tree, want: nat, n: nat, lvl: nat, addr: nat, y: nat)
    requires Kept(t0, t) && Surveyed(t0, t, want, n, addr) && want != INVALID_VA
    requires Run(t, want, addr) && want <= addr < want + n * PAGE_SIZE && t.Leaf(addr) == lvl
    requires want <= Down(addr, t.g.sz[lvl]) == Down(y, t.g.sz[lvl]) && t.Leaf(y) == lvl
    ensures Rem(addr, t.g.sz[lvl]) == 0 && Down(addr, t.g.sz[lvl]) == addr
  {
    hide Rem, Quot, Tree.Valid, Tree.State, Tree.Leaf, Geometry.WF, Geometry.Block;
    var s := t.g.sz[lvl];
    var b := Down(addr, s);
    if b < addr {
      DownOrder(addr, b, s);
      SameDownSameBlock(t.g, lvl, addr, b);
      SameLeaf(t, addr, b);
      EndsBefore(t, want, addr, b);
    }
  }

  lemma EndsBefore(t: Tree, s: nat, e: nat, y: nat)
    requires t.Valid() && Run(t, s, e) && s <= y < e
    ensures Down(y, t.g.sz[t.Leaf(y)]) + t.g.sz[t.Leaf(y)] <= e
  {
    assert InsideAt(t, y, s, e);
  }

  lemma SurveySplitAt(t0: Tree, t: Tree, want: nat, n: nat, lvl: nat, addr: nat, base: nat, attrs: nat)
    requires Kept(t0, t) && Surveyed(t0, t, want, n, addr) && want != INVALID_VA && n * PAGE_SIZE <= t.g.space
    requires Run(t, want, addr) && want <= addr < want + n * PAGE_SIZE && t.Has(lvl, addr) && lvl + 1 < t.g.Lvls()
    requires !t.IsTable(lvl, t.E(lvl, addr))
    requires !(t.g.term[lvl] && addr + t.g.sz[lvl] <= want + n * PAGE_SIZE && Rem(addr, t.g.sz[lvl]) == 0)
    ensures t.Split(lvl, addr, base, attrs).Valid()
    ensures Surveyed(t0, t.Split(lvl, addr, base, attrs), want, n, addr) && lvl < LookLevel(t0, want, n, addr)
  {
    hide Rem, Quot, Tree.Valid, Tree.State, Tree.Leaf, Geometry.WF, Geometry.Block, Tree.Split, LookLevel, Run;
    SplitValid(t, lvl, addr, base, attrs);
    LeafUnique(t, lvl, addr);
    forall y: nat | Scope(want, n, y)
      ensures t.SameBlock(lvl, addr, y) ==> lvl < LookLevel(t0, want, n, y) && addr <= y
      ensures t.Split(lvl, addr, base, attrs).Leaf(y) == if t.SameBlock(lvl, addr, y) then lvl + 1 else t.Leaf(y)
    {
      SplitState(t, lvl, addr, base, attrs, y);
      if t.SameBlock(lvl, addr, y) {
        SplitTile(t0, t, want, n, lvl, addr, y);
      }
    }
    assert t.SameBlock(lvl, addr, addr) && Scope(want, n, addr);
  }

  /** A free entry that cannot be taken has become a table. */
  lemma SurveySplitEntry(t0: Tree, t: Tree, want: nat, n: nat, from: nat, s: Scan, base: nat, attrs: nat)
    requires Survey(t0, t, want, n, from, s.addr, s.lvl) && ScanAt(t0, t, want, n, s) && s.count < n
    requires t.Has(s.lvl, s.addr) && s.lvl + 1 < t.g.Lvls() && !t.IsTable(s.lvl, t.E(s.lvl, s.addr))
    requires t.State(s.addr) == Free
    requires !(t.g.term[s.lvl] && t.g.sz[s.lvl] <= (n - s.count) * PAGE_SIZE && s.addr % t.g.sz[s.lvl] == 0)
    ensures t.Split(s.lvl, s.addr, base, attrs).Valid()
    ensures Kept(t0, t.Split(s.lvl, s.addr, base, attrs)) ==>
      Surveying(t0, t.Split(s.lvl, s.addr, base, attrs), want, n, from, s.addr, false)
  {
    hide Rem, Quot, Tree.Valid, Tree.State, Tree.Leaf, Geometry.WF, Geometry.Block, Tree.Split, ScanLevel, TileLevel,
      Hopeless, Surveyed, NoSeams, Blocked, Run;
    SplitValid(t, s.lvl, s.addr, base, attrs);
    LeafUnique(t, s.lvl, s.addr);
    RemIsModulo(s.addr, t.g.sz[s.lvl]);
    if Telling(t0, want, n) {
      if want == INVALID_VA {
        HopelessFits(t0, t, n, s.lvl, s.addr, s.count);
        SurveySplit(t0, t, n, s.lvl, s.addr, base, attrs);
      } else {
        SurveySplitAt(t0, t, want, n, s.lvl, s.addr, base, attrs);
      }
    }
  }

  /** The walk goes down into the table for `addr`. */
  lemma SurveyDown(t0: Tree, t: Tree, want: nat, n: nat, from: nat, addr: nat, lvl: nat)
    requires Survey(t0, t, want, n, from, addr, lvl) && lvl < t.Leaf(addr) && Scope(want, n, addr)
    ensures Surveying(t0, t, want, n, from, addr, false)
  {
    hide Rem, Quot, Tree.Valid, Tree.State, Tree.Leaf, Geometry.WF, Geometry.Block, ScanLevel, TileLevel, Telling, NoSeams;
    assert Telling(t0, want, n) ==> t.Leaf(addr) <= LookLevel(t0, want, n, addr);
  }

  /** Or comes to the end of the table. */
  lemma SurveyEnd(t0: Tree, t: Tree, want: nat, n: nat, from: nat, addr: nat, lvl: nat)
    requires lvl < t0.g.Lvls() && Survey(t0, t, want, n, from, addr + t0.g.sz[lvl], lvl) && from <= addr
    requires Rem(addr, t0.g.sz[lvl]) == 0 && t0.g.Index(lvl, addr) + 1 == t0.g.nent[lvl]
    ensures Surveying(t0, t, want, n, from, addr + t0.g.sz[lvl], false)
  {
    hide Rem, Quot, Tree.Valid, Tree.State, Tree.Leaf, Geometry.WF, Geometry.Block, ScanLevel, TileLevel, Telling,
      Surveyed, NoSeams, Geometry.Index;
    TableEnd(t0.g, lvl, addr);
  }

  /** Or has counted enough. */
  lemma SurveyEnough(t0: Tree, t: Tree, want: nat, n: nat, from: nat, addr: nat, lvl: nat)
    requires Survey(t0, t, want, n, from, addr, lvl)
    ensures Surveying(t0, t, want, n, from, addr, true)
  {
    hide Telling, Surveyed, NoSeams, SeamAt, LookLevel;
  }

  lemma SurveyingEnded(t0: Tree, t: Tree, want: nat, n: nat, from: nat, addr: nat, ended: bool)
    requires Surveying(t0, t, want, n, from, addr, false)
    ensures Surveying(t0, t, want, n, from, addr, ended)
  {
    hide Telling, Surveyed, NoSeams, SeamAt;
  }

  /** The level-`l` table over `from` is also the one over `addr`. */
  ghost function InTable(g: Geometry, l: nat, from: nat, addr: nat): (r: bool)
    ensures r ==> g.WF() && l < g.Lvls() && from <= addr <= from + g.space
  {
    && g.WF() && l < g.Lvls() && from <= addr <= from + g.space && 0 < g.Span(l)
    && Down(from, g.Span(l)) == Down(addr, g.Span(l))
  }

  lemma InTableStart(g: Geometry, l: nat, from: nat)
    requires g.WF() && l < g.Lvls()
    ensures InTable(g, l, from, from)
  {
    g.SpanPositive(l);
  }

  /** The scan goes on in the same table. */
  lemma NextInTable(t0: Tree, t: Tree, want: nat, n: nat, s: Scan, from: nat, addr: nat)
    requires t.Valid() && InTable(t.g, s.lvl, from, addr) && t.Has(s.lvl, addr)
    requires Rem(addr, t.g.sz[s.lvl]) == 0 && s.addr == addr + t.g.sz[s.lvl]
    requires ScanAt(t0, t, want, n, s.(lvl := 0))
    ensures s.addr <= from + t.g.space
    ensures t.g.Index(s.lvl, addr) + 1 < t.g.nent[s.lvl] ==>
      && t.Has(s.lvl, s.addr) && t.g.TableKey(s.lvl, s.addr) == t.g.TableKey(s.lvl, addr)
      && t.g.Index(s.lvl, s.addr) == t.g.Index(s.lvl, addr) + 1
      && ScanAt(t0, t, want, n, s) && s.addr < VA_LIMIT && InTable(t.g, s.lvl, from, s.addr)
  {
    hide Rem, Quot, Tree.Valid, Tree.State, Tree.Leaf, Geometry.WF, Geometry.Index, Geometry.Block, ScanAt;
    var l, sp := s.lvl, t.g.Span(s.lvl);
    t.g.SpanPositive(l);
    t.g.SpanDivides(l);
    SpanInSpace(t.g, l);
    var d := Down(addr, sp);
    DownIsMultiple(addr, sp);
    RemTransitive(d, sp, t.g.sz[l]);
    RemAddMultiple(d, sp, t.g.sz[l]);
    MultipleGap(addr, d + sp, t.g.sz[l]);
    if t.g.Index(l, addr) + 1 < t.g.nent[l] {
      NextEntry(t, l, addr);
      ScanAtLevel(t0, t, want, n, s, l);
      BelowTop(t0, t, want, n, s);
      NotFirstNotAligned(t.g, l, s.addr);
      RemShift(d, sp);
      DownOrder(addr, s.addr, sp);
    }
  }

  lemma SpanInSpace(g: Geometry, l: nat)
    requires g.WF() && l < g.Lvls()
    ensures g.Span(l) <= g.space
  {
    if 0 < l {
      g.SpaceDivides(l - 1);
    }
  }

  lemma SurveyBegin(t0: Tree, t: Tree, want: nat, n: nat, addr: nat, lvl: nat)
    requires Rounding(t0, t, want, n, addr, false)
    ensures Survey(t0, t, want, n, addr, addr, lvl)
  {
    hide Telling, Surveyed, SeamAt, LookLevel;
  }

  lemma RoundBegin(t: Tree, want: nat, n: nat, ended: bool)
    requires t.Valid()
    ensures Rounding(t, t, want, n, Begin(want), ended)
  {
    hide Telling, SeamAt, LookLevel;
  }

  /** The next seam has been reached from one that had room. */
  lemma RoundNext(t0: Tree, t: Tree, u: Tree, want: nat, n: nat, from: nat, addr: nat, ended: bool)
    requires Rounding(t0, t, want, n, from, false) && Surveying(t0, u, want, n, from, addr, ended)
    requires from == 0 || from + n * PAGE_SIZE <= VA_LIMIT
    ensures Rounding(t0, u, want, n, addr, ended)
  {
    hide Rem, Quot, Tree.Valid, Tree.State, Tree.Leaf, Geometry.WF, LookLevel, Telling, Surveyed, SeamAt;
  }

  // ------------------------------------------------------------------ the outcome

  /** Nothing free below the size of the address space means nothing free at all. */
  lemma BlockedIsHopeless(t: Tree, n: nat)
    requires t.Valid() && AllBlocked(t, t.g.space, n)
    ensures Hopeless(t, n)
  {
    hide Tree.Valid, AllBlocked;
    forall p: nat | p % PAGE_SIZE == 0 ensures Blocked(t, p, n) {
      BlockedAnywhere(t, n, p);
    }
  }

  /** More pages than the address space has never fit behind the last seam. */
  lemma TooManyPages(t: Tree, n: nat)
    requires t.Valid() && n * PAGE_SIZE > t.g.space
    ensures !RoomAtSeams(t, n)
  {
    hide Quot, Tree.Valid, Tree.State, Tree.Leaf, ScanLevel;
    var a := VA_LIMIT - t.g.space;
    t.g.SpanDivides(ScanLevel(t, a));
    RemSubMultiple(VA_LIMIT, t.g.space, t.g.space);
    RemTransitive(a, t.g.space, t.g.Span(ScanLevel(t, a)));
    assert Seam(t, a);
  }

  /** What the outcome of the search says of the tree, and the tree of the outcome. */
  lemma Fails(t0: Tree, t: Tree, n: nat, s: Scan)
    requires 0 < n && ScanAt(t0, t, INVALID_VA, n, s) && s.count < n && Rounding(t0, t, INVALID_VA, n, s.addr, false)
    requires s.addr == VA_LIMIT ==> n * PAGE_SIZE <= t0.g.space
    requires s.addr != VA_LIMIT ==> 0 < s.addr && VA_LIMIT < s.addr + n * PAGE_SIZE
    ensures s.addr == VA_LIMIT <==> RoomAtSeams(t0, n)
    ensures n * PAGE_SIZE <= t0.g.space ==> Hopeless(t0, n)
    ensures s.addr == VA_LIMIT ==> Surveyed(t0, t, INVALID_VA, n, VA_LIMIT)
  {
    hide Rem, Quot, Tree.Valid, Tree.State, Tree.Leaf, Geometry.WF, ScanLevel, Surveyed, Seam, AllBlocked;
    if n * PAGE_SIZE > t0.g.space {
      TooManyPages(t0, n);
    } else {
      hide ScanAt;
      ScanStuck(t0, t, n, s);
      BlockedIsHopeless(t0, n);
      forall a: nat | 0 < a < s.addr && Seam(t0, a) ensures a + n * PAGE_SIZE <= VA_LIMIT {
        assert SeamAt(t0, INVALID_VA, n, a);
      }
      assert s.addr < VA_LIMIT ==> SeamAt(t0, INVALID_VA, n, s.addr);
    }
  }

  /** The scan stands at the end of the 64-bit addresses, having entered its last table at `from`. */
  lemma WrapFacts(t0: Tree, t: Tree, want: nat, n: nat, s: Scan, from: nat)
    requires ScanAt(t0, t, want, n, s) && s.count < n && s.addr == VA_LIMIT && Rounding(t0, t, want, n, s.addr, false)
    requires from < VA_LIMIT <= from + t0.g.space && (from == 0 || from + n * PAGE_SIZE <= VA_LIMIT)
    requires want == INVALID_VA || want <= from
    ensures want == INVALID_VA && n * PAGE_SIZE <= t0.g.space
    ensures RoomAtSeams(t0, n) && Hopeless(t0, n) && Surveyed(t0, t, INVALID_VA, n, VA_LIMIT)
  {
    hide Rem, Quot, Tree.Valid, Tree.State, Tree.Leaf, Run, Settled, AllBlocked, Hopeless, RoomAtSeams, Surveyed,
      Geometry.WF, Rounding;
    SpaceBelowLimit(t0.g);
    if want == INVALID_VA {
      Fails(t0, t, n, s);
    }
  }

  lemma SpaceBelowLimit(g: Geometry)
    requires g.WF()
    ensures g.space <= SPACE_LIMIT
  {
  }

  /** The test at the head of the outer loop has failed. */
  lemma NearTop(t0: Tree, t: Tree, want: nat, n: nat, s: Scan)
    requires ScanAt(t0, t, want, n, s) && s.count < n && Rounding(t0, t, want, n, s.addr, false)
    requires 0 < s.addr < VA_LIMIT && (VA_LIMIT - s.addr) / PAGE_SIZE < n
    ensures want != INVALID_VA && n * PAGE_SIZE <= t0.g.space ==>
      Blocked(t0, want, n) || VA_LIMIT < want + n * PAGE_SIZE || !RoomAtStops(t0, want, n)
    ensures want != INVALID_VA ==> VA_LIMIT < want + 2 * n * PAGE_SIZE
    ensures want == INVALID_VA ==> !RoomAtSeams(t0, n) && (n * PAGE_SIZE <= t0.g.space ==> Hopeless(t0, n))
  {
    hide Rem, Quot, Tree.Valid, Tree.State, Tree.Leaf, Run, Settled, Hopeless, RoomAtSeams, Surveyed, Stop, Blocked;
    if want == INVALID_VA {
      Fails(t0, t, n, s);
    } else if want < s.addr && Telling(t0, want, n) {
      assert SeamAt(t0, want, n, s.addr);
    }
  }

  /** A search at a given place has come to its end: every stop had room. */
  lemma HadRoom(t0: Tree, t: Tree, want: nat, n: nat)
    requires want != INVALID_VA && Rounding(t0, t, want, n, want + n * PAGE_SIZE, true)
    requires !Blocked(t0, want, n) && n * PAGE_SIZE <= t0.g.space
    ensures RoomAtStops(t0, want, n)
  {
    hide Surveyed, Blocked, Stop;
    var hi := want + n * PAGE_SIZE;
    forall a: nat | want < a < hi && Stop(t0, want, hi, a)
      ensures a + n * PAGE_SIZE <= VA_LIMIT
    {
      assert SeamAt(t0, want, n, a);
    }
  }

  lemma FreeIsNotBlocked(t: Tree, p: nat, n: nat)
    requires t.Valid() && forall y: nat :: p <= y < p + n * PAGE_SIZE ==> t.State(y) == Free
    ensures !Blocked(t, p, n)
  {
  }

  lemma FoundIsFree(t0: Tree, t: Tree, va: nat, n: nat)
    requires Kept(t0, t) && Run(t, va, va + n * PAGE_SIZE)
    ensures forall y: nat :: va <= y < va + n * PAGE_SIZE ==> t0.State(y) == Free
  {
    hide Tree.Valid, Tree.State, Tree.Leaf, InsideAt;
    forall y: nat | va <= y < va + n * PAGE_SIZE ensures t0.State(y) == Free {
      assert t.State(y) == Free;
    }
  }

  /** The first place that is free lies in the address space, and inside it if any does. */
  lemma FirstPlace(t: Tree, va: nat, n: nat)
    requires t.Valid() && va % PAGE_SIZE == 0 && !Blocked(t, va, n) && AllBlocked(t, va, n)
    ensures va < t.g.space
    ensures forall p: nat :: p % PAGE_SIZE == 0 && !Blocked(t, p, n) ==> va <= p
  {
    hide Tree.Valid, Tree.State, Blocked;
    if t.g.space <= va {
      BlockedAnywhere(t, n, va);
    }
  }

  /** The next round goes through the same seams: nothing is left to be split. */
  lemma WrapsAgain(t0: Tree, t: Tree, n: nat)
    requires Kept(t0, t) && Surveyed(t0, t, INVALID_VA, n, VA_LIMIT) && RoomAtSeams(t0, n) && Hopeless(t0, n)
    ensures RoomAtSeams(t, n) && Hopeless(t, n) && forall y: nat :: y < VA_LIMIT ==> t.Leaf(y) == ScanLevel(t, y)
  {
    hide Rem, Quot, Tree.Valid, Tree.State, Tree.Leaf, Geometry.WF;
    forall y: nat | y < VA_LIMIT ensures t.Leaf(y) == ScanLevel(t, y) == ScanLevel(t0, y) {
      assert t.State(y) == t0.State(y) && Scope(INVALID_VA, n, y);
    }
    forall a: nat | 0 < a < VA_LIMIT && Seam(t, a) ensures a + n * PAGE_SIZE <= VA_LIMIT {
      assert Seam(t0, a);
    }
    forall p: nat | p % PAGE_SIZE == 0 ensures Blocked(t, p, n) {
      assert Blocked(t0, p, n);
    }
  }

  // ------------------------------------------------------------------ both ends, and trees of one level

  /** Seams are at page boundaries. */
  lemma SeamIsPage(t: Tree, a: nat)
    requires t.Valid() && 0 < a && Seam(t, a)
    ensures a % PAGE_SIZE == 0
  {
    hide Quot, Tree.Valid, Tree.State, Tree.Leaf, Geometry.WF, Geometry.Block, ScanLevel;
    var g, k := t.g, t.g.Lvls() - 1;
    LastIsPage(g);
    RemIsModulo(a, PAGE_SIZE);
    if Rem(a, PAGE_SIZE) != 0 {
      var l := t.Leaf(a);
      g.Divides(l, k);
      DownOrder(a, a - 1, PAGE_SIZE);
      FinerInside(g, l, k, a);
      DownOrder(a, a - 1, g.sz[l]);
      SameDownSameBlock(g, l, a, a - 1);
      SameScanLevel(t, a, a - 1);
      g.SpanPositive(ScanLevel(t, a));
      g.Divides(ScanLevel(t, a), k);
      RemTransitive(g.Span(ScanLevel(t, a)), g.sz[ScanLevel(t, a)], PAGE_SIZE);
      RemNest(a, g.Span(ScanLevel(t, a)), PAGE_SIZE);
      assert false;
    }
  }

  lemma SameScanLevel(t: Tree, x: nat, y: nat)
    requires t.Valid() && t.SameBlock(t.Leaf(x), x, y)
    ensures ScanLevel(t, x) == ScanLevel(t, y)
  {
    hide Rem, Quot, Tree.Valid, Tree.State, Tree.Leaf, Geometry.WF, Geometry.Block;
    SameLeaf(t, x, y);
    if t.State(x) == Free {
      SameBlockFree(t, x, y);
    } else {
      SameBlockTaken(t, x, y);
    }
  }

  /** A search for one page has room everywhere: when it finds nothing it never ends. */
  lemma OnePageHasRoom(t: Tree)
    requires t.Valid()
    ensures RoomAtSeams(t, 1)
  {
    hide Tree.Valid, Seam;
    forall a: nat | 0 < a < VA_LIMIT && Seam(t, a) ensures a + PAGE_SIZE <= VA_LIMIT {
      SeamIsPage(t, a);
    }
  }

  lemma RemOfSelf(s: nat)
    requires 0 < s
    ensures Rem(s, s) == 0
  {
    RemShift(0, s);
  }

  /** If everything is looked at on one level, room means that the pages fit into one table of that level. */
  lemma UniformSeams(t: Tree, l: nat, n: nat)
    requires t.Valid() && l < t.g.Lvls() && forall y: nat :: ScanLevel(t, y) == l
    ensures RoomAtSeams(t, n) <==> n * PAGE_SIZE <= t.g.Span(l)
  {
    hide Rem, Quot, Tree.Valid, Tree.State, Tree.Leaf, ScanLevel;
    t.g.SpanDivides(l);
    var s := t.g.Span(l);
    if 0 < l {
      t.g.SpaceDivides(l - 1);
    }
    RemTransitive(VA_LIMIT, t.g.space, s);
    RemOfSelf(s);
    RemSubMultiple(VA_LIMIT, s, s);
    var a := VA_LIMIT - s;
    assert Seam(t, a);
    forall b: nat | 0 < b < VA_LIMIT && Seam(t, b) && n * PAGE_SIZE <= s ensures b + n * PAGE_SIZE <= VA_LIMIT {
      MultipleGap(b, VA_LIMIT, s);
    }
  }

  // ---------------------------------------------------------------------------------------------
  // What a search returns

  /** At a given place: that place exactly if it is free and every stop has room, unless pages run out. */
  ghost predicate PlaceOutcome(t: Tree, want: nat, n: nat, r: VpageResult)
    requires t.Valid()
  {
    && !r.SearchWraps? && (r.Address? ==> r.va == want)
    && (r.NoRange? ==>
      want % PAGE_SIZE != 0 || n == 0 || Blocked(t, want, n) || VA_LIMIT < want + 2 * n * PAGE_SIZE)
    && (want % PAGE_SIZE == 0 && 0 < n && n * PAGE_SIZE <= t.g.space && r != NoPages ==>
      (r.Address? <==> !Blocked(t, want, n) && want + n * PAGE_SIZE <= VA_LIMIT && RoomAtStops(t, want, n)))
  }

  /** Anywhere: the first place that fits, and none is overlooked. A search that finds nothing goes on
      for ever exactly if there is room at every seam. */
  ghost predicate SearchOutcome(t: Tree, n: nat, r: VpageResult)
    requires t.Valid()
  {
    && (r.Address? ==> AllBlocked(t, r.va, n))
    && ((r.NoRange? || r.SearchWraps?) && n * PAGE_SIZE <= t.g.space ==> n == 0 || Hopeless(t, n))
    && ((r.NoRange? || r.SearchWraps?) && 0 < n ==> (r.SearchWraps? <==> RoomAtSeams(t, n)))
  }

  lemma FoundPlace(t: Tree, want: nat, n: nat, va: nat)
    requires t.Valid()
    requires if want != INVALID_VA then PlaceOutcome(t, want, n, Address(va)) else SearchOutcome(t, n, Address(va))
    ensures if want != INVALID_VA then va == want else AllBlocked(t, va, n)
    ensures if want != INVALID_VA then PlaceOutcome(t, want, n, NoPages) else SearchOutcome(t, n, NoPages)
  {
  }
}
