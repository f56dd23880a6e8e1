/** Taking the mappings of a range away: what the walk of `mem_unmap` needs and what it leaves. */
module Unmapping {
  import opened Blocks
  import opened PageTable
  import opened Expansion
  import opened Ranges
  import opened Mapping
  import opened Scanning
  import opened Reservation

  ghost predicate MappedRange(t: Tree, at: nat, top: nat)
    requires t.Valid()
  {
    forall y: nat :: at <= y < top ==> t.State(y).Mapped?
  }

  /** The level-`l` block of `x` lies within `[at, top)`. */
  ghost predicate Whole(g: Geometry, at: nat, top: nat, l: nat, x: nat)
    requires g.WF() && l < g.Lvls()
  {
    at <= Down(x, g.sz[l]) && Down(x, g.sz[l]) + g.sz[l] <= top
  }

  /** From level `l` on, the first level at which the block of `x` lies within the range: the level at
      which the mapping of `x` is taken away, blocks that are only partly covered being expanded. */
  ghost function CutLevel(g: Geometry, at: nat, top: nat, l: nat, x: nat): (r: nat)
    requires g.WF() && l < g.Lvls()
    ensures l <= r < g.Lvls()
    decreases g.Lvls() - l
  {
    if l + 1 == g.Lvls() || Whole(g, at, top, l, x) then l else CutLevel(g, at, top, l + 1, x)
  }

  /** From level `l` on, the first level at which a block starts at `b`. */
  ghost function StartLevel(g: Geometry, l: nat, b: nat): (r: nat)
    requires g.WF() && l < g.Lvls()
    ensures l <= r < g.Lvls()
    decreases g.Lvls() - l
  {
    if l + 1 == g.Lvls() || Rem(b, g.sz[l]) == 0 then l else StartLevel(g, l + 1, b)
  }

  /** Past the end of a table the walk of `mem_unmap` goes up one level. That is enough at `b` if the
      mapping that starts there is at most one level above the one that ends there. */
  ghost predicate ClimbOk(t: Tree, at: nat, top: nat, b: nat)
    requires t.Valid() && 0 < b
  {
    var f := CutLevel(t.g, at, top, t.Leaf(b - 1), b - 1);
    Down(b - 1, t.g.sz[f]) + t.g.sz[f] == b && Rem(b, t.g.Span(f)) == 0 ==>
      f <= StartLevel(t.g, t.Leaf(b), b) + 1
  }

  /** Everywhere inside the range one level up is enough. */
  ghost predicate ClimbsByOne(t: Tree, at: nat, top: nat)
    requires t.Valid()
  {
    forall b: nat :: at < b < top ==> ClimbOk(t, at, top, b)
  }

  /** The state below `at` + `p` is free, the rest as before. */
  ghost function AfterUnmap(t: Tree, at: nat, p: nat, y: nat): PageState
    requires t.Valid()
  {
    if Off(t.g, at, y) < p then Free else t.State(y)
  }

  /** The levels a leaf was expanded from were only partly covered, and the walk had reached them. */
  ghost predicate CutsAt(t0: Tree, t: Tree, at: nat, top: nat, vaddr: nat, y: nat)
    requires t0.Valid() && t.Valid() && t0.g == t.g
  {
    forall l: nat :: t0.Leaf(y) <= l < t.Leaf(y) ==>
      Down(y, t.g.sz[l]) <= vaddr && !Whole(t.g, at, top, l, y)
  }

  /** `mem_unmap` has got as far as `vaddr`. */
  ghost function UnmapInv(t0: Tree, t: Tree, at: nat, top: nat, vaddr: nat): (r: bool)
    ensures r ==> t0.Valid() && t.Valid() && t0.g == t.g && at <= vaddr <= top <= t.g.space
  {
    && t0.Valid() && t.Valid() && t0.g == t.g && at <= vaddr <= top <= t.g.space
    && at % PAGE_SIZE == 0 && top % PAGE_SIZE == 0 && vaddr % PAGE_SIZE == 0
    && MappedRange(t0, at, top)
    && (forall y: nat :: t.State(y) == AfterUnmap(t0, at, vaddr - at, y))
    && (forall y: nat :: t0.Leaf(y) <= t.Leaf(y))
    && (forall y: nat :: vaddr <= y < top ==> CutsAt(t0, t, at, top, vaddr, y))
    && (forall b: nat :: at < b < vaddr ==> ClimbOk(t0, at, top, b))
  }

  /** The walk has just come to `vaddr` past the end of a level-`f` table. */
  ghost predicate Climbing(t0: Tree, t: Tree, at: nat, top: nat, vaddr: nat, f: nat)
    requires t0.Valid() && t.Valid() && t0.g == t.g
  {
    && at < vaddr < top && f < t.g.Lvls()
    && f == CutLevel(t.g, at, top, t0.Leaf(vaddr - 1), vaddr - 1)
    && Down(vaddr - 1, t.g.sz[f]) + t.g.sz[f] == vaddr && Rem(vaddr, t.g.Span(f)) == 0
    && (forall y: nat :: vaddr <= y < top ==> forall l: nat :: t0.Leaf(y) <= l < t.Leaf(y) ==>
      Down(y, t.g.sz[l]) < vaddr)
  }

  lemma UnmapStart(t: Tree, at: nat, top: nat)
    requires t.Valid() && at <= top <= t.g.space && at % PAGE_SIZE == 0 && top % PAGE_SIZE == 0
    requires MappedRange(t, at, top)
    ensures UnmapInv(t, t, at, top, at)
  {
  }

  /** In the range and not yet reached means still mapped. */
  lemma StillMapped(t0: Tree, t: Tree, at: nat, top: nat, vaddr: nat, y: nat)
    requires UnmapInv(t0, t, at, top, vaddr) && at <= y < top
    ensures vaddr <= y ==> t.State(y) == t0.State(y) && t.State(y).Mapped?
    ensures y < vaddr ==> t.State(y) == Free
  {
    OffNear(t.g, at, y);
    assert t.State(y) == AfterUnmap(t0, at, vaddr - at, y);
  }

  lemma SameStateKind(t: Tree, x: nat, y: nat)
    requires t.Valid() && t.SameBlock(t.Leaf(x), x, y)
    ensures t.State(x).Mapped? <==> t.State(y).Mapped?
  {
    SameLeaf(t, x, y);
    SameBlockSameEntry(t, t.Leaf(x), x, y);
  }

  /** A partly covered leaf starts before the range or ends after it. */
  lemma PartlyCovered(t0: Tree, t: Tree, at: nat, top: nat, vaddr: nat)
    requires UnmapInv(t0, t, at, top, vaddr) && vaddr < top
    requires var s := t.g.sz[t.Leaf(vaddr)];
      Down(vaddr, s) < vaddr || top < Down(vaddr, s) + s
    ensures !Whole(t.g, at, top, t.Leaf(vaddr), vaddr)
  {
    hide Rem, Quot, Tree.Valid, Tree.State, Tree.Leaf, Geometry.WF, Geometry.Block, UnmapInv;
    var l := t.Leaf(vaddr);
    var b := Down(vaddr, t.g.sz[l]);
    if at <= b < vaddr {
      StillMapped(t0, t, at, top, vaddr, b);
      StillMapped(t0, t, at, top, vaddr, vaddr);
      DownOrder(vaddr, b, t.g.sz[l]);
      SameDownSameBlock(t.g, l, vaddr, b);
      SameStateKind(t, vaddr, b);
    }
  }

  /** So its block holds the first address of the range or the last. */
  lemma PartlyAtEnd(t0: Tree, t: Tree, at: nat, top: nat, vaddr: nat) returns (z: nat)
    requires UnmapInv(t0, t, at, top, vaddr) && vaddr < top
    requires var s := t.g.sz[t.Leaf(vaddr)];
      Down(vaddr, s) < vaddr || top < Down(vaddr, s) + s
    ensures z in Ends(at, top) && t.SameBlock(t.Leaf(vaddr), vaddr, z)
  {
    hide Rem, Quot, Tree.Valid, Tree.State, Tree.Leaf, Geometry.WF, Geometry.Block, UnmapInv;
    var l := t.Leaf(vaddr);
    PartlyCovered(t0, t, at, top, vaddr);
    z := if Down(vaddr, t.g.sz[l]) < at then at else top - 1;
    DownOrder(vaddr, z, t.g.sz[l]);
    SameDownSameBlock(t.g, l, vaddr, z);
  }

  /** The first and the last address of a range. */
  function Ends(at: nat, top: nat): (xs: set<nat>)
    ensures |xs| <= 2
  {
    if top == 0 then {at} else {at, top - 1}
  }

  lemma UnmapExpand(t0: Tree, t1: Tree, t2: Tree, at: nat, top: nat, vaddr: nat)
    requires UnmapInv(t0, t1, at, top, vaddr) && vaddr < top
    requires var s := t1.g.sz[t1.Leaf(vaddr)];
      Down(vaddr, s) < vaddr || top < Down(vaddr, s) + s
    requires Expanded(t1, t2, t1.Leaf(vaddr), vaddr)
    ensures UnmapInv(t0, t2, at, top, vaddr) && t2.Leaf(vaddr) == t1.Leaf(vaddr) + 1
  {
    hide Rem, Quot, Tree.Valid, Tree.State, Tree.Leaf, Geometry.WF, Geometry.Block, CutLevel, StartLevel, ClimbOk;
    var lvl := t1.Leaf(vaddr);
    PartlyCovered(t0, t1, at, top, vaddr);
    NotLast(t1, at, top, vaddr);
    forall y: nat
      ensures t0.Leaf(y) <= t2.Leaf(y)
      ensures vaddr <= y < top ==> CutsAt(t0, t2, at, top, vaddr, y)
    {
      assert t2.Leaf(y) == LeafAfter(t1, lvl, vaddr, y);
      if vaddr <= y < top {
        assert CutsAt(t0, t1, at, top, vaddr, y);
        if t1.SameBlock(lvl, vaddr, y) {
          SameBlockSameDown(t1.g, lvl, vaddr, y);
        }
      }
    }
    assert t2.Leaf(vaddr) == LeafAfter(t1, lvl, vaddr, vaddr);
  }

  /** Inside the address space, one block means one stretch of addresses. */
  lemma SameBlockSameDown(g: Geometry, l: nat, x: nat, y: nat)
    requires g.WF() && l < g.Lvls() && g.Block(l, x) == g.Block(l, y) && x < g.space && y < g.space
    ensures Down(x, g.sz[l]) == Down(y, g.sz[l])
  {
  }

  /** A page lies whole within a range of pages. */
  lemma NotLast(t: Tree, at: nat, top: nat, x: nat)
    requires t.Valid() && at <= x < top && at % PAGE_SIZE == 0 && top % PAGE_SIZE == 0
    requires !Whole(t.g, at, top, t.Leaf(x), x)
    ensures t.Leaf(x) + 1 < t.g.Lvls()
  {
    PageWhole(t.g, at, top, x);
  }

  lemma PageWhole(g: Geometry, at: nat, top: nat, x: nat)
    requires g.WF() && at <= x < top && at % PAGE_SIZE == 0 && top % PAGE_SIZE == 0
    ensures Whole(g, at, top, g.Lvls() - 1, x)
  {
    LastIsPage(g);
    RemIsModulo(at, PAGE_SIZE);
    RemIsModulo(top, PAGE_SIZE);
    var b := Down(x, PAGE_SIZE);
    DownIsMultiple(x, PAGE_SIZE);
    if b < at {
      MultipleGap(b, at, PAGE_SIZE);
    }
    MultipleGap(b, top, PAGE_SIZE);
  }

  lemma {:induction false} CutLevelIs(t0: Tree, t: Tree, at: nat, top: nat, vaddr: nat, k: nat, x: nat)
    requires t0.Valid() && t.Valid() && t0.g == t.g && CutsAt(t0, t, at, top, vaddr, x)
    requires t0.Leaf(x) <= k <= t.Leaf(x) && Whole(t.g, at, top, t.Leaf(x), x)
    ensures CutLevel(t.g, at, top, k, x) == t.Leaf(x)
    decreases t.Leaf(x) - k
  {
    if k < t.Leaf(x) {
      CutLevelIs(t0, t, at, top, vaddr, k + 1, x);
    }
  }

  /** Taking a wholly covered leaf away. */
  lemma UnmapClear(t0: Tree, t: Tree, at: nat, top: nat, vaddr: nat)
    requires UnmapInv(t0, t, at, top, vaddr) && vaddr < top
    requires (vaddr == at || ClimbOk(t0, at, top, vaddr))
    requires var s := t.g.sz[t.Leaf(vaddr)]; Down(vaddr, s) == vaddr && vaddr + s <= top
    ensures var l := t.Leaf(vaddr);
      && t.Put(l, vaddr, Pte(0, 0, 0, 0)).Valid()
      && UnmapInv(t0, t.Put(l, vaddr, Pte(0, 0, 0, 0)), at, top, vaddr + t.g.sz[l])
  {
    hide Rem, Quot, Tree.Valid, Tree.State, Tree.Leaf, Tree.Entry, Geometry.WF, Geometry.Block, CutLevel, StartLevel,
      ClimbOk, Off;
    var l, v := t.Leaf(vaddr), Pte(0, 0, 0, 0);
    var s, a := t.g.sz[l], vaddr + t.g.sz[l];
    BlockIsPages(t.g, l);
    PutLeaf(t, l, vaddr, v);
    var t2 := t.Put(l, vaddr, v);
    DownIsMultiple(vaddr, s);
    forall y: nat
      ensures t2.Leaf(y) == t.Leaf(y) && t2.State(y) == AfterUnmap(t0, at, a - at, y)
    {
      PutLeafState(t, l, vaddr, v, y);
      BlockAhead(t.g, l, at, vaddr - at, y);
      assert t.State(y) == AfterUnmap(t0, at, vaddr - at, y);
    }
    forall y: nat | a <= y < top
      ensures CutsAt(t0, t2, at, top, a, y)
    {
      assert CutsAt(t0, t, at, top, vaddr, y);
    }
    forall b: nat | at < b < a
      ensures ClimbOk(t0, at, top, b)
    {
      if vaddr < b {
        InsideCleared(t0, t, at, top, vaddr, b);
      }
    }
  }

  lemma ClearedLevel(t0: Tree, t: Tree, at: nat, top: nat, vaddr: nat, x: nat)
    requires UnmapInv(t0, t, at, top, vaddr) && vaddr < top
    requires var s := t.g.sz[t.Leaf(vaddr)];
      Down(vaddr, s) == vaddr && vaddr + s <= top && vaddr <= x < vaddr + s
    ensures Down(x, t.g.sz[t.Leaf(vaddr)]) == vaddr
    ensures CutLevel(t.g, at, top, t0.Leaf(x), x) == t.Leaf(vaddr)
  {
    hide Rem, Quot, Tree.Valid, Tree.State, Tree.Leaf, Geometry.WF, Geometry.Block, CutLevel;
    var l := t.Leaf(vaddr);
    DownOrder(vaddr, x, t.g.sz[l]);
    SameDownSameBlock(t.g, l, vaddr, x);
    SameLeaf(t, vaddr, x);
    assert CutsAt(t0, t, at, top, vaddr, x);
    CutLevelIs(t0, t, at, top, vaddr, t0.Leaf(x), x);
  }

  lemma InsideCleared(t0: Tree, t: Tree, at: nat, top: nat, vaddr: nat, b: nat)
    requires UnmapInv(t0, t, at, top, vaddr) && vaddr < top
    requires var s := t.g.sz[t.Leaf(vaddr)];
      Down(vaddr, s) == vaddr && vaddr + s <= top && vaddr < b < vaddr + s
    ensures ClimbOk(t0, at, top, b)
  {
    hide Rem, Quot, Tree.Valid, Tree.State, Tree.Leaf, Geometry.WF, Geometry.Block, CutLevel;
    ClearedLevel(t0, t, at, top, vaddr, b - 1);
  }

  /** After taking a leaf away: still in its table, or climbing. */
  lemma AfterClear(t0: Tree, t: Tree, at: nat, top: nat, vaddr: nat)
    requires UnmapInv(t0, t, at, top, vaddr) && vaddr < top
    requires var s := t.g.sz[t.Leaf(vaddr)]; Down(vaddr, s) == vaddr && vaddr + s < top
    ensures var l := t.Leaf(vaddr);
      var a := vaddr + t.g.sz[l];
      var t2 := t.Put(l, vaddr, Pte(0, 0, 0, 0));
      && t2.Valid()
      && (Rem(a, t.g.Span(l)) != 0 ==> ClimbOk(t0, at, top, a))
      && (Rem(a, t.g.Span(l)) == 0 ==> Climbing(t0, t2, at, top, a, l))
  {
    hide Rem, Quot, Tree.Valid, Tree.State, Tree.Leaf, Geometry.WF, Geometry.Block, CutLevel, StartLevel;
    var l, v := t.Leaf(vaddr), Pte(0, 0, 0, 0);
    var a := vaddr + t.g.sz[l];
    PutLeaf(t, l, vaddr, v);
    var t2 := t.Put(l, vaddr, v);
    ClearedLevel(t0, t, at, top, vaddr, a - 1);
    forall y: nat | a <= y < top
      ensures t2.Leaf(y) == t.Leaf(y) && CutsAt(t0, t, at, top, vaddr, y)
    {
      PutLeafState(t, l, vaddr, v, y);
    }
  }

  /** Climbing one level is enough exactly when the walk then only goes through tables. */
  lemma ClimbIff(t0: Tree, t: Tree, at: nat, top: nat, vaddr: nat, f: nat)
    requires UnmapInv(t0, t, at, top, vaddr) && Climbing(t0, t, at, top, vaddr, f) && 0 < f
    ensures t.Has(f - 1, vaddr) <==> ClimbOk(t0, at, top, vaddr)
  {
    hide Rem, Quot, Tree.Valid, Tree.State, Tree.Leaf, Geometry.WF, Geometry.Block, CutLevel, StartLevel, UnmapInv;
    HasIffLeaf(t, f - 1, vaddr);
    var l := t.Leaf(vaddr);
    LeavesKept(t0, t, at, top, vaddr);
    if Down(vaddr, t.g.sz[l]) < vaddr {
      DownOrder(vaddr, vaddr - 1, t.g.sz[l]);
      SameDownSameBlock(t.g, l, vaddr, vaddr - 1);
      StillMapped(t0, t, at, top, vaddr, vaddr);
      StillMapped(t0, t, at, top, vaddr, vaddr - 1);
      SameStateKind(t, vaddr, vaddr - 1);
    }
    StartLevelIs(t0, t, vaddr, t0.Leaf(vaddr));
  }

  lemma LeavesKept(t0: Tree, t: Tree, at: nat, top: nat, vaddr: nat)
    requires UnmapInv(t0, t, at, top, vaddr)
    ensures t0.Leaf(vaddr) <= t.Leaf(vaddr)
  {
  }

  lemma {:induction false} StartLevelIs(t0: Tree, t: Tree, b: nat, k: nat)
    requires t0.Valid() && t.Valid() && t0.g == t.g && t0.Leaf(b) <= k <= t.Leaf(b)
    requires Down(b, t.g.sz[t.Leaf(b)]) == b
    requires forall l: nat :: t0.Leaf(b) <= l < t.Leaf(b) ==> Down(b, t.g.sz[l]) < b
    ensures StartLevel(t.g, k, b) == t.Leaf(b)
    decreases t.Leaf(b) - k
  {
    if k < t.Leaf(b) {
      assert Down(b, t.g.sz[k]) < b;
      StartLevelIs(t0, t, b, k + 1);
    }
  }

  /** Where the walk of `mem_unmap` stands: in a table over `vaddr`, or about to look for one. */
  ghost predicate WalkAt(t0: Tree, t: Tree, at: nat, top: nat, lvl: nat, vaddr: nat)
    requires t0.Valid() && t.Valid() && t0.g == t.g && at <= vaddr
  {
    vaddr < top ==>
      || (lvl <= t.Leaf(vaddr) && (vaddr == at || ClimbOk(t0, at, top, vaddr)))
      || Climbing(t0, t, at, top, vaddr, lvl + 1)
  }

  lemma UnmapSoFar(t0: Tree, t: Tree, at: nat, top: nat, vaddr: nat)
    requires UnmapInv(t0, t, at, top, vaddr)
    ensures forall y: nat :: t.State(y) == AfterUnmap(t0, at, vaddr - at, y)
    ensures PageLeaves(t0) ==> PageLeaves(t)
  {
    hide ClimbOk, Tree.Valid, Tree.State, Tree.Leaf, Geometry.WF, CutsAt, Off;
    if PageLeaves(t0) {
      forall y: nat ensures t0.Leaf(y) <= t.Leaf(y) && (t.State(y).Mapped? ==> t0.State(y).Mapped?) {
        assert t.State(y) == AfterUnmap(t0, at, vaddr - at, y);
      }
      KeepsPageLeaves(t0, t);
    }
  }

  datatype UnmapResult = Unmapped | Stray | OutOfPages

  lemma WalkStart(t: Tree, at: nat, top: nat)
    requires t.Valid()
    ensures WalkAt(t, t, at, top, 0, at)
  {
  }

  /** The table found, or the proof that one level up was not enough. */
  lemma WalkFinds(t0: Tree, t: Tree, at: nat, top: nat, lvl: nat, vaddr: nat)
    requires UnmapInv(t0, t, at, top, vaddr) && WalkAt(t0, t, at, top, lvl, vaddr) && vaddr < top
    ensures t.Has(lvl, vaddr) ==> vaddr == at || ClimbOk(t0, at, top, vaddr)
    ensures !t.Has(lvl, vaddr) ==> !ClimbsByOne(t0, at, top)
  {
    hide Rem, Quot, Down, Tree.Valid, Tree.State, Tree.Leaf, Geometry.WF, Geometry.Block, ClimbOk, UnmapInv, Climbing;
    HasIffLeaf(t, lvl, vaddr);
    if Climbing(t0, t, at, top, vaddr, lvl + 1) {
      ClimbIff(t0, t, at, top, vaddr, lvl + 1);
      ClimbingBeyond(t0, t, at, top, vaddr, lvl + 1);
    }
  }

  lemma ClimbingBeyond(t0: Tree, t: Tree, at: nat, top: nat, vaddr: nat, f: nat)
    requires t0.Valid() && t.Valid() && t0.g == t.g && Climbing(t0, t, at, top, vaddr, f)
    ensures at < vaddr < top
  {
  }

  lemma UnmapEnd(t0: Tree, t: Tree, at: nat, top: nat, vaddr: nat)
    requires UnmapInv(t0, t, at, top, vaddr) && top <= vaddr
    ensures ClimbsByOne(t0, at, top)
  {
    hide ClimbOk, Tree.Valid, Tree.State, Tree.Leaf, Geometry.WF, CutsAt, Off;
  }

  /** The entry for `vaddr` maps it. */
  lemma EntryMaps(t0: Tree, t: Tree, at: nat, top: nat, lvl: nat, vaddr: nat)
    requires UnmapInv(t0, t, at, top, vaddr) && vaddr < top && t.Has(lvl, vaddr)
    ensures t.E(lvl, vaddr).IsValid()
    ensures t.IsTable(lvl, t.E(lvl, vaddr)) ==> lvl < t.Leaf(vaddr)
    ensures !t.IsTable(lvl, t.E(lvl, vaddr)) ==> lvl == t.Leaf(vaddr)
  {
    hide Rem, Quot, Down, Tree.Valid, Tree.Leaf, Geometry.WF, Geometry.Block, UnmapInv;
    StillMapped(t0, t, at, top, vaddr, vaddr);
    EntryIsLeaf(t, lvl, vaddr);
  }

  /** One entry taken away with more entries to come: the walk goes on in the same table. */
  lemma WalkOn(t0: Tree, t: Tree, at: nat, top: nat, vaddr: nat)
    requires UnmapInv(t0, t, at, top, vaddr) && vaddr < top
    requires var s := t.g.sz[t.Leaf(vaddr)]; Down(vaddr, s) == vaddr && vaddr + s <= top
    requires t.g.Index(t.Leaf(vaddr), vaddr) + 1 < t.g.nent[t.Leaf(vaddr)]
    ensures var l := t.Leaf(vaddr);
      var a := vaddr + t.g.sz[l];
      var t2 := t.Put(l, vaddr, Pte(0, 0, 0, 0));
      && t2.Valid() && t2.g == t.g && t2.Has(l, a) && WalkAt(t0, t2, at, top, l, a)
      && (a < top ==> ClimbOk(t0, at, top, a))
      && t.g.TableKey(l, a) == t.g.TableKey(l, vaddr) && t.g.Index(l, a) == t.g.Index(l, vaddr) + 1
  {
    hide Rem, Quot, Tree.Valid, Tree.State, Tree.Leaf, Geometry.WF, Geometry.Block, Geometry.Index, ClimbOk,
      UnmapInv, Climbing;
    var l, v := t.Leaf(vaddr), Pte(0, 0, 0, 0);
    var a := vaddr + t.g.sz[l];
    PutLeaf(t, l, vaddr, v);
    if a < top {
      TableEnd(t.g, l, vaddr);
      AfterClear(t0, t, at, top, vaddr);
    }
    NextEntry(t, l, vaddr);
    PutEntry(t, l, vaddr, v, l, a);
    HasIffLeaf(t.Put(l, vaddr, v), l, a);
  }

  /** The last entry of a table taken away: the walk goes up. */
  lemma WalkUp(t0: Tree, t: Tree, at: nat, top: nat, vaddr: nat)
    requires UnmapInv(t0, t, at, top, vaddr) && vaddr < top
    requires var s := t.g.sz[t.Leaf(vaddr)]; Down(vaddr, s) == vaddr && vaddr + s <= top
    requires t.g.Index(t.Leaf(vaddr), vaddr) + 1 == t.g.nent[t.Leaf(vaddr)]
    ensures var l := t.Leaf(vaddr);
      var a := vaddr + t.g.sz[l];
      var t2 := t.Put(l, vaddr, Pte(0, 0, 0, 0));
      && t2.Valid() && t2.g == t.g && (a < top ==> 0 < l)
      && (0 < l ==> WalkAt(t0, t2, at, top, l - 1, a))
  {
    hide Rem, Quot, Tree.Valid, Tree.State, Tree.Leaf, Geometry.WF, Geometry.Block, Geometry.Index, ClimbOk,
      UnmapInv, Climbing;
    var l, v := t.Leaf(vaddr), Pte(0, 0, 0, 0);
    var a := vaddr + t.g.sz[l];
    PutLeaf(t, l, vaddr, v);
    if a < top {
      TableEnd(t.g, l, vaddr);
      AfterClear(t0, t, at, top, vaddr);
      RootEnd(t.g, a);
    }
  }

  lemma RootEnd(g: Geometry, a: nat)
    requires g.WF() && 0 < a < g.space
    ensures Rem(a, g.Span(0)) != 0
  {
  }

  lemma WalkDeeper(t0: Tree, t: Tree, at: nat, top: nat, lvl: nat, vaddr: nat)
    requires t0.Valid() && t.Valid() && t0.g == t.g && lvl <= t.Leaf(vaddr) && at <= vaddr
    requires vaddr == at || (0 < vaddr && ClimbOk(t0, at, top, vaddr))
    ensures WalkAt(t0, t, at, top, lvl, vaddr)
  {
  }

  lemma WalkDone(t0: Tree, t: Tree, at: nat, top: nat, lvl: nat, vaddr: nat)
    requires t0.Valid() && t.Valid() && t0.g == t.g && at <= vaddr && top <= vaddr
    ensures WalkAt(t0, t, at, top, lvl, vaddr)
  {
  }

  // ---------------------------------------------------------------------------------------------
  // Mapping and unmapping

  /** `n` pages from `va` on reserved, the first `pages` of them mapped. */
  ghost function AfterAllocMap(t: Tree, va: nat, base: nat, pages: nat, n: nat, y: nat): PageState
    requires t.Valid()
  {
    var off := Off(t.g, va, y);
    if off < pages * PAGE_SIZE then Mapped(MapsTo(base, off))
    else if off < n * PAGE_SIZE then Reserved
    else t.State(y)
  }

  lemma ReservedThenMapped(t0: Tree, t1: Tree, t2: Tree, va: nat, base: nat, pages: nat, n: nat)
    requires t0.Valid() && t1.Valid() && t2.Valid() && t0.g == t1.g == t2.g && pages <= n
    requires forall y: nat :: t1.State(y) == AfterReserve(t0, va, n * PAGE_SIZE, y)
    requires forall y: nat :: t2.State(y) == AfterMap(t1, va, base, pages * PAGE_SIZE, y)
    ensures forall y: nat :: t2.State(y) == AfterAllocMap(t0, va, base, pages, n, y)
  {
    hide Tree.Valid, Tree.State, Off, MapsTo;
    forall y: nat ensures t2.State(y) == AfterAllocMap(t0, va, base, pages, n, y) {
      assert t1.State(y) == AfterReserve(t0, va, n * PAGE_SIZE, y);
      assert t2.State(y) == AfterMap(t1, va, base, pages * PAGE_SIZE, y);
    }
  }

  /** Page `k` of the range is page `k` of the physical pages, byte for byte. */
  lemma MapsInOrder(base: nat, off: nat)
    requires base % PAGE_SIZE == 0 && base + off < PA_LIMIT
    ensures MapsTo(base, off) == base + off
  {
  }

  // ---------------------------------------------------------------------------------------------
  // From inside a page

  /** Started inside a page, the walk goes down at its start, level after level, and past the last. */
  ghost predicate Descending(t0: Tree, t: Tree, start: nat, vaddr: nat, lvl: nat) {
    && Kept(t0, t) && vaddr == start && start % PAGE_SIZE != 0 && t0.State(start).Mapped?
    && (lvl == t0.g.Lvls() || lvl <= t.Leaf(start))
  }

  lemma DescendStart(t: Tree, start: nat)
    requires t.Valid() && start % PAGE_SIZE != 0 && t.State(start).Mapped?
    ensures Descending(t, t, start, start, 0)
  {
  }

  /** The entry at the start maps it; what it is at its level tells where the walk ends. */
  lemma DescendMaps(t0: Tree, t: Tree, start: nat, vaddr: nat, lvl: nat)
    requires Descending(t0, t, start, vaddr, lvl)
    ensures t.Has(lvl, vaddr) <==> lvl < t.g.Lvls()
    ensures t.Has(lvl, vaddr) ==>
      && t.E(lvl, vaddr).IsValid()
      && (if t.IsTable(lvl, t.E(lvl, vaddr)) then Descending(t0, t, start, vaddr, lvl + 1) else lvl == t.Leaf(vaddr))
  {
    hide Rem, Quot, Down, Tree.Valid, Tree.Leaf, Geometry.WF, Geometry.Block;
    HasIffLeaf(t, lvl, vaddr);
    if t.Has(lvl, vaddr) {
      EntryIsLeaf(t, lvl, vaddr);
      EntryOfMapped(t, lvl, vaddr);
    }
  }

  lemma EntryOfMapped(t: Tree, lvl: nat, x: nat)
    requires t.Valid() && t.Has(lvl, x) && t.State(x).Mapped?
    ensures t.E(lvl, x).IsValid()
  {
    EntryIsLeaf(t, lvl, x);
  }

  /** No block starts inside a page. */
  lemma DescendBase(t0: Tree, t: Tree, start: nat, vaddr: nat, lvl: nat)
    requires Descending(t0, t, start, vaddr, lvl) && lvl < t.g.Lvls()
    ensures Down(vaddr, t.g.sz[lvl]) < vaddr
  {
    hide Quot, Tree.Valid, Tree.State, Tree.Leaf, Geometry.WF;
    if Rem(vaddr, t.g.sz[lvl]) == 0 {
      WholePages(t.g, lvl, vaddr);
    }
  }

  /** The leaf there is expanded; a page is not, and the walk still goes on to the next level. */
  lemma DescendExpand(t0: Tree, t1: Tree, t2: Tree, start: nat, vaddr: nat, lvl: nat)
    requires Descending(t0, t1, start, vaddr, lvl) && t1.Leaf(vaddr) == lvl && Expanded(t1, t2, lvl, vaddr)
    ensures Descending(t0, t2, start, vaddr, lvl + 1)
  {
    hide Rem, Quot, Down, Tree.Valid, Tree.State, Tree.Leaf, Geometry.WF, Geometry.Block;
    ExpandedKept(t0, t1, t2, lvl, vaddr);
    assert t2.Leaf(vaddr) == LeafAfter(t1, lvl, vaddr, vaddr);
    LeafInRange(t1, vaddr);
  }

  lemma DescendStays(t0: Tree, t: Tree, start: nat, vaddr: nat, lvl: nat)
    requires Descending(t0, t, start, vaddr, lvl)
    ensures vaddr == start && Kept(t0, t)
  {
  }

  lemma UnmapNothing(t: Tree, start: nat)
    requires t.Valid()
    ensures ClimbsByOne(t, start, start) && Kept(t, t)
  {
  }

  /** Nothing is taken away from inside a page. */
  lemma KeptIsUnmapNothing(t0: Tree, t: Tree, start: nat)
    requires Kept(t0, t)
    ensures forall y: nat :: t.State(y) == AfterUnmap(t0, start, 0, y)
    ensures PageLeaves(t0) ==> PageLeaves(t)
  {
    hide Tree.Valid, Tree.State, Tree.Leaf, Geometry.WF, Off;
    if PageLeaves(t0) {
      KeepsPageLeaves(t0, t);
    }
  }

  lemma LeafInRange(t: Tree, x: nat)
    requires t.Valid()
    ensures t.Leaf(x) < t.g.Lvls()
  {
    assert t.Has(t.Leaf(x), x);
  }

  /** A range mapped page by page can be unmapped. */
  lemma PagesClimb(t: Tree, at: nat, top: nat)
    requires t.Valid() && top <= t.g.space
    requires forall y: nat :: at <= y < top ==> t.Leaf(y) == t.g.Lvls() - 1
    ensures ClimbsByOne(t, at, top)
  {
    hide Tree.Valid, Tree.Leaf, Geometry.WF, Rem, Down;
  }

  /** So can a mapped range of a tree in which everything is mapped page by page. */
  lemma PageLeavesClimb(t: Tree, at: nat, top: nat)
    requires t.Valid() && top <= t.g.space && MappedRange(t, at, top) && PageLeaves(t)
    ensures ClimbsByOne(t, at, top)
  {
    hide Tree.Valid, Tree.Leaf, Tree.State, Geometry.WF, ClimbsByOne;
    forall y: nat | at <= y < top ensures t.Leaf(y) == t.g.Lvls() - 1 {
      assert t.State(y).Mapped?;
    }
    PagesClimb(t, at, top);
  }

  lemma MappedPages(t0: Tree, t: Tree, va: nat, base: nat, n: nat)
    requires t0.Valid() && t.Valid() && t0.g == t.g && va + n * PAGE_SIZE <= t.g.space
    requires forall y: nat :: t.State(y) == AfterAllocMap(t0, va, base, n, n, y)
    requires forall y: nat :: va <= y < va + n * PAGE_SIZE ==> t.Leaf(y) == t.g.Lvls() - 1
    ensures MappedRange(t, va, va + n * PAGE_SIZE)
    ensures ClimbsByOne(t, va, va + n * PAGE_SIZE)
  {
    hide Tree.Valid, Tree.Leaf, Tree.State, Geometry.WF, Rem, Off, MapsTo, ClimbOk;
    PagesClimb(t, va, va + n * PAGE_SIZE);
    forall y: nat | va <= y < va + n * PAGE_SIZE
      ensures t.State(y).Mapped?
    {
      OffNear(t.g, va, y);
      assert t.State(y) == AfterAllocMap(t0, va, base, n, n, y);
    }
  }

  lemma BackToFree(t: Tree, va: nat, n: nat, y: nat)
    requires t.Valid() && !Blocked(t, va, n)
    ensures Off(t.g, va, y) < n * PAGE_SIZE ==> t.State(y) == Free
  {
    CanonOff(t.g, va, y);
    Periodic(t, y, va + Off(t.g, va, y));
  }

  // ---------------------------------------------------------------------------------------------
  // The outer loop

  /** What has been done when the walk stands at `vaddr`. */
  ghost predicate DoneSoFar(t0: Tree, t: Tree, start: nat, top: nat, vaddr: nat) {
    if start % PAGE_SIZE == 0 then UnmapInv(t0, t, start, top, vaddr) else Kept(t0, t)
  }

  /** And where it goes on: over the range, or down at its start when that is inside a page. */
  ghost predicate GoesOn(t0: Tree, t: Tree, start: nat, top: nat, lvl: nat, vaddr: nat) {
    && start <= top && DoneSoFar(t0, t, start, top, vaddr)
    && (start % PAGE_SIZE == 0 ==> WalkAt(t0, t, start, top, lvl, vaddr))
    && (start % PAGE_SIZE != 0 ==>
      if start == top then vaddr == top else Descending(t0, t, start, vaddr, lvl) && vaddr == start)
  }

  lemma GoesOnFirst(t: Tree, start: nat, numPages: nat)
    requires t.Valid() && start + numPages * PAGE_SIZE <= t.g.space
    requires MappedRange(t, start, start + numPages * PAGE_SIZE)
    ensures GoesOn(t, t, start, start + numPages * PAGE_SIZE, 0, start)
    ensures PageLeaves(t) ==> ClimbsByOne(t, start, start + numPages * PAGE_SIZE)
  {
    hide Tree.Valid, Tree.State, Tree.Leaf, Geometry.WF, PageLeaves, WalkAt, UnmapInv, ClimbsByOne;
    var top := start + numPages * PAGE_SIZE;
    if PageLeaves(t) {
      PageLeavesClimb(t, start, top);
    }
    if start % PAGE_SIZE == 0 {
      UnmapStart(t, start, top);
      WalkStart(t, start, top);
    } else if numPages > 0 {
      DescendStart(t, start);
    }
  }

  /** The entry that the walk looks for next: not there, a table, or the leaf of a mapping. */
  lemma GoesOnNext(t0: Tree, t: Tree, start: nat, top: nat, lvl: nat, vaddr: nat)
    requires t0.Valid() && t.Valid() && t0.g == t.g && GoesOn(t0, t, start, top, lvl, vaddr) && vaddr < top
    ensures DoneSoFar(t0, t, start, top, vaddr)
    ensures !t.Has(lvl, vaddr) ==> start % PAGE_SIZE != 0 || !ClimbsByOne(t0, start, top)
    ensures t.Has(lvl, vaddr) && t.IsTable(lvl, t.E(lvl, vaddr)) ==> GoesOn(t0, t, start, top, lvl + 1, vaddr)
    ensures t.Has(lvl, vaddr) && !t.IsTable(lvl, t.E(lvl, vaddr)) ==>
      && t.Leaf(vaddr) == lvl
      && (start % PAGE_SIZE == 0 ==> vaddr == start || (0 < vaddr && ClimbOk(t0, start, top, vaddr)))
  {
    hide Rem, Quot, Down, Tree.Valid, Tree.State, Tree.Leaf, Geometry.WF, Geometry.Block, ClimbOk, ClimbsByOne, UnmapInv,
      WalkAt, Descending, Kept;
    if start % PAGE_SIZE == 0 {
      WalkFinds(t0, t, start, top, lvl, vaddr);
      if t.Has(lvl, vaddr) {
        EntryMaps(t0, t, start, top, lvl, vaddr);
        if t.IsTable(lvl, t.E(lvl, vaddr)) {
          WalkDeeper(t0, t, start, top, lvl + 1, vaddr);
        }
      }
    } else {
      DescendMaps(t0, t, start, vaddr, lvl);
    }
  }

  /** What the walk leaves when it stops. */
  lemma StopsAt(t0: Tree, t: Tree, start: nat, top: nat, vaddr: nat) returns (gone: nat)
    requires t0.Valid() && t.Valid() && start <= top && DoneSoFar(t0, t, start, top, vaddr)
    ensures gone == if start % PAGE_SIZE == 0 then vaddr - start else 0
    ensures gone <= top - start && forall y: nat :: t.State(y) == AfterUnmap(t0, start, gone, y)
    ensures PageLeaves(t0) ==> PageLeaves(t)
  {
    if start % PAGE_SIZE == 0 {
      UnmapSoFar(t0, t, start, top, vaddr);
      gone := vaddr - start;
    } else {
      KeptIsUnmapNothing(t0, t, start);
      gone := 0;
    }
  }

  lemma Finishes(t0: Tree, t: Tree, start: nat, top: nat, lvl: nat, vaddr: nat)
    requires t0.Valid() && t.Valid() && GoesOn(t0, t, start, top, lvl, vaddr) && top <= vaddr
    ensures DoneSoFar(t0, t, start, top, vaddr)
    ensures ClimbsByOne(t0, start, top) && (start == top || start % PAGE_SIZE == 0)
    ensures (if start % PAGE_SIZE == 0 then vaddr - start else 0) == top - start
  {
    hide Tree.Valid, Tree.State, Tree.Leaf, Geometry.WF, ClimbsByOne;
    if start % PAGE_SIZE == 0 {
      UnmapEnd(t0, t, start, top, vaddr);
    } else if start == top {
      UnmapNothing(t0, start);
    }
  }
}
