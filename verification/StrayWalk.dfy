/** Trees on which mem_unmap and mem_map go astray (src/core/mmu.c, lines 146-161 and 338-403). */
module StrayWalk {
  import opened Blocks
  import opened PageTable
  import opened Descriptors
  import opened Mapping
  import opened Unmapping
  import opened Accounts
  import opened AddressSpaces

  /** A four-level tree with a page just below `b` and a superpage of size `b` at `b`. */
  ghost predicate Stray(t: Tree, b: nat) {
    && t.Valid() && t.g.Lvls() == 4 && b == t.g.sz[1] && PAGE_SIZE <= b
    && t.Leaf(b - 1) == 3 && t.Leaf(b) == 1
    && MappedRange(t, b - PAGE_SIZE, b + b) && b + b <= t.g.space
  }

  /** One level up from the page's table is not enough to find the superpage. */
  lemma StrayDoesNotClimb(t: Tree, b: nat)
    requires Stray(t, b)
    ensures !ClimbsByOne(t, b - PAGE_SIZE, b + b)
  {
    hide Rem, Down, Tree.Valid, Tree.Leaf, MappedRange;
    var g := t.g;
    BlockEnds(g, b);
    assert CutLevel(g, b - PAGE_SIZE, b + b, 3, b - 1) == 3;
    assert StartLevel(g, 1, b) == 1;
    assert !ClimbOk(t, b - PAGE_SIZE, b + b, b);
  }

  lemma BlockEnds(g: Geometry, b: nat)
    requires g.WF() && g.Lvls() == 4 && b == g.sz[1] && PAGE_SIZE <= b
    ensures Down(b - 1, PAGE_SIZE) + PAGE_SIZE == b && Rem(b, g.Span(3)) == 0 && Rem(b, b) == 0
    ensures g.sz[3] == PAGE_SIZE
  {
    g.Divides(1, 3);
    g.Divides(1, 2);
    RemSubMultiple(b, PAGE_SIZE, PAGE_SIZE) by {
      RemShift(0, PAGE_SIZE);
    }
    DownOfBlock(b - PAGE_SIZE, PAGE_SIZE - 1, PAGE_SIZE);
    RemShift(0, b);
  }

  /** The level-`l` blocks of two addresses inside the address space. */
  lemma BlocksInside(g: Geometry, l: nat, x: nat)
    requires g.WF() && l < g.Lvls() && x < g.space
    ensures g.Block(l, x) == Down(x, g.sz[l])
  {
  }

  /** Addresses below 2b share the level-0 block; those below b the level-1 block, which those from b on do not. */
  lemma Neighbours(g: Geometry, b: nat, y: nat)
    requires g.WF() && g.Lvls() == 4 && b == g.sz[1] && b + b <= g.sz[0] && y < b + b
    ensures y < g.space && b + b <= g.space
    ensures g.Block(0, y) == 0
    ensures g.Block(1, y) == if y < b then 0 else b
    ensures b - PAGE_SIZE <= y < b ==> g.Block(3, y) == b - PAGE_SIZE
  {
    g.SpaceDivides(0);
    BlocksInside(g, 0, y);
    BlocksInside(g, 1, y);
    BlocksInside(g, 3, y);
    DownOfBlock(0, y, g.sz[0]);
    RemShift(0, b);
    if y < b {
      DownOfBlock(0, y, b);
      BlockIsPages(g, 1);
      g.Divides(1, 3);
      RemShift(0, PAGE_SIZE);
      if b - PAGE_SIZE <= y {
        RemSubMultiple(b, PAGE_SIZE, PAGE_SIZE);
        DownOfBlock(b - PAGE_SIZE, y - (b - PAGE_SIZE), PAGE_SIZE);
      }
    } else {
      DownOfBlock(b, y - b, b);
    }
  }

  /** An entry that maps a page or a superpage from address 0 on. */
  function Block0(typ: nat): Pte {
    Pte(typ, 0, 0, 0)
  }

  /** A table below the level-`l` entry for the page under `b`. */
  lemma TableTowards(t: Tree, l: nat, b: nat)
    requires t.Valid() && t.g.Lvls() == 4 && b == t.g.sz[1] && b + b <= t.g.sz[0] && PAGE_SIZE <= b && l < 3
    requires t.Leaf(b - 1) == l && forall y: nat :: b <= y < b + b ==> t.Leaf(y) == if l == 0 then 0 else 1
    ensures var u := t.Split(l, b - 1, 0, 0);
            && u.Valid() && u.g == t.g && u.Leaf(b - 1) == l + 1
            && forall y: nat :: b <= y < b + b ==> u.Leaf(y) == 1
  {
    hide Rem, Down, Tree.Valid, Tree.Leaf, Tree.State, Geometry.WF, Geometry.Block;
    SplitValid(t, l, b - 1, 0, 0);
    SplitState(t, l, b - 1, 0, 0, b - 1);
    Neighbours(t.g, b, b - 1);
    var u := t.Split(l, b - 1, 0, 0);
    forall y: nat | b <= y < b + b ensures u.Leaf(y) == 1 {
      Neighbours(t.g, b, y);
      SplitState(t, l, b - 1, 0, 0, y);
      if l == 2 {
        CoarserBlock(t.g, 1, 2, y);
        CoarserBlock(t.g, 1, 2, b - 1);
      }
    }
  }

  lemma EmptyLeaves(g: Geometry)
    requires g.WF()
    ensures EmptyTree(g).Valid() && forall y: nat :: EmptyTree(g).Leaf(y) == 0
  {
    EmptyTreeIsFree(g, 0);
    forall y: nat ensures EmptyTree(g).Leaf(y) == 0 {
      EmptyTreeIsFree(g, y);
    }
  }

  /** Tables down to the pages just below `b`, nothing mapped. */
  lemma BuildTables(g: Geometry, b: nat) returns (t: Tree)
    requires g.WF() && g.Lvls() == 4 && b == g.sz[1] && b + b <= g.sz[0]
    ensures t.Valid() && t.g == g && t.Leaf(b - 1) == 3
    ensures forall y: nat :: b <= y < b + b ==> t.Leaf(y) == 1
  {
    hide Rem, Down, Tree.Valid, Tree.Leaf, Tree.State, Geometry.WF, Geometry.Block, Tree.Split, EmptyTree;
    BlockIsPages(g, 1);
    EmptyLeaves(g);
    t := EmptyTree(g);
    assert t.g == g by {
      EmptyGeometry(g);
    }
    TableTowards(t, 0, b);
    t := t.Split(0, b - 1, 0, 0);
    TableTowards(t, 1, b);
    t := t.Split(1, b - 1, 0, 0);
    TableTowards(t, 2, b);
    t := t.Split(2, b - 1, 0, 0);
  }

  lemma EmptyGeometry(g: Geometry)
    requires g.WF()
    ensures EmptyTree(g).g == g
  {
  }

  lemma PageBelow(t: Tree, b: nat)
    requires t.Valid() && t.g.Lvls() == 4 && b == t.g.sz[1] && b + b <= t.g.sz[0] && PAGE_SIZE <= b
    requires t.Leaf(b - 1) == 3 && forall y: nat :: b <= y < b + b ==> t.Leaf(y) == 1
    ensures var u := t.Put(3, b - 1, Block0(PTE_PAGE));
            && u.Valid() && u.g == t.g && u.Leaf(b) == 1 && (forall y: nat :: b <= y < b + b ==> u.Leaf(y) == 1)
            && forall y: nat :: b - PAGE_SIZE <= y < b ==> u.Leaf(y) == 3 && u.State(y).Mapped?
  {
    BlockEnds(t.g, b);
    assert t.EntryOk(3, Block0(PTE_PAGE));
    hide Rem, Down, Tree.Valid, Tree.Leaf, Tree.State, Geometry.WF, Geometry.Block;
    PutLeaf(t, 3, b - 1, Block0(PTE_PAGE));
    var u := t.Put(3, b - 1, Block0(PTE_PAGE));
    forall y: nat | b - PAGE_SIZE <= y < b + b
      ensures u.Leaf(y) == (if y < b then 3 else 1) && (y < b ==> u.State(y).Mapped?)
    {
      Neighbours(t.g, b, y);
      Neighbours(t.g, b, b - 1);
      PutLeafState(t, 3, b - 1, Block0(PTE_PAGE), y);
    }
  }

  lemma SuperpageAbove(t: Tree, b: nat)
    requires t.Valid() && t.g.Lvls() == 4 && b == t.g.sz[1] && b + b <= t.g.sz[0] && PAGE_SIZE <= b <= PA_LIMIT
    requires t.Leaf(b) == 1 && forall y: nat :: b <= y < b + b ==> t.Leaf(y) == 1
    requires forall y: nat :: b - PAGE_SIZE <= y < b ==> t.Leaf(y) == 3 && t.State(y).Mapped?
    ensures var u := t.Put(1, b, Block0(PTE_SUPERPAGE));
            && u.g == t.g && Stray(u, b)
  {
    assert t.Leaf(b) == 1 && t.EntryOk(1, Block0(PTE_SUPERPAGE));
    hide Rem, Down, Tree.Valid, Tree.Leaf, Tree.State, Geometry.WF, Geometry.Block;
    PutLeaf(t, 1, b, Block0(PTE_SUPERPAGE));
    Neighbours(t.g, b, b);
    var u := t.Put(1, b, Block0(PTE_SUPERPAGE));
    forall y: nat | b - PAGE_SIZE <= y < b + b
      ensures u.Leaf(y) == (if y < b then 3 else 1) && u.State(y).Mapped?
    {
      Neighbours(t.g, b, y);
      PutLeafState(t, 1, b, Block0(PTE_SUPERPAGE), y);
    }
  }

  /**
   * Every four-level geometry with room for two superpages has a tree and a fully mapped range in it
   * on which the condition of Unmap fails.
   */
  lemma StrayTree(g: Geometry) returns (t: Tree)
    requires g.WF() && g.Lvls() == 4 && g.sz[1] + g.sz[1] <= g.sz[0] && g.sz[1] <= PA_LIMIT
    ensures t.g == g && Stray(t, g.sz[1])
    ensures !ClimbsByOne(t, g.sz[1] - PAGE_SIZE, g.sz[1] + g.sz[1])
  {
    hide Rem, Down, Tree.Valid, Tree.Leaf, Tree.State, Geometry.WF, Geometry.Block, Stray, ClimbsByOne;
    BlockIsPages(g, 1);
    t := BuildTables(g, g.sz[1]);
    PageBelow(t, g.sz[1]);
    t := t.Put(3, g.sz[1] - 1, Block0(PTE_PAGE));
    SuperpageAbove(t, g.sz[1]);
    t := t.Put(1, g.sz[1], Block0(PTE_SUPERPAGE));
    StrayDoesNotClimb(t, g.sz[1]);
  }

  /** In an empty tree the steps from the last page of a last-level table miss the page behind it. */
  lemma StepsMissSecondPage(g: Geometry)
    requires g.WF() && 2 <= g.Lvls() && 2 * PAGE_SIZE <= g.sz[g.Lvls() - 2] && 2 * g.sz[g.Lvls() - 2] <= g.space
    ensures EmptyTree(g).Valid()
    ensures !StepsReachEnd(EmptyTree(g), g.sz[g.Lvls() - 2] - PAGE_SIZE, 2 * PAGE_SIZE)
  {
    hide Tree.Valid, Tree.Leaf, Tree.State, Geometry.WF, EmptyTree;
    var l := g.Lvls() - 2;
    var s := g.sz[l];
    var last := s + PAGE_SIZE - 1;
    EmptyTreeIsFree(g, last);
    assert Rem(s - PAGE_SIZE, s) == s - PAGE_SIZE && Rem(last, s) == PAGE_SIZE - 1;
    BlocksInside(g, l, s - PAGE_SIZE);
    BlocksInside(g, l, last);
    EmptyGeometry(g);
    assert !StepsReach(EmptyTree(g), s - PAGE_SIZE, 2 * PAGE_SIZE, l);
  }

  /** Mapping two pages across the end of a table in a new address space does not finish. */
  method MapAcrossTables(g: Geometry, root: nat, isHyp: bool, pool: seq<nat>, base: nat, flags: nat)
    returns (s: AddressSpace, r: WalkResult)
    requires g.WF() && 2 <= g.Lvls() && 2 * PAGE_SIZE <= g.sz[g.Lvls() - 2] && 2 * g.sz[g.Lvls() - 2] <= g.space
    requires forall i :: 0 <= i < |pool| ==> pool[i] != root && pool[i] < PA_LIMIT && pool[i] % PAGE_SIZE == 0
    requires forall i, j :: 0 <= i < j < |pool| ==> pool[i] != pool[j]
    ensures r.WentAstray? || (r.NoPagesLeft? && s.pool == [] && |pool| < 2 * (g.Lvls() - 1))
  {
    hide AddressSpace.Valid, Tree.Valid, Tree.Leaf, Tree.State, Geometry.WF, EmptyTree, StepsReachEnd, PageLeaves,
      Tree.Entry, AttrsAfterMap, Grown, Lacking, Missing, KeysOver, Pages, Paid, Spent;
    StepsMissSecondPage(g);
    s := new AddressSpace(g, root, isHyp, pool);
    var va := g.sz[g.Lvls() - 2] - PAGE_SIZE;
    BlockIsPages(g, g.Lvls() - 2);
    ghost var start, done;
    PagesBound(s.t, va, 2);
    r, start, done := s.MemMap(va, base, 2, 2, flags);
  }
}
