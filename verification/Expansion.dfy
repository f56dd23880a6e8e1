/** Expanding a block entry into a table of finer entries keeps the meaning of the tree. */
module Expansion {
  import opened Blocks
  import opened PageTable

  /** The type of a mapping at level `l`: `pt_page_type`. */
  function LeafType(g: Geometry, l: nat): nat {
    if l + 1 == g.Lvls() then PTE_PAGE else PTE_SUPERPAGE
  }

  ghost function LeafAfter(t: Tree, l: nat, x: nat, y: nat): nat
    requires t.Valid() && l < t.g.Lvls()
  {
    if t.Leaf(y) == l && t.SameBlock(l, x, y) && l + 1 < t.g.Lvls() then l + 1 else t.Leaf(y)
  }

  /** `t1` is `t0` with the level-`l` block of `x`, if it was a leaf, one level finer. */
  ghost predicate Expanded(t0: Tree, t1: Tree, l: nat, x: nat) {
    && t0.Valid() && t1.Valid() && t0.g == t1.g && l < t0.g.Lvls()
    && (forall y: nat :: t1.State(y) == t0.State(y))
    && (forall y: nat :: t1.Leaf(y) == LeafAfter(t0, l, x, y))
  }

  /**
   * What is mapped in `t1` was mapped in `t0`, and by the same entry, attributes included, unless the
   * entry has been expanded: then with attributes `attrs`.
   */
  ghost predicate AttrsKept(t0: Tree, t1: Tree, attrs: nat) {
    && t0.Valid() && t1.Valid() && t0.g == t1.g
    && (forall y: nat :: AttrsKeptAt(t0, t1, attrs, y))
  }

  ghost predicate AttrsKeptAt(t0: Tree, t1: Tree, attrs: nat, y: nat)
    requires t0.Valid() && t1.Valid()
  {
    && t0.Leaf(y) <= t1.Leaf(y)
    && (t1.State(y).Mapped? ==>
      && t0.State(y).Mapped?
      && if t1.Leaf(y) == t0.Leaf(y) then t1.Entry(y) == t0.Entry(y) else t1.Entry(y).attrs == attrs)
  }

  lemma AttrsKeptSelf(t: Tree, attrs: nat)
    requires t.Valid()
    ensures AttrsKept(t, t, attrs)
  {
  }

  lemma AttrsKeptTwice(t0: Tree, t1: Tree, t2: Tree, attrs: nat)
    requires AttrsKept(t0, t1, attrs) && AttrsKept(t1, t2, attrs)
    ensures AttrsKept(t0, t2, attrs)
  {
    hide Tree.Valid, Tree.State, Tree.Leaf, Tree.Entry;
    forall y: nat ensures AttrsKeptAt(t0, t2, attrs, y) {
      assert AttrsKeptAt(t0, t1, attrs, y) && AttrsKeptAt(t1, t2, attrs, y);
    }
  }

  /** Rewriting an entry so that it maps nothing leaves the others alone. */
  lemma PutKeepsAttrs(t: Tree, l: nat, x: nat, v: Pte, attrs: nat)
    requires t.Valid() && t.Has(l, x) && !t.IsTable(l, t.E(l, x))
    requires !v.IsValid() && t.EntryOk(l, v)
    ensures t.Put(l, x, v).Valid() && AttrsKept(t, t.Put(l, x, v), attrs)
  {
    hide Tree.Valid, Tree.State, Tree.Leaf, Tree.Entry, Tree.Put, Geometry.WF, Geometry.Block;
    PutLeaf(t, l, x, v);
    PutGeometry(t, l, x, v);
    forall y: nat ensures AttrsKeptAt(t, t.Put(l, x, v), attrs, y) {
      PutLeafState(t, l, x, v, y);
    }
  }

  lemma PutGeometry(t: Tree, l: nat, x: nat, v: Pte)
    requires t.Shape() && t.Has(l, x)
    ensures t.Put(l, x, v).g == t.g
  {
  }

  /** Hanging a table below an entry that maps nothing does too. */
  lemma SplitKeepsAttrs(t: Tree, l: nat, x: nat, base: nat, a: nat, attrs: nat)
    requires t.Valid() && t.Has(l, x) && l + 1 < t.g.Lvls() && !t.E(l, x).IsValid()
    ensures t.Split(l, x, base, a).Valid() && AttrsKept(t, t.Split(l, x, base, a), attrs)
  {
    hide Tree.Valid, Tree.State, Tree.Leaf, Tree.Entry, Tree.Split, Geometry.WF, Geometry.Block;
    SplitValid(t, l, x, base, a);
    SplitGeometry(t, l, x, base, a);
    forall y: nat ensures AttrsKeptAt(t, t.Split(l, x, base, a), attrs, y) {
      SplitState(t, l, x, base, a, y);
    }
  }

  lemma SplitGeometry(t: Tree, l: nat, x: nat, base: nat, attrs: nat)
    requires t.Valid() && t.Has(l, x) && l + 1 < t.g.Lvls()
    ensures t.Split(l, x, base, attrs).g == t.g
  {
  }

  /** `t1` is `t0` with the level-`l` block of `x` expanded, the first `n` entries copied. */
  ghost predicate Copying(t0: Tree, t1: Tree, l: nat, x: nat, n: nat, attrs: nat) {
    && t0.Valid() && t1.Valid() && t0.g == t1.g && l + 1 < t0.g.Lvls()
    && t0.Has(l, x) && !t0.IsTable(l, t0.E(l, x))
    && (forall y: nat :: CopyingAt(t0, t1, l, x, n, attrs, y))
  }

  ghost predicate CopyingAt(t0: Tree, t1: Tree, l: nat, x: nat, n: nat, attrs: nat, y: nat)
    requires t0.Valid() && t1.Valid() && t0.g == t1.g && l + 1 < t0.g.Lvls() && t0.Has(l, x)
  {
    if t0.SameBlock(l, x, y) then
      && t0.Leaf(y) == l && t0.Entry(y) == t0.E(l, x) && t1.Leaf(y) == l + 1
      && t1.Entry(y) ==
        if t0.g.Index(l + 1, y) < n then Part(t0.g, l, t0.E(l, x), t0.g.Index(l + 1, y), attrs)
        else Blank(t0.E(l, x))
    else
      t1.Leaf(y) == t0.Leaf(y) && t1.Entry(y) == t0.Entry(y) && t1.State(y) == t0.State(y)
  }

  lemma StartCopying(t: Tree, l: nat, x: nat, base: nat, a: nat, attrs: nat)
    requires t.Valid() && t.Has(l, x) && l + 1 < t.g.Lvls() && !t.IsTable(l, t.E(l, x))
    ensures t.Split(l, x, base, a).Valid()
    ensures Copying(t, t.Split(l, x, base, a), l, x, 0, attrs)
  {
    hide Tree.Valid, Tree.State, Tree.Leaf, Tree.Entry, Tree.Split, Geometry.WF, Geometry.Block;
    SplitValid(t, l, x, base, a);
    SplitGeometry(t, l, x, base, a);
    forall y: nat
      ensures CopyingAt(t, t.Split(l, x, base, a), l, x, 0, attrs, y)
    {
      SplitState(t, l, x, base, a, y);
    }
  }

  /** The entry that takes over the `n`-th part of the block entry `e`. */
  function Part(g: Geometry, l: nat, e: Pte, n: nat, attrs: nat): Pte
    requires l + 1 < g.Lvls()
  {
    if e.IsValid() then PteSet(e.addr + n * g.sz[l + 1], LeafType(g, l + 1), attrs)
    else if e.rsw == RSW_RSRV then PteSetRsw(Blank(e), RSW_RSRV)
    else Blank(e)
  }

  lemma ChildLeaf(t0: Tree, t1: Tree, l: nat, x: nat, n: nat, attrs: nat)
    requires Copying(t0, t1, l, x, n, attrs) && n < t0.g.nent[l + 1]
    ensures var a := Child(t0.g, l, x, n);
      && t1.Has(l + 1, a) && !t1.IsTable(l + 1, t1.E(l + 1, a)) && t1.Leaf(a) == l + 1
      && t1.E(l + 1, a) == Blank(t0.E(l, x))
  {
    var a := Child(t0.g, l, x, n);
    ChildAddress(t0.g, l, x, n);
    ChildIndex(t0.g, l, x, n);
    assert CopyingAt(t0, t1, l, x, n, attrs, a);
  }

  lemma WholePages(g: Geometry, l: nat, d: nat)
    requires g.WF() && l < g.Lvls() && Rem(d, g.sz[l]) == 0
    ensures d % PAGE_SIZE == 0
  {
    g.Divides(l, g.Lvls() - 1);
    RemTransitive(d, g.sz[l], PAGE_SIZE);
    RemIsModulo(d, PAGE_SIZE);
  }

  lemma PartAddress(t: Tree, l: nat, e: Pte, n: nat)
    requires t.g.WF() && l + 1 < t.g.Lvls() && n < t.g.nent[l + 1]
    requires e.addr % PAGE_SIZE == 0 && e.addr + t.g.sz[l] <= PA_LIMIT
    ensures AddrMask(e.addr + n * t.g.sz[l + 1]) == e.addr + n * t.g.sz[l + 1]
    ensures e.addr + n * t.g.sz[l + 1] + t.g.sz[l + 1] <= PA_LIMIT
  {
    hide Rem, Quot, Geometry.WF;
    ChildFits(t.g, l, n);
    WholePages(t.g, l + 1, n * t.g.sz[l + 1]);
  }

  /** In a valid tree every entry is well formed. */
  lemma LeafOk(t: Tree, l: nat, x: nat)
    requires t.Valid() && t.Has(l, x)
    ensures t.EntryOk(l, t.E(l, x))
  {
  }

  /** The part entry is well formed. */
  lemma PartOk(t: Tree, l: nat, x: nat, n: nat, attrs: nat)
    requires t.Valid() && t.Has(l, x) && l + 1 < t.g.Lvls() && !t.IsTable(l, t.E(l, x))
    requires n < t.g.nent[l + 1]
    ensures var v := Part(t.g, l, t.E(l, x), n, attrs);
      t.EntryOk(l + 1, v) && !t.IsTable(l + 1, v)
  {
    assert t.EntryOk(l, t.E(l, x));
    if t.E(l, x).IsValid() {
      PartAddress(t, l, t.E(l, x), n);
    }
  }

  /** It maps its part as the block entry did. */
  lemma PartMeaning(t: Tree, l: nat, x: nat, n: nat, attrs: nat, y: nat)
    requires t.Valid() && t.Has(l, x) && l + 1 < t.g.Lvls() && !t.IsTable(l, t.E(l, x))
    requires t.SameBlock(l, x, y) && t.g.Index(l + 1, y) == n
    ensures t.StateOf(l + 1, Part(t.g, l, t.E(l, x), n, attrs), y) == t.State(y)
  {
    hide Down, Tree.Valid, Tree.Leaf, Geometry.WF, Geometry.Block, Geometry.Index, Quot, AddrMask;
    SameBlockSameEntry(t, l, x, y);
    LeafUnique(t, l, y);
    LeafOk(t, l, x);
    if t.E(l, x).IsValid() {
      PartAddress(t, l, t.E(l, x), n);
      ChildOfIndex(t.g, l, y);
    }
  }

  lemma CopyStep(t0: Tree, t1: Tree, l: nat, x: nat, n: nat, attrs: nat)
    requires Copying(t0, t1, l, x, n, attrs) && n < t0.g.nent[l + 1]
    ensures var a := Child(t0.g, l, x, n);
      var v := Part(t0.g, l, t0.E(l, x), n, attrs);
      && t1.Has(l + 1, a) && t0.EntryOk(l + 1, v) && !t0.IsTable(l + 1, v)
      && t1.Put(l + 1, a, v).Valid()
      && Copying(t0, t1.Put(l + 1, a, v), l, x, n + 1, attrs)
  {
    hide Rem, Quot, Down, Tree.Valid, Tree.State, Tree.Leaf, Tree.Entry, Geometry.WF, Geometry.Block, Geometry.Index,
      Child, Part;
    var a := Child(t0.g, l, x, n);
    var v := Part(t0.g, l, t0.E(l, x), n, attrs);
    PartOk(t0, l, x, n, attrs);
    ChildLeaf(t0, t1, l, x, n, attrs);
    ChildAddress(t0.g, l, x, n);
    ChildIndex(t0.g, l, x, n);
    PutLeaf(t1, l + 1, a, v);
    var t2 := t1.Put(l + 1, a, v);
    var k := n + 1;
    forall y: nat
      ensures CopyingAt(t0, t2, l, x, k, attrs, y)
    {
      assert CopyingAt(t0, t1, l, x, n, attrs, y);
      PutLeafState(t1, l + 1, a, v, y);
      SameEntry(t0.g, l + 1, a, y);
    }
  }

  /** All parts taken over, or nothing to take over: every address stands for what it stood for. */
  lemma EndCopying(t0: Tree, t1: Tree, l: nat, x: nat, n: nat, attrs: nat)
    requires Copying(t0, t1, l, x, n, attrs)
    requires n == t0.g.nent[l + 1] || (!t0.E(l, x).IsValid() && t0.E(l, x).rsw != RSW_RSRV)
    ensures Expanded(t0, t1, l, x) && AttrsKept(t0, t1, attrs)
  {
    hide Rem, Quot, Down, Tree.Valid, Tree.Leaf, Geometry.WF, Geometry.Block, Geometry.Index;
    forall y: nat
      ensures t1.State(y) == t0.State(y) && t1.Leaf(y) == LeafAfter(t0, l, x, y) && AttrsKeptAt(t0, t1, attrs, y)
    {
      assert CopyingAt(t0, t1, l, x, n, attrs, y);
      if t0.SameBlock(l, x, y) {
        SameBlockSameEntry(t0, l, x, y);
        PartMeaning(t0, l, x, t0.g.Index(l + 1, y), attrs, y);
      }
    }
  }

  lemma NothingToExpand(t: Tree, l: nat, x: nat)
    requires t.Valid() && t.Has(l, x) && (t.g.Lvls() == l + 1 || t.IsTable(l, t.E(l, x)))
    ensures Expanded(t, t, l, x)
  {
    forall y: nat
      ensures t.Leaf(y) == LeafAfter(t, l, x, y)
    {
      if t.SameBlock(l, x, y) {
        SameBlockSameEntry(t, l, x, y);
      }
    }
  }
}
