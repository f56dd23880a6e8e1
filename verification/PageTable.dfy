/** Multi-level page tables as values: the geometry given by a table descriptor, entries, the tables
    in use, and what a table tree means page by page. */
module PageTable {
  import opened Blocks

  const PAGE_SIZE: nat := 4096
  /** Addresses are 64-bit numbers. */
  const VA_LIMIT: nat := 0x1_0000_0000_0000_0000
  /** No address space is larger than this. */
  const SPACE_LIMIT: nat := 0x4000_0000_0000_0000
  /** One past the largest output address that an entry can hold. */
  const PA_LIMIT: nat := 0x1_0000_0000_0000

  /** The bytes of the whole address space and, per level: bytes mapped by one entry, entries per
      table, whether a block entry is allowed. Level 0 is the root. */
  datatype Geometry = Geometry(space: nat, sz: seq<nat>, nent: seq<nat>, term: seq<bool>) {
    ghost function WF(): (r: bool)
      ensures r ==>
        && 1 <= |sz| == |nent| == |term| && 0 < space <= SPACE_LIMIT
        && (forall l: nat :: l < |sz| ==> 0 < sz[l] && 0 < nent[l])
    {
      && 1 <= |sz| == |nent| == |term|
      && sz[|sz| - 1] == PAGE_SIZE
      && (forall l: nat :: l < |sz| ==> 0 < sz[l] && 0 < nent[l])
      && (forall l: nat :: l < |sz| ==> Exact(l))
      && 0 < space <= SPACE_LIMIT && Rem(VA_LIMIT, space) == 0
    }

    function Lvls(): nat { |sz| }

    /** Bytes covered by one table of level `l`. */
    function Span(l: nat): nat
      requires l <= |sz|
    {
      if l == 0 then space else sz[l - 1]
    }

    /** A table's entries cover what the table covers. */
    ghost predicate Exact(l: nat)
      requires l < |sz| && l < |nent|
    {
      sz[l] * nent[l] == Span(l)
    }

    lemma SpanPositive(l: nat)
      requires WF() && l < Lvls()
      ensures sz[l] <= Span(l) && 0 < Span(l) && Rem(Span(l), sz[l]) == 0
    {
      assert Exact(l);
      assert sz[l] * 1 <= sz[l] * nent[l];
      ProductIsMultiple(sz[l], nent[l]);
    }

    lemma {:induction false} Divides(i: nat, j: nat)
      requires WF() && i <= j < Lvls()
      ensures Rem(sz[i], sz[j]) == 0
      decreases j - i
    {
      if i < j {
        Divides(i + 1, j);
        SpanPositive(i + 1);
        RemTransitive(sz[i], sz[i + 1], sz[j]);
      }
    }

    lemma SpaceDivides(l: nat)
      requires WF() && l < Lvls()
      ensures Rem(space, sz[l]) == 0 && sz[l] <= space
    {
      SpanPositive(0);
      Divides(0, l);
      RemTransitive(space, sz[0], sz[l]);
      RemAtMost(space, sz[l]);
    }

    lemma SpanDivides(l: nat)
      requires WF() && l < Lvls()
      ensures 0 < Span(l) && Rem(space, Span(l)) == 0
    {
      SpanPositive(l);
      if 0 < l {
        SpaceDivides(l - 1);
      }
    }

    /** The address as the root index sees it. */
    function Canon(x: nat): (r: nat)
      requires WF()
      ensures r < space
    {
      Rem(x, space)
    }

    /** Start of the level-`l` block that holds `x`, within the address space. */
    function Block(l: nat, x: nat): (r: nat)
      requires WF() && l < Lvls()
      ensures r <= Canon(x) < r + sz[l]
    {
      Down(Canon(x), sz[l])
    }

    /** Start of what the level-`l` table over `x` covers. */
    function TableKey(l: nat, x: nat): nat
      requires WF() && l < Lvls()
    {
      if l == 0 then 0 else Block(l - 1, x)
    }

    /** `pt_getpteindex_by_va`: shift by the level's offset, mask with the table size. */
    function Index(l: nat, x: nat): (i: nat)
      requires WF() && l < Lvls()
      ensures i < nent[l]
    {
      Rem(Quot(x, sz[l]), nent[l])
    }
  }

  /** The index is the block's number within its table. */
  lemma IndexInTable(g: Geometry, l: nat, x: nat)
    requires g.WF() && l < g.Lvls()
    ensures 0 < g.Span(l)
    ensures g.Index(l, x) == Quot(Rem(x, g.Span(l)), g.sz[l])
  {
    assert g.Exact(l);
    QuotRem(x, g.sz[l], g.nent[l]);
  }

  /** A table starts where its span says. */
  lemma TableKeyIsStart(g: Geometry, l: nat, x: nat)
    requires g.WF() && l < g.Lvls()
    ensures 0 < g.Span(l)
    ensures g.TableKey(l, x) == g.Canon(x) - Rem(x, g.Span(l))
  {
    g.SpanDivides(l);
    RemNest(x, g.space, g.Span(l));
  }

  /** A block starts at its table's start plus its offset in the table. */
  lemma BlockInTable(g: Geometry, l: nat, x: nat)
    requires g.WF() && l < g.Lvls()
    ensures 0 < g.Span(l)
    ensures g.Block(l, x) == g.TableKey(l, x) + Down(Rem(x, g.Span(l)), g.sz[l])
  {
    g.SpanPositive(l);
    TableKeyIsStart(g, l, x);
    g.SpaceDivides(l);
    RemNest(x, g.space, g.sz[l]);
    RemNest(x, g.Span(l), g.sz[l]);
  }

  /** Same entry exactly when same block. */
  lemma SameEntry(g: Geometry, l: nat, x: nat, y: nat)
    requires g.WF() && l < g.Lvls()
    ensures g.TableKey(l, x) == g.TableKey(l, y) && g.Index(l, x) == g.Index(l, y)
       <==> g.Block(l, x) == g.Block(l, y)
  {
    IndexInTable(g, l, x);
    IndexInTable(g, l, y);
    BlockInTable(g, l, x);
    BlockInTable(g, l, y);
    QuotIffDown(Rem(x, g.Span(l)), Rem(y, g.Span(l)), g.sz[l]);
    if 0 < l && g.Block(l, x) == g.Block(l, y) {
      CoarserBlock(g, l - 1, l, x);
      CoarserBlock(g, l - 1, l, y);
    }
  }

  /** A finer block lies inside the coarser one and decides it. */
  lemma CoarserBlock(g: Geometry, k: nat, l: nat, x: nat)
    requires g.WF() && k <= l < g.Lvls()
    ensures g.Block(k, x) <= g.Block(l, x)
    ensures g.Block(k, x) == Down(g.Block(l, x), g.sz[k])
    ensures g.Block(l, x) + g.sz[l] <= g.Block(k, x) + g.sz[k]
  {
    var c := g.Canon(x);
    var b := Down(c, g.sz[k]);
    g.Divides(k, l);
    DownIsMultiple(c, g.sz[k]);
    RemTransitive(b, g.sz[k], g.sz[l]);
    RemTransitive(b + g.sz[k], g.sz[k], g.sz[l]) by {
      RemShift(b, g.sz[k]);
    }
    DownIsMultiple(c, g.sz[l]);
    var d := Down(c, g.sz[l]);
    if d < b {
      MultipleGap(d, b, g.sz[l]);
    }
    MultipleGap(d, b + g.sz[k], g.sz[l]);
    DownOfBlock(b, d - b, g.sz[k]);
  }

  /** Addresses in one aligned block share the block of every coarser or equal level. */
  lemma SameDownSameBlock(g: Geometry, l: nat, x: nat, y: nat)
    requires g.WF() && l < g.Lvls()
    requires Down(x, g.sz[l]) == Down(y, g.sz[l])
    ensures g.Block(l, x) == g.Block(l, y)
  {
    BlockOffset(g, l, x);
    BlockOffset(g, l, y);
  }

  /** A multiple of the block size is the start of a block that fits in the address space. */
  lemma CanonOfMultiple(g: Geometry, l: nat, b: nat)
    requires g.WF() && l < g.Lvls() && Rem(b, g.sz[l]) == 0
    ensures Rem(g.Canon(b), g.sz[l]) == 0 && g.Canon(b) + g.sz[l] <= g.space
  {
    g.SpaceDivides(l);
    RemNest(b, g.space, g.sz[l]);
    MultipleGap(g.Canon(b), g.space, g.sz[l]);
  }

  /** The block start of `x` is the canonical form of `x` rounded down. */
  lemma BlockOffset(g: Geometry, l: nat, x: nat)
    requires g.WF() && l < g.Lvls()
    ensures g.Block(l, x) == g.Canon(Down(x, g.sz[l]))
    ensures g.Canon(x) == g.Block(l, x) + Rem(x, g.sz[l])
    ensures 0 <= Rem(x, g.sz[l]) < g.sz[l]
  {
    hide Quot, Geometry.WF, Rem;
    var s := g.sz[l];
    var b, d := Down(x, s), Rem(x, s);
    DownIsMultiple(x, s);
    CanonOfMultiple(g, l, b);
    CanonAdd(g, b, d);
    DownOfBlock(g.Canon(b), d, s);
  }

  lemma {:induction false} CanonAdd(g: Geometry, b: nat, d: nat)
    requires g.WF() && g.Canon(b) + d < g.space
    ensures g.Canon(b + d) == g.Canon(b) + d
    decreases b
  {
    if g.space <= b {
      CanonAdd(g, b - g.space, d);
    }
  }

  // ---------------------------------------------------------------------------------------------
  // Entries

  const PTE_SUPERPAGE: nat := 1
  const PTE_TABLE: nat := 3
  const PTE_PAGE: nat := 3
  const RSW_RSRV: nat := 3

  /** The fields of one 64-bit entry: bits 1:0, the software bits 58:55, bits 47:12 (as an address)
      and the remaining attribute bits. */
  datatype Pte = Pte(typ: nat, rsw: nat, addr: nat, attrs: nat) {
    predicate IsValid() { typ % 2 == 1 }
  }

  function AddrMask(a: nat): (r: nat)
    ensures r < PA_LIMIT && r % PAGE_SIZE == 0
    ensures a < PA_LIMIT && a % PAGE_SIZE == 0 ==> r == a
  {
    (a % PA_LIMIT) / PAGE_SIZE * PAGE_SIZE
  }

  /** `pte_set`: the software bits are part of the flags, and no flag constant sets them. */
  function PteSet(addr: nat, typ: nat, attrs: nat): Pte {
    Pte(typ, 0, AddrMask(addr), attrs)
  }

  function PteSetRsw(e: Pte, rsw: nat): Pte {
    e.(rsw := rsw)
  }

  /** What a new table below entry `e` holds: only the software bits are kept. */
  function Blank(e: Pte): Pte {
    Pte(0, e.rsw, 0, 0)
  }

  /** What a page of the address space stands for. */
  datatype PageState = Mapped(pa: nat) | Reserved | Free

  /** `pte_table` */
  predicate PteTable(g: Geometry, l: nat, e: Pte) {
    l + 1 < g.Lvls() && e.typ == PTE_TABLE
  }

  // ---------------------------------------------------------------------------------------------
  // Trees

  /** The tables in use, each named by its level and the start of what it covers. */
  datatype Tree = Tree(g: Geometry, tables: map<(nat, nat), seq<Pte>>) {

    ghost function Shape(): (r: bool)
      ensures r ==> g.WF()
    {
      && g.WF()
      && (0, 0) in tables
      && (forall k :: k in tables ==> k.0 < g.Lvls() && |tables[k]| == g.nent[k.0])
    }

    /** There is a level-`l` table over `x`. */
    ghost predicate Has(l: nat, x: nat)
      requires g.WF()
    {
      l < g.Lvls() && (l, g.TableKey(l, x)) in tables
    }

    /** The level-`l` entry for `x`. */
    ghost function E(l: nat, x: nat): Pte
      requires Shape() && Has(l, x)
    {
      tables[(l, g.TableKey(l, x))][g.Index(l, x)]
    }

    predicate IsTable(l: nat, e: Pte) {
      PteTable(g, l, e)
    }

    ghost predicate EntryOk(l: nat, e: Pte)
      requires l < g.Lvls()
    {
      && e.typ in {0, 1, 3} && (e.IsValid() && l + 1 == g.Lvls() ==> e.typ == PTE_PAGE)
      && e.addr % PAGE_SIZE == 0 && e.addr < PA_LIMIT
      && (IsTable(l, e) ==> e.rsw != RSW_RSRV)
      && (e.IsValid() && !IsTable(l, e) ==> e.addr + g.sz[l] <= PA_LIMIT)
    }

    /** Tables below the root are exactly those that a table entry one level up refers to. */
    ghost predicate Linked(l: nat, x: nat)
      requires Shape() && 0 < l < g.Lvls()
    {
      Has(l, x) <==> Has(l - 1, x) && IsTable(l - 1, E(l - 1, x))
    }

    ghost function Valid(): (r: bool)
      ensures r ==> Shape()
    {
      && Shape()
      && (forall l: nat, x: nat :: 0 < l < g.Lvls() ==> Linked(l, x))
      && (forall l: nat, x: nat :: Has(l, x) ==> EntryOk(l, E(l, x)))
    }

    ghost function LeafFrom(l: nat, x: nat): (r: nat)
      requires Valid() && Has(l, x)
      ensures l <= r && Has(r, x) && !IsTable(r, E(r, x))
      decreases g.Lvls() - l
    {
      if IsTable(l, E(l, x)) then
        assert Linked(l + 1, x);
        LeafFrom(l + 1, x)
      else
        l
    }

    /** The level at which the walk for `x` ends. */
    ghost function Leaf(x: nat): (r: nat)
      requires Valid()
      ensures Has(r, x) && !IsTable(r, E(r, x))
    {
      assert Has(0, x);
      LeafFrom(0, x)
    }

    ghost function StateOf(l: nat, e: Pte, x: nat): PageState
      requires g.WF() && l < g.Lvls()
    {
      if e.IsValid() then Mapped(e.addr + Rem(x, g.sz[l]))
      else if e.rsw == RSW_RSRV then Reserved
      else Free
    }

    /** The entry at which the walk for `x` ends. */
    ghost function Entry(x: nat): Pte
      requires Valid()
    {
      E(Leaf(x), x)
    }

    /** The meaning of the tree at `x`. */
    ghost function State(x: nat): PageState
      requires Valid()
    {
      StateOf(Leaf(x), Entry(x), x)
    }

    ghost predicate SameBlock(l: nat, x: nat, y: nat)
      requires g.WF() && l < g.Lvls()
    {
      g.Block(l, x) == g.Block(l, y)
    }

    ghost function Put(l: nat, x: nat, v: Pte): Tree
      requires Shape() && Has(l, x)
    {
      var k := (l, g.TableKey(l, x));
      Tree(g, tables[k := tables[k][g.Index(l, x) := v]])
    }

    /** Turn a non-table entry into a table whose entries are invalid and keep the software bits. */
    ghost function Split(l: nat, x: nat, base: nat, attrs: nat): Tree
      requires Shape() && Has(l, x) && l + 1 < g.Lvls()
    {
      var blank := Blank(E(l, x));
      var t := Put(l, x, PteSet(base, PTE_TABLE, attrs));
      Tree(g, t.tables[(l + 1, g.Block(l, x)) := seq(g.nent[l + 1], _ => blank)])
    }
  }

  // ---------------------------------------------------------------------------------------------
  // Facts about trees

  lemma TableAbove(t: Tree, k: nat, l: nat, x: nat)
    requires t.Valid() && k < l && t.Has(l, x)
    ensures t.Has(k, x) && t.IsTable(k, t.E(k, x))
    decreases l - k
  {
    assert t.Linked(l, x);
    if k + 1 < l {
      TableAbove(t, k, l - 1, x);
    }
  }

  lemma {:induction false} LeafFromUnique(t: Tree, k: nat, l: nat, x: nat)
    requires t.Valid() && k <= l && t.Has(k, x) && t.Has(l, x) && !t.IsTable(l, t.E(l, x))
    ensures t.LeafFrom(k, x) == l
    decreases l - k
  {
    if k < l {
      TableAbove(t, k, l, x);
      assert t.Linked(k + 1, x);
      LeafFromUnique(t, k + 1, l, x);
    }
  }

  lemma LeafUnique(t: Tree, l: nat, x: nat)
    requires t.Valid() && t.Has(l, x) && !t.IsTable(l, t.E(l, x))
    ensures t.Leaf(x) == l
  {
    LeafFromUnique(t, 0, l, x);
  }

  /** A block shares one table and one entry at its own level. */
  lemma SameBlockSameEntry(t: Tree, l: nat, x: nat, y: nat)
    requires t.Shape() && l < t.g.Lvls() && t.SameBlock(l, x, y)
    ensures t.Has(l, x) <==> t.Has(l, y)
    ensures t.Has(l, x) ==> t.E(l, x) == t.E(l, y)
  {
    SameEntry(t.g, l, x, y);
  }

  lemma PutEntry(t: Tree, l: nat, x: nat, v: Pte, m: nat, y: nat)
    requires t.Shape() && t.Has(l, x)
    ensures t.Put(l, x, v).Shape()
    ensures t.Has(m, y) <==> t.Put(l, x, v).Has(m, y)
    ensures t.Has(m, y) ==>
      t.Put(l, x, v).E(m, y) == if m == l && t.SameBlock(l, x, y) then v else t.E(m, y)
  {
    SameEntry(t.g, l, x, y);
  }

  /** Rewriting a non-table entry by a non-table entry changes exactly its block. */
  lemma PutLeaf(t: Tree, l: nat, x: nat, v: Pte)
    requires t.Valid() && t.Has(l, x) && !t.IsTable(l, t.E(l, x))
    requires !t.IsTable(l, v) && t.EntryOk(l, v)
    ensures t.Put(l, x, v).Valid()
  {
    hide Rem, Quot, Down, Geometry.WF, Geometry.Block, Geometry.Index;
    var t' := t.Put(l, x, v);
    PutEntry(t, l, x, v, 0, 0);
    forall m: nat, y: nat | 0 < m < t.g.Lvls()
      ensures t'.Linked(m, y)
    {
      assert t.Linked(m, y);
      PutEntry(t, l, x, v, m, y);
      PutEntry(t, l, x, v, m - 1, y);
      if t.Has(m - 1, y) && m - 1 == l && t.SameBlock(l, x, y) {
        SameBlockSameEntry(t, l, x, y);
      }
    }
    forall m: nat, y: nat | t'.Has(m, y)
      ensures t'.EntryOk(m, t'.E(m, y))
    {
      PutEntry(t, l, x, v, m, y);
    }
  }

  lemma PutLeafState(t: Tree, l: nat, x: nat, v: Pte, y: nat)
    requires t.Valid() && t.Has(l, x) && !t.IsTable(l, t.E(l, x))
    requires !t.IsTable(l, v) && t.EntryOk(l, v)
    ensures t.Put(l, x, v).Valid()
    ensures t.Put(l, x, v).Leaf(y) == t.Leaf(y)
    ensures t.SameBlock(l, x, y) ==> t.Leaf(y) == l
    ensures t.Put(l, x, v).State(y) == if t.SameBlock(l, x, y) then t.StateOf(l, v, y) else t.State(y)
    ensures t.Put(l, x, v).Entry(y) == if t.SameBlock(l, x, y) then v else t.Entry(y)
  {
    hide Rem, Quot, Down, Geometry.WF, Geometry.Block, Geometry.Index;
    PutLeaf(t, l, x, v);
    var t' := t.Put(l, x, v);
    if t.SameBlock(l, x, y) {
      SameBlockSameEntry(t, l, x, y);
      LeafUnique(t, l, y);
      PutEntry(t, l, x, v, l, y);
      LeafUnique(t', l, y);
    } else {
      PutEntry(t, l, x, v, t.Leaf(y), y);
      LeafUnique(t', t.Leaf(y), y);
    }
  }

  lemma SplitEntry(t: Tree, l: nat, x: nat, base: nat, attrs: nat, m: nat, y: nat)
    requires t.Valid() && t.Has(l, x) && l + 1 < t.g.Lvls() && !t.IsTable(l, t.E(l, x))
    ensures t.Split(l, x, base, attrs).Shape()
    ensures t.Split(l, x, base, attrs).Has(m, y)
       <==> t.Has(m, y) || (m == l + 1 && t.SameBlock(l, x, y))
    ensures m == l + 1 && t.SameBlock(l, x, y) ==>
      !t.Has(m, y) && t.Split(l, x, base, attrs).E(m, y) == Blank(t.E(l, x))
    ensures t.Has(m, y) ==>
      t.Split(l, x, base, attrs).E(m, y) ==
        if m == l && t.SameBlock(l, x, y) then PteSet(base, PTE_TABLE, attrs) else t.E(m, y)
  {
    hide Rem, Quot, Down, Geometry.WF, Geometry.Block, Geometry.Index;
    PutEntry(t, l, x, PteSet(base, PTE_TABLE, attrs), m, y);
    if m == l + 1 && t.SameBlock(l, x, y) {
      SameBlockSameEntry(t, l, x, y);
      assert t.Linked(m, y);
    }
  }

  lemma SplitValid(t: Tree, l: nat, x: nat, base: nat, attrs: nat)
    requires t.Valid() && t.Has(l, x) && l + 1 < t.g.Lvls() && !t.IsTable(l, t.E(l, x))
    ensures t.Split(l, x, base, attrs).Valid()
  {
    hide Rem, Quot, Down, Geometry.WF, Geometry.Block, Geometry.Index;
    var t' := t.Split(l, x, base, attrs);
    SplitEntry(t, l, x, base, attrs, 0, 0);
    forall m: nat, y: nat | 0 < m < t.g.Lvls()
      ensures t'.Linked(m, y)
    {
      assert t.Linked(m, y);
      SplitEntry(t, l, x, base, attrs, m, y);
      SplitEntry(t, l, x, base, attrs, m - 1, y);
      if t.SameBlock(l, x, y) {
        SameBlockSameEntry(t, l, x, y);
      }
    }
    forall m: nat, y: nat | t'.Has(m, y)
      ensures t'.EntryOk(m, t'.E(m, y))
    {
      SplitEntry(t, l, x, base, attrs, m, y);
    }
  }

  lemma SplitState(t: Tree, l: nat, x: nat, base: nat, attrs: nat, y: nat)
    requires t.Valid() && t.Has(l, x) && l + 1 < t.g.Lvls() && !t.IsTable(l, t.E(l, x))
    ensures t.Split(l, x, base, attrs).Valid()
    ensures t.SameBlock(l, x, y) ==>
      && t.Leaf(y) == l && t.Split(l, x, base, attrs).Leaf(y) == l + 1
      && t.Split(l, x, base, attrs).State(y) == if t.E(l, x).rsw == RSW_RSRV then Reserved else Free
    ensures t.SameBlock(l, x, y) ==>
      && t.Split(l, x, base, attrs).Entry(y) == Blank(t.E(l, x))
      && t.Entry(y) == t.E(l, x)
    ensures !t.SameBlock(l, x, y) ==>
      && t.Split(l, x, base, attrs).Entry(y) == t.Entry(y)
      && t.Split(l, x, base, attrs).Leaf(y) == t.Leaf(y)
      && t.Split(l, x, base, attrs).State(y) == t.State(y)
  {
    hide Rem, Quot, Down, Geometry.WF, Geometry.Block, Geometry.Index;
    SplitValid(t, l, x, base, attrs);
    var t' := t.Split(l, x, base, attrs);
    if t.SameBlock(l, x, y) {
      SameBlockSameEntry(t, l, x, y);
      LeafUnique(t, l, y);
      SplitEntry(t, l, x, base, attrs, l + 1, y);
      LeafUnique(t', l + 1, y);
    } else {
      SplitEntry(t, l, x, base, attrs, t.Leaf(y), y);
      LeafUnique(t', t.Leaf(y), y);
    }
  }

  /** Rewriting an entry makes no table, splitting one makes the table below it. */
  lemma TablesAfter(t: Tree, l: nat, x: nat, v: Pte, base: nat, attrs: nat)
    requires t.Valid() && t.Has(l, x)
    ensures t.Put(l, x, v).tables.Keys == t.tables.Keys
    ensures l + 1 < t.g.Lvls() && !t.IsTable(l, t.E(l, x)) ==>
      && (l + 1, t.g.TableKey(l + 1, x)) !in t.tables
      && t.Split(l, x, base, attrs).tables.Keys == t.tables.Keys + {(l + 1, t.g.TableKey(l + 1, x))}
  {
    if l + 1 < t.g.Lvls() {
      assert t.Linked(l + 1, x);
    }
  }

  lemma HasIffLeaf(t: Tree, l: nat, x: nat)
    requires t.Valid()
    ensures t.Has(l, x) <==> l <= t.Leaf(x)
  {
    var m := t.Leaf(x);
    if l < m {
      TableAbove(t, l, m, x);
    } else if m < l && t.Has(l, x) {
      TableAbove(t, m, l, x);
    }
  }

  /** The `j`-th entry of the table below the level-`l` block of `x`. */
  function Child(g: Geometry, l: nat, x: nat, j: nat): (a: nat)
    requires g.WF() && l + 1 < g.Lvls()
  {
    g.Block(l, x) + j * g.sz[l + 1]
  }

  lemma ChildFits(g: Geometry, l: nat, j: nat)
    requires g.WF() && l + 1 < g.Lvls() && j < g.nent[l + 1]
    ensures j * g.sz[l + 1] + g.sz[l + 1] <= g.sz[l]
    ensures Rem(j * g.sz[l + 1], g.sz[l + 1]) == 0
  {
    var u := g.sz[l + 1];
    assert g.Exact(l + 1);
    assert j * u + u == (j + 1) * u;
    MulMonotone(j + 1, g.nent[l + 1], u);
    ProductIsMultiple(u, j);
  }

  /** The address of a child entry is canonical and lies in the parent's block. */
  lemma ChildAddress(g: Geometry, l: nat, x: nat, j: nat)
    requires g.WF() && l + 1 < g.Lvls() && j < g.nent[l + 1]
    ensures g.Canon(Child(g, l, x, j)) == Child(g, l, x, j)
    ensures g.Block(l, Child(g, l, x, j)) == g.Block(l, x)
    ensures g.Block(l + 1, Child(g, l, x, j)) == Child(g, l, x, j)
  {
    var s, u, b := g.sz[l], g.sz[l + 1], g.Block(l, x);
    var d := j * u;
    ChildFits(g, l, j);
    DownIsMultiple(g.Canon(x), s);
    g.SpaceDivides(l);
    MultipleGap(b, g.space, s);
    DownOfBlock(b, d, s);
    g.Divides(l, l + 1);
    RemTransitive(b, s, u);
    RemAddMultiple(b, d, u);
    DownOfBlock(b + d, 0, u);
  }

  lemma ChildIndex(g: Geometry, l: nat, x: nat, j: nat)
    requires g.WF() && l + 1 < g.Lvls() && j < g.nent[l + 1]
    ensures g.Index(l + 1, Child(g, l, x, j)) == j
  {
    var s, u, b := g.sz[l], g.sz[l + 1], g.Block(l, x);
    ChildFits(g, l, j);
    DownIsMultiple(g.Canon(x), s);
    DownOfBlock(b, j * u, s);
    IndexInTable(g, l + 1, b + j * u);
    QuotShift(0, j, u);
  }

  lemma ChildOfIndex(g: Geometry, l: nat, y: nat)
    requires g.WF() && l + 1 < g.Lvls()
    ensures g.Block(l + 1, y) == Child(g, l, y, g.Index(l + 1, y))
    ensures g.Index(l + 1, y) * g.sz[l + 1] + Rem(y, g.sz[l + 1]) == Rem(y, g.sz[l])
  {
    var s, u := g.sz[l], g.sz[l + 1];
    assert g.Span(l + 1) == s;
    IndexInTable(g, l + 1, y);
    BlockInTable(g, l + 1, y);
    QuotTimes(Rem(y, s), u);
    g.Divides(l, l + 1);
    RemNest(y, s, u);
  }

  /** A geometry level's block size is a whole number of pages. */
  lemma BlockIsPages(g: Geometry, l: nat)
    requires g.WF() && l < g.Lvls()
    ensures g.sz[l] % PAGE_SIZE == 0 && PAGE_SIZE <= g.sz[l]
  {
    g.Divides(l, g.Lvls() - 1);
    RemIsModulo(g.sz[l], PAGE_SIZE);
  }
}
