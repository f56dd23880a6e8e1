/** Page tables laid out in memory: which memory represents which tree, and what a walk needs. */
module TableMemory {
  import opened Blocks
  import opened PageTable

  /** Table contents by base address. */
  type Memory = map<nat, seq<Pte>>
  /** Where each table of a tree lies. */
  type Places = map<(nat, nat), nat>

  /** A pointer to an entry: the table's base address and the entry's number in it. */
  datatype Ptr = Ptr(table: nat, idx: nat)

  function Load(mem: Memory, p: Ptr): Pte
    requires p.table in mem && p.idx < |mem[p.table]|
  {
    mem[p.table][p.idx]
  }

  function StoreAt(mem: Memory, p: Ptr, v: Pte): Memory
    requires p.table in mem && p.idx < |mem[p.table]|
  {
    mem[p.table := mem[p.table][p.idx := v]]
  }

  /** Every table of the tree lies at an address of its own. */
  ghost predicate Placed(t: Tree, at: Places, mem: Memory, root: nat) {
    && at.Keys == t.tables.Keys && (0, 0) in at && at[(0, 0)] == root
    && (forall k :: k in at ==> at[k] in mem && mem[at[k]] == t.tables[k])
    && (forall j, k :: j in at && k in at && j != k ==> at[j] != at[k])
  }

  /** A table entry holds the address of the table below it. */
  ghost predicate Refers(t: Tree, at: Places, l: nat, x: nat)
    requires t.Shape() && at.Keys == t.tables.Keys && l + 1 < t.g.Lvls()
  {
    t.Has(l, x) && t.IsTable(l, t.E(l, x)) ==>
      t.Has(l + 1, x) && t.E(l, x).addr == at[(l + 1, t.g.Block(l, x))]
  }

  /** The memory represents the tree. */
  ghost function Wired(t: Tree, at: Places, mem: Memory, root: nat): (r: bool)
    ensures r ==> t.Valid() && at.Keys == t.tables.Keys
  {
    && t.Valid() && Placed(t, at, mem, root)
    && (forall l: nat, x: nat :: l + 1 < t.g.Lvls() ==> Refers(t, at, l, x))
  }

  /** The pointer to the level-`l` entry for `x`. */
  ghost function PtrOf(g: Geometry, at: Places, l: nat, x: nat): Ptr
    requires g.WF() && l < g.Lvls() && (l, g.TableKey(l, x)) in at
  {
    Ptr(at[(l, g.TableKey(l, x))], g.Index(l, x))
  }

  ghost predicate Stands(g: Geometry, at: Places, mem: Memory, l: nat, x: nat)
    requires g.WF()
  {
    && l < g.Lvls() && (l, g.TableKey(l, x)) in at
    && at[(l, g.TableKey(l, x))] in mem
    && |mem[at[(l, g.TableKey(l, x))]]| == g.nent[l]
  }

  ghost predicate Descends(g: Geometry, at: Places, mem: Memory, l: nat, x: nat)
    requires g.WF()
  {
    && Stands(g, at, mem, l, x) && Stands(g, at, mem, l + 1, x)
    && Load(mem, PtrOf(g, at, l, x)).addr == at[(l + 1, g.Block(l, x))]
  }

  /** A walk for `x` down to level `l` only goes through tables. */
  ghost predicate Walkable(g: Geometry, at: Places, mem: Memory, root: nat, l: nat, x: nat) {
    && g.WF() && (0, 0) in at && at[(0, 0)] == root
    && (forall i: nat :: i <= l ==> Stands(g, at, mem, i, x))
    && (forall i: nat :: i < l ==> Descends(g, at, mem, i, x))
  }

  lemma WiredWalk(t: Tree, at: Places, mem: Memory, root: nat, l: nat, x: nat)
    requires Wired(t, at, mem, root) && t.Has(l, x)
    ensures Walkable(t.g, at, mem, root, l, x)
    ensures var p := PtrOf(t.g, at, l, x); p.table in mem && p.idx < |mem[p.table]|
    ensures Load(mem, PtrOf(t.g, at, l, x)) == t.E(l, x)
  {
    forall i: nat | i <= l
      ensures Stands(t.g, at, mem, i, x)
    {
      if i < l {
        TableAbove(t, i, l, x);
      }
    }
    forall i: nat | i < l
      ensures Descends(t.g, at, mem, i, x)
    {
      TableAbove(t, i, l, x);
      assert Refers(t, at, i, x);
      assert Stands(t.g, at, mem, i, x) && Stands(t.g, at, mem, i + 1, x);
    }
  }

  /** Storing a non-table entry over a non-table entry keeps memory and tree in step. */
  lemma PutWired(t: Tree, at: Places, mem: Memory, root: nat, l: nat, x: nat, v: Pte)
    requires Wired(t, at, mem, root) && t.Has(l, x)
    requires !t.IsTable(l, t.E(l, x)) && !t.IsTable(l, v) && t.EntryOk(l, v)
    ensures Wired(t.Put(l, x, v), at, StoreAt(mem, PtrOf(t.g, at, l, x), v), root)
  {
    hide Rem, Quot, Down, Geometry.WF, Geometry.Block, Geometry.Index;
    PutLeaf(t, l, x, v);
    var t' := t.Put(l, x, v);
    forall m: nat, y: nat | m + 1 < t.g.Lvls()
      ensures Refers(t', at, m, y)
    {
      assert Refers(t, at, m, y);
      PutEntry(t, l, x, v, m, y);
      PutEntry(t, l, x, v, m + 1, y);
    }
  }

  /** Once the parent entry refers to a fresh page, the walk reaches that page. */
  lemma LinkedWalk(t: Tree, at: Places, mem: Memory, root: nat, l: nat, x: nat, base: nat,
                   page: seq<Pte>, attrs: nat)
    requires Wired(t, at, mem, root) && t.Has(l, x) && l + 1 < t.g.Lvls()
    requires !t.IsTable(l, t.E(l, x))
    requires base !in mem && base < PA_LIMIT && base % PAGE_SIZE == 0 && |page| == t.g.nent[l + 1]
    ensures var mem' := StoreAt(mem[base := page], PtrOf(t.g, at, l, x), PteSet(base, PTE_TABLE, attrs));
      Walkable(t.g, at[(l + 1, t.g.Block(l, x)) := base], mem', root, l + 1, x)
  {
    hide Rem, Quot, Down, Geometry.WF, Geometry.Block, Geometry.Index;
    var g, p := t.g, PtrOf(t.g, at, l, x);
    var at' := at[(l + 1, g.Block(l, x)) := base];
    var mem' := StoreAt(mem[base := page], p, PteSet(base, PTE_TABLE, attrs));
    WiredWalk(t, at, mem, root, l, x);
    SplitEntry(t, l, x, base, attrs, l + 1, x);
    forall i: nat | i <= l + 1
      ensures Stands(g, at', mem', i, x)
    {
      if i <= l {
        assert Stands(g, at, mem, i, x);
      }
    }
    forall i: nat | i < l + 1
      ensures Descends(g, at', mem', i, x)
    {
      assert Stands(g, at', mem', i, x) && Stands(g, at', mem', i + 1, x);
      if i < l {
        assert Descends(g, at, mem, i, x);
        assert (i, g.TableKey(i, x)) != (l, g.TableKey(l, x));
      }
    }
  }

  /** However the page has been filled. */
  lemma SplitPlaces(t: Tree, at: Places, mem: Memory, root: nat, l: nat, x: nat, base: nat, attrs: nat, page: seq<Pte>)
    requires Wired(t, at, mem, root) && t.Has(l, x) && l + 1 < t.g.Lvls()
    requires !t.IsTable(l, t.E(l, x))
    requires base !in mem && base < PA_LIMIT && base % PAGE_SIZE == 0
    requires |page| == t.g.nent[l + 1] && forall i :: 0 <= i < |page| ==> page[i] == Blank(t.E(l, x))
    ensures PtrOf(t.g, at, l, x).table in mem && PtrOf(t.g, at, l, x).idx < |mem[PtrOf(t.g, at, l, x).table]|
    ensures t.Split(l, x, base, attrs).g == t.g
    ensures Wired(t.Split(l, x, base, attrs), at[(l + 1, t.g.Block(l, x)) := base],
                  StoreAt(mem, PtrOf(t.g, at, l, x), PteSet(base, PTE_TABLE, attrs))[base := page], root)
  {
    hide Rem, Quot, Down, Geometry.WF, Geometry.Block, Geometry.Index, Wired;
    SplitWired(t, at, mem, root, l, x, base, attrs);
    WiredWalk(t, at, mem, root, l, x);
    assert page == seq(t.g.nent[l + 1], _ => Blank(t.E(l, x)));
  }

  /** Linking a page and filling it splits the entry. */
  lemma SplitWired(t: Tree, at: Places, mem: Memory, root: nat, l: nat, x: nat, base: nat, attrs: nat)
    requires Wired(t, at, mem, root) && t.Has(l, x) && l + 1 < t.g.Lvls()
    requires !t.IsTable(l, t.E(l, x))
    requires base !in mem && base < PA_LIMIT && base % PAGE_SIZE == 0
    ensures var page := seq(t.g.nent[l + 1], _ => Blank(t.E(l, x)));
      Wired(t.Split(l, x, base, attrs), at[(l + 1, t.g.Block(l, x)) := base],
            StoreAt(mem, PtrOf(t.g, at, l, x), PteSet(base, PTE_TABLE, attrs))[base := page], root)
  {
    hide Rem, Quot, Down, Geometry.WF, Geometry.Block, Geometry.Index, Placed, StoreAt, Tree.Split;
    SplitValid(t, l, x, base, attrs);
    SplitPlaced(t, at, mem, root, l, x, base, attrs);
    var at' := at[(l + 1, t.g.Block(l, x)) := base];
    var t' := t.Split(l, x, base, attrs);
    forall m: nat, y: nat | m + 1 < t.g.Lvls()
      ensures Refers(t', at', m, y)
    {
      assert Refers(t, at, m, y);
      SplitEntry(t, l, x, base, attrs, m, y);
      SplitEntry(t, l, x, base, attrs, m + 1, y);
    }
  }

  lemma SplitPlaced(t: Tree, at: Places, mem: Memory, root: nat, l: nat, x: nat, base: nat, attrs: nat)
    requires Wired(t, at, mem, root) && t.Has(l, x) && l + 1 < t.g.Lvls()
    requires !t.IsTable(l, t.E(l, x))
    requires base !in mem
    ensures t.Split(l, x, base, attrs).g == t.g
    ensures t.Split(l, x, base, attrs).tables.Keys == at[(l + 1, t.g.Block(l, x)) := base].Keys
    ensures var page := seq(t.g.nent[l + 1], _ => Blank(t.E(l, x)));
      Placed(t.Split(l, x, base, attrs), at[(l + 1, t.g.Block(l, x)) := base],
             StoreAt(mem, PtrOf(t.g, at, l, x), PteSet(base, PTE_TABLE, attrs))[base := page], root)
  {
    hide Rem, Quot, Down, Geometry.WF, Geometry.Block, Geometry.Index, Refers;
    assert t.Linked(l + 1, x);
  }
}
