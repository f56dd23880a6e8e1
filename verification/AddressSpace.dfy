/** An address space: page tables in memory, walked through pointers and rewritten in place. */
module AddressSpaces {
  import opened Blocks
  import opened PageTable
  import opened TableMemory
  import opened Descriptors
  import opened Expansion
  import opened Ranges
  import opened Mapping
  import opened Scanning
  import opened Reservation
  import opened Seams
  import opened Unmapping
  import opened Accounts

  /** How a walk over a range ends: it finishes, it takes an entry that is no table for one, or no page is left. */
  datatype WalkResult = Finished | WentAstray | NoPagesLeft

  const HYP_FLAGS: nat := 1860
  const VM_FLAGS: nat := 1276

  class AddressSpace {
    const g: Geometry
    const root: nat
    const isHyp: bool
    /** The memory that holds tables. */
    var mem: Memory
    /** What the page allocator hands out for tables, in order. */
    var pool: seq<nat>
    /** The tree that memory represents, and where each of its tables lies. */
    ghost var t: Tree
    ghost var at: Places

    ghost function Valid(): (r: bool)
      reads this
      ensures r ==> t.g == g && Wired(t, at, mem, root)
    {
      && t.g == g && Wired(t, at, mem, root)
      && (forall i :: 0 <= i < |pool| ==>
        pool[i] !in mem && pool[i] < PA_LIMIT && pool[i] % PAGE_SIZE == 0)
      && (forall i, j :: 0 <= i < j < |pool| ==> pool[i] != pool[j])
    }

    /** The attributes that expansion gives to the entries of a new table. */
    function DefaultFlags(): nat {
      if isHyp then HYP_FLAGS else VM_FLAGS
    }

    /** `as_init` with a root table of zeros. */
    constructor (g: Geometry, root: nat, isHyp: bool, pool: seq<nat>)
      requires g.WF()
      requires forall i :: 0 <= i < |pool| ==> pool[i] != root && pool[i] < PA_LIMIT && pool[i] % PAGE_SIZE == 0
      requires forall i, j :: 0 <= i < j < |pool| ==> pool[i] != pool[j]
      ensures Valid() && this.g == g && this.pool == pool && t == EmptyTree(g)
      ensures PageLeaves(t) && forall x: nat :: t.State(x) == Free
    {
      hide Rem, Quot, Down, Tree.Leaf, Tree.State, Geometry.Block, Geometry.Index;
      this.g, this.root, this.isHyp, this.pool := g, root, isHyp, pool;
      t := EmptyTree(g);
      at := map[(0, 0) := root];
      mem := map[root := seq(g.nent[0], i => Pte(0, 0, 0, 0))];
      forall x: nat ensures EmptyTree(g).Valid() && EmptyTree(g).State(x) == Free {
        EmptyTreeIsFree(g, x);
      }
      forall l: nat, x: nat | l + 1 < g.Lvls() ensures Refers(EmptyTree(g), map[(0, 0) := root], l, x) {
        EmptyTreeHasNoTables(g, l, x);
      }
    }

    /** `pt_get_pte` */
    method GetPte(lvl: nat, va: nat) returns (p: Ptr)
      requires Walkable(g, at, mem, root, lvl, va)
      ensures Stands(g, at, mem, lvl, va) && p == PtrOf(g, at, lvl, va)
    {
      var i := 0;
      p := Ptr(root, 0);
      while true
        invariant i <= lvl && Stands(g, at, mem, i, va)
        invariant p == Ptr(at[(i, g.TableKey(i, va))], 0)
        decreases lvl - i
      {
        p := Ptr(p.table, p.idx + g.Index(i, va));
        i := i + 1;
        if lvl < i {
          break;
        }
        assert Descends(g, at, mem, i - 1, va);
        p := Ptr(Load(mem, p).addr, 0);
      }
    }

    /** Rewrite a non-table entry by a non-table entry. */
    method Store(p: Ptr, v: Pte, ghost l: nat, ghost x: nat)
      requires Valid() && t.Has(l, x) && p == PtrOf(g, at, l, x)
      requires !t.IsTable(l, t.E(l, x)) && !t.IsTable(l, v) && t.EntryOk(l, v)
      modifies this`mem, this`t
      ensures Valid() && t == old(t).Put(l, x, v) && t.tables.Keys == old(t).tables.Keys
    {
      hide Rem, Quot, Down, Geometry.WF, Geometry.Block, Geometry.Index;
      TablesAfter(t, l, x, v, 0, 0);
      PutWired(t, at, mem, root, l, x, v);
      mem := StoreAt(mem, p, v);
      t := t.Put(l, x, v);
    }

    /** What a page holds when the allocator hands it out. */
    method PageContents(n: nat) returns (c: seq<Pte>)
      ensures |c| == n
    {
      c := seq(n, _ => Pte(0, 0, 0, 0));
    }

    /** Fill a table with one value. */
    method FillTable(base: nat, n: nat, v: Pte)
      requires base in mem && |mem[base]| == n
      modifies this`mem
      ensures mem == old(mem)[base := seq(n, _ => v)]
    {
      var i := 0;
      while i < n
        invariant i <= n
        invariant base in mem && |mem[base]| == n
        invariant mem == old(mem)[base := mem[base]]
        invariant forall j :: 0 <= j < i ==> mem[base][j] == v
      {
        mem := mem[base := mem[base][i := v]];
        i := i + 1;
      }
      assert mem[base] == seq(n, _ => v);
    }

    /** Point an entry at the next free page, whose contents are still those of its last use. */
    method LinkPage(parent: Ptr, lvl: nat, addr: nat) returns (base: nat)
      requires Valid() && lvl + 1 < g.Lvls() && t.Has(lvl, addr) && parent == PtrOf(g, at, lvl, addr)
      requires !t.IsTable(lvl, t.E(lvl, addr)) && 0 < |pool|
      modifies this`mem, this`pool, this`at
      ensures base == old(pool)[0] && pool == old(pool)[1..]
      ensures at == old(at)[(lvl + 1, g.Block(lvl, addr)) := base]
      ensures parent.table in old(mem) && parent.idx < |old(mem)[parent.table]| && parent.table != base
      ensures base in mem && |mem[base]| == g.nent[lvl + 1]
      ensures mem == StoreAt(old(mem), parent, PteSet(base, PTE_TABLE, HYP_FLAGS))[base := mem[base]]
      ensures Walkable(g, at, mem, root, lvl + 1, addr)
    {
      hide Rem, Quot, Down, Geometry.WF, Geometry.Block, Geometry.Index;
      base := pool[0];
      WiredWalk(t, at, mem, root, lvl, addr);
      var page := PageContents(g.nent[lvl + 1]);
      LinkedWalk(t, at, mem, root, lvl, addr, base, page, HYP_FLAGS);
      mem := StoreAt(mem[base := page], parent, PteSet(base, PTE_TABLE, HYP_FLAGS));
      pool := pool[1..];
      at := at[(lvl + 1, g.Block(lvl, addr)) := base];
    }

    /** `mem_alloc_pt`: hang a new table below an entry; its entries keep the entry's software bits.
        False when the allocator has no page left. */
    method AllocPt(parent: Ptr, lvl: nat, addr: nat) returns (ok: bool, pt: Ptr)
      requires Valid() && lvl + 1 < g.Lvls() && t.Has(lvl, addr) && parent == PtrOf(g, at, lvl, addr)
      requires !t.IsTable(lvl, t.E(lvl, addr))
      modifies this
      ensures Valid() && (ok <==> 0 < |old(pool)|)
      ensures !ok ==> unchanged(this)
      ensures Grown(old(t), old(pool), t, pool, {addr})
      ensures ok ==>
        && pool == old(pool)[1..]
        && t == old(t).Split(lvl, addr, old(pool)[0], HYP_FLAGS)
        && at == old(at)[(lvl + 1, g.Block(lvl, addr)) := old(pool)[0]]
        && pt == Ptr(old(pool)[0], 0)
    {
      hide Rem, Quot, Down, Geometry.WF, Geometry.Block, Geometry.Index, Grown, Wired, Walkable, Tree.Split;
      ok, pt := |pool| != 0, Ptr(0, 0);
      if ok {
        WiredWalk(t, at, mem, root, lvl, addr);
        SplitGrown(t, lvl, addr, pool[0], HYP_FLAGS, pool);
        var dflt := Pte(0, Load(mem, parent).rsw, 0, 0);
        assert dflt == Blank(t.E(lvl, addr));
        ghost var t0, was, page := t, mem, seq(g.nent[lvl + 1], _ => dflt);
        SplitPlaces(t, at, mem, root, lvl, addr, pool[0], HYP_FLAGS, page);
        var base := LinkPage(parent, lvl, addr);
        var p := GetPte(lvl + 1, addr);
        pt := Ptr(p.table, 0);
        FillTable(pt.table, g.nent[lvl + 1], dflt);
        assert mem[base] == page && mem == StoreAt(was, parent, PteSet(base, PTE_TABLE, HYP_FLAGS))[base := page];
        t := t.Split(lvl, addr, base, HYP_FLAGS);
      } else {
        NotGrown(t, pool, {addr});
      }
    }

    /** One turn of the copying loop: entry `n` of the new table takes over its part of the block. */
    method CopyEntry(p: Ptr, paddr: nat, n: nat, lvl: nat, va: nat, val: Pte, ghost t0: Tree)
      requires Valid() && t0.Valid() && t0.g == g && lvl + 1 < g.Lvls() && n < g.nent[lvl + 1]
      requires t0.Has(lvl, va) && !t0.IsTable(lvl, t0.E(lvl, va)) && val == t0.E(lvl, va)
      requires val.IsValid() || val.rsw == RSW_RSRV
      requires Copying(t0, t, lvl, va, n, DefaultFlags()) && paddr == val.addr + n * g.sz[lvl + 1]
      requires (lvl + 1, g.Block(lvl, va)) in at && p == Ptr(at[(lvl + 1, g.Block(lvl, va))], n)
      modifies this`mem, this`t
      ensures Valid() && Copying(t0, t, lvl, va, n + 1, DefaultFlags()) && t.tables.Keys == old(t).tables.Keys
    {
      hide AddressSpace.Valid, Rem, Quot, Down, Wired, Copying, PteSet, Tree.Valid, Tree.State, Tree.Leaf, Tree.Entry,
        Tree.StateOf, Geometry.WF, Geometry.Block, Geometry.Index, Child, Stands, Descends;
      var flags := if isHyp then HYP_FLAGS else VM_FLAGS;
      ghost var a := Child(g, lvl, va, n);
      ChildAddress(g, lvl, va, n);
      ChildIndex(g, lvl, va, n);
      ChildLeaf(t0, t, lvl, va, n, flags);
      WiredWalk(t, at, mem, root, lvl + 1, a);
      var cur := Load(mem, p);
      var v := if val.IsValid() then PteSet(paddr, LeafType(g, lvl + 1), flags) else PteSetRsw(cur, RSW_RSRV);
      CopyStep(t0, t, lvl, va, n, flags);
      Store(p, v, lvl + 1, a);
    }

    /** Copy a block entry's mapping or reservation into the table that replaces it. */
    method CopyBlock(pt: Ptr, lvl: nat, va: nat, val: Pte, ghost t0: Tree)
      requires Valid() && t0.Valid() && t0.g == g && lvl + 1 < g.Lvls()
      requires t0.Has(lvl, va) && !t0.IsTable(lvl, t0.E(lvl, va)) && val == t0.E(lvl, va)
      requires val.IsValid() || val.rsw == RSW_RSRV
      requires Copying(t0, t, lvl, va, 0, DefaultFlags())
      requires (lvl + 1, g.Block(lvl, va)) in at && pt == Ptr(at[(lvl + 1, g.Block(lvl, va))], 0)
      modifies this`mem, this`t
      ensures Valid() && Expanded(t0, t, lvl, va) && t.tables.Keys == old(t).tables.Keys
      ensures AttrsKept(t0, t, if isHyp then HYP_FLAGS else VM_FLAGS)
    {
      hide AddressSpace.Valid, Rem, Quot, Down, Wired, Copying, Tree.Valid, Tree.State, Tree.Leaf, Tree.StateOf,
        Geometry.WF, Geometry.Block, Geometry.Index, AttrsKept;
      var paddr, entry, p := val.addr, pt.idx, pt;
      while entry < g.nent[lvl + 1]
        invariant entry <= g.nent[lvl + 1]
        invariant paddr == val.addr + entry * g.sz[lvl + 1]
        invariant p == Ptr(pt.table, entry)
        invariant Valid() && Copying(t0, t, lvl, va, entry, DefaultFlags()) && t.tables.Keys == old(t).tables.Keys
      {
        CopyEntry(p, paddr, entry, lvl, va, val, t0);
        p, entry, paddr := Ptr(p.table, p.idx + 1), entry + 1, paddr + g.sz[lvl + 1];
      }
      EndCopying(t0, t, lvl, va, entry, DefaultFlags());
    }

    /** `mem_expand_pte`: make the level-`lvl` entry for `va` a table. False when the allocator has no
        page left, where the source stops. */
    method ExpandPte(va: nat, lvl: nat) returns (ok: bool)
      requires Valid() && t.Has(lvl, va)
      modifies this
      ensures Valid() && Grown(old(t), old(pool), t, pool, {va}) && AttrsKept(old(t), t, DefaultFlags())
      ensures !ok ==> unchanged(this) && pool == [] && t.Leaf(va) == lvl && lvl + 1 < g.Lvls()
      ensures ok ==> Expanded(old(t), t, lvl, va)
    {
      hide AddressSpace.Valid, Rem, Quot, Down, Wired, Copying, Tree.Valid, Tree.State, Geometry.WF,
        Geometry.Block, Geometry.Index, AttrsKept, Grown;
      ok := true;
      NotGrown(t, pool, {va});
      AttrsKeptSelf(t, DefaultFlags());
      if g.Lvls() - 1 <= lvl {
        NothingToExpand(t, lvl, va);
        return;
      }
      WiredWalk(t, at, mem, root, lvl, va);
      var pte := GetPte(lvl, va);
      var val := Load(mem, pte);
      if !PteTable(g, lvl, val) {
        StartCopying(t, lvl, va, if |pool| == 0 then 0 else pool[0], HYP_FLAGS, DefaultFlags());
        LeafUnique(t, lvl, va);
        ghost var t0 := t;
        var pt;
        ok, pt := AllocPt(pte, lvl, va);
        if ok {
          ghost var t1 := t;
          if val.IsValid() || val.rsw == RSW_RSRV {
            CopyBlock(pt, lvl, va, val, t0);
          } else {
            EndCopying(t0, t, lvl, va, 0, DefaultFlags());
          }
          SameTables(t1, t, pool, {va});
          GrownTwice(t0, old(pool), t1, pool, t, pool, {va}, {va}, {va});
        }
      } else {
        NothingToExpand(t, lvl, va);
      }
    }

    /** `pt_get_pte` without knowing that it ends well: `ok` is false if some entry on the way is not a table, so
        that the source would take a page of mapped memory, or nothing, for a table. */
    method TryGetPte(lvl: nat, va: nat) returns (ok: bool, p: Ptr)
      requires Valid()
      ensures ok <==> t.Has(lvl, va)
      ensures ok ==> p == PtrOf(g, at, lvl, va)
    {
      hide AddressSpace.Valid, Rem, Quot, Down, Wired, Tree.Valid, Tree.State, Tree.Leaf, Geometry.WF,
        Geometry.Block, Geometry.Index, Walkable;
      var i := 0;
      ok, p := true, Ptr(0, 0);
      HasIffLeaf(t, 0, va);
      while i < lvl
        invariant i <= lvl && t.Has(i, va)
      {
        WiredWalk(t, at, mem, root, i, va);
        EntryIsLeaf(t, i, va);
        HasIffLeaf(t, i + 1, va);
        HasIffLeaf(t, lvl, va);
        p := GetPte(i, va);
        if !PteTable(g, i, Load(mem, p)) {
          return false, p;
        }
        i := i + 1;
      }
      WiredWalk(t, at, mem, root, lvl, va);
      p := GetPte(lvl, va);
    }

    /**
     * `mem_inflate_pt`: make every entry over the range a table, down to pages. The steps from an
     * unaligned address can miss the last block, and then a later walk finds no table there.
     */
    method InflatePt(va: nat, len: nat) returns (r: WalkResult)
      requires Valid()
      modifies this
      ensures Valid() && Kept(old(t), t) && AttrsKept(old(t), t, DefaultFlags())
      ensures Grown(old(t), old(pool), t, pool, Pages(va, PageCount(len)))
      ensures r.NoPagesLeft? ==> pool == [] && Lacking(t, Pages(va, PageCount(len)))
      ensures r.Finished? ==> InflatedOrMissed(old(t), t, va, len)
      ensures r.WentAstray? ==> 0 < len && !StepsReachEnd(old(t), va, len)
    {
      hide AddressSpace.Valid, Rem, Quot, Down, Wired, Tree.Valid, Tree.State, Tree.Leaf, Geometry.WF,
        StepsReachEnd, Expanded, InflatedOrMissed, Progress, Progressing, AttrsKept, Grown, PageCount, Kept, Lacking;
      ghost var t0, p0, xs := t, pool, Pages(va, PageCount(len));
      var lvl := 0;
      NoProgressYet(t, va, len);
      NotGrown(t, pool, xs);
      AttrsKeptSelf(t, DefaultFlags());
      while lvl < g.Lvls() - 1
        invariant lvl <= g.Lvls() - 1
        invariant Valid() && Kept(t0, t) && Progress(t0, t, va, len, lvl)
        invariant Grown(t0, p0, t, pool, xs) && AttrsKept(t0, t, DefaultFlags())
      {
        var vaddr := va;
        ProgressStart(t0, t, va, len, lvl);
        while vaddr < va + len
          invariant Valid() && Kept(t0, t) && Progressing(t0, t, va, len, lvl, vaddr)
          invariant Grown(t0, p0, t, pool, xs) && AttrsKept(t0, t, DefaultFlags())
          invariant va <= vaddr && (vaddr - va) % PAGE_SIZE == 0
        {
          var found, pte := TryGetPte(lvl, vaddr);
          if !found {
            ProgressHas(t0, t, va, len, lvl, vaddr);
            return WentAstray;
          }
          ghost var t1, p1 := t, pool;
          StepInPages(va, len, vaddr);
          var ok := ExpandPte(vaddr, lvl);
          GrownTwice(t0, p0, t1, p1, t, pool, xs, {vaddr}, xs);
          AttrsKeptTwice(t0, t1, t, DefaultFlags());
          if !ok {
            LackingAt(t, vaddr);
            LackingOver(t, {vaddr}, xs);
            return NoPagesLeft;
          }
          ProgressStep(t0, t1, t, va, len, lvl, vaddr);
          ExpandedKept(t0, t1, t, lvl, vaddr);
          BlockIsPages(g, lvl);
          vaddr := vaddr + g.sz[lvl];
        }
        ProgressLevel(t0, t, va, len, lvl, vaddr);
        lvl := lvl + 1;
      }
      ProgressEnd(t0, t, va, len);
      r := Finished;
    }

    /** One turn of the loop of `mem_map`: page `i` of the range. */
    method MapPage(vaddr: nat, ghost start: nat, base: nat, i: nat, flags: nat, ghost t0: Tree) returns (found: bool)
      requires Valid() && start % PAGE_SIZE == 0 && (i + 1) * PAGE_SIZE <= g.space
      requires vaddr == start + i * PAGE_SIZE && MappedUpTo(t0, t, start, base, i * PAGE_SIZE, flags)
      modifies this`mem, this`t
      ensures Valid() && MappedUpTo(t0, t, start, base, (if found then i + 1 else i) * PAGE_SIZE, flags)
      ensures found ==> forall y: nat :: vaddr <= y < vaddr + PAGE_SIZE ==> t.Entry(y).attrs == flags
      ensures forall y: nat :: vaddr <= y < vaddr + PAGE_SIZE ==> (t0.Leaf(y) == g.Lvls() - 1 <==> found)
    {
      hide AddressSpace.Valid, Rem, Quot, Down, Off, Wired, Tree.Valid, Tree.State, Tree.Leaf, Tree.Entry, Geometry.WF,
        PteSet, MapsTo, MappedUpTo;
      var pte;
      found, pte := TryGetPte(g.Lvls() - 1, vaddr);
      MapAt(t0, t, start, base, i, flags);
      forall y: nat | vaddr <= y < vaddr + PAGE_SIZE ensures t0.Leaf(y) == g.Lvls() - 1 <==> found {
        PageIsLeaf(t0, vaddr, y);
      }
      if found {
        MapStep(t0, t, start, base, i, flags);
        Store(pte, PteSet(base + i * PAGE_SIZE, PTE_PAGE, flags), g.Lvls() - 1, vaddr);
        MappedAttrs(t0, t, start, base, i, flags);
      }
    }

    /**
     * The loop of `mem_map`: write the page entries of a range one after the other. It stops where no
     * table reaches down to a page.
     */
    method MapPages(start: nat, base: nat, pages: nat, flags: nat) returns (ok: bool, ghost done: nat)
      requires Valid() && start % PAGE_SIZE == 0 && pages * PAGE_SIZE <= g.space
      modifies this`mem, this`t
      ensures Valid() && done <= pages && (ok <==> done == pages)
      ensures MappedUpTo(old(t), t, start, base, done * PAGE_SIZE, flags)
      ensures forall y: nat :: start <= y < start + done * PAGE_SIZE ==> t.Leaf(y) == g.Lvls() - 1
      ensures !ok ==> t.Leaf(start + done * PAGE_SIZE) < g.Lvls() - 1
    {
      hide AddressSpace.Valid, Rem, Quot, Down, Off, Wired, Tree.Valid, Tree.State, Tree.Leaf, Tree.Entry, Geometry.WF,
        PteSet, MapsTo, EntryAfterMap;
      ghost var t0 := t;
      var i, vaddr := 0, start;
      MapNothing(t, start, base, flags);
      while i < pages
        invariant i <= pages && vaddr == start + i * PAGE_SIZE
        invariant Valid() && MappedUpTo(t0, t, start, base, i * PAGE_SIZE, flags)
        invariant forall y: nat :: start <= y < vaddr ==> t0.Leaf(y) == g.Lvls() - 1
      {
        var found := MapPage(vaddr, start, base, i, flags, t0);
        if !found {
          return false, i;
        }
        vaddr, i := vaddr + PAGE_SIZE, i + 1;
      }
      return true, i;
    }

    /**
     * `mem_map`: map `pages` pages from `base` on at the `nrPages` pages over `va`. With as many
     * physical pages as addresses, it finishes exactly when inflation comes to the last block at
     * every level; else a walk goes astray after `done` pages. When it does come to the last block,
     * the page allocator runs out if and only if it has fewer pages than tables are missing.
     */
    method MemMap(va: nat, base: nat, pages: nat, nrPages: nat, flags: nat)
      returns (r: WalkResult, ghost start: nat, ghost done: nat)
      requires Valid() && pages <= nrPages && pages * PAGE_SIZE <= g.space
      modifies this
      ensures start == va - va % PAGE_SIZE
      ensures Valid() && done <= pages && (r.Finished? ==> done == pages) && (r.NoPagesLeft? ==> done == 0)
      ensures forall y: nat :: t.State(y) == AfterMap(old(t), start, base, done * PAGE_SIZE, y)
      ensures forall y: nat :: old(t).Leaf(y) <= t.Leaf(y)
      ensures PageLeaves(old(t)) ==> PageLeaves(t)
      ensures r.WentAstray? ==> 0 < nrPages && !StepsReachEnd(old(t), start, nrPages * PAGE_SIZE)
      ensures r.Finished? && pages == nrPages && 0 < nrPages ==> StepsReachEnd(old(t), start, nrPages * PAGE_SIZE)
      ensures r.Finished? && 0 < nrPages && StepsReachEnd(old(t), start, nrPages * PAGE_SIZE) ==>
        forall y: nat :: start <= y < start + nrPages * PAGE_SIZE ==> t.Leaf(y) == g.Lvls() - 1
      // attributes
      ensures AttrsAfterMap(old(t), t, start, done * PAGE_SIZE, flags, DefaultFlags())
      // pages taken for tables
      ensures Paid(old(t), old(pool), t, pool) && Grown(old(t), old(pool), t, pool, Pages(start, nrPages))
      ensures r.NoPagesLeft? ==> pool == [] && Spent(old(t), old(pool), t) && Lacking(t, Pages(start, nrPages))
      ensures r.NoPagesLeft? ==> |old(pool)| < |Missing(old(t), Pages(start, nrPages))|
      ensures 0 < nrPages && StepsReachEnd(old(t), start, nrPages * PAGE_SIZE) ==>
        (r.NoPagesLeft? <==> |old(pool)| < |Missing(old(t), Pages(start, nrPages))|)
    {
      hide AddressSpace.Valid, Rem, Quot, Down, Off, Wired, Tree.Valid, Tree.State, Tree.Leaf, Tree.Entry, Geometry.WF,
        StepsReachEnd, MapsTo, PageLeaves, Grown, Missing, Lacking, AttrsAfterMap, AttrsKept, Pages, Paid, Spent,
        InflatedOrMissed, Kept, MappedUpTo;
      ghost var t0, p0 := t, pool;
      var first := va - va % PAGE_SIZE;
      start, done := first, 0;
      ghost var xs := Pages(start, nrPages);
      WholePageCount(nrPages);
      r := InflatePt(first, nrPages * PAGE_SIZE);
      ghost var t1, inflated := t, r.Finished?;
      if r.Finished? {
        var ok;
        ok, done := MapPages(first, base, pages, flags);
        if !ok {
          r := WentAstray;
        }
      } else {
        MapNothing(t, start, base, flags);
      }
      MapOutcome(t0, t1, t, start, base, done, flags, DefaultFlags());
      if inflated {
        MapVerdict(t0, t1, t, start, pages, nrPages, done);
      }
      SameTables(t1, t, pool, xs);
      GrownTwice(t0, p0, t1, pool, t, pool, xs, xs, xs);
      AllSpent(t0, p0, t, pool, xs);
      if r.NoPagesLeft? {
        TooFew(t0, p0, t, pool, xs);
      } else if 0 < nrPages && StepsReachEnd(t0, start, nrPages * PAGE_SIZE) {
        NoneLacking(t, start, nrPages);
        ExactlyMissing(t0, p0, t, pool, xs);
      }
    }

    /** `pte_allocable` */
    function PteAllocable(e: Pte, lvl: nat, left: nat, addr: nat): bool
      requires lvl < g.Lvls() && lvl < |g.term| && 0 < g.sz[lvl]
    {
      || lvl == g.Lvls() - 1
      || (g.term[lvl] && !e.IsValid() && g.sz[lvl] <= left * PAGE_SIZE && addr % g.sz[lvl] == 0)
    }

    /** Hang a table below a free entry that cannot be counted whole. */
    method SplitFree(pte: Ptr, want: nat, n: nat, s: Scan, ghost t0: Tree, ghost from: nat) returns (ok: bool)
      requires Valid() && ScanAt(t0, t, want, n, s) && s.count < n && s.lvl < g.Lvls()
      requires t.Has(s.lvl, s.addr) && pte == PtrOf(g, at, s.lvl, s.addr) && Survey(t0, t, want, n, from, s.addr, s.lvl)
      requires !t.E(s.lvl, s.addr).IsValid() && t.E(s.lvl, s.addr).rsw != RSW_RSRV
      requires !PteAllocable(t.E(s.lvl, s.addr), s.lvl, n - s.count, s.addr)
      modifies this
      ensures Valid() && Grown(old(t), old(pool), t, pool, {s.addr}) && AttrsKept(old(t), t, DefaultFlags())
      ensures !ok ==> unchanged(this) && pool == [] && Lacking(t, {s.addr})
      ensures ok ==>
        && pte.table in mem && pte.idx < |mem[pte.table]| && PteTable(g, s.lvl, Load(mem, pte))
        && ScanAt(t0, t, want, n, s.(lvl := s.lvl + 1)) && Surveying(t0, t, want, n, from, s.addr, false)
    {
      hide AddressSpace.Valid, Rem, Quot, Down, Wired, Tree.Valid, Tree.State, Tree.Leaf, Geometry.WF,
        Geometry.Block, Geometry.Index, ScanInv, Tree.Split, Survey, Surveying, Grown, AttrsKept, Lacking;
      ghost var base := if |pool| == 0 then 0 else pool[0];
      AttrsKeptSelf(t, DefaultFlags());
      SplitKeepsAttrs(t, s.lvl, s.addr, base, HYP_FLAGS, DefaultFlags());
      EntryIsLeaf(t, s.lvl, s.addr);
      SplitEntryScan(t0, t, want, n, s, base, HYP_FLAGS);
      SurveySplitEntry(t0, t, want, n, from, s, base, HYP_FLAGS);
      var pt;
      ok, pt := AllocPt(pte, s.lvl, s.addr);
      if ok {
        WiredWalk(t, at, mem, root, s.lvl, s.addr);
      } else {
        LackingAt(t, s.addr);
      }
    }

    /** Look at one entry: count it, start over after it, or find or make a table below it. */
    method ScanEntry(pte: Ptr, want: nat, n: nat, s0: Scan, ghost t0: Tree, ghost from: nat)
      returns (ok: bool, down: bool, s: Scan)
      requires Valid() && ScanAt(t0, t, want, n, s0) && !s0.failed && s0.count < n && s0.addr < VA_LIMIT
      requires t.Has(s0.lvl, s0.addr) && pte == PtrOf(g, at, s0.lvl, s0.addr)
      requires Survey(t0, t, want, n, from, s0.addr, s0.lvl) && (from < s0.addr ==> pte.idx != 0)
      modifies this
      ensures Valid() && Kept(t0, t) && AttrsKept(old(t), t, DefaultFlags())
      ensures Grown(old(t), old(pool), t, pool, {s0.addr})
      ensures !ok ==> unchanged(this) && pool == [] && Lacking(t, {s0.addr})
      ensures ok && s.failed ==> ScanFailed(t0, t, want, n, s)
      ensures ok && !s.failed && down ==>
        && s == s0.(lvl := s0.lvl + 1) && ScanAt(t0, t, want, n, s)
        && Surveying(t0, t, want, n, from, s.addr, false)
      ensures ok && !s.failed && !down ==>
        && ScanAt(t0, t, want, n, s.(lvl := 0)) && unchanged(this)
        && s.lvl == s0.lvl && s.addr == s0.addr + g.sz[s0.lvl] && Rem(s0.addr, g.sz[s0.lvl]) == 0
        && Survey(t0, t, want, n, from, s.addr, s.lvl)
    {
      hide AddressSpace.Valid, Rem, Quot, Down, Wired, Tree.Valid, Tree.State, Tree.Leaf, Geometry.WF,
        Geometry.Block, Geometry.Index, ScanInv, Blocked, Tree.Split, Survey, Surveying, Grown, AttrsKept, Lacking;
      s, ok, down := s0, true, false;
      NotGrown(t, pool, {s0.addr});
      AttrsKeptSelf(t, DefaultFlags());
      ghost var lvl := s.lvl;
      ScanHas(t0, t, want, n, s);
      WiredWalk(t, at, mem, root, s.lvl, s.addr);
      EntryIsLeaf(t, s.lvl, s.addr);
      var e := Load(mem, pte);
      if e.rsw == RSW_RSRV || (e.IsValid() && !PteTable(g, s.lvl, e)) {
        s := s.(count := 0, vpage := INVALID_VA);
        if want != INVALID_VA {
          OccupiedFails(t0, t, want, n, lvl, s0.addr, s0.count);
          s := s.(failed := true);
          return;
        }
        SkipEntry(t0, t, n, s0);
        SurveyStep(t0, t, want, n, from, s0.addr, lvl);
      } else if !e.IsValid() {
        if PteAllocable(e, s.lvl, n - s.count, s.addr) {
          InScope(t0, t, want, n, s0);
          TakeEntry(t0, t, want, n, s0);
          SurveyStep(t0, t, want, n, from, s0.addr, lvl);
          if s.count == 0 {
            s := s.(vpage := s.addr);
          }
          s := s.(count := s.count + g.sz[s.lvl] / PAGE_SIZE);
        } else {
          ok := SplitFree(pte, want, n, s, t0, from);
          if !ok {
            return;
          }
        }
      } else {
        DescendEntry(t0, t, want, n, s);
        InScope(t0, t, want, n, s);
        SurveyDown(t0, t, want, n, from, s.addr, s.lvl);
      }
      if PteTable(g, s.lvl, Load(mem, pte)) {
        down := true;
        s := s.(lvl := s.lvl + 1);
      } else {
        s := s.(addr := s.addr + g.sz[s.lvl]);
      }
    }

    /** Scan the table over `s0.addr`, up to its end, the first table entry in it or the wanted number
        of pages: the inner loop of `mem_alloc_vpage`. */
    method ScanTable(want: nat, n: nat, s0: Scan, ghost t0: Tree) returns (ok: bool, s: Scan)
      requires Valid() && ScanAt(t0, t, want, n, s0) && !s0.failed && s0.count < n && s0.addr < VA_LIMIT
      requires Rounding(t0, t, want, n, s0.addr, false)
      modifies this
      ensures Valid() && Kept(t0, t) && AttrsKept(old(t), t, DefaultFlags())
      ensures Grown(old(t), old(pool), t, pool, Sought(t0, want, n))
      ensures !ok ==> pool == [] && Lacking(t, Sought(t0, want, n))
      ensures ok && s.failed ==> ScanFailed(t0, t, want, n, s)
      ensures ok && !s.failed ==> ScanAt(t0, t, want, n, s)
      ensures ok && !s.failed ==> s0.addr < s.addr || (s0.addr == s.addr && s0.lvl < s.lvl)
      ensures ok && !s.failed ==> s.addr <= s0.addr + g.space
      ensures ok && !s.failed ==> Surveying(t0, t, want, n, s0.addr, s.addr, s.count == n)
    {
      hide AddressSpace.Valid, Rem, Quot, Down, Wired, Tree.Valid, Tree.State, Tree.Leaf, Geometry.WF,
        Geometry.Block, Geometry.Index, ScanInv, ScanAt, ScanFailed, Walkable, Survey, Surveying, Rounding, InTable,
        Grown, AttrsKept, Lacking, Sought;
      s, ok := s0, true;
      ghost var xs := Sought(t0, want, n);
      NotGrown(t, pool, xs);
      AttrsKeptSelf(t, DefaultFlags());
      SurveyBegin(t0, t, want, n, s0.addr, s0.lvl);
      ScanHas(t0, t, want, n, s);
      InTableStart(g, s0.lvl, s0.addr);
      WiredWalk(t, at, mem, root, s.lvl, s.addr);
      var pte := GetPte(s.lvl, s.addr);
      var entry := pte.idx;
      while s.count < n && !s.failed
        invariant InTable(g, s.lvl, s0.addr, s.addr) && (s0.addr < s.addr ==> entry != 0)
        invariant Survey(t0, t, want, n, s0.addr, s.addr, s.lvl)
        invariant s.count <= n && (s.count == n ==> Surveying(t0, t, want, n, s0.addr, s.addr, true))
        invariant unchanged(this) && ok && Valid() && ScanAt(t0, t, want, n, s) && !s.failed && s.lvl == s0.lvl
        invariant t.Has(s.lvl, s.addr) && pte == PtrOf(g, at, s.lvl, s.addr) && pte.idx == entry
        invariant entry < g.nent[s.lvl] && s.addr < VA_LIMIT
        invariant s0.addr < s.addr || (s0.addr == s.addr && s.count < n)
        decreases g.nent[s0.lvl] - entry
      {
        ghost var addr := s.addr;
        var down;
        ScanSeeks(t0, t, want, n, s);
        ok, down, s := ScanEntry(pte, want, n, s, t0, s0.addr);
        GrownOver(old(t), old(pool), t, pool, {addr}, xs);
        if !ok {
          LackingOver(t, {addr}, xs);
        }
        if !ok || s.failed || down {
          return;
        }
        SurveyEnough(t0, t, want, n, s0.addr, s.addr, s.lvl);
        ScanHas(t0, t, want, n, s.(lvl := 0));
        entry := entry + 1;
        NextInTable(t0, t, want, n, s, s0.addr, addr);
        if g.nent[s.lvl] <= entry {
          SurveyEnd(t0, t, want, n, s0.addr, addr, s.lvl);
          SurveyingEnded(t0, t, want, n, s0.addr, s.addr, s.count == n);
          s := s.(lvl := 0);
          return;
        }
        pte := Ptr(pte.table, entry);
      }
    }

    /** The first invalid entry on the walk for `addr`. */
    method FirstInvalid(addr: nat) returns (lvl: nat, pte: Ptr)
      requires Valid() && !t.State(addr).Mapped?
      ensures lvl == t.Leaf(addr) && t.Has(lvl, addr) && pte == PtrOf(g, at, lvl, addr)
      ensures pte.table in mem && pte.idx < |mem[pte.table]| && Load(mem, pte) == t.E(lvl, addr)
    {
      hide AddressSpace.Valid, Rem, Quot, Down, Wired, Tree.Valid, Tree.State, Tree.Leaf, Geometry.WF,
        Geometry.Block, Geometry.Index, Walkable;
      lvl, pte := 0, Ptr(0, 0);
      while lvl < g.Lvls()
        invariant lvl <= t.Leaf(addr)
      {
        HasIffLeaf(t, lvl, addr);
        WiredWalk(t, at, mem, root, lvl, addr);
        EntryIsLeaf(t, lvl, addr);
        pte := GetPte(lvl, addr);
        if !Load(mem, pte).IsValid() {
          break;
        }
        lvl := lvl + 1;
      }
    }

    /** Reserve `n` pages from `va` on, leaf block by leaf block: the second half of `mem_alloc_vpage`. */
    method ReserveRange(va: nat, n: nat)
      requires Valid() && Run(t, va, va + n * PAGE_SIZE)
      modifies this`mem, this`t
      ensures Valid() && ReservedUpTo(old(t), t, va, n * PAGE_SIZE)
      ensures t.tables.Keys == old(t).tables.Keys && AttrsKept(old(t), t, DefaultFlags())
    {
      hide AddressSpace.Valid, Rem, Quot, Down, Wired, Tree.Valid, Tree.State, Tree.Leaf, Geometry.WF,
        Geometry.Block, Geometry.Index, Run, ReservedUpTo, Walkable, AttrsKept, Tiled, Tree.Put, Tree.Entry;
      var count, addr := 0, va;
      ReserveNothing(t, va);
      AttrsKeptSelf(t, DefaultFlags());
      while count < n
        invariant count <= n && addr == va + count * PAGE_SIZE
        invariant Valid() && ReservedUpTo(old(t), t, va, count * PAGE_SIZE) && Tiled(old(t), va, addr)
        invariant t.tables.Keys == old(t).tables.Keys && AttrsKept(old(t), t, DefaultFlags())
        decreases n - count
      {
        ghost var t1 := t;
        ReserveStep(old(t), t, va, va + n * PAGE_SIZE, count * PAGE_SIZE);
        EntryIsLeaf(t, t.Leaf(addr), addr);
        var lvl, pte := FirstInvalid(addr);
        var v := PteSetRsw(Load(mem, pte), RSW_RSRV);
        PutKeepsAttrs(t, lvl, addr, v, DefaultFlags());
        Store(pte, v, lvl, addr);
        AttrsKeptTwice(old(t), t1, t, DefaultFlags());
        BlockIsPages(g, lvl);
        assert count * PAGE_SIZE + g.sz[lvl] == (count + g.sz[lvl] / PAGE_SIZE) * PAGE_SIZE;
        addr, count := addr + g.sz[lvl], count + g.sz[lvl] / PAGE_SIZE;
      }
    }

    /** The first half of `mem_alloc_vpage`: find the pages, and make whole entries of them. */
    method FindRun(want: nat, n: nat) returns (r: VpageResult)
      requires Valid() && want < VA_LIMIT && (want == INVALID_VA || want % PAGE_SIZE == 0)
      modifies this
      ensures Valid() && Kept(old(t), t) && AttrsKept(old(t), t, DefaultFlags())
      ensures Grown(old(t), old(pool), t, pool, Sought(old(t), want, n))
      ensures r == NoPages ==> pool == [] && Lacking(t, Sought(old(t), want, n))
      ensures r.Address? ==>
        && Run(t, r.va, r.va + n * PAGE_SIZE) && 0 < n && r.va % PAGE_SIZE == 0 && r.va + n * PAGE_SIZE <= VA_LIMIT
        && (want != INVALID_VA ==> r.va == want) && (want == INVALID_VA ==> AllBlocked(old(t), r.va, n))
      ensures want != INVALID_VA ==> !r.SearchWraps?
      ensures want != INVALID_VA && r.NoRange? ==>
        n == 0 || Blocked(old(t), want, n) || VA_LIMIT < want + 2 * n * PAGE_SIZE
      ensures want != INVALID_VA && 0 < n && n * PAGE_SIZE <= g.space ==>
        && (r.Address? ==> !Blocked(old(t), want, n) && RoomAtStops(old(t), want, n))
        && (r.NoRange? ==> Blocked(old(t), want, n) || VA_LIMIT < want + n * PAGE_SIZE || !RoomAtStops(old(t), want, n))
      ensures want == INVALID_VA && (r.NoRange? || r.SearchWraps?) && 0 < n ==>
        && (n * PAGE_SIZE <= g.space ==> Hopeless(old(t), n))
        && (r.SearchWraps? <==> RoomAtSeams(old(t), n))
      ensures r.SearchWraps? ==> 0 < n && Hopeless(old(t), n) && Surveyed(old(t), t, INVALID_VA, n, VA_LIMIT)
    {
      hide AddressSpace.Valid, Rem, Quot, Down, Wired, Tree.Valid, Tree.State, Tree.Leaf, Geometry.WF,
        Geometry.Block, Geometry.Index, Run, Walkable, ScanInv, ScanAt, Blocked, AllBlocked, Hopeless, RoomAtSeams,
        RoomAtStops, Surveyed, Surveying, Rounding, Grown, AttrsKept, Lacking, Sought;
      var s := Scan(0, if want != INVALID_VA then want else 0, 0, INVALID_VA, false);
      ghost var t0, p0, from, xs := t, pool, s.addr, Sought(t, want, n);
      NotGrown(t, pool, xs);
      AttrsKeptSelf(t, DefaultFlags());
      ScanBegin(t, want, n);
      RoundBegin(t, want, n, n == 0);
      while s.count < n && !s.failed
        invariant Valid() && Kept(t0, t) && Grown(t0, p0, t, pool, xs) && AttrsKept(t0, t, DefaultFlags())
        invariant !s.failed ==> ScanAt(t0, t, want, n, s)
        invariant s.failed ==> ScanFailed(t0, t, want, n, s)
        invariant !s.failed ==> Rounding(t0, t, want, n, s.addr, s.count == n)
        invariant !s.failed ==> from <= s.addr <= from + g.space && (want == INVALID_VA || want <= from)
        invariant from < VA_LIMIT
        invariant from == 0 || from == s.addr || from + n * PAGE_SIZE <= VA_LIMIT
        decreases !s.failed, VA_LIMIT - s.addr, g.Lvls() - s.lvl
      {
        ScanHas(t0, t, want, n, s);
        if s.addr == VA_LIMIT {
          // The 64-bit address has become 0: the source scans everything again.
          r := SearchWraps;
          WrapFacts(t0, t, want, n, s, from);
          return;
        }
        var fullAs := s.addr == 0;
        if !fullAs && (VA_LIMIT - s.addr) / PAGE_SIZE < n {
          NearTop(t0, t, want, n, s);
          return NoRange;
        }
        ghost var t1, p1 := t, pool;
        from := s.addr;
        var ok;
        ok, s := ScanTable(want, n, s, t0);
        GrownTwice(t0, p0, t1, p1, t, pool, xs, xs, xs);
        AttrsKeptTwice(t0, t1, t, DefaultFlags());
        if !ok {
          return NoPages;
        }
        if !s.failed {
          ScanHas(t0, t, want, n, s);
          RoundNext(t0, t1, t, want, n, from, s.addr, s.count == n);
        }
      }
      if s.failed {
        return NoRange;
      }
      ScanHas(t0, t, want, n, s);
      if s.vpage == INVALID_VA {
        return NoRange;
      }
      ScanDone(t0, t, want, n, s);
      if want != INVALID_VA && n * PAGE_SIZE <= g.space {
        FreeIsNotBlocked(t0, want, n);
        HadRoom(t0, t, want, n);
      }
      r := Address(s.vpage);
    }

    /** `mem_alloc_vpage`: reserve `n` free pages at `want`, or anywhere if `want` is INVALID_VA. */
    method AllocVpage(want: nat, n: nat) returns (r: VpageResult)
      requires Valid() && want < VA_LIMIT
      modifies this
      ensures Valid() && forall y: nat :: old(t).Leaf(y) <= t.Leaf(y)
      ensures r.Address? ==>
        && (forall y: nat :: r.va <= y < r.va + n * PAGE_SIZE ==> old(t).State(y) == Free)
        && (forall y: nat :: t.State(y) == AfterReserve(old(t), r.va, n * PAGE_SIZE, y))
        && 0 < n && r.va % PAGE_SIZE == 0 && r.va + n * PAGE_SIZE <= VA_LIMIT
        && InsideAt(t, r.va + n * PAGE_SIZE - 1, r.va, r.va + n * PAGE_SIZE)
      ensures r.Address? ==> forall y: nat :: r.va <= y < r.va + n * PAGE_SIZE ==> BlockLevel(g, t.Leaf(y))
      ensures !r.Address? ==> forall y: nat :: t.State(y) == old(t).State(y)
      ensures AttrsKept(old(t), t, DefaultFlags())
      // pages taken for tables
      ensures Grown(old(t), old(pool), t, pool, Sought(old(t), want, n))
      ensures r == NoPages ==>
        && pool == [] && Lacking(t, Sought(old(t), want, n))
        && |old(pool)| < |Missing(old(t), Sought(old(t), want, n))|
      ensures if want != INVALID_VA then PlaceOutcome(old(t), want, n, r) else SearchOutcome(old(t), n, r)
      ensures r.SearchWraps? ==> Hopeless(t, n) && RoomAtSeams(t, n)
    {
      hide AddressSpace.Valid, Rem, Quot, Down, Wired, Tree.Valid, Tree.State, Tree.Leaf, Geometry.WF,
        Geometry.Block, Geometry.Index, Run, ReservedUpTo, Walkable, Blocked, AllBlocked, InsideAt, Hopeless, RoomAtSeams,
        RoomAtStops, Surveyed, Grown, AttrsKept, Lacking, Sought, Missing, BlockLevel;
      NotGrown(t, pool, Sought(t, want, n));
      AttrsKeptSelf(t, DefaultFlags());
      if want != INVALID_VA && want % PAGE_SIZE != 0 {
        return NoRange;
      }
      ghost var t0 := t;
      r := FindRun(want, n);
      if r.Address? {
        ghost var t1 := t;
        FoundIsFree(t0, t1, r.va, n);
        ReserveRange(r.va, n);
        ReservedRun(t0, t1, t, r.va, n);
        SameTables(t1, t, pool, Sought(t0, want, n));
        GrownTwice(t0, old(pool), t1, pool, t, pool, Sought(t0, want, n), Sought(t0, want, n), Sought(t0, want, n));
        AttrsKeptTwice(t0, t1, t, DefaultFlags());
      } else if r.SearchWraps? {
        WrapsAgain(t0, t, n);
      } else if r == NoPages {
        TooFew(t0, old(pool), t, pool, Sought(t0, want, n));
      }
    }

    /**
     * `mem_alloc_vpage` with an address: unless the page allocator runs out, exactly those ranges are
     * reserved that are free and have room for as many pages again at every stop of the search, below
     * the end of the 64-bit addresses. Further away from it than twice the range this is no condition.
     */
    method AllocAt(want: nat, n: nat) returns (r: VpageResult)
      requires Valid() && want < INVALID_VA && want % PAGE_SIZE == 0 && 0 < n
      modifies this
      ensures Valid() && (r == NoPages ==> pool == [])
      ensures r == NoPages ==> |old(pool)| < |Missing(old(t), Pages(want, n))| <= AtMost(g, n)
      ensures r != NoPages && n * PAGE_SIZE <= g.space ==>
        (r == Address(want) <==>
           !Blocked(old(t), want, n) && want + n * PAGE_SIZE <= VA_LIMIT && RoomAtStops(old(t), want, n))
      ensures r != NoPages && want + 2 * n * PAGE_SIZE <= VA_LIMIT ==>
        (r == Address(want) <==> !Blocked(old(t), want, n))
      ensures r == Address(want) || r == NoRange || r == NoPages
    {
      hide AddressSpace.Valid, Tree.Valid, Tree.State, Tree.Leaf, Geometry.WF, AllBlocked, InsideAt, Hopeless, RoomAtSeams,
        RoomAtStops, Grown, AttrsKept, Lacking, Missing, KeysOver;
      ghost var t0 := t;
      r := AllocVpage(want, n);
      assert r.Address? ==> !Blocked(t0, want, n);
      PagesBound(t0, want, n);
    }

    /**
     * `mem_alloc_vpage` without an address: unless the page allocator runs out, a range is found
     * exactly if there is a free one anywhere. Addresses count modulo the size of the address space,
     * so the range found can lie across its end; it does only if no free one lies inside. When
     * nothing is found the search ends if and only if some seam is too near the last 64-bit address.
     */
    method AllocAnywhere(n: nat) returns (r: VpageResult)
      requires Valid() && 0 < n && n * PAGE_SIZE <= g.space
      modifies this
      ensures Valid() && (r == NoPages ==> pool == [])
      ensures r == NoPages ==> |old(pool)| < |Missing(old(t), Pages(0, g.space / PAGE_SIZE))|
      ensures r == NoPages ==> forall p: nat :: p % PAGE_SIZE == 0 && !Blocked(old(t), p, n) ==>
        |old(pool)| < |Missing(old(t), Pages(0, p / PAGE_SIZE + n))| <= AtMost(g, p / PAGE_SIZE + n)
      ensures r != NoPages ==>
        (r.Address? <==> exists p: nat :: p % PAGE_SIZE == 0 && !Blocked(old(t), p, n))
      ensures r.Address? ==> r.va < g.space
      ensures r.Address? ==>
        (r.va + n * PAGE_SIZE <= g.space
         <==> exists p: nat :: p % PAGE_SIZE == 0 && p + n * PAGE_SIZE <= g.space && !Blocked(old(t), p, n))
      ensures r.SearchWraps? ==> RoomAtSeams(old(t), n)
      ensures r.NoRange? ==> !RoomAtSeams(old(t), n)
    {
      hide AddressSpace.Valid, Tree.Valid, Tree.State, Tree.Leaf, Geometry.WF, InsideAt, RoomAtSeams, AllBlocked,
        Grown, AttrsKept, Lacking, Missing, KeysOver, Sought, Pages;
      ghost var t0 := t;
      r := AllocVpage(INVALID_VA, n);
      SearchNeeds(t0, n);
      if r.Address? {
        assert r.va % PAGE_SIZE == 0 && !Blocked(t0, r.va, n);
        FirstPlace(t0, r.va, n);
      }
    }

    /** Take away one entry whose block lies within the range, and step to the next. */
    method ClearEntry(pte0: Ptr, lvl: nat, va: nat, ghost start: nat, top: nat, ghost t0: Tree)
      returns (pte: Ptr, vaddr: nat)
      requires Valid() && UnmapInv(t0, t, start, top, va) && va < top
      requires t.Leaf(va) == lvl && pte0 == PtrOf(g, at, lvl, va)
      requires va == start || ClimbOk(t0, start, top, va)
      requires Down(va, g.sz[lvl]) == va && va + g.sz[lvl] <= top
      modifies this`mem, this`t
      ensures Valid() && vaddr == va + g.sz[lvl] && UnmapInv(t0, t, start, top, vaddr)
      ensures Grown(old(t), pool, t, pool, Ends(start, top)) && AttrsKept(old(t), t, DefaultFlags())
      ensures pte == Ptr(pte0.table, pte0.idx + 1) && pte.idx <= g.nent[lvl]
      ensures pte.idx < g.nent[lvl] ==>
        && t.Has(lvl, vaddr) && pte == PtrOf(g, at, lvl, vaddr) && WalkAt(t0, t, start, top, lvl, vaddr)
        && (vaddr < top ==> ClimbOk(t0, start, top, vaddr))
      ensures pte.idx == g.nent[lvl] ==>
        (vaddr < top ==> 0 < lvl) && (0 < lvl ==> WalkAt(t0, t, start, top, lvl - 1, vaddr))
    {
      hide AddressSpace.Valid, Rem, Quot, Down, Wired, Tree.Valid, Tree.State, Tree.Leaf, Geometry.WF,
        Geometry.Block, Geometry.Index, ClimbOk, UnmapInv, Climbing, WalkAt, Walkable, Expanded, Tree.Put, AttrsKept,
        Grown;
      UnmapClear(t0, t, start, top, va);
      PutKeepsAttrs(t, lvl, va, Pte(0, 0, 0, 0), DefaultFlags());
      if pte0.idx + 1 < g.nent[lvl] {
        WalkOn(t0, t, start, top, va);
      } else {
        WalkUp(t0, t, start, top, va);
      }
      Store(pte0, Pte(0, 0, 0, 0), lvl, va);
      SameTables(old(t), t, pool, Ends(start, top));
      pte, vaddr := Ptr(pte0.table, pte0.idx + 1), va + g.sz[lvl];
    }

    /** Expand an entry that sticks out of the range; the walk goes on below it. */
    method ExpandCovered(vaddr: nat, lvl: nat, ghost start: nat, ghost top: nat, ghost t0: Tree) returns (ok: bool)
      requires Valid() && vaddr < top && t.Leaf(vaddr) == lvl && lvl < g.Lvls()
      requires start % PAGE_SIZE == 0 ==>
        && UnmapInv(t0, t, start, top, vaddr) && WalkAt(t0, t, start, top, lvl, vaddr)
        && (vaddr == start || ClimbOk(t0, start, top, vaddr))
        && (Down(vaddr, g.sz[lvl]) < vaddr || top < Down(vaddr, g.sz[lvl]) + g.sz[lvl])
      requires start % PAGE_SIZE != 0 ==> Descending(t0, t, start, vaddr, lvl)
      modifies this
      ensures Valid() && Grown(old(t), old(pool), t, pool, Ends(start, top)) && AttrsKept(old(t), t, DefaultFlags())
      ensures !ok ==> unchanged(this) && pool == [] && Lacking(t, Ends(start, top))
      ensures ok && start % PAGE_SIZE == 0 ==>
        UnmapInv(t0, t, start, top, vaddr) && WalkAt(t0, t, start, top, lvl + 1, vaddr)
      ensures ok && start % PAGE_SIZE != 0 ==> Descending(t0, t, start, vaddr, lvl + 1)
      ensures start % PAGE_SIZE != 0 ==> Kept(t0, t)
    {
      hide AddressSpace.Valid, Rem, Quot, Wired, Tree.Valid, Tree.State, Tree.Leaf, Geometry.WF, Geometry.Block,
        Geometry.Index, ClimbOk, UnmapInv, Climbing, WalkAt, Walkable, Expanded, Descending, Grown, Lacking, AttrsKept;
      ghost var t1, p1, z := t, pool, vaddr;
      HasIffLeaf(t, lvl, vaddr);
      if start % PAGE_SIZE == 0 {
        z := PartlyAtEnd(t0, t, start, top, vaddr);
      } else {
        DescendStays(t0, t, start, vaddr, lvl);
      }
      ok := ExpandPte(vaddr, lvl);
      if !ok {
        LackingForBlock(t, vaddr, z);
        LackingOver(t, {z}, Ends(start, top));
      } else {
        OneDeeper(t1, t, lvl, vaddr);
      }
      GrownForBlock(t1, p1, t, pool, vaddr, z);
      GrownOver(t1, p1, t, pool, {z}, Ends(start, top));
      if ok {
        if start % PAGE_SIZE == 0 {
          UnmapExpand(t0, t1, t, start, top, vaddr);
          WalkDeeper(t0, t, start, top, lvl + 1, vaddr);
        } else {
          DescendExpand(t0, t1, t, start, vaddr, lvl);
          DescendStays(t0, t, start, vaddr, lvl + 1);
        }
      }
    }

    /** Take away the entries of one table from `va0` on: the inner loop of `mem_unmap`. */
    method UnmapTable(pte0: Ptr, lvl0: nat, va0: nat, ghost start: nat, top: nat, ghost t0: Tree)
      returns (ok: bool, lvl: nat, vaddr: nat)
      requires Valid() && va0 < top && t.Leaf(va0) == lvl0 && pte0 == PtrOf(g, at, lvl0, va0)
      requires t0.Valid() && t0.g == g && GoesOn(t0, t, start, top, lvl0, va0)
      requires start % PAGE_SIZE == 0 ==> va0 == start || (0 < va0 && ClimbOk(t0, start, top, va0))
      modifies this
      ensures Valid() && Grown(old(t), old(pool), t, pool, Ends(start, top)) && AttrsKept(old(t), t, DefaultFlags())
      ensures !ok ==> pool == [] && Lacking(t, Ends(start, top))
      ensures DoneSoFar(t0, t, start, top, vaddr) && (ok ==> GoesOn(t0, t, start, top, lvl, vaddr))
      ensures ok ==> va0 < vaddr || (va0 == vaddr && lvl0 < lvl)
    {
      hide AddressSpace.Valid, Rem, Quot, Wired, Tree.Valid, Tree.State, Tree.Leaf, Geometry.WF, Geometry.Block,
        Geometry.Index, ClimbOk, UnmapInv, Climbing, WalkAt, Walkable, Expanded, Tree.Put, Descending, Grown, Lacking,
        AttrsKept, Kept;
      ghost var t1, p1, xs := t, pool, Ends(start, top);
      NotGrown(t, pool, xs);
      AttrsKeptSelf(t, DefaultFlags());
      ok, lvl, vaddr := true, lvl0, va0;
      var pte := pte0;
      HasIffLeaf(t, lvl, vaddr);
      if start % PAGE_SIZE == 0 {
        WalkDeeper(t0, t, start, top, lvl, vaddr);
      } else {
        DescendStays(t0, t, start, vaddr, lvl);
      }
      while pte.idx < g.nent[lvl0] && vaddr < top
        invariant Valid() && lvl == lvl0 && Grown(t1, p1, t, pool, xs) && AttrsKept(t1, t, DefaultFlags())
        invariant start % PAGE_SIZE == 0 ==> UnmapInv(t0, t, start, top, vaddr)
        invariant start % PAGE_SIZE != 0 ==> Descending(t0, t, start, vaddr, lvl) && va0 == vaddr && Kept(t0, t)
        invariant pte.idx < g.nent[lvl0] ==> t.Has(lvl0, vaddr) && pte == PtrOf(g, at, lvl0, vaddr)
        invariant start % PAGE_SIZE == 0 && pte.idx < g.nent[lvl0] ==>
          && WalkAt(t0, t, start, top, lvl0, vaddr)
          && (vaddr < top ==> vaddr == start || ClimbOk(t0, start, top, vaddr))
        invariant pte.idx <= g.nent[lvl0]
        invariant start % PAGE_SIZE == 0 && pte.idx == g.nent[lvl0] ==>
          (vaddr < top ==> 0 < lvl) && (0 < lvl ==> WalkAt(t0, t, start, top, lvl - 1, vaddr))
        invariant va0 <= vaddr && (va0 == vaddr ==> t.Leaf(vaddr) == lvl0 && pte.idx < g.nent[lvl0])
        decreases g.nent[lvl0] - pte.idx
      {
        ghost var t2, p2 := t, pool;
        WiredWalk(t, at, mem, root, lvl, vaddr);
        if start % PAGE_SIZE == 0 {
          EntryMaps(t0, t, start, top, lvl, vaddr);
        } else {
          EntryIsLeaf(t, lvl, vaddr);
          DescendBase(t0, t, start, vaddr, lvl);
          DescendStays(t0, t, start, vaddr, lvl);
        }
        if PteTable(g, lvl, Load(mem, pte)) {
          return;
        }
        var base := Down(vaddr, g.sz[lvl]);
        if base < vaddr || top < base + g.sz[lvl] {
          ok := ExpandCovered(vaddr, lvl, start, top, t0);
          GrownTwice(t1, p1, t2, p2, t, pool, xs, xs, xs);
          AttrsKeptTwice(t1, t2, t, DefaultFlags());
          lvl := lvl + 1;
          return;
        }
        pte, vaddr := ClearEntry(pte, lvl, vaddr, start, top, t0);
        GrownTwice(t1, p1, t2, p2, t, pool, xs, xs, xs);
        AttrsKeptTwice(t1, t2, t, DefaultFlags());
      }
      if pte.idx == g.nent[lvl0] && 0 < lvl {
        lvl := lvl - 1;
      } else if top <= vaddr {
        WalkDone(t0, t, start, top, lvl, vaddr);
      }
    }

    /**
     * `mem_unmap` without freeing pages, on a mapped range inside the address space. Started inside a
     * page it never finishes: a page is not split, but the walk goes on to a level there is not.
     */
    method Unmap(start: nat, numPages: nat) returns (r: UnmapResult, ghost gone: nat)
      requires Valid() && start + numPages * PAGE_SIZE <= g.space
      requires MappedRange(t, start, start + numPages * PAGE_SIZE)
      modifies this
      ensures Valid() && gone <= numPages * PAGE_SIZE && (r.Unmapped? ==> gone == numPages * PAGE_SIZE)
      ensures forall y: nat :: t.State(y) == AfterUnmap(old(t), start, gone, y)
      ensures r.Unmapped? ==> ClimbsByOne(old(t), start, start + numPages * PAGE_SIZE)
      ensures r.Unmapped? ==> numPages == 0 || start % PAGE_SIZE == 0
      ensures r.Stray? ==> numPages > 0
      ensures r.Stray? ==> start % PAGE_SIZE != 0 || !ClimbsByOne(old(t), start, start + numPages * PAGE_SIZE)
      ensures PageLeaves(old(t)) ==> PageLeaves(t) && (r.Stray? ==> start % PAGE_SIZE != 0)
      // attributes of what stays mapped, and pages taken for tables: only at the two ends of the range
      ensures AttrsKept(old(t), t, DefaultFlags())
      ensures Grown(old(t), old(pool), t, pool, Ends(start, start + numPages * PAGE_SIZE))
      ensures Paid(old(t), old(pool), t, pool)
      ensures r.OutOfPages? ==>
        && pool == [] && Spent(old(t), old(pool), t)
        && |old(pool)| < |Missing(old(t), Ends(start, start + numPages * PAGE_SIZE))| <= 2 * (g.Lvls() - 1)
    {
      hide AddressSpace.Valid, Rem, Quot, Down, Wired, Tree.Valid, Tree.State, Tree.Leaf, Geometry.WF,
        Geometry.Block, Geometry.Index, ClimbOk, ClimbsByOne, UnmapInv, Walkable, PageLeaves, Descending,
        Grown, Lacking, AttrsKept, Missing, KeysOver, Kept, Ends, MappedRange, GoesOn, DoneSoFar, Paid, Spent;
      var vaddr, top, lvl := start, start + numPages * PAGE_SIZE, 0;
      ghost var t0, p0, xs := t, pool, Ends(start, start + numPages * PAGE_SIZE);
      NotGrown(t, pool, xs);
      AttrsKeptSelf(t, DefaultFlags());
      EndsBound(t, start, top);
      GoesOnFirst(t, start, numPages);
      while vaddr < top
        invariant Valid() && Grown(t0, p0, t, pool, xs) && AttrsKept(t0, t, DefaultFlags())
        invariant GoesOn(t0, t, start, top, lvl, vaddr)
        decreases top - vaddr, g.Lvls() - lvl
      {
        GoesOnNext(t0, t, start, top, lvl, vaddr);
        var found, pte := TryGetPte(lvl, vaddr);
        if !found {
          AllSpent(t0, p0, t, pool, xs);
          gone := StopsAt(t0, t, start, top, vaddr);
          return Stray, gone;
        }
        WiredWalk(t, at, mem, root, lvl, vaddr);
        if PteTable(g, lvl, Load(mem, pte)) {
          lvl := lvl + 1;
        } else {
          ghost var t1, p1 := t, pool;
          var ok;
          ok, lvl, vaddr := UnmapTable(pte, lvl, vaddr, start, top, t0);
          GrownTwice(t0, p0, t1, p1, t, pool, xs, xs, xs);
          AttrsKeptTwice(t0, t1, t, DefaultFlags());
          if !ok {
            TooFew(t0, p0, t, pool, xs);
            AllSpent(t0, p0, t, pool, xs);
            gone := StopsAt(t0, t, start, top, vaddr);
            return OutOfPages, gone;
          }
        }
      }
      Finishes(t0, t, start, top, lvl, vaddr);
      AllSpent(t0, p0, t, pool, xs);
      gone := StopsAt(t0, t, start, top, vaddr);
      return Unmapped, gone;
    }

    /** `mem_alloc_map` and `mem_alloc_map_dev`: reserve `n` pages at `want`, or anywhere, and map the
        `pages` pages from `base` on there. */
    method AllocMap(want: nat, base: nat, pages: nat, n: nat, flags: nat) returns (r: VpageResult)
      requires Valid() && want < VA_LIMIT && pages <= n && pages * PAGE_SIZE <= g.space
      modifies this
      ensures Valid() && (PageLeaves(old(t)) ==> PageLeaves(t))
      ensures r.Address? ==>
        && (forall y: nat :: r.va <= y < r.va + n * PAGE_SIZE ==> old(t).State(y) == Free)
        && (forall y: nat :: t.State(y) == AfterAllocMap(old(t), r.va, base, pages, n, y))
        && (forall y: nat :: r.va <= y < r.va + n * PAGE_SIZE ==> t.Leaf(y) == g.Lvls() - 1)
        && 0 < n && r.va % PAGE_SIZE == 0 && r.va + n * PAGE_SIZE <= VA_LIMIT
      ensures r.NoRange? || r.SearchWraps? ==> forall y: nat :: t.State(y) == old(t).State(y)
      ensures if want != INVALID_VA then PlaceOutcome(old(t), want, n, r) else SearchOutcome(old(t), n, r)
      // attributes
      ensures r.Address? ==> AttrsAfterMap(old(t), t, r.va, pages * PAGE_SIZE, flags, DefaultFlags())
      ensures !r.Address? ==> AttrsKept(old(t), t, DefaultFlags())
      // pages taken for tables: a range found stays reserved when there are none left to map it
      ensures Grown(old(t), old(pool), t, pool, Sought(old(t), want, n)) && Paid(old(t), old(pool), t, pool)
      ensures r == NoPages ==> Spent(old(t), old(pool), t)
      ensures r == NoPages ==> pool == [] && ((exists va :: Reserves(old(t), t, va, n)) || Reserves(old(t), t, 0, 0))
      ensures r == NoPages ==> |old(pool)| < |Missing(old(t), Sought(old(t), want, n))|
      ensures r.Address? ==> |Missing(old(t), Pages(r.va, n))| <= |old(pool)| - |pool|
      ensures want != INVALID_VA && r.Address? ==> |Missing(old(t), Pages(want, n))| == |old(pool)| - |pool|
      ensures want != INVALID_VA && r == NoPages ==>
        |old(pool)| < |Missing(old(t), Pages(want, n))| <= AtMost(g, n)
      ensures want == INVALID_VA && r == NoPages ==> forall p: nat :: p % PAGE_SIZE == 0 && !Blocked(old(t), p, n) ==>
        |old(pool)| < |Missing(old(t), Pages(0, p / PAGE_SIZE + n))| <= AtMost(g, p / PAGE_SIZE + n)
    {
      hide AddressSpace.Valid, Rem, Quot, Down, Wired, Tree.Valid, Tree.State, Tree.Leaf, Tree.Entry, Geometry.WF,
        Geometry.Block, Geometry.Index, Walkable, Blocked, AllBlocked, InsideAt, StepsReachEnd, MapsTo, Off,
        PageLeaves, Hopeless, RoomAtSeams, RoomAtStops, Grown, Lacking, AttrsKept, AttrsAfterMap, Missing, KeysOver, Pages,
        Paid, Spent, Sought, BlockLevel, AtMost, PlaceOutcome, SearchOutcome;
      ghost var t0, p0 := t, pool;
      SearchNeeds(t, n);
      PagesBound(t, want, n);
      SoughtAtPlace(t, want, n);
      assert |Missing(t0, Pages(want, n))| <= AtMost(g, n);
      r := AllocVpage(want, n);
      ghost var t1, p1 := t, pool;
      if PageLeaves(t0) {
        SearchKeepsPageLeaves(t0, t, r, n);
      }
      if r.Address? {
        RunStepsReachEnd(t, r.va, n * PAGE_SIZE);
        var mapped, start, done := MemMap(r.va, base, pages, n, flags);
        assert start == r.va;
        FoundPlace(t0, want, n, r.va);
        FoundGrown(t0, p0, t1, p1, t, pool, want, n, r.va);
        AllSpent(t0, p0, t, pool, Sought(t0, want, n));
        AttrsAfterBoth(t0, t1, t, r.va, done * PAGE_SIZE, flags, DefaultFlags());
        if mapped.NoPagesLeft? {
          ReservedOnly(t0, t1, t, r.va, base, n);
          return NoPages;
        }
        NoneLacking(t, r.va, n);
        ReservedThenMapped(t0, t1, t, r.va, base, pages, n);
      } else {
        AllSpent(t0, p0, t, pool, Sought(t0, want, n));
        ReservedNothing(t0, t);
      }
    }

    lemma SearchKeepsPageLeaves(t0: Tree, t1: Tree, r: VpageResult, n: nat)
      requires t0.Valid() && t1.Valid() && t0.g == t1.g && PageLeaves(t0)
      requires forall y: nat :: t0.Leaf(y) <= t1.Leaf(y)
      requires r.Address? ==> forall y: nat :: t1.State(y) == AfterReserve(t0, r.va, n * PAGE_SIZE, y)
      requires !r.Address? ==> forall y: nat :: t1.State(y) == t0.State(y)
      ensures PageLeaves(t1)
    {
      hide Tree.Valid, Tree.State, Tree.Leaf, Geometry.WF, Off;
      forall y: nat ensures t1.State(y).Mapped? ==> t0.State(y).Mapped? {
        assert r.Address? ==> t1.State(y) == AfterReserve(t0, r.va, n * PAGE_SIZE, y);
      }
      KeepsPageLeaves(t0, t1);
    }

    /** Mapping a free range inside the address space and taking it away again gives back what every
        address stood for, if and only if the page allocator has a page for each table missing there. */
    method MapThenUnmap(want: nat, base: nat, n: nat, flags: nat) returns (ok: bool)
      requires Valid() && want % PAGE_SIZE == 0 && 0 < n && want + n * PAGE_SIZE <= g.space
      requires !Blocked(t, want, n)
      modifies this
      ensures Valid() && (ok <==> |Missing(old(t), Pages(want, n))| <= |old(pool)|)
      ensures ok ==> forall y: nat :: t.State(y) == old(t).State(y)
      ensures ok ==> |pool| == |old(pool)| - |Missing(old(t), Pages(want, n))|
    {
      hide AddressSpace.Valid, Rem, Quot, Down, Wired, Tree.Valid, Tree.State, Tree.Leaf, Tree.Entry, Geometry.WF,
        Geometry.Block, Geometry.Index, Walkable, Blocked, ClimbsByOne, MapsTo, Off, MappedRange, AttrsKept,
        AttrsAfterMap, Missing, KeysOver, Pages, Lacking, Sought, PageLeaves, Grown, Ends, InsideAt, AllBlocked;
      ghost var t0 := t;
      var r := AllocMap(want, base, n, n, flags);
      if r == NoPages {
        return false;
      }
      MappedPages(t0, t, want, base, n);
      ghost var t1, p1 := t, pool;
      EndsMapped(t, want, want + n * PAGE_SIZE);
      var u, gone := Unmap(want, n);
      ok := true;
      NoneMade(t1, p1, t, pool, Ends(want, want + n * PAGE_SIZE));
      forall y: nat
        ensures t.State(y) == t0.State(y)
      {
        assert t.State(y) == AfterUnmap(t1, want, n * PAGE_SIZE, y);
        assert t1.State(y) == AfterAllocMap(t0, want, base, n, n, y);
        BackToFree(t0, want, n, y);
      }
    }
  }

  /**
   * The first mapping of a new address space succeeds if and only if there is a page for each table
   * missing, which for one page is a table for each level below the root, and for more never more
   * than as many each.
   */
  method MapInNewSpace(g: Geometry, root: nat, isHyp: bool, pool: seq<nat>, want: nat, base: nat, n: nat, flags: nat)
    returns (space: AddressSpace, r: VpageResult)
    requires g.WF() && want % PAGE_SIZE == 0 && 0 < n && want + n * PAGE_SIZE <= g.space
    requires forall i :: 0 <= i < |pool| ==> pool[i] != root && pool[i] < PA_LIMIT && pool[i] % PAGE_SIZE == 0
    requires forall i, j :: 0 <= i < j < |pool| ==> pool[i] != pool[j]
    ensures fresh(space) && space.Valid() && r == if r == NoPages then NoPages else Address(want)
    ensures EmptyTree(g).Valid() && (r.Address? <==> |Missing(EmptyTree(g), Pages(want, n))| <= |pool|)
    ensures n * (g.Lvls() - 1) <= |pool| ==> r.Address?
    ensures n == 1 ==> (r.Address? <==> g.Lvls() - 1 <= |pool|)
  {
    hide AddressSpace.Valid, Tree.Valid, Tree.State, Tree.Leaf, Geometry.WF, Missing, KeysOver, Pages, Grown, AttrsKept,
      AttrsAfterMap, PageLeaves, Sought;
    space := new AddressSpace(g, root, isHyp, pool);
    EmptyTreeIsFree(g, 0);
    PagesBound(EmptyTree(g), want, n);
    NewSpaceMissing(g, want);
    OnePage(want);
    r := space.AllocMap(want, base, n, n, flags);
  }
}
