/** Trees on which a search for address space never ends, or ends outside (src/core/mmu.c, lines 184-276). */
module SearchEnds {
  import opened Blocks
  import opened PageTable
  import opened Mapping
  import opened Descriptors
  import opened Scanning
  import opened Reservation
  import opened Seams
  import opened Accounts
  import opened Expansion
  import opened AddressSpaces

  /** A tree of one table, whose entries are reserved where `taken` says so and free elsewhere. */
  function RootTree(g: Geometry, taken: seq<bool>): Tree {
    Tree(g, map[(0, 0) := seq(|taken|, i requires 0 <= i < |taken| => Pte(0, if taken[i] then RSW_RSRV else 0, 0, 0))])
  }

  lemma RootTreeState(g: Geometry, taken: seq<bool>, x: nat)
    requires g.WF() && |taken| == g.nent[0]
    ensures RootTree(g, taken).Valid() && RootTree(g, taken).Leaf(x) == 0
    ensures RootTree(g, taken).State(x) == if taken[g.Index(0, x)] then Reserved else Free
  {
    var t := RootTree(g, taken);
    assert t.Shape();
    forall l: nat, y: nat | t.Has(l, y) ensures l == 0 && t.E(l, y).typ == 0 && t.EntryOk(l, t.E(l, y)) {
    }
    forall l: nat, y: nat | 0 < l < g.Lvls() ensures t.Linked(l, y) {
    }
    assert t.Valid();
    assert t.Has(0, x);
    LeafUnique(t, 0, x);
  }

  /** A full root table: nothing is ever found, and the search goes on for ever unless more is asked than there is. */
  lemma FullRoot(g: Geometry, n: nat)
    requires g.WF() && 0 < n
    ensures var t := RootTree(g, seq(g.nent[0], i => true));
            t.Valid() && Hopeless(t, n) && (RoomAtSeams(t, n) <==> n * PAGE_SIZE <= g.space)
  {
    hide Rem, Quot, Tree.Valid, Tree.State, Tree.Leaf, Geometry.WF, Geometry.Index, RootTree;
    var t := RootTree(g, seq(g.nent[0], i => true));
    RootTreeGeometry(g, seq(g.nent[0], i => true));
    RootTreeState(g, seq(g.nent[0], i => true), 0);
    forall y: nat ensures t.Valid() && t.State(y) != Free && ScanLevel(t, y) == 0 {
      RootTreeState(g, seq(g.nent[0], i => true), y);
    }
    forall p: nat | p % PAGE_SIZE == 0 ensures Blocked(t, p, n) {
      assert t.State(p) != Free;
    }
    UniformSeams(t, 0, n);
  }

  lemma RootTreeGeometry(g: Geometry, taken: seq<bool>)
    ensures RootTree(g, taken).g == g
  {
  }

  lemma LastNumber(y: nat, s: nat, n: nat, space: nat)
    requires 0 < s && 0 < n && s * n == space && y < space
    ensures Quot(y, s) == n - 1 <==> space <= y + s
  {
    hide Rem, Quot;
    QuotTimes(y, s);
    QuotBound(y, s, n);
    var q := Quot(y, s);
    assert (q + 1) * s == q * s + s && (n - 1) * s == space - s;
    if y + s < space {
      QuotBound(y, s, n - 1);
    } else {
      MulMonotone(q + 1, n - 1, s);
    }
  }

  /** Which entry of the root an address uses. */
  lemma RootIndex(g: Geometry, y: nat)
    requires g.WF() && y < g.space + g.sz[0]
    ensures y < g.sz[0] || g.space <= y ==> g.Index(0, y) == 0
    ensures g.sz[0] <= y < g.space ==> 0 < g.Index(0, y)
    ensures y < g.space ==> (g.Index(0, y) == g.nent[0] - 1 <==> g.space <= y + g.sz[0])
  {
    hide Geometry.Index;
    IndexInTable(g, 0, y);
    g.SpanPositive(0);
    assert g.Exact(0);
    if y < g.space {
      LastNumber(y, g.sz[0], g.nent[0], g.space);
    }
  }

  /**
   * With the first and the last root entry free and those between them taken, two entries' worth of
   * pages fit only across the end of the address space: a search finds them there, and the second
   * half of the address range is one that the hardware does not translate by the first entry.
   */
  lemma OnlyAcrossTheEnd(g: Geometry, n: nat)
    requires g.WF() && 3 <= g.nent[0] && n * PAGE_SIZE == 2 * g.sz[0]
    ensures var t := RootTree(g, seq(g.nent[0], i => 0 < i < g.nent[0] - 1));
            && t.Valid() && g.sz[0] < g.space && !Blocked(t, g.space - g.sz[0], n)
            && forall p: nat :: p % PAGE_SIZE == 0 && p + n * PAGE_SIZE <= g.space ==> Blocked(t, p, n)
  {
    hide Rem, Quot, Tree.Valid, Tree.State, Tree.Leaf, Geometry.WF, Geometry.Index, RootTree;
    var s := g.sz[0];
    var taken := seq(g.nent[0], i => 0 < i < g.nent[0] - 1);
    var t := RootTree(g, taken);
    RootTreeGeometry(g, taken);
    RootTreeState(g, taken, 0);
    MoreThanOneEntry(g);
    forall y: nat | g.space - s <= y < g.space - s + n * PAGE_SIZE ensures t.State(y) == Free {
      RootTreeState(g, taken, y);
      RootIndex(g, y);
    }
    forall p: nat | p % PAGE_SIZE == 0 && p + n * PAGE_SIZE <= g.space ensures Blocked(t, p, n) {
      var y := if p < s then s else p;
      RootTreeState(g, taken, y);
      RootIndex(g, y);
      assert t.State(y) != Free;
    }
  }

  lemma MoreThanOneEntry(g: Geometry)
    requires g.WF() && 3 <= g.nent[0]
    ensures 3 * g.sz[0] <= g.space
  {
    assert g.Exact(0);
    MulMonotone(3, g.nent[0], g.sz[0]);
  }

  /** A new address space is filled, and then one more page is asked for: that search never ends. */
  method FillThenSearch(g: Geometry, root: nat, isHyp: bool, pool: seq<nat>) returns (s: AddressSpace, r: VpageResult)
    requires g.WF() && root < PA_LIMIT
    requires forall i :: 0 <= i < |pool| ==> pool[i] != root && pool[i] < PA_LIMIT && pool[i] % PAGE_SIZE == 0
    requires forall i, j :: 0 <= i < j < |pool| ==> pool[i] != pool[j]
    ensures r.SearchWraps? || (r.NoPages? && s.pool == [])
  {
    hide AddressSpace.Valid, Tree.Valid, Tree.State, Tree.Leaf, Geometry.WF, AllBlocked, InsideAt, RoomAtSeams,
      EmptyTree, PageLeaves, Tree.Entry, Grown, AttrsKept, Lacking, Missing, KeysOver, Pages, Sought;
    s := new AddressSpace(g, root, isHyp, pool);
    SpaceIsPages(g);
    ghost var t0 := s.t;
    r := s.AllocVpage(INVALID_VA, g.space / PAGE_SIZE);
    NothingBlocked(t0, 0, g.space / PAGE_SIZE);
    if r.NoPages? {
      return;
    }
    ghost var t1 := s.t;
    assert r.Address?;
    forall p: nat | p % PAGE_SIZE == 0 ensures Blocked(t1, p, 1) {
      assert t1.State(p) == AfterReserve(t0, r.va, g.space / PAGE_SIZE * PAGE_SIZE, p);
    }
    OnePageHasRoom(t1);
    r := s.AllocVpage(INVALID_VA, 1);
    if r.Address? {
      NothingBlocked(t1, r.va, 1);
    }
  }

  lemma SpaceIsPages(g: Geometry)
    requires g.WF()
    ensures g.space / PAGE_SIZE * PAGE_SIZE == g.space && PAGE_SIZE <= g.space
  {
    g.SpaceDivides(g.Lvls() - 1);
    RemIsModulo(g.space, PAGE_SIZE);
  }

  lemma NothingBlocked(t: Tree, p: nat, n: nat)
    requires t.Valid() && forall y: nat :: p <= y < p + n * PAGE_SIZE ==> t.State(y) == Free
    ensures !Blocked(t, p, n)
  {
  }

  /** A range at the last 64-bit addresses, one page longer than a last-level table covers. */
  ghost predicate AtTheTop(g: Geometry, want: nat, n: nat) {
    && g.WF() && 2 <= g.Lvls() && 2 * PAGE_SIZE <= g.sz[g.Lvls() - 2] && 2 * g.sz[g.Lvls() - 2] <= g.space
    && n * PAGE_SIZE == g.sz[g.Lvls() - 2] + PAGE_SIZE && want == VA_LIMIT - n * PAGE_SIZE
  }

  /** Where its second page begins, a search for it comes to another table, too near the end. */
  lemma SecondPageStops(g: Geometry, want: nat, n: nat)
    requires AtTheTop(g, want, n)
    ensures EmptyTree(g).Valid() && EmptyTree(g).g == g && want % PAGE_SIZE == 0 && !Blocked(EmptyTree(g), want, n)
    ensures !RoomAtStops(EmptyTree(g), want, n)
  {
    hide Rem, Quot, Down, Tree.Valid, Tree.State, Tree.Leaf, Geometry.WF, EmptyTree;
    var k := g.Lvls() - 2;
    var s := g.sz[k];
    var t, hi, a := EmptyTree(g), want + n * PAGE_SIZE, VA_LIMIT - s;
    EmptyTreeIsFree(g, 0);
    EmptyIs(g);
    forall y: nat | want <= y < hi ensures t.State(y) == Free {
      EmptyTreeIsFree(g, y);
    }
    TopIsMultiple(g, k);
    BlockIsPages(g, k);
    var l := TileLevel(t, want, hi, a - 1);
    if l <= k {
      FinerInside(g, l, k, a - 1);
      RemOfSelf(s);
      RemSubMultiple(a, s, s);
      DownOfBlock(a - s, s - 1, s);
      assert false;
    }
    assert g.Span(g.Lvls() - 1) == s;
    assert Stop(t, want, hi, a);
    assert a + n * PAGE_SIZE > VA_LIMIT;
  }

  lemma EmptyIs(g: Geometry)
    requires g.WF()
    ensures EmptyTree(g).g == g
  {
  }

  lemma TopIsMultiple(g: Geometry, l: nat)
    requires g.WF() && l < g.Lvls()
    ensures Rem(VA_LIMIT - g.sz[l], g.sz[l]) == 0 && 2 * g.space <= VA_LIMIT && g.sz[l] <= g.space
  {
    g.SpaceDivides(l);
    RemTransitive(VA_LIMIT, g.space, g.sz[l]);
    RemOfSelf(g.sz[l]);
    RemSubMultiple(VA_LIMIT, g.sz[l], g.sz[l]);
  }

  /** A new address space refuses that range, all of it free. */
  method RefusesFreeRange(g: Geometry, root: nat, isHyp: bool, pool: seq<nat>, want: nat, n: nat)
    returns (s: AddressSpace, r: VpageResult)
    requires AtTheTop(g, want, n)
    requires forall i :: 0 <= i < |pool| ==> pool[i] != root && pool[i] < PA_LIMIT && pool[i] % PAGE_SIZE == 0
    requires forall i, j :: 0 <= i < j < |pool| ==> pool[i] != pool[j]
    ensures r.NoRange? || (r.NoPages? && s.pool == [] && |pool| < n * (g.Lvls() - 1))
  {
    hide AddressSpace.Valid, Tree.Valid, Tree.State, Tree.Leaf, Geometry.WF, EmptyTree, PageLeaves, RoomAtStops,
      Tree.Entry, Missing, KeysOver, Pages;
    SecondPageStops(g, want, n);
    s := new AddressSpace(g, root, isHyp, pool);
    r := s.AllocAt(want, n);
  }
}
