/** Where the pages of the page allocator go: one for each table made, and for which addresses tables are made. */
module Accounts {
  import opened Blocks
  import opened PageTable
  import opened Ranges
  import opened Descriptors
  import opened Mapping
  import opened Scanning
  import opened Expansion
  import opened Unmapping

  /** A table's name: its level and the start of what it covers. */
  type Key = (nat, nat)

  /** The tables below the root that walks for the addresses of `xs` to the last level go through. */
  ghost function KeysOver(g: Geometry, xs: set<nat>): set<Key>
    requires g.WF()
  {
    set x: nat, l: nat | x in xs && 0 < l < g.Lvls() :: (l, g.TableKey(l, x))
  }

  /** Those of them that there are not yet. */
  ghost function Missing(t: Tree, xs: set<nat>): set<Key>
    requires t.Shape()
  {
    KeysOver(t.g, xs) - t.tables.Keys
  }

  /** The pages taken became tables, one each, in the order of the allocator; none is lost and none comes back. */
  ghost predicate Paid(t0: Tree, p0: seq<nat>, t: Tree, p: seq<nat>) {
    && |p| <= |p0| && p == p0[|p0| - |p|..]
    && |p| + |t.tables| == |p0| + |t0.tables|
    && t0.tables.Keys <= t.tables.Keys
  }

  /** Every page became a table. */
  ghost predicate Spent(t0: Tree, p0: seq<nat>, t: Tree) {
    |t.tables| == |t0.tables| + |p0|
  }

  /** All new tables lie over addresses of `xs`. */
  ghost predicate Grown(t0: Tree, p0: seq<nat>, t: Tree, p: seq<nat>, xs: set<nat>) {
    && t0.Shape() && t.Shape() && t0.g == t.g && Paid(t0, p0, t, p)
    && t.tables.Keys - t0.tables.Keys <= KeysOver(t.g, xs)
  }

  /** Some address of `xs` has no page table of the last level yet. */
  ghost predicate Lacking(t: Tree, xs: set<nat>)
    requires t.Valid()
  {
    exists x: nat :: x in xs && t.Leaf(x) + 1 < t.g.Lvls()
  }

  /** With none left, all there were became tables. */
  lemma AllSpent(t0: Tree, p0: seq<nat>, t: Tree, p: seq<nat>, xs: set<nat>)
    requires Grown(t0, p0, t, p, xs)
    ensures Paid(t0, p0, t, p) && (p == [] ==> Spent(t0, p0, t))
  {
  }

  lemma NotGrown(t: Tree, p: seq<nat>, xs: set<nat>)
    requires t.Shape()
    ensures Grown(t, p, t, p, xs)
  {
    hide Geometry.WF;
  }

  /** Rewriting entries takes no page. */
  lemma SameTables(t0: Tree, t: Tree, p: seq<nat>, xs: set<nat>)
    requires t0.Shape() && t.Shape() && t0.g == t.g && t.tables.Keys == t0.tables.Keys
    ensures Grown(t0, p, t, p, xs)
  {
    hide Geometry.WF;
    assert |t.tables| == |t.tables.Keys| && |t0.tables| == |t0.tables.Keys|;
  }

  /** Making a table below an entry takes one. */
  lemma SplitGrown(t: Tree, l: nat, x: nat, base: nat, attrs: nat, p: seq<nat>)
    requires t.Valid() && t.Has(l, x) && l + 1 < t.g.Lvls() && !t.IsTable(l, t.E(l, x)) && p != []
    ensures t.Split(l, x, base, attrs).Valid()
    ensures Grown(t, p, t.Split(l, x, base, attrs), p[1..], {x})
    ensures t.Leaf(x) == l
  {
    hide Tree.Valid, Geometry.WF, Rem, Quot;
    var t1 := t.Split(l, x, base, attrs);
    SplitValid(t, l, x, base, attrs);
    TablesAfter(t, l, x, t.E(l, x), base, attrs);
    LeafUnique(t, l, x);
    var key := (l + 1, t.g.TableKey(l + 1, x));
    assert t1.tables.Keys == t.tables.Keys + {key} && key !in t.tables.Keys;
    assert |t1.tables| == |t1.tables.Keys| && |t.tables| == |t.tables.Keys|;
    assert key in KeysOver(t.g, {x});
  }

  lemma GrownTwice(t0: Tree, p0: seq<nat>, t1: Tree, p1: seq<nat>, t2: Tree, p2: seq<nat>,
                   xs: set<nat>, ys: set<nat>, zs: set<nat>)
    requires Grown(t0, p0, t1, p1, xs) && Grown(t1, p1, t2, p2, ys) && xs <= zs && ys <= zs
    ensures Grown(t0, p0, t2, p2, zs)
  {
    hide Geometry.WF;
    MoreKeys(t0.g, xs, zs);
    MoreKeys(t0.g, ys, zs);
  }

  lemma MoreKeys(g: Geometry, xs: set<nat>, ys: set<nat>)
    requires g.WF() && xs <= ys
    ensures KeysOver(g, xs) <= KeysOver(g, ys)
  {
    hide Geometry.WF;
  }

  /** With every page gone and an address still lacking a table, there were fewer pages than tables missing. */
  lemma TooFew(t0: Tree, p0: seq<nat>, t: Tree, p: seq<nat>, xs: set<nat>)
    requires t0.Valid() && t.Valid() && Grown(t0, p0, t, p, xs) && Lacking(t, xs)
    ensures |p0| - |p| < |Missing(t0, xs)|
  {
    hide Tree.Valid, Geometry.WF, KeysOver, Lacking;
    var key := LackingKey(t, xs);
    MadeCount(t0, t);
    ProperSubset(t.tables.Keys - t0.tables.Keys, key, Missing(t0, xs));
  }

  lemma LackingKey(t: Tree, xs: set<nat>) returns (key: Key)
    requires t.Valid() && Lacking(t, xs)
    ensures key in KeysOver(t.g, xs) && key !in t.tables.Keys
  {
    hide Tree.Valid, Geometry.WF;
    var x: nat :| x in xs && t.Leaf(x) + 1 < t.g.Lvls();
    HasIffLeaf(t, t.Leaf(x) + 1, x);
    key := (t.Leaf(x) + 1, t.g.TableKey(t.Leaf(x) + 1, x));
  }

  lemma ProperSubset<T>(a: set<T>, x: T, b: set<T>)
    requires a <= b && x in b && x !in a
    ensures |a| < |b|
  {
    Subset(a + {x}, b);
  }

  /** With no address lacking one any more, exactly the tables missing have been made. */
  lemma ExactlyMissing(t0: Tree, p0: seq<nat>, t: Tree, p: seq<nat>, xs: set<nat>)
    requires t0.Valid() && t.Valid() && Grown(t0, p0, t, p, xs) && !Lacking(t, xs)
    ensures |p0| - |p| == |Missing(t0, xs)|
  {
    hide Tree.Valid, Geometry.WF;
    forall key | key in Missing(t0, xs) ensures key in t.tables.Keys {
      NotLacking(t, xs, key);
    }
    MadeExactly(t0, t, xs);
    MadeCount(t0, t);
  }

  lemma NotLacking(t: Tree, xs: set<nat>, key: Key)
    requires t.Valid() && !Lacking(t, xs) && key in KeysOver(t.g, xs)
    ensures key in t.tables.Keys
  {
    hide Tree.Valid, Geometry.WF;
    var x: nat, l: nat :| x in xs && 0 < l < t.g.Lvls() && key == (l, t.g.TableKey(l, x));
    HasIffLeaf(t, l, x);
  }

  lemma MadeExactly(t0: Tree, t: Tree, xs: set<nat>)
    requires t0.Shape() && t.Shape() && t0.g == t.g && t.tables.Keys - t0.tables.Keys <= KeysOver(t.g, xs)
    requires Missing(t0, xs) <= t.tables.Keys
    ensures t.tables.Keys - t0.tables.Keys == Missing(t0, xs)
  {
    hide Geometry.WF, KeysOver;
  }

  /** No more pages have been taken than there were tables missing. */
  lemma AtMostMissing(t0: Tree, p0: seq<nat>, t: Tree, p: seq<nat>, xs: set<nat>)
    requires Grown(t0, p0, t, p, xs)
    ensures |p0| - |p| <= |Missing(t0, xs)|
  {
    hide Geometry.WF;
    Subset(t.tables.Keys - t0.tables.Keys, Missing(t0, xs));
    MadeCount(t0, t);
  }

  lemma MadeCount(t0: Tree, t: Tree)
    requires t0.tables.Keys <= t.tables.Keys
    ensures |t.tables.Keys - t0.tables.Keys| == |t.tables| - |t0.tables|
  {
    assert t.tables.Keys == (t.tables.Keys - t0.tables.Keys) + t0.tables.Keys;
    assert |t.tables| == |t.tables.Keys| && |t0.tables| == |t0.tables.Keys|;
  }

  lemma {:induction false} Subset<T>(a: set<T>, b: set<T>)
    requires a <= b
    ensures |a| <= |b|
  {
    if a != {} {
      var x :| x in a;
      Subset(a - {x}, b - {x});
    }
  }

  /** A table for each of `k` pages and each level below the root. */
  function AtMost(g: Geometry, k: nat): int {
    k * (g.Lvls() - 1)
  }

  /** No more than that are missing. */
  lemma {:induction false} MissingBound(t: Tree, xs: set<nat>)
    requires t.Shape()
    ensures |Missing(t, xs)| <= |KeysOver(t.g, xs)| <= |xs| * (t.g.Lvls() - 1)
  {
    hide Geometry.WF;
    KeysBound(t.g, xs);
    Subset(Missing(t, xs), KeysOver(t.g, xs));
  }

  lemma {:induction false} KeysBound(g: Geometry, xs: set<nat>)
    requires g.WF()
    ensures |KeysOver(g, xs)| <= |xs| * (g.Lvls() - 1)
    decreases |xs|
  {
    hide Geometry.WF, KeysOver, KeysBelow;
    if xs == {} {
      NoKeys(g);
    } else {
      var x :| x in xs;
      var rest, m := xs - {x}, g.Lvls() - 1;
      KeysBound(g, rest);
      KeysOfOne(g, x, m + 1);
      KeysOfMore(g, rest, x, xs);
      UnionSize(KeysOver(g, rest), KeysBelow(g, x, m + 1));
      assert |xs| == |rest| + 1;
      OneMoreTime(|rest|, m);
    }
  }

  lemma OneMoreTime(a: nat, m: int)
    ensures (a + 1) * m == a * m + m
  {
  }

  lemma NoKeys(g: Geometry)
    requires g.WF()
    ensures KeysOver(g, {}) == {}
  {
  }

  lemma UnionSize<T>(a: set<T>, b: set<T>)
    ensures |a + b| <= |a| + |b|
  {
  }

  lemma KeysOfMore(g: Geometry, rest: set<nat>, x: nat, xs: set<nat>)
    requires g.WF() && xs == rest + {x}
    ensures KeysOver(g, xs) == KeysOver(g, rest) + KeysBelow(g, x, g.Lvls())
  {
    hide Geometry.WF, Geometry.TableKey;
  }

  /** The tables on the way of one address to level `m`. */
  ghost function KeysBelow(g: Geometry, x: nat, m: nat): set<Key>
    requires g.WF() && m <= g.Lvls()
  {
    set l: nat | 0 < l < m :: (l, g.TableKey(l, x))
  }

  lemma {:induction false} KeysOfOne(g: Geometry, x: nat, m: nat)
    requires g.WF() && 0 < m <= g.Lvls()
    ensures |KeysBelow(g, x, m)| == m - 1
  {
    hide Geometry.WF;
    if m == 1 {
      assert KeysBelow(g, x, m) == {};
    } else {
      KeysOfOne(g, x, m - 1);
      assert KeysBelow(g, x, m) == KeysBelow(g, x, m - 1) + {(m - 1, g.TableKey(m - 1, x))};
    }
  }

  /** In a new address space all are missing. */
  lemma NewSpaceMissing(g: Geometry, x: nat)
    requires g.WF()
    ensures EmptyTree(g).Valid() && |Missing(EmptyTree(g), {x})| == g.Lvls() - 1
  {
    hide Geometry.WF;
    EmptyTreeIsFree(g, x);
    KeysOfOne(g, x, g.Lvls());
    assert Missing(EmptyTree(g), {x}) == KeysBelow(g, x, g.Lvls());
  }

  lemma LackingOver(t: Tree, xs: set<nat>, ys: set<nat>)
    requires t.Valid() && Lacking(t, xs) && xs <= ys
    ensures Lacking(t, ys)
  {
  }

  lemma LackingAt(t: Tree, x: nat)
    requires t.Valid() && t.Leaf(x) + 1 < t.g.Lvls()
    ensures Lacking(t, {x})
  {
  }

  lemma GrownOver(t0: Tree, p0: seq<nat>, t: Tree, p: seq<nat>, xs: set<nat>, ys: set<nat>)
    requires Grown(t0, p0, t, p, xs) && xs <= ys
    ensures Grown(t0, p0, t, p, ys)
  {
    hide Geometry.WF;
    MoreKeys(t0.g, xs, ys);
  }

  // ------------------------------------------------------------------ ranges

  /** The `k` pages from `b` on. */
  ghost function Pages(b: nat, k: nat): (xs: set<nat>)
    ensures |xs| <= k
  {
    if k == 0 then {} else Pages(b, k - 1) + {b + (k - 1) * PAGE_SIZE}
  }

  lemma {:induction false} PagesAre(b: nat, k: nat, x: nat)
    ensures x in Pages(b, k) <==> b <= x < b + k * PAGE_SIZE && (x - b) % PAGE_SIZE == 0
  {
    if k > 0 {
      PagesAre(b, k - 1, x);
    }
  }

  function PageCount(len: nat): nat {
    (len + PAGE_SIZE - 1) / PAGE_SIZE
  }

  /** The addresses that a loop over blocks of a range steps to. */
  lemma StepInPages(va: nat, len: nat, x: nat)
    requires va <= x < va + len && (x - va) % PAGE_SIZE == 0
    ensures x in Pages(va, PageCount(len))
  {
    PagesAre(va, PageCount(len), x);
  }

  lemma WholePageCount(n: nat)
    ensures PageCount(n * PAGE_SIZE) == n
  {
  }

  /** With every page of a range a last-level leaf, none lacks a table. */
  lemma NoneLacking(t: Tree, va: nat, n: nat)
    requires t.Valid() && forall y: nat :: va <= y < va + n * PAGE_SIZE ==> t.Leaf(y) == t.g.Lvls() - 1
    ensures !Lacking(t, Pages(va, n))
  {
    hide Tree.Valid, Tree.Leaf, Geometry.WF;
    forall x: nat | x in Pages(va, n) ensures t.Leaf(x) == t.g.Lvls() - 1 {
      PagesAre(va, n, x);
    }
  }

  /**
   * The pages for which a search for `n` pages can make tables: those of the place asked for, or else
   * those before the end of every free place.
   */
  ghost function Sought(t: Tree, want: nat, n: nat): set<nat>
    requires t.Valid()
  {
    if want != INVALID_VA then Pages(want, n) else set x: nat | x < VA_LIMIT && x % PAGE_SIZE == 0 && NotBeyond(t, n, x)
  }

  ghost predicate NotBeyond(t: Tree, n: nat, x: nat)
    requires t.Valid()
  {
    forall p: nat :: p % PAGE_SIZE == 0 && !Blocked(t, p, n) ==> x < p + n * PAGE_SIZE
  }

  lemma SoughtAtPlace(t: Tree, want: nat, n: nat)
    requires t.Valid()
    ensures want != INVALID_VA ==> Sought(t, want, n) == Pages(want, n)
  {
  }

  /** The scan does not go beyond. */
  lemma ScanSeeks(t0: Tree, t: Tree, want: nat, n: nat, s: Scan)
    requires ScanAt(t0, t, want, n, s) && s.count < n && s.addr < VA_LIMIT
    ensures s.addr in Sought(t0, want, n)
  {
    hide Tree.Valid, Tree.State, Tree.Leaf, Geometry.WF, Run, Settled, Blocked;
    if want != INVALID_VA {
      PagesAre(want, n, s.addr);
    }
  }

  /** Nor does what it finds. */
  lemma FoundIsSought(t: Tree, want: nat, n: nat, va: nat)
    requires t.Valid() && va % PAGE_SIZE == 0 && va + n * PAGE_SIZE <= VA_LIMIT
    requires if want != INVALID_VA then va == want else AllBlocked(t, va, n)
    ensures Pages(va, n) <= Sought(t, want, n)
  {
    hide Tree.Valid, Tree.State, Tree.Leaf, Geometry.WF, Blocked;
    if want == INVALID_VA {
      forall x | x in Pages(va, n) ensures x in Sought(t, want, n) {
        PagesAre(va, n, x);
      }
    }
  }

  /** The pages up to the end of a free place are enough for a search without an address. */
  lemma SoughtBefore(t: Tree, n: nat, p: nat)
    requires t.Valid() && p % PAGE_SIZE == 0 && !Blocked(t, p, n)
    ensures Sought(t, INVALID_VA, n) <= Pages(0, p / PAGE_SIZE + n)
  {
    hide Tree.Valid, Tree.State, Tree.Leaf, Geometry.WF, Blocked;
    forall x | x in Sought(t, INVALID_VA, n) ensures x in Pages(0, p / PAGE_SIZE + n) {
      PagesAre(0, p / PAGE_SIZE + n, x);
    }
  }

  /** Whatever is missing is missing over a page of the address space. */
  lemma MissingInSpace(t: Tree, xs: set<nat>)
    requires t.Shape()
    ensures Missing(t, xs) <= Missing(t, Pages(0, t.g.space / PAGE_SIZE))
  {
    hide Geometry.WF, Rem, Quot, Geometry.Block;
    var g := t.g;
    forall key | key in KeysOver(g, xs) ensures key in KeysOver(g, Pages(0, g.space / PAGE_SIZE)) {
      var x: nat, l: nat :| x in xs && 0 < l < g.Lvls() && key == (l, g.TableKey(l, x));
      var y := PageOf(g, x);
      PageOfKeeps(g, l - 1, x);
      PagesAre(0, g.space / PAGE_SIZE, y);
      assert y < g.space / PAGE_SIZE * PAGE_SIZE && key == (l, g.TableKey(l, y));
    }
  }

  function PageOf(g: Geometry, x: nat): nat
    requires g.WF()
  {
    g.Block(g.Lvls() - 1, x)
  }

  lemma PageOfKeeps(g: Geometry, l: nat, x: nat)
    requires g.WF() && l < g.Lvls()
    ensures g.Block(l, PageOf(g, x)) == g.Block(l, x)
    ensures PageOf(g, x) % PAGE_SIZE == 0 && PageOf(g, x) + PAGE_SIZE <= g.space
  {
    hide Quot;
    var m, y := g.Lvls() - 1, PageOf(g, x);
    CoarserBlock(g, l, m, x);
    BlockOffset(g, m, x);
    DownIsMultiple(g.Canon(x), PAGE_SIZE);
    RemIsModulo(y, PAGE_SIZE);
    CanonOfMultiple(g, m, y);
  }

  lemma MoreMissing(t: Tree, xs: set<nat>, ys: set<nat>)
    requires t.Shape() && xs <= ys
    ensures Missing(t, xs) <= Missing(t, ys) && |Missing(t, xs)| <= |Missing(t, ys)|
  {
    hide Geometry.WF;
    MoreKeys(t.g, xs, ys);
    Subset(Missing(t, xs), Missing(t, ys));
  }

  lemma PagesBound(t: Tree, b: nat, k: nat)
    requires t.Shape()
    ensures |Missing(t, Pages(b, k))| <= AtMost(t.g, k)
  {
    hide Geometry.WF, Missing, KeysOver;
    MissingBound(t, Pages(b, k));
    MulMonotone(|Pages(b, k)|, k, t.g.Lvls() - 1);
  }

  /** What a search without an address can need at most, wherever the first free place is. */
  lemma SearchNeeds(t: Tree, n: nat)
    requires t.Valid()
    ensures |Missing(t, Sought(t, INVALID_VA, n))| <= |Missing(t, Pages(0, t.g.space / PAGE_SIZE))|
    ensures forall p: nat :: p % PAGE_SIZE == 0 && !Blocked(t, p, n) ==>
      |Missing(t, Sought(t, INVALID_VA, n))| <= |Missing(t, Pages(0, p / PAGE_SIZE + n))| <= AtMost(t.g, p / PAGE_SIZE + n)
  {
    hide Tree.Valid, Geometry.WF, Missing, KeysOver, Sought, Pages;
    MissingInSpace(t, Sought(t, INVALID_VA, n));
    Subset(Missing(t, Sought(t, INVALID_VA, n)), Missing(t, Pages(0, t.g.space / PAGE_SIZE)));
    forall p: nat | p % PAGE_SIZE == 0 && !Blocked(t, p, n)
      ensures |Missing(t, Sought(t, INVALID_VA, n))| <= |Missing(t, Pages(0, p / PAGE_SIZE + n))|
        <= AtMost(t.g, p / PAGE_SIZE + n)
    {
      SoughtBefore(t, n, p);
      MoreMissing(t, Sought(t, INVALID_VA, n), Pages(0, p / PAGE_SIZE + n));
      PagesBound(t, 0, p / PAGE_SIZE + n);
    }
  }

  // ------------------------------------------------------------------ one expansion

  /** An entry expanded for `x` is expanded for every other address of its block. */
  lemma GrownForBlock(t0: Tree, p0: seq<nat>, t: Tree, p: seq<nat>, x: nat, z: nat)
    requires t0.Valid() && t.Valid() && Grown(t0, p0, t, p, {x})
    requires t.Leaf(x) <= t0.Leaf(x) + 1 && t0.SameBlock(t0.Leaf(x), x, z)
    ensures Grown(t0, p0, t, p, {z})
  {
    hide Tree.Valid, Geometry.WF, Rem, Quot, Geometry.Block;
    var l := t0.Leaf(x);
    forall key | key in t.tables.Keys - t0.tables.Keys ensures key in KeysOver(t.g, {z}) {
      var y: nat, m: nat :| y in {x} && 0 < m < t.g.Lvls() && key == (m, t.g.TableKey(m, y));
      HasIffLeaf(t0, m, x);
      HasIffLeaf(t, m, x);
      assert m == l + 1 && key == (l + 1, t.g.TableKey(l + 1, z));
    }
  }

  lemma LackingForBlock(t: Tree, x: nat, z: nat)
    requires t.Valid() && t.SameBlock(t.Leaf(x), x, z) && t.Leaf(x) + 1 < t.g.Lvls()
    ensures Lacking(t, {z})
  {
    SameLeaf(t, x, z);
  }

  lemma OneDeeper(t0: Tree, t: Tree, l: nat, x: nat)
    requires Expanded(t0, t, l, x) && t0.Leaf(x) == l
    ensures t.Leaf(x) <= l + 1
  {
    assert t.Leaf(x) == LeafAfter(t0, l, x, x);
  }

  lemma EndsBound(t: Tree, at: nat, top: nat)
    requires t.Shape()
    ensures |Missing(t, Ends(at, top))| <= 2 * (t.g.Lvls() - 1)
  {
    hide Geometry.WF, Missing, KeysOver;
    MissingBound(t, Ends(at, top));
    MulMonotone(|Ends(at, top)|, 2, t.g.Lvls() - 1);
  }

  lemma NothingMissing(t: Tree, xs: set<nat>)
    requires t.Valid() && !Lacking(t, xs)
    ensures |Missing(t, xs)| == 0
  {
    hide Tree.Valid, Geometry.WF, Lacking, Missing, KeysOver;
    NotGrown(t, [], xs);
    ExactlyMissing(t, [], t, [], xs);
  }

  lemma NoneMade(t0: Tree, p0: seq<nat>, t: Tree, p: seq<nat>, xs: set<nat>)
    requires Grown(t0, p0, t, p, xs) && |Missing(t0, xs)| == 0
    ensures p == p0
  {
    AtMostMissing(t0, p0, t, p, xs);
  }

  /** The ends of a range mapped page by page lack nothing. */
  lemma EndsMapped(t: Tree, at: nat, top: nat)
    requires t.Valid() && at < top && forall y: nat :: at <= y < top ==> t.Leaf(y) == t.g.Lvls() - 1
    ensures |Missing(t, Ends(at, top))| == 0
  {
    hide Tree.Valid, Geometry.WF, Missing;
    NothingMissing(t, Ends(at, top));
  }

  /** What AllocVpage and MemMap take together. */
  lemma FoundGrown(t0: Tree, p0: seq<nat>, t1: Tree, p1: seq<nat>, t: Tree, p: seq<nat>, want: nat, n: nat, va: nat)
    requires t0.Valid() && t.Valid() && Grown(t0, p0, t1, p1, Sought(t0, want, n)) && Grown(t1, p1, t, p, Pages(va, n))
    requires va % PAGE_SIZE == 0 && va + n * PAGE_SIZE <= VA_LIMIT
    requires if want != INVALID_VA then va == want else AllBlocked(t0, va, n)
    ensures Grown(t0, p0, t, p, Sought(t0, want, n))
    ensures Lacking(t, Pages(va, n)) ==> |p0| - |p| < |Missing(t0, Sought(t0, want, n))|
    ensures !Lacking(t, Pages(va, n)) ==> |Missing(t0, Pages(va, n))| <= |p0| - |p|
    ensures !Lacking(t, Pages(va, n)) && want != INVALID_VA ==> |p0| - |p| == |Missing(t0, Pages(va, n))|
  {
    hide Tree.Valid, Geometry.WF, Grown, Missing, KeysOver, Lacking, AllBlocked, Pages;
    var xs := Sought(t0, want, n);
    FoundIsSought(t0, want, n, va);
    GrownTwice(t0, p0, t1, p1, t, p, xs, Pages(va, n), xs);
    if Lacking(t, Pages(va, n)) {
      LackingOver(t, Pages(va, n), xs);
      TooFew(t0, p0, t, p, xs);
    } else if want != INVALID_VA {
      ExactlyMissing(t0, p0, t, p, xs);
    } else {
      AtLeastMissing(t0, p0, t, p, xs, Pages(va, n));
    }
  }

  /** Where no address of `ys` lacks a table any more, at least those missing over `ys` have been made. */
  lemma AtLeastMissing(t0: Tree, p0: seq<nat>, t: Tree, p: seq<nat>, xs: set<nat>, ys: set<nat>)
    requires t0.Valid() && t.Valid() && Grown(t0, p0, t, p, xs) && !Lacking(t, ys)
    ensures |Missing(t0, ys)| <= |p0| - |p|
  {
    hide Tree.Valid, Geometry.WF, KeysOver, Lacking;
    forall key | key in Missing(t0, ys) ensures key in t.tables.Keys {
      NotLacking(t, ys, key);
    }
    Subset(Missing(t0, ys), t.tables.Keys - t0.tables.Keys);
    MadeCount(t0, t);
  }

  lemma OnePage(b: nat)
    ensures Pages(b, 1) == {b}
  {
    assert Pages(b, 0) == {};
  }
}
