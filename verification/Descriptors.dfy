/** Table descriptors, the geometry they give, and the tree of a new address space
    (src/core/inc/page_table.h, src/arch/aarch64/arch_page_table.c). */
module Descriptors {
  import opened Blocks
  import opened PageTable

  /** struct page_table_dscr: per level, where its index bits begin and where they end. */
  datatype Dscr = Dscr(off: seq<nat>, wdt: seq<nat>, term: seq<bool>)

  /** Each level's index bits end where those of the level above begin; the last ones begin at the page size. */
  ghost predicate Sound(d: Dscr) {
    && 1 <= |d.off| == |d.wdt| == |d.term|
    && d.off[|d.off| - 1] == 12 && d.wdt[0] <= 62
    && (forall l :: 0 <= l < |d.off| ==> d.off[l] <= d.wdt[l])
    && (forall k, l :: 0 <= k && l == k + 1 < |d.off| ==> d.wdt[l] == d.off[k])
  }

  /** pt_lvlsize and pt_nentries for every level. */
  function GeometryOf(d: Dscr): Geometry
    requires 1 <= |d.off| == |d.wdt|
  {
    Geometry(Pow(d.wdt[0]), seq(|d.off|, l requires 0 <= l < |d.off| => Pow(d.off[l])),
             seq(|d.off|, l requires 0 <= l < |d.off| => Quot(Pow(d.wdt[l]), Pow(d.off[l]))), d.term)
  }

  lemma ShiftedPower(w: nat, o: nat)
    requires o <= w
    ensures Pow(o) * Quot(Pow(w), Pow(o)) == Pow(w) && 0 < Quot(Pow(w), Pow(o))
  {
    PowDivides(o, w);
    QuotTimes(Pow(w), Pow(o));
  }

  lemma {:induction false} PowGrows(a: nat, b: nat)
    requires a <= b
    ensures Pow(a) <= Pow(b)
    decreases b
  {
    if a < b {
      PowGrows(a, b - 1);
    }
  }

  lemma PowConstants()
    ensures Pow(12) == PAGE_SIZE && Pow(62) == SPACE_LIMIT && Pow(64) == VA_LIMIT
  {
    assert Pow(8) == 0x100;
    PowSum(8, 4);
    PowSum(8, 8);
    PowSum(16, 16);
    PowSum(32, 16);
    PowSum(48, 14);
  }

  /** A sound descriptor gives tables whose entries cover exactly what the table covers, level by level. */
  lemma SoundGeometry(d: Dscr)
    requires Sound(d)
    ensures GeometryOf(d).WF()
  {
    hide Pow, Quot, Rem;
    var g := GeometryOf(d);
    PowConstants();
    PowGrows(d.wdt[0], 62);
    PowDivides(d.wdt[0], 64);
    forall l: nat | l < |g.sz| ensures 0 < g.sz[l] && 0 < g.nent[l] && g.Exact(l) {
      ShiftedPower(d.wdt[l], d.off[l]);
      assert l > 0 ==> d.wdt[l] == d.off[l - 1];
    }
  }

  /** The four-level descriptor of the AArch64 build. */
  function Armv8(): Dscr {
    Dscr([39, 30, 21, 12], [48, 39, 30, 21], [false, true, true, true])
  }

  lemma Armv8IsSound()
    ensures Sound(Armv8()) && GeometryOf(Armv8()).WF() && GeometryOf(Armv8()).Lvls() == 4
  {
    hide Pow, Quot, GeometryOf;
    SoundGeometry(Armv8());
    LevelsOf(Armv8());
  }

  /** An entry covers 512 GB, 1 GB, 2 MB or a page, by level; the address space has 48 bits. */
  lemma Armv8Sizes()
    ensures GeometryOf(Armv8()).space == 0x1_0000_0000_0000
    ensures GeometryOf(Armv8()).sz == [0x80_0000_0000, 0x4000_0000, 0x20_0000, 0x1000]
  {
    hide Pow, Quot;
    NineBits();
    PowConstants();
    PowSum(12, 9);
    PowSum(21, 9);
    PowSum(30, 9);
    PowSum(39, 9);
  }

  /** Its tables fill one page each, so that one page is what a new table takes. */
  lemma OnePageTables(l: nat)
    requires l < 4
    ensures 8 * GeometryOf(Armv8()).nent[l] == PAGE_SIZE
  {
    hide Pow, Quot;
    var o := Armv8().off[l];
    ShiftedPower(o + 9, o);
    PowSum(o, 9);
    NineBits();
    SameFactor(Pow(o), Quot(Pow(o + 9), Pow(o)), 512);
  }

  lemma NineBits()
    ensures Pow(9) == 512
  {
    assert Pow(8) == 0x100;
  }

  lemma SameFactor(p: nat, a: nat, b: nat)
    requires 0 < p && p * a == p * b
    ensures a == b
  {
    assert p * (a - b) == 0;
  }

  lemma LevelsOf(d: Dscr)
    requires 1 <= |d.off| == |d.wdt|
    ensures GeometryOf(d).Lvls() == |d.off|
  {
  }

  /** The tree of a new address space: a root of zeros. */
  function EmptyTree(g: Geometry): Tree
    requires 1 <= |g.nent|
  {
    Tree(g, map[(0, 0) := seq(g.nent[0], i => Pte(0, 0, 0, 0))])
  }

  lemma EmptyTreeIsFree(g: Geometry, x: nat)
    requires g.WF()
    ensures EmptyTree(g).Valid() && EmptyTree(g).Leaf(x) == 0 && EmptyTree(g).State(x) == Free
  {
    var t := EmptyTree(g);
    assert t.Shape();
    forall l: nat, y: nat | t.Has(l, y) ensures l == 0 && t.E(l, y) == Pte(0, 0, 0, 0) {
    }
    forall l: nat, y: nat | 0 < l < g.Lvls() ensures t.Linked(l, y) {
    }
    assert t.Valid();
    assert t.Has(0, x);
    LeafUnique(t, 0, x);
  }

  lemma EmptyTreeHasNoTables(g: Geometry, l: nat, x: nat)
    requires g.WF()
    ensures EmptyTree(g).Shape()
    ensures EmptyTree(g).Has(l, x) ==> !EmptyTree(g).IsTable(l, EmptyTree(g).E(l, x))
  {
  }

  /**
   * pt_getpteindex and pt_get recover the entry's number and the table from an entry's address by
   * masking, when the table of `n` eight-byte entries is aligned to its size.
   */
  lemma PointerParts(base: nat, idx: nat, n: nat)
    requires idx < n && Rem(base, 8 * n) == 0
    ensures Quot(Rem(base + 8 * idx, 8 * n), 8) == idx && Down(base + 8 * idx, 8 * n) == base
  {
    DownOfBlock(base, 8 * idx, 8 * n);
    QuotIsDivision(8 * idx, 8);
  }
}
