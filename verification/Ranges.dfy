/** Ranges of addresses. Table indices drop the high address bits, so everything here is modulo the
    size of the address space. */
module Ranges {
  import opened Blocks
  import opened PageTable

  /** How far `y` lies after `va`, going round the address space. */
  function Off(g: Geometry, va: nat, y: nat): (r: nat)
    requires g.WF()
    ensures r < g.space
  {
    Rem(y - va, g.space)
  }

  lemma OffNear(g: Geometry, va: nat, y: nat)
    requires g.WF() && va <= y < va + g.space
    ensures Off(g, va, y) == y - va
  {
  }

  lemma OffAhead(g: Geometry, va: nat, p: nat, y: nat)
    requires g.WF() && p <= Off(g, va, y)
    ensures Off(g, va + p, y) == Off(g, va, y) - p
  {
    RemPlus(y - va, 0 - p, g.space);
  }

  lemma OffBehind(g: Geometry, va: nat, p: nat, y: nat)
    requires g.WF() && Off(g, va, y) < p <= g.space
    ensures Off(g, va + p, y) == Off(g, va, y) - p + g.space
  {
    RemPlus(y - va, 0 - p, g.space);
  }

  /** Every address is the same as one at its offset from `va`. */
  lemma CanonOff(g: Geometry, va: nat, y: nat)
    requires g.WF()
    ensures g.Canon(va + Off(g, va, y)) == g.Canon(y)
  {
    RemPlus(y - va, va, g.space);
  }

  lemma OffCanon(g: Geometry, a: nat, y: nat)
    requires g.WF()
    ensures Off(g, a, y) ==
      if g.Canon(a) <= g.Canon(y) then g.Canon(y) - g.Canon(a) else g.Canon(y) - g.Canon(a) + g.space
  {
    RemPlus(y, 0 - a, g.space);
    RemMinus(g.Canon(y), a, g.space);
  }

  lemma AlignedBlock(g: Geometry, l: nat, a: nat)
    requires g.WF() && l < g.Lvls() && Rem(a, g.sz[l]) == 0
    ensures g.Block(l, a) == g.Canon(a) && Rem(g.Canon(a), g.sz[l]) == 0
    ensures g.Canon(a) + g.sz[l] <= g.space
  {
    BlockOffset(g, l, a);
    CanonOfMultiple(g, l, a);
  }

  /** The block at an aligned address holds exactly the addresses less than its size ahead. */
  lemma BlockIsOff(g: Geometry, l: nat, a: nat, y: nat)
    requires g.WF() && l < g.Lvls() && Rem(a, g.sz[l]) == 0
    ensures g.Block(l, a) == g.Block(l, y) <==> Off(g, a, y) < g.sz[l]
  {
    hide Rem, Quot;
    AlignedBlock(g, l, a);
    OffCanon(g, a, y);
    var b, c := g.Canon(a), g.Canon(y);
    if b <= c < b + g.sz[l] {
      DownOfBlock(b, c - b, g.sz[l]);
    }
  }

  /** The meaning of an address only depends on its canonical form. */
  lemma Periodic(t: Tree, x: nat, y: nat)
    requires t.Valid() && t.g.Canon(x) == t.g.Canon(y)
    ensures t.Leaf(x) == t.Leaf(y) && t.State(x) == t.State(y)
  {
    var l := t.Leaf(x);
    SameBlockSameEntry(t, l, x, y);
    LeafUnique(t, l, y);
    BlockOffset(t.g, l, x);
    BlockOffset(t.g, l, y);
  }

  /** Addresses of one leaf block share that leaf. */
  lemma SameLeaf(t: Tree, x: nat, y: nat)
    requires t.Valid() && t.SameBlock(t.Leaf(x), x, y)
    ensures t.Leaf(y) == t.Leaf(x)
  {
    SameBlockSameEntry(t, t.Leaf(x), x, y);
    LeafUnique(t, t.Leaf(x), y);
  }

  /** A multiple `r` of `s` below `n` * `s`, moved on by `s`, reaches `n` * `s` only from the last place. */
  lemma LastPlace(r: nat, s: nat, i: nat, n: nat, t: nat)
    requires 0 < s && i < n && i * s == r && n * s == t
    ensures r + s <= t && (i + 1 == n <==> r + s == t)
  {
    assert (i + 1) * s == r + s;
    MulMonotone(i + 1, n, s);
    assert (i + 2) * s == r + s + s;
    MulMonotone(i + 2, n, s);
  }

  /** Where a table ends, told by the entry number. */
  lemma TableEnd(g: Geometry, l: nat, x: nat)
    requires g.WF() && l < g.Lvls() && Down(x, g.sz[l]) == x
    ensures g.Index(l, x) + 1 == g.nent[l] <==> Rem(x + g.sz[l], g.Span(l)) == 0
  {
    hide Quot;
    var s, t := g.sz[l], g.Span(l);
    g.SpanPositive(l);
    IndexInTable(g, l, x);
    var r := Rem(x, t);
    QuotTimes(r, s);
    RemNest(x, t, s);
    assert g.Exact(l);
    LastPlace(r, s, g.Index(l, x), g.nent[l], t);
    RemPlus(x, s, t);
  }
}
