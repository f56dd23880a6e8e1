/** The physical page allocator (src/core/mem.c, pp_alloc). */
module PagePools {
  import opened Blocks
  import opened Bitmap
  import opened Options
  import opened PageSearch
  import PageTable

  const PAGE_SIZE := PageTable.PAGE_SIZE

  /** The alignment test on bit numbers is alignment of the page number. */
  lemma AlignedPage(bit: nat, page: nat, n: nat)
    requires n > 0
    ensures (bit + page % n) % n == (page + bit) % n
  {
    RemIsModulo(page, n);
    RemIsModulo(page + bit, n);
    RemIsModulo(Rem(page, n) + bit, n);
    RemPlus(page, bit, n);
  }

  datatype Outcome = Pages(base: nat, nrPages: nat) | Nothing | NoFreePages | SearchFails

  class PagePool {
    const base: nat
    const nrPages: nat
    const bitmap: array<Word>
    var free: nat
    var last: nat
    // The allocations handed out so far, as a first bit and a number of pages.
    ghost var live: seq<(nat, nat)>

    /** The counter of free pages agrees with the bitmap, and no page belongs to two allocations. */
    ghost predicate Valid()
      reads this, bitmap
    {
      && base % PAGE_SIZE == 0
      && nrPages % LEN == 0 && nrPages + LEN <= LEN * bitmap.Length < NOT_FOUND
      && free == Count(bitmap[..], 0, nrPages, false)
      && (forall a :: a in live ==> a.1 > 0 && Same(bitmap[..], a.0, a.0 + a.1, true))
      && (forall i, j :: 0 <= i < j < |live| ==> Disjoint(live[i], live[j]))
    }

    static ghost predicate Disjoint(a: (nat, nat), b: (nat, nat)) {
      a.0 + a.1 <= b.0 || b.0 + b.1 <= a.0
    }

    constructor (base: nat, nrPages: nat, bitmap: array<Word>)
      requires base % PAGE_SIZE == 0 && nrPages % LEN == 0 && nrPages + LEN <= LEN * bitmap.Length < NOT_FOUND
      requires Same(bitmap[..], 0, nrPages, false)
      ensures Valid() && this.base == base && this.nrPages == nrPages && this.bitmap == bitmap
      ensures free == nrPages && last == 0 && live == []
    {
      this.base, this.nrPages, this.bitmap := base, nrPages, bitmap;
      free, last, live := nrPages, 0, [];
      CountAll(bitmap[..], nrPages);
    }

    /** Where the search begins. */
    function Begin(n: nat, aligned: bool): (c: nat)
      requires n > 0
      reads this
      ensures last <= c < last + n
    {
      last + (last + Start(n, aligned)) % n
    }

    function Start(n: nat, aligned: bool): nat
      requires n > 0
    {
      if aligned then base / PAGE_SIZE % n else 0
    }

    /** The pages from `j` on can serve the request. */
    ghost predicate Usable(words: seq<Word>, j: nat, n: nat, aligned: bool)
      requires n > 0
    {
      RunAt(words, nrPages, j, n, false) && (aligned ==> Excess(j, n, Start(n, aligned)) == 0)
    }

    /** All pages from `c` on are free and enough for `k` retries; `odd` is the odd part of `n`. */
    ghost predicate TailFits(words: seq<Word>, c: nat, n: nat, k: nat, odd: nat) {
      n == Pow(k) * odd && odd % 2 == 1 && Same(words, c, nrPages, false) && c + (k + 1) * n <= nrPages
    }

    method PpAlloc(n: nat, aligned: bool) returns (r: Outcome, ghost bit: nat)
      requires Valid()
      modifies `free, `last, `live, bitmap
      ensures Valid()
      ensures r.Nothing? <==> n == 0
      ensures r.NoFreePages? <==> n > 0 && old(free) == 0
      ensures n > 0 && old(free) > 0 ==>
        var found := Search(old(bitmap[..]), nrPages, old(Begin(n, aligned)), n, Start(n, aligned), aligned);
        if found.None? then r == SearchFails else r == Pages(base + bit * PAGE_SIZE, n) && found == Some(bit)
      ensures n > 0 && old(free) > 0 && (!aligned || n <= 2) ==>
        && (r.Pages? <==> exists j :: old(Begin(n, aligned)) <= j && Usable(old(bitmap[..]), j, n, aligned))
        && (r.Pages? ==> forall j :: old(Begin(n, aligned)) <= j < bit ==> !Usable(old(bitmap[..]), j, n, aligned))
      ensures n > 0 && old(free) > 0 && (!aligned || n <= 2) ==>
        (exists j :: old(last) + n - 1 <= j && Usable(old(bitmap[..]), j, n, aligned)) ==> r.Pages?
      ensures n > 0 && old(free) > 0 && (aligned || old(last) % n == 0) && Usable(old(bitmap[..]), old(last), n, aligned) ==>
        r.Pages? && bit == old(last)
      ensures r.Pages? ==> old(last) <= bit
      ensures n > 0 && old(free) > 0 && aligned ==> forall k: nat, odd: nat ::
        TailFits(old(bitmap[..]), old(Begin(n, aligned)), n, k, odd) ==>
          (r.Pages? <==> Excess(old(Begin(n, aligned)), n, Start(n, aligned)) % odd == 0)
      ensures !r.Pages? ==> bitmap[..] == old(bitmap[..]) && free == old(free) && last == old(last) && live == old(live)
      ensures r.Pages? ==>
        && free == old(free) - n && last == bit + n <= nrPages && live == old(live) + [(bit, n)]
        && Same(old(bitmap[..]), bit, bit + n, false)
        && (forall i :: 0 <= i < LEN * bitmap.Length ==>
              Get(bitmap[..], i) == (bit <= i < bit + n || old(Get(bitmap[..], i))))
        && (aligned ==> r.base / PAGE_SIZE % n == 0)
    {
      hide Search, Same, Count, Get, TailFits, Excess, Usable, RunAt;
      bit := 0;
      if n == 0 {
        return Nothing, 0;
      }
      var start := if aligned then base / PAGE_SIZE % n else 0;
      var curr := last + (last + start) % n;
      assert curr == Begin(n, aligned) <= last + n - 1;
      if free == 0 {
        return NoFreePages, 0;
      }
      var at := FindPages(curr, n, start, aligned);
      if !aligned || n <= 2 {
        FindsUsable(bitmap[..], curr, n, aligned);
      }
      if aligned {
        TailOutcome(bitmap[..], curr, n);
      }
      if Usable(bitmap[..], last, n, aligned) {
        UsableAtOnce(bitmap[..], last, n, aligned);
      }
      if at == NOT_FOUND {
        return SearchFails, 0;
      }
      if aligned {
        AlignedBase(base, at, n);
      }
      Hand(at, n);
      return Pages(base + at * PAGE_SIZE, n), at;
    }

    lemma FindsUsable(words: seq<Word>, c: nat, n: nat, aligned: bool)
      requires n > 0 && (aligned ==> n <= 2)
      ensures var r := Search(words, nrPages, c, n, Start(n, aligned), aligned);
              && (r.Some? <==> exists j :: c <= j && Usable(words, j, n, aligned))
              && (r.Some? ==> forall j :: c <= j < r.value ==> !Usable(words, j, n, aligned))
    {
      hide RunAt, Excess, Search;
      if aligned {
        SmallAlignedSearch(words, nrPages, c, n, Start(n, true));
        assert forall j :: Usable(words, j, n, true) <==> AlignedRun(words, nrPages, j, n, Start(n, true));
      } else {
        PlainSearch(words, nrPages, c, n, 0);
        assert forall j :: Usable(words, j, n, false) <==> RunAt(words, nrPages, j, n, false);
      }
    }

    /** A place that can serve the request is taken at once if the search begins there. */
    lemma UsableAtOnce(words: seq<Word>, c: nat, n: nat, aligned: bool)
      requires n > 0 && Usable(words, c, n, aligned)
      ensures Search(words, nrPages, c, n, Start(n, aligned), aligned) == Some(c)
      ensures aligned ==> (c + Start(n, aligned)) % n == 0
    {
      RunFits(words, nrPages, c, n);
    }

    lemma TailOutcome(words: seq<Word>, c: nat, n: nat)
      requires n > 0
      ensures forall k: nat, odd: nat :: TailFits(words, c, n, k, odd) ==>
        (Search(words, nrPages, c, n, Start(n, true), true).Some? <==> Excess(c, n, Start(n, true)) % odd == 0)
    {
      forall k: nat, odd: nat | TailFits(words, c, n, k, odd)
        ensures Search(words, nrPages, c, n, Start(n, true), true).Some? <==> Excess(c, n, Start(n, true)) % odd == 0
      {
        FreeTailExactlyWhen(words, nrPages, c, n, Start(n, true), k, odd);
      }
    }

    /** The retries of an aligned request: each one starts strictly further on. */
    method FindPages(begin: nat, n: nat, start: nat, aligned: bool) returns (at: nat)
      requires Valid() && n > 0
      ensures at == NOT_FOUND ==> Search(bitmap[..], nrPages, begin, n, start, aligned) == None
      ensures at != NOT_FOUND ==> begin <= at
      ensures at != NOT_FOUND ==>
        && Search(bitmap[..], nrPages, begin, n, start, aligned) == Some(at)
        && at + n <= nrPages && Same(bitmap[..], at, at + n, false) && (aligned ==> Excess(at, n, start) == 0)
    {
      hide Search, Same, IsFirstRun;
      ghost var words := bitmap[..];
      var curr := begin;
      while true
        invariant Search(words, nrPages, curr, n, start, aligned) == Search(words, nrPages, begin, n, start, aligned)
        invariant begin <= curr
        decreases nrPages - curr
      {
        at := FindConsec(bitmap, nrPages, curr, n, false);
        SearchStep(words, nrPages, curr, n, start, aligned, at);
        if at == NOT_FOUND || !aligned || (at + start) % n == 0 {
          return;
        }
        curr := at + (at + start) % n;
      }
    }

    /** Marks the pages as allocated. */
    method Hand(bit: nat, n: nat)
      requires Valid() && n > 0 && bit + n <= nrPages && Same(bitmap[..], bit, bit + n, false)
      modifies `free, `last, `live, bitmap
      ensures Valid()
      ensures free == old(free) - n && last == bit + n && live == old(live) + [(bit, n)]
      ensures forall i :: 0 <= i < LEN * bitmap.Length ==>
        Get(bitmap[..], i) == (bit <= i < bit + n || old(Get(bitmap[..], i)))
    {
      ghost var before := bitmap[..];
      SetConsecutive(bitmap, bit, n);
      CountDrops(before, bitmap[..], bit, n, nrPages);
      free := free - n;
      last := bit + n;
      forall a | a in live ensures Same(bitmap[..], a.0, a.0 + a.1, true) && Disjoint(a, (bit, n)) {
        Apart(before, a, (bit, n));
      }
      live := live + [(bit, n)];
    }
  }

  /**
   * A new pool hands out one page and is then asked for three aligned ones. They are all there, but
   * they are found only if the first of the pages still free is aligned.
   */
  method OneThenThree(pool: PagePool) returns (r: Outcome)
    requires pool.Valid() && pool.last == 0 && pool.free == pool.nrPages >= 64
    requires Same(pool.bitmap[..], 0, pool.nrPages, false)
    modifies pool`free, pool`last, pool`live, pool.bitmap
    ensures if (pool.base / PAGE_SIZE + 1) % 3 == 0 then r.Pages? else r == SearchFails && pool.free == pool.nrPages - 1
  {
    hide Search, Same, Excess, Get;
    ghost var before, bit := pool.bitmap[..], 0;
    FirstPageFree(before, pool.nrPages);
    assert pool.Begin(1, false) == 0 && pool.Usable(before, 0, 1, false);
    r, bit := pool.PpAlloc(1, false);
    assert bit == 0;
    ghost var start := pool.base / PAGE_SIZE % 3;
    ghost var c := 1 + (1 + start) % 3;
    RestFree(before, pool.bitmap[..], pool.nrPages, c);
    assert Pow(0) == 1;
    assert pool.TailFits(pool.bitmap[..], c, 3, 0, 3);
    TwiceModuloThree(start, pool.base / PAGE_SIZE);
    r, bit := pool.PpAlloc(3, true);
  }

  lemma FirstPageFree(words: seq<Word>, size: nat)
    requires size > 0 && Same(words, 0, size, false)
    ensures RunAt(words, size, 0, 1, false)
  {
  }

  lemma RestFree(a: seq<Word>, b: seq<Word>, size: nat, c: nat)
    requires |a| == |b| && Same(a, 0, size, false) && c > 0
    requires forall i :: 0 <= i < LEN * |a| ==> Get(b, i) == (0 <= i < 1 || Get(a, i))
    ensures Same(b, c, size, false)
  {
    hide Get;
  }

  lemma TwiceModuloThree(start: nat, page: nat)
    requires start == page % 3
    ensures Excess(1 + (1 + start) % 3, 3, start) % 3 == 0 <==> (page + 1) % 3 == 0
  {
  }

  /** One round of the search, with the run that FindConsec returned. */
  lemma SearchStep(words: seq<Word>, size: nat, c: nat, n: nat, start: nat, aligned: bool, r: nat)
    requires n > 0 && size < NOT_FOUND && IsFirstRun(words, size, c, n, false, r)
    ensures r != NOT_FOUND ==> c <= r && r + n <= size && Same(words, r, r + n, false)
    ensures Search(words, size, c, n, start, aligned) ==
      if r == NOT_FOUND then None
      else if aligned && Excess(r, n, start) != 0 then Search(words, size, r + Excess(r, n, start), n, start, aligned)
      else Some(r)
  {
    assert FirstRun(words, size, c, n) == if r == NOT_FOUND then None else Some(r);
  }

  lemma AlignedBase(base: nat, bit: nat, n: nat)
    requires n > 0 && base % PAGE_SIZE == 0 && Excess(bit, n, base / PAGE_SIZE % n) == 0
    ensures (base + bit * PAGE_SIZE) / PAGE_SIZE % n == 0
  {
    AlignedPage(bit, base / PAGE_SIZE, n);
    assert (base + bit * PAGE_SIZE) / PAGE_SIZE == base / PAGE_SIZE + bit;
  }

  /** A range of set bits and a range of clear bits have no bit in common. */
  lemma Apart(words: seq<Word>, a: (nat, nat), b: (nat, nat))
    requires Same(words, a.0, a.0 + a.1, true) && Same(words, b.0, b.0 + b.1, false) && a.1 > 0 && b.1 > 0
    ensures PagePool.Disjoint(a, b)
  {
    hide Same;
    if !PagePool.Disjoint(a, b) {
      var i := if a.0 < b.0 then b.0 else a.0;
      SameAt(words, a.0, a.0 + a.1, true, i);
      SameAt(words, b.0, b.0 + b.1, false, i);
    }
  }

  lemma SameAt(words: seq<Word>, from: nat, end: nat, b: bool, i: nat)
    requires Same(words, from, end, b) && from <= i < end
    ensures i < LEN * |words| && Get(words, i) == b
  {
  }

  lemma {:induction false} CountAll(words: seq<Word>, end: nat)
    requires Same(words, 0, end, false)
    ensures Count(words, 0, end, false) == end
  {
    if end > 0 {
      CountAll(words, end - 1);
    }
  }

  lemma {:induction false} CountDrops(a: seq<Word>, b: seq<Word>, bit: nat, n: nat, end: nat)
    requires end <= LEN * |a| && |a| == |b| && Same(a, bit, bit + n, false)
    requires forall i :: 0 <= i < LEN * |a| ==> Get(b, i) == (bit <= i < bit + n || Get(a, i))
    ensures Count(b, 0, end, false)
         == Count(a, 0, end, false) - if end <= bit then 0 else if end < bit + n then end - bit else n
    decreases end
  {
    if end > 0 {
      CountDrops(a, b, bit, n, end - 1);
    }
  }
}
