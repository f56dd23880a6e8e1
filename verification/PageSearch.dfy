/** Where the physical page allocator ends up, with and without alignment (src/core/mem.c, pp_alloc). */
module PageSearch {
  import opened Blocks
  import opened Bitmap
  import opened Options

  /** How many pages the place is past an aligned one; `start` is what the first page of the pool is past one. */
  function Excess(j: nat, n: nat, start: nat): (r: nat)
    requires n > 0
    ensures r < n
  {
    (j + start) % n
  }

  /** The first run of `n` free pages at or after `c`. */
  ghost function FirstRun(words: seq<Word>, size: nat, c: nat, n: nat): (r: Option<nat>)
    requires n > 0
    ensures r.Some? ==> c <= r.value && RunAt(words, size, r.value, n, false)
    ensures forall j :: c <= j && (r.Some? ==> j < r.value) ==> !RunAt(words, size, j, n, false)
    decreases size - c
  {
    if c >= size then None
    else if RunAt(words, size, c, n, false) then Some(c)
    else FirstRun(words, size, c + 1, n)
  }

  /** The place the allocator settles on: a run that is not aligned sends it on past the run's start. */
  ghost function Search(words: seq<Word>, size: nat, c: nat, n: nat, start: nat, aligned: bool): (r: Option<nat>)
    requires n > 0
    decreases size - c
  {
    var run := FirstRun(words, size, c, n);
    if run.None? then None
    else if aligned && Excess(run.value, n, start) != 0 then
      Search(words, size, run.value + Excess(run.value, n, start), n, start, aligned)
    else run
  }

  /** What is found is free, lies at or after the starting point and is aligned when that was asked for. */
  lemma {:induction false} SearchFinds(words: seq<Word>, size: nat, c: nat, n: nat, start: nat, aligned: bool)
    requires n > 0 && Search(words, size, c, n, start, aligned).Some?
    ensures var r := Search(words, size, c, n, start, aligned).value;
            c <= r && RunAt(words, size, r, n, false) && (aligned ==> Excess(r, n, start) == 0)
    decreases size - c
  {
    var run := FirstRun(words, size, c, n);
    if aligned && Excess(run.value, n, start) != 0 {
      SearchFinds(words, size, run.value + Excess(run.value, n, start), n, start, aligned);
    }
  }

  /** Without alignment a place is found exactly when there is one at or after the starting point, and it is the first. */
  lemma PlainSearch(words: seq<Word>, size: nat, c: nat, n: nat, start: nat)
    requires n > 0
    ensures var r := Search(words, size, c, n, start, false);
            && (r.Some? <==> exists j :: c <= j && RunAt(words, size, j, n, false))
            && (r.Some? ==> forall j :: c <= j < r.value ==> !RunAt(words, size, j, n, false))
  {
  }

  // ------------------------------------------------------------------ alignment

  /** A free run that starts at a place an aligned request can use. */
  ghost predicate AlignedRun(words: seq<Word>, size: nat, j: nat, n: nat, start: nat)
    requires n > 0
  {
    RunAt(words, size, j, n, false) && Excess(j, n, start) == 0
  }

  /** The aligned search succeeds exactly when it could, and with the first place there is. */
  ghost predicate FindsAligned(words: seq<Word>, size: nat, c: nat, n: nat, start: nat)
    requires n > 0
  {
    var r := Search(words, size, c, n, start, true);
    && (r.Some? <==> exists j :: c <= j && AlignedRun(words, size, j, n, start))
    && (r.Some? ==> forall j :: c <= j < r.value ==> !AlignedRun(words, size, j, n, start))
  }

  /** One and two pages at a time, nothing is missed: the retry goes on at the very next page. */
  lemma {:induction false} SmallAlignedSearch(words: seq<Word>, size: nat, c: nat, n: nat, start: nat)
    requires 0 < n <= 2
    ensures FindsAligned(words, size, c, n, start)
    decreases size - c
  {
    hide RunAt, Excess;
    var run := FirstRun(words, size, c, n);
    if run.Some? && Excess(run.value, n, start) != 0 {
      RunFits(words, size, run.value, n);
      SmallAlignedSearch(words, size, run.value + 1, n, start);
      assert Search(words, size, c, n, start, true) == Search(words, size, run.value + 1, n, start, true);
      assert forall j :: c <= j && AlignedRun(words, size, j, n, start) ==> run.value + 1 <= j;
    } else if run.Some? {
      assert AlignedRun(words, size, run.value, n, start);
    }
  }

  lemma RunFits(words: seq<Word>, size: nat, j: nat, n: nat)
    requires RunAt(words, size, j, n, false)
    ensures j + n <= size
  {
  }

  /** The excess grows by one from place to place, from n - 1 to 0. */
  lemma ExcessAt(bit: nat, n: nat, start: nat, d: nat)
    requires n > 0 && d < n
    ensures var e := Excess(bit, n, start) + d;
            Excess(bit + d, n, start) == if e < n then e else e - n
  {
    var e, q := Excess(bit, n, start) + d, (bit + start) / n;
    if e < n {
      DivisionUnique(bit + d + start, n, q, e);
    } else {
      DivisionUnique(bit + d + start, n, q + 1, e - n);
    }
  }

  /**
   * Where a retry goes. A run that is `Excess` pages past an aligned place sends the search as many
   * pages on. It passes the next aligned place if and only if the excess is more than half of `n`.
   */
  lemma RetryPassesAligned(bit: nat, n: nat, start: nat)
    requires n > 0 && Excess(bit, n, start) != 0
    ensures var res := Excess(bit, n, start);
            (exists j :: bit <= j < bit + res && Excess(j, n, start) == 0) <==> 2 * res > n
  {
    var res := Excess(bit, n, start);
    hide Excess;
    forall j | bit <= j < bit + res && Excess(j, n, start) == 0 ensures 2 * res > n {
      ExcessAt(bit, n, start, j - bit);
    }
    ExcessAt(bit, n, start, n - res);
    if 2 * res > n {
      assert Excess(bit + n - res, n, start) == 0;
    }
  }

  /** All pages are taken except those from `n - 1` to `2 * n`. */
  function OneHole(n: nat): seq<Word> {
    seq(n / 16 + 2, w requires 0 <= w => HoleWord(n, w))
  }

  function HoleSize(n: nat): nat {
    LEN * (n / 16 + 1)
  }

  function HoleWord(n: nat, w: nat): Word {
    seq(LEN, b => !(n - 1 <= w * LEN + b < 2 * n))
  }

  lemma HoleBits(n: nat, i: nat)
    requires n > 0
    ensures LEN * |OneHole(n)| == HoleSize(n) + LEN && 2 * n <= HoleSize(n)
    ensures i < LEN * |OneHole(n)| ==> Get(OneHole(n), i) == !(n - 1 <= i < 2 * n)
  {
    assert i == i / LEN * LEN + i % LEN;
  }

  lemma HoleRun(n: nat, j: nat)
    requires n >= 3
    ensures RunAt(OneHole(n), HoleSize(n), j, n, false) <==> n - 1 <= j <= n
  {
    hide OneHole, Get;
    HoleBits(n, j);
    if n - 1 <= j <= n {
      forall i | j <= i < j + n ensures Get(OneHole(n), i) == false {
        HoleBits(n, i);
      }
    } else if j + n <= HoleSize(n) {
      HoleBits(n, if j < n - 1 then j else j + n - 1);
    }
  }

  /** For three pages or more the search can jump over the only run there is. */
  lemma OneHoleIsMissed(n: nat)
    requires n >= 3
    ensures AlignedRun(OneHole(n), HoleSize(n), n, n, 0)
    ensures Search(OneHole(n), HoleSize(n), 0, n, 0, true).None?
  {
    hide OneHole, HoleSize, RunAt;
    HoleRun(n, n - 1);
    forall j: nat ensures RunAt(OneHole(n), HoleSize(n), j, n, false) <==> n - 1 <= j <= n {
      HoleRun(n, j);
    }
    assert FirstRun(OneHole(n), HoleSize(n), 0, n) == Some(n - 1);
    assert FirstRun(OneHole(n), HoleSize(n), 2 * n - 2, n) == None;
    DivisionUnique(n, n, 1, 0);
    DivisionUnique(n - 1, n, 0, n - 1);
  }

  /** A bitmap of whole words with one word more, and a residue. */
  predicate Fits(words: seq<Word>, size: nat, n: nat, start: nat) {
    size % LEN == 0 && size + LEN <= LEN * |words| && start < n
  }

  /** In every bitmap and from every starting point, an aligned request finds an aligned run whenever there is one. */
  ghost predicate NeverMisses(n: nat)
    requires n > 0
  {
    forall words, size, c, start :: Fits(words, size, n, start) ==> FindsAligned(words, size, c, n, start)
  }

  lemma MissesOneHole(n: nat)
    requires n >= 3
    ensures Fits(OneHole(n), HoleSize(n), n, 0) && !FindsAligned(OneHole(n), HoleSize(n), 0, n, 0)
  {
    hide OneHole, HoleSize, Search, AlignedRun, Excess, Fits;
    OneHoleIsMissed(n);
    HoleFits(n);
    assert 0 <= n && AlignedRun(OneHole(n), HoleSize(n), n, n, 0);
  }

  lemma HoleFits(n: nat)
    requires 0 < n
    ensures Fits(OneHole(n), HoleSize(n), n, 0)
  {
    hide OneHole;
    HoleBits(n, 0);
  }

  /** Exactly when that is so: for one or two pages. */
  lemma AlignedSearchExactlyWhen(n: nat)
    requires n > 0
    ensures NeverMisses(n) <==> n <= 2
  {
    hide FindsAligned, Fits, OneHole, HoleSize;
    if n <= 2 {
      forall words, size, c, start | Fits(words, size, n, start) ensures FindsAligned(words, size, c, n, start) {
        SmallAlignedSearch(words, size, c, n, start);
      }
    } else {
      MissesOneHole(n);
    }
  }

  // ------------------------------------------------------------------ an entirely free tail

  ghost predicate Multiple(x: nat, d: nat) {
    exists q: nat :: x == q * d
  }

  lemma MultipleIsModulo(x: nat, d: nat)
    requires d > 0
    ensures Multiple(x, d) <==> x % d == 0
  {
    if Multiple(x, d) {
      var q: nat :| x == q * d;
      DivisionUnique(x, d, q, 0);
    }
    if x % d == 0 {
      assert x == x / d * d;
    }
  }

  /** With all pages from `c` on free, the run found is the one at `c`. */
  lemma FreeTailRun(words: seq<Word>, size: nat, c: nat, n: nat)
    requires n > 0 && Same(words, c, size, false)
    ensures FirstRun(words, size, c, n) == if c + n <= size then Some(c) else None
  {
    hide Get;
    if c + n <= size {
      assert RunAt(words, size, c, n, false);
    }
  }

  /** An odd number that divides twice a number divides it. */
  lemma OddDivides(odd: nat, e: nat)
    requires odd % 2 == 1 && Multiple(2 * e, odd)
    ensures Multiple(e, odd)
  {
    var q: nat :| 2 * e == q * odd;
    var h := odd / 2;
    assert 2 * e == 2 * (q * h) + q;
    assert e == (q / 2) * odd by {
      assert q == 2 * (q / 2) && 2 * e == 2 * ((q / 2) * odd);
    }
  }

  lemma PlusMultiple(x: nat, m: nat, d: nat)
    requires Multiple(x, d)
    ensures Multiple(x + m * d, d)
  {
    var q: nat :| x == q * d;
    assert x + m * d == (q + m) * d;
  }

  lemma MinusMultiple(x: nat, m: nat, d: nat)
    requires Multiple(x, d) && m * d <= x && d > 0
    ensures Multiple(x - m * d, d)
  {
    var q: nat :| x == q * d;
    assert x - m * d == (q - m) * d;
    assert q >= m;
  }

  /** The excess doubles with every retry, modulo `n`; an odd divisor of `n` divides all of them or none. */
  lemma DoubledExcess(c: nat, n: nat, start: nat, m: nat, odd: nat)
    requires n > 0 && n == m * odd && odd % 2 == 1
    requires Multiple(Excess(c + Excess(c, n, start), n, start), odd)
    ensures Multiple(Excess(c, n, start), odd)
  {
    var e := Excess(c, n, start);
    ExcessAt(c, n, start, e);
    hide Excess, Multiple;
    if 2 * e >= n {
      PlusMultiple(2 * e - n, m, odd);
    }
    OddDivides(odd, e);
  }

  lemma {:induction false} TailMissed(words: seq<Word>, size: nat, c: nat, n: nat, start: nat, m: nat, odd: nat)
    requires n > 0 && n == m * odd && odd % 2 == 1 && Same(words, c, size, false)
    requires !Multiple(Excess(c, n, start), odd)
    ensures Search(words, size, c, n, start, true).None?
    decreases size - c
  {
    FreeTailRun(words, size, c, n);
    if c + n <= size {
      var e := Excess(c, n, start);
      assert e != 0 by {
        assert 0 == 0 * odd;
      }
      hide Excess, Multiple, Get, FirstRun;
      if Multiple(Excess(c + e, n, start), odd) {
        DoubledExcess(c, n, start, m, odd);
      }
      TailMissed(words, size, c + e, n, start, m, odd);
    }
  }

  /** After `k` retries at most the excess is 0, when its product with the k-th power of two is a multiple of `n`. */
  lemma {:induction false} TailFound(words: seq<Word>, size: nat, c: nat, n: nat, start: nat, k: nat)
    requires n > 0 && Same(words, c, size, false) && c + (k + 1) * n <= size
    requires Multiple(Excess(c, n, start) * Pow(k), n)
    ensures Search(words, size, c, n, start, true).Some?
    decreases k
  {
    FreeTailRun(words, size, c, n);
    var e := Excess(c, n, start);
    assert (k + 1) * n == k * n + n >= n;
    if e != 0 {
      ExcessAt(c, n, start, e);
      hide Excess, Get, FirstRun, Multiple;
      DoubledMultiple(e, n, k);
      TailFound(words, size, c + e, n, start, k - 1);
    }
  }

  lemma DoubledMultiple(e: nat, n: nat, k: nat)
    requires 0 < e < n && Multiple(e * Pow(k), n)
    ensures k > 0 && Multiple((if 2 * e < n then 2 * e else 2 * e - n) * Pow(k - 1), n)
  {
    if k == 0 {
      var q: nat :| e == q * n;
      assert q >= 1;
      MulMonotone(1, q, n);
    } else {
      var p := Pow(k - 1);
      assert e * Pow(k) == (2 * e) * p;
      hide Multiple, Pow;
      if 2 * e >= n {
        assert (2 * e) * p - p * n == (2 * e - n) * p;
        MulMonotone(n, 2 * e, p);
        MinusMultiple((2 * e) * p, p, n);
      }
    }
  }

  lemma MultipleScaled(e: nat, odd: nat, p: nat)
    requires Multiple(e, odd)
    ensures Multiple(e * p, p * odd)
  {
    var q: nat :| e == q * odd;
    assert e * p == q * (p * odd);
  }

  /**
   * Exactly when an aligned request finds its pages in an entirely free tail that is long enough for
   * its retries: when the odd part of the number of pages divides the excess of the starting point.
   */
  lemma FreeTailExactlyWhen(words: seq<Word>, size: nat, c: nat, n: nat, start: nat, k: nat, odd: nat)
    requires n == Pow(k) * odd && odd % 2 == 1 && n > 0
    requires Same(words, c, size, false) && c + (k + 1) * n <= size
    ensures Search(words, size, c, n, start, true).Some? <==> Excess(c, n, start) % odd == 0
  {
    var e := Excess(c, n, start);
    hide Excess, Search, Pow, Multiple, Same;
    MultipleIsModulo(e, odd);
    if Multiple(e, odd) {
      MultipleScaled(e, odd, Pow(k));
      TailFound(words, size, c, n, start, k);
    } else {
      TailMissed(words, size, c, n, start, Pow(k), odd);
    }
  }
}
