/** Remainders, block starts and block numbers, for block sizes that are parameters.

    The source computes these with masks and shifts on powers of two. They are defined here by
    repeated subtraction, so that every fact about them is linear; RemIsModulo and QuotIsDivision
    say that they are the usual operations. */
module Blocks {

  function Rem(x: int, m: nat): (r: nat)
    requires 0 < m
    ensures r < m
    decreases if x < 0 then m - x else x
  {
    if x < 0 then Rem(x + m, m) else if x < m then x else Rem(x - m, m)
  }

  function Quot(x: nat, m: nat): nat
    requires 0 < m
  {
    if x < m then 0 else 1 + Quot(x - m, m)
  }

  /** The start of the block of size `s` that holds `x`: the source's `x & ~(s - 1)`. */
  function Down(x: nat, s: nat): (b: nat)
    requires 0 < s
    ensures b <= x < b + s
  {
    RemAtMost(x, s);
    x - Rem(x, s)
  }

  lemma {:induction false} RemAtMost(x: nat, m: nat)
    requires 0 < m
    ensures Rem(x, m) <= x
  {
    if m <= x {
      RemAtMost(x - m, m);
    }
  }

  lemma {:induction false} RemIsModulo(x: int, m: nat)
    requires 0 < m
    ensures Rem(x, m) == x % m
    decreases if x < 0 then m - x else x
  {
    if x < 0 {
      RemIsModulo(x + m, m);
      ModuloShift(x, m);
    } else if x < m {
      assert x % m == x;
    } else {
      RemIsModulo(x - m, m);
      ModuloShift(x - m, m);
    }
  }

  lemma ModuloShift(x: int, m: nat)
    requires 0 < m
    ensures (x + m) % m == x % m
  {
    var q := x / m;
    assert x == q * m + x % m;
    assert x + m == (q + 1) * m + x % m;
    ModuloUnique(x + m, m, q + 1, x % m);
  }

  lemma MulMonotone(a: int, b: int, m: nat)
    ensures a <= b ==> a * m <= b * m
  {
  }

  lemma ModuloUnique(x: int, m: nat, q: int, r: nat)
    requires 0 < m && r < m && x == q * m + r
    ensures x % m == r
  {
    var d := x / m - q;
    assert d * m == r - x % m by {
      assert x == (x / m) * m + x % m;
    }
    MulMonotone(1, d, m);
    MulMonotone(d, -1, m);
  }

  lemma DivisionUnique(x: int, m: nat, q: int, r: nat)
    requires 0 < m && r < m && x == q * m + r
    ensures x / m == q
  {
    var d := x / m;
    assert x == d * m + x % m;
    MulMonotone(d + 1, q, m);
    MulMonotone(q + 1, d, m);
  }

  lemma QuotIsDivision(x: nat, m: nat)
    requires 0 < m
    ensures Quot(x, m) == x / m
  {
    hide Quot, Rem;
    QuotTimes(x, m);
    DivisionUnique(x, m, Quot(x, m), Rem(x, m));
  }

  lemma {:induction false} RemShift(x: int, m: nat)
    requires 0 < m
    ensures Rem(x + m, m) == Rem(x, m)
  {
  }

  /** Adding a multiple of `m` leaves the remainder as it was. */
  lemma {:induction false} RemAddMultiple(x: int, k: nat, m: nat)
    requires 0 < m && Rem(k, m) == 0
    ensures Rem(x + k, m) == Rem(x, m)
    decreases k
  {
    if m <= k {
      RemAddMultiple(x, k - m, m);
      RemShift(x + k - m, m);
    }
  }

  lemma RemSubMultiple(x: int, k: nat, m: nat)
    requires 0 < m && Rem(k, m) == 0
    ensures Rem(x - k, m) == Rem(x, m)
  {
    RemAddMultiple(x - k, k, m);
  }

  /** If `s` divides `t`, the remainder by `t` decides the remainder by `s`. */
  lemma {:induction false} RemNest(x: int, t: nat, s: nat)
    requires 0 < s && 0 < t && Rem(t, s) == 0
    ensures Rem(Rem(x, t), s) == Rem(x, s)
    decreases if x < 0 then t - x else x
  {
    if x < 0 {
      RemNest(x + t, t, s);
      RemAddMultiple(x, t, s);
    } else if t <= x {
      RemNest(x - t, t, s);
      RemSubMultiple(x, t, s);
    }
  }

  lemma DownIsMultiple(x: nat, s: nat)
    requires 0 < s
    ensures Rem(Down(x, s), s) == 0
  {
    DownIsMultipleByInduction(x, s);
  }

  lemma {:induction false} DownIsMultipleByInduction(x: nat, s: nat)
    requires 0 < s
    ensures Rem(x - Rem(x, s), s) == 0
  {
    RemAtMost(x, s);
    if s <= x {
      DownIsMultipleByInduction(x - s, s);
      RemAtMost(x - s, s);
      RemShift(x - s - Rem(x - s, s), s);
    }
  }

  /** An address `d` into the block at `b` lies in that block and at that offset. */
  lemma DownOfBlock(b: nat, d: nat, s: nat)
    requires 0 < s && Rem(b, s) == 0 && d < s
    ensures Rem(b + d, s) == d && Down(b + d, s) == b
  {
    RemAddMultiple(d, b, s);
  }

  /** Distinct multiples of `s` are at least `s` apart. */
  lemma MultipleGap(a: nat, b: nat, s: nat)
    requires 0 < s && Rem(a, s) == 0 && Rem(b, s) == 0 && a < b
    ensures a + s <= b
  {
    RemSubMultiple(b, a, s);
  }

  lemma {:induction false} QuotShift(x: nat, k: nat, s: nat)
    requires 0 < s
    ensures Quot(x + s * k, s) == Quot(x, s) + k
    decreases k
  {
    if 0 < k {
      QuotShift(x, k - 1, s);
      assert s * k == s * (k - 1) + s;
    }
  }

  /** Block numbers count blocks: the block start is the number times the size. */
  lemma {:induction false} QuotTimes(x: nat, s: nat)
    requires 0 < s
    ensures Quot(x, s) * s == Down(x, s)
  {
    if s <= x {
      QuotTimes(x - s, s);
      assert Quot(x, s) * s == Quot(x - s, s) * s + s;
    }
  }

  lemma QuotBound(x: nat, s: nat, n: nat)
    requires 0 < s && x < s * n
    ensures Quot(x, s) < n
  {
    QuotTimes(x, s);
    MulMonotone(n, Quot(x, s), s);
  }

  /** Same block number exactly when same block. */
  lemma QuotIffDown(x: nat, y: nat, s: nat)
    requires 0 < s
    ensures Quot(x, s) == Quot(y, s) <==> Down(x, s) == Down(y, s)
  {
    QuotTimes(x, s);
    QuotTimes(y, s);
    if Down(x, s) == Down(y, s) {
      assert (Quot(x, s) - Quot(y, s)) * s == 0;
    }
  }

  /** The block number modulo the number of blocks per table is the block number within the table. */
  lemma QuotRem(x: nat, s: nat, n: nat)
    requires 0 < s && 0 < n
    ensures 0 < s * n
    ensures Rem(Quot(x, s), n) == Quot(Rem(x, s * n), s)
  {
    MulMonotone(1, n, s);
    QuotRemOf(x, s, n, s * n);
  }

  /** The number of blocks in a table is given by what the table covers. */
  ghost predicate Table(s: nat, n: nat, m: nat)
    requires 0 < s
  {
    && (forall x: nat :: x < m ==> Quot(x, s) < n)
    && (forall x: nat :: Quot(x + m, s) == Quot(x, s) + n)
  }

  lemma {:induction false} QuotRemByTable(x: nat, s: nat, n: nat, m: nat)
    requires 0 < s && 0 < n && 0 < m && Table(s, n, m)
    ensures Rem(Quot(x, s), n) == Quot(Rem(x, m), s)
    decreases x
  {
    if m <= x {
      QuotRemByTable(x - m, s, n, m);
      assert Quot(x - m + m, s) == Quot(x - m, s) + n;
      RemShift(Quot(x - m, s), n);
    }
  }

  lemma QuotRemOf(x: nat, s: nat, n: nat, m: nat)
    requires 0 < s && 0 < n && 0 < m == s * n
    ensures Rem(Quot(x, s), n) == Quot(Rem(x, m), s)
  {
    forall y: nat ensures y < m ==> Quot(y, s) < n {
      if y < m {
        QuotBound(y, s, n);
      }
    }
    forall y: nat ensures Quot(y + m, s) == Quot(y, s) + n {
      QuotShift(y, n, s);
    }
    QuotRemByTable(x, s, n, m);
  }

  lemma {:induction false} ProductIsMultiple(s: nat, n: nat)
    requires 0 < s
    ensures Rem(s * n, s) == 0
  {
    if 0 < n {
      ProductIsMultiple(s, n - 1);
      assert s * n == s * (n - 1) + s;
      RemShift(s * (n - 1), s);
    }
  }

  /** Divisibility is transitive. */
  lemma RemTransitive(t: nat, m: nat, s: nat)
    requires 0 < s && 0 < m && Rem(t, m) == 0 && Rem(m, s) == 0
    ensures Rem(t, s) == 0
  {
    RemNest(t, m, s);
  }

  /** Remainders add up. */
  lemma {:induction false} RemPlus(x: int, c: int, m: nat)
    requires 0 < m
    ensures Rem(Rem(x, m) + c, m) == Rem(x + c, m)
    decreases if x < 0 then m - x else x
  {
    if x < 0 {
      RemPlus(x + m, c, m);
      RemShift(x + c, m);
    } else if m <= x {
      RemPlus(x - m, c, m);
      RemShift(x - m + c, m);
    }
  }

  /** Moving on by a block size moves the block start by that size and keeps the offset. */
  lemma DownStep(x: nat, s: nat)
    requires 0 < s
    ensures Down(x + s, s) == Down(x, s) + s && Rem(x + s, s) == Rem(x, s)
  {
    RemShift(x, s);
  }

  /** Addresses strictly before the start of a block lie in earlier blocks. */
  lemma DownOrder(x: nat, y: nat, s: nat)
    requires 0 < s && Down(x, s) <= y < Down(x, s) + s
    ensures Down(y, s) == Down(x, s)
  {
    DownIsMultiple(x, s);
    DownOfBlock(Down(x, s), y - Down(x, s), s);
  }

  /** A finer block lies inside the coarser one. */
  lemma DownNest(x: nat, s: nat, u: nat)
    requires 0 < u && 0 < s && Rem(s, u) == 0
    ensures Down(x, s) <= Down(x, u) && Down(x, u) + u <= Down(x, s) + s
  {
    var b, d := Down(x, s), Down(x, u);
    DownIsMultiple(x, s);
    DownIsMultiple(x, u);
    RemTransitive(b, s, u);
    RemShift(b, s);
    RemTransitive(b + s, s, u);
    if d < b {
      MultipleGap(d, b, u);
    }
    MultipleGap(d, b + s, u);
  }

  lemma {:induction false} RemMinus(x: int, a: nat, m: nat)
    requires 0 < m
    ensures Rem(x - Rem(a, m), m) == Rem(x - a, m)
    decreases a
  {
    if m <= a {
      RemMinus(x, a - m, m);
      RemShift(x - a, m);
    }
  }

  /** The source's `1 << shift`. */
  function Pow(shift: nat): (p: nat)
    ensures p > 0
  {
    if shift == 0 then 1 else 2 * Pow(shift - 1)
  }

  lemma {:induction false} PowDivides(shift: nat, k: nat)
    requires shift <= k
    ensures Rem(Pow(k), Pow(shift)) == 0
    decreases k
  {
    if shift < k {
      PowDivides(shift, k - 1);
      RemAddMultiple(Pow(k - 1), Pow(k - 1), Pow(shift));
    }
  }

  lemma {:induction false} PowSum(a: nat, b: nat)
    ensures Pow(a + b) == Pow(a) * Pow(b)
  {
    if b > 0 {
      PowSum(a, b - 1);
    }
  }
}
