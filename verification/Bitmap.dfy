/** Bitmaps of 32-bit words and the word-at-a-time searches over them (src/lib/bitmap.c, src/lib/inc/bitmap.h). */
module Bitmap {
  const LEN := 32
  const SIZE_LIMIT := 0x1_0000_0000_0000_0000
  // What "return -1" is in a size_t.
  const NOT_FOUND := SIZE_LIMIT - 1

  /** A 32-bit word, bit 0 first. */
  type Word = w: seq<bool> | |w| == LEN witness seq(LEN, i => false)

  function Mask(off: nat, len: nat): Word {
    seq(LEN, i => off <= i < off + len)
  }

  function Not(a: Word): Word {
    seq(LEN, i requires 0 <= i < LEN => !a[i])
  }

  function And(a: Word, b: Word): Word {
    seq(LEN, i requires 0 <= i < LEN => a[i] && b[i])
  }

  function Or(a: Word, b: Word): Word {
    seq(LEN, i requires 0 <= i < LEN => a[i] || b[i])
  }

  function Xor(a: Word, b: Word): Word {
    seq(LEN, i requires 0 <= i < LEN => a[i] != b[i])
  }

  predicate Zero(a: Word) {
    forall i :: 0 <= i < LEN ==> !a[i]
  }

  /** bitmap_get. */
  predicate Get(words: seq<Word>, bit: nat)
    requires bit < LEN * |words|
  {
    words[bit / LEN][bit % LEN]
  }

  /** Bits `from` to `end` all are `b`. */
  ghost predicate Same(words: seq<Word>, from: nat, end: nat, b: bool) {
    end <= LEN * |words| && forall i :: from <= i < end ==> Get(words, i) == b
  }

  method Set(words: array<Word>, bit: nat)
    requires bit < LEN * words.Length
    modifies words
    ensures forall i :: 0 <= i < LEN * words.Length ==> Get(words[..], i) == (i == bit || old(Get(words[..], i)))
  {
    words[bit / LEN] := Or(words[bit / LEN], Mask(bit % LEN, 1));
  }

  method Clear(words: array<Word>, bit: nat)
    requires bit < LEN * words.Length
    modifies words
    ensures forall i :: 0 <= i < LEN * words.Length ==> Get(words[..], i) == (i != bit && old(Get(words[..], i)))
  {
    words[bit / LEN] := And(words[bit / LEN], Not(Mask(bit % LEN, 1)));
  }

  method ClearConsecutive(words: array<Word>, start: nat, n: nat)
    requires start + n <= LEN * words.Length
    modifies words
    ensures forall i :: 0 <= i < LEN * words.Length ==>
      Get(words[..], i) == (!(start <= i < start + n) && old(Get(words[..], i)))
  {
    for k := 0 to n
      invariant forall i :: 0 <= i < LEN * words.Length ==>
        Get(words[..], i) == (!(start <= i < start + k) && old(Get(words[..], i)))
    {
      Clear(words, start + k);
    }
  }

  /** The number of bits of `from` to `end` that are `b`. */
  ghost function Count(words: seq<Word>, from: nat, end: nat, b: bool): (c: nat)
    requires end <= LEN * |words|
    ensures c <= if from < end then end - from else 0
    decreases end
  {
    if end <= from then 0 else Count(words, from, end - 1, b) + if Get(words, end - 1) == b then 1 else 0
  }

  /** bitmap_find_nth: the place where the count of matching bits reaches `nth`. */
  method FindNth(words: array<Word>, size: nat, nth: nat, start: nat, bit: bool) returns (r: nat)
    requires size <= LEN * words.Length && size < NOT_FOUND
    ensures r == NOT_FOUND <==> nth == 0 || Count(words[..], start, size, bit) < nth
    ensures r != NOT_FOUND ==> start <= r < size && Get(words[..], r) == bit && Count(words[..], start, r, bit) == nth - 1
  {
    if size <= 0 || nth <= 0 {
      return NOT_FOUND;
    }
    hide Get;
    ghost var bits := words[..];
    var count := 0;
    var i := start;
    while i < size
      invariant i == start || i <= size
      invariant count == if i <= size then Count(bits, start, i, bit) else 0
      invariant start <= i && count < nth
    {
      if Get(words[..], i) == bit {
        count := count + 1;
        if count == nth {
          CountGrows(bits, start, i + 1, size, bit);
          return i;
        }
      }
      i := i + 1;
    }
    return NOT_FOUND;
  }

  lemma {:induction false} CountGrows(words: seq<Word>, from: nat, mid: nat, end: nat, b: bool)
    requires mid <= end <= LEN * |words|
    ensures Count(words, from, mid, b) <= Count(words, from, end, b)
    decreases end
  {
    if mid < end {
      CountGrows(words, from, mid, end - 1, b);
    }
  }

  lemma {:induction false} CountZero(words: seq<Word>, from: nat, end: nat, b: bool)
    requires end <= LEN * |words|
    ensures Count(words, from, end, b) == 0 <==> Same(words, from, end, !b)
    decreases end
  {
    if from < end {
      CountZero(words, from, end - 1, b);
    }
  }

  // ------------------------------------------------------------------ runs of equal bits

  /** The masked comparison of one word says whether `len` of its bits from `off` on all are `b`. */
  lemma MaskedWord(words: seq<Word>, pos: nat, len: nat, b: bool)
    requires 0 < len && pos % LEN + len <= LEN && pos < LEN * |words|
    ensures pos + len <= LEN * |words|
    ensures var mask := Mask(pos % LEN, len);
            Zero(And(Xor(words[pos / LEN], if b then mask else Not(mask)), mask)) <==> Same(words, pos, pos + len, b)
  {
    var off, w := pos % LEN, words[pos / LEN];
    var mask := Mask(off, len);
    var x := And(Xor(w, if b then mask else Not(mask)), mask);
    assert forall i :: 0 <= i < LEN ==> x[i] == (off <= i < off + len && w[i] != b);
    forall i | pos <= i < pos + len ensures Get(words, i) == w[i - pos + off] {
    }
    if Zero(x) {
      forall i | pos <= i < pos + len ensures Get(words, i) == b {
        assert !x[i - pos + off];
      }
    }
    if Same(words, pos, pos + len, b) {
      forall i | off <= i < off + len ensures w[i] == b {
        assert Get(words, i - off + pos) == b;
      }
    }
  }

  /** The comparison with all ones or all zeros says whether the whole word is `b`. */
  lemma WholeWord(words: seq<Word>, pos: nat, b: bool)
    requires pos % LEN == 0 && pos < LEN * |words|
    ensures pos + LEN <= LEN * |words|
    ensures Zero(Xor(words[pos / LEN], seq(LEN, i => b))) <==> Same(words, pos, pos + LEN, b)
  {
    var w := words[pos / LEN];
    var x := Xor(w, seq(LEN, i => b));
    assert forall i :: 0 <= i < LEN ==> x[i] == (w[i] != b);
    forall i | pos <= i < pos + LEN ensures Get(words, i) == w[i - pos] {
    }
    if Same(words, pos, pos + LEN, b) {
      forall i | 0 <= i < LEN ensures w[i] == b {
        assert Get(words, i + pos) == b;
      }
    }
    if Zero(x) {
      forall i | pos <= i < pos + LEN ensures Get(words, i) == b {
        assert !x[i - pos];
      }
    }
  }

  lemma SameStart(words: seq<Word>, i: nat)
    requires i < LEN * |words|
    ensures Same(words, i, i, Get(words, i)) && Same(words, i, i + 1, Get(words, i))
  {
  }

  lemma SameJoins(words: seq<Word>, a: nat, m: nat, z: nat, b: bool)
    requires a <= m <= z && Same(words, a, m, b) && Same(words, m, z, b)
    ensures Same(words, a, z, b)
  {
  }

  lemma WholeWordPart(words: seq<Word>, pos: nat, len: nat, b: bool)
    requires pos % LEN + len <= LEN && pos < LEN * |words|
    requires Zero(Xor(words[pos / LEN], seq(LEN, i => b)))
    ensures Same(words, pos, pos + len, b)
  {
    var w := words[pos / LEN];
    var x := Xor(w, seq(LEN, i => b));
    forall i | pos <= i < pos + len ensures i < LEN * |words| && Get(words, i) == b {
      assert !x[i - pos + pos % LEN];
      assert Get(words, i) == w[i - pos + pos % LEN];
    }
  }

  /**
   * bitmap_count_consecutive: every bit counted equals the first one, and the count falls short of
   * `n` only at the size or at a bit that differs. It may exceed `n` by part of a word.
   */
  method CountConsecutive(words: array<Word>, size: nat, start: nat, n: nat) returns (count: nat)
    requires size % LEN == 0 && size + LEN <= LEN * words.Length && start <= size
    ensures Same(words[..], start, start + count, Get(words[..], start))
    ensures start < size ==> start + count <= size
    ensures start < size && n > 0 ==> count > 0
    ensures count < n ==> start + count >= size || Get(words[..], start + count) != Get(words[..], start)
  {
    hide Zero, And, Xor, Not, Mask, Get, Same;
    ghost var bits := words[..];
    var pos := start;
    count := 0;
    var startOffset := start % LEN;
    var firstWordBits := if LEN - startOffset < n then LEN - startOffset else n;
    var bit := Get(words[..], start);
    SameStart(bits, start);
    if n <= 1 {
      return n;
    }
    var initMask := Mask(startOffset, firstWordBits);
    var mask := if bit then initMask else Not(initMask);
    MaskedWord(bits, start, firstWordBits, bit);
    if Zero(And(Xor(words[pos / LEN], mask), initMask)) {
      count := count + firstWordBits;
      pos := pos + firstWordBits;
    }
    mask := seq(LEN, i => bit);
    while pos < size && Zero(Xor(words[pos / LEN], mask)) && count < n
      invariant pos == start + count && Same(bits, start, pos, bit)
      invariant start < size ==> pos <= size
      invariant pos % LEN == 0 || count == n || (count == 0 && !Same(bits, start, start + firstWordBits, bit))
      decreases size - pos
    {
      if count == 0 {
        WholeWordPart(bits, start, firstWordBits, bit);
      }
      assert pos % LEN == 0;
      WholeWord(bits, pos, bit);
      SameJoins(bits, start, pos, pos + LEN, bit);
      count := count + LEN;
      pos := pos + LEN;
    }
    while pos < size && Get(words[..], pos) == bit && count < n
      invariant pos == start + count && Same(bits, start, pos, bit)
      invariant start < size ==> pos <= size
      decreases size - pos
    {
      SameStart(bits, pos);
      SameJoins(bits, start, pos, pos + 1, bit);
      count := count + 1;
      pos := pos + 1;
    }
  }

  /** `n` bits equal to `b` from `i` on, all below `size`. */
  ghost predicate RunAt(words: seq<Word>, size: nat, i: nat, n: nat, b: bool) {
    i + n <= size && Same(words, i, i + n, b)
  }

  /** `r` is the least place at or after `start` where a run starts, or NOT_FOUND if there is none. */
  ghost predicate IsFirstRun(words: seq<Word>, size: nat, start: nat, n: nat, b: bool, r: nat) {
    && (r != NOT_FOUND ==> start <= r && RunAt(words, size, r, n, b))
    && (forall j :: start <= j < r ==> !RunAt(words, size, j, n, b))
    && (r == NOT_FOUND <==> forall j :: start <= j ==> !RunAt(words, size, j, n, b))
  }

  /** No run starts among bits that differ, nor at a place from which one such bit or the size is too near. */
  lemma NoRunBefore(words: seq<Word>, size: nat, i: nat, count: nat, n: nat, b: bool)
    requires size <= LEN * |words| && count < n
    requires i + count >= size || Get(words, i + count) != b
    ensures forall j :: i <= j <= i + count ==> !RunAt(words, size, j, n, b)
  {
  }

  lemma NoRunAmong(words: seq<Word>, size: nat, i: nat, end: nat, n: nat, b: bool)
    requires n > 0 && Same(words, i, end, !b)
    ensures forall j :: i <= j < end ==> !RunAt(words, size, j, n, b)
  {
    forall j | i <= j < end ensures !RunAt(words, size, j, n, b) {
      assert Get(words, j) != b;
    }
  }

  /** bitmap_find_consec: the first run of `n` bits at or after `start`, if there is one. */
  method FindConsec(words: array<Word>, size: nat, start: nat, n: nat, bit: bool) returns (r: nat)
    requires size % LEN == 0 && size + LEN <= LEN * words.Length < NOT_FOUND && n > 0
    ensures IsFirstRun(words[..], size, start, n, bit, r)
  {
    hide Get, Same;
    ghost var bits := words[..];
    var i := FindNth(words, size, 1, start, bit);
    if start <= size {
      CountZero(bits, start, if i == NOT_FOUND then size else i, bit);
      NoRunAmong(bits, size, start, if i == NOT_FOUND then size else i, n, bit);
    }
    while i < size
      invariant i < size ==> start <= i && Get(bits, i) == bit
      invariant forall j :: start <= j < i ==> !RunAt(bits, size, j, n, bit)
      decreases size - i
    {
      var count := CountConsecutive(words, size, i, n);
      if count < n {
        NoRunBefore(bits, size, i, count, n, bit);
        i := i + count;
        var more := CountConsecutive(words, size, i, NOT_FOUND);
        if i < size {
          NoRunAmong(bits, size, i, i + more, n, bit);
        }
        i := i + more;
      } else {
        SamePart(bits, i, i + count, n, bit);
        break;
      }
    }
    if i >= size {
      i := NOT_FOUND;
      assert forall j :: start <= j ==> !RunAt(bits, size, j, n, bit);
    } else {
      assert RunAt(bits, size, i, n, bit);
    }
    return i;
  }

  lemma SamePart(words: seq<Word>, i: nat, end: nat, n: nat, b: bool)
    requires Same(words, i, end, b) && i + n <= end
    ensures Same(words, i, i + n, b)
  {
  }

  // ------------------------------------------------------------------ setting a range

  lemma SetMask(words: seq<Word>, pos: nat, len: nat)
    requires 0 < len && pos % LEN + len <= LEN && pos < LEN * |words|
    ensures pos + len <= LEN * |words|
    ensures forall i :: 0 <= i < LEN * |words| ==>
      Get(words[pos / LEN := Or(words[pos / LEN], Mask(pos % LEN, len))], i) == (pos <= i < pos + len || Get(words, i))
  {
    var w := pos / LEN;
    assert pos == LEN * w + pos % LEN;
    forall i | 0 <= i < LEN * |words|
      ensures Get(words[w := Or(words[w], Mask(pos % LEN, len))], i) == (pos <= i < pos + len || Get(words, i))
    {
      assert i == LEN * (i / LEN) + i % LEN;
    }
  }

  /** bitmap_set_consecutive: exactly the bits of the range are set in addition. */
  method SetConsecutive(words: array<Word>, start: nat, n: nat)
    requires n > 0 && start + n <= LEN * words.Length
    modifies words
    ensures forall i :: 0 <= i < LEN * words.Length ==>
      Get(words[..], i) == (start <= i < start + n || old(Get(words[..], i)))
  {
    hide Get, Or, Mask;
    ghost var bits := words[..];
    var pos, count := start, n;
    var startOffset := start % LEN;
    var firstWordBits := if LEN - startOffset < count then LEN - startOffset else count;
    SetMask(words[..], pos, firstWordBits);
    words[pos / LEN] := Or(words[pos / LEN], Mask(startOffset, firstWordBits));
    assert words[..] == bits[pos / LEN := Or(bits[pos / LEN], Mask(startOffset, firstWordBits))];
    pos := pos + firstWordBits;
    count := count - firstWordBits;
    while count >= LEN
      invariant 0 <= count && pos + count == start + n && (count > 0 ==> pos % LEN == 0)
      invariant forall i :: 0 <= i < LEN * words.Length ==> Get(words[..], i) == (start <= i < pos || Get(bits, i))
    {
      ghost var was := words[..];
      SetMask(was, pos, LEN);
      words[pos / LEN] := Or(words[pos / LEN], Mask(0, LEN));
      assert words[..] == was[pos / LEN := Or(was[pos / LEN], Mask(pos % LEN, LEN))];
      pos := pos + LEN;
      count := count - LEN;
    }
    if count > 0 {
      ghost var was := words[..];
      SetMask(was, pos, count);
      words[pos / LEN] := Or(words[pos / LEN], Mask(0, count));
      assert words[..] == was[pos / LEN := Or(was[pos / LEN], Mask(pos % LEN, count))];
    }
  }
}
