/** Stream match entries and their merging (src/arch/aarch64/smmuv2.c, src/arch/aarch64/iommu.c). */
module Smmuv2 {
  import opened Blocks
  import opened Options

  const ID_LEN := 15

  /** A stream id or mask, bit 0 first. */
  type Id = b: seq<bool> | |b| == ID_LEN witness seq(ID_LEN, i => false)

  /** A stream match register: the bits set in `mask` are not compared. */
  datatype Sme = Sme(mask: Id, id: Id)

  /** An allocated entry with the context its S2CR names. */
  datatype Entry = Entry(sme: Sme, ctx: nat)

  /** Stream matching of the architecture: the bits that are compared are equal. */
  predicate Matches(e: Sme, s: Id) {
    forall i :: 0 <= i < ID_LEN && !e.mask[i] ==> s[i] == e.id[i]
  }

  /** The source's diff_id is zero. */
  predicate Overlaps(a: Sme, b: Sme) {
    forall i :: 0 <= i < ID_LEN && !(a.mask[i] || b.mask[i]) ==> a.id[i] == b.id[i]
  }

  /** The bits of `b` all are bits of `a`: the source's (a & b) == b. */
  predicate Within(b: Id, a: Id) {
    forall i :: 0 <= i < ID_LEN && b[i] ==> a[i]
  }

  predicate Includes(a: Sme, b: Sme) {
    Overlaps(a, b) && Within(b.mask, a.mask)
  }

  /** The overlap test is exact: it holds if and only if some stream matches both entries. */
  lemma OverlapsIsShared(a: Sme, b: Sme)
    ensures Overlaps(a, b) <==> exists s :: Matches(a, s) && Matches(b, s)
  {
    if Overlaps(a, b) {
      var s: Id := seq(ID_LEN, i requires 0 <= i < ID_LEN => if a.mask[i] then b.id[i] else a.id[i]);
      assert Matches(a, s) && Matches(b, s);
    }
  }

  /** The inclusion test is exact: it holds if and only if every stream of `b` is one of `a`. */
  lemma IncludesIsSubset(a: Sme, b: Sme)
    ensures Includes(a, b) <==> forall s :: Matches(b, s) ==> Matches(a, s)
  {
    if forall s :: Matches(b, s) ==> Matches(a, s) {
      assert Matches(b, b.id) && Matches(a, b.id);
      forall i | 0 <= i < ID_LEN && b.mask[i] ensures a.mask[i] {
        var t: Id := b.id[i := !b.id[i]];
        assert Matches(b, t) && Matches(a, t);
      }
    }
  }

  /** The number the first `n` bits stand for. */
  function Number(b: Id, n: nat): nat
    requires n <= ID_LEN
  {
    if n == 0 then 0 else Number(b, n - 1) + if b[n - 1] then Pow(n - 1) else 0
  }

  lemma {:induction false} NumberGrows(b: Id, a: Id, n: nat)
    requires n <= ID_LEN && Within(b, a)
    ensures Number(b, n) <= Number(a, n)
    ensures Number(b, n) == Number(a, n) <==> forall i :: 0 <= i < n ==> a[i] == b[i]
  {
    if n > 0 {
      NumberGrows(b, a, n - 1);
    }
  }

  /** Comparing nested masks as numbers, as the source does, tells which is the larger. */
  lemma MaskOrder(added: Id, present: Id)
    requires Within(added, present) || Within(present, added)
    ensures Number(added, ID_LEN) > Number(present, ID_LEN) <==> Within(present, added) && added != present
    ensures Number(added, ID_LEN) > Number(present, ID_LEN) ==> !Within(added, present)
  {
    if Within(added, present) {
      NumberGrows(added, present, ID_LEN);
    }
    if Within(present, added) {
      NumberGrows(present, added, ID_LEN);
    }
  }

  // ------------------------------------------------------------------ tables

  type Table = seq<Option<Entry>>

  ghost predicate Allocated(t: Table, i: int) {
    0 <= i < |t| && t[i].Some?
  }

  /** No stream matches two allocated entries. */
  ghost predicate Disjoint(t: Table) {
    forall i, j :: Allocated(t, i) && Allocated(t, j) && i != j ==> !Overlaps(t[i].value.sme, t[j].value.sme)
  }

  ghost predicate Maps(t: Table, s: Id, ctx: nat) {
    exists i :: Allocated(t, i) && Matches(t[i].value.sme, s) && t[i].value.ctx == ctx
  }

  /** In a disjoint table a stream has one context at most. */
  lemma OneContext(t: Table, s: Id, c: nat, d: nat)
    requires Disjoint(t) && Maps(t, s, c) && Maps(t, s, d)
    ensures c == d
  {
    var i :| Allocated(t, i) && Matches(t[i].value.sme, s) && t[i].value.ctx == c;
    var j :| Allocated(t, j) && Matches(t[j].value.sme, s) && t[j].value.ctx == d;
    OverlapsIsShared(t[i].value.sme, t[j].value.sme);
  }

  /** The new entry may be merged with entry `e`: one is a group, one includes the other, same context. */
  predicate Mergeable(e: Entry, isGroup: bool, added: Entry, group: bool) {
    (group || isGroup) && (Includes(e.sme, added.sme) || Includes(added.sme, e.sme)) && e.ctx == added.ctx
  }

  /** The new entry has all streams of the other and more, for the same context. */
  predicate Larger(n: Entry, e: Entry) {
    Includes(n.sme, e.sme) && !Includes(e.sme, n.sme) && n.ctx == e.ctx
  }

  /** What the search did to a table that ends without a conflict and without an including entry. */
  ghost predicate Absorbed(t: Table, u: Table, n: Entry) {
    && |u| == |t|
    && (forall i :: 0 <= i < |t| ==> u[i] == t[i] || (u[i].None? && t[i].Some?))
    && (forall i :: Allocated(t, i) && u[i].None? ==> Larger(n, t[i].value))
    && (forall i :: Allocated(u, i) ==> !Overlaps(u[i].value.sme, n.sme))
  }

  /**
   * Merging is safe: with the absorbed entries gone and the new one written, the table is disjoint
   * again, the new streams map to the new context, every stream that was mapped keeps its context,
   * and no other stream becomes mapped.
   */
  lemma MergeKeepsMaps(t: Table, u: Table, k: nat, n: Entry)
    requires Disjoint(t) && Absorbed(t, u, n) && k < |u| && u[k].None?
    ensures var w := u[k := Some(n)];
            && Disjoint(w)
            && (forall s :: Matches(n.sme, s) ==> Maps(w, s, n.ctx))
            && (forall s, c :: Maps(t, s, c) ==> Maps(w, s, c))
            && (forall s, c :: Maps(w, s, c) ==> Maps(t, s, c) || (Matches(n.sme, s) && c == n.ctx))
  {
    var w := u[k := Some(n)];
    assert Allocated(w, k);
    hide Matches, Overlaps, Includes;
    forall i, j | Allocated(w, i) && Allocated(w, j) && i != j ensures !Overlaps(w[i].value.sme, w[j].value.sme) {
      if i == k {
        assert Allocated(u, j);
        OverlapsBothWays(n.sme, w[j].value.sme);
      } else if j == k {
        assert Allocated(u, i);
      } else {
        assert Allocated(t, i) && Allocated(t, j);
      }
    }
    forall s, c | Maps(t, s, c) ensures Maps(w, s, c) {
      var i :| Allocated(t, i) && Matches(t[i].value.sme, s) && t[i].value.ctx == c;
      if u[i].None? {
        IncludesIsSubset(n.sme, t[i].value.sme);
      } else {
        assert Allocated(w, i);
      }
    }
    forall s, c | Maps(w, s, c) ensures Maps(t, s, c) || (Matches(n.sme, s) && c == n.ctx) {
      var i :| Allocated(w, i) && Matches(w[i].value.sme, s) && w[i].value.ctx == c;
      if i != k {
        assert Allocated(t, i);
      }
    }
  }

  lemma OverlapsBothWays(a: Sme, b: Sme)
    ensures Overlaps(a, b) <==> Overlaps(b, a)
  {
  }

  /** An entry that includes the new one leaves no room for a conflict or a smaller entry elsewhere. */
  lemma IncludedExcludes(t: Table, i: nat, j: nat, n: Entry)
    requires Disjoint(t) && Allocated(t, i) && Allocated(t, j) && Includes(t[i].value.sme, n.sme)
    requires Overlaps(t[j].value.sme, n.sme)
    ensures i == j
  {
    hide Matches, Includes, Overlaps;
    IncludesIsSubset(t[i].value.sme, n.sme);
    OverlapsIsShared(t[j].value.sme, n.sme);
    OverlapsIsShared(t[i].value.sme, t[j].value.sme);
  }

  // ------------------------------------------------------------------ the driver

  datatype Verdict = Included | Fresh | Conflict

  datatype AddResult = Added | AlreadyIncluded | Refused | NoEntry

  /** An entry that overlaps the new one and cannot be merged with it. */
  ghost predicate Conflicts(t: Table, groups: seq<bool>, n: Entry, group: bool) {
    exists i :: 0 <= i < |groups| && Allocated(t, i) && Overlaps(t[i].value.sme, n.sme)
                && !Mergeable(t[i].value, groups[i], n, group)
  }

  ghost predicate Share(a: Sme, b: Sme) {
    exists s :: Matches(a, s) && Matches(b, s)
  }

  /** `a` has a stream that `b` has not. */
  ghost predicate HasMore(a: Sme, b: Sme) {
    exists s :: Matches(a, s) && !Matches(b, s)
  }

  /**
   * What a conflict is, told by streams: some entry shares a stream with the new one although neither
   * is a group, or for another context, or while each of the two has a stream the other has not.
   */
  lemma ConflictMeaning(t: Table, groups: seq<bool>, n: Entry, group: bool)
    requires |groups| == |t|
    ensures Conflicts(t, groups, n, group) <==>
      exists i :: Allocated(t, i) && Share(t[i].value.sme, n.sme) && (
        || (!group && !groups[i])
        || t[i].value.ctx != n.ctx
        || (HasMore(t[i].value.sme, n.sme) && HasMore(n.sme, t[i].value.sme)))
  {
    hide Matches, Overlaps, Includes;
    forall i | Allocated(t, i)
      ensures Overlaps(t[i].value.sme, n.sme) <==> Share(t[i].value.sme, n.sme)
      ensures Includes(t[i].value.sme, n.sme) <==> !HasMore(n.sme, t[i].value.sme)
      ensures Includes(n.sme, t[i].value.sme) <==> !HasMore(t[i].value.sme, n.sme)
    {
      OverlapsIsShared(t[i].value.sme, n.sme);
      IncludesIsSubset(t[i].value.sme, n.sme);
      IncludesIsSubset(n.sme, t[i].value.sme);
    }
  }

  ghost predicate Covered(t: Table, n: Entry) {
    exists i :: Allocated(t, i) && Includes(t[i].value.sme, n.sme) && t[i].value.ctx == n.ctx
  }

  /** The search has passed entry `k`. */
  ghost predicate Passed(t: Table, u: Table, n: Entry, k: nat) {
    && |u| == |t|
    && (forall i :: 0 <= i < |t| ==> u[i] == t[i] || (i < k && u[i].None? && t[i].Some?))
    && (forall i :: Allocated(t, i) && u[i].None? ==> Larger(n, t[i].value))
    && (forall i :: Allocated(u, i) && i < k ==> !Overlaps(u[i].value.sme, n.sme))
  }

  /** The new entry `k` is the first free one once the entries that overlap the new one are gone. */
  ghost predicate AddedAt(t: Table, groups: seq<bool>, w: Table, groups2: seq<bool>, n: Entry, group: bool, k: nat) {
    && |w| == |t| == |groups| && k < |t| && w[k] == Some(n)
    && (Allocated(t, k) ==> Overlaps(t[k].value.sme, n.sme))
    && (forall i :: 0 <= i < |t| && i != k ==>
          w[i] == if Allocated(t, i) && Overlaps(t[i].value.sme, n.sme) then None else t[i])
    && (forall i :: 0 <= i < k ==> w[i].Some?)
    && groups2 == if group then groups[k := true] else groups
  }

  lemma AbsorbedExactly(t: Table, u: Table, n: Entry, i: nat)
    requires Absorbed(t, u, n) && i < |t|
    ensures u[i] == if Allocated(t, i) && Overlaps(t[i].value.sme, n.sme) then None else t[i]
  {
  }

  lemma AbsorbedIsNotCovered(t: Table, u: Table, n: Entry)
    requires Absorbed(t, u, n)
    ensures !Covered(t, n)
  {
    hide Overlaps, Within;
    forall i | Allocated(t, i) && Includes(t[i].value.sme, n.sme) ensures u[i].None? {
      IncludesOverlaps(t[i].value.sme, n.sme);
      assert Allocated(u, i) ==> !Overlaps(u[i].value.sme, n.sme);
    }
  }

  lemma IncludesOverlaps(a: Sme, b: Sme)
    requires Includes(a, b)
    ensures Overlaps(a, b)
  {
  }

  class Smmu {
    const smeBitmap: array<bool>
    const grpBitmap: array<bool>
    const smr: array<Sme>
    const s2cr: array<nat>

    ghost predicate Sized() {
      smeBitmap.Length == grpBitmap.Length == smr.Length == s2cr.Length && smeBitmap != grpBitmap
    }

    /** The allocated entries. */
    ghost function Entries(): (t: Table)
      requires Sized()
      reads smeBitmap, smr, s2cr
      ensures |t| == smeBitmap.Length
      ensures forall i :: 0 <= i < |t| ==> t[i] == if smeBitmap[i] then Some(Entry(smr[i], s2cr[i])) else None
    {
      seq(smeBitmap.Length, i requires 0 <= i < smeBitmap.Length reads smeBitmap, smr, s2cr requires Sized() =>
        if smeBitmap[i] then Some(Entry(smr[i], s2cr[i])) else None)
    }

    constructor (smeNum: nat)
      ensures Sized() && smeBitmap.Length == smeNum && Disjoint(Entries())
      ensures fresh(smeBitmap) && fresh(grpBitmap) && fresh(smr) && fresh(s2cr)
      ensures forall i :: 0 <= i < smeNum ==> !smeBitmap[i] && !grpBitmap[i]
    {
      smeBitmap := new bool[smeNum](i => false);
      grpBitmap := new bool[smeNum](i => false);
      smr := new Sme[smeNum](i => Sme(seq(ID_LEN, j => false), seq(ID_LEN, j => false)));
      s2cr := new nat[smeNum](i => 0);
    }

    /**
     * smmu_compatible_sme_exists: a conflict is reported exactly when there is one; entries are
     * removed only when the new one takes their place; none is when the new one is included.
     */
    method CompatibleSmeExists(n: Entry, group: bool) returns (v: Verdict)
      requires Sized() && Disjoint(Entries())
      modifies smeBitmap
      ensures v.Conflict? <==> Conflicts(old(Entries()), grpBitmap[..], n, group)
      ensures v.Conflict? ==> exists k: nat :: Passed(old(Entries()), Entries(), n, k)
      ensures v.Included? ==> Entries() == old(Entries()) && Covered(Entries(), n)
      ensures v.Fresh? ==> Absorbed(old(Entries()), Entries(), n)
    {
      hide Overlaps, Within, Matches, Includes, Disjoint;
      ghost var t := Entries();
      var sme := 0;
      while sme < smeBitmap.Length
        invariant 0 <= sme <= smeBitmap.Length && Passed(t, Entries(), n, sme)
        invariant forall i :: 0 <= i < sme && Allocated(t, i) && Overlaps(t[i].value.sme, n.sme) ==>
                    Mergeable(t[i].value, grpBitmap[i], n, group)
      {
        if smeBitmap[sme] {
          var present := smr[sme];
          assert Allocated(t, sme) && t[sme].value == Entry(present, s2cr[sme]);
          if Overlaps(present, n.sme) {
            Nested(present, n.sme);
            var mergeable := (group || grpBitmap[sme])
                             && (Within(n.sme.mask, present.mask) || Within(present.mask, n.sme.mask))
                             && n.ctx == s2cr[sme];
            assert mergeable == Mergeable(t[sme].value, grpBitmap[sme], n, group);
            if mergeable {
              MaskOrder(n.sme.mask, present.mask);
              if Number(n.sme.mask, ID_LEN) > Number(present.mask, ID_LEN) {
                assert Larger(n, t[sme].value);
                smeBitmap[sme] := false;
              } else {
                NothingRemoved(t, Entries(), sme, n);
                IncludedIsAlone(t, grpBitmap[..], sme, n, group);
                return Included;
              }
            } else {
              assert Conflicts(t, grpBitmap[..], n, group);
              return Conflict;
            }
          }
        }
        sme := sme + 1;
      }
      return Fresh;
    }

    /** smmu_alloc_sme: the first free entry. */
    method AllocSme() returns (nth: int)
      requires Sized()
      ensures nth == -1 <==> forall i :: 0 <= i < smeBitmap.Length ==> smeBitmap[i]
      ensures nth != -1 ==> 0 <= nth < smeBitmap.Length && !smeBitmap[nth] && forall i :: 0 <= i < nth ==> smeBitmap[i]
    {
      for i := 0 to smeBitmap.Length
        invariant forall j :: 0 <= j < i ==> smeBitmap[j]
      {
        if !smeBitmap[i] {
          return i;
        }
      }
      return -1;
    }

    /**
     * iommu_vm_arch_add: check, then allocate and write unless an entry already includes the new one.
     * After a successful add every new stream maps to the given context, every stream that was mapped
     * keeps its context and no other stream is mapped; a refusal means there was a conflict. The new
     * entry takes the first free place `k` once those it overlaps are gone.
     */
    method Add(n: Entry, group: bool) returns (r: AddResult, ghost k: nat)
      requires Sized() && Disjoint(Entries())
      modifies smeBitmap, grpBitmap, smr, s2cr
      ensures r.Refused? <==> Conflicts(old(Entries()), old(grpBitmap[..]), n, group)
      ensures r.Refused? ==> exists k: nat :: Passed(old(Entries()), Entries(), n, k)
      ensures r.Added? || r.AlreadyIncluded? ==>
        && Disjoint(Entries())
        && (forall s :: Matches(n.sme, s) ==> Maps(Entries(), s, n.ctx))
        && (forall s, c :: Maps(old(Entries()), s, c) ==> Maps(Entries(), s, c))
        && (forall s, c :: Maps(Entries(), s, c) ==> Maps(old(Entries()), s, c) || (Matches(n.sme, s) && c == n.ctx))
      ensures r.Added? ==> AddedAt(old(Entries()), old(grpBitmap[..]), Entries(), grpBitmap[..], n, group, k)
      ensures r.AlreadyIncluded? <==> Covered(old(Entries()), n) && !Conflicts(old(Entries()), old(grpBitmap[..]), n, group)
      ensures !r.Added? ==> grpBitmap[..] == old(grpBitmap[..])
      ensures r.AlreadyIncluded? ==> Entries() == old(Entries())
      ensures r.NoEntry? ==> Entries() == old(Entries())
      ensures r.NoEntry? ==> forall i :: 0 <= i < smeBitmap.Length ==>
                               smeBitmap[i] && !Overlaps(Entries()[i].value.sme, n.sme)
    {
      hide Overlaps, Within, Matches, Includes, Disjoint, Maps, Conflicts;
      ghost var t := Entries();
      k := 0;
      var v := CompatibleSmeExists(n, group);
      match v {
        case Conflict =>
          return Refused, 0;
        case Included =>
          CoveredMaps(t, n);
          return AlreadyIncluded, 0;
        case Fresh =>
          ghost var u := Entries();
          AbsorbedIsNotCovered(t, u, n);
          var sme := AllocSme();
          if sme == -1 {
            return NoEntry, 0;
          }
          Write(sme, n, group);
          MergeKeepsMaps(t, u, sme, n);
          forall i | 0 <= i < |t| ensures u[i] == if Allocated(t, i) && Overlaps(t[i].value.sme, n.sme) then None else t[i] {
            AbsorbedExactly(t, u, n, i);
          }
          return Added, sme;
      }
    }

    /** smmu_alloc_sme's mark, smmu_write_sme and smmu_write_s2c. The group bit is set here and cleared nowhere. */
    method Write(sme: nat, n: Entry, group: bool)
      requires Sized() && sme < smeBitmap.Length && !smeBitmap[sme]
      modifies smeBitmap, grpBitmap, smr, s2cr
      ensures Entries() == old(Entries())[sme := Some(n)]
      ensures grpBitmap[..] == if group then old(grpBitmap[..])[sme := true] else old(grpBitmap[..])
    {
      ghost var t := Entries();
      smeBitmap[sme] := true;
      smr[sme] := n.sme;
      if group {
        grpBitmap[sme] := true;
      }
      s2cr[sme] := n.ctx;
      assert Entries() == t[sme := Some(n)];
    }
  }

  /** With an entry that includes the new one, its streams are mapped already. */
  lemma CoveredMaps(t: Table, n: Entry)
    requires Covered(t, n)
    ensures forall s :: Matches(n.sme, s) ==> Maps(t, s, n.ctx)
  {
    var i :| Allocated(t, i) && Includes(t[i].value.sme, n.sme) && t[i].value.ctx == n.ctx;
    IncludesIsSubset(t[i].value.sme, n.sme);
  }

  lemma Nested(a: Sme, b: Sme)
    requires Overlaps(a, b)
    ensures Includes(a, b) <==> Within(b.mask, a.mask)
    ensures Includes(b, a) <==> Within(a.mask, b.mask)
    ensures a.mask == b.mask ==> Includes(a, b)
  {
  }

  lemma Shares(a: Sme, b: Sme)
    requires Includes(a, b)
    ensures Overlaps(b, a)
  {
  }

  lemma NothingRemoved(t: Table, u: Table, k: nat, n: Entry)
    requires Disjoint(t) && Passed(t, u, n, k) && Allocated(t, k) && Includes(t[k].value.sme, n.sme)
    ensures u == t
  {
    hide Overlaps, Within, Matches;
    forall i | 0 <= i < |t| ensures u[i] == t[i] {
      if u[i] != t[i] {
        assert Allocated(t, i) && Includes(n.sme, t[i].value.sme);
        Shares(n.sme, t[i].value.sme);
        IncludedExcludes(t, k, i, n);
      }
    }
  }

  lemma IncludedIsAlone(t: Table, groups: seq<bool>, k: nat, n: Entry, group: bool)
    requires Disjoint(t) && k < |groups| && Allocated(t, k) && Includes(t[k].value.sme, n.sme)
    requires Mergeable(t[k].value, groups[k], n, group)
    ensures !Conflicts(t, groups, n, group)
  {
    hide Overlaps, Within, Matches;
    forall i | Allocated(t, i) && Overlaps(t[i].value.sme, n.sme) ensures i == k {
      IncludedExcludes(t, k, i, n);
    }
  }

  /**
   * Adding a device next to an entry with which it shares a stream, under the same mask and for the
   * same context. The comment of the source says devices are never merged with each other, but the
   * group flag of an entry outlives the group: the device is refused if and only if no group was
   * ever written to the entry it meets, and otherwise it gets no entry of its own.
   */
  lemma DeviceRefusedExactlyWhen(t: Table, groups: seq<bool>, i: nat, n: Entry)
    requires Disjoint(t) && |groups| == |t| && Allocated(t, i) && Overlaps(t[i].value.sme, n.sme)
    requires t[i].value.sme.mask == n.sme.mask && t[i].value.ctx == n.ctx
    ensures Conflicts(t, groups, n, false) <==> !groups[i]
    ensures Covered(t, n) && forall s :: Matches(t[i].value.sme, s) <==> Matches(n.sme, s)
  {
    Nested(t[i].value.sme, n.sme);
    OverlapsBothWays(t[i].value.sme, n.sme);
    Nested(n.sme, t[i].value.sme);
    if groups[i] {
      IncludedIsAlone(t, groups, i, n, false);
    }
  }

  /** Entries for the run below; the devices differ in a bit that a global mask hides. */
  lemma SomeEntries() returns (a: Entry, b: Entry, c: Entry, d: Entry, e: Entry)
    ensures StaleEntries(a, b, c, d, e) && d.sme.id != e.sme.id
  {
    var zero: Id := seq(ID_LEN, i => false);
    var one: Id := zero[0 := true];
    var three: Id := one[1 := true];
    a := Entry(Sme(one, zero), 0);
    b := Entry(Sme(one, zero[1 := true]), 0);
    c := Entry(Sme(three, zero), 0);
    d := Entry(Sme(one, zero[2 := true]), 0);
    e := Entry(Sme(one, zero[2 := true][0 := true]), 0);
    assert d.sme.id[0] != e.sme.id[0];
    assert !(a.sme.mask[1] || b.sme.mask[1]) && a.sme.id[1] != b.sme.id[1];
    assert !(c.sme.mask[2] || d.sme.mask[2]) && c.sme.id[2] != d.sme.id[2];
  }

  /** Two groups, one that covers both, a device apart from them and one that meets this device. */
  ghost predicate StaleEntries(a: Entry, b: Entry, c: Entry, d: Entry, e: Entry) {
    && a.ctx == b.ctx == c.ctx == d.ctx == e.ctx
    && !Overlaps(a.sme, b.sme) && Includes(c.sme, a.sme) && Includes(c.sme, b.sme)
    && !Overlaps(c.sme, d.sme) && Overlaps(d.sme, e.sme) && d.sme.mask == e.sme.mask
  }

  /** An entry with a stream of its own is not included. */
  lemma ApartNotIncluded(a: Sme, b: Sme, c: Sme)
    requires !Overlaps(a, b) && Includes(c, b)
    ensures !Includes(a, c)
  {
    hide Overlaps, Includes, Matches;
    IncludesIsSubset(a, c);
    IncludesIsSubset(c, b);
    OverlapsIsShared(a, b);
    OwnStream(b);
  }

  lemma OwnStream(b: Sme)
    ensures Matches(b, b.id)
  {
  }

  /** Only the first two entries can be in use, and hold this. */
  ghost predicate Pair(t: Table, x: Option<Entry>, y: Option<Entry>) {
    2 <= |t| && t[0] == x && t[1] == y && forall i :: 2 <= i < |t| ==> t[i].None?
  }

  /** The entry stays clear of the new group or device, or is taken in by the new group. */
  ghost predicate Yields(x: Option<Entry>, n: Entry, group: bool) {
    && (x.Some? && Overlaps(x.value.sme, n.sme) ==> group && Includes(n.sme, x.value.sme) && x.value.ctx == n.ctx)
    && (x.Some? ==> !Includes(x.value.sme, n.sme))
  }

  ghost function Remains(x: Option<Entry>, n: Entry): Option<Entry> {
    if x.Some? && Overlaps(x.value.sme, n.sme) then None else x
  }

  lemma PairYields(t: Table, groups: seq<bool>, x: Option<Entry>, y: Option<Entry>, n: Entry, group: bool)
    requires Pair(t, x, y) && |groups| == |t| && Yields(x, n, group) && Yields(y, n, group)
    ensures !Conflicts(t, groups, n, group) && !Covered(t, n)
  {
    hide Overlaps, Includes;
  }

  method AddToPair(smmu: Smmu, n: Entry, group: bool, ghost x: Option<Entry>, ghost y: Option<Entry>)
    requires smmu.Sized() && Disjoint(smmu.Entries()) && Pair(smmu.Entries(), x, y)
    requires Yields(x, n, group) && Yields(y, n, group) && (Remains(x, n).None? || Remains(y, n).None?)
    modifies smmu.smeBitmap, smmu.grpBitmap, smmu.smr, smmu.s2cr
    ensures Disjoint(smmu.Entries())
    ensures Pair(smmu.Entries(), if Remains(x, n).None? then Some(n) else x,
                                 if Remains(x, n).None? then Remains(y, n) else Some(n))
    ensures smmu.grpBitmap[..] == if group then old(smmu.grpBitmap[..])[(if Remains(x, n).None? then 0 else 1) := true]
                                  else old(smmu.grpBitmap[..])
  {
    hide Overlaps, Includes, Disjoint, Maps, Matches, Conflicts, Covered, Yields;
    ghost var t := smmu.Entries();
    PairYields(t, smmu.grpBitmap[..], x, y, n, group);
    var r, k := smmu.Add(n, group);
    assert t[0] == x && t[1] == y;
  }

  /**
   * How a device comes to sit in an entry with a stale group flag: two groups take the first two
   * entries, a third that covers both takes the first and frees the second, and the device gets the
   * second. The next device that meets it is not refused, as it would be with the flag cleared.
   */
  method GroupFlagOutlivesGroup(smmu: Smmu, a: Entry, b: Entry, c: Entry, d: Entry, e: Entry) returns (r: AddResult)
    requires smmu.Sized() && StaleEntries(a, b, c, d, e) && Pair(smmu.Entries(), None, None)
    modifies smmu.smeBitmap, smmu.grpBitmap, smmu.smr, smmu.s2cr
    ensures r == AlreadyIncluded && Pair(smmu.Entries(), Some(c), Some(d))
    ensures Conflicts(smmu.Entries(), smmu.grpBitmap[..][1 := false], e, false)
  {
    hide Overlaps, Includes, Disjoint, Maps, Matches, Conflicts, Covered;
    ApartNotIncluded(a.sme, b.sme, c.sme);
    OverlapsBothWays(a.sme, b.sme);
    ApartNotIncluded(b.sme, a.sme, c.sme);
    Shares(c.sme, a.sme);
    Shares(c.sme, b.sme);
    EmptyIsDisjoint(smmu.Entries());
    NotIncluded(a.sme, b.sme);
    NotIncluded(c.sme, d.sme);
    AddToPair(smmu, a, true, None, None);
    AddToPair(smmu, b, true, Some(a), None);
    AddToPair(smmu, c, true, Some(a), Some(b));
    AddToPair(smmu, d, false, Some(c), None);
    DeviceRefusedExactlyWhen(smmu.Entries(), smmu.grpBitmap[..], 1, e);
    DeviceRefusedExactlyWhen(smmu.Entries(), smmu.grpBitmap[..][1 := false], 1, e);
    ghost var k;
    r, k := smmu.Add(e, false);
  }

  lemma NotIncluded(a: Sme, b: Sme)
    requires !Overlaps(a, b)
    ensures !Includes(a, b)
  {
  }

  lemma EmptyIsDisjoint(t: Table)
    requires Pair(t, None, None)
    ensures Disjoint(t)
  {
  }
}
