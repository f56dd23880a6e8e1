/** The VM scheduler: a doubly linked list behind a sentinel and virtual deadlines (src/core/sched.c). */
module Bfs {
  import opened RunQueues

  const BFS_INTERVAL := 4000

  // ------------------------------------------------------------------ deadlines

  /** prio_ratios: each level is a tenth above the one before, rounded down. */
  function Ratio(prio: nat): (r: nat)
    ensures r >= 128
  {
    if prio == 0 then 128 else Ratio(prio - 1) * 11 / 10
  }

  function DeadlineDiff(prio: nat): nat {
    Ratio(prio) * BFS_INTERVAL / 128
  }

  /** The ten ratios. */
  lemma Ratios()
    ensures Ratio(0) == 128 && Ratio(1) == 140 && Ratio(2) == 154 && Ratio(3) == 169 && Ratio(4) == 185
    ensures Ratio(5) == 203 && Ratio(6) == 223 && Ratio(7) == 245 && Ratio(8) == 269 && Ratio(9) == 295
  {
    hide Ratio;
    FirstRatio();
    NextRatio(0, 128, 140);
    NextRatio(1, 140, 154);
    NextRatio(2, 154, 169);
    NextRatio(3, 169, 185);
    NextRatio(4, 185, 203);
    NextRatio(5, 203, 223);
    NextRatio(6, 223, 245);
    NextRatio(7, 245, 269);
    NextRatio(8, 269, 295);
  }

  lemma FirstRatio()
    ensures Ratio(0) == 128
  {
  }

  lemma NextRatio(prio: nat, r: nat, next: nat)
    requires Ratio(prio) == r && next == r * 11 / 10
    ensures Ratio(prio + 1) == next
  {
  }

  lemma {:induction false} RatioGrows(i: nat, j: nat)
    requires i < j
    ensures Ratio(i) < Ratio(j)
    decreases j
  {
    var r := Ratio(j - 1);
    assert r * 11 / 10 >= r + 12 by {
      assert r * 11 >= (r + 12) * 10;
    }
    if i < j - 1 {
      RatioGrows(i, j - 1);
    }
  }

  /** A worse priority always means a later deadline, and no deadline lies less than one interval ahead. */
  lemma DeadlineDiffGrows(i: nat, j: nat)
    requires i < j
    ensures BFS_INTERVAL <= DeadlineDiff(i) < DeadlineDiff(j)
  {
    RatioGrows(i, j);
    assert Ratio(i) * BFS_INTERVAL >= 128 * BFS_INTERVAL;
    assert Ratio(j) * BFS_INTERVAL >= Ratio(i) * BFS_INTERVAL + 128;
  }

  // ------------------------------------------------------------------ choosing a VM

  datatype Entry = Entry(vm: nat, vdeadline: nat, ready: nat)

  /** Entry `k` is the first of the earliest deadlines among the ready ones of the first `n` entries. */
  ghost predicate EarliestOf(list: seq<Entry>, n: nat, k: int) {
    && 0 <= k < n <= |list| && list[k].ready > 0
    && (forall j :: 0 <= j < n && list[j].ready > 0 ==> list[k].vdeadline <= list[j].vdeadline)
    && (forall j :: 0 <= j < k && list[j].ready > 0 ==> list[k].vdeadline < list[j].vdeadline)
  }

  ghost predicate NoneReady(list: seq<Entry>, n: nat) {
    n <= |list| && forall j :: 0 <= j < n ==> list[j].ready == 0
  }

  ghost predicate Earliest(list: seq<Entry>, k: int) {
    EarliestOf(list, |list|, k)
  }

  /** What the search knows after `n` entries: -1 while it has seen none that is ready. */
  ghost predicate Found(list: seq<Entry>, n: nat, at: int) {
    if at == -1 then NoneReady(list, n) else EarliestOf(list, n, at)
  }

  lemma NothingFound(list: seq<Entry>)
    ensures Found(list, 0, -1)
  {
  }

  lemma FoundNext(list: seq<Entry>, n: nat, at: int)
    requires n < |list| && Found(list, n, at)
    ensures var k := n + 1;
            if list[n].ready > 0 && (at == -1 || list[n].vdeadline < list[at].vdeadline) then Found(list, k, n)
            else Found(list, k, at)
  {
  }

  // ------------------------------------------------------------------ the list

  class RunQueue {
    const head: RunQueueNode
    ghost var list: seq<RunQueueNode>

    /** The nodes linked behind the sentinel, in both directions, are exactly those of `list`, each once. */
    ghost predicate Valid()
      reads `list, head`next, list`next, list`prev
    {
      && head !in list
      && (forall j, k :: 0 <= j < k < |list| ==> list[j] != list[k])
      && (if list == [] then head.next == null else head.next == list[0] && list[0].prev == head)
      && (list != [] ==> list[|list| - 1].next == null)
      && (forall j, k :: 0 <= j < k < |list| && k == j + 1 ==> list[j].next == list[k] && list[k].prev == list[j])
    }

    static ghost function EntryOf(n: RunQueueNode): Entry
      reads n
    {
      Entry(n.vm, n.vdeadline, n.nrVcpuReady)
    }

    ghost function Entries(): (e: seq<Entry>)
      reads this, list
      ensures |e| == |list| && forall k :: 0 <= k < |e| ==> e[k] == EntryOf(list[k])
    {
      seq(|list|, k requires 0 <= k < |list| reads this, list => EntryOf(list[k]))
    }

    constructor (head: RunQueueNode)
      requires head.next == null
      ensures Valid() && this.head == head && list == []
    {
      this.head := head;
      list := [];
    }

    /** Links a node that is not in the list right behind the sentinel. */
    method RqInsert(n: RunQueueNode)
      requires Valid() && n != head && n !in list
      modifies `list, head`next, n`next, n`prev, list`prev
      ensures Valid() && list == [n] + old(list)
    {
      n.next := head.next;
      n.prev := head;
      if head.next != null {
        n.next.prev := n;
      }
      head.next := n;
      list := [n] + list;
    }

    /** Unlinks a node of the list; the others keep their order. */
    method RqRemove(n: RunQueueNode, ghost k: nat)
      requires Valid() && k < |list| && n == list[k]
      modifies `list, head`next, list`next, list`prev
      ensures Valid() && list == old(list[..k] + list[k + 1..])
      ensures n.prev == null && n.next == null && n !in list
    {
      ghost var was := list;
      ghost var left := list[..k] + list[k + 1..];
      assert forall j :: 0 <= j < |left| ==> left[j] == was[if j < k then j else j + 1];
      assert n.prev == (if k == 0 then head else was[k - 1]);
      assert n.next == (if k + 1 == |was| then null else was[k + 1]);
      n.prev.next := n.next;
      if n.next != null {
        n.next.prev := n.prev;
      }
      n.prev, n.next := null, null;
      list := left;
    }

    /** Takes the first node of the earliest deadline among those with a ready vCPU out of the list. */
    method PTaskLookup() returns (target: RunQueueNode?, ghost at: int)
      requires Valid()
      modifies `list, head`next, list`next, list`prev
      ensures Valid() && Found(old(Entries()), |old(list)|, at)
      ensures target == null <==> at == -1
      ensures target == null ==> list == old(list) && Entries() == old(Entries())
      ensures target != null ==> target == old(list)[at] && list == old(list)[..at] + old(list)[at + 1..]
                                 && target.prev == null && target.next == null && target !in list
    {
      hide Found;
      ghost var es, was := Entries(), list;
      target := null;
      at := -1;
      var n := head.next;
      ghost var k := 0;
      assert Found(es, 0, at) by {
        NothingFound(es);
      }
      while n != null
        invariant 0 <= k <= |list| && n == (if k < |list| then list[k] else null)
        invariant Valid() && es == Entries() && list == was && Found(es, k, at) && -1 <= at < k
        invariant if at == -1 then target == null else target == list[at]
        decreases |list| - k
      {
        assert es[k] == EntryOf(n) && (at != -1 ==> es[at] == EntryOf(target));
        FoundNext(es, k, at);
        if n.nrVcpuReady > 0 && (target == null || n.vdeadline < target.vdeadline) {
          target := n;
          at := k;
        }
        assert k + 1 < |list| ==> list[k].next == list[k + 1];
        n := n.next;
        k := k + 1;
      }
      if target != null {
        assert list == was && target in list;
        RqRemove(target, at);
      }
    }

    /** A CPU gives up the VM it holds: a new deadline, and back into the list (the first half of bfs_scheduler). */
    method GiveUp(n: RunQueueNode, clock: nat)
      requires Valid() && n != head && n !in list && n.timeSlice == 0
      modifies `list, head`next, n`next, n`prev, n`vdeadline, n`state, n`needResched, list`prev
      ensures Valid() && list == [n] + old(list)
      ensures n.vdeadline == clock + n.vdeadlineDiff && n.state == Ready && n.needResched
      ensures Entries() == [Entry(n.vm, clock + n.vdeadlineDiff, n.nrVcpuReady)] + old(Entries())
    {
      hide Valid;
      n.vdeadline := clock + n.vdeadlineDiff;
      n.state := Ready;
      n.needResched := true;
      RqInsert(n);
    }

    /** A CPU takes a VM: the search is repeated until it finds one (the second half of bfs_scheduler). */
    method Take() returns (n: RunQueueNode, ghost at: int)
      requires Valid() && !NoneReady(Entries(), |list|)
      modifies `list, head`next, list`next, list`prev, list`state, list`timeSlice, list`needResched
      ensures Valid() && Earliest(old(Entries()), at) && n == old(list)[at] && n !in list
      ensures list == old(list)[..at] + old(list)[at + 1..]
      ensures Entries() == old(Entries())[..at] + old(Entries())[at + 1..]
      ensures n.state == Running && n.timeSlice == BFS_INTERVAL && !n.needResched
    {
      hide Valid;
      ghost var es, was := Entries(), list;
      var target: RunQueueNode? := null;
      at := -1;
      while target == null
        invariant target == null ==> Valid() && list == was && Entries() == es
        invariant target != null ==>
          Valid() && Earliest(es, at) && target == was[at] && target !in list
          && list == was[..at] + was[at + 1..]
        decreases if target == null then 1 else 0
      {
        target, at := PTaskLookup();
      }
      n := target;
      assert |list| == |was| - 1 && forall k :: 0 <= k < |list| ==> list[k] == was[if k < at then k else k + 1];
      assert Entries() == es[..at] + es[at + 1..];
      n.state := Running;
      n.timeSlice := BFS_INTERVAL;
      n.needResched := false;
    }

    /**
     * bfs_scheduler when no other CPU comes between its two halves: the VM taken has the earliest
     * deadline of all, the VM given up included under its new deadline.
     */
    method BfsScheduler(held: RunQueueNode?, clock: nat)
      returns (n: RunQueueNode, ghost waiting: seq<Entry>, ghost at: int)
      requires Valid()
      requires held != null ==> held != head && held !in list && held.timeSlice == 0 && held.nrVcpuReady > 0
      requires held == null ==> !NoneReady(Entries(), |list|)
      modifies `list, head`next, list`next, list`prev, list`state, list`timeSlice, list`needResched, held
      ensures held != null ==>
        waiting == [Entry(held.vm, clock + held.vdeadlineDiff, old(held.nrVcpuReady))] + old(Entries())
      ensures held == null ==> waiting == old(Entries())
      ensures Valid() && Earliest(waiting, at)
      ensures n.vm == waiting[at].vm && n.state == Running && n.timeSlice == BFS_INTERVAL && !n.needResched
      ensures Entries() == waiting[..at] + waiting[at + 1..] && n !in list
    {
      hide Valid;
      if held != null {
        GiveUp(held, clock);
        assert Entries()[0].ready > 0;
      }
      waiting := Entries();
      n, at := Take();
    }
  }
}
