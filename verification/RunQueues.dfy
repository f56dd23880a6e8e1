/** The linked chains and the bitmap behind the vCPU scheduler (src/core/sched.c). */
module RunQueues {
  import opened Bmq
  import opened Options

  const BMQ_INTERVAL := 1000

  datatype TaskState = Ready | Running | Pending

  class VCpuNode {
    const slot: nat
    var staticPrio: nat
    var prioAdj: int
    var prio: nat
    var next: VCpuNode?
    var state: TaskState
    var timeSlice: nat
    var needResched: bool

    constructor (slot: nat, staticPrio: nat)
      ensures Value() == Vcpu(slot, staticPrio, 0, staticPrio)
      ensures next == null && state == Ready && timeSlice == 0 && needResched
    {
      this.slot := slot;
      this.staticPrio, this.prioAdj, this.prio := staticPrio, 0, staticPrio;
      next, state, timeSlice, needResched := null, Ready, 0, true;
    }

    ghost function Value(): Vcpu
      reads `staticPrio, `prioAdj, `prio
    {
      Vcpu(slot, staticPrio, prioAdj, prio)
    }

    method PrioManage(up: bool)
      modifies `prioAdj, `prio
      ensures Value() == Adjusted(old(Value()), up)
      ensures old(InRange(Value())) ==> InRange(Value())
      ensures old(InRange(Value())) && up ==> (prioAdj > old(prioAdj) <==> old(prioAdj) == -MAX_ADJ)
    {
      if up && prioAdj > -MAX_ADJ {
        prioAdj := prioAdj - 1;
      } else if prioAdj < MAX_ADJ {
        prioAdj := prioAdj + 1;
      }
      var wanted := staticPrio + prioAdj;
      if wanted <= LOWEST && wanted >= 0 {
        prio := wanted;
      }
    }
  }

  /** The node pool: the node of slot `s` is at place `s`. */
  ghost predicate Pool(pool: seq<VCpuNode>) {
    forall s :: 0 <= s < |pool| ==> pool[s].slot == s
  }

  /** The node at position `k` of a chain, null at its end. */
  ghost function NodeAt(chain: seq<Vcpu>, pool: seq<VCpuNode>, k: nat): VCpuNode? {
    if k < |chain| && chain[k].slot < |pool| then pool[chain[k].slot] else null
  }

  /** The heads and the next pointers (by slot) thread exactly the chains; the nodes hold their values. */
  ghost function Threads(chains: seq<seq<Vcpu>>, pool: seq<VCpuNode>,
                          heads: seq<VCpuNode?>, next: seq<VCpuNode?>, value: seq<Vcpu>): (r: bool)
    ensures r ==> |heads| == LEVELS && |chains| == LEVELS && |next| == |value| == |pool|
  {
    && Placed(chains) && |heads| == LEVELS && |next| == |value| == |pool|
    && (forall i, k :: At(chains, i, k) ==> chains[i][k].slot < |pool| && value[chains[i][k].slot] == chains[i][k])
    && (forall i :: 0 <= i < LEVELS ==> heads[i] == NodeAt(chains[i], pool, 0))
    && (forall i, k :: At(chains, i, k) ==> next[chains[i][k].slot] == NodeAt(chains[i], pool, k + 1))
  }

  /** The heads and next pointers once `vnode` hangs at the end of `chain`. */
  ghost function HungNext(next: seq<VCpuNode?>, chain: seq<Vcpu>, v: Vcpu, vnode: VCpuNode): (r: seq<VCpuNode?>)
    requires v.slot < |next| && (chain != [] ==> chain[|chain| - 1].slot < |next|)
    ensures |r| == |next|
  {
    if chain == [] then next[v.slot := null] else next[chain[|chain| - 1].slot := vnode][v.slot := null]
  }

  ghost function HungHeads(heads: seq<VCpuNode?>, chain: seq<Vcpu>, v: Vcpu, vnode: VCpuNode): seq<VCpuNode?>
    requires v.prio < |heads|
  {
    if chain == [] then heads[v.prio := vnode] else heads
  }

  lemma HungNextElsewhere(chains: seq<seq<Vcpu>>, next: seq<VCpuNode?>, v: Vcpu, vnode: VCpuNode, s: nat)
    requires v.prio < |chains| && v.slot < |next| && s < |next| && s != v.slot && !Queued(chains, s)
    requires chains[v.prio] != [] ==> chains[v.prio][|chains[v.prio]| - 1].slot < |next|
    ensures HungNext(next, chains[v.prio], v, vnode)[s] == next[s]
  {
    if chains[v.prio] != [] {
      NotQueued(chains, s, v.prio, |chains[v.prio]| - 1);
    }
  }

  lemma LastInPool(chains: seq<seq<Vcpu>>, pool: seq<VCpuNode>, heads: seq<VCpuNode?>, next: seq<VCpuNode?>,
                   value: seq<Vcpu>, i: nat)
    requires Threads(chains, pool, heads, next, value) && i < LEVELS
    ensures chains[i] != [] ==> chains[i][|chains[i]| - 1].slot < |pool|
  {
    if chains[i] != [] {
      assert At(chains, i, |chains[i]| - 1);
    }
  }

  lemma NotQueued(chains: seq<seq<Vcpu>>, slot: nat, i: nat, k: nat)
    requires !Queued(chains, slot) && At(chains, i, k)
    ensures chains[i][k].slot != slot
  {
  }

  lemma OnePlace(chains: seq<seq<Vcpu>>, i: nat, k: nat, j: nat, l: nat)
    requires Placed(chains) && At(chains, i, k) && At(chains, j, l)
    ensures chains[i][k].slot == chains[j][l].slot ==> i == j && k == l
  {
  }

  /** What ThreadsInsert claims of the node at position `k` of chain `i`. */
  lemma ThreadsInsertAt(chains: seq<seq<Vcpu>>, pool: seq<VCpuNode>, heads: seq<VCpuNode?>, next: seq<VCpuNode?>,
                        value: seq<Vcpu>, v: Vcpu, i: nat, k: nat)
    requires Threads(chains, pool, heads, next, value) && v.prio < LEVELS && !Queued(chains, v.slot)
    requires v.slot < |pool| && value[v.slot] == v && At(Insert(chains, v), i, k)
    ensures chains[v.prio] != [] ==> chains[v.prio][|chains[v.prio]| - 1].slot < |pool|
    ensures var c := Insert(chains, v)[i];
            && c[k].slot < |pool| && value[c[k].slot] == c[k]
            && HungNext(next, chains[v.prio], v, pool[v.slot])[c[k].slot] == NodeAt(c, pool, k + 1)
  {
    hide Placed, Queued;
    LastInPool(chains, pool, heads, next, value, v.prio);
    var chain := chains[v.prio];
    if At(chains, i, k) {
      NotQueued(chains, v.slot, i, k);
      if chain != [] {
        OnePlace(chains, i, k, v.prio, |chain| - 1);
      }
    }
  }

  lemma ThreadsInsert(chains: seq<seq<Vcpu>>, pool: seq<VCpuNode>, heads: seq<VCpuNode?>, next: seq<VCpuNode?>,
                      value: seq<Vcpu>, v: Vcpu)
    requires Threads(chains, pool, heads, next, value) && v.prio < LEVELS && !Queued(chains, v.slot)
    requires v.slot < |pool| && value[v.slot] == v
    ensures chains[v.prio] != [] ==> chains[v.prio][|chains[v.prio]| - 1].slot < |pool|
    ensures Threads(Insert(chains, v), pool, HungHeads(heads, chains[v.prio], v, pool[v.slot]),
                    HungNext(next, chains[v.prio], v, pool[v.slot]), value)
  {
    hide Placed, Queued, HungNext;
    LastInPool(chains, pool, heads, next, value, v.prio);
    InsertPlaced(chains, v);
    forall i, k | At(Insert(chains, v), i, k)
      ensures var c := Insert(chains, v)[i];
              && c[k].slot < |pool| && value[c[k].slot] == c[k]
              && HungNext(next, chains[v.prio], v, pool[v.slot])[c[k].slot] == NodeAt(c, pool, k + 1)
    {
      ThreadsInsertAt(chains, pool, heads, next, value, v, i, k);
    }
  }

  /** The fields of a node outside the chains do not matter. */
  lemma ThreadsOutside(chains: seq<seq<Vcpu>>, pool: seq<VCpuNode>, heads: seq<VCpuNode?>, next: seq<VCpuNode?>,
                       value: seq<Vcpu>, s: nat, w: Vcpu)
    requires Threads(chains, pool, heads, next, value) && s < |pool| && !Queued(chains, s)
    ensures Threads(chains, pool, heads, next, value[s := w])
    ensures Threads(chains, pool, heads, next[s := null], value[s := w])
  {
    hide Placed;
  }

  lemma ThreadsPop(chains: seq<seq<Vcpu>>, pool: seq<VCpuNode>, heads: seq<VCpuNode?>, next: seq<VCpuNode?>,
                   value: seq<Vcpu>, i: nat)
    requires Threads(chains, pool, heads, next, value) && i < LEVELS && chains[i] != []
    ensures chains[i][0].slot < |pool|
    ensures Threads(Pop(chains, i), pool, heads[i := NodeAt(chains[i], pool, 1)],
                    next[chains[i][0].slot := null], value)
  {
    hide Placed, Queued;
    var c := Pop(chains, i);
    assert At(chains, i, 0);
    PopPlaced(chains, i);
    forall j, k | At(c, j, k)
      ensures At(chains, j, if j == i then k + 1 else k)
      ensures c[j][k] == chains[j][if j == i then k + 1 else k] && c[j][k].slot != chains[i][0].slot
    {
      NotQueued(c, chains[i][0].slot, j, k);
    }
  }

  ghost function Nexts(pool: seq<VCpuNode>): (m: seq<VCpuNode?>)
    reads pool
    ensures |m| == |pool| && forall s :: 0 <= s < |pool| ==> m[s] == pool[s].next
  {
    seq(|pool|, s requires 0 <= s < |pool| reads pool => pool[s].next)
  }

  ghost function Values(pool: seq<VCpuNode>): (m: seq<Vcpu>)
    reads pool
    ensures |m| == |pool| && forall s :: 0 <= s < |pool| ==> m[s] == pool[s].Value()
  {
    seq(|pool|, s requires 0 <= s < |pool| reads pool => pool[s].Value())
  }

  /**
   * The run-queue node of a VM: its place in the list of waiting VMs, its deadline and slice, and its
   * multi-queue. `pool` is the array of vCPU nodes all VMs share.
   */
  class RunQueueNode {
    const vm: nat
    const nrCpus: nat
    const vdeadlineDiff: nat
    var vdeadline: nat
    var prev: RunQueueNode?
    var next: RunQueueNode?
    var state: TaskState
    var timeSlice: nat
    var needResched: bool
    const multiQueue: array<VCpuNode?>
    var nrVcpuReady: nat
    var bitmap: seq<bool>
    var runVnode: VCpuNode?
    ghost const pool: seq<VCpuNode>
    ghost var chains: seq<seq<Vcpu>>

    /** The linked nodes are exactly the chains. */
    ghost predicate Chained()
      reads `chains, multiQueue, pool
    {
      && multiQueue.Length == LEVELS && Pool(pool)
      && Threads(chains, pool, multiQueue[..], Nexts(pool), Values(pool))
    }

    /** The bitmap has exactly the bits of the chains that are not empty, the counter counts the queued nodes. */
    ghost predicate Counted(queued: seq<seq<Vcpu>>)
      reads `bitmap, `nrVcpuReady
    {
      && |bitmap| == LEVELS == |queued|
      && (forall i :: 0 <= i < LEVELS ==> (bitmap[i] <==> queued[i] != []))
      && nrVcpuReady == nrCpus + Below(queued, LEVELS)
    }

    ghost predicate Linked()
      reads this, multiQueue, pool
    {
      Chained() && Counted(chains)
    }

    /** `q` is what the node holds: its chains, and the vCPU that runs. */
    ghost predicate Represents(q: Queue)
      reads this, multiQueue, pool
    {
      && Linked() && WF(q) && chains == q.chains
      && (runVnode == null <==> q.running.None?)
      && (q.running.Some? ==> Stands(runVnode, q.running.value))
    }

    /** `vnode` is the pool node that holds `v`. */
    ghost predicate Stands(vnode: VCpuNode?, v: Vcpu)
      reads pool
    {
      v.slot < |pool| && vnode == pool[v.slot] && pool[v.slot].Value() == v
    }

    constructor (vm: nat, nrCpus: nat, vdeadlineDiff: nat, clock: nat, ghost pool: seq<VCpuNode>)
      requires Pool(pool)
      ensures this.vm == vm && this.nrCpus == nrCpus && this.vdeadlineDiff == vdeadlineDiff
      ensures this.pool == pool && fresh(multiQueue)
      ensures vdeadline == clock + vdeadlineDiff && prev == next == null
      ensures state == Ready && timeSlice == 0 && needResched
      ensures Represents(Queue(seq(LEVELS, i => []), None))
    {
      this.vm, this.nrCpus, this.vdeadlineDiff, this.pool := vm, nrCpus, vdeadlineDiff, pool;
      vdeadline, prev, next := clock + vdeadlineDiff, null, null;
      state, timeSlice, needResched := Ready, 0, true;
      multiQueue := new VCpuNode?[LEVELS](i => null);
      nrVcpuReady := nrCpus;
      bitmap := seq(LEVELS, i => false);
      runVnode := null;
      chains := seq(LEVELS, i => []);
      new;
      NoLevelsMeansEmpty(chains, LEVELS);
    }

    /** Hangs the node at the end of the chain of its priority. */
    method Append(vnode: VCpuNode, ghost v: Vcpu)
      requires Chained() && Stands(vnode, v) && v.prio < LEVELS && !Queued(chains, v.slot)
      modifies multiQueue, pool`next
      ensures chains[v.prio] != [] ==> chains[v.prio][|chains[v.prio]| - 1].slot < |pool|
      ensures Nexts(pool) == HungNext(old(Nexts(pool)), chains[v.prio], v, vnode)
      ensures multiQueue[..] == HungHeads(old(multiQueue[..]), chains[v.prio], v, vnode)
    {
      hide Placed, Queued;
      ghost var chain, next := chains[v.prio], Nexts(pool);
      LastInPool(chains, pool, multiQueue[..], next, Values(pool), v.prio);
      var vnptr := multiQueue[vnode.prio];
      assert vnptr == NodeAt(chain, pool, 0);
      assert At(chains, v.prio, 0) <==> chain != [];
      if vnptr == null {
        multiQueue[vnode.prio] := vnode;
        vnode.next := null;
      } else {
        ghost var k := 0;
        while vnptr.next != null
          invariant At(chains, v.prio, k) && chain[k].slot < |pool| && vnptr == pool[chain[k].slot]
          decreases |chain| - k
        {
          assert next[chain[k].slot] == NodeAt(chain, pool, k + 1);
          vnptr := vnptr.next;
          k := k + 1;
        }
        assert next[chain[k].slot] == NodeAt(chain, pool, k + 1);
        assert k == |chain| - 1 by {
          assert At(chains, v.prio, k + 1) <==> k + 1 < |chain|;
        }
        vnptr.next := vnode;
        vnode.next := null;
        NotQueued(chains, v.slot, v.prio, k);
      }
    }

    lemma CountedInsert(bits: seq<bool>, n: nat, before: seq<seq<Vcpu>>, v: Vcpu)
      requires |bits| == LEVELS == |before| && v.prio < LEVELS
      requires forall i :: 0 <= i < LEVELS ==> (bits[i] <==> before[i] != [])
      requires n == nrCpus + Below(before, LEVELS)
      requires bitmap == bits[v.prio := true] && nrVcpuReady == n + 1
      ensures Counted(Insert(before, v))
    {
      BelowChanges(before, Insert(before, v), v.prio, 1, LEVELS);
    }

    method VTaskInsert(vnode: VCpuNode, ghost v: Vcpu)
      requires Linked() && Stands(vnode, v) && v.prio < LEVELS && !Queued(chains, v.slot)
      modifies `bitmap, `nrVcpuReady, `chains, multiQueue, pool`next
      ensures Linked() && chains == Insert(old(chains), v)
      ensures forall s :: 0 <= s < |pool| && s != v.slot && !Queued(old(chains), s) ==> pool[s].next == old(pool[s].next)
    {
      hide Threads, Queued, HungNext, HungHeads, Insert, Below, Placed;
      ghost var before, n, bits := chains, nrVcpuReady, bitmap;
      ghost var heads, next, value := multiQueue[..], Nexts(pool), Values(pool);
      bitmap := bitmap[vnode.prio := true];
      Append(vnode, v);
      nrVcpuReady := nrVcpuReady + 1;
      chains := Insert(chains, v);
      assert Values(pool) == value;
      ThreadsInsert(before, pool, heads, next, value, v);
      CountedInsert(bits, n, before, v);
      forall s | 0 <= s < |pool| && s != v.slot && !Queued(before, s) ensures pool[s].next == next[s] {
        HungNextElsewhere(before, next, v, pool[v.slot], s);
        assert Nexts(pool)[s] == pool[s].next;
      }
    }

    lemma CountedPop(bits: seq<bool>, n: nat, before: seq<seq<Vcpu>>, i: nat)
      requires |bits| == LEVELS == |before| && i < LEVELS && before[i] != []
      requires forall j :: 0 <= j < LEVELS ==> (bits[j] <==> before[j] != [])
      requires n == nrCpus + Below(before, LEVELS)
      requires bitmap == (if |before[i]| == 1 then bits[i := false] else bits) && nrVcpuReady == n - 1
      ensures Counted(Pop(before, i))
    {
      BelowChanges(before, Pop(before, i), i, -1, LEVELS);
    }

    lemma FirstIs(queued: seq<seq<Vcpu>>, i: nat)
      requires i < |queued| && queued[i] != [] && forall j :: 0 <= j < i ==> queued[j] == []
      ensures First(queued, 0) == i
    {
    }

    /** Takes the front of chain `i`. */
    method TakeFront(i: nat) returns (vnode: VCpuNode)
      requires Linked() && i < LEVELS && chains[i] != []
      modifies `bitmap, `nrVcpuReady, `chains, multiQueue, pool`next
      ensures Linked() && Stands(vnode, old(chains)[i][0]) && chains == Pop(old(chains), i)
      ensures forall s :: 0 <= s < |pool| && !Queued(old(chains), s) ==> pool[s].next == old(pool[s].next)
    {
      hide Placed, Queued, Below;
      ghost var before, n, bits := chains, nrVcpuReady, bitmap;
      ghost var heads, next, value := multiQueue[..], Nexts(pool), Values(pool);
      assert At(chains, i, 0);
      NoLevelsMeansEmpty(chains, LEVELS);
      vnode := multiQueue[i];
      assert vnode == NodeAt(chains[i], pool, 0);
      assert next[chains[i][0].slot] == NodeAt(chains[i], pool, 1);
      assert At(chains, i, 1) <==> |chains[i]| > 1;
      if vnode.next == null {
        bitmap := bitmap[i := false];
      }
      multiQueue[i] := vnode.next;
      nrVcpuReady := nrVcpuReady - 1;
      vnode.next := null;
      chains := Pop(chains, i);
      Popped(before, heads, next, value, i);
      CountedPop(bits, n, before, i);
    }

    /** Takes the front of the first chain that is not empty. */
    method VTaskLookup() returns (vnode: VCpuNode?)
      requires Linked()
      modifies `bitmap, `nrVcpuReady, `chains, multiQueue, pool`next
      ensures Linked()
      ensures var i := First(old(chains), 0);
              if i == LEVELS then vnode == null && chains == old(chains)
              else Stands(vnode, old(chains)[i][0]) && chains == Pop(old(chains), i)
      ensures forall s :: 0 <= s < |pool| && !Queued(old(chains), s) ==> pool[s].next == old(pool[s].next)
    {
      hide Placed, Queued, First, Below, Threads;
      for i := 0 to LEVELS
        invariant Linked() && chains == old(chains)
        invariant forall j :: 0 <= j < i ==> chains[j] == []
        invariant forall s :: 0 <= s < |pool| ==> pool[s].next == old(pool[s].next)
      {
        if bitmap[i] {
          FirstIs(chains, i);
          vnode := TakeFront(i);
          return;
        }
      }
      assert First(chains, 0) == LEVELS;
      vnode := null;
    }

    lemma Popped(before: seq<seq<Vcpu>>, heads: seq<VCpuNode?>, next: seq<VCpuNode?>, value: seq<Vcpu>, i: nat)
      requires Threads(before, pool, heads, next, value) && i < LEVELS && before[i] != [] && Pool(pool)
      requires before[i][0].slot < |pool|
      requires chains == Pop(before, i) && multiQueue[..] == heads[i := NodeAt(before[i], pool, 1)]
      requires Nexts(pool) == next[before[i][0].slot := null] && Values(pool) == value
      ensures Chained()
      ensures forall s :: 0 <= s < |pool| && !Queued(before, s) ==> pool[s].next == next[s]
    {
      hide Placed, Queued, Threads;
      ThreadsPop(before, pool, heads, next, value, i);
      forall s | 0 <= s < |pool| && !Queued(before, s) ensures pool[s].next == next[s] {
        assert At(before, i, 0);
        NotQueued(before, s, i, 0);
        assert Nexts(pool)[s] == pool[s].next;
      }
    }

    /** Lowers the priority of the vCPU that ran and queues it again. */
    method Requeue(ghost q: Queue)
      requires Represents(q) && runVnode != null
      modifies `bitmap, `nrVcpuReady, `chains, multiQueue, pool
      ensures Linked() && chains == Requeued(q)
      ensures runVnode.state == Ready && runVnode.needResched
      ensures forall s :: 0 <= s < |pool| && !Owns(q, s) ==> unchanged(pool[s])
    {
      hide Placed, Queued, Below, Adjusted, Threads, Insert;
      ghost var v := q.running.value;
      ghost var value, w := Values(pool), Adjusted(q.running.value, false);
      ghost var heads, next := multiQueue[..], Nexts(pool);
      assert Threads(chains, pool, heads, next, value);
      runVnode.PrioManage(false);
      runVnode.state := Ready;
      runVnode.needResched := true;
      ThreadsOutside(chains, pool, heads, next, value, v.slot, w);
      assert Values(pool) == value[v.slot := w] && Nexts(pool) == next;
      VTaskInsert(runVnode, w);
    }

    /**
     * bmq_scheduler: the run-queue node now holds exactly the scheduled queue, and no node of
     * another VM has been touched.
     */
    method BmqScheduler(ghost q: Queue)
      requires Represents(q) && Runnable(q)
      requires runVnode != null ==> runVnode.timeSlice == 0
      modifies `bitmap, `nrVcpuReady, `chains, `runVnode, multiQueue, pool
      ensures Represents(Scheduled(q)) && runVnode != null
      ensures runVnode.state == Running && runVnode.timeSlice == BMQ_INTERVAL && !runVnode.needResched
      ensures var was := old(runVnode); was != null && was != runVnode ==> was.state == Ready && was.needResched
      ensures forall s :: 0 <= s < |pool| && !Owns(q, s) ==> unchanged(pool[s])
    {
      hide Placed, Queued, First, Below, Adjusted, Threads, Insert, WF;
      RequeuedHasWork(q);
      ghost var ready, i := Requeued(q), First(Requeued(q), 0);
      if runVnode != null {
        Requeue(q);
      }
      var vnode: VCpuNode? := null;
      while vnode == null
        invariant vnode == null ==> Linked() && chains == ready
        invariant vnode != null ==> Linked() && chains == Pop(ready, i) && Stands(vnode, ready[i][0])
        invariant forall s :: 0 <= s < |pool| && !Owns(q, s) ==> unchanged(pool[s])
        invariant runVnode == old(runVnode) && (runVnode != null ==> runVnode.state == Ready && runVnode.needResched)
        decreases if vnode == null then 1 else 0
      {
        vnode := VTaskLookup();
        ReadyIsHeld(q);
      }
      ScheduledKeepsPlaces(q);
      Dispatch(vnode);
    }

    method Dispatch(vnode: VCpuNode)
      requires Linked() && vnode in pool
      modifies `runVnode, vnode`state, vnode`timeSlice, vnode`needResched
      ensures Linked() && runVnode == vnode
      ensures vnode.state == Running && vnode.timeSlice == BMQ_INTERVAL && !vnode.needResched
    {
      hide Threads;
      ghost var value, next := Values(pool), Nexts(pool);
      vnode.state := Running;
      vnode.timeSlice := BMQ_INTERVAL;
      vnode.needResched := false;
      runVnode := vnode;
      assert Values(pool) == value && Nexts(pool) == next;
    }

    /** sched_start_handler: the node of a vCPU that is nowhere yet is initialised and queued. */
    method StartVcpu(vnode: VCpuNode, ghost q: Queue)
      requires Represents(q) && vnode.slot < |pool| && vnode == pool[vnode.slot] && !Owns(q, vnode.slot)
      modifies `bitmap, `nrVcpuReady, `chains, multiQueue, pool
      ensures Represents(Queue(Insert(q.chains, Started(vnode.slot)), q.running))
      ensures vnode.timeSlice == 0 && vnode.needResched && vnode.state == Ready
      ensures vnode.staticPrio == vnode.prio == DEFAULT_PRIO && vnode.prioAdj == 0
      ensures chains[DEFAULT_PRIO] == old(chains[DEFAULT_PRIO]) + [Vcpu(vnode.slot, DEFAULT_PRIO, 0, DEFAULT_PRIO)]
      ensures forall i :: 0 <= i < LEVELS && i != DEFAULT_PRIO ==> chains[i] == old(chains[i])
      ensures forall s :: 0 <= s < |pool| && s != vnode.slot && !Owns(q, s) ==> unchanged(pool[s])
    {
      hide Placed, Queued, Below, Threads, Insert;
      ghost var heads, next, value, v := multiQueue[..], Nexts(pool), Values(pool), Started(vnode.slot);
      assert Threads(chains, pool, heads, next, value);
      vnode.next := null;
      vnode.staticPrio, vnode.prioAdj, vnode.prio := DEFAULT_PRIO, 0, DEFAULT_PRIO;
      vnode.state, vnode.timeSlice, vnode.needResched := Ready, 0, true;
      ThreadsOutside(chains, pool, heads, next, value, v.slot, v);
      assert Values(pool) == value[v.slot := v] && Nexts(pool) == next[v.slot := null];
      InsertPlaced(chains, v);
      InsertedLast(chains, v);
      VTaskInsert(vnode, v);
    }

    lemma InsertedLast(chains: seq<seq<Vcpu>>, v: Vcpu)
      requires v.prio < |chains|
      ensures Insert(chains, v)[v.prio] == chains[v.prio] + [v] && |Insert(chains, v)| == |chains|
      ensures forall i :: 0 <= i < |chains| && i != v.prio ==> Insert(chains, v)[i] == chains[i]
    {
    }

    lemma ReadyIsHeld(q: Queue)
      requires WF(q) && Runnable(q)
      ensures forall s :: Queued(Requeued(q), s) ==> Owns(q, s)
      ensures First(Requeued(q), 0) < LEVELS && Owns(q, Requeued(q)[First(Requeued(q), 0)][0].slot)
    {
      RequeuedHasWork(q);
      if q.running.Some? {
        InsertPlaced(q.chains, Adjusted(q.running.value, false));
      }
      assert At(Requeued(q), First(Requeued(q), 0), 0);
    }
  }
}
