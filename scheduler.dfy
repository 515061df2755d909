/**
 * The thread scheduler: a FIFO ready list of threads waiting for the CPU,
 * the dispatch of the CPU to a chosen thread (split at the machine-dependent
 * context switch), and the deferred destruction of a finished thread.
 */
module Threads {
  import opened Wrappers
  import opened Paging
  import opened UserProg

  datatype ThreadStatus = JustCreated | Running | Ready | Blocked

  datatype IntStatus = IntOff | IntOn

  /** The parts of a kernel thread the scheduler reads and writes. */
  class Thread {
    var status: ThreadStatus
    /** The user program's address space; null for a kernel-only thread. */
    var space: AddrSpace?
    /** The user-level CPU registers saved while the thread is switched out. */
    var userRegisters: seq<int>

    constructor (space: AddrSpace?)
      ensures status == JustCreated && this.space == space && userRegisters == ZeroRegisters()
    {
      status := JustCreated;
      this.space := space;
      userRegisters := ZeroRegisters();
    }

    /** SaveUserState: copy the machine's registers into the thread. */
    method SaveUserState(machine: Machine)
      modifies this`userRegisters
      ensures userRegisters == machine.registers[..]
    {
      userRegisters := machine.registers[..];
    }

    /** RestoreUserState: copy the thread's saved registers back into the machine. */
    method RestoreUserState(machine: Machine)
      requires machine.Valid() && |userRegisters| == NUM_TOTAL_REGS
      modifies machine.registers
      ensures machine.registers[..] == userRegisters
    {
      for i := 0 to NUM_TOTAL_REGS
        invariant forall r :: 0 <= r < i ==> machine.registers[r] == userRegisters[r]
      {
        machine.registers[i] := userRegisters[i];
      }
    }
  }

  function ZeroRegisters(): (z: seq<int>)
    ensures |z| == NUM_TOTAL_REGS
  {
    seq(NUM_TOTAL_REGS, _ => 0)
  }

  /** The global kernel state the scheduler reaches through `kernel->`. */
  class Kernel {
    var currentThread: Thread
    const machine: Machine
    var interruptLevel: IntStatus

    constructor (machine: Machine, first: Thread)
      ensures this.machine == machine && currentThread == first && interruptLevel == IntOn
    {
      this.machine := machine;
      currentThread := first;
      interruptLevel := IntOn;
    }
  }

  // ---------------------------------------------------------------------
  // The ready list as a queue value
  // ---------------------------------------------------------------------

  /** List::Append. */
  function Enqueue<T>(q: seq<T>, t: T): (r: seq<T>)
    ensures |r| == |q| + 1 && r[..|q|] == q && r[|q|] == t
  {
    q + [t]
  }

  /** What List::RemoveFront on a non-empty list, or NULL on an empty one, leaves. */
  datatype Dequeued<T> = Dequeued(next: Option<T>, rest: seq<T>)

  /** FindNextToRun on a queue value: the front element, if any, and the list without it. */
  function Dequeue<T>(q: seq<T>): (r: Dequeued<T>)
    ensures r.next.None? <==> q == []
    ensures r.next.None? ==> r.rest == q
    ensures r.next.Some? ==> q == [r.next.value] + r.rest
  {
    if q == [] then Dequeued(None, q) else Dequeued(Some(q[0]), q[1..])
  }

  /** ReadyToRun for each of ts in turn. */
  function EnqueueAll<T>(q: seq<T>, ts: seq<T>): seq<T>
    decreases |ts|
  {
    if ts == [] then q else EnqueueAll(Enqueue(q, ts[0]), ts[1..])
  }

  /** The results of n FindNextToRun calls in a row. */
  function DrainN<T>(q: seq<T>, n: nat): seq<Option<T>>
    decreases n
  {
    if n == 0 then [] else
      var d := Dequeue(q);
      [d.next] + DrainN(d.rest, n - 1)
  }

  function Somes<T>(ts: seq<T>): (r: seq<Option<T>>)
    ensures |r| == |ts| && forall k :: 0 <= k < |ts| ==> r[k] == Some(ts[k])
  {
    seq(|ts|, k requires 0 <= k < |ts| => Some(ts[k]))
  }

  function Nones<T>(n: nat): (r: seq<Option<T>>)
    ensures |r| == n && forall k :: 0 <= k < n ==> r[k] == None
  {
    seq(n, _ => None)
  }

  /** Appending threads one at a time queues them behind what is there, in order. */
  lemma {:induction false} EnqueueAllAppends<T>(q: seq<T>, ts: seq<T>)
    ensures EnqueueAll(q, ts) == q + ts
    decreases |ts|
  {
    if ts != [] {
      EnqueueAllAppends(Enqueue(q, ts[0]), ts[1..]);
      assert (q + [ts[0]]) + ts[1..] == q + ts;
    }
  }

  /** Somes of a non-empty sequence starts with its front element. */
  lemma SomesCons<T>(q: seq<T>)
    requires q != []
    ensures Somes(q) == [Some(q[0])] + Somes(q[1..])
  {
  }

  /** Nones of a positive count starts with one None. */
  lemma NonesCons<T>(k: nat)
    requires k > 0
    ensures Nones<T>(k) == [None] + Nones(k - 1)
  {
  }

  /** Draining a queue yields its elements front first, then NULL for every further call. */
  lemma {:induction false} DrainYieldsInOrder<T>(q: seq<T>, k: nat)
    ensures DrainN(q, |q| + k) == Somes(q) + Nones(k)
    decreases |q| + k
  {
    if q == [] {
      if k > 0 {
        DrainYieldsInOrder(q, k - 1);
        NonesCons<T>(k);
        assert Somes(q) == [];
      }
    } else {
      var rest := q[1..];
      assert DrainN(q, |q| + k) == [Some(q[0])] + DrainN(rest, |rest| + k);
      DrainYieldsInOrder(rest, k);
      SomesCons(q);
      assert ([Some(q[0])] + Somes(rest)) + Nones(k) == [Some(q[0])] + (Somes(rest) + Nones(k));
    }
  }

  /**
   * FIFO scheduling: after ReadyToRun of t1 .. tn on an empty ready list, n
   * calls of FindNextToRun return t1 .. tn in that order, and every further
   * call returns NULL.
   */
  lemma {:induction false} FifoOrder<T>(ts: seq<T>, k: nat)
    ensures DrainN(EnqueueAll([], ts), |ts| + k) == Somes(ts) + Nones(k)
  {
    EnqueueAllAppends([], ts);
    assert [] + ts == ts;
    DrainYieldsInOrder(ts, k);
  }

  /** A possibly-NULL thread pointer as an Option. */
  function AsOption(t: Thread?): (o: Option<Thread>)
    ensures o.None? <==> t == null
    ensures o.Some? ==> o.value == t
  {
    if t == null then None else Some(t)
  }

  // ---------------------------------------------------------------------
  // The scheduler object
  // ---------------------------------------------------------------------

  class Scheduler {
    const kernel: Kernel
    var readyList: seq<Thread>
    var toBeDestroyed: Thread?
    /** Every thread deleted so far, in order of deletion. */
    ghost var destroyed: seq<Thread>

    /** Every thread on the ready list is READY, and none is on it twice. */
    ghost predicate ReadyListValid()
      reads this, readyList
    {
      && (forall k :: 0 <= k < |readyList| ==> readyList[k].status == Ready)
      && (forall k, l :: 0 <= k < l < |readyList| ==> readyList[k] != readyList[l])
    }

    /** An empty ready list and no thread waiting to be destroyed. */
    constructor (kernel: Kernel)
      ensures this.kernel == kernel && readyList == [] && toBeDestroyed == null && destroyed == []
      ensures ReadyListValid()
    {
      this.kernel := kernel;
      readyList := [];
      toBeDestroyed := null;
      destroyed := [];
    }

    /** ReadyToRun: mark the thread READY and append it to the ready list. */
    method ReadyToRun(thread: Thread)
      requires kernel.interruptLevel == IntOff
      modifies this`readyList, thread`status
      ensures thread.status == Ready
      ensures readyList == Enqueue(old(readyList), thread)
      ensures old(ReadyListValid()) && thread !in old(readyList) ==> ReadyListValid()
    {
      thread.status := Ready;
      readyList := readyList + [thread];
    }

    /** FindNextToRun: remove and return the front of the ready list, or NULL if it is empty. */
    method FindNextToRun() returns (next: Thread?)
      requires kernel.interruptLevel == IntOff
      modifies this`readyList
      ensures Dequeue(old(readyList)) == Dequeued(AsOption(next), readyList)
      ensures old(ReadyListValid()) ==> ReadyListValid() && (next != null ==> next.status == Ready && next !in readyList)
    {
      if readyList == [] {
        return null;
      } else {
        next := readyList[0];
        readyList := readyList[1..];
      }
    }

    /**
     * Run up to the context switch: remember the running thread, hand it to
     * toBeDestroyed if it is finishing, save its user state if it runs a user
     * program, and make nextThread the RUNNING current thread.  The switch
     * itself follows; the caller gets back the old thread.
     */
    method RunBeforeSwitch(nextThread: Thread, finishing: bool) returns (oldThread: Thread)
      requires kernel.interruptLevel == IntOff
      requires finishing ==> toBeDestroyed == null
      modifies this`toBeDestroyed, kernel`currentThread, nextThread`status, kernel.currentThread`userRegisters
      ensures oldThread == old(kernel.currentThread)
      ensures toBeDestroyed == if finishing then oldThread else old(toBeDestroyed)
      ensures kernel.currentThread == nextThread && nextThread.status == Running
      ensures oldThread.userRegisters ==
                if old(oldThread.space) != null then old(kernel.machine.registers[..]) else old(oldThread.userRegisters)
      ensures readyList == old(readyList)
      ensures old(ReadyListValid()) && nextThread !in readyList ==> ReadyListValid()
    {
      oldThread := kernel.currentThread;
      if finishing {
        toBeDestroyed := oldThread;
      }
      if oldThread.space != null {
        oldThread.SaveUserState(kernel.machine);
        oldThread.space.SaveState();
      }
      kernel.currentThread := nextThread;
      nextThread.status := Running;
    }

    /** CheckToBeDestroyed: delete the thread waiting in toBeDestroyed, if any, and empty the slot. */
    method CheckToBeDestroyed()
      modifies this`toBeDestroyed, this`destroyed
      ensures toBeDestroyed == null
      ensures destroyed == old(destroyed) + (if old(toBeDestroyed) == null then [] else [old(toBeDestroyed)])
    {
      if toBeDestroyed != null {
        destroyed := destroyed + [toBeDestroyed];
        toBeDestroyed := null;
      }
    }

    /**
     * Run after the context switch has come back to oldThread: destroy the
     * thread that finished before it, then give oldThread's user program its
     * registers and page table back.
     */
    method RunAfterResume(oldThread: Thread)
      requires kernel.interruptLevel == IntOff
      requires kernel.machine.Valid()
      requires oldThread.space != null ==>
                 oldThread.space.machine == kernel.machine && |oldThread.userRegisters| == NUM_TOTAL_REGS
      modifies this`toBeDestroyed, this`destroyed
      modifies kernel.machine.registers, kernel.machine`pageTable, kernel.machine`pageTableSize
      ensures toBeDestroyed == null
      ensures destroyed == old(destroyed) + (if old(toBeDestroyed) == null then [] else [old(toBeDestroyed)])
      ensures oldThread.space != null ==>
                && kernel.machine.registers[..] == oldThread.userRegisters
                && kernel.machine.pageTable == oldThread.space.pageTable
                && kernel.machine.pageTableSize == oldThread.space.numPages
      ensures oldThread.space == null ==>
                && unchanged(kernel.machine.registers)
                && unchanged(kernel.machine`pageTable, kernel.machine`pageTableSize)
    {
      CheckToBeDestroyed();
      if oldThread.space != null {
        oldThread.RestoreUserState(kernel.machine);
        oldThread.space.RestoreState();
      }
    }
  }
}
