/** What a thread owns (src/thread/thread.c): four heap blocks, a block for each queued message, and two
    frames of kernel stack. */
module ThreadMemory {
  import opened Common
  import opened Frames
  import opened HeapBlocks
  import opened Heap
  import opened KernelMemory
  import opened Ipc

  const THREAD_SIZE: nat := 48
  const CONTEXT_SIZE: nat := 168
  const QUEUE_SIZE: nat := 40
  const STACK_PAGES: nat := 2

  datatype State = Ready | Running | Blocked | Dead

  /** thread_t, its context reduced to the address space root and the entry point. */
  datatype Thread = Thread(tid: nat, context: nat, stack: nat, state: State, queueAt: nat, queue: Queue,
                           exitCode: int, cr3: nat, entry: nat)

  ghost function Stack(t: Thread): set<nat> { Run(t.stack, STACK_PAGES) }

  /** The heap blocks of the thread at p. */
  ghost function BlocksOf(p: nat, t: Thread): set<nat>
    reads t.queue, t.queue.slots
  {
    {p, t.context, t.queueAt} + if t.queue.head < t.queue.slots.Length then t.queue.Blocks() else {}
  }

  /** Those blocks are pairwise different, live, and the stack is neither free nor heap memory. */
  ghost predicate Owns(heap: KernelHeap, p: nat, t: Thread)
    reads heap, heap.pmm.bitmap, t.queue, t.queue.slots
  {
    && t.queue.Valid() && t.queue.Backed(heap)
    && {p, t.context, t.queueAt} <= Pointers(heap)
    && p != t.context && p != t.queueAt && t.context != t.queueAt
    && {p, t.context, t.queueAt} !! t.queue.Blocks()
    && 0 < t.stack && t.stack + STACK_PAGES <= heap.pmm.frameCount && Stack(t) !! Claimed(heap)
  }

  lemma HeapOkFree(m: Words, head: nat, blocks: seq<nat>, free: set<nat>, free': set<nat>)
    requires HeapOk(m, head, blocks, free) && Pages(blocks) !! free'
    ensures HeapOk(m, head, blocks, free')
  {
    hide Linked, Tiled;
    forall b | b in blocks ensures b / PAGE !in free' {
      assert b / PAGE in Pages(blocks);
    }
  }

  lemma PagesTaken(m: Words, head: nat, blocks: seq<nat>, free: set<nat>)
    requires HeapOk(m, head, blocks, free)
    ensures Pages(blocks) !! free
  {
    hide Linked, Tiled;
  }

  /** What allocate_thread obtains, and the state it leaves. */
  datatype Parts = Parts(thread: nat, stack: nat, context: nat, queueAt: nat, ring: nat, s: Snap)

  ghost function StackOf(pmm: FrameAllocator, s: Snap): Option<(nat, Snap)> {
    match Lowest(pmm, s.free, STACK_PAGES)
    case None => None
    case Some(p) => Some((p, s.(free := s.free - Run(p, STACK_PAGES))))
  }

  /** The queue and its ring. */
  ghost function QueueOf(pmm: FrameAllocator, s: Snap): Option<(nat, nat, Snap)> {
    match MallocOf(pmm, s, QUEUE_SIZE)
    case None => None
    case Some((queueAt, s1)) =>
      match MallocOf(pmm, s1, 4 * MSG_SIZE)
      case None => None
      case Some((ring, s2)) => Some((queueAt, ring, s2))
  }

  /** What allocate_thread does in state s: five allocations, or None when one of them fails. */
  ghost function ThreadOf(pmm: FrameAllocator, s: Snap): Option<Parts> {
    match MallocOf(pmm, s, THREAD_SIZE)
    case None => None
    case Some((thread, s1)) =>
      match StackOf(pmm, s1)
      case None => None
      case Some((stack, s2)) =>
        match MallocOf(pmm, s2, CONTEXT_SIZE)
        case None => None
        case Some((context, s3)) =>
          match QueueOf(pmm, s3)
          case None => None
          case Some((queueAt, ring, s4)) => Some(Parts(thread, stack, context, queueAt, ring, s4))
  }

  /** A thread costs, in this order, 48 bytes of heap, two adjacent frames, and 168, 40 and 128 bytes of heap; it can
      be had exactly when each of these can. */
  lemma ThreadExact(pmm: FrameAllocator, s: Snap, p: Parts)
    ensures ThreadOf(pmm, s) == Some(p) <==>
              && var r1 := MallocOf(pmm, s, 48);
              && r1.Some? && r1.value.0 == p.thread && Lowest(pmm, r1.value.1.free, 2) == Some(p.stack)
              && var s1 := r1.value.1;
              && var r2 := MallocOf(pmm, s1.(free := s1.free - {p.stack, p.stack + 1}), 168);
              && r2.Some? && r2.value.0 == p.context
              && var r3 := MallocOf(pmm, r2.value.1, 40);
              && r3.Some? && r3.value.0 == p.queueAt
              && MallocOf(pmm, r3.value.1, 128) == Some((p.ring, p.s))
  {
    hide MallocOf, Lowest;
    assert Run(p.stack, 2) == {p.stack, p.stack + 1};
  }

  /** kpalloc_contiguous for the kernel stack. */
  method NewStack(heap: KernelHeap) returns (r: Option<nat>)
    requires heap.Valid()
    modifies heap.pmm.bitmap
    ensures heap.Valid()
    ensures r.None? ==> Claimed(heap) == old(Claimed(heap)) && StackOf(heap.pmm, old(heap.Now())).None?
    ensures r.Some? ==> StackOf(heap.pmm, old(heap.Now())) == Some((r.value, heap.Now()))
    ensures r.Some? ==> 0 < r.value && r.value + STACK_PAGES <= heap.pmm.frameCount
                        && Run(r.value, STACK_PAGES) <= old(Claimed(heap))
                        && Claimed(heap) == old(Claimed(heap)) - Run(r.value, STACK_PAGES)
  {
    hide HeapOk, FreeSet, Pages, Run;
    ghost var free := heap.pmm.Free();
    PagesTaken(heap.mem, heap.head, heap.blocks, free);
    r := heap.pmm.AllocContiguous(STACK_PAGES);
    LowestIs(heap.pmm, free, STACK_PAGES, r);
    if r.Some? {
      RunFits(free, heap.pmm.FirstPage(), heap.pmm.frameCount, r.value, STACK_PAGES);
    }
    HeapOkFree(heap.mem, heap.head, heap.blocks, free, heap.pmm.Free());
  }

  lemma RunFits(free: set<nat>, first: nat, count: nat, p: nat, n: nat)
    requires Fits(free, first, count, p, n)
    ensures Run(p, n) <= free && p + n <= count
  {
  }

  /** kpfree_contiguous of a kernel stack; it never meets a frame that is already free. */
  method FreeStack(heap: KernelHeap, stack: nat)
    requires heap.Valid() && 0 < stack && stack + STACK_PAGES <= heap.pmm.frameCount
    requires Run(stack, STACK_PAGES) !! Claimed(heap)
    modifies heap.pmm.bitmap
    ensures heap.Valid() && Claimed(heap) == old(Claimed(heap)) + Run(stack, STACK_PAGES)
  {
    hide HeapOk, FreeSet, Pages, Run;
    ghost var free := heap.pmm.Free();
    PagesTaken(heap.mem, heap.head, heap.blocks, free);
    var ok := heap.pmm.ReleaseContiguous(stack, STACK_PAGES);
    assert ok;
    HeapOkFree(heap.mem, heap.head, heap.blocks, free, heap.pmm.Free());
  }

  /** The last two allocations of allocate_thread: the queue and its ring. */
  method NewQueue(heap: KernelHeap) returns (r: Option<(nat, Queue)>)
    requires heap.Valid()
    modifies heap`mem, heap`blocks, heap.pmm.bitmap
    ensures heap.Valid() && Claimed(heap) == old(Claimed(heap))
    ensures r.None? <==> QueueOf(heap.pmm, old(heap.Now())).None?
    ensures r.Some? ==> QueueOf(heap.pmm, old(heap.Now())) == Some((r.value.0, r.value.1.at, heap.Now()))
    ensures r.None? ==> Pointers(heap) == old(Pointers(heap))
    ensures r.Some? ==> var (queueAt, queue) := r.value;
              && fresh(queue) && fresh(queue.slots) && queue.Valid() && queue.Backed(heap) && queue.Contents() == []
              && queue.polled == []
              && queue.Blocks() == {queue.at} && queueAt != queue.at
              && {queueAt, queue.at} !! old(Pointers(heap))
              && Pointers(heap) == old(Pointers(heap)) + {queueAt, queue.at}
  {
    hide HeapOk, FreeSet, Pages, PointersOf, MallocFails, MallocOf, Live, BuffersDiffer, Ring;
    var queueAt := Kmalloc(heap, QUEUE_SIZE);
    if queueAt.None? {
      return None;
    }
    var ring := Kmalloc(heap, 4 * MSG_SIZE);
    if ring.None? {
      Kfree(heap, queueAt.value);
      return None;
    }
    var queue := new Queue(ring.value);
    assert queue.Blocks() == {ring.value};
    return Some((queueAt.value, queue));
  }

  /** allocate_thread.  Either all five resources are taken or none is. */
  method AllocateThread(heap: KernelHeap) returns (r: Option<(nat, Thread)>)
    requires heap.Valid()
    modifies heap`mem, heap`blocks, heap.pmm.bitmap
    ensures heap.Valid()
    ensures r.None? <==> ThreadOf(heap.pmm, old(heap.Now())).None?
    ensures r.Some? ==> var (p, t) := r.value;
              ThreadOf(heap.pmm, old(heap.Now()))
              == Some(Parts(p, t.stack, t.context, t.queueAt, t.queue.at, heap.Now()))
    ensures r.None? ==> Pointers(heap) == old(Pointers(heap)) && Claimed(heap) == old(Claimed(heap))
    ensures r.Some? ==> var (p, t) := r.value;
              && p > 0 && fresh(t.queue) && fresh(t.queue.slots) && Owns(heap, p, t) && t.queue.Contents() == []
              && t.queue.polled == []
              && BlocksOf(p, t) !! old(Pointers(heap)) && Pointers(heap) == old(Pointers(heap)) + BlocksOf(p, t)
              && Stack(t) <= old(Claimed(heap)) && Claimed(heap) == old(Claimed(heap)) - Stack(t)
  {
    hide HeapOk, FreeSet, Pages, Run, PointersOf, MallocFails, MallocOf, StackOf, QueueOf, Live, BuffersDiffer, Ring,
         Buffers, Claimed, Pointers;
    var p := Kmalloc(heap, THREAD_SIZE);
    if p.None? {
      return None;
    }
    var stack := NewStack(heap);
    if stack.None? {
      Kfree(heap, p.value);
      return None;
    }
    var context := Kmalloc(heap, CONTEXT_SIZE);
    if context.None? {
      Kfree(heap, p.value);
      FreeStack(heap, stack.value);
      return None;
    }
    var q := NewQueue(heap);
    if q.None? {
      Kfree(heap, p.value);
      Kfree(heap, context.value);
      FreeStack(heap, stack.value);
      return None;
    }
    var (queueAt, queue) := q.value;
    return Some((p.value, Thread(0, context.value, stack.value, Ready, queueAt, queue, 0, 0, 0)));
  }

  /** free_thread: gives back exactly what the thread owned, each block once. */
  method FreeThread(heap: KernelHeap, p: nat, t: Thread)
    requires heap.Valid() && Owns(heap, p, t)
    modifies heap`mem, heap.pmm.bitmap
    ensures heap.Valid()
    ensures Pointers(heap) == old(Pointers(heap)) - old(BlocksOf(p, t))
    ensures Claimed(heap) == old(Claimed(heap)) + Stack(t)
  {
    hide HeapOk, FreeSet, Pages, Run, PointersOf, Live, BuffersDiffer, Buffers, Ring, Claimed, Pointers;
    ghost var blocks := t.queue.Blocks();
    FreeStack(heap, t.stack);
    assert t.queue.Valid() && t.queue.Blocks() == blocks;
    Kfree(heap, t.context);
    t.queue.Drain(heap);
    Kfree(heap, t.queue.at);
    Kfree(heap, t.queueAt);
    Kfree(heap, p);
  }

  /** A thread that is allocated and freed leaves the heap's live pointers and the frames as they were. */
  method AllocateAndFree(heap: KernelHeap)
    requires heap.Valid()
    modifies heap`mem, heap`blocks, heap.pmm.bitmap
    ensures heap.Valid() && Pointers(heap) == old(Pointers(heap)) && Claimed(heap) == old(Claimed(heap))
  {
    hide HeapOk, FreeSet, Pages, Run, PointersOf, Live, ThreadOf, Queue.Contents, Owns, BlocksOf, Claimed, Pointers;
    var r := AllocateThread(heap);
    if r.Some? {
      FreeThread(heap, r.value.0, r.value.1);
    }
  }
}
