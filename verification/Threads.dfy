/** The thread table (src/thread/thread.c, src/scheduler/scheduler.c) with everything its threads own, and
    the operations that change it. */
module Threads {
  import opened Common
  import opened Frames
  import opened HeapBlocks
  import opened Heap
  import opened KernelMemory
  import opened Ipc
  import opened ThreadMemory
  import opened Scheduling
  import opened SchedulerRuns
  import opened ThreadLists
  import opened Mail

  const POINTER_SIZE: nat := 8
  const MAX_MESSAGE: nat := 2048 // SYSCALL_MAX_BUF

  datatype SendResult = Accepted | Dropped | Invalid | NoSpace

  /** The result of sys_ipc_send, given whether the user's bytes can be read, a kernel buffer can be had, and
      the message can then be queued. */
  function Outcome(size: nat, readable: bool, buffered: bool, reaches: bool): SendResult {
    if size == 0 || size > MAX_MESSAGE then Invalid
    else if !buffered then NoSpace
    else if !readable then Invalid
    else if reaches then Accepted else Dropped
  }

  /** The heap once there is a thread table; None when there is none and none can be had. */
  ghost function TableOf(pmm: FrameAllocator, s: Snap, capacity: nat): Option<Snap> {
    if capacity != 0 then Some(s)
    else
      match MallocOf(pmm, s, POINTER_SIZE * 8)
      case None => None
      case Some((_, s1)) => Some(s1)
  }

  /** The new thread and the heap after it has been set up and there is room for it in the table. */
  ghost function EnlistOf(pmm: FrameAllocator, s: Snap, length: nat, capacity: nat, at: nat): Option<(nat, Snap)> {
    match ThreadOf(pmm, s)
    case None => None
    case Some(parts) =>
      match RoomOf(pmm, parts.s, length, capacity, at, POINTER_SIZE)
      case None => None
      case Some(s1) => Some((parts.thread, s1))
  }

  /** What spawn_thread does in heap state s with a table of so many entries and the given capacity at `at`. */
  ghost function SpawnOf(pmm: FrameAllocator, s: Snap, length: nat, capacity: nat, at: nat): Option<(nat, Snap)> {
    match TableOf(pmm, s, capacity)
    case None => None
    case Some(s1) => EnlistOf(pmm, s1, length, if capacity == 0 then 8 else capacity, at)
  }

  lemma EnlistRoomy(pmm: FrameAllocator, s: Snap, length: nat, capacity: nat, at: nat, at': nat)
    requires length < capacity
    ensures EnlistOf(pmm, s, length, capacity, at) == EnlistOf(pmm, s, length, capacity, at')
  {
    hide ThreadOf;
  }

  /** Spawning in numbers: the first table takes 64 bytes, a full one is replaced by one of 16 bytes an entry. */
  lemma SpawnExact(pmm: FrameAllocator, s: Snap, length: nat, capacity: nat, at: nat)
    requires length <= capacity
    ensures SpawnOf(pmm, s, length, capacity, at) ==
            if capacity == 0 then
              match MallocOf(pmm, s, 64)
              case None => None
              case Some((_, s1)) => (match ThreadOf(pmm, s1) case None => None case Some(p) => Some((p.thread, p.s)))
            else
              match ThreadOf(pmm, s)
              case None => None
              case Some(p) =>
                if length < capacity then Some((p.thread, p.s))
                else
                  match MallocOf(pmm, p.s, 16 * capacity)
                  case None => None
                  case Some((_, s1)) => Some((p.thread, FreeOf(s1, at)))
  {
    hide ThreadOf, MallocOf;
  }

  lemma OutcomeIs(size: nat, readable: bool, buffered: bool, reaches: bool)
    ensures size == 0 || size > 2048 ==> Outcome(size, readable, buffered, reaches) == Invalid
    ensures 0 < size <= 2048 && !buffered ==> Outcome(size, readable, buffered, reaches) == NoSpace
    ensures 0 < size <= 2048 && buffered && !readable ==> Outcome(size, readable, buffered, reaches) == Invalid
    ensures 0 < size <= 2048 && buffered && readable ==>
              Outcome(size, readable, buffered, reaches) == if reaches then Accepted else Dropped
  {
  }

  /** The part of a thread's well-formedness that does not speak of the heap. */
  ghost predicate Formed(p: nat, t: Thread, frames: nat)
    reads t.queue, t.queue.slots
  {
    && t.queue.Valid()
    && p != t.context && p != t.queueAt && t.context != t.queueAt
    && {p, t.context, t.queueAt} !! t.queue.Blocks()
    && 0 < t.stack && t.stack + STACK_PAGES <= frames
  }

  /** The queues and rings of all threads are among `repr`, each under its own thread. */
  ghost predicate Within(store: map<nat, Thread>, repr: map<object, nat>)
    reads repr.Keys
  {
    forall p :: p in store ==>
      && store[p].queue in repr && repr[store[p].queue] == p
      && store[p].queue.slots in repr && repr[store[p].queue.slots] == p
  }

  ghost function Enrol(repr: map<object, nat>, p: nat, queue: Queue, slots: array<Msg>): map<object, nat> {
    var r: map<object, nat> := repr[queue := p];
    r[slots := p]
  }

  ghost predicate AllFormed(store: map<nat, Thread>, repr: map<object, nat>, frames: nat)
    reads repr.Keys
  {
    && Within(store, repr)
    && forall p :: p in store ==> Formed(p, store[p], frames)
  }

  /** Which blocks each thread owns. */
  ghost function BlockMap(store: map<nat, Thread>, repr: map<object, nat>): map<nat, set<nat>>
    requires Within(store, repr)
    reads repr.Keys
  {
    map p | p in store :: BlocksOf(p, store[p])
  }

  ghost function Box(t: Thread): Mailbox
    reads t.queue, t.queue.slots
  {
    Mailbox(t.queue.polled, if t.queue.head < t.queue.slots.Length then t.queue.Contents() else [])
  }

  ghost function Mailboxes(store: map<nat, Thread>, repr: map<object, nat>): (r: map<nat, Mailbox>)
    requires Within(store, repr)
    reads repr.Keys
    ensures r.Keys == store.Keys
  {
    map p | p in store :: Box(store[p])
  }

  /** Thread p has one message more waiting, the last; nothing else has changed. */
  ghost predicate Delivered(mail: map<nat, Mailbox>, mail': map<nat, Mailbox>, p: nat, target: nat, sender: nat,
                            bytes: seq<bv8>) {
    && p in mail && p in mail' && mail' == mail[p := mail'[p]]
    && mail'[p].polled == mail[p].polled && Queued(mail[p].waiting, mail'[p].waiting, target, sender, bytes)
  }

  /** The oldest message waiting for p, if any, has become the last one p has taken. */
  ghost predicate Fetched(mail: map<nat, Mailbox>, mail': map<nat, Mailbox>, p: nat) {
    && p in mail && var w := mail[p].waiting;
    && mail' == if w == [] then mail else mail[p := Mailbox(mail[p].polled + [w[0]], w[1..])]
  }

  ghost function Latest(mail: map<nat, Mailbox>, p: nat): Msg {
    if p in mail && mail[p].waiting != [] then mail[p].waiting[|mail[p].waiting| - 1] else Msg(0, 0, 0, [])
  }

  ghost function Oldest(mail: map<nat, Mailbox>, p: nat): Option<Msg> {
    if p in mail && mail[p].waiting != [] then Some(mail[p].waiting[0]) else None
  }

  /** What sys_ipc_poll returns for the message it took. */
  ghost function Reply(m: Option<Msg>, capacity: nat, copied: bool): nat {
    if m.Some? && |m.value.bytes| <= capacity && copied then |m.value.bytes| else 0
  }

  ghost function StackMap(store: map<nat, Thread>): map<nat, set<nat>> {
    map p | p in store :: Stack(store[p])
  }

  class ThreadTable {
    const heap: KernelHeap
    var threads: array<nat>
    var at: nat
    var length: nat
    // the thread_t at each pointer
    var store: map<nat, Thread>
    var current: nat
    var nextTid: nat
    // the queue and ring objects, with the thread they belong to
    ghost var repr: map<object, nat>

    ghost predicate TableOk()
      reads `threads, `at, `length, `store, `nextTid, threads
    {
      && threads as object != heap.pmm.bitmap
      && TableSize(threads.Length) && (threads.Length == 0 <==> at == 0) && length <= threads.Length
      && 0 < nextTid && Listing(threads[..length], store, nextTid)
    }

    /** Every block and every frame has one owner. */
    ghost predicate Owned()
      reads `store, `at, `repr, `threads, repr.Keys, heap, heap.pmm.bitmap
    {
      heap.Valid() && Kept(Pointers(heap), Claimed(heap))
    }

    /** The threads and the table own blocks of `live` and stacks outside `claimed`, each its own. */
    ghost predicate Kept(live: set<nat>, claimed: set<nat>)
      reads `store, `at, `repr, `threads, repr.Keys
    {
      && repr.Keys !! {this, threads, heap, heap.pmm.bitmap} && AllFormed(store, repr, heap.pmm.frameCount)
      && BlocksOk(BlockMap(store, repr), TableBlock(at), live) && StacksOk(StackMap(store), claimed)
    }

    lemma KeptParts(live: set<nat>, claimed: set<nat>)
      requires Kept(live, claimed)
      ensures Within(store, repr) && repr.Keys !! {this, threads, heap, heap.pmm.bitmap}
      ensures AllFormed(store, repr, heap.pmm.frameCount)
      ensures BlocksOk(BlockMap(store, repr), TableBlock(at), live) && StacksOk(StackMap(store), claimed)
    {
      hide BlocksOk, StacksOk, BlockMap, StackMap, Formed;
    }

    ghost predicate Valid()
      reads this, threads, repr.Keys, heap, heap.pmm.bitmap
    {
      TableOk() && Owned() && (current != 0 ==> current in ReadySet(store))
    }

    /** The live heap pointers that belong to neither the table nor a thread. */
    ghost function Foreign(): set<nat>
      requires Within(store, repr)
      reads `store, `at, `repr, repr.Keys, heap
    {
      Pointers(heap) - (Union(BlockMap(store, repr)) + TableBlock(at))
    }

    /** The frames that are free, the heap's or a stack's. */
    ghost function FrameTotal(): set<nat>
      reads `store, heap, heap.pmm.bitmap
    {
      Union(StackMap(store)) + Claimed(heap)
    }

    ghost function Abs(): Sched
      requires length <= threads.Length
      reads `threads, `length, `store, `current, threads
    {
      Sched(threads[..length], ReadySet(store), current)
    }

    constructor (heap_: KernelHeap)
      requires heap_.Valid()
      ensures Valid() && heap == heap_ && fresh(threads) && store == map[] && length == 0 && current == 0
      ensures nextTid == 1
      ensures Foreign() == Pointers(heap) && FrameTotal() == Claimed(heap) && Posted() == Post(map[], 1)
    {
      heap := heap_;
      threads := new nat[0];
      at, length, store, current, nextTid, repr := 0, 0, map[], 0, 1, map[];
      new;
      assert BlockMap(store, repr) == map[] && StackMap(store) == map[];
      assert Union(map[]) == {};
    }

    // -------------------------------------------------------------- scheduling

    /** scheduler_next */
    method Next() returns (r: nat)
      requires TableOk()
      ensures Selects(Abs(), r)
    {
      hide IndexOf, Ahead, Listing, Around, Distance;
      ListingDistinct(threads[..length], store, nextTid);
      if length == 0 {
        return 0;
      }
      var c := CurrentIndex();
      ghost var table, ready := threads[..length], ReadySet(store);
      for i := 1 to length + 1
        invariant forall k :: 1 <= k < i ==> table[Around(length, c, k)] !in ready
      {
        var index := Around(length, c, i);
        ListedAt(table, store, nextTid, index);
        if store[threads[index]].state == Ready {
          NearestFound(table, ready, store, nextTid, current, c, i);
          return threads[index];
        }
      }
      NoneReady(table, ready, store, nextTid, c);
      return current;
    }

    method CurrentIndex() returns (c: nat)
      requires TableOk() && length > 0
      ensures c < length && c == IndexOf(threads[..length], current)
    {
      ListingDistinct(threads[..length], store, nextTid);
      hide IndexOf, Listing;
      if current != 0 {
        for i := 0 to length
          invariant current !in threads[..i]
        {
          if threads[i] == current {
            assert threads[..length][i] == current;
            IndexIs(threads[..length], i);
            return i;
          }
        }
      }
      return 0;
    }

    /** scheduler_tick.  `live` is false when the choice falls on a thread that is not ready or on a null
        pointer, which the kernel goes on to use. */
    method Tick() returns (live: bool)
      requires TableOk() && Owned()
      modifies `current
      ensures Owned() && Posted() == old(Posted()) && Foreign() == old(Foreign()) && FrameTotal() == old(FrameTotal())
      ensures Step(old(Abs()), Switch, Abs())
      ensures live <==> current in ReadySet(store)
      ensures live <==> ReadySet(store) != {}
    {
      hide IndexOf, Distance, Listing, ThreadTable.Owned, ThreadTable.Posted, ThreadTable.Foreign,
           ThreadTable.FrameTotal;
      OwnedParts();
      var next := Next();
      ListingReady(threads[..length], store, nextTid);
      if next != current {
        current := next;
      }
      live := current in store && store[current].state == Ready;
    }

    /** sys_yield */
    method Yield()
      requires Valid() && current != 0
      modifies `current
      ensures Valid() && current != 0 && Step(old(Abs()), Switch, Abs()) && Posted() == old(Posted())
    {
      hide Selects, Listing, ThreadTable.Owned, ThreadTable.Posted;
      OwnedParts();
      var next := Next();
      ListingReady(threads[..length], store, nextTid);
      SelectsOr(Abs(), next);
      if next == 0 || next == current || next !in store || store[next].state != Ready {
        return;
      }
      current := next;
    }

    /** sys_exit: the machine stops when no other thread is ready. */
    method Exit(code: int) returns (halted: bool)
      requires Valid()
      modifies `current, `store
      ensures TableOk() && halted == (old(current) == 0 || ReadySet(old(store)) == {old(current)})
      ensures store == if old(current) == 0 then old(store)
                       else old(store)[old(current) := old(store)[old(current)].(state := Dead, exitCode := code)]
      ensures !halted ==> Valid() && current != 0 && Foreign() == old(Foreign()) && FrameTotal() == old(FrameTotal())
      ensures !halted ==> Step(old(Abs()), SchedulerRuns.Exit, Abs()) && Posted() == old(Posted())
    {
      hide Selects, Listing, ThreadTable.Owned, ThreadTable.Foreign, ThreadTable.FrameTotal, ThreadTable.Posted;
      if current == 0 {
        return true;
      }
      CurrentListed(store, current);
      MarkDead(code);
      halted := Leave();
    }

    /** The switch of sys_exit away from a dead thread. */
    method Leave() returns (halted: bool)
      requires TableOk() && Owned() && current !in ReadySet(store)
      modifies `current
      ensures halted <==> ReadySet(store) == {}
      ensures !halted ==> current != 0 && current in ReadySet(store) && Selects(old(Abs()), current)
      ensures TableOk() && Owned() && Foreign() == old(Foreign()) && FrameTotal() == old(FrameTotal())
      ensures Posted() == old(Posted())
    {
      hide Selects, Listing, ThreadTable.Owned, ThreadTable.Foreign, ThreadTable.FrameTotal, ThreadTable.Posted;
      OwnedParts();
      var next := Next();
      ListingReady(threads[..length], store, nextTid);
      SelectsOr(Abs(), next);
      if next == 0 || next == current || next !in store || store[next].state != Ready {
        return true;
      }
      current := next;
      return false;
    }

    method MarkDead(code: int)
      requires Valid() && current != 0 && current in store
      modifies `store
      ensures TableOk() && Owned() && Foreign() == old(Foreign()) && FrameTotal() == old(FrameTotal())
      ensures current in old(store)
      ensures store == old(store)[current := old(store)[current].(state := Dead, exitCode := code)]
      ensures ReadySet(store) == ReadySet(old(store)) - {current} && Posted() == old(Posted())
    {
      hide Listing, AllFormed, BlocksOk, StacksOk, HeapOk, FreeSet, BlockMap, StackMap, Claimed, Pointers, Union,
           Within, Mailboxes, ByTid, ReadySet;
      var store' := store[current := store[current].(state := Dead, exitCode := code)];
      MarkedDead(threads[..length], store, store', repr, heap.pmm.frameCount, nextTid, current);
      store := store';
    }

    // -------------------------------------------------------------- spawning

    /** The table allocation at the start of allocate_thread. */
    method EnsureTable() returns (ok: bool)
      requires Valid()
      modifies `threads, `at, heap`mem, heap`blocks, heap.pmm.bitmap
      ensures Valid() && Foreign() == old(Foreign()) && FrameTotal() == old(FrameTotal()) && Abs() == old(Abs())
      ensures ok ==> 0 < threads.Length && at != 0
      ensures ok <==> TableOf(heap.pmm, old(heap.Now()), old(threads.Length)).Some?
      ensures ok ==> TableOf(heap.pmm, old(heap.Now()), old(threads.Length)) == Some(heap.Now())
      ensures !ok ==> heap.Now() == old(heap.Now())
      ensures threads == old(threads) || fresh(threads)
      ensures old(threads.Length) == 0 && ok ==> threads.Length == 8
      ensures old(threads.Length) != 0 ==> threads == old(threads) && at == old(at)
      ensures Posted() == old(Posted())
    {
      hide ThreadTable.Posted, Listing, AllFormed, StacksOk, BlocksOk, HeapOk, FreeSet, BlockMap, StackMap, Claimed,
           Pointers, Union, Within, MallocOf, ReadySet, ThreadTable.Kept;
      ghost var live, claimed := Pointers(heap), Claimed(heap);
      KeptParts(live, claimed);
      if threads.Length != 0 {
        return true;
      }
      var p := Kmalloc(heap, POINTER_SIZE * 8);
      if p.None? {
        return false;
      }
      TableMoved(BlockMap(store, repr), {}, live, {p.value}, Pointers(heap));
      threads, at := new nat[8], p.value;
      assert threads[..0] == old(threads[..length]);
      KeptIf(Pointers(heap), Claimed(heap));
      return true;
    }

    /** The doubling of the table in spawn_thread.  256 entries are the most: the next table would need
        4096 bytes. */
    method GrowTable() returns (ok: bool)
      requires TableOk() && heap.Valid() && at in Pointers(heap)
      modifies `threads, `at, heap`mem, heap`blocks, heap.pmm.bitmap
      ensures TableOk() && heap.Valid() && Claimed(heap) == old(Claimed(heap)) && Abs() == old(Abs())
      ensures var room := RoomOf(heap.pmm, old(heap.Now()), old(threads.Length), old(threads.Length), old(at),
                                 POINTER_SIZE);
              (ok <==> room.Some?) && (ok ==> heap.Now() == room.value)
      ensures match MallocOf(heap.pmm, old(heap.Now()), 16 * old(threads.Length))
              case None => !ok
              case Some((p, s)) => ok && at == p && heap.Now() == FreeOf(s, old(at))
      ensures !ok ==> heap.Now() == old(heap.Now())
      ensures old(threads.Length) == 256 ==> !ok
      ensures !ok ==> threads == old(threads) && at == old(at) && Pointers(heap) == old(Pointers(heap))
      ensures ok ==> fresh(threads) && threads.Length == 2 * old(threads.Length) && at !in old(Pointers(heap))
      ensures ok ==> Pointers(heap) == old(Pointers(heap)) - {old(at)} + {at}
    {
      hide Listing, HeapOk, FreeSet, Claimed, Pointers, Align16, NoFrame, MallocOf;
      var newCap := threads.Length * 2;
      RefusedFails(heap.pmm, heap.Now(), POINTER_SIZE * newCap);
      var p := Kmalloc(heap, POINTER_SIZE * newCap);
      if p.None? {
        return false;
      }
      var tmp := CopyTable(newCap);
      Kfree(heap, at);
      threads, at := tmp, p.value;
      return true;
    }

    method CopyTable(newCap: nat) returns (tmp: array<nat>)
      requires length <= threads.Length <= newCap
      ensures fresh(tmp) && tmp.Length == newCap && tmp[..length] == threads[..length]
    {
      tmp := new nat[newCap];
      for i := 0 to length
        invariant tmp[..i] == threads[..i]
      {
        tmp[i] := threads[i];
      }
    }

    /** spawn_thread; the result is 0 when no thread was created. */
    method Spawn(entry: nat, cr3: nat) returns (r: nat)
      requires Valid()
      modifies `threads, `at, `length, `store, `nextTid, `repr, threads, heap`mem, heap`blocks, heap.pmm.bitmap
      ensures Valid() && Foreign() == old(Foreign()) && FrameTotal() == old(FrameTotal())
      ensures nextTid == old(nextTid) || nextTid == old(nextTid) + 1
      ensures entry == 0 || old(length) == 256 ==> r == 0
      ensures var made := SpawnOf(heap.pmm, old(heap.Now()), old(length), old(threads.Length), old(at));
              (r == 0 <==> entry == 0 || made.None?) && (r != 0 ==> made == Some((r, heap.Now())))
      ensures r == 0 ==> Abs() == old(Abs()) && store == old(store) && repr == old(repr)
      ensures r != 0 ==> Step(old(Abs()), Event.Spawn(r), Abs())
      ensures PostStep(old(Posted()), if r != 0 then Born(old(nextTid)) else Still, Posted())
      ensures r != 0 ==>
                r !in old(store) && r in store && store == old(store)[r := store[r]] && nextTid == old(nextTid) + 1
      ensures r != 0 ==>
                var t := store[r]; t.tid == old(nextTid) && t.state == Ready && t.cr3 == cr3 && t.entry == entry
    {
      hide Listing, TableOf, EnlistOf, PostStep, ReadySet, ThreadTable.Owned, ThreadTable.Foreign,
           ThreadTable.FrameTotal, ThreadTable.Posted;
      OwnedParts();
      StillPost(Posted(), Posted());
      if entry == 0 {
        return 0;
      }
      var ok := EnsureTable();
      if !ok {
        return 0;
      }
      if old(threads.Length) == 0 {
        EnlistRoomy(heap.pmm, heap.Now(), length, 8, at, old(at));
      }
      r := Enlist(entry, cr3);
    }

    /** spawn_thread once there is a table. */
    method Enlist(entry: nat, cr3: nat) returns (r: nat)
      requires Valid() && 0 < threads.Length && at != 0
      modifies `threads, `at, `length, `store, `nextTid, `repr, threads, heap`mem, heap`blocks, heap.pmm.bitmap
      ensures Valid() && Foreign() == old(Foreign()) && FrameTotal() == old(FrameTotal())
      ensures nextTid == old(nextTid) || nextTid == old(nextTid) + 1
      ensures old(length) == 256 ==> r == 0
      ensures var made := EnlistOf(heap.pmm, old(heap.Now()), old(length), old(threads.Length), old(at));
              (r == 0 <==> made.None?) && (r != 0 ==> made == Some((r, heap.Now())))
      ensures r == 0 ==> Abs() == old(Abs()) && store == old(store) && repr == old(repr)
      ensures r != 0 ==> Step(old(Abs()), Event.Spawn(r), Abs())
      ensures PostStep(old(Posted()), if r != 0 then Born(old(nextTid)) else Still, Posted())
      ensures r != 0 ==>
                r !in old(store) && r in store && store == old(store)[r := store[r]] && nextTid == old(nextTid) + 1
      ensures r != 0 ==>
                var t := store[r]; t.tid == old(nextTid) && t.state == Ready && t.cr3 == cr3 && t.entry == entry
    {
      hide Listing, AllFormed, StacksOk, BlocksOk, HeapOk, FreeSet, BlockMap, StackMap, Claimed, Pointers, Union,
           Within, ReadySet, BlocksOf, Formed, Mailboxes, ByTid, Box, PostStep, ThreadOf, RoomOf, ThreadTable.Pending,
           ThreadTable.Owned;
      OwnedParts();
      ghost var live, claimed := Pointers(heap), Claimed(heap);
      var a := SetUp(entry, cr3);
      if a.None? {
        StillPost(old(Posted()), Posted());
        return 0;
      }
      var (p, t) := a.value;
      ghost var live';
      var ok;
      ok, live' := MakeRoom(p, t, live, claimed);
      if !ok {
        Discard(p, t, live, claimed);
        StillPost(old(Posted()), Posted());
        return 0;
      }
      ListingReady(threads[..length], store, nextTid);
      ListingTids(threads[..length], store, old(nextTid));
      ghost var mail := Mailboxes(store, repr);
      Insert(p, t, live', claimed);
      ReadyAdded(old(store), p, t);
      BornPost(old(store), mail, Mailboxes(store, repr), p, t);
      return p;
    }

    /** allocate_thread, and the fields spawn_thread fills in.  The identifier is used up either way. */
    method SetUp(entry: nat, cr3: nat) returns (r: Option<(nat, Thread)>)
      requires TableOk() && Owned()
      modifies `nextTid, heap`mem, heap`blocks, heap.pmm.bitmap
      ensures TableOk() && Listing(threads[..length], store, old(nextTid)) && Within(store, repr)
      ensures BlockMap(store, repr) == old(BlockMap(store, repr))
      ensures Mailboxes(store, repr) == old(Mailboxes(store, repr))
      ensures var made := ThreadOf(heap.pmm, old(heap.Now()));
              (r.None? <==> made.None?) && (r.Some? ==> made.value.thread == r.value.0 && made.value.s == heap.Now())
      ensures r.None? ==> Owned() && nextTid == old(nextTid)
      ensures r.None? ==> Pointers(heap) == old(Pointers(heap)) && Claimed(heap) == old(Claimed(heap))
      ensures r.Some? ==> var (p, t) := r.value;
                && p > 0 && nextTid == old(nextTid) + 1 && fresh(t.queue) && fresh(t.queue.slots)
                && Pending(p, t, old(Pointers(heap)), old(Claimed(heap)))
                && t.tid == old(nextTid) && t.state == Ready && t.cr3 == cr3 && t.entry == entry
    {
      hide Listing, HeapOk, FreeSet, BlockMap, Claimed, Pointers, Within, Owns, BlocksOf, Mailboxes, Box, ThreadOf,
           Stack, AllFormed, Formed, Queue.Valid, Queue.Contents, ThreadTable.Kept;
      KeptParts(Pointers(heap), Claimed(heap));
      var a := AllocateThread(heap);
      if a.None? {
        return None;
      }
      var (p, t0) := a.value;
      var t := t0.(tid := nextTid, state := Ready, exitCode := 0, cr3 := cr3, entry := entry);
      OwnsFormed(heap, p, t0, t);
      BoxIs(t);
      ListingNext(threads[..length], store, nextTid);
      nextTid := nextTid + 1;
      return Some((p, t));
    }

    /** The thread p is set up but not in the table: its blocks and its stack come on top of `live` and out
        of `claimed`, which are in order without it. */
    ghost predicate Pending(p: nat, t: Thread, live: set<nat>, claimed: set<nat>)
      reads `store, `at, `repr, `threads, repr.Keys, heap, heap.pmm.bitmap, t.queue, t.queue.slots
    {
      && heap.Valid() && Kept(live, claimed)
      && p > 0 && Formed(p, t, heap.pmm.frameCount) && Box(t) == Mailbox([], [])
      && {t.queue, t.queue.slots} !! repr.Keys + {this, threads, heap, heap.pmm.bitmap}
      && BlocksOf(p, t) !! live && Pointers(heap) == live + BlocksOf(p, t)
      && Stack(t) <= claimed && Claimed(heap) == claimed - Stack(t)
    }

    method MakeRoom(p: nat, t: Thread, ghost live: set<nat>, ghost claimed: set<nat>)
      returns (ok: bool, ghost live': set<nat>)
      requires TableOk() && Pending(p, t, live, claimed) && at != 0
      modifies `threads, `at, heap`mem, heap`blocks, heap.pmm.bitmap
      ensures TableOk() && Pending(p, t, live', claimed) && Abs() == old(Abs())
      ensures (threads == old(threads) || fresh(threads))
      ensures live' - (Union(BlockMap(store, repr)) + TableBlock(at)) ==
              live - (Union(BlockMap(store, repr)) + TableBlock(old(at)))
      ensures BlockMap(store, repr) == old(BlockMap(store, repr))
      ensures Mailboxes(store, repr) == old(Mailboxes(store, repr))
      ensures ok ==> length < threads.Length
      ensures var room := RoomOf(heap.pmm, old(heap.Now()), old(length), old(threads.Length), old(at), POINTER_SIZE);
              (ok <==> room.Some?) && (ok ==> heap.Now() == room.value)
      ensures !ok ==> at == old(at) && live' == live
      ensures old(length) == 256 ==> !ok
    {
      hide Listing, HeapOk, FreeSet, BlockMap, Claimed, Pointers, Union, Within, MallocOf, BlocksOk, BlocksOf,
           AllFormed, Formed, StacksOk, StackMap, Mailboxes, Box, Stack, ThreadTable.Kept;
      live' := live;
      KeptParts(live, claimed);
      if length < threads.Length {
        return true, live;
      }
      TableIsLive(BlockMap(store, repr), at, live);
      ok := GrowTable();
      if ok {
        live' := live - {old(at)} + {at};
        TableSwapped(old(at), at, live, live', claimed);
      }
    }

    lemma TableSwapped(at0: nat, at1: nat, live: set<nat>, live': set<nat>, claimed: set<nat>)
      requires repr.Keys !! {this, threads, heap, heap.pmm.bitmap} && at == at1 && at0 != 0 && at1 != 0
      requires AllFormed(store, repr, heap.pmm.frameCount) && StacksOk(StackMap(store), claimed)
      requires Within(store, repr) && BlocksOk(BlockMap(store, repr), {at0}, live)
      requires at1 !in live && live' == live - {at0} + {at1}
      ensures Kept(live', claimed)
      ensures live' - (Union(BlockMap(store, repr)) + {at1}) == live - (Union(BlockMap(store, repr)) + {at0})
    {
      hide AllFormed, StacksOk, BlocksOk, BlockMap, StackMap, Union, Within;
      TableMoved(BlockMap(store, repr), {at0}, live, {at1}, live');
    }

    method Discard(p: nat, t: Thread, ghost live: set<nat>, ghost claimed: set<nat>)
      requires Pending(p, t, live, claimed)
      modifies heap`mem, heap.pmm.bitmap
      ensures Owned() && Pointers(heap) == live && Claimed(heap) == claimed
      ensures BlockMap(store, repr) == old(BlockMap(store, repr))
      ensures Mailboxes(store, repr) == old(Mailboxes(store, repr))
    {
      hide Mailboxes, AllFormed, StacksOk, BlocksOk, HeapOk, FreeSet, BlockMap, StackMap, Claimed, Pointers, Union,
           Within, BlocksOf;
      OwnsIf(heap, p, t);
      ghost var blocks := BlocksOf(p, t);
      assert live + blocks - blocks == live && claimed - Stack(t) + Stack(t) == claimed;
      FreeThread(heap, p, t);
    }

    method Insert(p: nat, t: Thread, ghost live: set<nat>, ghost claimed: set<nat>)
      requires TableOk() && Pending(p, t, live, claimed) && length < threads.Length && t.tid == nextTid - 1 > 0
      requires Listing(threads[..length], store, nextTid - 1)
      modifies `length, `store, `repr, threads
      ensures TableOk() && Owned() && p !in old(store) && store == old(store)[p := t] && length == old(length) + 1
      ensures threads[..length] == old(threads[..length]) + [p] && repr == Enrol(old(repr), p, t.queue, t.queue.slots)
      ensures Foreign() == live - old(Union(BlockMap(store, repr)) + TableBlock(at))
      ensures FrameTotal() == old(Union(StackMap(store))) + claimed
      ensures Within(store, repr) && Mailboxes(store, repr) == old(Mailboxes(store, repr))[p := Mailbox([], [])]
    {
      hide Listing, AllFormed, StacksOk, BlocksOk, HeapOk, FreeSet, BlockMap, StackMap, Claimed, Pointers, Union,
           Within, Mailboxes, Enrol, ThreadTable.Pending, ThreadTable.Kept;
      Adopted(p, t, live, claimed);
      ListingAppend(threads[..length], store, nextTid - 1, p, t);
      threads[length] := p;
      length := length + 1;
      store := store[p := t];
      repr := Enrol(repr, p, t.queue, t.queue.slots);
      assert threads[..length] == old(threads[..length]) + [p];
      KeptIf(Pointers(heap), Claimed(heap));
    }

    lemma KeptIf(live: set<nat>, claimed: set<nat>)
      requires repr.Keys !! {this, threads, heap, heap.pmm.bitmap} && AllFormed(store, repr, heap.pmm.frameCount)
      requires Within(store, repr) && BlocksOk(BlockMap(store, repr), TableBlock(at), live)
      requires StacksOk(StackMap(store), claimed)
      ensures Kept(live, claimed)
    {
      hide AllFormed, BlocksOk, StacksOk, BlockMap, StackMap;
    }

    /** What putting the thread p into the store amounts to. */
    lemma Adopted(p: nat, t: Thread, live: set<nat>, claimed: set<nat>)
      requires Pending(p, t, live, claimed)
      ensures heap.Valid() && p > 0 && p !in store && Within(store, repr)
      ensures var store', repr' := store[p := t], Enrol(repr, p, t.queue, t.queue.slots);
              && repr'.Keys !! {this, threads, heap, heap.pmm.bitmap} && AllFormed(store', repr', heap.pmm.frameCount)
              && Within(store', repr') && BlocksOk(BlockMap(store', repr'), TableBlock(at), Pointers(heap))
              && StacksOk(StackMap(store'), Claimed(heap))
              && Pointers(heap) - (Union(BlockMap(store', repr')) + TableBlock(at))
                 == live - (Union(BlockMap(store, repr)) + TableBlock(at))
              && Union(StackMap(store')) + Claimed(heap) == Union(StackMap(store)) + claimed
              && Mailboxes(store', repr') == Mailboxes(store, repr)[p := Mailbox([], [])]
    {
      hide AllFormed, StacksOk, BlocksOk, HeapOk, FreeSet, BlockMap, StackMap, Claimed, Pointers, Union, Within,
           BlocksOf, Formed, Mailboxes, Box, Stack, Queue.Valid, Enrol;
      FormedWithin(store, repr, heap.pmm.frameCount);
      NotListed(store, repr, p, t, TableBlock(at), live);
      AdoptFormed(store, repr, heap.pmm.frameCount, p, t);
      EnrolApart(repr, p, t.queue, t.queue.slots, {this, threads, heap, heap.pmm.bitmap});
      assert live + BlocksOf(p, t) - BlocksOf(p, t) == live - {};
      OwnAgain(BlockMap(store, repr), BlockMap(store, repr)[p := BlocksOf(p, t)], TableBlock(at), live, Pointers(heap),
               p, {}, BlocksOf(p, t));
      StackAdded(StackMap(store), claimed, p, Stack(t));
    }

    // -------------------------------------------------------------- removing threads

    /** The loop that closes the gap in the table, as sys_free_thread, exec_reap and fault_recovery have it. */
    method Remove(p: nat)
      requires length <= threads.Length && Distinct(threads[..length]) && p in threads[..length]
      modifies threads, `length
      ensures length == old(length) - 1 && threads[..length] == Without(old(threads[..length]), p)
    {
      hide Without, Distinct;
      ghost var table := threads[..length];
      for i := 0 to length
        invariant threads[..length] == table && p !in table[..i]
      {
        if threads[i] == p {
          assert table[i] == p;
          Shift(i);
          length := length - 1;
          ClosedUp(table, threads[..length], i);
          return;
        }
      }
      assert false;
    }

    method Shift(i: nat)
      requires i < length <= threads.Length
      modifies threads
      ensures forall k :: 0 <= k < i ==> threads[k] == old(threads[k])
      ensures forall k :: i <= k < length - 1 ==> threads[k] == old(threads[k + 1])
    {
      var j := i;
      while j + 1 < length
        invariant i <= j < length
        invariant forall k :: 0 <= k < i ==> threads[k] == old(threads[k])
        invariant forall k :: i <= k < j ==> threads[k] == old(threads[k + 1])
        invariant forall k :: j <= k < threads.Length ==> threads[k] == old(threads[k])
      {
        threads[j] := threads[j + 1];
        j := j + 1;
      }
    }

    /** free_thread on a thread of the store: its blocks and its stack are given back, nothing else is. */
    method Reap(p: nat)
      requires Owned() && p in store && TidsDiffer(store)
      modifies `store, heap`mem, heap.pmm.bitmap
      ensures Owned() && store == old(store) - {p}
      ensures Foreign() == old(Foreign()) && FrameTotal() == old(FrameTotal())
      ensures PostStep(old(Posted()), Gone(old(store)[p].tid), Posted())
    {
      hide AllFormed, StacksOk, BlocksOk, HeapOk, FreeSet, BlockMap, StackMap, Claimed, Pointers, Union, Within,
           Mailboxes, ByTid, PostStep, TidsDiffer, ThreadTable.Kept;
      KeptParts(Pointers(heap), Claimed(heap));
      FreeParts(p);
      store := store - {p};
      KeptIf(Pointers(heap), Claimed(heap));
    }

    /** The frees themselves. */
    method FreeParts(p: nat)
      requires Owned() && p in store && TidsDiffer(store)
      modifies heap`mem, heap.pmm.bitmap
      ensures heap.Valid() && AllFormed(store - {p}, repr, heap.pmm.frameCount) && Within(store - {p}, repr)
      ensures BlocksOk(BlockMap(store - {p}, repr), TableBlock(at), Pointers(heap))
      ensures StacksOk(StackMap(store - {p}), Claimed(heap))
      ensures Pointers(heap) - (Union(BlockMap(store - {p}, repr)) + TableBlock(at)) == old(Foreign())
      ensures Union(StackMap(store - {p})) + Claimed(heap) == old(FrameTotal())
      ensures PostStep(old(Posted()), Gone(store[p].tid), Post(ByTid(store - {p}, Mailboxes(store - {p}, repr)),
                                                               nextTid))
    {
      hide AllFormed, StacksOk, BlocksOk, HeapOk, FreeSet, BlockMap, StackMap, Claimed, Pointers, Union, Within, Owns,
           BlocksOf, Formed, Mailboxes, ByTid, PostStep, Queue.Valid, Queue.Blocks, Queue.Contents, Stack, TidsDiffer;
      ghost var live, claimed := Pointers(heap), Claimed(heap);
      FormedWithin(store, repr, heap.pmm.frameCount);
      Reaped(store, repr, heap.pmm.frameCount, p, TableBlock(at), live, live - BlocksOf(p, store[p]), claimed, nextTid);
      OwnsIf(heap, p, store[p]);
      ghost var blocks, mail := BlockMap(store - {p}, repr), Mailboxes(store - {p}, repr);
      FreeThread(heap, p, store[p]);
      assert BlockMap(store - {p}, repr) == blocks && Mailboxes(store - {p}, repr) == mail;
    }

    method FindTid(tid: nat) returns (p: nat)
      requires TableOk()
      ensures p == 0 ==> forall q :: q in store ==> store[q].tid != tid
      ensures p != 0 ==> p in store && store[p].tid == tid && p in threads[..length]
    {
      hide IndexOf;
      for i := 0 to length
        invariant forall k :: 0 <= k < i ==> store[threads[..length][k]].tid != tid
      {
        if store[threads[i]].tid == tid {
          assert threads[..length][i] == threads[i];
          return threads[i];
        }
      }
      return 0;
    }

    /** sys_free_thread */
    method FreeTid(tid: nat) returns (ok: bool, ghost p: nat)
      requires Valid()
      modifies `length, `store, threads, heap`mem, heap.pmm.bitmap
      ensures Valid() && Foreign() == old(Foreign()) && FrameTotal() == old(FrameTotal())
      ensures ok <==> current != 0 && exists q :: q in old(store) && q != current && old(store)[q].tid == tid
      ensures ok ==> p in old(store) && old(store)[p].tid == tid && store == old(store) - {p}
      ensures Step(old(Abs()), if ok then Event.Free(p) else Other, Abs())
      ensures PostStep(old(Posted()), if ok then Gone(tid) else Still, Posted())
    {
      hide Step, Listing, ThreadTable.Owned, ThreadTable.Foreign, ThreadTable.FrameTotal, ThreadTable.Posted, PostStep;
      OwnedParts();
      OtherStep(Abs());
      p := 0;
      if tid == 0 || current == 0 || tid == store[current].tid {
        TidFacts(threads[..length], store, nextTid, tid, current);
        StillPost(Posted(), Posted());
        return false, 0;
      }
      var t := FindTid(tid);
      if t == 0 {
        StillPost(Posted(), Posted());
        return false, 0;
      }
      ExecReap(t);
      return true, t;
    }

    /** The table part of exec_reap, which sys_free_thread repeats: another thread leaves the table and is
        freed. */
    method ExecReap(child: nat)
      requires Valid() && child in store && child != current
      modifies `length, `store, threads, heap`mem, heap.pmm.bitmap
      ensures Valid() && Foreign() == old(Foreign()) && FrameTotal() == old(FrameTotal())
      ensures store == old(store) - {child} && Step(old(Abs()), Event.Free(child), Abs())
      ensures PostStep(old(Posted()), Gone(old(store)[child].tid), Posted())
    {
      hide Without, Listing, ThreadTable.Owned, ThreadTable.Foreign, ThreadTable.FrameTotal, ThreadTable.Posted,
           PostStep;
      InTable(threads[..length], store, nextTid, child);
      Withdraw(child);
    }

    /** The table entry is closed up and the thread freed. */
    method Withdraw(p: nat)
      requires TableOk() && Owned() && p in store
      modifies `length, `store, threads, heap`mem, heap.pmm.bitmap
      ensures TableOk() && Owned() && Foreign() == old(Foreign()) && FrameTotal() == old(FrameTotal())
      ensures p in old(threads[..length]) && threads[..length] == Without(old(threads[..length]), p)
      ensures store == old(store) - {p} && ReadySet(store) == ReadySet(old(store)) - {p}
      ensures PostStep(old(Posted()), Gone(old(store)[p].tid), Posted())
    {
      hide IndexOf, Without, Listing, ThreadTable.Owned, ThreadTable.Foreign, ThreadTable.FrameTotal,
           ThreadTable.Posted, PostStep;
      OwnedParts();
      ListingTids(threads[..length], store, nextTid);
      ListingRemove(threads[..length], store, nextTid, p);
      ListingDistinct(threads[..length], store, nextTid);
      Remove(p);
      Reap(p);
    }

    /** fault_recovery: the current thread is removed and freed and another one chosen.  `live` says that the
        choice is a ready thread; the search no longer finds the old one and starts at the first entry.
        Without a current thread it only switches. */
    method Recover() returns (live: bool)
      requires Valid()
      modifies `length, `store, `current, threads, heap`mem, heap.pmm.bitmap
      ensures TableOk() && Owned() && Foreign() == old(Foreign()) && FrameTotal() == old(FrameTotal())
      ensures Step(old(Abs()), if old(current) == 0 then Switch else Fault, Abs())
      ensures store == old(store) - {old(current)}
      ensures live <==> ReadySet(old(store)) - {old(current)} != {}
      ensures PostStep(old(Posted()), if old(current) == 0 then Still else Gone(TidAt(old(store), old(current))),
                       Posted())
      ensures live ==> Valid() && current != 0
      ensures !live ==> current !in ReadySet(store)
    {
      hide IndexOf, Without, Listing, Selects, ThreadTable.Owned, ThreadTable.Foreign, ThreadTable.FrameTotal,
           ThreadTable.Posted, PostStep;
      OwnedParts();
      if current != 0 {
        live := Replace();
        return;
      }
      ListingReady(threads[..length], store, nextTid);
      assert store - {0} == store && ReadySet(store) - {0} == ReadySet(store);
      live := Tick();
      StillPost(Posted(), Posted());
    }

    /** The faulting thread is freed, and another one chosen. */
    method Replace() returns (live: bool)
      requires Valid() && current != 0
      modifies `length, `store, `current, threads, heap`mem, heap.pmm.bitmap
      ensures TableOk() && Owned() && Foreign() == old(Foreign()) && FrameTotal() == old(FrameTotal())
      ensures Step(old(Abs()), Fault, Abs()) && store == old(store) - {old(current)}
      ensures live <==> ReadySet(old(store)) - {old(current)} != {}
      ensures PostStep(old(Posted()), Gone(TidAt(old(store), old(current))), Posted())
      ensures live ==> Valid() && current != 0
      ensures !live ==> current !in ReadySet(store)
    {
      hide IndexOf, Without, Listing, Selects, Step, ThreadTable.Owned, ThreadTable.Foreign, ThreadTable.FrameTotal,
           ThreadTable.Posted, PostStep;
      OwnedParts();
      ghost var s := Abs();
      Withdraw(current);
      ghost var s1 := Abs();
      live := Tick();
      FaultStep(s, s1, Abs());
      ListingReady(threads[..length], store, nextTid);
    }

    // -------------------------------------------------------------- messages

    /** What every thread has received and what is waiting for it. */
    ghost function Mail(): map<nat, Mailbox>
      requires Within(store, repr)
      reads `store, `repr, repr.Keys
    {
      Mailboxes(store, repr)
    }

    /** The mailboxes by thread identifier. */
    ghost function Posted(): Post
      requires Within(store, repr)
      reads `store, `repr, `nextTid, repr.Keys
    {
      Post(ByTid(store, Mailboxes(store, repr)), nextTid)
    }

    lemma Separate()
      requires Owned()
      ensures threads !in repr && this !in repr && heap !in repr && heap.pmm.bitmap !in repr
    {
      hide AllFormed, BlocksOk, StacksOk, BlockMap;
    }

    /** From heap state s, the queue of thread t takes a message of `size` bytes. */
    ghost predicate Takes(t: nat, s: Snap, size: nat)
      requires t in store
      reads `store, store[t].queue
    {
      var q := store[t].queue;
      SendOf(heap.pmm, s, q.count, q.slots.Length, q.at, size).Some?
    }

    /** From heap state s, some thread with identifier `target` takes it. */
    ghost predicate Reaches(target: nat, s: Snap, size: nat)
      requires Within(store, repr)
      reads `store, `repr, repr.Keys
    {
      exists t :: t in store && store[t].tid == target && Takes(t, s, size)
    }

    lemma ReachesOne(target: nat, t: nat, s: Snap, size: nat)
      requires Within(store, repr) && TidsDiffer(store) && t in store && store[t].tid == target
      ensures Reaches(target, s, size) <==> Takes(t, s, size)
    {
      hide Within, ThreadTable.Takes;
    }

    lemma ReachesNone(target: nat, s: Snap, size: nat)
      requires Within(store, repr)
      ensures (forall q :: q in store ==> store[q].tid != target) || Refused(size) ==> !Reaches(target, s, size)
    {
      hide Within, Align16;
    }

    /** kipc_send.  p is the thread whose queue is to take the message, 0 when the target does not exist; no
        other queue changes. */
    method Send(target: nat, bytes: seq<bv8>) returns (ok: bool, ghost p: nat)
      requires Valid() && current != 0
      modifies `repr, repr.Keys, heap`mem, heap`blocks, heap.pmm.bitmap
      ensures Valid() && Foreign() == old(Foreign()) && FrameTotal() == old(FrameTotal()) && Abs() == old(Abs())
      ensures (forall q :: q in store ==> store[q].tid != target) || Refused(|bytes|) ==> !ok
      ensures ok <==> old(Reaches(target, heap.Now(), |bytes|))
      ensures !ok ==> Mail() == old(Mail())
      ensures ok ==>
                p in store && store[p].tid == target
                && Delivered(old(Mail()), Mail(), p, target, store[current].tid, bytes)
      ensures PostStep(old(Posted()), if ok then MailEvent.Sent(target, Latest(Mail(), p)) else Still, Posted())
    {
      hide *;
      ValidParts();
      OwnedParts();
      Separate();
      PostedIs();
      ListingTids(threads[..length], store, nextTid);
      StillPost(Posted(), Posted());
      p := 0;
      var t := FindTid(target);
      ReachesNone(target, heap.Now(), |bytes|);
      if t == 0 {
        return false, 0;
      }
      ghost var mail := Mail();
      ReachesOne(target, t, heap.Now(), |bytes|);
      ok := Deliver(t, target, store[current].tid, bytes);
      OwnedParts();
      PostedIs();
      ValidIf();
      if ok {
        DeliveredPost(store, mail, Mail(), t, target, store[current].tid, bytes, nextTid);
      }
      return ok, t;
    }

    lemma ValidParts()
      requires Valid()
      ensures TableOk() && Owned() && Listing(threads[..length], store, nextTid)
      ensures current != 0 ==> current in ReadySet(store) && current in store
      ensures length <= threads.Length && threads as object != heap.pmm.bitmap
    {
      hide ThreadTable.Owned, Listing;
    }

    lemma ValidIf()
      requires TableOk() && Owned() && (current != 0 ==> current in ReadySet(store))
      ensures Valid()
    {
      hide ThreadTable.Owned, ThreadTable.TableOk, ReadySet;
    }

    lemma PostedIs()
      requires Within(store, repr)
      ensures Posted() == Post(ByTid(store, Mail()), nextTid) && Mail().Keys == store.Keys
    {
      hide Within, ByTid;
    }

    /** The state with the queue of thread t taken out: what the other threads own, and what t owned. */
    ghost predicate Lent(t: nat, others: map<object, nat>, blocks: map<nat, set<nat>>, live: set<nat>, owned: set<nat>,
                         mail: map<nat, Mailbox>, box: Mailbox)
      reads `store, `at, `threads, others.Keys
    {
      && t in store && AllFormed(store - {t}, others, heap.pmm.frameCount)
      && others.Keys !! {this, threads, heap, heap.pmm.bitmap}
      && BlockMap(store - {t}, others) == blocks - {t} && BlocksOk(blocks, TableBlock(at), live)
      && t in blocks && blocks[t] == {t, store[t].context, store[t].queueAt} + owned
      && {t, store[t].context, store[t].queueAt} !! owned && Singles(t, store[t], heap.pmm.frameCount)
      && t in mail && mail[t] == box && Mailboxes(store - {t}, others) == mail - {t}
    }

    ghost function Others(t: nat): map<object, nat>
      requires t in store
      reads `store, `repr, store[t].queue
    {
      repr - {store[t].queue, store[t].queue.slots}
    }

    lemma TakeOut(t: nat)
      requires Owned() && t in store && Within(store, repr)
      ensures var queue := store[t].queue;
              && queue.Valid() && queue.Blocks() <= Pointers(heap) && queue.Backed(heap) && queue in repr
              && queue.slots in repr
              && Box(store[t]) == Mailbox(queue.polled, queue.Contents())
              && Lent(t, Others(t), BlockMap(store, repr), Pointers(heap), queue.Blocks(), Mail(), Box(store[t]))
              && repr == Enrol(Others(t), t, queue, queue.slots)
    {
      hide AllFormed, Formed, Within, StacksOk, BlocksOk, HeapOk, FreeSet, BlockMap, StackMap, Claimed, Pointers, Union,
           BlocksOf, Mailboxes, Box, Enrol, Queue.Valid, Queue.Blocks, Queue.Contents, Queue.Backed;
      SetAside(store, repr, heap.pmm.frameCount, t);
      BoxIs(store[t]);
      OwnedBy(store, repr, t, TableBlock(at), Pointers(heap), Claimed(heap));
      assert store[t].queue.Blocks() <= BlocksOf(t, store[t]);
      BackedIf(store[t].queue, heap);
    }

    lemma PutBack(t: nat, others: map<object, nat>, blocks: map<nat, set<nat>>, live: set<nat>, owned: set<nat>,
                  mail: map<nat, Mailbox>, box: Mailbox)
      requires Lent(t, others, blocks, live, owned, mail, box) && heap.Valid()
      requires StacksOk(StackMap(store), Claimed(heap))
      requires var queue := store[t].queue;
               && queue.Valid() && {queue, queue.slots} !! others.Keys + {this, threads, heap, heap.pmm.bitmap}
               && repr == Enrol(others, t, queue, queue.slots)
               && queue.Blocks() <= Pointers(heap) && Pointers(heap) - queue.Blocks() == live - owned
      ensures Owned() && Within(store, repr) && Foreign() == live - (Union(blocks) + TableBlock(at))
      ensures Mail() == (mail - {t})[t := Box(store[t])]
    {
      hide AllFormed, Formed, Within, StacksOk, BlocksOk, HeapOk, FreeSet, BlockMap, StackMap, Claimed, Pointers, Union,
           BlocksOf, Mailboxes, Box, Enrol, Queue.Valid, Queue.Blocks, Queue.Contents;
      Returned(store, others, heap.pmm.frameCount, t, TableBlock(at), blocks, live, Pointers(heap), owned);
      EnrolApart(others, t, store[t].queue, store[t].queue.slots, {this, threads, heap, heap.pmm.bitmap});
    }

    lemma OwnedParts()
      requires Owned()
      ensures Within(store, repr) && heap.Valid() && StacksOk(StackMap(store), Claimed(heap))
      ensures repr.Keys !! {this, threads, heap, heap.pmm.bitmap}
    {
      hide StacksOk, BlocksOk, BlockMap, StackMap, Claimed, Pointers;
    }

    method Deliver(t: nat, target: nat, sender: nat, bytes: seq<bv8>) returns (ok: bool)
      requires Owned() && t in store
      modifies `repr, repr.Keys, heap`mem, heap`blocks, heap.pmm.bitmap
      ensures Owned() && Foreign() == old(Foreign()) && FrameTotal() == old(FrameTotal())
      ensures Refused(|bytes|) ==> !ok
      ensures ok <==> old(Takes(t, heap.Now(), |bytes|))
      ensures !ok ==> Mail() == old(Mail())
      ensures ok ==> Delivered(old(Mail()), Mail(), t, target, sender, bytes)
    {
      hide Within, StacksOk, BlockMap, StackMap, Claimed, Pointers, Union, MallocFails, SendOf, Mailboxes, Box,
           Enrol, Delivered, Queued,
           Queue.Valid, Queue.Blocks, Queue.Contents, Queue.Backed, ThreadTable.Owned, ThreadTable.Lent, HeapOk,
           FreeSet;
      OwnedParts();
      TakeOut(t);
      var queue := store[t].queue;
      BoxIs(store[t]);
      ghost var others, blocks, live, owned := Others(t), BlockMap(store, repr), Pointers(heap), queue.Blocks();
      ghost var mail, box := Mail(), Box(store[t]);
      ok := queue.Send(heap, target, sender, bytes);
      BoxIs(store[t]);
      BackedIs(queue, heap);
      repr := Enrol(others, t, queue, queue.slots);
      PutBack(t, others, blocks, live, owned, mail, box);
      LentMail(t, others, blocks, live, owned, mail, box);
      if ok {
        MailDelivered(mail, Mail(), t, box, Box(store[t]), target, sender, bytes);
      } else {
        MailSame(mail, Mail(), t, box);
      }
    }

    lemma LentMail(t: nat, others: map<object, nat>, blocks: map<nat, set<nat>>, live: set<nat>, owned: set<nat>,
                   mail: map<nat, Mailbox>, box: Mailbox)
      requires Lent(t, others, blocks, live, owned, mail, box)
      ensures t in mail && mail[t] == box
    {
      hide AllFormed, BlocksOk, BlockMap, Mailboxes;
    }

    /** A kmalloc by other kernel code: threads and table keep what they have. */
    method Borrow(size: nat) returns (r: Option<nat>)
      requires Valid()
      modifies heap`mem, heap`blocks, heap.pmm.bitmap
      ensures Valid() && FrameTotal() == old(FrameTotal()) && Abs() == old(Abs()) && Within(store, repr)
      ensures Mail() == old(Mail())
      ensures Posted() == old(Posted())
      ensures r.None? <==> MallocOf(heap.pmm, old(heap.Now()), size).None?
      ensures r.Some? ==> MallocOf(heap.pmm, old(heap.Now()), size) == Some((r.value, heap.Now()))
      ensures r.None? ==> Foreign() == old(Foreign())
      ensures r.Some? ==> r.value !in old(Foreign()) && Foreign() == old(Foreign()) + {r.value}
    {
      hide Listing, AllFormed, Within, StacksOk, BlocksOk, BlockMap, StackMap, Claimed, Pointers, Union, MallocOf,
           Mailboxes, ByTid, HeapOk, FreeSet;
      ghost var live := Pointers(heap);
      FormedWithin(store, repr, heap.pmm.frameCount);
      r := Kmalloc(heap, size);
      if r.Some? {
        LiveGrows(BlockMap(store, repr), TableBlock(at), live, r.value);
      }
    }

    /** A kfree by other kernel code of a pointer no thread owns. */
    method GiveBack(ptr: nat)
      requires Valid() && Within(store, repr) && ptr in Foreign()
      modifies heap`mem
      ensures Valid() && FrameTotal() == old(FrameTotal()) && Abs() == old(Abs()) && Within(store, repr)
      ensures Mail() == old(Mail())
      ensures Posted() == old(Posted())
      ensures Foreign() == old(Foreign()) - {ptr}
    {
      hide Listing, AllFormed, Within, StacksOk, BlocksOk, BlockMap, StackMap, Claimed, Pointers, Union, Mailboxes,
           ByTid, HeapOk, FreeSet;
      ghost var live := Pointers(heap);
      Kfree(heap, ptr);
      LiveShrinks(BlockMap(store, repr), TableBlock(at), live, ptr);
    }

    /** sys_ipc_send: the message goes through a kernel buffer that is always freed again.  `user` is what
        copy_from_user reads, None when the range is refused.  p is the thread with the target identifier, 0 when
        there is none. */
    method SysSend(target: nat, size: nat, user: Option<seq<bv8>>) returns (r: SendResult, ghost p: nat)
      requires Valid() && current != 0 && (user.Some? ==> |user.value| == size)
      modifies `repr, repr.Keys, heap`mem, heap`blocks, heap.pmm.bitmap
      ensures Valid() && Foreign() == old(Foreign()) && FrameTotal() == old(FrameTotal()) && Abs() == old(Abs())
      ensures r == Outcome(size, user.Some?, old(Buffered(size)), old(BufferedReaches(target, size)))
      ensures r == NoSpace <==> 0 < size <= 2048 && !old(Buffered(size))
      ensures r == Invalid <==> size == 0 || 2048 < size || (old(Buffered(size)) && user.None?)
      ensures r == Accepted <==>
                0 < size <= 2048 && old(Buffered(size)) && user.Some? && old(BufferedReaches(target, size))
      ensures r == Accepted ==> p in store && store[p].tid == target
      ensures r != Accepted ==> Mail() == old(Mail())
      ensures r == Accepted ==> user.Some?
      ensures r == Accepted ==> Delivered(old(Mail()), Mail(), p, target, TidAt(store, current), user.value)
      ensures PostStep(old(Posted()), if r == Accepted then MailEvent.Sent(target, Latest(Mail(), p)) else Still,
                       Posted())
    {
      hide *;
      ValidParts();
      OwnedParts();
      Separate();
      StillPost(Posted(), Posted());
      BufferedIs(target, size);
      OutcomeIs(size, user.Some?, Buffered(size), BufferedReaches(target, size));
      p := 0;
      if size == 0 || size > 2048 {
        return Invalid, 0;
      }
      var kbuf := Borrow(size);
      if kbuf.None? {
        return NoSpace, 0;
      }
      if user.None? {
        GiveBack(kbuf.value);
        return Invalid, 0;
      }
      var ok;
      ok, p := Relay(target, user.value, kbuf.value);
      return (if ok then Accepted else Dropped), p;
    }

    lemma BufferedIs(target: nat, size: nat)
      requires Within(store, repr)
      ensures Buffered(size) <==> MallocOf(heap.pmm, heap.Now(), size).Some?
      ensures Buffered(size) ==>
                (BufferedReaches(target, size) <==> Reaches(target, MallocOf(heap.pmm, heap.Now(), size).value.1, size))
    {
      hide MallocOf, Within, ThreadTable.Reaches;
    }

    /** There is a kernel buffer for `size` bytes. */
    ghost predicate Buffered(size: nat)
      reads heap, heap.pmm.bitmap
    {
      MallocOf(heap.pmm, heap.Now(), size).Some?
    }

    /** With that buffer allocated, the message can be queued. */
    ghost predicate BufferedReaches(target: nat, size: nat)
      requires Within(store, repr)
      reads `store, `repr, repr.Keys, heap, heap.pmm.bitmap
    {
      Buffered(size) && Reaches(target, MallocOf(heap.pmm, heap.Now(), size).value.1, size)
    }

    /** The send proper, and the kfree of the kernel buffer behind it. */
    method Relay(target: nat, bytes: seq<bv8>, kbuf: nat) returns (ok: bool, ghost p: nat)
      requires Valid() && current != 0 && Within(store, repr) && kbuf in Foreign()
      modifies `repr, repr.Keys, heap`mem, heap`blocks, heap.pmm.bitmap
      ensures Valid() && FrameTotal() == old(FrameTotal()) && Abs() == old(Abs())
      ensures Foreign() == old(Foreign()) - {kbuf}
      ensures ok ==> p in store && store[p].tid == target
      ensures ok <==> old(Reaches(target, heap.Now(), |bytes|))
      ensures !ok ==> Mail() == old(Mail())
      ensures ok ==> Delivered(old(Mail()), Mail(), p, target, TidAt(store, current), bytes)
      ensures PostStep(old(Posted()), if ok then MailEvent.Sent(target, Latest(Mail(), p)) else Still, Posted())
    {
      hide Listing, AllFormed, Within, Mailboxes, ByTid, Delivered, PostStep, SendOf, ThreadTable.Owned,
           ThreadTable.Foreign, ThreadTable.FrameTotal, ThreadTable.Posted, ThreadTable.Reaches;
      ok, p := Send(target, bytes);
      OwnedParts();
      GiveBack(kbuf);
    }

    /** sys_ipc_poll: the oldest message leaves the queue and its block is freed, whether or not it fits the
        caller's buffer and the copies to user memory succeed. */
    method Poll(capacity: nat, copied: bool, senderWanted: bool, senderCopied: bool) returns (r: nat)
      requires Valid() && current != 0
      modifies repr.Keys, heap`mem
      ensures Valid() && Foreign() == old(Foreign()) && FrameTotal() == old(FrameTotal()) && Abs() == old(Abs())
      ensures Fetched(old(Mail()), Mail(), current)
      ensures PostStep(old(Posted()),
                       if Oldest(old(Mail()), current).Some? then Polled(store[current].tid) else Still, Posted())
      ensures r == Reply(Oldest(old(Mail()), current), capacity, copied && (senderWanted ==> senderCopied))
      ensures var w := old(Mail())[current].waiting;
              if w != [] && |w[0].bytes| <= capacity && copied && (senderWanted ==> senderCopied)
              then r == |w[0].bytes| else r == 0
    {
      hide AllFormed, Listing, Within, Mailboxes, ByTid, Fetched, ThreadTable.Owned, ThreadTable.Foreign,
           ThreadTable.FrameTotal;
      OwnedParts();
      ListingTids(threads[..length], store, nextTid);
      ghost var mail := Mail();
      var msg := Receive(current);
      OwnedParts();
      FetchedPost(store, mail, Mail(), current, nextTid);
      if msg.None? || |msg.value.bytes| > capacity || !copied || (senderWanted && !senderCopied) {
        return 0;
      }
      return |msg.value.bytes|;
    }

    /** kipc_poll and the kfree that follows it on every path of sys_ipc_poll. */
    method Receive(t: nat) returns (msg: Option<Msg>)
      requires Owned() && t in store
      modifies repr.Keys, heap`mem
      ensures Owned() && Foreign() == old(Foreign()) && FrameTotal() == old(FrameTotal())
      ensures Fetched(old(Mail()), Mail(), t)
      ensures msg == Oldest(old(Mail()), t)
    {
      hide Within, StacksOk, BlockMap, StackMap, Claimed, Pointers, Union, Mailboxes, Box, Enrol, Fetched,
           Queue.Valid, Queue.Blocks, Queue.Contents, Queue.Backed, ThreadTable.Owned, ThreadTable.Lent, HeapOk,
           FreeSet;
      OwnedParts();
      TakeOut(t);
      var queue := store[t].queue;
      BoxIs(store[t]);
      ghost var others, blocks, live, owned := Others(t), BlockMap(store, repr), Pointers(heap), queue.Blocks();
      ghost var mail, box := Mail(), Box(store[t]);
      msg := queue.Poll();
      BoxIs(store[t]);
      if msg.Some? {
        Kfree(heap, msg.value.buffer);
      }
      PutBack(t, others, blocks, live, owned, mail, box);
      LentMail(t, others, blocks, live, owned, mail, box);
      MailFetched(mail, Mail(), t, box, Box(store[t]), msg);
    }
  }

  lemma ListedAt(table: seq<nat>, store: map<nat, Thread>, next: nat, i: nat)
    requires Listing(table, store, next) && i < |table|
    ensures table[i] in store
  {
  }

  lemma FormedWithin(store: map<nat, Thread>, repr: map<object, nat>, frames: nat)
    requires AllFormed(store, repr, frames)
    ensures Within(store, repr)
  {
  }

  lemma LiveGrows(blocks: map<nat, set<nat>>, table: set<nat>, live: set<nat>, p: nat)
    requires BlocksOk(blocks, table, live) && p !in live
    ensures BlocksOk(blocks, table, live + {p})
    ensures live + {p} - (Union(blocks) + table) == live - (Union(blocks) + table) + {p}
  {
    hide Union, AllApart;
  }

  lemma LiveShrinks(blocks: map<nat, set<nat>>, table: set<nat>, live: set<nat>, p: nat)
    requires BlocksOk(blocks, table, live) && p !in Union(blocks) + table
    ensures BlocksOk(blocks, table, live - {p})
    ensures live - {p} - (Union(blocks) + table) == live - (Union(blocks) + table) - {p}
  {
    hide Union, AllApart;
  }

  lemma TableIsLive(blocks: map<nat, set<nat>>, at: nat, live: set<nat>)
    requires BlocksOk(blocks, TableBlock(at), live) && at != 0
    ensures at in live
  {
    assert at in TableBlock(at);
  }

  lemma OwnsFormed(heap: KernelHeap, p: nat, t: Thread, t': Thread)
    requires Owns(heap, p, t) && SameParts(t, t')
    ensures Formed(p, t', heap.pmm.frameCount) && BlocksOf(p, t') == BlocksOf(p, t) && Stack(t') == Stack(t)
    ensures t'.queue == t.queue && t.queue.slots as object != heap.pmm.bitmap
  {
  }

  lemma OwnsIf(heap: KernelHeap, p: nat, t: Thread)
    requires Formed(p, t, heap.pmm.frameCount) && BlocksOf(p, t) <= Pointers(heap) && Stack(t) !! Claimed(heap)
    requires t.queue.slots as object != heap.pmm.bitmap
    ensures Owns(heap, p, t)
  {
  }

  lemma NotListed(store: map<nat, Thread>, repr: map<object, nat>, p: nat, t: Thread, table: set<nat>, live: set<nat>)
    requires Within(store, repr) && BlocksOk(BlockMap(store, repr), table, live) && BlocksOf(p, t) !! live
    ensures p !in store
  {
    assert p in BlocksOf(p, t);
    if p in store {
      UnionHas(BlockMap(store, repr), p, p);
    }
  }

  /** Taking over a thread whose queue is not among the known objects. */
  lemma AdoptFormed(store: map<nat, Thread>, repr: map<object, nat>, frames: nat, p: nat, t: Thread)
    requires AllFormed(store, repr, frames) && Formed(p, t, frames) && p !in store
    requires {t.queue, t.queue.slots} !! repr.Keys
    ensures var store', repr' := store[p := t], Enrol(repr, p, t.queue, t.queue.slots);
            && AllFormed(store', repr', frames)
            && BlockMap(store', repr') == BlockMap(store, repr)[p := BlocksOf(p, t)]
            && StackMap(store') == StackMap(store)[p := Stack(t)]
            && Within(store', repr') && Mailboxes(store', repr') == Mailboxes(store, repr)[p := Box(t)]
    ensures p !in BlockMap(store, repr) && p !in StackMap(store)
  {
    hide AllFormed, Formed, BlocksOf, Box, Stack, Enrol;
    FormedWithin(store, repr, frames);
    AdoptWithin(store, repr, frames, p, t);
  }

  lemma AdoptWithin(store: map<nat, Thread>, repr: map<object, nat>, frames: nat, p: nat, t: Thread)
    requires AllFormed(store, repr, frames) && Formed(p, t, frames) && p !in store
    requires {t.queue, t.queue.slots} !! repr.Keys
    ensures var store', repr' := store[p := t], Enrol(repr, p, t.queue, t.queue.slots);
            AllFormed(store', repr', frames) && Within(store', repr')
  {
    hide Formed;
  }

  lemma DropFormed(store: map<nat, Thread>, repr: map<object, nat>, frames: nat, p: nat)
    requires AllFormed(store, repr, frames) && p in store
    ensures AllFormed(store - {p}, repr, frames) && Formed(p, store[p], frames) && store[p].queue.slots in repr
    ensures BlockMap(store - {p}, repr) == BlockMap(store, repr) - {p} && p in BlockMap(store, repr)
    ensures BlockMap(store, repr)[p] == BlocksOf(p, store[p])
    ensures StackMap(store - {p}) == StackMap(store) - {p} && p in StackMap(store)
    ensures StackMap(store)[p] == Stack(store[p])
    ensures Within(store - {p}, repr) && Mailboxes(store - {p}, repr) == Mailboxes(store, repr) - {p}
  {
    hide Formed, BlocksOf, Box;
  }

  /** Everything about a thread that is freed: the others keep what they own, its blocks leave the live ones and
      its stack rejoins the claimed frames. */
  lemma Reaped(store: map<nat, Thread>, repr: map<object, nat>, frames: nat, p: nat, table: set<nat>, live: set<nat>,
               live': set<nat>, claimed: set<nat>, next: nat)
    requires AllFormed(store, repr, frames) && Within(store, repr) && p in store && TidsDiffer(store)
    requires BlocksOk(BlockMap(store, repr), table, live) && StacksOk(StackMap(store), claimed)
    requires live' == live - BlocksOf(p, store[p])
    ensures Formed(p, store[p], frames) && store[p].queue.slots in repr
    ensures BlocksOf(p, store[p]) <= live && Stack(store[p]) !! claimed
    ensures AllFormed(store - {p}, repr, frames) && Within(store - {p}, repr)
    ensures BlocksOk(BlockMap(store - {p}, repr), table, live')
    ensures StacksOk(StackMap(store - {p}), claimed + Stack(store[p]))
    ensures live' - (Union(BlockMap(store - {p}, repr)) + table) == live - (Union(BlockMap(store, repr)) + table)
    ensures Union(StackMap(store - {p})) + (claimed + Stack(store[p])) == Union(StackMap(store)) + claimed
    ensures PostStep(Post(ByTid(store, Mailboxes(store, repr)), next), Gone(store[p].tid),
                     Post(ByTid(store - {p}, Mailboxes(store - {p}, repr)), next))
  {
    hide AllFormed, Formed, BlocksOk, StacksOk, BlockMap, StackMap, BlocksOf, Union, Within, Mailboxes, ByTid, PostStep;
    DropFormed(store, repr, frames, p);
    OwnedBy(store, repr, p, table, live, claimed);
    OwnAgain(BlockMap(store, repr), BlockMap(store, repr) - {p}, table, live, live', p, BlocksOf(p, store[p]), {});
    StackRemoved(StackMap(store), claimed, p);
    GonePost(store, Mailboxes(store, repr), Mailboxes(store - {p}, repr), p, next);
  }

  /** A listed thread's blocks are live and its stack is not claimed by anyone else. */
  lemma OwnedBy(store: map<nat, Thread>, repr: map<object, nat>, p: nat, table: set<nat>, live: set<nat>,
                claimed: set<nat>)
    requires Within(store, repr) && p in store
    requires BlocksOk(BlockMap(store, repr), table, live) && StacksOk(StackMap(store), claimed)
    ensures BlocksOf(p, store[p]) <= live && Stack(store[p]) !! claimed
  {
    hide BlocksOf;
    forall x | x in BlocksOf(p, store[p]) ensures x in live {
      UnionHas(BlockMap(store, repr), p, x);
    }
    forall x | x in Stack(store[p]) ensures x !in claimed {
      UnionHas(StackMap(store), p, x);
    }
  }

  /** Thread p and its queue apart from the others. */
  lemma SetAside(store: map<nat, Thread>, repr: map<object, nat>, frames: nat, p: nat)
    requires AllFormed(store, repr, frames) && p in store
    ensures var t, others := store[p], repr - {store[p].queue, store[p].queue.slots};
            && AllFormed(store - {p}, others, frames) && Formed(p, t, frames) && t.queue in repr
            && t.queue.slots in repr
            && repr == Enrol(others, p, t.queue, t.queue.slots)
            && BlockMap(store - {p}, others) == BlockMap(store, repr) - {p}
            && Mailboxes(store - {p}, others) == Mailboxes(store, repr) - {p} && Mailboxes(store, repr)[p] == Box(t)
            && p in BlockMap(store, repr)
            && BlockMap(store, repr)[p] == BlocksOf(p, t) == {p, t.context, t.queueAt} + t.queue.Blocks()
            && t.queue.Valid() && {p, t.context, t.queueAt} !! t.queue.Blocks() && Singles(p, t, frames)
  {
    hide Formed, BlocksOf, Box, Queue.Valid, Queue.Blocks;
    var others := repr - {store[p].queue, store[p].queue.slots};
    FormedIs(p, store[p], frames);
    forall q | q in store - {p} ensures store[q].queue in others && store[q].queue.slots in others {
    }
  }

  lemma MailDelivered(mail: map<nat, Mailbox>, mail': map<nat, Mailbox>, p: nat, box: Mailbox, box': Mailbox,
                      target: nat, sender: nat, bytes: seq<bv8>)
    requires p in mail && mail[p] == box && mail' == (mail - {p})[p := box']
    requires box'.polled == box.polled && Queued(box.waiting, box'.waiting, target, sender, bytes)
    ensures Delivered(mail, mail', p, target, sender, bytes)
  {
    hide Queued;
  }

  /** A send is a step of the mail by identifier. */
  lemma DeliveredPost(store: map<nat, Thread>, mail: map<nat, Mailbox>, mail': map<nat, Mailbox>, p: nat, target: nat,
                      sender: nat, bytes: seq<bv8>, next: nat)
    requires mail.Keys == store.Keys == mail'.Keys && TidsDiffer(store) && p in store && store[p].tid == target
    requires Delivered(mail, mail', p, target, sender, bytes)
    ensures PostStep(Post(ByTid(store, mail), next), MailEvent.Sent(target, Latest(mail', p)),
                     Post(ByTid(store, mail'), next))
    ensures Latest(mail', p) == Msg(target, sender, Latest(mail', p).buffer, bytes)
  {
    hide ByTid;
    ByTidAt(store, mail, p);
    ByTidUpdate(store, mail, mail', p, mail'[p]);
  }

  /** So is a poll. */
  lemma FetchedPost(store: map<nat, Thread>, mail: map<nat, Mailbox>, mail': map<nat, Mailbox>, p: nat, next: nat)
    requires mail.Keys == store.Keys == mail'.Keys && TidsDiffer(store) && p in store && Fetched(mail, mail', p)
    ensures PostStep(Post(ByTid(store, mail), next), if Oldest(mail, p).Some? then Polled(store[p].tid) else Still,
                     Post(ByTid(store, mail'), next))
  {
    hide ByTid;
    ByTidAt(store, mail, p);
    if mail[p].waiting != [] {
      ByTidUpdate(store, mail, mail', p, mail'[p]);
    }
  }

  lemma MailSame(mail: map<nat, Mailbox>, mail': map<nat, Mailbox>, p: nat, box: Mailbox)
    requires p in mail && mail[p] == box && mail' == (mail - {p})[p := box]
    ensures mail' == mail
  {
  }

  lemma MailFetched(mail: map<nat, Mailbox>, mail': map<nat, Mailbox>, p: nat, box: Mailbox, box': Mailbox,
                    msg: Option<Msg>)
    requires p in mail && mail[p] == box && mail' == (mail - {p})[p := box']
    requires if msg.None? then box.waiting == [] && box' == box
             else box.waiting == [msg.value] + box'.waiting && box'.polled == box.polled + [msg.value]
    ensures Fetched(mail, mail', p) && msg == Oldest(mail, p)
  {
  }

  lemma EnrolApart(repr: map<object, nat>, p: nat, queue: Queue, slots: array<Msg>, rest: set<object>)
    requires repr.Keys !! rest && queue !in rest && slots !in rest
    ensures Enrol(repr, p, queue, slots).Keys !! rest
  {
  }

  lemma BoxIs(t: Thread)
    requires t.queue.Valid()
    ensures t.queue.head < t.queue.slots.Length && Box(t) == Mailbox(t.queue.polled, t.queue.Contents())
    ensures |t.queue.Contents()| == t.queue.count
  {
  }

  lemma BackedIf(queue: Queue, heap: KernelHeap)
    requires queue.Valid() && queue.Blocks() <= Pointers(heap) && queue.slots as object != heap.pmm.bitmap
    ensures queue.Backed(heap)
  {
  }

  lemma BackedIs(queue: Queue, heap: KernelHeap)
    requires queue.Valid() && queue.Backed(heap)
    ensures queue.Blocks() <= Pointers(heap) && queue.slots as object != heap.pmm.bitmap
  {
  }

  lemma FormedIs(p: nat, t: Thread, frames: nat)
    requires Formed(p, t, frames)
    ensures t.queue.Valid() && {p, t.context, t.queueAt} !! t.queue.Blocks() && Singles(p, t, frames)
    ensures BlocksOf(p, t) == {p, t.context, t.queueAt} + t.queue.Blocks()
  {
  }

  predicate Singles(p: nat, t: Thread, frames: nat) {
    p != t.context && p != t.queueAt && t.context != t.queueAt && 0 < t.stack && t.stack + STACK_PAGES <= frames
  }

  /** The queue of thread p has changed, and the heap outside its blocks has not. */
  lemma Returned(store: map<nat, Thread>, others: map<object, nat>, frames: nat, p: nat, table: set<nat>,
                 blocks: map<nat, set<nat>>, live: set<nat>, live': set<nat>, owned: set<nat>)
    requires p in store && AllFormed(store - {p}, others, frames) && BlockMap(store - {p}, others) == blocks - {p}
    requires var t := store[p];
             && p in blocks && blocks[p] == {p, t.context, t.queueAt} + owned && {p, t.context, t.queueAt} !! owned
             && Singles(p, t, frames) && t.queue.Valid() && {t.queue, t.queue.slots} !! others.Keys
             && t.queue.Blocks() <= live' && live' - t.queue.Blocks() == live - owned
    requires BlocksOk(blocks, table, live)
    ensures var repr := Enrol(others, p, store[p].queue, store[p].queue.slots);
            && AllFormed(store, repr, frames) && Within(store, repr) && BlocksOk(BlockMap(store, repr), table, live')
            && Mailboxes(store, repr) == Mailboxes(store - {p}, others)[p := Box(store[p])]
            && live' - (Union(BlockMap(store, repr)) + table) == live - (Union(blocks) + table)
  {
    hide AllFormed, BlockMap, BlocksOk, Union, Mailboxes, Box;
    var t := store[p];
    var three := {p, t.context, t.queueAt};
    assert blocks[p] <= live by { OwnBlocks(blocks, table, live, p); }
    assert three !! t.queue.Blocks() by {
      assert three <= live - owned;
    }
    assert three <= live' - t.queue.Blocks();
    assert (store - {p})[p := t] == store;
    AdoptFormed(store - {p}, others, frames, p, t);
    FormedWithin(store, Enrol(others, p, t.queue, t.queue.slots), frames);
    var after := three + t.queue.Blocks();
    assert live' - after == (live' - t.queue.Blocks()) - three == (live - owned) - three == live - blocks[p];
    assert (blocks - {p})[p := after] == blocks[p := after];
    OwnAgain(blocks, blocks[p := after], table, live, live', p, blocks[p], after);
  }

  lemma OwnBlocks(blocks: map<nat, set<nat>>, table: set<nat>, live: set<nat>, p: nat)
    requires BlocksOk(blocks, table, live) && p in blocks
    ensures blocks[p] <= live
  {
    forall x | x in blocks[p] ensures x in live { UnionHas(blocks, p, x); }
  }

  lemma TidFacts(table: seq<nat>, store: map<nat, Thread>, next: nat, tid: nat, current: nat)
    requires Listing(table, store, next)
    requires (tid == 0 || current == 0 || (current in store && tid == store[current].tid))
    ensures current == 0 || forall q :: q in store && q != current ==> store[q].tid != tid
  {
    forall q | q in store && q != current && current != 0 ensures store[q].tid != tid {
      if tid != 0 && store[q].tid == tid {
        TidUnique(table, store, next, q, current);
      }
    }
  }

  lemma ReadyAdded(store: map<nat, Thread>, p: nat, t: Thread)
    requires p !in store && t.state == Ready
    ensures ReadySet(store[p := t]) == ReadySet(store) + {p} && forall q :: q in ReadySet(store) ==>
              q in ReadySet(store[p := t])
  {
  }

  lemma ListingNext(table: seq<nat>, store: map<nat, Thread>, next: nat)
    requires Listing(table, store, next)
    ensures Listing(table, store, next + 1)
  {
  }

  lemma ClosedUp(table: seq<nat>, rest: seq<nat>, i: nat)
    requires Distinct(table) && i < |table| == |rest| + 1
    requires forall k :: 0 <= k < |rest| ==> rest[k] == table[if k < i then k else k + 1]
    ensures rest == Without(table, table[i])
  {
    hide IndexOf;
    IndexIs(table, i);
  }

  lemma FaultStep(s: Sched, s1: Sched, s2: Sched)
    requires s.current != 0 && s.current in s.table && Step(s1, Switch, s2)
    requires s1 == Sched(Without(s.table, s.current), s.ready - {s.current}, s.current)
    ensures Step(s, Fault, s2)
  {
    hide Selects, Without;
  }

  lemma SelectsOr(s: Sched, r: nat)
    requires Selects(s, r) && (s.ready != {} ==> s.table != [])
    ensures s.ready != {} ==> r in s.ready
    ensures s.ready == {} ==> r == s.current || r == 0
  {
  }

  /** Changing states and exit codes changes nobody's resources. */
  lemma SameResources(store: map<nat, Thread>, store': map<nat, Thread>, repr: map<object, nat>, frames: nat)
    requires AllFormed(store, repr, frames) && store'.Keys == store.Keys
    requires forall p :: p in store ==> SameParts(store[p], store'[p])
    ensures AllFormed(store', repr, frames) && BlockMap(store', repr) == BlockMap(store, repr)
    ensures StackMap(store') == StackMap(store) && Within(store', repr)
    ensures Mailboxes(store', repr) == Mailboxes(store, repr)
  {
    hide Queue.Valid, Queue.Blocks;
    assert forall p :: p in store <==> p in store';
    assert forall p :: p in store ==> SameParts(store[p], store'[p]);
  }

  lemma OtherStep(s: Sched)
    ensures Step(s, Other, s)
  {
  }

  lemma CurrentListed(store: map<nat, Thread>, p: nat)
    requires p in ReadySet(store)
    ensures p in store && store[p].state == Ready
  {
  }

  lemma MarkedDead(table: seq<nat>, store: map<nat, Thread>, store': map<nat, Thread>, repr: map<object, nat>,
                   frames: nat, next: nat, p: nat)
    requires Listing(table, store, next) && AllFormed(store, repr, frames) && p in store
    requires exists code :: store' == store[p := store[p].(state := Dead, exitCode := code)]
    ensures Listing(table, store', next) && AllFormed(store', repr, frames) && Within(store, repr)
    ensures Within(store', repr)
    ensures BlockMap(store', repr) == BlockMap(store, repr) && StackMap(store') == StackMap(store)
    ensures ByTid(store', Mailboxes(store', repr)) == ByTid(store, Mailboxes(store, repr))
    ensures ReadySet(store') == ReadySet(store) - {p}
  {
    hide Listing, AllFormed, BlockMap, StackMap, Mailboxes, ByTid, Within;
    FormedWithin(store, repr, frames);
    SameResources(store, store', repr, frames);
    ListingUpdate(table, store, store', next);
    ListingTids(table, store, next);
    ByTidSame(store, store', Mailboxes(store, repr));
  }

  predicate SameParts(t: Thread, t': Thread) {
    t'.context == t.context && t'.stack == t.stack && t'.queueAt == t.queueAt && t'.queue == t.queue
  }

  lemma ListingTids(table: seq<nat>, store: map<nat, Thread>, next: nat)
    requires Listing(table, store, next)
    ensures TidsDiffer(store) && next !in Tids(store)
  {
    forall p, q | p in store && q in store && p != q ensures store[p].tid != store[q].tid {
      if store[p].tid == store[q].tid {
        TidUnique(table, store, next, p, q);
      }
    }
  }

  lemma ListingReady(table: seq<nat>, store: map<nat, Thread>, next: nat)
    requires Listing(table, store, next)
    ensures forall p :: p in ReadySet(store) ==> p in table && p != 0
    ensures ReadySet(store) != {} ==> table != []
    ensures 0 !in store && forall p :: p in table ==> p in store
  {
  }

  lemma ListingUpdate(table: seq<nat>, store: map<nat, Thread>, store': map<nat, Thread>, next: nat)
    requires Listing(table, store, next) && store'.Keys == store.Keys && forall p :: p in store ==>
               store'[p].tid == store[p].tid
    ensures Listing(table, store', next)
  {
    assert forall p :: p in store <==> p in store';
    assert forall p :: TidAt(store', p) == TidAt(store, p);
  }

  lemma InTable(table: seq<nat>, store: map<nat, Thread>, next: nat, p: nat)
    requires Listing(table, store, next) && p in store
    ensures p in table
  {
  }

  /** The first ready place found by the search loop is the nearest one. */
  lemma NearestFound(table: seq<nat>, ready: set<nat>, store: map<nat, Thread>, next: nat, current: nat, c: nat, i: nat)
    requires Listing(table, store, next) && ready == ReadySet(store) && table != [] && Distinct(table)
    requires c == IndexOf(table, current) && 1 <= i <= |table| && table[Around(|table|, c, i)] in ready
    requires forall k :: 1 <= k < i ==> table[Around(|table|, c, k)] !in ready
    ensures Selects(Sched(table, ready, current), table[Around(|table|, c, i)])
  {
    hide IndexOf, Ahead, Listing, Around;
    var n, j := |table|, Around(|table|, c, i);
    var s := Sched(table, ready, current);
    IndexIs(table, j);
    PlaceAhead(n, c, i);
    forall q | q in ready ensures Distance(table, current, table[j]) <= Distance(table, current, q) {
      InTable(table, store, next, q);
      var k := Ahead(n, c, IndexOf(table, q));
      AheadPlace(n, c, IndexOf(table, q));
    }
  }

  lemma NoneReady(table: seq<nat>, ready: set<nat>, store: map<nat, Thread>, next: nat, c: nat)
    requires Listing(table, store, next) && ready == ReadySet(store) && c < |table|
    requires forall k :: 1 <= k < |table| + 1 ==> table[Around(|table|, c, k)] !in ready
    ensures ready == {}
  {
    hide Ahead, Listing, Around;
    if p :| p in ready {
      InTable(table, store, next, p);
      var j :| 0 <= j < |table| && table[j] == p;
      AheadPlace(|table|, c, j);
    }
  }
}
