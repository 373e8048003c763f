/** What the kernel's own objects see of the heap: pointers that are live or not, and the frames that
    are free or hold heap pages. */
module KernelMemory {
  import opened Common
  import opened Frames
  import opened HeapBlocks
  import opened Heap

  /** The live pointers: what kmalloc returned and kfree has not been given. */
  ghost function Pointers(heap: KernelHeap): set<nat>
    reads heap
  {
    PointersOf(heap.Allocations())
  }

  function Payload(b: nat): nat { b + HEADER }

  ghost function PointersOf(live: map<nat, nat>): (r: set<nat>)
    ensures forall b :: b in live <==> Payload(b) in r
    ensures forall p :: p in r ==> p >= HEADER
  {
    set b | b in live :: Payload(b)
  }

  lemma PointersStep(live: map<nat, nat>, b: nat, cap: nat)
    ensures PointersOf(live[b := cap]) == PointersOf(live) + {Payload(b)}
    ensures PointersOf(live - {b}) == PointersOf(live) - {Payload(b)}
  {
  }

  /** The frames that are free or belong to the heap; kmalloc and kfree only move frames inside this set. */
  ghost function Claimed(heap: KernelHeap): set<nat>
    reads heap, heap.pmm.bitmap
  {
    heap.pmm.Free() + Pages(heap.blocks)
  }

  /** The heap once an array at `at` of so many elements of `unit` bytes has room for one more, doubling it if
      need be; None when there is no block for the larger one. */
  ghost function RoomOf(pmm: FrameAllocator, s: Snap, count: nat, capacity: nat, at: nat, unit: nat): Option<Snap> {
    if count < capacity then Some(s)
    else
      match MallocOf(pmm, s, 2 * capacity * unit)
      case None => None
      case Some((_, s1)) => Some(FreeOf(s1, at))
  }

  method Kmalloc(heap: KernelHeap, size: nat) returns (r: Option<nat>)
    requires heap.Valid()
    modifies heap`mem, heap`blocks, heap.pmm.bitmap
    ensures heap.Valid() && Claimed(heap) == old(Claimed(heap))
    ensures r.None? <==> MallocOf(heap.pmm, old(heap.Now()), size).None?
    ensures r.Some? ==> MallocOf(heap.pmm, old(heap.Now()), size) == Some((r.value, heap.Now()))
    ensures r.None? ==> heap.Now() == old(heap.Now()) && Pointers(heap) == old(Pointers(heap))
    ensures r.Some? ==>
              r.value > 0 && r.value !in old(Pointers(heap)) && Pointers(heap) == old(Pointers(heap)) + {r.value}
  {
    hide Live, FreeSet, HeapOk, MallocFails, MallocOf, Pages, PointersOf, Chosen, AlignedNext;
    ghost var before := heap.Allocations();
    r := heap.Malloc(size);
    if r.Some? {
      ghost var b := r.value - HEADER;
      PointersStep(before, b, heap.Allocations()[b]);
      assert r.value == Payload(b);
    }
  }

  method Kfree(heap: KernelHeap, ptr: nat)
    requires heap.Valid() && ptr in Pointers(heap)
    modifies heap`mem
    ensures heap.Valid() && Claimed(heap) == old(Claimed(heap))
    ensures Pointers(heap) == old(Pointers(heap)) - {ptr} && heap.Now() == FreeOf(old(heap.Now()), ptr)
  {
    hide Live, FreeSet, HeapOk, Pages, PointersOf;
    assert ptr == Payload(ptr - HEADER);
    LiveIn(heap.mem, heap.blocks, ptr - HEADER);
    PointersStep(heap.Allocations(), ptr - HEADER, 0);
    heap.Free(ptr);
  }
}

/** The message queue of a thread (src/ipc/ipc.c): a ring of messages in one kmalloc block, doubled when
    it is full, every queued message owning one further block. */
module Ipc {
  import opened Common
  import opened Frames
  import opened HeapBlocks
  import opened Heap
  import opened KernelMemory

  /** ipc_msg_t: the bytes stand for the contents of the block at `buffer`. */
  datatype Msg = Msg(target: nat, sender: nat, buffer: nat, bytes: seq<bv8>)

  const MSG_SIZE: nat := 32

  /** The heap after kipc_send has queued a message of `size` bytes, or None when it drops it. */
  ghost function SendOf(pmm: FrameAllocator, s: Snap, count: nat, capacity: nat, at: nat, size: nat): Option<Snap> {
    match RoomOf(pmm, s, count, capacity, at, MSG_SIZE)
    case None => None
    case Some(s1) =>
      match MallocOf(pmm, s1, size)
      case None => None
      case Some((_, s2)) => Some(s2)
  }

  lemma RefusedFails(pmm: FrameAllocator, s: Snap, size: nat)
    ensures Refused(size) ==> MallocOf(pmm, s, size).None?
  {
    hide Align16;
  }

  ghost function Ring(slots: seq<Msg>, head: nat, count: nat): (r: seq<Msg>)
    requires head < |slots|
    ensures |r| == count
  {
    seq(count, i requires 0 <= i < count => slots[Around(|slots|, head, i)])
  }

  lemma SlotsDiffer(n: nat, head: nat, i: nat, j: nat)
    requires head < n && i < j < n
    ensures Around(n, head, i) != Around(n, head, j)
  {
    AroundIs(n, head, i);
    AroundIs(n, head, j);
  }

  lemma SlotNext(n: nat, head: nat, i: nat)
    requires head < n && i < n
    ensures Around(n, Around(n, head, 1), i) == Around(n, head, i + 1) == Around(n, Around(n, head, i), 1)
  {
    hide Around;
    AroundIs(n, head, 1);
    AroundIs(n, head, i);
    AroundIs(n, head, i + 1);
    AroundIs(n, Around(n, head, 1), i);
    AroundIs(n, Around(n, head, i), 1);
  }

  lemma RingPush(slots: seq<Msg>, head: nat, count: nat, m: Msg)
    requires head < |slots| && count < |slots|
    ensures Ring(slots[Around(|slots|, head, count) := m], head, count + 1) == Ring(slots, head, count) + [m]
  {
    hide Around;
    var t := Around(|slots|, head, count);
    forall i | 0 <= i < count ensures Around(|slots|, head, i) != t {
      SlotsDiffer(|slots|, head, i, count);
    }
  }

  lemma RingPop(slots: seq<Msg>, head: nat, count: nat)
    requires head < |slots| && 0 < count <= |slots|
    ensures Ring(slots, head, count)[0] == slots[head]
    ensures Ring(slots, Around(|slots|, head, 1), count - 1) == Ring(slots, head, count)[1..]
  {
    hide Around;
    AroundIs(|slots|, head, 0);
    forall i | 0 <= i < count - 1
      ensures Around(|slots|, Around(|slots|, head, 1), i) == Around(|slots|, head, i + 1)
    {
      SlotNext(|slots|, head, i);
    }
  }

  ghost function Buffers(msgs: seq<Msg>): set<nat> {
    set m | m in msgs :: m.buffer
  }

  ghost predicate BuffersDiffer(msgs: seq<Msg>) {
    forall i, j :: 0 <= i < j < |msgs| ==> msgs[i].buffer != msgs[j].buffer
  }

  predicate RingSize(n: nat) {
    n == 4 || n == 8 || n == 16 || n == 32 || n == 64
  }

  /** One message more, at the end, with exactly these bytes. */
  ghost predicate Queued(before: seq<Msg>, after: seq<Msg>, target: nat, sender: nat, bytes: seq<bv8>) {
    after != [] && var m := after[|after| - 1]; after == before + [Msg(target, sender, m.buffer, bytes)]
  }

  class Queue {
    var slots: array<Msg>
    var at: nat
    var head: nat
    var tail: nat
    var count: nat
    // everything ever accepted and everything ever handed out
    ghost var accepted: seq<Msg>
    ghost var polled: seq<Msg>

    ghost predicate Valid()
      reads this, slots
    {
      && RingSize(slots.Length)
      && head < slots.Length && count <= slots.Length && tail == Around(slots.Length, head, count)
      && accepted == polled + Contents()
      && BuffersDiffer(Contents()) && at !in Buffers(Contents())
    }

    ghost function Contents(): seq<Msg>
      requires head < slots.Length
      reads this, slots
    {
      Ring(slots[..], head, count)
    }

    /** The heap blocks the queue owns: the ring and one for each message. */
    ghost function Blocks(): set<nat>
      requires head < slots.Length
      reads this, slots
    {
      {at} + Buffers(Contents())
    }

    /** The queue's blocks are live.  (Its ring and the frame bitmap are distinct objects by their types,
        which the verifier does not see.) */
    ghost predicate Backed(heap: KernelHeap)
      requires head < slots.Length
      reads this, slots, heap
    {
      Blocks() <= Pointers(heap) && slots as object != heap.pmm.bitmap
    }

    /** The queue allocate_thread sets up in the block at `at_`. */
    constructor (at_: nat)
      ensures Valid() && at == at_ && fresh(slots) && slots.Length == 4 && Contents() == [] && accepted == []
      ensures polled == []
    {
      slots := new Msg[4];
      at := at_;
      head, tail, count := 0, 0, 0;
      accepted, polled := [], [];
    }

    /** The copy loop of ipc_grow_queue. */
    method CopyRing(newCap: nat) returns (ring: array<Msg>)
      requires Valid() && slots.Length < newCap
      ensures fresh(ring) && ring.Length == newCap && ring[..][..count] == Contents()
    {
      hide Around, BuffersDiffer, Buffers;
      ring := new Msg[newCap];
      for i := 0 to count
        invariant forall k :: 0 <= k < i ==> ring[k] == Contents()[k]
      {
        ring[i] := slots[Around(slots.Length, head, i)];
      }
    }

    /** ipc_grow_queue.  A ring of 64 is the largest: the next would need 4096 bytes. */
    method Grow(heap: KernelHeap) returns (ok: bool)
      requires Valid() && heap.Valid() && Backed(heap)
      modifies this, heap`mem, heap`blocks, heap.pmm.bitmap
      ensures Valid() && heap.Valid() && Claimed(heap) == old(Claimed(heap))
      ensures Backed(heap) && Contents() == old(Contents()) && accepted == old(accepted) && polled == old(polled)
      ensures count == old(count)
      ensures ok <==> MallocOf(heap.pmm, old(heap.Now()), 2 * old(slots.Length) * MSG_SIZE).Some?
      ensures ok ==>
                Some(heap.Now()) ==
                RoomOf(heap.pmm, old(heap.Now()), old(slots.Length), old(slots.Length), old(at), MSG_SIZE)
      ensures match MallocOf(heap.pmm, old(heap.Now()), 2 * old(slots.Length) * 32)
              case None => !ok
              case Some((p, s)) => ok && at == p && heap.Now() == FreeOf(s, old(at))
      ensures !ok ==> heap.Now() == old(heap.Now())
      ensures old(slots.Length) == 64 ==> !ok
      ensures !ok ==> slots == old(slots) && at == old(at) && Pointers(heap) == old(Pointers(heap))
      ensures ok ==> fresh(slots) && slots.Length == 2 * old(slots.Length)
      ensures ok ==> at !in old(Pointers(heap)) && Pointers(heap) == old(Pointers(heap)) - {old(at)} + {at}
    {
      hide HeapOk, FreeSet, Pages, Live, PointersOf, Align16, NoFrame, Claimed, Pointers, MallocOf, Queue.Valid,
           Queue.Contents, Queue.Blocks;
      ValidParts();
      var cap := slots.Length;
      var newCap := cap * 2;
      RefusedFails(heap.pmm, heap.Now(), newCap * MSG_SIZE);
      var p := Kmalloc(heap, newCap * MSG_SIZE);
      if p.None? {
        return false;
      }
      var ring := CopyRing(newCap);
      Kfree(heap, at);
      MoveTo(ring, p.value);
      return true;
    }

    lemma ValidParts()
      requires Valid()
      ensures head < slots.Length && RingSize(slots.Length) && |Contents()| == count && at in Blocks()
    {
      hide BuffersDiffer, Buffers, Around;
    }

    /** The queue goes over to a ring that already holds its messages, in the block at `at_`. */
    method MoveTo(ring: array<Msg>, at_: nat)
      requires Valid() && RingSize(ring.Length) && slots.Length < ring.Length && ring[..][..count] == Contents()
      requires at_ !in Blocks()
      modifies this
      ensures Valid() && slots == ring && at == at_ && count == old(count)
      ensures Contents() == old(Contents()) && accepted == old(accepted) && polled == old(polled)
      ensures Blocks() == old(Blocks()) - {old(at)} + {at_}
    {
      hide BuffersDiffer, Buffers, Ring, Around, RingSize;
      ghost var contents := Contents();
      slots, at := ring, at_;
      head, tail := 0, count;
      RingFromZero(slots[..], contents);
    }

    /** The part of kipc_send after the target thread is found. */
    method Send(heap: KernelHeap, target: nat, sender: nat, bytes: seq<bv8>) returns (ok: bool)
      requires Valid() && heap.Valid() && Backed(heap)
      modifies this, slots, heap`mem, heap`blocks, heap.pmm.bitmap
      ensures Valid() && heap.Valid() && Claimed(heap) == old(Claimed(heap))
      ensures slots == old(slots) || fresh(slots)
      ensures polled == old(polled) && Backed(heap)
      ensures Pointers(heap) - Blocks() == old(Pointers(heap) - Blocks())
      ensures !ok ==> Contents() == old(Contents())
      ensures ok ==> |Contents()| == old(count) + 1 && Queued(old(Contents()), Contents(), target, sender, bytes)
      ensures Refused(|bytes|) || (old(count) == 64 && old(slots.Length) == 64) ==> !ok
      ensures var sent := SendOf(heap.pmm, old(heap.Now()), old(count), old(slots.Length), old(at), |bytes|);
              (ok <==> sent.Some?) && (ok ==> heap.Now() == sent.value)
      ensures ok ==> Contents() == old(Contents()) + [Msg(target, sender, Contents()[old(count)].buffer, bytes)]
      ensures old(count) < old(slots.Length) ==> slots == old(slots) && at == old(at)
      ensures old(count) < old(slots.Length) ==>
                match MallocOf(heap.pmm, old(heap.Now()), |bytes|)
                case None => !ok && heap.Now() == old(heap.Now())
                case Some((p, s)) => ok && heap.Now() == s && Contents()[old(count)].buffer == p
      ensures old(count) == old(slots.Length) ==>
                match MallocOf(heap.pmm, old(heap.Now()), 2 * old(slots.Length) * 32)
                case None => !ok && heap.Now() == old(heap.Now()) && slots == old(slots) && at == old(at)
                case Some((ring, s)) =>
                  && slots.Length == 2 * old(slots.Length) && at == ring
                  && match MallocOf(heap.pmm, FreeOf(s, old(at)), |bytes|)
                     case None => !ok && heap.Now() == FreeOf(s, old(at))
                     case Some((p, s')) => ok && heap.Now() == s' && Contents()[old(count)].buffer == p
    {
      hide HeapOk, FreeSet, Pages, Live, BuffersDiffer, Buffers, Ring, Around, PointersOf, Align16, NoFrame, Claimed,
           Pointers, MallocOf;
      ghost var contents := Contents();
      if count >= slots.Length {
        ok := Grow(heap);
        if !ok {
          return;
        }
      }
      RefusedFails(heap.pmm, heap.Now(), |bytes|);
      var copied := Kmalloc(heap, |bytes|);
      if copied.None? {
        return false;
      }
      Push(Msg(target, sender, copied.value, bytes));
      return true;
    }

    method Push(m: Msg)
      requires Valid() && count < slots.Length && m.buffer !in Blocks()
      modifies this, slots
      ensures Valid() && slots == old(slots) && at == old(at) && polled == old(polled)
      ensures Contents() == old(Contents()) + [m] && Blocks() == old(Blocks()) + {m.buffer}
    {
      hide BuffersDiffer, Buffers, Ring, Around;
      ghost var contents := Contents();
      RingPush(slots[..], head, count, m);
      PushBuffers(contents, m);
      SlotNext(slots.Length, head, count);
      ghost var next := slots[..][tail := m];
      slots[tail] := m;
      assert slots[..] == next;
      tail := Around(slots.Length, tail, 1);
      count := count + 1;
      accepted := accepted + [m];
    }

    /** kipc_poll: the message's block now belongs to the caller. */
    method Poll() returns (r: Option<Msg>)
      requires Valid()
      modifies this
      ensures Valid() && slots == old(slots) && at == old(at) && accepted == old(accepted)
      ensures r.None? <==> old(Contents()) == []
      ensures r.None? ==> Contents() == [] && polled == old(polled) && Blocks() == old(Blocks())
      ensures r.Some? ==> old(Contents()) == [r.value] + Contents() && polled == old(polled) + [r.value]
      ensures r.Some? ==> r.value.buffer in old(Blocks()) && Blocks() == old(Blocks()) - {r.value.buffer}
    {
      hide BuffersDiffer, Buffers, Ring, Around;
      if count == 0 {
        return None;
      }
      ghost var contents := Contents();
      RingPop(slots[..], head, count);
      PopBuffers(contents);
      var m := slots[head];
      SlotNext(slots.Length, head, count - 1);
      head := Around(slots.Length, head, 1);
      count := count - 1;
      polled := polled + [m];
      assert Contents() == contents[1..];
      return Some(m);
    }

    /** The loop of free_thread: every queued message gives its block back, once. */
    method Drain(heap: KernelHeap)
      requires Valid() && heap.Valid() && Backed(heap)
      modifies heap`mem
      ensures heap.Valid() && Claimed(heap) == old(Claimed(heap))
      ensures Pointers(heap) == old(Pointers(heap)) - Buffers(Contents())
    {
      hide HeapOk, FreeSet, Pages, Live, Around, PointersOf, Claimed, Pointers;
      ghost var contents := Contents();
      for i := 0 to count
        invariant heap.Valid() && Claimed(heap) == old(Claimed(heap))
        invariant Pointers(heap) == old(Pointers(heap)) - Buffers(contents[..i])
      {
        var m := slots[Around(slots.Length, head, i)];
        assert contents[..i + 1] == contents[..i] + [m];
        assert m == contents[i] && m.buffer !in Buffers(contents[..i]);
        Kfree(heap, m.buffer);
        assert Buffers(contents[..i + 1]) == Buffers(contents[..i]) + {m.buffer};
      }
      assert contents[..count] == contents;
    }
  }

  lemma RingFromZero(slots: seq<Msg>, contents: seq<Msg>)
    requires |contents| < |slots| && slots[..|contents|] == contents
    ensures Ring(slots, 0, |contents|) == contents && Around(|slots|, 0, |contents|) == |contents|
  {
    hide Around;
    forall i | 0 <= i < |contents| ensures slots[Around(|slots|, 0, i)] == contents[i] {
      AroundIs(|slots|, 0, i);
      assert slots[..|contents|][i] == slots[i];
    }
    AroundIs(|slots|, 0, |contents|);
  }

  lemma PushBuffers(msgs: seq<Msg>, m: Msg)
    ensures Buffers(msgs + [m]) == Buffers(msgs) + {m.buffer}
    ensures BuffersDiffer(msgs) && m.buffer !in Buffers(msgs) ==> BuffersDiffer(msgs + [m])
  {
    var all := msgs + [m];
    assert forall x :: x in all <==> x in msgs || x == m;
    if BuffersDiffer(msgs) && m.buffer !in Buffers(msgs) {
      forall i, j | 0 <= i < j < |all| ensures all[i].buffer != all[j].buffer {
        assert msgs[i] in msgs;
      }
    }
  }

  lemma PopBuffers(msgs: seq<Msg>)
    requires |msgs| > 0 && BuffersDiffer(msgs)
    ensures BuffersDiffer(msgs[1..]) && Buffers(msgs[1..]) == Buffers(msgs) - {msgs[0].buffer}
    ensures msgs[0].buffer in Buffers(msgs)
  {
    var rest := msgs[1..];
    assert forall x :: x in msgs <==> x in rest || x == msgs[0];
    forall x | x in rest ensures x.buffer != msgs[0].buffer {
      var k :| 0 <= k < |rest| && rest[k] == x;
      assert msgs[k + 1] == x;
    }
  }
}
