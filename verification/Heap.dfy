/** The kernel heap (src/mm/heap.c): blocks on 4096-byte pages, each behind a 24-byte header that
    lives in the same memory as the payloads.  Memory is a map from 8-byte-aligned addresses to
    words; every size and address the heap forms is a multiple of 8. */
module HeapBlocks {
  import opened Common

  type Words = map<nat, nat>

  function Rd(m: Words, a: nat): nat {
    if a in m then m[a] else 0
  }

  // block_t: size, is_used, next
  const HEADER: nat := 24
  const MAX_BLOCK: nat := 4072 // 4096 - sizeof(block_t)

  function Size(m: Words, b: nat): nat { Rd(m, b) }
  predicate Used(m: Words, b: nat) { Rd(m, b + 8) != 0 }
  function Next(m: Words, b: nat): nat { Rd(m, b + 16) }
  function End(m: Words, b: nat): nat { b + HEADER + Size(m, b) }

  function Align16(size: nat): nat {
    (size + 15) / 16 * 16
  }

  /** The next pointers run through `blocks` from the head and end in a null pointer. */
  ghost predicate Linked(m: Words, head: nat, blocks: seq<nat>) {
    && |blocks| > 0 && head == blocks[0]
    && (forall i :: 0 <= i < |blocks| ==>
           blocks[i] > 0 && Next(m, blocks[i]) == if i + 1 < |blocks| then blocks[i + 1] else 0)
    && (forall i, j :: 0 <= i < j < |blocks| ==> blocks[i] != blocks[j])
  }

  /** One block: aligned, of a legal size, inside one page. */
  predicate Shaped(m: Words, b: nat) {
    && b % 8 == 0 && b >= PAGE
    && 16 <= Size(m, b) <= MAX_BLOCK && Size(m, b) % 8 == 0
    && b % PAGE + HEADER + Size(m, b) <= PAGE
  }

  function PageStart(b: nat): nat { b - b % PAGE }
  predicate PageEnd(e: nat) { e % PAGE == 0 }

  /** The blocks of a page follow one another from its first byte to its last. */
  ghost predicate Tiled(m: Words, blocks: seq<nat>) {
    && (forall b :: b in blocks
                    ==> Shaped(m, b) && PageStart(b) in blocks && (PageEnd(End(m, b)) || End(m, b) in blocks))
    && (forall a, b :: a in blocks && b in blocks && a < b ==> End(m, a) <= b)
  }

  ghost predicate HeapOk(m: Words, head: nat, blocks: seq<nat>, free: set<nat>) {
    Linked(m, head, blocks) && Tiled(m, blocks) && forall b :: b in blocks ==> b / PAGE !in free
  }

  /** The frames the heap has taken. */
  ghost function Pages(blocks: seq<nat>): set<nat> {
    set b | b in blocks :: b / PAGE
  }

  /** The live allocations: used blocks with their capacities. */
  ghost function Live(m: Words, blocks: seq<nat>): map<nat, nat> {
    map b | b in blocks && Used(m, b) :: Size(m, b)
  }

  ghost predicate SamePayload(m: Words, m': Words, b: nat) {
    forall a :: b + HEADER <= a < End(m, b) ==> Rd(m', a) == Rd(m, a)
  }

  // ---------------------------------------------------------------- tiling means partition

  lemma {:induction false} Covered(m: Words, blocks: seq<nat>, b: nat, x: nat) returns (c: nat)
    requires Tiled(m, blocks) && b in blocks && b <= x && b / PAGE == x / PAGE
    ensures c in blocks && c <= x < End(m, c)
    decreases x - b
  {
    if x < End(m, b) {
      c := b;
    } else {
      c := Covered(m, blocks, End(m, b), x);
    }
  }

  /** Every byte of a heap page belongs to exactly one block. */
  lemma Partition(m: Words, blocks: seq<nat>, b: nat, x: nat)
    requires Tiled(m, blocks) && b in blocks && b / PAGE == x / PAGE
    ensures exists c :: c in blocks && c <= x < End(m, c)
    ensures forall c, d :: c in blocks && d in blocks && c <= x < End(m, c) && d <= x < End(m, d) ==> c == d
  {
    var c := Covered(m, blocks, PageStart(b), x);
  }

  /** Live allocations never overlap. */
  lemma LiveDisjoint(m: Words, blocks: seq<nat>, a: nat, b: nat)
    requires Tiled(m, blocks) && a in Live(m, blocks) && b in Live(m, blocks) && a != b
    ensures a + HEADER + Live(m, blocks)[a] <= b || b + HEADER + Live(m, blocks)[b] <= a
  {
    hide Shaped;
    OrderOf(m, blocks, a, b);
  }

  /** A live block is 8-byte aligned (its payload, 24 bytes on, as well), lies inside one page, and has
      16 to 4072 bytes. */
  lemma LiveShape(m: Words, blocks: seq<nat>, a: nat)
    requires Tiled(m, blocks) && a in Live(m, blocks)
    ensures a % 8 == 0 && 16 <= Live(m, blocks)[a] <= MAX_BLOCK && Live(m, blocks)[a] % 8 == 0
    ensures a % PAGE + HEADER + Live(m, blocks)[a] <= PAGE
  {
    ShapeOf(m, blocks, a);
  }

  lemma ShapeOf(m: Words, blocks: seq<nat>, b: nat)
    requires Tiled(m, blocks) && b in blocks
    ensures Shaped(m, b) && PageStart(b) in blocks && (PageEnd(End(m, b)) || End(m, b) in blocks)
  {
  }

  lemma OrderOf(m: Words, blocks: seq<nat>, a: nat, b: nat)
    requires Tiled(m, blocks) && a in blocks && b in blocks
    ensures a < b ==> End(m, a) <= b
    ensures b < a ==> End(m, b) <= a
  {
    hide Shaped, PageStart, PageEnd;
  }

  lemma NotABlock(m: Words, blocks: seq<nat>, b: nat, x: nat)
    requires Tiled(m, blocks) && b in blocks && b < x < End(m, b)
    ensures x !in blocks
  {
    hide Shaped;
  }

  lemma InsidePage(b: nat, n: nat)
    requires b % PAGE + HEADER + n <= PAGE && n >= 1
    ensures (b + HEADER) / PAGE == (b + HEADER + n - 1) / PAGE == b / PAGE
    ensures (b + HEADER + n) % PAGE == 0 ==> (b + HEADER + n) == b - b % PAGE + PAGE
    ensures (b + HEADER + n) % PAGE != 0 ==>
              (b + HEADER + n) / PAGE == b / PAGE && (b + HEADER + n) % PAGE == b % PAGE + HEADER + n
  {
    var p, o := b / PAGE, b % PAGE;
    assert b == p * PAGE + o;
    assert (b + HEADER) == p * PAGE + (o + HEADER);
  }

  // ---------------------------------------------------------------- the three ways to allocate

  function Marked(m: Words, b: nat): Words {
    m[b + 8 := 1]
  }

  /** Split block b: the first `al` bytes are taken, the rest becomes a free block right behind. */
  function SplitAt(m: Words, b: nat, al: nat): Words
    requires HEADER + al <= Size(m, b)
  {
    var nb := b + al + HEADER;
    var m1 := m[nb := Size(m, b) - HEADER - al][nb + 8 := 0][nb + 16 := Next(m, b)];
    m1[b := al][b + 16 := nb][b + 8 := 1]
  }

  /** A used block filling a fresh page, spliced into the list behind b. */
  function FreshAfter(m: Words, b: nat, nb: nat): Words {
    m[nb := MAX_BLOCK][nb + 8 := 1][nb + 16 := Next(m, b)][b + 16 := nb]
  }

  function Insert(blocks: seq<nat>, i: nat, nb: nat): seq<nat>
    requires i < |blocks|
  {
    blocks[..i + 1] + [nb] + blocks[i + 1..]
  }

  lemma InsertIn(blocks: seq<nat>, i: nat, nb: nat)
    requires i < |blocks|
    ensures forall b :: b in Insert(blocks, i, nb) <==> b in blocks || b == nb
  {
  }

  /** Changing words outside a block's extent leaves the block alone. */
  lemma Apart(m: Words, m': Words, b: nat)
    requires forall a :: b <= a < End(m, b) ==> Rd(m', a) == Rd(m, a)
    requires Size(m, b) >= 0
    ensures Size(m', b) == Size(m, b) && (Used(m', b) <==> Used(m, b)) && Next(m', b) == Next(m, b)
    ensures SamePayload(m, m', b)
    ensures End(m', b) == End(m, b)
  {
    assert Rd(m', b) == Rd(m, b) && Rd(m', b + 8) == Rd(m, b + 8) && Rd(m', b + 16) == Rd(m, b + 16);
  }

  lemma NextInserted(m: Words, m': Words, head: nat, blocks: seq<nat>, i: nat, nb: nat, k: nat)
    requires Linked(m, head, blocks) && i < |blocks| && nb > 0 && k <= |blocks|
    requires forall b :: b in blocks && b != blocks[i] ==> Next(m', b) == Next(m, b)
    requires Next(m', blocks[i]) == nb && Next(m', nb) == Next(m, blocks[i])
    ensures var bs := Insert(blocks, i, nb);
            |bs| == |blocks| + 1 && bs[k] > 0 && Next(m', bs[k]) == if k < |blocks| then bs[k + 1] else 0
  {
    hide Insert, Next;
    InsertAt(blocks, i, nb, k);
    InsertAt(blocks, i, nb, k + 1);
    LinkedNext(m, head, blocks, if k <= i then k else k - 1);
    if k > i + 1 {
      assert blocks[k - 1] in blocks && blocks[k - 1] != blocks[i];
    } else if k < i {
      assert blocks[k] in blocks && blocks[k] != blocks[i];
    }
  }

  lemma LinkedNext(m: Words, head: nat, blocks: seq<nat>, k: nat)
    requires Linked(m, head, blocks) && k < |blocks|
    ensures blocks[k] > 0 && Next(m, blocks[k]) == if k + 1 < |blocks| then blocks[k + 1] else 0
  {
  }

  lemma LinkedInsert(m: Words, m': Words, head: nat, blocks: seq<nat>, i: nat, nb: nat)
    requires Linked(m, head, blocks) && i < |blocks| && nb !in blocks && nb > 0
    requires forall b :: b in blocks && b != blocks[i] ==> Next(m', b) == Next(m, b)
    requires Next(m', blocks[i]) == nb && Next(m', nb) == Next(m, blocks[i])
    ensures Linked(m', head, Insert(blocks, i, nb))
  {
    hide Insert;
    var bs := Insert(blocks, i, nb);
    InsertAt(blocks, i, nb, 0);
    forall k | 0 <= k < |bs| ensures bs[k] > 0 && Next(m', bs[k]) == if k + 1 < |bs| then bs[k + 1] else 0 {
      NextInserted(m, m', head, blocks, i, nb, k);
    }
    forall k, l | 0 <= k < l < |bs| ensures bs[k] != bs[l] {
      InsertAt(blocks, i, nb, k);
      InsertAt(blocks, i, nb, l);
    }
    LinkedIf(m', head, bs);
  }

  lemma LinkedIf(m: Words, head: nat, bs: seq<nat>)
    requires |bs| > 0 && head == bs[0]
    requires forall k :: 0 <= k < |bs| ==> bs[k] > 0 && Next(m, bs[k]) == if k + 1 < |bs| then bs[k + 1] else 0
    requires forall k, l :: 0 <= k < l < |bs| ==> bs[k] != bs[l]
    ensures Linked(m, head, bs)
  {
  }

  lemma InsertAt(blocks: seq<nat>, i: nat, nb: nat, k: nat)
    requires i < |blocks|
    ensures var bs := Insert(blocks, i, nb);
            && |bs| == |blocks| + 1
            && (k <= i ==> bs[k] == blocks[k]) && (k == i + 1 ==> bs[k] == nb)
            && (i + 1 < k < |bs| ==> bs[k] == blocks[k - 1])
  {
  }

  // ---------------------------------------------------------------- marking

  /** Taking a whole free block: one flag changes. */
  lemma MarkOk(m: Words, head: nat, blocks: seq<nat>, free: set<nat>, b: nat)
    requires HeapOk(m, head, blocks, free) && b in blocks
    ensures HeapOk(Marked(m, b), head, blocks, free)
    ensures Live(Marked(m, b), blocks) == Live(m, blocks)[b := Size(m, b)]
    ensures forall c :: c in Live(m, blocks) ==> SamePayload(m, Marked(m, b), c)
  {
    FlagOk(m, head, blocks, free, b, 1);
  }

  /** Writing the flag of one block changes nothing else. */
  lemma FlagOk(m: Words, head: nat, blocks: seq<nat>, free: set<nat>, b: nat, v: nat)
    requires HeapOk(m, head, blocks, free) && b in blocks
    ensures HeapOk(m[b + 8 := v], head, blocks, free)
    ensures Live(m[b + 8 := v], blocks) == if v != 0 then Live(m, blocks)[b := Size(m, b)] else Live(m, blocks) - {b}
    ensures forall c :: c in blocks ==> SamePayload(m, m[b + 8 := v], c) && Size(m[b + 8 := v], c) == Size(m, c)
  {
    hide Tiled, Shaped;
    var m' := m[b + 8 := v];
    forall c | c in blocks
      ensures Size(m', c) == Size(m, c) && Next(m', c) == Next(m, c) && SamePayload(m, m', c)
      ensures (c != b ==> (Used(m', c) <==> Used(m, c)))
    {
      FlagApart(m, blocks, b, c, v);
    }
    SameTiling(m, m', blocks);
  }

  lemma FlagApart(m: Words, blocks: seq<nat>, b: nat, c: nat, v: nat)
    requires Tiled(m, blocks) && b in blocks && c in blocks
    ensures var m' := m[b + 8 := v];
            Size(m', c) == Size(m, c) && Next(m', c) == Next(m, c) && SamePayload(m, m', c)
            && (c != b ==> (Used(m', c) <==> Used(m, c)))
  {
    ShapeOf(m, blocks, b);
    ShapeOf(m, blocks, c);
    OrderOf(m, blocks, b, c);
    hide Tiled;
  }

  lemma SameTiling(m: Words, m': Words, blocks: seq<nat>)
    requires Tiled(m, blocks) && forall c :: c in blocks ==> Size(m', c) == Size(m, c)
    ensures Tiled(m', blocks)
  {
    forall c | c in blocks ensures Shaped(m', c) && End(m', c) == End(m, c) {
      assert Shaped(m, c);
    }
  }

  // ---------------------------------------------------------------- splitting

  lemma SplitApart(m: Words, blocks: seq<nat>, b: nat, al: nat, c: nat)
    requires Tiled(m, blocks) && b in blocks && c in blocks && c != b
    requires HEADER + al <= Size(m, b)
    ensures var m' := SplitAt(m, b, al);
            Size(m', c) == Size(m, c) && (Used(m', c) <==> Used(m, c))
            && Next(m', c) == Next(m, c) && SamePayload(m, m', c)
  {
    var m' := SplitAt(m, b, al);
    ShapeOf(m, blocks, b);
    ShapeOf(m, blocks, c);
    OrderOf(m, blocks, b, c);
    hide Tiled;
    forall a | c <= a < End(m, c) ensures Rd(m', a) == Rd(m, a) {
    }
    Apart(m, m', c);
  }

  lemma SplitBlocks(m: Words, b: nat, al: nat)
    requires HEADER + al <= Size(m, b) && al >= 16
    ensures var m', nb := SplitAt(m, b, al), b + al + HEADER;
            && Size(m', b) == al && Used(m', b) && Next(m', b) == nb
            && Size(m', nb) == Size(m, b) - HEADER - al && !Used(m', nb) && Next(m', nb) == Next(m, b)
            && End(m', b) == nb && End(m', nb) == End(m, b)
  {
  }

  lemma SplitShapes(m: Words, b: nat, al: nat)
    requires Shaped(m, b) && al >= 16 && al % 16 == 0 && al + HEADER + 16 <= Size(m, b)
    ensures var m', nb := SplitAt(m, b, al), b + al + HEADER;
            Shaped(m', b) && Shaped(m', nb) && PageStart(nb) == PageStart(b) && b < nb < End(m, b)
  {
    SplitBlocks(m, b, al);
    InsidePage(b, al);
  }

  lemma SplitTiled(m: Words, blocks: seq<nat>, i: nat, al: nat)
    requires Tiled(m, blocks) && i < |blocks|
    requires al >= 16 && al % 16 == 0 && al + HEADER + 16 <= Size(m, blocks[i])
    ensures Tiled(SplitAt(m, blocks[i], al), Insert(blocks, i, blocks[i] + al + HEADER))
    ensures blocks[i] + al + HEADER !in blocks
  {
    hide Tiled, SplitAt, Insert, Shaped, Used, Next, SamePayload, PageStart, PageEnd;
    var b := blocks[i];
    var m', nb := SplitAt(m, b, al), b + al + HEADER;
    var bs := Insert(blocks, i, nb);
    ShapeOf(m, blocks, b);
    SplitBlocks(m, b, al);
    SplitShapes(m, b, al);
    InsertIn(blocks, i, nb);
    NotABlock(m, blocks, b, nb);
    forall c | c in blocks && c != b ensures Size(m', c) == Size(m, c) && Shaped(m', c) {
      SplitApart(m, blocks, b, al, c);
      ShapeOf(m, blocks, c);
      SameShape(m, m', c);
    }
    forall c | c in bs ensures Shaped(m', c) && PageStart(c) in bs && (PageEnd(End(m', c)) || End(m', c) in bs) {
      if c != nb {
        ShapeOf(m, blocks, c);
      }
    }
    forall x, y | x in bs && y in bs && x < y ensures End(m', x) <= y {
      SplitOrder(m, m', blocks, b, nb, x, y);
    }
    TiledIntro(m', bs);
  }

  lemma SameShape(m: Words, m': Words, c: nat)
    requires Shaped(m, c) && Size(m', c) == Size(m, c)
    ensures Shaped(m', c)
  {
  }

  lemma TiledIntro(m: Words, blocks: seq<nat>)
    requires forall b :: b in blocks ==>
               Shaped(m, b) && PageStart(b) in blocks && (PageEnd(End(m, b)) || End(m, b) in blocks)
    requires forall a, b :: a in blocks && b in blocks && a < b ==> End(m, a) <= b
    ensures Tiled(m, blocks)
  {
  }

  lemma SplitOrder(m: Words, m': Words, blocks: seq<nat>, b: nat, nb: nat, x: nat, y: nat)
    requires Tiled(m, blocks) && b in blocks && b < nb < End(m, b) && nb !in blocks
    requires forall c :: c in blocks && c != b ==> Size(m', c) == Size(m, c)
    requires End(m', b) == nb && End(m', nb) == End(m, b)
    requires (x in blocks || x == nb) && (y in blocks || y == nb) && x < y
    ensures End(m', x) <= y
  {
    hide Shaped;
    if x in blocks && y in blocks {
      OrderOf(m, blocks, x, y);
      OrderOf(m, blocks, b, y);
    } else if x == nb {
      OrderOf(m, blocks, b, y);
    } else {
      OrderOf(m, blocks, x, b);
    }
  }

  lemma SplitOk(m: Words, head: nat, blocks: seq<nat>, free: set<nat>, i: nat, al: nat)
    requires HeapOk(m, head, blocks, free) && i < |blocks| && !Used(m, blocks[i])
    requires al >= 16 && al % 16 == 0 && al + HEADER + 16 <= Size(m, blocks[i])
    ensures var m', bs := SplitAt(m, blocks[i], al), Insert(blocks, i, blocks[i] + al + HEADER);
            && HeapOk(m', head, bs, free)
            && Live(m', bs) == Live(m, blocks)[blocks[i] := al]
            && forall c :: c in Live(m, blocks) ==> SamePayload(m, m', c)
  {
    hide SplitAt, Insert, Tiled, Linked, Size, Used, Next, End, SamePayload;
    var b := blocks[i];
    var m', nb := SplitAt(m, b, al), b + al + HEADER;
    var bs := Insert(blocks, i, nb);
    SplitTiled(m, blocks, i, al);
    SplitBlocks(m, b, al);
    InsertIn(blocks, i, nb);
    forall c | c in blocks && c != b
      ensures Size(m', c) == Size(m, c) && (Used(m', c) <==> Used(m, c)) && Next(m', c) == Next(m, c)
      ensures SamePayload(m, m', c)
    {
      SplitApart(m, blocks, b, al, c);
    }
    LinkedInsert(m, m', head, blocks, i, nb);
    SplitPage(m, blocks, b, al);
  }

  lemma SplitPage(m: Words, blocks: seq<nat>, b: nat, al: nat)
    requires Tiled(m, blocks) && b in blocks && al >= 1 && al + HEADER + 16 <= Size(m, b)
    ensures (b + al + HEADER) / PAGE == b / PAGE
  {
    assert Shaped(m, b);
    InsidePage(b, al);
  }

  // ---------------------------------------------------------------- fresh pages

  lemma FreshApart(m: Words, blocks: seq<nat>, b: nat, nb: nat, c: nat)
    requires Tiled(m, blocks) && b in blocks && c in blocks
    requires nb % PAGE == 0 && forall d :: d in blocks ==> d / PAGE != nb / PAGE
    ensures var m' := FreshAfter(m, b, nb);
            Size(m', c) == Size(m, c) && (Used(m', c) <==> Used(m, c)) && SamePayload(m, m', c)
            && (c != b ==> Next(m', c) == Next(m, c))
  {
    ShapeOf(m, blocks, b);
    ShapeOf(m, blocks, c);
    OrderOf(m, blocks, b, c);
    hide Tiled;
    InsidePage(c, Size(m, c));
    assert c >= nb + PAGE || End(m, c) <= nb;
  }

  lemma FreshOk(m: Words, head: nat, blocks: seq<nat>, free: set<nat>, i: nat, page: nat)
    requires HeapOk(m, head, blocks, free) && i < |blocks| && page in free && page > 0
    ensures var nb := page * PAGE;
            var m', bs := FreshAfter(m, blocks[i], nb), Insert(blocks, i, nb);
            && HeapOk(m', head, bs, free - {page})
            && Live(m', bs) == Live(m, blocks)[nb := MAX_BLOCK] && nb !in blocks
            && forall c :: c in Live(m, blocks) ==> SamePayload(m, m', c)
  {
    hide FreshAfter, Insert, Tiled, Linked, Size, PageStart, PageEnd, Used, Next, End, SamePayload;
    var b, nb := blocks[i], page * PAGE;
    var m', bs := FreshAfter(m, b, nb), Insert(blocks, i, nb);
    assert nb / PAGE == page && nb % PAGE == 0 && nb >= PAGE;
    forall c | c in blocks
      ensures Size(m', c) == Size(m, c) && (Used(m', c) <==> Used(m, c)) && SamePayload(m, m', c)
      ensures (c != b ==> Next(m', c) == Next(m, c))
    {
      FreshApart(m, blocks, b, nb, c);
    }
    InsertIn(blocks, i, nb);
    FreshBlock(m, blocks, b, nb);
    FreshTiled(m, m', blocks, i, nb);
    LinkedInsert(m, m', head, blocks, i, nb);
  }

  lemma FreshBlock(m: Words, blocks: seq<nat>, b: nat, nb: nat)
    requires Tiled(m, blocks) && b in blocks && nb % PAGE == 0 && b / PAGE != nb / PAGE
    ensures var m' := FreshAfter(m, b, nb);
            Size(m', nb) == MAX_BLOCK && Used(m', nb) && Next(m', nb) == Next(m, b) && Next(m', b) == nb
  {
    ShapeOf(m, blocks, b);
    hide Tiled;
    InsidePage(b, Size(m, b));
  }

  lemma FreshTiled(m: Words, m': Words, blocks: seq<nat>, i: nat, nb: nat)
    requires Tiled(m, blocks) && i < |blocks| && nb % PAGE == 0 && nb >= PAGE && Size(m', nb) == MAX_BLOCK
    requires forall d :: d in blocks ==> d / PAGE != nb / PAGE && Size(m', d) == Size(m, d)
    ensures Tiled(m', Insert(blocks, i, nb))
  {
    hide Insert, Tiled, Shaped, PageStart, PageEnd;
    var bs := Insert(blocks, i, nb);
    InsertIn(blocks, i, nb);
    FreshShaped(m', nb);
    forall c | c in blocks
      ensures Shaped(m', c) && PageStart(c) in blocks && (PageEnd(End(m', c)) || End(m', c) in blocks)
      ensures End(m', c) == End(m, c) && (End(m, c) <= nb || nb + PAGE <= c)
    {
      OldShaped(m, m', blocks, nb, c);
    }
    forall c, d | c in blocks && d in blocks && c < d ensures End(m', c) <= d {
      OrderOf(m, blocks, c, d);
    }
    TiledIntro(m', bs);
  }

  lemma FreshShaped(m: Words, nb: nat)
    requires nb % PAGE == 0 && nb >= PAGE && Size(m, nb) == MAX_BLOCK
    ensures Shaped(m, nb) && PageStart(nb) == nb && End(m, nb) == nb + PAGE && PageEnd(End(m, nb))
  {
  }

  /** A block of another page keeps its shape and stays clear of the fresh page. */
  lemma OldShaped(m: Words, m': Words, blocks: seq<nat>, nb: nat, c: nat)
    requires Tiled(m, blocks) && c in blocks && nb % PAGE == 0 && c / PAGE != nb / PAGE && Size(m', c) == Size(m, c)
    ensures Shaped(m', c) && PageStart(c) in blocks && (PageEnd(End(m', c)) || End(m', c) in blocks)
    ensures End(m', c) == End(m, c) && (End(m, c) <= nb || nb + PAGE <= c)
  {
    ShapeOf(m, blocks, c);
    hide Tiled;
    InsidePage(c, Size(m, c));
  }
}

/** kmalloc, krealloc and kfree over those blocks, with fresh pages from the frame allocator. */
module Heap {
  import opened Common
  import opened Frames
  import opened HeapBlocks

  /** kmalloc refuses these sizes outright. */
  predicate Refused(size: nat) {
    size == 0 || size >= MAX_BLOCK
  }

  /** The first unused block in list order, or the length of the list. */
  function FirstUnused(m: Words, blocks: seq<nat>): (i: nat)
    ensures i <= |blocks| && (forall k :: 0 <= k < i ==> Used(m, blocks[k])) && (i < |blocks| ==> !Used(m, blocks[i]))
  {
    if blocks == [] then 0
    else if !Used(m, blocks[0]) then 0
    else
      var rest := FirstUnused(m, blocks[1..]);
      assert forall k :: 1 <= k < rest + 1 ==> blocks[k] == blocks[1..][k - 1];
      rest + 1
  }

  /** The heap and the free frames at one moment. */
  datatype Snap = Snap(mem: Words, blocks: seq<nat>, free: set<nat>)

  /** What kmalloc(size) does in state s: the pointer it returns and the state it leaves, or None. */
  ghost function MallocOf(pmm: FrameAllocator, s: Snap, size: nat): Option<(nat, Snap)> {
    var i := FirstUnused(s.mem, s.blocks);
    if Refused(size) || i == |s.blocks| then None
    else
      var b, al := s.blocks[i], Align16(size);
      if Size(s.mem, b) < al then
        match Lowest(pmm, s.free, 1)
        case None => None
        case Some(page) =>
          var nb := page * PAGE;
          Some((nb + HEADER, Snap(FreshAfter(s.mem, b, nb), Insert(s.blocks, i, nb), s.free - {page})))
      else if Size(s.mem, b) < al + HEADER + 16 then Some((b + HEADER, s.(mem := Marked(s.mem, b))))
      else Some((b + HEADER, Snap(SplitAt(s.mem, b, al), Insert(s.blocks, i, b + al + HEADER), s.free)))
  }

  /** What kfree(ptr) leaves of state s. */
  function FreeOf(s: Snap, ptr: nat): Snap {
    if ptr < HEADER then s else s.(mem := s.mem[ptr - HEADER + 8 := 0])
  }

  class KernelHeap {
    const pmm: FrameAllocator
    var mem: Words
    var head: nat
    ghost var blocks: seq<nat>

    ghost predicate Valid()
      reads this, pmm.bitmap
    {
      pmm.Valid() && HeapOk(mem, head, blocks, pmm.Free())
    }

    ghost function Allocations(): map<nat, nat>
      reads this
    {
      Live(mem, blocks)
    }

    ghost function Now(): Snap
      reads this, pmm.bitmap
    {
      Snap(mem, blocks, pmm.Free())
    }

    /** kmalloc_init, given the page kpalloc returned. */
    constructor (pmm_: FrameAllocator, page: nat)
      requires pmm_.Valid() && 0 < page && page !in pmm_.Free()
      ensures Valid() && pmm == pmm_ && Allocations() == map[] && Now() == FreshHeap(page, pmm.Free())
    {
      pmm := pmm_;
      var b := page * PAGE;
      mem := map[b := MAX_BLOCK, b + 8 := 0, b + 16 := 0];
      head := b;
      blocks := [b];
      new;
      InitOk(page, pmm.Free());
    }

    /** What kmalloc does with the first unused block, number i of the list. */
    method Take(block: nat, ghost i: nat, size: nat) returns (r: Option<nat>)
      requires Valid() && First(Now(), i) && blocks[i] == block && !Refused(size)
      modifies `mem, `blocks, pmm.bitmap
      ensures Valid() && pmm.Free() <= old(pmm.Free())
      ensures r.None? <==> Size(old(mem), block) < Align16(size) && NoFrame(pmm, old(pmm.Free()))
      ensures r.None? ==> mem == old(mem) && blocks == old(blocks) && pmm.Free() == old(pmm.Free())
      ensures r.Some? ==> Granted(old(mem), old(blocks), mem, blocks, r.value, size)
      ensures r.Some? ==> if Size(old(mem), block) < Align16(size) then FreshPage(pmm, old(pmm.Free()), r.value)
                          else r.value == block + HEADER
      ensures pmm.Free() + Pages(blocks) == old(pmm.Free() + Pages(blocks))
      ensures r.Some? ==> MallocOf(pmm, old(Now()), size) == Some((r.value, Now()))
    {
      hide HeapOk, FreeSet, Align16, Pages, MallocOf, Granted, FreshPage, NoFrame;
      var aligned := Align16(size);
      if Size(mem, block) < aligned {
        r := TakeFresh(block, i, size);
      } else if Size(mem, block) < aligned + HEADER + 16 {
        TakeWhole(block, i, size);
        r := Some(block + HEADER);
      } else {
        TakePart(block, i, size);
        r := Some(block + HEADER);
      }
    }

    /** The block is too small: the request gets a page of its own behind it. */
    method TakeFresh(block: nat, ghost i: nat, size: nat) returns (r: Option<nat>)
      requires Valid() && First(Now(), i) && blocks[i] == block && !Refused(size) && Size(mem, block) < Align16(size)
      modifies `mem, `blocks, pmm.bitmap
      ensures Valid() && pmm.Free() <= old(pmm.Free())
      ensures r.None? <==> NoFrame(pmm, old(pmm.Free()))
      ensures r.None? ==> mem == old(mem) && blocks == old(blocks) && pmm.Free() == old(pmm.Free())
      ensures r.Some? ==> Granted(old(mem), old(blocks), mem, blocks, r.value, size)
      ensures r.Some? ==> FreshPage(pmm, old(pmm.Free()), r.value)
      ensures pmm.Free() + Pages(blocks) == old(pmm.Free() + Pages(blocks))
      ensures r.Some? ==> MallocOf(pmm, old(Now()), size) == Some((r.value, Now()))
    {
      hide HeapOk, Fits, FreeSet, FreshAfter, Insert, SamePayload, Live, Align16, Pages, MallocOf, Lowest;
      ghost var m, bs, free := mem, blocks, pmm.Free();
      Aligned(size);
      BlockFacts(m, head, bs, free, i);
      var page := pmm.Alloc();
      if page.None? {
        return None;
      }
      var nb := page.value * PAGE;
      FreshOk(m, head, bs, free, i, page.value);
      mem := mem[nb := MAX_BLOCK][nb + 8 := 1][nb + 16 := Next(mem, block)];
      mem := mem[block + 16 := nb];
      assert mem == FreshAfter(m, block, nb) by { FreshIs(m, block, nb); }
      blocks := Insert(bs, i, nb);
      InsertIn(bs, i, nb);
      NotLive(m, bs, nb);
      FreshPages(bs, blocks, nb, page.value, free);
      PayloadOfPage(page.value);
      LowestIs(pmm, free, 1, page);
      MallocFresh(pmm, Snap(m, bs, free), size, i, page.value);
      return Some(nb + HEADER);
    }

    /** The block fits and is not worth splitting. */
    method TakeWhole(block: nat, ghost i: nat, size: nat)
      requires Valid() && First(Now(), i) && blocks[i] == block && !Refused(size)
      requires Align16(size) <= Size(mem, block) < Align16(size) + HEADER + 16
      modifies `mem
      ensures Valid() && Granted(old(mem), blocks, mem, blocks, block + HEADER, size)
      ensures MallocOf(pmm, old(Now()), size) == Some((block + HEADER, Now()))
    {
      hide HeapOk, FreeSet, SamePayload, Live, Align16, Pages, MallocOf;
      Aligned(size);
      NotLive(mem, blocks, block);
      MarkOk(mem, head, blocks, pmm.Free(), block);
      MallocWhole(pmm, Now(), size, i);
      mem := mem[block + 8 := 1];
    }

    /** The block is split. */
    method TakePart(block: nat, ghost i: nat, size: nat)
      requires Valid() && First(Now(), i) && blocks[i] == block && !Refused(size)
      requires Align16(size) + HEADER + 16 <= Size(mem, block)
      modifies `mem, `blocks
      ensures Valid() && Granted(old(mem), old(blocks), mem, blocks, block + HEADER, size)
      ensures Pages(blocks) == old(Pages(blocks))
      ensures MallocOf(pmm, old(Now()), size) == Some((block + HEADER, Now()))
    {
      hide HeapOk, FreeSet, SplitAt, Insert, SamePayload, Live, Align16, Pages, MallocOf;
      ghost var m, bs, free := mem, blocks, pmm.Free();
      var aligned := Align16(size);
      Aligned(size);
      BlockFacts(m, head, bs, free, i);
      NotLive(m, bs, block);
      SplitOk(m, head, bs, free, i, aligned);
      var nb := block + aligned + HEADER;
      SplitIs(m, block, aligned);
      var words := mem[nb := Size(mem, block) - HEADER - aligned][nb + 8 := 0][nb + 16 := Next(mem, block)];
      words := words[block := aligned];
      words := words[block + 16 := nb];
      mem := words[block + 8 := 1];
      blocks := Insert(bs, i, nb);
      InsertIn(bs, i, nb);
      SplitPages(m, head, bs, blocks, block, nb, free);
      MallocSplit(pmm, Snap(m, bs, free), size, i);
    }

    /** kmalloc.  The first unused block decides: if it is too small a whole fresh page is taken for this
        request, if none is unused the call fails. */
    method Malloc(size: nat) returns (r: Option<nat>)
      requires Valid()
      modifies `mem, `blocks, pmm.bitmap
      ensures Valid() && pmm.Free() <= old(pmm.Free())
      ensures r.None? <==> MallocFails(old(mem), old(blocks), pmm, old(pmm.Free()), size)
      ensures r.None? ==> mem == old(mem) && blocks == old(blocks) && pmm.Free() == old(pmm.Free())
      ensures r.Some? ==> Granted(old(mem), old(blocks), mem, blocks, r.value, size)
      ensures r.Some? ==> Chosen(old(mem), old(blocks), pmm, old(pmm.Free()), size, r.value)
      ensures r.Some? ==> (r.value % 16 == 0 <==> AlignedNext(old(mem), old(blocks), size))
      ensures pmm.Free() + Pages(blocks) == old(pmm.Free() + Pages(blocks))
      ensures r.None? <==> MallocOf(pmm, old(Now()), size).None?
      ensures r.Some? ==> MallocOf(pmm, old(Now()), size) == Some((r.value, Now()))
    {
      hide HeapOk, Fits, FreeSet, SamePayload, Live, Align16, Granted, NoFrame, Pages, MallocOf;
      MallocNone(pmm, Now(), size);
      if size == 0 || size >= MAX_BLOCK {
        return None;
      }
      var block;
      ghost var i;
      block, i := FindUnused();
      FirstIs(mem, blocks, i);
      if block == 0 {
        return None;
      }
      ghost var m, bs, free := mem, blocks, pmm.Free();
      r := Take(block, i, size);
      if r.Some? {
        MallocAligned(m, bs, pmm, free, size, r.value);
      }
    }

    /** The list walk of kmalloc: the first unused block, or null. */
    method FindUnused() returns (block: nat, ghost i: nat)
      requires Valid()
      ensures i <= |blocks| && (forall k :: 0 <= k < i ==> Used(mem, blocks[k]))
      ensures i < |blocks| ==> block == blocks[i] && block != 0 && !Used(mem, block)
      ensures i == |blocks| ==> block == 0
    {
      hide HeapOk, FreeSet;
      block, i := head, 0;
      BlockFacts(mem, head, blocks, pmm.Free(), 0);
      while block != 0
        invariant i <= |blocks| && block == (if i < |blocks| then blocks[i] else 0)
        invariant forall k :: 0 <= k < i ==> Used(mem, blocks[k])
        decreases |blocks| - i
      {
        BlockFacts(mem, head, blocks, pmm.Free(), i);
        if !Used(mem, block) {
          return;
        }
        block := Next(mem, block);
        i := i + 1;
      }
      if i < |blocks| {
        BlockFacts(mem, head, blocks, pmm.Free(), i);
      }
    }

    /** kfree: clears the flag, no coalescing; freeing a free block again changes nothing. */
    method Free(ptr: nat)
      requires Valid() && (ptr != 0 ==> ptr >= HEADER && ptr - HEADER in blocks)
      modifies `mem
      ensures Valid()
      ensures Allocations() == if ptr == 0 then old(Allocations()) else old(Allocations()) - {ptr - HEADER}
      ensures forall b :: b in blocks ==> SamePayload(old(mem), mem, b) && Size(mem, b) == Size(old(mem), b)
      ensures Now() == FreeOf(old(Now()), ptr)
    {
      hide HeapOk, FreeSet, Live;
      if ptr == 0 {
        return;
      }
      FlagOk(mem, head, blocks, pmm.Free(), ptr - HEADER, 0);
      mem := mem[ptr - HEADER + 8 := 0];
    }

    /** memcpy of n bytes between two live blocks. */
    method CopyWords(p: nat, q: nat, n: nat)
      requires Valid() && n % 8 == 0 && p >= HEADER && q >= HEADER && p != q
      requires p - HEADER in Allocations() && q - HEADER in Allocations()
      requires n <= Allocations()[p - HEADER] && n <= Allocations()[q - HEADER]
      modifies `mem
      ensures Valid() && Allocations() == old(Allocations())
      ensures CopyOf(old(mem), mem, p, q, n)
      ensures forall b :: b in Allocations() && b != q - HEADER ==> SamePayload(old(mem), mem, b)
    {
      hide HeapOk, FreeSet, Live, SamePayload;
      ghost var m := mem;
      LiveIn(m, blocks, p - HEADER);
      LiveIn(m, blocks, q - HEADER);
      SameHere(m, blocks);
      var o := 0;
      while o < n
        invariant 0 <= o <= n && o % 8 == 0
        invariant HeapOk(mem, head, blocks, pmm.Free()) && Live(mem, blocks) == Live(m, blocks)
        invariant CopyOf(m, mem, p, q, o)
        invariant forall b :: b in Live(m, blocks) && b != q - HEADER ==>
                    SamePayload(m, mem, b) && Size(mem, b) == Size(m, b)
      {
        LiveIn(mem, blocks, q - HEADER);
        assert Rd(mem, p + o) == Rd(m, p + o) by { PayloadAt(m, mem, p - HEADER, p + o); }
        StoreOk(mem, head, blocks, pmm.Free(), q - HEADER, q + o, Rd(mem, p + o));
        forall b | b in Live(m, blocks) && b != q - HEADER
          ensures SamePayload(m, mem[q + o := Rd(mem, p + o)], b) && Size(mem[q + o := Rd(mem, p + o)], b) == Size(m, b)
        {
          LiveIn(m, blocks, b);
          PayloadTransitive(m, mem, mem[q + o := Rd(mem, p + o)], b);
        }
        mem := mem[q + o := Rd(mem, p + o)];
        o := o + 8;
      }
    }

    /** krealloc.  On failure the old allocation is intact. */
    method Realloc(ptr: nat, newSize: nat) returns (r: Option<nat>)
      requires Valid() && (ptr != 0 ==> ptr >= HEADER && ptr - HEADER in Allocations())
      modifies `mem, `blocks, pmm.bitmap
      ensures Valid()
      ensures ptr == 0 ==> (r.None? <==> MallocFails(old(mem), old(blocks), pmm, old(pmm.Free()), newSize))
                           && (r.Some? ==> Granted(old(mem), old(blocks), mem, blocks, r.value, newSize))
      ensures ptr == 0 && r.None? ==> Now() == old(Now())
      ensures pmm.Free() + Pages(blocks) == old(pmm.Free() + Pages(blocks))
      ensures ptr != 0 && newSize == 0 ==>
                r.None? && Allocations() == old(Allocations()) - {ptr - HEADER} && blocks == old(blocks)
      ensures ptr != 0 && newSize == 0 ==> forall b :: b in blocks ==> SamePayload(old(mem), mem, b)
      ensures ptr != 0 && newSize != 0 ==>
                (r.None? <==>
                  || Refused(newSize)
                  || (old(Allocations())[ptr - HEADER] < Align16(newSize)
                      && MallocFails(old(mem), old(blocks), pmm, old(pmm.Free()), newSize)))
      ensures ptr != 0 && newSize != 0 ==>
                (r == Some(ptr) <==> !Refused(newSize) && Align16(newSize) <= old(Allocations())[ptr - HEADER])
      ensures ptr != 0 && newSize != 0 && r.None? ==>
                mem == old(mem) && blocks == old(blocks) && pmm.Free() == old(pmm.Free())
      ensures ptr != 0 && r == Some(ptr) ==>
                mem == old(mem) && blocks == old(blocks) && newSize <= Allocations()[ptr - HEADER]
      ensures ptr != 0 && r.Some? && r.value != ptr ==> Moved(old(mem), old(blocks), mem, blocks, ptr, r.value, newSize)
    {
      hide HeapOk, FreeSet, Live, SamePayload, Align16, MallocFails, MallocOf, Pages;
      if ptr == 0 {
        r := Malloc(newSize);
        return;
      }
      ghost var m, bs := mem, blocks;
      LiveIn(m, bs, ptr - HEADER);
      if newSize == 0 {
        Free(ptr);
        return None;
      }
      if newSize >= MAX_BLOCK {
        return None;
      }
      var oldSize := Size(mem, ptr - HEADER);
      BlockSize(mem, head, blocks, pmm.Free(), ptr - HEADER);
      Aligned(newSize);
      if Align16(newSize) <= oldSize {
        return Some(ptr);
      }
      r := Malloc(newSize);
      if r.None? {
        return;
      }
      ghost var m1 := mem;
      CopyWords(ptr, r.value, oldSize);
      ghost var m2 := mem;
      LiveIn(m2, blocks, ptr - HEADER);
      LiveIn(m2, blocks, r.value - HEADER);
      Free(ptr);
      MoveOk(m, bs, m1, m2, mem, blocks, ptr, r.value, newSize);
    }
  }

  lemma MallocNone(pmm: FrameAllocator, s: Snap, size: nat)
    ensures MallocOf(pmm, s, size).None? <==> MallocFails(s.mem, s.blocks, pmm, s.free, size)
  {
    hide Align16, Fits;
    LowestNone(pmm, s.free, 1);
  }

  /** When kmalloc fails, in numbers: a refused size, no unused block at all, or a first unused block smaller than
      the size rounded up to 16 with no frame to be had. */
  lemma MallocExact(pmm: FrameAllocator, s: Snap, size: nat)
    ensures MallocOf(pmm, s, size).None? <==>
              || size == 0 || 4072 <= size
              || (forall k :: 0 <= k < |s.blocks| ==> Used(s.mem, s.blocks[k]))
              || (&& Usable(pmm, s.free) == {}
                  && exists i :: && 0 <= i < |s.blocks| && !Used(s.mem, s.blocks[i])
                                 && (forall k :: 0 <= k < i ==> Used(s.mem, s.blocks[k]))
                                 && Size(s.mem, s.blocks[i]) < (size + 15) / 16 * 16)
  {
    hide Fits, MallocOf, Used, Size;
    MallocNone(pmm, s, size);
    NoFrameUsable(pmm, s.free);
    var i := FirstUnused(s.mem, s.blocks);
    forall j | 0 <= j < |s.blocks| && !Used(s.mem, s.blocks[j]) && forall k :: 0 <= k < j ==> Used(s.mem, s.blocks[k])
      ensures j == i
    {
    }
  }

  lemma NoFrameUsable(pmm: FrameAllocator, free: set<nat>)
    ensures NoFrame(pmm, free) <==> Usable(pmm, free) == {}
  {
    hide Fits;
    if !NoFrame(pmm, free) {
      var q: nat :| Fits(free, pmm.FirstPage(), pmm.frameCount, q, 1);
      FitsOne(pmm, free, q);
      assert q in Usable(pmm, free);
    }
  }

  lemma FitsOne(pmm: FrameAllocator, free: set<nat>, q: nat)
    ensures Fits(free, pmm.FirstPage(), pmm.frameCount, q, 1) ==> q in free
  {
  }

  lemma MallocFresh(pmm: FrameAllocator, s: Snap, size: nat, i: nat, page: nat)
    requires !Refused(size) && First(s, i) && Size(s.mem, s.blocks[i]) < Align16(size)
    requires Lowest(pmm, s.free, 1) == Some(page)
    ensures var nb := page * PAGE;
            MallocOf(pmm, s, size)
            == Some((nb + HEADER, Snap(FreshAfter(s.mem, s.blocks[i], nb), Insert(s.blocks, i, nb), s.free - {page})))
  {
    hide Align16, FreshAfter, Insert, Lowest;
    FirstIs(s.mem, s.blocks, i);
  }

  lemma MallocWhole(pmm: FrameAllocator, s: Snap, size: nat, i: nat)
    requires !Refused(size) && First(s, i)
    requires Align16(size) <= Size(s.mem, s.blocks[i]) < Align16(size) + HEADER + 16
    ensures MallocOf(pmm, s, size) == Some((s.blocks[i] + HEADER, s.(mem := s.mem[s.blocks[i] + 8 := 1])))
  {
    hide Align16, Lowest;
    FirstIs(s.mem, s.blocks, i);
  }

  lemma MallocSplit(pmm: FrameAllocator, s: Snap, size: nat, i: nat)
    requires !Refused(size) && First(s, i) && Align16(size) + HEADER + 16 <= Size(s.mem, s.blocks[i])
    ensures var b, al := s.blocks[i], Align16(size);
            MallocOf(pmm, s, size)
            == Some((b + HEADER, Snap(SplitAt(s.mem, b, al), Insert(s.blocks, i, b + al + HEADER), s.free)))
  {
    hide Align16, Lowest, Insert;
    FirstIs(s.mem, s.blocks, i);
  }

  /** Block i is the first unused one. */
  ghost predicate First(s: Snap, i: nat) {
    i < |s.blocks| && (forall k :: 0 <= k < i ==> Used(s.mem, s.blocks[k])) && !Used(s.mem, s.blocks[i])
  }

  lemma SameHere(m: Words, blocks: seq<nat>)
    ensures forall b :: b in Live(m, blocks) ==> SamePayload(m, m, b)
  {
  }

  lemma PayloadAt(m: Words, m': Words, b: nat, a: nat)
    requires SamePayload(m, m', b) && b + HEADER <= a < End(m, b)
    ensures Rd(m', a) == Rd(m, a)
  {
  }

  lemma BlockSize(m: Words, head: nat, blocks: seq<nat>, free: set<nat>, b: nat)
    requires HeapOk(m, head, blocks, free) && b in blocks
    ensures 16 <= Size(m, b) <= MAX_BLOCK && Size(m, b) % 8 == 0
  {
    ShapeOf(m, blocks, b);
  }

  lemma MoveOk(m: Words, bs: seq<nat>, m1: Words, m2: Words, m3: Words, blocks: seq<nat>, p: nat, q: nat, newSize: nat)
    requires p >= HEADER && p - HEADER in Live(m, bs) && Live(m, bs)[p - HEADER] == Size(m, p - HEADER)
    requires Granted(m, bs, m1, blocks, q, newSize) && Live(m2, blocks) == Live(m1, blocks)
    requires Align16(newSize) > Size(m, p - HEADER) && Size(m, p - HEADER) <= MAX_BLOCK
    requires CopyOf(m1, m2, p, q, Size(m, p - HEADER))
    requires forall b :: b in Live(m1, blocks) && b != q - HEADER ==> SamePayload(m1, m2, b)
    requires Live(m3, blocks) == Live(m2, blocks) - {p - HEADER}
    requires forall b :: b in blocks ==> SamePayload(m2, m3, b) && Size(m3, b) == Size(m2, b)
    ensures Moved(m, bs, m3, blocks, p, q, newSize)
  {
    hide Live, SamePayload, Align16, Size;
    var n := Size(m, p - HEADER);
    assert forall b :: b in Live(m, bs) ==> b in Live(m1, blocks) && Live(m1, blocks)[b] == Live(m, bs)[b];
    forall b | b in Live(m, bs) && b != p - HEADER ensures SamePayload(m, m3, b) {
      SizesAgree(m, bs, m1, blocks, b);
      SizesAgree(m1, blocks, m2, blocks, b);
      PayloadTransitive(m, m1, m2, b);
      PayloadTransitive(m, m2, m3, b);
    }
    SizesAgree(m, bs, m1, blocks, p - HEADER);
    LiveIn(m2, blocks, q - HEADER);
    forall o | 0 <= o < n && o % 8 == 0 ensures Rd(m3, q + o) == Rd(m, p + o) {
      PayloadAt(m, m1, p - HEADER, p + o);
      PayloadAt(m2, m3, q - HEADER, q + o);
    }
  }

  lemma SizesAgree(m: Words, bs: seq<nat>, m1: Words, blocks: seq<nat>, b: nat)
    requires b in Live(m, bs) && b in Live(m1, blocks) && Live(m1, blocks)[b] == Live(m, bs)[b]
    ensures Size(m1, b) == Size(m, b) && b in blocks && b in bs
  {
  }

  lemma InitOk(page: nat, free: set<nat>)
    requires 0 < page && page !in free
    ensures var b := page * PAGE;
            var m := map[b := MAX_BLOCK, b + 8 := 0, b + 16 := 0];
            HeapOk(m, b, [b], free) && Live(m, [b]) == map[]
  {
    hide Shaped, PageStart, PageEnd, Tiled, Linked;
    var b := page * PAGE;
    var m := map[b := MAX_BLOCK, b + 8 := 0, b + 16 := 0];
    PageMultiple(page);
    assert Size(m, b) == MAX_BLOCK && Next(m, b) == 0 && !Used(m, b);
    FreshShaped(m, b);
    TiledIntro(m, [b]);
    LinkedIf(m, b, [b]);
  }

  lemma PageMultiple(page: nat)
    ensures page * PAGE % PAGE == 0 && page * PAGE / PAGE == page
  {
  }

  /** A word written inside the payload of one block disturbs no header and no other payload. */
  lemma StoreOk(m: Words, head: nat, blocks: seq<nat>, free: set<nat>, b: nat, a: nat, v: nat)
    requires HeapOk(m, head, blocks, free) && b in blocks && b + HEADER <= a < End(m, b)
    ensures HeapOk(m[a := v], head, blocks, free) && Live(m[a := v], blocks) == Live(m, blocks)
    ensures forall c :: c in blocks && c != b ==> SamePayload(m, m[a := v], c)
    ensures forall c :: c in blocks ==> Size(m[a := v], c) == Size(m, c)
  {
    hide Tiled, Shaped;
    var m' := m[a := v];
    forall c | c in blocks
      ensures Size(m', c) == Size(m, c) && (Used(m', c) <==> Used(m, c)) && Next(m', c) == Next(m, c)
      ensures c != b ==> SamePayload(m, m', c)
    {
      OrderOf(m, blocks, b, c);
    }
    SameTiling(m, m', blocks);
  }

  lemma PayloadTransitive(m0: Words, m1: Words, m2: Words, b: nat)
    requires SamePayload(m0, m1, b) && SamePayload(m1, m2, b) && Size(m1, b) == Size(m0, b)
    ensures SamePayload(m0, m2, b)
  {
  }

  lemma LiveIn(m: Words, blocks: seq<nat>, b: nat)
    requires b in Live(m, blocks)
    ensures b in blocks && Used(m, b) && Live(m, blocks)[b] == Size(m, b)
  {
  }

  /** The first n bytes at q are those that were at p. */
  ghost predicate CopyOf(m: Words, m': Words, p: nat, q: nat, n: nat) {
    forall o :: 0 <= o < n && o % 8 == 0 ==> Rd(m', q + o) == Rd(m, p + o)
  }

  /** p was moved to a larger block with its contents; the other allocations are as before. */
  ghost predicate Moved(m: Words, blocks: seq<nat>, m': Words, blocks': seq<nat>, p: nat, q: nat, newSize: nat)
    requires p >= HEADER && p - HEADER in Live(m, blocks)
  {
    && q >= HEADER && q - HEADER !in Live(m, blocks) && q - HEADER in Live(m', blocks')
    && var cap := Live(m', blocks')[q - HEADER];
    && Live(m', blocks') == (Live(m, blocks) - {p - HEADER})[q - HEADER := cap]
    && newSize <= cap && Live(m, blocks)[p - HEADER] <= cap
    && CopyOf(m, m', p, q, Live(m, blocks)[p - HEADER])
    && forall b :: b in Live(m, blocks) && b != p - HEADER ==> SamePayload(m, m', b)
  }

  ghost predicate NoFrame(pmm: FrameAllocator, free: set<nat>) {
    forall p: nat :: !Fits(free, pmm.FirstPage(), pmm.frameCount, p, 1)
  }

  /** p is the first payload of the lowest frame that may be handed out. */
  ghost predicate FreshPage(pmm: FrameAllocator, free: set<nat>, p: nat) {
    && p % PAGE == HEADER && Fits(free, pmm.FirstPage(), pmm.frameCount, p / PAGE, 1)
    && forall q: nat :: Fits(free, pmm.FirstPage(), pmm.frameCount, q, 1) ==> p / PAGE <= q
  }

  /** Which pointer kmalloc returns: that of the first unused block if it is large enough, otherwise that
      of a fresh page. */
  ghost predicate Chosen(m: Words, blocks: seq<nat>, pmm: FrameAllocator, free: set<nat>, size: nat, p: nat) {
    && FirstUnused(m, blocks) < |blocks|
    && var b := blocks[FirstUnused(m, blocks)];
    if Size(m, b) < Align16(size) then FreshPage(pmm, free, p) else p == b + HEADER
  }

  /** The documentation promises 16-byte alignment.  The next pointer has it exactly when the first unused
      block is large enough and its header lies 8 bytes past a multiple of 16. */
  predicate AlignedNext(m: Words, blocks: seq<nat>, size: nat) {
    && FirstUnused(m, blocks) < |blocks|
    && var b := blocks[FirstUnused(m, blocks)];
    Align16(size) <= Size(m, b) && b % 16 == 8
  }

  lemma MallocAligned(m: Words, blocks: seq<nat>, pmm: FrameAllocator, free: set<nat>, size: nat, p: nat)
    requires Chosen(m, blocks, pmm, free, size, p)
    ensures p % 16 == 0 <==> AlignedNext(m, blocks, size)
  {
    hide Align16, FirstUnused, Fits;
    if p % PAGE == HEADER {
      PageAlignment(p);
    }
  }

  lemma PageAlignment(p: nat)
    requires p % PAGE == HEADER
    ensures p % 16 == 8
  {
    assert p == 16 * (256 * (p / PAGE) + 1) + 8;
  }

  lemma PayloadOfPage(page: nat)
    ensures (page * PAGE + HEADER) / PAGE == page && (page * PAGE + HEADER) % PAGE == HEADER
  {
  }

  /** On a heap of one page, as kmalloc_init leaves it, no request gets 16-byte alignment. */
  lemma FreshHeapMisaligned(m: Words, page: nat, size: nat)
    ensures !AlignedNext(m, [page * PAGE], size)
  {
    PayloadOfPage(page);
    PageAlignment(page * PAGE + HEADER);
  }

  /** After a first request that splits that page, the second one that fits gets it. */
  lemma SecondAligned(m: Words, page: nat, al: nat, size: nat)
    requires al % 16 == 0 && HEADER + al + 16 <= Size(m, page * PAGE)
    requires Align16(size) <= Size(m, page * PAGE) - HEADER - al
    ensures var b := page * PAGE;
            AlignedNext(SplitAt(m, b, al), Insert([b], 0, b + al + HEADER), size)
  {
    var b, nb := page * PAGE, page * PAGE + al + HEADER;
    var m', bs := SplitAt(m, b, al), Insert([b], 0, nb);
    assert bs == [b, nb];
    assert Used(m', b) && !Used(m', nb);
    FirstIs(m', bs, 1);
    PayloadOfPage(page);
    PageAlignment(b + HEADER);
    assert Size(m', nb) == Size(m, b) - HEADER - al;
    assert nb % 16 == 8;
  }

  /** The heap as kmalloc_init leaves it. */
  ghost function FreshHeap(page: nat, free: set<nat>): Snap {
    var b := page * PAGE;
    Snap(map[b := MAX_BLOCK, b + 8 := 0, b + 16 := 0], [b], free)
  }

  /** A fresh heap serves every size from 1 to 4064; the sizes up to 4071 round up to more than its block holds and
      take a page of their own. */
  lemma FreshHeapServes(pmm: FrameAllocator, page: nat, free: set<nat>, size: nat)
    ensures MallocOf(pmm, FreshHeap(page, free), size).Some? <==>
              1 <= size <= 4064 || (4065 <= size <= 4071 && Usable(pmm, free) != {})
  {
    hide MallocOf, Usable;
    var s := FreshHeap(page, free);
    assert !Used(s.mem, s.blocks[0]) && Size(s.mem, s.blocks[0]) == 4072;
    MallocExact(pmm, s, size);
  }

  /** After a first request of 4033 to 4064 bytes, and of no other size, every further one fails, however many
      frames are free. */
  lemma FullAfterFirst(pmm: FrameAllocator, page: nat, free: set<nat>, size: nat)
    requires !Refused(size) && page !in free
    ensures var first := MallocOf(pmm, FreshHeap(page, free), size);
            first.Some? && (forall n :: MallocOf(pmm, first.value.1, n).None?) <==> 4032 < size <= 4064
  {
    hide Lowest, Insert, FreshAfter, SplitAt;
    var s, b, al := FreshHeap(page, free), page * PAGE, Align16(size);
    assert First(s, 0) && Size(s.mem, b) == MAX_BLOCK;
    if al > MAX_BLOCK {
      match Lowest(pmm, free, 1)
      case None => FirstIs(s.mem, s.blocks, 0);
      case Some(p) =>
        MallocFresh(pmm, s, size, 0, p);
        LowestFree(pmm, free, 1);
        FreshKeeps(s.mem, page, p);
        OneMore(pmm, FreshAfter(s.mem, b, p * PAGE), b, p * PAGE, free - {p});
    } else if al + HEADER + 16 <= MAX_BLOCK {
      MallocSplit(pmm, s, size, 0);
      SplitLeaves(pmm, s.mem, b, al, free);
    } else {
      MallocWhole(pmm, s, size, 0);
      FirstIs(s.mem[b + 8 := 1], [b], 1);
    }
  }

  lemma FreshKeeps(m: Words, page: nat, p: nat)
    requires page != p
    ensures var b := page * PAGE;
            var m' := FreshAfter(m, b, p * PAGE);
            (Used(m', b) <==> Used(m, b)) && Size(m', b) == Size(m, b)
  {
    assert page < p ==> page * PAGE + PAGE <= p * PAGE;
    assert p < page ==> p * PAGE + PAGE <= page * PAGE;
  }

  /** The first block of a list of two is still unused when a fresh page was put behind it. */
  lemma OneMore(pmm: FrameAllocator, m: Words, b: nat, nb: nat, free: set<nat>)
    requires !Used(m, b) && Size(m, b) == MAX_BLOCK
    ensures MallocOf(pmm, Snap(m, Insert([b], 0, nb), free), 1).Some?
  {
    hide Lowest;
    assert Insert([b], 0, nb) == [b, nb];
    FirstIs(m, [b, nb], 0);
  }

  lemma SplitLeaves(pmm: FrameAllocator, m: Words, b: nat, al: nat, free: set<nat>)
    requires HEADER + al + 16 <= Size(m, b)
    ensures MallocOf(pmm, Snap(SplitAt(m, b, al), Insert([b], 0, b + al + HEADER), free), 1).Some?
  {
    hide Lowest;
    var m', nb := SplitAt(m, b, al), b + al + HEADER;
    assert Insert([b], 0, nb) == [b, nb];
    assert Used(m', b) && !Used(m', nb) && Size(m', nb) >= 16;
    FirstIs(m', [b, nb], 1);
  }

  /** Exactly when kmalloc returns a null pointer. */
  ghost predicate MallocFails(m: Words, blocks: seq<nat>, pmm: FrameAllocator, free: set<nat>, size: nat) {
    || Refused(size)
    || FirstUnused(m, blocks) == |blocks|
    || (Size(m, blocks[FirstUnused(m, blocks)]) < Align16(size) && NoFrame(pmm, free))
  }

  /** p is a new live allocation of at least `size` bytes; the others keep their capacity and contents. */
  ghost predicate Granted(m: Words, blocks: seq<nat>, m': Words, blocks': seq<nat>, p: nat, size: nat) {
    && p >= HEADER && p - HEADER !in Live(m, blocks) && p - HEADER in Live(m', blocks')
    && var cap := Live(m', blocks')[p - HEADER];
    && Live(m', blocks') == Live(m, blocks)[p - HEADER := cap]
    && size <= cap && (Align16(size) <= cap || cap == MAX_BLOCK)
    && (forall b :: b in blocks ==> b in blocks')
    && forall b :: b in Live(m, blocks) ==> SamePayload(m, m', b)
  }

  lemma Aligned(size: nat)
    requires !Refused(size)
    ensures 16 <= Align16(size) && Align16(size) % 16 == 0 && size <= Align16(size)
  {
  }

  lemma BlockFacts(m: Words, head: nat, blocks: seq<nat>, free: set<nat>, i: nat)
    requires HeapOk(m, head, blocks, free)
    ensures |blocks| > 0 && head == blocks[0]
    ensures i < |blocks| ==> blocks[i] > 0 && Next(m, blocks[i]) == (if i + 1 < |blocks| then blocks[i + 1] else 0)
                             && 16 <= Size(m, blocks[i]) <= MAX_BLOCK && Size(m, blocks[i]) % 8 == 0
  {
    if i < |blocks| {
      ShapeOf(m, blocks, blocks[i]);
    }
  }

  lemma FreshPages(blocks: seq<nat>, blocks': seq<nat>, nb: nat, page: nat, free: set<nat>)
    requires nb == page * PAGE && page in free && forall b :: b in blocks' <==> b == nb || b in blocks
    ensures free - {page} + Pages(blocks') == free + Pages(blocks)
  {
    assert nb / PAGE == page;
    assert Pages(blocks') == Pages(blocks) + {page} by {
      assert nb in blocks' && nb / PAGE in Pages(blocks');
      assert forall b :: b in blocks ==> b in blocks';
    }
  }

  lemma SplitPages(m: Words, head: nat, blocks: seq<nat>, blocks': seq<nat>, block: nat, nb: nat, free: set<nat>)
    requires HeapOk(m, head, blocks, free) && block in blocks && block < nb < End(m, block)
    requires forall b :: b in blocks' <==> b == nb || b in blocks
    ensures Pages(blocks') == Pages(blocks)
  {
    ShapeOf(m, blocks, block);
    hide Tiled, Linked;
    assert nb / PAGE == block / PAGE by {
      InsidePage(block, Size(m, block));
      SamePage(block, nb, Size(m, block));
    }
    assert nb / PAGE in Pages(blocks) by { assert block / PAGE in Pages(blocks); }
    assert forall b :: b in blocks ==> b in blocks';
  }

  lemma SamePage(b: nat, x: nat, n: nat)
    requires b <= x < b + HEADER + n && b % PAGE + HEADER + n <= PAGE
    ensures x / PAGE == b / PAGE
  {
    assert x == b / PAGE * PAGE + (b % PAGE + (x - b));
  }

  lemma NotLive(m: Words, blocks: seq<nat>, b: nat)
    requires b !in blocks || !Used(m, b)
    ensures b !in Live(m, blocks)
  {
  }

  lemma FreshIs(m: Words, b: nat, nb: nat)
    ensures FreshAfter(m, b, nb) == m[nb := MAX_BLOCK][nb + 8 := 1][nb + 16 := Next(m, b)][b + 16 := nb]
  {
  }

  lemma SplitIs(m: Words, b: nat, al: nat)
    requires HEADER + al <= Size(m, b)
    ensures var nb := b + al + HEADER;
            SplitAt(m, b, al) ==
            m[nb := Size(m, b) - HEADER - al][nb + 8 := 0][nb + 16 := Next(m, b)][b := al][b + 16 := nb][b + 8 := 1]
  {
  }

  lemma {:induction false} FirstIs(m: Words, blocks: seq<nat>, i: nat)
    requires i <= |blocks| && (forall k :: 0 <= k < i ==> Used(m, blocks[k])) && (i < |blocks| ==> !Used(m, blocks[i]))
    ensures FirstUnused(m, blocks) == i
  {
    if i > 0 {
      FirstIs(m, blocks[1..], i - 1);
    }
  }
}
