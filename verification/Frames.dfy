/** The physical frame allocator (src/mm/pmm.c): a bitmap packed eight frames to a byte, a set
    bit meaning "free".  The class is proved against a plain set of free frame numbers. */
module Frames {
  import opened Common

  // ---------------------------------------------------------------- the packed bitmap

  /** `BITMAP_FREE << k` */
  function Mask(k: nat): bv8
    requires k < 8
  {
    1 << k
  }

  predicate Test(b: bv8, k: nat)
    requires k < 8
  {
    b & Mask(k) != 0
  }

  function WithBit(b: bv8, k: nat): bv8
    requires k < 8
  {
    b | Mask(k)
  }

  function WithoutBit(b: bv8, k: nat): bv8
    requires k < 8
  {
    b & !Mask(k)
  }

  lemma MaskValues()
    ensures Mask(0) == 1 && Mask(1) == 2 && Mask(2) == 4 && Mask(3) == 8
    ensures Mask(4) == 16 && Mask(5) == 32 && Mask(6) == 64 && Mask(7) == 128
  {
  }

  lemma MaskDisjoint(j: nat, k: nat)
    requires j < 8 && k < 8
    ensures Mask(k) != 0 && (j != k ==> Mask(j) & Mask(k) == 0)
  {
    MaskValues();
    hide Mask;
    assert j == 0 || j == 1 || j == 2 || j == 3 || j == 4 || j == 5 || j == 6 || j == 7;
    assert k == 0 || k == 1 || k == 2 || k == 3 || k == 4 || k == 5 || k == 6 || k == 7;
  }

  lemma MaskAlgebra(b: bv8, x: bv8, y: bv8)
    requires y != 0
    ensures x & y == 0 ==> (b | x) & y == b & y && (b & !x) & y == b & y
    ensures (b | y) & y == y && (b & !y) & y == 0
  {
  }

  lemma MaskBits(b: bv8, j: nat, k: nat)
    requires j < 8 && k < 8
    ensures Test(WithBit(b, j), k) <==> j == k || Test(b, k)
    ensures Test(WithoutBit(b, j), k) <==> j != k && Test(b, k)
  {
    hide Mask;
    MaskDisjoint(j, k);
    MaskAlgebra(b, Mask(j), Mask(k));
  }

  predicate IsFree(bits: seq<bv8>, p: nat) {
    p / 8 < |bits| && Test(bits[p / 8], p % 8)
  }

  ghost function FreeSet(bits: seq<bv8>): set<nat> {
    set p: nat | p < 8 * |bits| && IsFree(bits, p)
  }

  function Raised(bits: seq<bv8>, p: nat): seq<bv8>
    requires p / 8 < |bits|
  {
    bits[p / 8 := WithBit(bits[p / 8], p % 8)]
  }

  function Lowered(bits: seq<bv8>, p: nat): seq<bv8>
    requires p / 8 < |bits|
  {
    bits[p / 8 := WithoutBit(bits[p / 8], p % 8)]
  }

  lemma OneBit(bits: seq<bv8>, p: nat, q: nat)
    requires p / 8 < |bits|
    ensures IsFree(Raised(bits, p), q) <==> q == p || IsFree(bits, q)
    ensures IsFree(Lowered(bits, p), q) <==> q != p && IsFree(bits, q)
  {
    hide Test, WithBit, WithoutBit;
    if q / 8 == p / 8 {
      assert q == p <==> q % 8 == p % 8;
      MaskBits(bits[p / 8], p % 8, q % 8);
    }
  }

  /** Setting or clearing the bit of frame p adds or removes exactly p. */
  lemma FlipBit(bits: seq<bv8>, p: nat)
    requires p / 8 < |bits|
    ensures FreeSet(Raised(bits, p)) == FreeSet(bits) + {p}
    ensures FreeSet(Lowered(bits, p)) == FreeSet(bits) - {p}
  {
    hide Test, WithBit, WithoutBit;
    forall q: nat
      ensures IsFree(Raised(bits, p), q) <==> q == p || IsFree(bits, q)
      ensures IsFree(Lowered(bits, p), q) <==> q != p && IsFree(bits, q)
    {
      OneBit(bits, p, q);
    }
  }

  lemma ByteFromMasks(a: bv8, b: bv8)
    requires (a & 1 != 0 <==> b & 1 != 0) && (a & 2 != 0 <==> b & 2 != 0)
    requires (a & 4 != 0 <==> b & 4 != 0) && (a & 8 != 0 <==> b & 8 != 0)
    requires (a & 16 != 0 <==> b & 16 != 0) && (a & 32 != 0 <==> b & 32 != 0)
    requires (a & 64 != 0 <==> b & 64 != 0) && (a & 128 != 0 <==> b & 128 != 0)
    ensures a == b
  {
  }

  lemma ByteFromBits(a: bv8, b: bv8)
    requires forall k: nat :: k < 8 ==> (Test(a, k) <==> Test(b, k))
    ensures a == b
  {
    hide Mask;
    MaskValues();
    assert Test(a, 0) <==> Test(b, 0);
    assert Test(a, 1) <==> Test(b, 1);
    assert Test(a, 2) <==> Test(b, 2);
    assert Test(a, 3) <==> Test(b, 3);
    assert Test(a, 4) <==> Test(b, 4);
    assert Test(a, 5) <==> Test(b, 5);
    assert Test(a, 6) <==> Test(b, 6);
    assert Test(a, 7) <==> Test(b, 7);
    ByteFromMasks(a, b);
  }

  /** The free set determines every byte of the bitmap, so restoring the set restores the bitmap. */
  lemma BitmapFromSet(a: seq<bv8>, b: seq<bv8>)
    requires |a| == |b| && FreeSet(a) == FreeSet(b)
    ensures a == b
  {
    hide Test;
    forall i | 0 <= i < |a| ensures a[i] == b[i] {
      forall k: nat | k < 8 ensures Test(a[i], k) <==> Test(b[i], k) {
        var p := 8 * i + k;
        assert p / 8 == i && p % 8 == k;
        assert p in FreeSet(a) <==> IsFree(a, p);
        assert p in FreeSet(b) <==> IsFree(b, p);
      }
      ByteFromBits(a[i], b[i]);
    }
  }

  // ---------------------------------------------------------------- the E820 memory map

  /** e820_entry_t without the extended attributes. */
  datatype Region = Region(base: nat, length: nat, kind: nat)

  const E820_USABLE: nat := 1
  const MMAP_ENTRIES_MAX: nat := 512
  const BITMAP_ADDR: nat := 0x10000
  const WORD: nat := 0x1_0000_0000_0000_0000

  /** The entries the allocator looks at: at most 512. */
  function Considered(regions: seq<Region>): seq<Region> {
    if |regions| > MMAP_ENTRIES_MAX then regions[..MMAP_ENTRIES_MAX] else regions
  }

  /** No sum the allocator forms over a usable entry leaves 64 bits. */
  predicate FitsWord(regions: seq<Region>) {
    forall k :: 0 <= k < |regions| && regions[k].kind == E820_USABLE
                ==> regions[k].base + regions[k].length + 0xFFF < WORD
  }

  /** The highest end address of a usable entry. */
  function RamEnd(regions: seq<Region>): nat {
    if regions == [] then 0
    else
      var before := RamEnd(regions[..|regions| - 1]);
      var e := regions[|regions| - 1];
      if e.kind == E820_USABLE && e.base + e.length > before then e.base + e.length else before
  }

  /** RamEnd is the end of some usable entry and no usable entry ends above it; 0 without one. */
  lemma {:induction false} RamEndExact(regions: seq<Region>, e: nat)
    ensures e == RamEnd(regions) <==>
              && (forall k :: 0 <= k < |regions| && regions[k].kind == 1 ==> regions[k].base + regions[k].length <= e)
              && (e == 0 || exists k :: 0 <= k < |regions| && regions[k].kind == 1
                                        && regions[k].base + regions[k].length == e)
  {
    RamEndAttained(regions);
    forall k | 0 <= k < |regions| && regions[k].kind == 1
      ensures regions[k].base + regions[k].length <= RamEnd(regions)
    {
      RamEndBounds(regions, k);
    }
  }

  lemma {:induction false} RamEndAttained(regions: seq<Region>)
    ensures RamEnd(regions) == 0 || exists k :: 0 <= k < |regions| && regions[k].kind == 1
                                                && regions[k].base + regions[k].length == RamEnd(regions)
  {
    if regions != [] {
      var front, e := regions[..|regions| - 1], regions[|regions| - 1];
      RamEndAttained(front);
      if RamEnd(regions) == RamEnd(front) && RamEnd(front) != 0 {
        var k :| 0 <= k < |front| && front[k].kind == 1 && front[k].base + front[k].length == RamEnd(front);
        assert regions[k] == front[k];
      }
    }
  }

  lemma {:induction false} RamEndBounds(regions: seq<Region>, k: nat)
    requires k < |regions| && regions[k].kind == E820_USABLE
    ensures regions[k].base + regions[k].length <= RamEnd(regions)
  {
    if k < |regions| - 1 {
      RamEndBounds(regions[..|regions| - 1], k);
    }
  }

  /** Frame p lies wholly inside one usable entry. */
  ghost predicate InRam(regions: seq<Region>, p: nat) {
    exists k :: 0 <= k < |regions| && Covers(regions[k], p)
  }

  predicate Covers(e: Region, p: nat) {
    e.kind == E820_USABLE && e.base <= p * PAGE && (p + 1) * PAGE <= e.base + e.length
  }

  lemma CoversPages(e: Region, p: nat)
    requires e.kind == E820_USABLE
    ensures Covers(e, p) <==> (e.base + 4095) / 4096 <= p < (e.base + e.length) / 4096
  {
  }

  /** What kis_normal_ram decides. */
  ghost predicate NormalRam(regions: seq<Region>, kernelEnd: nat, bitmapSize: nat, phys: nat) {
    && phys % PAGE == 0
    && kernelEnd <= phys
    && !(BITMAP_ADDR <= phys < BITMAP_ADDR + bitmapSize)
    && exists k :: 0 <= k < |regions| && regions[k].kind == E820_USABLE
                   && regions[k].base <= phys < regions[k].base + regions[k].length
  }

  // ---------------------------------------------------------------- what the searches mean

  /** Frames the single-frame searches never hand out: 0x400000..0x600000. */
  predicate Hole(p: nat) {
    0x400 <= p < 0x600
  }

  /** Every frame of [p, p + n) may be handed out. */
  ghost predicate Fits(free: set<nat>, lo: nat, hi: nat, p: nat, n: nat) {
    lo <= p && p + n <= hi && forall q: nat :: p <= q < p + n ==> q in free && !Hole(q)
  }

  ghost function Run(p: nat, n: nat): set<nat> {
    set q: nat | q < p + n && InRun(q, p, n)
  }

  predicate InRun(q: nat, p: nat, n: nat) {
    p <= q < p + n
  }

  class FrameAllocator {
    const bitmap: array<bv8>
    const frameCount: nat
    const kernelEnd: nat
    const regions: seq<Region>

    ghost predicate Valid()
      reads bitmap
    {
      && 0 < kernelEnd && FirstPage() <= frameCount && bitmap.Length == (frameCount + 7) / 8
      && forall p :: p in Free() ==> 0 < p < frameCount
    }

    ghost function Free(): set<nat>
      reads bitmap
    {
      FreeSet(bitmap[..])
    }

    function FirstPage(): nat {
      (kernelEnd + 4095) / 4096
    }

    /** kpmm_init */
    constructor (map_: seq<Region>, kernelEnd_: nat)
      requires FitsWord(Considered(map_))
      requires 0 < kernelEnd_ <= RamEnd(Considered(map_))
      ensures Valid() && fresh(bitmap)
      ensures regions == (if |map_| > 512 then map_[..512] else map_) && kernelEnd == kernelEnd_
      ensures frameCount == (RamEnd(regions) + 0xFFF) / 0x1000
      ensures exists k :: 0 <= k < |regions| && regions[k].kind == 1
                          && frameCount == (regions[k].base + regions[k].length + 0xFFF) / 0x1000
      ensures forall k :: 0 <= k < |regions| && regions[k].kind == 1
                          ==> regions[k].base + regions[k].length <= frameCount * 0x1000
      ensures forall p: nat :: p in Free() <==> InRam(regions, p) && kernelEnd <= p * PAGE
      ensures forall p: nat :: p in Free() <==>
                && kernelEnd <= p * 0x1000
                && exists k :: 0 <= k < |regions| && regions[k].kind == 1 && regions[k].base <= p * 0x1000
                               && (p + 1) * 0x1000 <= regions[k].base + regions[k].length
    {
      hide Test, InRam, Covers, RamEnd;
      var entries := Considered(map_);
      var endAddr := EndOfRam(entries);
      var frames := (endAddr + 0xFFF) / 0x1000;
      var size := (frames + 7) / 8;
      var bits := new bv8[size](_ => 0);
      NoneFree(bits[..]);
      MarkRam(bits, entries, frames);
      MarkUsed(bits, 0, (kernelEnd_ + 4095) / 4096);
      bitmap := bits;
      frameCount := frames;
      kernelEnd := kernelEnd_;
      regions := entries;
      new;
      forall p: nat ensures p in Free() <==> InRam(regions, p) && kernelEnd <= p * PAGE {
        assert p in Free() <==> IsFree(bitmap[..], p);
      }
      forall p | p in Free() ensures 0 < p < frameCount {
        InRamBounds(regions, p);
      }
      forall p: nat {
        InRamMeans(regions, p);
      }
      RamEndExact(regions, RamEnd(regions));
    }

    /** What the searches may return, in addresses: a run of free frames from the end of the kernel up to the end
        of RAM, none of them in 0x400000..0x600000. */
    lemma FitsMeans(free: set<nat>, p: nat, n: nat)
      ensures Fits(free, FirstPage(), frameCount, p, n) <==>
                && kernelEnd <= p * 0x1000 && (p + n) * 0x1000 <= frameCount * 0x1000
                && forall q: nat :: p <= q < p + n ==> q in free && !(0x400000 <= q * 0x1000 < 0x600000)
      ensures forall q: nat :: q in Run(p, n) <==> p <= q < p + n
    {
      forall q: nat ensures q in Run(p, n) <==> p <= q < p + n {
        assert q in Run(p, n) <==> InRun(q, p, n);
      }
      assert FirstPage() <= p <==> kernelEnd <= p * 0x1000;
      assert p + n <= frameCount <==> (p + n) * 0x1000 <= frameCount * 0x1000;
      if forall q: nat :: p <= q < p + n ==> q in free && !Hole(q) {
        forall q: nat | p <= q < p + n ensures q in free && !(0x400000 <= q * 0x1000 < 0x600000) {
          assert !Hole(q);
        }
      } else {
        var q: nat :| p <= q < p + n && !(q in free && !Hole(q));
        assert q in free ==> 0x400000 <= q * 0x1000 < 0x600000;
      }
    }

    /** BITMAP[page / 8] & (BITMAP_FREE << (page % 8)) */
    predicate Bit(page: nat)
      requires page / 8 < bitmap.Length
      reads bitmap
      ensures Bit(page) <==> page in Free()
    {
      assert page in Free() <==> IsFree(bitmap[..], page);
      Test(bitmap[page / 8], page % 8)
    }

    method Clear(page: nat)
      requires page / 8 < bitmap.Length
      modifies bitmap
      ensures Free() == old(Free()) - {page}
    {
      hide Test, WithBit, WithoutBit;
      FlipBit(bitmap[..], page);
      ghost var before := bitmap[..];
      bitmap[page / 8] := WithoutBit(bitmap[page / 8], page % 8);
      assert bitmap[..] == Lowered(before, page);
    }

    /** kpalloc: the lowest frame that may be handed out. */
    method Alloc() returns (r: Option<nat>)
      requires Valid()
      modifies bitmap
      ensures Valid()
      ensures r.None? ==> Free() == old(Free()) && forall q: nat :: !Fits(Free(), FirstPage(), frameCount, q, 1)
      ensures r.Some? ==> r.value in old(Free()) && 0 < r.value && Free() == old(Free()) - {r.value}
      ensures r.Some? ==> Fits(old(Free()), FirstPage(), frameCount, r.value, 1)
      ensures r.Some? ==> Takes(old(Free()), Free(), FirstPage(), frameCount, r.value, 1)
      ensures r.Some? ==> forall q: nat :: Fits(old(Free()), FirstPage(), frameCount, q, 1) ==> r.value <= q
    {
      for page := FirstPage() to frameCount
        invariant forall q: nat :: q < page ==> !Fits(Free(), FirstPage(), frameCount, q, 1)
        invariant bitmap[..] == old(bitmap[..])
      {
        assert Fits(Free(), FirstPage(), frameCount, page, 1) ==> page in Free();
        if Bit(page) {
          var phys := page * 0x1000;
          if phys >= 0x400000 && phys < 0x600000 {
            continue;
          }
          Clear(page);
          assert Run(page, 1) == {page};
          TakesIt(old(Free()), Free(), FirstPage(), frameCount, page, 1);
          return Some(page);
        }
      }
      return None;
    }

    /** kpalloc_top: the highest such frame. */
    method AllocTop() returns (r: Option<nat>)
      requires Valid()
      modifies bitmap
      ensures Valid()
      ensures r.None? ==> Free() == old(Free()) && forall q: nat :: !Fits(Free(), FirstPage(), frameCount, q, 1)
      ensures r.Some? ==> r.value in old(Free()) && 0 < r.value && Free() == old(Free()) - {r.value}
      ensures r.Some? ==> Fits(old(Free()), FirstPage(), frameCount, r.value, 1)
      ensures r.Some? ==> Takes(old(Free()), Free(), FirstPage(), frameCount, r.value, 1)
      ensures r.Some? ==> forall q: nat :: Fits(old(Free()), FirstPage(), frameCount, q, 1) ==> q <= r.value
    {
      for page := frameCount downto FirstPage()
        invariant forall q: nat :: page <= q ==> !Fits(Free(), FirstPage(), frameCount, q, 1)
        invariant bitmap[..] == old(bitmap[..])
      {
        assert Fits(Free(), FirstPage(), frameCount, page, 1) ==> page in Free();
        if Bit(page) {
          var phys := page * 0x1000;
          if phys >= 0x400000 && phys < 0x600000 {
            continue;
          }
          Clear(page);
          assert Run(page, 1) == {page};
          TakesIt(old(Free()), Free(), FirstPage(), frameCount, page, 1);
          return Some(page);
        }
      }
      return None;
    }

    /** kpalloc_contiguous: the lowest run of `pages` frames that may be handed out. */
    method AllocContiguous(pages: nat) returns (r: Option<nat>)
      requires Valid()
      modifies bitmap
      ensures Valid()
      ensures r.None? ==> Free() == old(Free())
                          && (pages == 0 || forall q: nat :: !Fits(Free(), FirstPage(), frameCount, q, pages))
      ensures r.Some? ==> 0 < pages && 0 < r.value && Free() == old(Free()) - Run(r.value, pages)
      ensures r.Some? ==> Fits(old(Free()), FirstPage(), frameCount, r.value, pages)
      ensures r.Some? ==> Takes(old(Free()), Free(), FirstPage(), frameCount, r.value, pages)
      ensures r.Some? ==> forall q: nat :: Fits(old(Free()), FirstPage(), frameCount, q, pages) ==> r.value <= q
    {
      if pages == 0 {
        return None;
      }
      if pages == 1 {
        r := Alloc();
        assert r.Some? ==> Run(r.value, 1) == {r.value};
        return;
      }
      var page := FirstPage();
      while page + pages <= frameCount
        invariant FirstPage() <= page
        invariant forall q: nat :: q < page ==> !Fits(Free(), FirstPage(), frameCount, q, pages)
        invariant bitmap[..] == old(bitmap[..])
      {
        var ok := true;
        var i := 0;
        while i < pages
          invariant i <= pages
          invariant ok ==> forall q: nat :: page <= q < page + i ==> q in Free() && !Hole(q)
          invariant !ok ==> !Fits(Free(), FirstPage(), frameCount, page, pages)
        {
          var phys := (page + i) * 0x1000;
          if phys >= 0x400000 && phys < 0x600000 {
            assert Hole(page + i);
            ok := false;
            break;
          }
          if !Bit(page + i) {
            ok := false;
            break;
          }
          i := i + 1;
        }
        if ok {
          ClearRun(page, pages);
          TakesIt(old(Free()), Free(), FirstPage(), frameCount, page, pages);
          return Some(page);
        }
        page := page + 1;
      }
      return None;
    }

    method ClearRun(page: nat, pages: nat)
      requires Valid() && page + pages <= frameCount
      modifies bitmap
      ensures Valid()
      ensures Free() == old(Free()) - Run(page, pages)
    {
      assert Run(page, 0) == {};
      for i := 0 to pages
        invariant Valid() && Free() == old(Free()) - Run(page, i)
      {
        Clear(page + i);
        assert Run(page, i + 1) == Run(page, i) + {page + i};
      }
    }

    /** kpfree of a page-aligned address.  A null pointer is ignored.  `ok` is false when the frame is out of
        range or already free: the kernel then halts. */
    method Release(frame: nat) returns (ok: bool)
      requires Valid()
      modifies bitmap
      ensures Valid()
      ensures ok <==> frame == 0 || (frame < frameCount && frame !in old(Free()))
      ensures Free() == if ok && frame != 0 then old(Free()) + {frame} else old(Free())
      ensures ok && frame != 0 ==> Gives(old(Free()), Free(), FirstPage(), frameCount, frame, 1)
    {
      if frame == 0 {
        return true;
      }
      if frame >= frameCount {
        return false;
      }
      if Bit(frame) {
        return false;
      }
      hide Test, WithBit, WithoutBit;
      ghost var before := bitmap[..];
      FlipBit(before, frame);
      bitmap[frame / 8] := WithBit(bitmap[frame / 8], frame % 8);
      assert bitmap[..] == Raised(before, frame);
      assert Run(frame, 1) == {frame};
      GivesIt(FreeSet(before), Free(), FirstPage(), frameCount, frame, 1);
      return true;
    }

    /** kpfree of an address: one that is not page aligned halts as well. */
    method ReleaseAddress(phys: nat) returns (ok: bool)
      requires Valid()
      modifies bitmap
      ensures Valid()
      ensures ok <==> phys == 0 || (phys % 0x1000 == 0 && phys / 0x1000 < frameCount && phys / 0x1000 !in old(Free()))
      ensures Free() == if ok && phys != 0 then old(Free()) + {phys / 0x1000} else old(Free())
    {
      if phys == 0 {
        return true;
      }
      if phys % 0x1000 != 0 {
        return false;
      }
      ok := Release(phys / 0x1000);
    }

    /** kpfree_contiguous: halts at the first frame kpfree halts on. */
    method ReleaseContiguous(frame: nat, pages: nat) returns (ok: bool)
      requires Valid()
      modifies bitmap
      ensures Valid()
      ensures ok <==> frame == 0 || (Run(frame, pages) !! old(Free()) && (pages == 0 || frame + pages <= frameCount))
      ensures ok ==> Free() == if frame == 0 then old(Free()) else old(Free()) + Run(frame, pages)
      ensures ok && frame != 0 ==> Gives(old(Free()), Free(), FirstPage(), frameCount, frame, pages)
    {
      assert Run(frame, 0) == {};
      if frame == 0 || pages == 0 {
        GivesIt(Free(), Free(), FirstPage(), frameCount, frame, 0);
        return true;
      }
      for i := 0 to pages
        invariant Valid() && Free() == old(Free()) + Run(frame, i)
        invariant Run(frame, i) !! old(Free()) && (i > 0 ==> frame + i <= frameCount)
      {
        assert frame + i in Run(frame, pages) && frame + i !in Run(frame, i);
        ok := Release(frame + i);
        if !ok {
          return;
        }
        assert Run(frame, i + 1) == Run(frame, i) + {frame + i};
      }
      GivesIt(old(Free()), Free(), FirstPage(), frameCount, frame, pages);
      return true;
    }

    /** kis_normal_ram */
    method IsNormalRam(phys: nat) returns (r: bool)
      requires Valid()
      ensures r <==> NormalRam(regions, kernelEnd, bitmap.Length, phys)
      ensures r <==>
                && phys % 0x1000 == 0 && kernelEnd <= phys && !(0x10000 <= phys < 0x10000 + bitmap.Length)
                && exists k :: 0 <= k < |regions| && regions[k].kind == 1
                               && regions[k].base <= phys < regions[k].base + regions[k].length
    {
      if phys % 0x1000 != 0 {
        return false;
      }
      if phys < kernelEnd {
        return false;
      }
      if phys >= BITMAP_ADDR && phys < BITMAP_ADDR + bitmap.Length {
        return false;
      }
      for i := 0 to |regions|
        invariant forall k :: 0 <= k < i ==> !(regions[k].kind == E820_USABLE
                                               && regions[k].base <= phys < regions[k].base + regions[k].length)
      {
        if regions[i].kind == E820_USABLE {
          var base := regions[i].base;
          var end := base + regions[i].length;
          if phys >= base && phys < end {
            return true;
          }
        }
      }
      return false;
    }
  }

  lemma InRamExtends(entries: seq<Region>, i: nat)
    requires i < |entries|
    ensures forall p: nat :: InRam(entries[..i + 1], p) <==> InRam(entries[..i], p) || Covers(entries[i], p)
  {
    forall p: nat ensures InRam(entries[..i + 1], p) <==> InRam(entries[..i], p) || Covers(entries[i], p) {
      if InRam(entries[..i], p) {
        var k :| 0 <= k < i && Covers(entries[..i][k], p);
        assert Covers(entries[..i + 1][k], p);
      }
      if Covers(entries[i], p) {
        assert Covers(entries[..i + 1][i], p);
      }
    }
  }

  lemma NoneFree(bits: seq<bv8>)
    requires forall i :: 0 <= i < |bits| ==> bits[i] == 0
    ensures forall p: nat :: !IsFree(bits, p)
  {
    hide Mask;
  }

  lemma InRamMeans(regions: seq<Region>, p: nat)
    ensures InRam(regions, p) <==>
              exists k :: 0 <= k < |regions| && regions[k].kind == 1
                          && regions[k].base <= p * 0x1000 && (p + 1) * 0x1000 <= regions[k].base + regions[k].length
  {
    if InRam(regions, p) {
      var k :| 0 <= k < |regions| && Covers(regions[k], p);
      assert regions[k].kind == 1;
    }
    forall k | 0 <= k < |regions| && regions[k].kind == 1
               && regions[k].base <= p * 0x1000 && (p + 1) * 0x1000 <= regions[k].base + regions[k].length
      ensures InRam(regions, p)
    {
      assert Covers(regions[k], p);
    }
  }

  lemma InRamBounds(regions: seq<Region>, p: nat)
    requires InRam(regions, p)
    ensures (p + 1) * PAGE <= RamEnd(regions)
  {
    var k :| 0 <= k < |regions| && Covers(regions[k], p);
    RamEndBounds(regions, k);
  }

  /** The first loop of kpmm_init. */
  method EndOfRam(entries: seq<Region>) returns (endAddr: nat)
    ensures endAddr == RamEnd(entries)
  {
    endAddr := 0;
    for i := 0 to |entries|
      invariant endAddr == RamEnd(entries[..i])
    {
      assert entries[..i + 1][..i] == entries[..i];
      if entries[i].kind == E820_USABLE {
        var addr := entries[i].base + entries[i].length;
        if addr > endAddr {
          endAddr := addr;
        }
      }
    }
    assert entries[..|entries|] == entries;
  }

  /** The second loop of kpmm_init. */
  method MarkRam(bits: array<bv8>, entries: seq<Region>, frames: nat)
    requires frames == (RamEnd(entries) + 0xFFF) / 0x1000 && bits.Length == (frames + 7) / 8
    requires forall p: nat :: !IsFree(bits[..], p)
    modifies bits
    ensures forall p: nat :: IsFree(bits[..], p) <==> InRam(entries, p)
  {
    hide IsFree, RamEnd;
    for i := 0 to |entries|
      invariant forall p: nat :: IsFree(bits[..], p) <==> InRam(entries[..i], p)
    {
      InRamExtends(entries, i);
      if entries[i].kind == E820_USABLE {
        RamEndBounds(entries, i);
        MarkFree(bits, (entries[i].base + 4095) / 4096, (entries[i].base + entries[i].length) / 4096);
        EntryCovers(entries[i]);
      }
    }
    assert entries[..|entries|] == entries;
  }

  lemma EntryCovers(e: Region)
    requires e.kind == E820_USABLE
    ensures forall p: nat :: Covers(e, p) <==> (e.base + 4095) / 4096 <= p < (e.base + e.length) / 4096
  {
    forall p: nat ensures Covers(e, p) <==> (e.base + 4095) / 4096 <= p < (e.base + e.length) / 4096 {
      CoversPages(e, p);
    }
  }

  /** The inner loop of kpmm_init over one usable entry. */
  method MarkFree(bits: array<bv8>, first: nat, last: nat)
    requires last <= 8 * bits.Length
    modifies bits
    ensures forall p: nat :: IsFree(bits[..], p) <==> IsFree(old(bits[..]), p) || first <= p < last
  {
    hide Test, WithBit, WithoutBit;
    var page := first;
    while page < last
      invariant forall p: nat :: IsFree(bits[..], p) <==> IsFree(old(bits[..]), p) || first <= p < page
      invariant first <= page && (page == first || page <= last)
    {
      ghost var before := bits[..];
      bits[page / 8] := WithBit(bits[page / 8], page % 8);
      assert bits[..] == Raised(before, page);
      forall p: nat ensures IsFree(bits[..], p) <==> p == page || IsFree(before, p) {
        OneBit(before, page, p);
      }
      page := page + 1;
    }
  }

  /** The reservation loop of kpmm_init over the kernel's own frames. */
  method MarkUsed(bits: array<bv8>, first: nat, last: nat)
    requires last <= 8 * bits.Length
    modifies bits
    ensures forall p: nat :: IsFree(bits[..], p) <==> IsFree(old(bits[..]), p) && !(first <= p < last)
  {
    hide Test, WithBit, WithoutBit;
    var page := first;
    while page < last
      invariant forall p: nat :: IsFree(bits[..], p) <==> IsFree(old(bits[..]), p) && !(first <= p < page)
      invariant first <= page && (page == first || page <= last)
    {
      ghost var before := bits[..];
      bits[page / 8] := WithoutBit(bits[page / 8], page % 8);
      assert bits[..] == Lowered(before, page);
      forall p: nat ensures IsFree(bits[..], p) <==> p != page && IsFree(before, p) {
        OneBit(before, page, p);
      }
      page := page + 1;
    }
  }

  // ---------------------------------------------------------------- what may be handed out

  /** The frames kpalloc may hand out. */
  ghost function Usable(pmm: FrameAllocator, free: set<nat>): set<nat> {
    set p | p in free && Fits(free, pmm.FirstPage(), pmm.frameCount, p, 1)
  }

  /** kpalloc took only usable frames between free and free'. */
  ghost predicate Took(pmm: FrameAllocator, free: set<nat>, free': set<nat>) {
    free' <= free && free - free' <= Usable(pmm, free)
  }

  lemma TookMore(pmm: FrameAllocator, free: set<nat>, free1: set<nat>, free2: set<nat>)
    requires Took(pmm, free, free1) && Took(pmm, free1, free2)
    ensures Took(pmm, free, free2)
  {
    forall p | p in free - free2 ensures p in Usable(pmm, free) {
      if p in free1 {
        assert p in free1 - free2;
      } else {
        assert p in free - free1;
      }
    }
  }

  lemma TookOne(pmm: FrameAllocator, free: set<nat>, p: nat)
    requires p in free && Fits(free, pmm.FirstPage(), pmm.frameCount, p, 1)
    ensures Took(pmm, free, free - {p})
  {
  }

  lemma TookSubset(pmm: FrameAllocator, free: set<nat>, free': set<nat>)
    requires Took(pmm, free, free')
    ensures free' <= free
  {
  }

  /** No frame of `free` may be handed out. */
  ghost predicate Spent(pmm: FrameAllocator, free: set<nat>) {
    forall p: nat :: !Fits(free, pmm.FirstPage(), pmm.frameCount, p, 1)
  }

  lemma AllTaken(pmm: FrameAllocator, free: set<nat>, free': set<nat>)
    requires Took(pmm, free, free') && Spent(pmm, free')
    ensures free - free' == Usable(pmm, free)
  {
    forall p | p in Usable(pmm, free) ensures p !in free' {
      assert !Fits(free', pmm.FirstPage(), pmm.frameCount, p, 1);
    }
  }

  lemma TookNone(pmm: FrameAllocator, free: set<nat>)
    ensures Took(pmm, free, free)
  {
  }

  lemma TookNext(pmm: FrameAllocator, free: set<nat>, free1: set<nat>, p: nat)
    requires Took(pmm, free, free1) && p in free1 && Fits(free1, pmm.FirstPage(), pmm.frameCount, p, 1)
    ensures Took(pmm, free, free1 - {p})
  {
    hide Took, Fits;
    TookOne(pmm, free1, p);
    TookMore(pmm, free, free1, free1 - {p});
  }

  /** Between free and free' one usable frame was taken for each element of xs. */
  ghost predicate TookFor<T>(pmm: FrameAllocator, free: set<nat>, free': set<nat>, xs: set<T>) {
    Took(pmm, free, free') && |free - free'| == |xs|
  }

  /** There are fewer usable frames than elements of xs. */
  ghost predicate Short<T>(pmm: FrameAllocator, free: set<nat>, xs: set<T>) {
    |Usable(pmm, free)| < |xs|
  }

  lemma TookForNext<T>(pmm: FrameAllocator, free: set<nat>, free1: set<nat>, xs: set<T>, x: T, p: nat)
    requires TookFor(pmm, free, free1, xs) && x !in xs
    requires p in free1 && Fits(free1, pmm.FirstPage(), pmm.frameCount, p, 1)
    ensures TookFor(pmm, free, free1 - {p}, xs + {x})
  {
    hide Took, Fits;
    TookNext(pmm, free, free1, p);
    TookSubset(pmm, free, free1);
    assert free - (free1 - {p}) == free - free1 + {p};
  }

  lemma TookForEnough<T>(pmm: FrameAllocator, free: set<nat>, free': set<nat>, xs: set<T>)
    requires TookFor(pmm, free, free', xs)
    ensures !Short(pmm, free, xs)
  {
    SubsetSize(free - free', Usable(pmm, free));
  }

  lemma RanShort<T>(pmm: FrameAllocator, free: set<nat>, free': set<nat>, xs: set<T>, ys: set<T>)
    requires TookFor(pmm, free, free', xs) && Spent(pmm, free') && |xs| < |ys|
    ensures Short(pmm, free, ys)
  {
    AllTaken(pmm, free, free');
  }

  /** What is left to hand out after some of it was taken. */
  lemma UsableLeft(pmm: FrameAllocator, free: set<nat>, free': set<nat>)
    requires Took(pmm, free, free')
    ensures |Usable(pmm, free)| == |Usable(pmm, free')| + |free - free'|
  {
    assert Usable(pmm, free) == Usable(pmm, free') + (free - free');
  }

  lemma UsableAfter(pmm: FrameAllocator, free: set<nat>, p: Option<nat>)
    requires p.None? ==> Spent(pmm, free)
    requires p.Some? ==> p.value in free && Fits(free, pmm.FirstPage(), pmm.frameCount, p.value, 1)
    ensures p.None? <==> Usable(pmm, free) == {}
    ensures p.Some? ==> |Usable(pmm, free)| == |Usable(pmm, free - {p.value})| + 1
  {
    if p.Some? {
      TookOne(pmm, free, p.value);
      UsableLeft(pmm, free, free - {p.value});
      assert free - (free - {p.value}) == {p.value};
      assert p.value in Usable(pmm, free);
    }
  }

  /** The first run of n frames from p on that may be handed out. */
  ghost function LowestFrom(free: set<nat>, lo: nat, hi: nat, n: nat, p: nat): (r: Option<nat>)
    ensures r.None? ==> forall q: nat :: p <= q ==> !Fits(free, lo, hi, q, n)
    ensures r.Some? ==> p <= r.value && Fits(free, lo, hi, r.value, n)
    ensures r.Some? ==> forall q: nat :: p <= q && Fits(free, lo, hi, q, n) ==> r.value <= q
    decreases if p <= hi then hi - p + 1 else 0
  {
    if p + n > hi then None else if Fits(free, lo, hi, p, n) then Some(p) else LowestFrom(free, lo, hi, n, p + 1)
  }

  /** The run of n frames kpalloc_contiguous, or kpalloc for n = 1, would hand out. */
  ghost function Lowest(pmm: FrameAllocator, free: set<nat>, n: nat): Option<nat> {
    LowestFrom(free, pmm.FirstPage(), pmm.frameCount, n, pmm.FirstPage())
  }

  lemma LowestIs(pmm: FrameAllocator, free: set<nat>, n: nat, r: Option<nat>)
    requires r.None? ==> forall q: nat :: !Fits(free, pmm.FirstPage(), pmm.frameCount, q, n)
    requires r.Some? ==> Fits(free, pmm.FirstPage(), pmm.frameCount, r.value, n)
    requires r.Some? ==> forall q: nat :: Fits(free, pmm.FirstPage(), pmm.frameCount, q, n) ==> r.value <= q
    ensures Lowest(pmm, free, n) == r
  {
  }

  lemma LowestFree(pmm: FrameAllocator, free: set<nat>, n: nat)
    requires Lowest(pmm, free, n).Some? && 0 < n
    ensures Lowest(pmm, free, n).value in free
  {
  }

  lemma LowestNone(pmm: FrameAllocator, free: set<nat>, n: nat)
    ensures Lowest(pmm, free, n).None? <==> forall q: nat :: !Fits(free, pmm.FirstPage(), pmm.frameCount, q, n)
  {
  }

  // ---------------------------------------------------------------- whole runs of the allocator

  /** The free frames together with the runs handed out and not yet given back. */
  datatype Ledger = Ledger(free: set<nat>, live: set<(nat, nat)>)

  ghost function Held(live: set<(nat, nat)>): set<nat> {
    set r, q | r in live && q in Run(r.0, r.1) :: q
  }

  /** One allocation (any of the three searches) or the return of one live run. */
  ghost predicate LedgerStep(a: Ledger, b: Ledger, lo: nat, hi: nat) {
    exists p: nat, n: nat :: Taken(a, b, lo, hi, p, n) || Given(a, b, p, n)
  }

  ghost predicate Taken(a: Ledger, b: Ledger, lo: nat, hi: nat, p: nat, n: nat) {
    0 < n && Fits(a.free, lo, hi, p, n) && b == Ledger(a.free - Run(p, n), a.live + {(p, n)})
  }

  ghost predicate Given(a: Ledger, b: Ledger, p: nat, n: nat) {
    (p, n) in a.live && b == Ledger(a.free + Run(p, n), a.live - {(p, n)})
  }

  /** Whatever else is live, going from free to free' is the ledger step that hands out the run (p, n). */
  ghost predicate Takes(free: set<nat>, free': set<nat>, lo: nat, hi: nat, p: nat, n: nat) {
    forall live :: LedgerStep(Ledger(free, live), Ledger(free', live + {(p, n)}), lo, hi)
  }

  /** The same for the return of a live run. */
  ghost predicate Gives(free: set<nat>, free': set<nat>, lo: nat, hi: nat, p: nat, n: nat) {
    forall live :: (p, n) in live ==> LedgerStep(Ledger(free, live), Ledger(free', live - {(p, n)}), lo, hi)
  }

  lemma TakesIt(free: set<nat>, free': set<nat>, lo: nat, hi: nat, p: nat, n: nat)
    requires 0 < n && Fits(free, lo, hi, p, n) && free' == free - Run(p, n)
    ensures Takes(free, free', lo, hi, p, n)
  {
    hide Fits, Run;
    forall live ensures LedgerStep(Ledger(free, live), Ledger(free', live + {(p, n)}), lo, hi) {
      assert Taken(Ledger(free, live), Ledger(free', live + {(p, n)}), lo, hi, p, n);
    }
  }

  lemma GivesIt(free: set<nat>, free': set<nat>, lo: nat, hi: nat, p: nat, n: nat)
    requires free' == free + Run(p, n)
    ensures Gives(free, free', lo, hi, p, n)
  {
    hide Run;
    forall live | (p, n) in live ensures LedgerStep(Ledger(free, live), Ledger(free', live - {(p, n)}), lo, hi) {
      assert Given(Ledger(free, live), Ledger(free', live - {(p, n)}), p, n);
    }
  }

  /** Free and held frames split the pool; distinct live runs share no frame. */
  ghost predicate Balanced(l: Ledger, pool: set<nat>) {
    && l.free + Held(l.live) == pool
    && l.free !! Held(l.live)
    && forall r, s :: r in l.live && s in l.live && r != s ==> Run(r.0, r.1) !! Run(s.0, s.1)
  }

  lemma TakenBalanced(a: Ledger, b: Ledger, pool: set<nat>, lo: nat, hi: nat, p: nat, n: nat)
    requires Balanced(a, pool) && Taken(a, b, lo, hi, p, n)
    ensures Balanced(b, pool)
  {
    assert Run(p, n) <= a.free;
    assert Held(b.live) == Held(a.live) + Run(p, n);
    forall r | r in a.live ensures Run(r.0, r.1) !! Run(p, n) {
      assert forall q :: q in Run(r.0, r.1) ==> q in Held(a.live);
    }
  }

  lemma GivenBalanced(a: Ledger, b: Ledger, pool: set<nat>, p: nat, n: nat)
    requires Balanced(a, pool) && Given(a, b, p, n)
    ensures Balanced(b, pool)
  {
    assert forall q :: q in Run(p, n) ==> q in Held(a.live);
    assert Held(b.live) == Held(a.live) - Run(p, n) by {
      forall q | q in Held(a.live) && q !in Run(p, n) ensures q in Held(b.live) {
        var r :| r in a.live && q in Run(r.0, r.1);
        assert r in b.live;
      }
      forall r, q | r in b.live && q in Run(r.0, r.1) ensures q in Held(a.live) && q !in Run(p, n) {
        assert r in a.live && (p, n) in a.live && r != (p, n);
      }
    }
  }

  /** Over every run that gives back only live runs: free plus live stays the initial pool, and
      live runs stay pairwise disjoint. */
  lemma {:induction false} LedgerRun(ls: seq<Ledger>, pool: set<nat>, lo: nat, hi: nat, i: nat)
    requires i < |ls| && ls[0] == Ledger(pool, {})
    requires forall k :: 0 <= k < |ls| - 1 ==> LedgerStep(ls[k], ls[k + 1], lo, hi)
    ensures Balanced(ls[i], pool)
  {
    if i > 0 {
      LedgerRun(ls, pool, lo, hi, i - 1);
      assert LedgerStep(ls[i - 1], ls[i - 1 + 1], lo, hi);
      var p: nat, n: nat :| Taken(ls[i - 1], ls[i], lo, hi, p, n) || Given(ls[i - 1], ls[i], p, n);
      if Taken(ls[i - 1], ls[i], lo, hi, p, n) {
        TakenBalanced(ls[i - 1], ls[i], pool, lo, hi, p, n);
      } else {
        GivenBalanced(ls[i - 1], ls[i], pool, p, n);
      }
    }
  }

  /** Every frame a run ever holds is normal RAM, when the bitmap ends below the kernel's end. */
  lemma HeldIsNormalRam(ls: seq<Ledger>, pool: set<nat>, lo: nat, hi: nat, i: nat,
                        regions: seq<Region>, kernelEnd: nat, bitmapSize: nat, q: nat)
    requires i < |ls| && ls[0] == Ledger(pool, {})
    requires forall k :: 0 <= k < |ls| - 1 ==> LedgerStep(ls[k], ls[k + 1], lo, hi)
    requires forall p: nat :: p in pool ==> InRam(regions, p) && kernelEnd <= p * PAGE
    requires BITMAP_ADDR + bitmapSize <= kernelEnd
    requires q in Held(ls[i].live)
    ensures NormalRam(regions, kernelEnd, bitmapSize, q * PAGE)
  {
    LedgerRun(ls, pool, lo, hi, i);
    assert q in pool;
    var k :| 0 <= k < |regions| && Covers(regions[k], q);
    assert regions[k].base <= q * PAGE < regions[k].base + regions[k].length;
  }
}
