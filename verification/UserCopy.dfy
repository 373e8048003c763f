/** Copying a kernel buffer into a user address space that need not be the active one
    (src/syscall/syscall.c), page by page through the tables. */
module UserCopy {
  import opened Common
  import opened PageTables
  import opened Runs
  import opened Spaces
  import opened AddressSpaces

  // SYSCALL_MAX_BUF + SYSCALL_MAX_PATH
  const MAX_COPY: nat := 2304

  /** Bytes by physical address, page tables aside. */
  type Bytes = map<nat, bv8>

  function ByteAt(d: Bytes, a: nat): bv8 {
    if a in d then d[a] else 0
  }

  /** user_range_ok */
  predicate RangeOk(addr: nat, len: nat) {
    len <= MAX_COPY && USER_AREA_BASE <= addr && if len == 0 then addr < USER_AREA_END else addr + len <= USER_AREA_END
  }

  function PageNo(va: nat): nat { va / 4096 }
  function Offset(va: nat): (o: nat) ensures o < 4096 { va % 4096 }

  function Physical(m: Mem, root: nat, va: nat): nat {
    Leaf(m, root, PageNo(va)).frame * 4096 + Offset(va)
  }

  /** The three bits copy_to_user_at asks of a leaf word. */
  predicate CanStore(m: Mem, root: nat, vp: nat) {
    Present(Leaf(m, root, vp)) && User(Leaf(m, root, vp)) && Writable(Leaf(m, root, vp))
  }

  /** What user code would do: store byte after byte through its own translation. */
  function StoreBytes(d: Bytes, m: Mem, root: nat, va: nat, bytes: seq<bv8>): Bytes {
    if bytes == [] then d
    else
      var k := |bytes| - 1;
      StoreBytes(d, m, root, va, bytes[..k])[Physical(m, root, va + k) := bytes[k]]
  }

  /** k is how far the copy gets: all bytes, or up to the first page that may not be written. */
  ghost predicate Reaches(m: Mem, root: nat, va: nat, len: nat, k: nat) {
    && k <= len && (forall a :: va <= a < va + k ==> CanStore(m, root, PageNo(a)))
    && (k < len ==> !CanStore(m, root, PageNo(va + k)))
  }

  class UserMemory {
    var data: Bytes

    /** copy_to_user_at.  A failure on a later page leaves the bytes of the earlier ones written. */
    method CopyToUserAt(m: Mem, root: nat, uaddr: nat, kbuf: Option<seq<bv8>>, len: nat)
      returns (ok: bool, ghost k: nat)
      requires kbuf.Some? ==> |kbuf.value| == len
      modifies `data
      ensures len == 0 ==> ok
      ensures len > 0 && (kbuf.None? || !RangeOk(uaddr, len)) ==> !ok && data == old(data)
      ensures len > 0 && kbuf.Some? && RangeOk(uaddr, len) ==>
                Reaches(m, root, uaddr, len, k) && ok == (k == len)
                && data == StoreBytes(old(data), m, root, uaddr, kbuf.value[..k])
      ensures len == 0 ==> data == old(data)
      ensures ok <==>
                || len == 0
                || (&& kbuf.Some? && len <= 2304 && 0x400000 <= uaddr && uaddr + len <= 0x700000
                    && forall vp :: uaddr / 0x1000 <= vp <= (uaddr + len - 1) / 0x1000 ==> CanStore(m, root, vp))
      ensures ok && len > 0 ==> forall i :: 0 <= i < len ==>
                ByteAt(data, Leaf(m, root, (uaddr + i) / 0x1000).frame * 0x1000 + (uaddr + i) % 0x1000) == kbuf.value[i]
    {
      k := 0;
      if len == 0 {
        return true, 0;
      }
      if kbuf.None? {
        return false, 0;
      }
      if !RangeOk(uaddr, len) {
        return false, 0;
      }
      ok, k := CopyPages(m, root, uaddr, kbuf.value);
      AllPages(m, root, uaddr, len, k);
      if ok {
        AllBytes(old(data), m, root, uaddr, kbuf.value);
        assert kbuf.value[..k] == kbuf.value;
      }
    }

    method CopyPages(m: Mem, root: nat, uaddr: nat, src: seq<bv8>) returns (ok: bool, ghost k: nat)
      modifies `data
      ensures Reaches(m, root, uaddr, |src|, k) && ok == (k == |src|)
      ensures data == StoreBytes(old(data), m, root, uaddr, src[..k])
    {
      hide Leaf, TableAt, Link, Indices, PageNo, Offset, Present, User, Writable, StoreBytes;
      var remaining, addr, done := |src|, uaddr, 0;
      StoreNone(data, m, root, uaddr, src);
      while remaining > 0
        invariant 0 <= done <= |src| && done + remaining == |src| && addr == uaddr + done
        invariant forall a :: uaddr <= a < uaddr + done ==> CanStore(m, root, PageNo(a))
        invariant data == StoreBytes(old(data), m, root, uaddr, src[..done])
      {
        var pt := PteTable(m, root, PageNo(addr));
        k := done;
        if pt.None? {
          ZeroAbsent();
          return false, k;
        }
        var entry := At(m, pt.value)[PageNo(addr) % 512];
        if !Present(entry) || !User(entry) || !Writable(entry) {
          return false, k;
        }
        var offset := Offset(addr);
        var chunk := 0x1000 - offset;
        if chunk > remaining {
          chunk := remaining;
        }
        StoreChunk(m, root, uaddr, src, done, chunk, old(data));
        forall a | addr <= a < addr + chunk ensures CanStore(m, root, PageNo(a)) {
          SamePage(addr, a);
        }
        addr := addr + chunk;
        done := done + chunk;
        remaining := remaining - chunk;
      }
      return true, |src|;
    }

    /** The memcpy of one chunk, which stays inside one page. */
    method StoreChunk(m: Mem, root: nat, uaddr: nat, src: seq<bv8>, done: nat, chunk: nat, ghost d: Bytes)
      requires done + chunk <= |src| && Offset(uaddr + done) + chunk <= 0x1000
      requires data == StoreBytes(d, m, root, uaddr, src[..done])
      modifies `data
      ensures data == StoreBytes(d, m, root, uaddr, src[..done + chunk])
    {
      hide Leaf, TableAt, Link, Indices, PageNo, Offset;
      var phys := Leaf(m, root, PageNo(uaddr + done)).frame * 4096;
      var offset := Offset(uaddr + done);
      for i := 0 to chunk
        invariant data == StoreBytes(d, m, root, uaddr, src[..done + i])
      {
        SamePage(uaddr + done, uaddr + (done + i));
        assert src[..done + i + 1][..done + i] == src[..done + i];
        assert Physical(m, root, uaddr + (done + i)) == phys + offset + i;
        data := data[phys + offset + i := src[done + i]];
      }
    }
  }

  lemma StoreNone(d: Bytes, m: Mem, root: nat, va: nat, bytes: seq<bv8>)
    ensures StoreBytes(d, m, root, va, bytes[..0]) == d
  {
  }

  lemma ZeroAbsent()
    ensures !Present(ZERO)
  {
  }

  lemma SamePage(a: nat, b: nat)
    requires a <= b && Offset(a) + (b - a) < 4096
    ensures PageNo(b) == PageNo(a) && Offset(b) == Offset(a) + (b - a)
  {
    assert b == a / 4096 * 4096 + (a % 4096 + (b - a));
  }

  // ---------------------------------------------------------------- what the copy means

  lemma OffsetsDiffer(a: nat, b: nat)
    requires a < b < a + 4096
    ensures Offset(a) != Offset(b)
  {
    assert a == a / 4096 * 4096 + Offset(a) && b == b / 4096 * 4096 + Offset(b);
  }

  lemma PhysicalsDiffer(m: Mem, root: nat, a: nat, b: nat)
    requires a < b < a + 4096
    ensures Physical(m, root, a) != Physical(m, root, b)
  {
    hide Offset;
    OffsetsDiffer(a, b);
  }

  /** Every byte can be read back at its own address, even when two pages of the range map one frame: a
      copy is shorter than a page. */
  lemma {:induction false} ReadBack(d: Bytes, m: Mem, root: nat, va: nat, bytes: seq<bv8>, k: nat)
    requires k < |bytes| <= 4096
    ensures ByteAt(StoreBytes(d, m, root, va, bytes), Physical(m, root, va + k)) == bytes[k]
    decreases |bytes|
  {
    hide Physical;
    var last := |bytes| - 1;
    if k < last {
      ReadBack(d, m, root, va, bytes[..last], k);
      PhysicalsDiffer(m, root, va + k, va + last);
    }
  }

  lemma AllBytes(d: Bytes, m: Mem, root: nat, va: nat, bytes: seq<bv8>)
    requires |bytes| <= 4096
    ensures forall i :: 0 <= i < |bytes| ==>
              ByteAt(StoreBytes(d, m, root, va, bytes), Leaf(m, root, (va + i) / 0x1000).frame * 0x1000
                                                        + (va + i) % 0x1000) == bytes[i]
  {
    hide Leaf, StoreBytes;
    forall i | 0 <= i < |bytes|
      ensures ByteAt(StoreBytes(d, m, root, va, bytes), Leaf(m, root, (va + i) / 0x1000).frame * 0x1000
                                                        + (va + i) % 0x1000) == bytes[i]
    {
      ReadBack(d, m, root, va, bytes, i);
    }
  }

  /** The copy reaches the end exactly when every page it touches can be stored to. */
  lemma AllPages(m: Mem, root: nat, va: nat, len: nat, k: nat)
    requires 0 < len && Reaches(m, root, va, len, k)
    ensures k == len <==> forall vp :: va / 0x1000 <= vp <= (va + len - 1) / 0x1000 ==> CanStore(m, root, vp)
  {
    hide CanStore;
    if k == len {
      forall vp | va / 0x1000 <= vp <= (va + len - 1) / 0x1000 ensures CanStore(m, root, vp) {
        var a := if vp * 0x1000 < va then va else vp * 0x1000;
        assert PageNo(a) == vp;
      }
    } else {
      assert va / 0x1000 <= PageNo(va + k) <= (va + len - 1) / 0x1000;
    }
  }

  /** A page that sys_alloc_page has mapped can be stored to. */
  lemma AllocatedPage(w: World, w': World, r: nat, vp: nat, f: nat)
    requires Step(w, w', AllocPage(r, vp, f))
    ensures CanStore(w'.mem, r, vp) && Leaf(w'.mem, r, vp).frame == f && f in w.free
  {
    hide Leaf, Inv;
  }

  /** No other byte changes. */
  lemma {:induction false} Untouched(d: Bytes, m: Mem, root: nat, va: nat, bytes: seq<bv8>, a: nat)
    requires forall v :: va <= v < va + |bytes| ==> Physical(m, root, v) != a
    ensures ByteAt(StoreBytes(d, m, root, va, bytes), a) == ByteAt(d, a)
    decreases |bytes|
  {
    hide Physical;
    if bytes != [] {
      Untouched(d, m, root, va, bytes[..|bytes| - 1], a);
      assert Physical(m, root, va + (|bytes| - 1)) != a;
    }
  }

  /** The kernel writes exactly where the processor would let the user write. */
  lemma StoreRights(w: World, r: nat, vp: nat)
    requires Inv(w) && r in w.roots
    ensures CanStore(w.mem, r, vp) <==>
            Present(Leaf(w.mem, r, vp)) && EffectiveUser(w.mem, r, Indices(vp))
            && EffectiveWritable(w.mem, r, Indices(vp))
  {
    hide Ledgered, Leaf, EffectiveUser, EffectiveWritable, Present, User, Writable, Tree;
    assert GoodRoot(w, r);
    if Present(Leaf(w.mem, r, vp)) {
      RightsFromLeaf(w.mem, r, vp);
    }
  }

  /** A copy into private pages of r changes no byte of a private page of another space s, and no table. */
  lemma CopyIsolated(w: World, d: Bytes, r: nat, va: nat, bytes: seq<bv8>, s: nat, f: nat, a: nat)
    requires Inv(w) && r in w.roots && s in w.roots
    requires forall v :: va <= v < va + |bytes| ==>
               Window(PageNo(v)) && OwnedWord(w.codePages, Leaf(w.mem, r, PageNo(v)), PageNo(v))
    requires (s != r && f in w.owner && w.owner[f].0 == s)
             || (exists q: Path :: |q| <= 3 && TableAt(w.mem, s, q) == Some(f))
    requires f * 4096 <= a < f * 4096 + 4096
    ensures ByteAt(StoreBytes(d, w.mem, r, va, bytes), a) == ByteAt(d, a)
  {
    hide Inv, Leaf, PageNo, TableAt, OwnedWord;
    forall v | va <= v < va + |bytes| ensures Physical(w.mem, r, v) != a {
      assert Window(PageNo(v));
      OldLeaf(w, r, PageNo(v));
      WindowIndices(PageNo(v));
      NotThatFrame(w, r, PageNo(v), s, f);
    }
    Untouched(d, w.mem, r, va, bytes, a);
  }

  lemma NotThatFrame(w: World, r: nat, vp: nat, s: nat, f: nat)
    requires Inv(w) && r in w.roots && s in w.roots && Window(vp) && OwnedWord(w.codePages, Leaf(w.mem, r, vp), vp)
    requires (s != r && f in w.owner && w.owner[f].0 == s)
             || (exists q: Path :: |q| <= 3 && TableAt(w.mem, s, q) == Some(f))
    ensures Leaf(w.mem, r, vp).frame != f
  {
    hide OwnedWord, Leaf, TableAt, Tree, RightsKept;
    OldLeaf(w, r, vp);
    if q: Path :| |q| <= 3 && TableAt(w.mem, s, q) == Some(f) {
      if Spine(q) {
        assert OwnsAt(w.codePages, w.mem, s, q);
        OldOwner(w, s, q);
      } else {
        assert GoodRoot(w, s);
        assert f in w.shared;
      }
    }
  }
}
