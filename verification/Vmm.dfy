/** Address spaces over physical memory (src/mm/vmm.c, and the page system calls of
    src/syscall/syscall.c): the methods that read and write the tables in place. */
module AddressSpaces {
  import opened Common
  import opened Frames
  import opened PageTables
  import opened Mapping
  import opened Spaces
  import opened Fork
  import opened ForkCopy
  import opened ForkBuild
  import opened ForkUndo
  import opened Drop
  import opened Runs
  import opened Ranges

  const USER_AREA_BASE: nat := 0x400000
  const USER_AREA_END: nat := 0x700000

  /** user_page_ok */
  predicate UserPageOk(codePages: nat, virt: nat) {
    USER_AREA_BASE <= virt < USER_AREA_END && !SharedPage(codePages, virt)
  }

  /** kget_pte_addr_at: the page table holding the leaf word of vp, when all three upper words are present. */
  function PteTable(m: Mem, root: nat, vp: nat): (t: Option<nat>)
    ensures t == TableAt(m, root, Indices(vp)[..3])
    ensures t.Some? ==> Word(m, t.value, vp % 512) == Leaf(m, root, vp)
    ensures t.None? ==> Leaf(m, root, vp) == ZERO
  {
    var x := Indices(vp);
    assert x[..3] == [x[0], x[1]] + [x[2]] && [x[0], x[1]] == [x[0]] + [x[1]]
           && [x[0]] == [] + [x[0]] && x == x[..3] + [x[3]];
    WalkDown(m, root, [], x[0]);
    WalkDown(m, root, [x[0]], x[1]);
    WalkDown(m, root, [x[0], x[1]], x[2]);
    WalkDown(m, root, x[..3], x[3]);
    var pml4e := At(m, root)[vp / 0x8000000 % 512];
    if !Present(pml4e) then None
    else
      var pdpte := At(m, pml4e.frame)[vp / 0x40000 % 512];
      if !Present(pdpte) then None
      else
        var pde := At(m, pdpte.frame)[vp / 0x200 % 512];
        if !Present(pde) then None else Some(pde.frame)
  }

  ghost predicate UpperTaken(taken: map<nat, Path>, at: Path) {
    && (at == [] || at == [0] || at == [0, 0])
    && (forall f :: f in taken ==> (taken[f] == [] && at != []) || (taken[f] == [0] && at == [0, 0]))
    && (forall f, g :: f in taken && g in taken && f != g ==> taken[f] != taken[g])
    && (at != [] ==> Filled(taken, [])) && (at == [0, 0] ==> Filled(taken, [0]))
  }

  lemma UpperNone()
    ensures UpperTaken(map[], [])
  {
  }

  lemma UpperOne(n: nat)
    ensures UpperTaken(map[n := []], [0])
  {
    var taken: map<nat, Path> := map[n := []];
    assert taken[n] == [];
  }

  lemma UpperTwo(n: nat, d: nat)
    requires n != d
    ensures UpperTaken(map[n := [], d := [0]], [0, 0])
  {
    var taken: map<nat, Path> := map[n := [], d := [0]];
    assert taken[n] == [] && taken[d] == [0];
  }

  /** Creation stops at an upper table. */
  lemma UpperShortage(pmm: FrameAllocator, codePages: nat, m: Mem, a: nat, free: set<nat>, free': set<nat>,
                      taken: map<nat, Path>, at: Path)
    requires taken.Keys <= free && free' == free - taken.Keys && Took(pmm, free, free') && Spent(pmm, free')
    requires UpperTaken(taken, at)
    ensures Shortage(pmm, codePages, m, a, free, taken, at)
  {
    hide Took, Spent, Usable;
    AllTaken(pmm, free, free');
    assert free - free' == taken.Keys;
    UpperUpTo(codePages, m, a, taken, at);
  }

  lemma UpperUpTo(codePages: nat, m: Mem, a: nat, taken: map<nat, Path>, at: Path)
    requires UpperTaken(taken, at)
    ensures UpTo(codePages, m, a, taken, at)
  {
    forall q | Needed(codePages, m, a, q) && Rank(q) < Rank(at) ensures Filled(taken, q) {
      NeededShape(codePages, m, a, q);
    }
  }

  lemma TableShortage(pmm: FrameAllocator, codePages: nat, m: Mem, free: set<nat>, m1: Mem, free1: set<nat>, a: nat,
                      n: nat, d: nat, c: nat, j: nat, own: map<nat, Path>)
    requires (j == 2 || j == 3) && Built(codePages, m, free, m1, free1, a, n, d, c, j, own)
    requires Present(At(m, PdOf(m, a))[j]) && Took(pmm, free, free1) && Spent(pmm, free1)
    ensures Shortage(pmm, codePages, m, a, free, own, [0, 0, j])
  {
    hide Built, Spent, Took, Places, UpTo, Usable;
    BuiltPlaces(codePages, m, free, m1, free1, a, n, d, c, j, own);
    BuiltFacts(codePages, m, free, m1, free1, a, n, d, c, j, own);
    TableUpTo(codePages, m, a, own, j);
    AllTaken(pmm, free, free1);
    assert free - free1 == own.Keys;
  }

  lemma PageShortage(pmm: FrameAllocator, codePages: nat, m: Mem, free: set<nat>, m1: Mem, free1: set<nat>, mc: Mem,
                     free2: set<nat>,
                     a: nat, n: nat, d: nat, c: nat, j: nat, own: map<nat, Path>, t: nat, i: nat, got: map<nat, nat>)
    requires (j == 2 || j == 3) && Built(codePages, m, free, m1, free1, a, n, d, c, j, own)
    requires Present(At(m, PdOf(m, a))[j])
    requires i < 512 && RawWords(codePages, m, mc, PtOf(m, a, j), t, j, i, got)
    requires OwnedWord(codePages, At(m, PtOf(m, a, j))[i], j * 512 + i)
    requires t in free1 && free2 == free1 - {t} - got.Keys && got.Keys <= free1 && t !in got
    requires Took(pmm, free, free2) && Spent(pmm, free2)
    ensures Shortage(pmm, codePages, m, a, free, Claimed(own, j, t, got), [0, 0, j, i])
  {
    hide Built, Spent, Took, RawWords, Places, UpTo, Claimed, OwnedWord, Usable;
    BuiltPlaces(codePages, m, free, m1, free1, a, n, d, c, j, own);
    BuiltFacts(codePages, m, free, m1, free1, a, n, d, c, j, own);
    PageUpTo(codePages, m, a, own, j, t, got, i, mc);
    ClaimedKeys(own, j, t, got);
    AllTaken(pmm, free, free2);
    assert free - free2 == Claimed(own, j, t, got).Keys;
  }

  class Vmm {
    const pmm: FrameAllocator
    const codePages: nat
    var mem: Mem
    var active: nat
    ghost var roots: set<nat>
    ghost var shared: set<nat>
    ghost var owner: map<nat, (nat, Path)>

    ghost function W(): World
      reads this, pmm.bitmap
    {
      World(codePages, mem, pmm.Free(), roots, shared, owner)
    }

    /** The invariant, an active root among the live ones, and owned frames that kpfree accepts. */
    ghost predicate Valid()
      reads this, pmm.bitmap
    {
      pmm.Valid() && Inv(W()) && active in roots && forall f :: f in owner ==> 0 < f < pmm.frameCount
    }

    constructor (pmm_: FrameAllocator, w: World, active_: nat)
      requires pmm_.Valid() && w.free == pmm_.Free() && Inv(w) && active_ in w.roots
      requires forall f :: f in w.owner ==> 0 < f < pmm_.frameCount
      ensures Valid() && W() == w && pmm == pmm_ && active == active_
    {
      hide Inv;
      pmm, codePages, mem, active := pmm_, w.codePages, w.mem, active_;
      roots, shared, owner := w.roots, w.shared, w.owner;
    }

    /** One level of kvmmap_at: follow a present word or link a zeroed table. */
    method EnsureTable(t: nat, i: nat, tableFlags: bv12, ghost m: Mem, ghost free: set<nat>, ghost root: nat,
                       ghost x: Path, ghost k: nat)
        returns (r: Option<nat>)
      requires pmm.Valid() && k < 3 && |x| == 4 && x[k] == i < 512
      requires tableFlags == 0x03 || tableFlags == 0x07
      requires Grown(m, free, mem, pmm.Free(), root, x, k) && TableAt(mem, root, x[..k]) == Some(t)
      requires TookFor(pmm, free, pmm.Free(), Lacking(m, root, x, k))
      modifies `mem, pmm.bitmap
      ensures pmm.Valid()
      ensures r.None? ==> Short(pmm, free, Lacking(m, root, x, 3))
      ensures r.Some? ==> TookFor(pmm, free, pmm.Free(), Lacking(m, root, x, k + 1))
      ensures r.Some? ==> Grown(m, free, mem, pmm.Free(), root, x, k + 1) && TableAt(mem, root, x[..k + 1]) == r
      ensures r.Some? ==> forall j :: 0 <= j <= k ==> TableAt(mem, root, x[..j]) == TableAt(old(mem), root, x[..j])
      ensures r.Some? ==> forall j :: 1 <= j <= k ==> Link(mem, root, x[..j]) == Link(old(mem), root, x[..j])
      ensures r.Some? ==>
                var was := Link(m, root, x[..k + 1]);
                Link(mem, root, x[..k + 1]).low == if Present(was) then was.low else tableFlags
    {
      hide Grown, FreeSet, Fits, Lacking, TookFor, Short;
      var e := At(mem, t)[i];
      assert x[..k + 1] == x[..k] + [i] && Init(x[..k + 1]) == x[..k];
      assert e == Link(mem, root, x[..k + 1]);
      GrownNext(m, free, mem, pmm.Free(), root, x, k);
      LackingNext(m, root, x, k);
      if e.low & 1 == 0 {
        ghost var free1 := pmm.Free();
        r := pmm.Alloc();
        if r.None? {
          LackingMore(m, root, x, k);
          RanShort(pmm, free, free1, Lacking(m, root, x, k), Lacking(m, root, x, 3));
          return;
        }
        TookForNext(pmm, free, free1, Lacking(m, root, x, k), x[..k + 1], r.value);
        GrowNew(m, free, mem, old(pmm.Free()), root, x, k, t, Entry(r.value, tableFlags));
        mem := mem[r.value := Blank()];
        mem := Put(mem, t, i, Entry(r.value, tableFlags));
      } else {
        GrowKeep(m, free, mem, pmm.Free(), root, x, k);
        r := Some(e.frame);
      }
    }

    /** One `|= 0x04` of kvmmap_at on a table word of the walk. */
    method RaiseUser(t: nat, i: nat, ghost m: Mem, ghost free: set<nat>, ghost root: nat, ghost x: Path, ghost k: nat)
      requires k < 3 && |x| == 4 && x[k] == i < 512
      requires Grown(m, free, mem, pmm.Free(), root, x, 3) && TableAt(mem, root, x[..k]) == Some(t)
      modifies `mem
      ensures Grown(m, free, mem, pmm.Free(), root, x, 3)
      ensures User(Link(mem, root, x[..k + 1]))
      ensures Link(mem, root, x[..k + 1]) == Raise(Link(old(mem), root, x[..k + 1]))
      ensures forall j :: 1 <= j <= 3 && j != k + 1 ==> Link(mem, root, x[..j]) == Link(old(mem), root, x[..j])
      ensures forall q :: |q| <= 3 ==> TableAt(mem, root, q) == TableAt(old(mem), root, q)
    {
      hide Grown, OnlyAt, Link, TableAt, FreeSet;
      GrowRaise(m, free, mem, pmm.Free(), root, x, k, t);
      mem := Put(mem, t, i, Raise(At(mem, t)[i]));
    }

    /** The three levels of kvmmap_at above the leaf: the frames of the tables, None when one is missing. */
    method EnsureTables(root: nat, vp: nat, tableFlags: bv12) returns (r: Option<(nat, nat, nat)>)
      requires pmm.Valid() && Tidy(mem, pmm.Free(), root) && (tableFlags == 0x03 || tableFlags == 0x07)
      modifies `mem, pmm.bitmap
      ensures pmm.Valid()
      ensures r.None? ==> Short(pmm, old(pmm.Free()), Lacking(old(mem), root, Indices(vp), 3))
      ensures r.Some? ==>
                var x := Indices(vp);
                && TookFor(pmm, old(pmm.Free()), pmm.Free(), Lacking(old(mem), root, x, 3))
                && Grown(old(mem), old(pmm.Free()), mem, pmm.Free(), root, x, 3)
                && TableAt(mem, root, x[..1]) == Some(r.value.0) && TableAt(mem, root, x[..2]) == Some(r.value.1)
                && TableAt(mem, root, x[..3]) == Some(r.value.2)
      ensures r.Some? ==> forall j :: 1 <= j <= 3 ==>
                var was := Link(old(mem), root, Indices(vp)[..j]);
                Link(mem, root, Indices(vp)[..j]).low == if Present(was) then was.low else tableFlags
    {
      hide Tidy, Grown, OnlyAt, Link, TableAt, FreeSet, Fits, TookFor, Short, Lacking, Present;
      ghost var m, free, x := mem, pmm.Free(), Indices(vp);
      GrownStart(m, free, root, x);
      TookForNone(pmm, free, m, root, x);
      RootTable(mem, root);
      assert x[..0] == [];
      var i4, i3, i2 := vp / 0x8000000 % 512, vp / 0x40000 % 512, vp / 0x200 % 512;
      var pdpt := EnsureTable(root, i4, tableFlags, m, free, root, x, 0);
      if pdpt.None? {
        return None;
      }
      var pd := EnsureTable(pdpt.value, i3, tableFlags, m, free, root, x, 1);
      if pd.None? {
        return None;
      }
      assert TableAt(mem, root, x[..1]) == pdpt;
      var pt := EnsureTable(pd.value, i2, tableFlags, m, free, root, x, 2);
      if pt.None? {
        return None;
      }
      return Some((pdpt.value, pd.value, pt.value));
    }

    /** The three `|= 0x04` of kvmmap_at. */
    method RaiseWalk(root: nat, vp: nat, pdpt: nat, pd: nat, ghost m: Mem, ghost free: set<nat>, ghost x: Path)
      requires x == Indices(vp) && Grown(m, free, mem, pmm.Free(), root, x, 3)
      requires TableAt(mem, root, x[..1]) == Some(pdpt) && TableAt(mem, root, x[..2]) == Some(pd)
      modifies `mem
      ensures Grown(m, free, mem, pmm.Free(), root, x, 3)
      ensures TableAt(mem, root, x[..3]) == TableAt(old(mem), root, x[..3])
      ensures EffectiveUser(mem, root, x[..3])
      ensures forall j :: 1 <= j <= 3 ==> Link(mem, root, x[..j]) == Raise(Link(old(mem), root, x[..j]))
    {
      hide Grown, EffectiveUser, Link, TableAt, FreeSet, User, Raise;
      RootTable(mem, root);
      assert x[..0] == [];
      RaiseUser(root, vp / 0x8000000 % 512, m, free, root, x, 0);
      RaiseUser(pdpt, vp / 0x40000 % 512, m, free, root, x, 1);
      RaiseUser(pd, vp / 0x200 % 512, m, free, root, x, 2);
      forall j | 1 <= j <= 3 ensures Link(mem, root, x[..j]) == Raise(Link(old(mem), root, x[..j])) {
        if j == 1 {
        } else if j == 2 {
        }
      }
      UserWalk(mem, root, x);
    }

    /** kvmmap_at.  `done` is false when a table could not be allocated and the kernel halts. */
    method MapAt(root: nat, vp: nat, phys: nat, flags: bv12) returns (done: bool)
      requires pmm.Valid() && Tidy(mem, pmm.Free(), root)
      modifies `mem, pmm.bitmap
      ensures pmm.Valid()
      ensures done <==> |Lacking(old(mem), root, Indices(vp), 3)| <= |Usable(pmm, old(pmm.Free()))|
      ensures done ==> TookFor(pmm, old(pmm.Free()), pmm.Free(), Lacking(old(mem), root, Indices(vp), 3))
      ensures done ==> Mapped(old(mem), old(pmm.Free()), mem, pmm.Free(), root, vp, Entry(phys, flags))
      ensures done ==> forall j :: 1 <= j <= 3 ==>
                var was := Link(old(mem), root, Indices(vp)[..j]).low;
                Link(mem, root, Indices(vp)[..j]).low == (if was & 0x01 != 0 then was else 0x03) | (flags & 0x04)
    {
      hide Tidy, Grown, Mapped, EffectiveUser, Link, TableAt, FreeSet, Fits, TookFor, Usable, Lacking;
      ghost var m, free := mem, pmm.Free();
      var tableFlags: bv12 := 0x03;
      if flags & 0x04 != 0 {
        tableFlags := tableFlags | 0x04;
      }
      var tables := EnsureTables(root, vp, tableFlags);
      if tables.None? {
        return false;
      }
      var (pdpt, pd, pt) := tables.value;
      TookForEnough(pmm, free, pmm.Free(), Lacking(m, root, Indices(vp), 3));
      if flags & 0x04 != 0 {
        RaiseWalk(root, vp, pdpt, pd, m, free, Indices(vp));
      }
      GrowLeaf(m, free, mem, pmm.Free(), root, vp, pt, Entry(phys, flags));
      mem := Put(mem, pt, vp % 512, Entry(phys, flags));
      return true;
    }

    /** kvmunmap_at: clears exactly one present leaf. */
    method UnmapAt(root: nat, vp: nat) returns (b: bool)
      requires Tidy(mem, pmm.Free(), root)
      modifies `mem
      ensures b <==> Present(Leaf(old(mem), root, vp))
      ensures b ==> Mapped(old(mem), pmm.Free(), mem, pmm.Free(), root, vp, ZERO)
      ensures b ==> forall q :: 0 < |q| <= 4 && q != Indices(vp) ==> Link(mem, root, q) == Link(old(mem), root, q)
      ensures !b ==> mem == old(mem)
    {
      var pt := PteTable(mem, root, vp);
      if pt.None? || !Present(At(mem, pt.value)[vp % 512]) {
        return false;
      }
      UnmapLeaf(mem, pmm.Free(), root, vp, pt.value);
      mem := Put(mem, pt.value, vp % 512, ZERO);
      return true;
    }

    /** kvmunmap_and_free_at: clears the leaf and frees its frame, whatever its flags.  The result is
        None when kpfree halts. */
    method UnmapAndFreeAt(root: nat, vp: nat) returns (b: Option<bool>)
      requires pmm.Valid() && Tidy(mem, pmm.Free(), root)
      modifies `mem, pmm.bitmap
      ensures pmm.Valid()
      ensures var f := Leaf(old(mem), root, vp).frame;
              b.None? <==> f != 0 && (f >= pmm.frameCount || f in old(pmm.Free()))
      ensures b == Some(false) <==> TableAt(old(mem), root, Indices(vp)[..3]).None?
      ensures b == Some(false) ==> mem == old(mem) && pmm.Free() == old(pmm.Free())
      ensures b == Some(true) ==> Mapped(old(mem), old(pmm.Free()), mem, old(pmm.Free()), root, vp, ZERO)
      ensures b == Some(true) ==>
                forall q :: 0 < |q| <= 4 && q != Indices(vp) ==> Link(mem, root, q) == Link(old(mem), root, q)
      ensures b == Some(true) ==> pmm.Free() == old(pmm.Free()) + ({Leaf(old(mem), root, vp).frame} - {0})
    {
      hide Tidy, Mapped, Link, TableAt;
      var pt := PteTable(mem, root, vp);
      if pt.None? {
        return Some(false);
      }
      var ok := pmm.Release(At(mem, pt.value)[vp % 512].frame);
      if !ok {
        return None;
      }
      UnmapLeaf(mem, old(pmm.Free()), root, vp, pt.value);
      mem := Put(mem, pt.value, vp % 512, ZERO);
      return Some(true);
    }

    /** user_find_free_page: the lowest page of 0x410000..0x700000 that is not present and user. */
    method FindFreePage(root: nat) returns (r: Option<nat>)
      ensures r.Some? ==> 0x410 <= r.value < 0x700
                          && !(Present(Leaf(mem, root, r.value)) && User(Leaf(mem, root, r.value)))
      ensures forall vp :: 0x410 <= vp < (if r.Some? then r.value else 0x700)
                           ==> Present(Leaf(mem, root, vp)) && User(Leaf(mem, root, vp))
    {
      for vp := 0x410 to 0x700
        invariant forall vq :: 0x410 <= vq < vp ==> Present(Leaf(mem, root, vq)) && User(Leaf(mem, root, vq))
      {
        var pt := PteTable(mem, root, vp);
        if pt.None? || !Present(At(mem, pt.value)[vp % 512]) || !User(At(mem, pt.value)[vp % 512]) {
          return Some(vp);
        }
      }
      return None;
    }

    // -------------------------------------------------------------- creation

    /** The copy loop over one page table of the window; `failed` is the index whose page found no frame. */
    method CopyTable(from: nat, to: nat, j: nat) returns (failed: Option<nat>, ghost got: map<nat, nat>)
      requires pmm.Valid() && Copyable(codePages, mem, pmm.Free(), from, to, j) && At(mem, to) == Blank()
      modifies `mem, pmm.bitmap
      ensures pmm.Valid()
      ensures Took(pmm, old(pmm.Free()), pmm.Free())
      ensures failed.Some? ==> failed.value < 512 && Spent(pmm, pmm.Free())
                               && OwnedWord(codePages, At(old(mem), from)[failed.value], j * 512 + failed.value)
      ensures Copied(codePages, old(mem), old(pmm.Free()), mem, pmm.Free(), from, to, j,
                     if failed.Some? then failed.value else 512, got)
    {
      hide Copied, Copyable, Fits, Took;
      ghost var m, free := mem, pmm.Free();
      got := map[];
      TookNone(pmm, free);
      CopiedStart(codePages, m, free, from, to, j);
      for i := 0 to 512
        invariant pmm.Valid() && Took(pmm, free, pmm.Free())
        invariant Copied(codePages, m, free, mem, pmm.Free(), from, to, j, i, got)
      {
        SourceKept(codePages, m, free, mem, pmm.Free(), from, to, j, i, got);
        var e := At(mem, from)[i];
        if !Present(e) {
          CopyAbsent(codePages, m, free, mem, pmm.Free(), from, to, j, i, got);
          continue;
        }
        if SharedPage(codePages, (j * 512 + i) * 4096) {
          CopyPlain(codePages, m, free, mem, pmm.Free(), from, to, j, i, got);
          mem := Put(mem, to, i, e);
        } else if User(e) {
          ghost var free1 := pmm.Free();
          var np := pmm.Alloc();
          if np.None? {
            return Some(i), got;
          }
          TookNext(pmm, free, free1, np.value);
          CopyOwned(codePages, m, free, mem, free1, from, to, j, i, got, np.value);
          mem := mem[np.value := At(mem, e.frame)];
          mem := Put(mem, to, i, Entry(np.value, e.low));
          got := got[np.value := i];
        } else {
          CopyPlain(codePages, m, free, mem, pmm.Free(), from, to, j, i, got);
          mem := Put(mem, to, i, e);
        }
      }
      return None, got;
    }

    /** A rollback loop: kpfree the frame of each present (user) word below n of table t.  It halts exactly
        on a frame that is out of range, free, or named a second time. */
    method FreePages(t: nat, n: nat, userOnly: bool) returns (ok: bool)
      requires pmm.Valid() && n <= 512
      modifies pmm.bitmap
      ensures pmm.Valid()
      ensures ok <==>
                WordsDistinct(mem, t, n, userOnly)
                && Clear(WordFrames(mem, t, n, userOnly), pmm.frameCount, old(pmm.Free()))
      ensures ok ==> pmm.Free() == old(pmm.Free()) + WordFrames(mem, t, n, userOnly)
    {
      hide FreeSet, WordFrames;
      ghost var free := pmm.Free();
      WordFramesStep(mem, t, 0, userOnly);
      for i := 0 to n
        invariant pmm.Valid() && pmm.Free() == free + WordFrames(mem, t, i, userOnly)
        invariant WordsDistinct(mem, t, i, userOnly) && Clear(WordFrames(mem, t, i, userOnly), pmm.frameCount, free)
      {
        var e := At(mem, t)[i];
        WordFramesStep(mem, t, i, userOnly);
        WordNext(mem, t, i, userOnly);
        if Present(e) && (!userOnly || User(e)) {
          ok := pmm.Release(e.frame);
          if !ok {
            WordStops(mem, t, i, n, userOnly, pmm.frameCount, free);
            return;
          }
        }
      }
      return true;
    }

    /** The PML4 of the copy: the parent's words, except word 0. */
    method CopyRoot(n: nat)
      requires n != active
      modifies `mem
      ensures At(mem, n) == At(old(mem), active)[0 := ZERO] && forall f :: f != n ==> At(mem, f) == At(old(mem), f)
    {
      mem := mem[n := Blank()];
      for i := 1 to 512
        invariant At(mem, n)[0] == ZERO && forall k :: 1 <= k < i ==> At(mem, n)[k] == At(old(mem), active)[k]
        invariant forall f :: f != n ==> At(mem, f) == At(old(mem), f)
      {
        mem := Put(mem, n, i, At(mem, active)[i]);
      }
      assert At(mem, n) == At(old(mem), active)[0 := ZERO];
    }

    /** The first part of kvmm_create_user_pml4: new PML4 without word 0, copies of the PDPT and PD on
        the way to the window.  A failed allocation gives back the earlier ones. */
    method CopyUpper() returns (r: Option<(nat, nat, nat)>, ghost taken: map<nat, Path>, ghost at: Path)
      requires pmm.Valid()
      requires active !in pmm.Free() && PdptOf(mem, active) !in pmm.Free() && PdOf(mem, active) !in pmm.Free()
      modifies `mem, pmm.bitmap
      ensures pmm.Valid() && forall f :: f !in old(pmm.Free()) ==> At(mem, f) == At(old(mem), f)
      ensures r.None? ==> pmm.Free() == old(pmm.Free()) && StageOf(at) == Upper
                          && Shortage(pmm, codePages, old(mem), active, old(pmm.Free()), taken, at)
      ensures r.Some? ==> var (n, d, c) := r.value;
                          && pmm.Free() == old(pmm.Free()) - {n, d, c} && Took(pmm, old(pmm.Free()), pmm.Free())
                          && {n, d, c} <= old(pmm.Free()) && n != d && n != c && d != c
                          && Built(codePages, old(mem), old(pmm.Free()), mem, pmm.Free(), active, n, d, c, 2,
                                   UpperOwn(n, d, c))
    {
      hide Built, Fits, FreeSet, Shortage, Took, Spent, UpperTaken, Gives;
      ghost var m, free := mem, pmm.Free();
      taken, at := map[], [];
      TookNone(pmm, free);
      UpperNone();
      var n := AllocUpper(free, taken, at, m);
      if n == 0 {
        return None, taken, at;
      }
      taken, at := map[n := []], [0];
      UpperOne(n);
      CopyRoot(n);
      var d := AllocUpper(free, taken, at, m);
      if d == 0 {
        var ok := pmm.Release(n);
        return None, taken, at;
      }
      taken, at := map[n := [], d := [0]], [0, 0];
      UpperTwo(n, d);
      var c := CopyPdptAndPd(n, d, m, free, taken);
      if c == 0 {
        return None, taken, at;
      }
      return Some((n, d, c)), taken, at;
    }

    /** The copies of the PDPT and the PD, once the PML4 and a frame for the PDPT are there. */
    method CopyPdptAndPd(n: nat, d: nat, ghost m: Mem, ghost free: set<nat>, ghost taken: map<nat, Path>)
      returns (c: nat)
      requires pmm.Valid() && n in free && d in free && n != d && 0 !in {n, d} && n < pmm.frameCount
      requires d < pmm.frameCount
      requires active !in free && PdptOf(m, active) !in free && PdOf(m, active) !in free
      requires At(mem, n) == At(m, active)[0 := ZERO] && forall f :: f != n ==> At(mem, f) == At(m, f)
      requires taken.Keys == {n, d} && UpperTaken(taken, [0, 0]) && pmm.Free() == free - {n, d}
      requires Took(pmm, free, pmm.Free())
      modifies `mem, pmm.bitmap
      ensures pmm.Valid() && forall f :: f !in free ==> At(mem, f) == At(m, f)
      ensures c == 0 ==> pmm.Free() == free && Shortage(pmm, codePages, m, active, free, taken, [0, 0])
      ensures c != 0 ==> c in free && c != n && c != d && pmm.Free() == free - {n, d, c} && Took(pmm, free, pmm.Free())
      ensures c != 0 ==> Built(codePages, m, free, mem, pmm.Free(), active, n, d, c, 2,
                               UpperOwn(n, d, c))
    {
      hide Built, Fits, FreeSet, Shortage, Took, Spent, UpperTaken, Gives;
      ghost var m1 := mem;
      var oldPdpt := At(mem, active)[0].frame;
      mem := mem[d := At(mem, oldPdpt)];
      c := AllocUpper(free, taken, [0, 0], m);
      if c == 0 {
        var ok := pmm.Release(n);
        ok := pmm.Release(d);
        assert free - {n, d} + {n} + {d} == free;
        return;
      }
      UpperIsBuilt(codePages, m, free, m1, active, n, d, c);
      var oldPd := At(mem, oldPdpt)[0].frame;
      mem := mem[c := At(mem, oldPd)];
      assert pmm.Free() == free - {n, d, c};
    }

    /** kpalloc of an upper table; 0 when there is no frame. */
    method AllocUpper(ghost free: set<nat>, ghost taken: map<nat, Path>, ghost at: Path, ghost m: Mem) returns (p: nat)
      requires pmm.Valid() && taken.Keys <= free && pmm.Free() == free - taken.Keys && Took(pmm, free, pmm.Free())
      requires UpperTaken(taken, at)
      modifies pmm.bitmap
      ensures pmm.Valid()
      ensures p == 0 ==> pmm.Free() == old(pmm.Free()) && Shortage(pmm, codePages, m, active, free, taken, at)
      ensures p != 0 ==> p in old(pmm.Free()) && pmm.Free() == old(pmm.Free()) - {p} && Took(pmm, free, pmm.Free())
    {
      hide Fits, FreeSet, Took, UpperTaken, Shortage;
      var r := pmm.Alloc();
      if r.None? {
        UpperShortage(pmm, codePages, m, active, free, pmm.Free(), taken, at);
        return 0;
      }
      TookNext(pmm, free, old(pmm.Free()), r.value);
      return r.value;
    }

    /** One page table of the window: absent stays absent; otherwise allocate, zero, copy and link it.
        t is the new table's frame, 0 when there is none. */
    method BuildPt(oldPd: nat, c: nat, j: nat, ghost m: Mem, ghost free: set<nat>, ghost n: nat, ghost d: nat,
                   ghost own: map<nat, Path>)
        returns (r: PtResult, t: nat, ghost own': map<nat, Path>, ghost got: map<nat, nat>)
      requires pmm.Valid() && (j == 2 || j == 3) && oldPd == PdOf(m, active) && oldPd !in free && 0 !in free
      requires Built(codePages, m, free, mem, pmm.Free(), active, n, d, c, j, own) && Took(pmm, free, pmm.Free())
      requires Present(At(m, oldPd)[j]) ==> CanCopy(codePages, m, free, PtOf(m, active, j), j)
      modifies `mem, pmm.bitmap
      ensures pmm.Valid() && forall f :: f !in free ==> At(mem, f) == At(m, f)
      ensures forall f :: f !in old(pmm.Free()) && f != c ==> At(mem, f) == At(old(mem), f)
      ensures r.PtDone? ==>
                Built(codePages, m, free, mem, pmm.Free(), active, n, d, c, j + 1, own') && Took(pmm, free, pmm.Free())
      ensures r.PtDone? ==>
                if Present(At(m, oldPd)[j])
                then Grown3(own, own', t, got, j) && RawWords(codePages, m, mem, PtOf(m, active, j), t, j, 512, got)
                else t == 0 && own' == own && got == map[]
      ensures !r.PtDone? ==> Present(At(m, oldPd)[j])
                             && Shortage(pmm, codePages, m, active, free, own',
                                         if r.NoPt? then [0, 0, j] else [0, 0, j, r.i])
      ensures r.NoPt? ==> mem == old(mem) && pmm.Free() == old(pmm.Free())
      ensures r.PtPageFailed?
              ==> && r.i < 512 && t in old(pmm.Free()) && got.Keys <= old(pmm.Free()) && t !in got
                  && pmm.Free() == old(pmm.Free()) - {t} - got.Keys
                  && RawWords(codePages, m, mem, PtOf(m, active, j), t, j, r.i, got)
    {
      hide Built, Fits, FreeSet, RawWords, Claimed, Spent, Shortage, Took, CanCopy, Present;
      own', got, t := own, map[], 0;
      BuiltFacts(codePages, m, free, mem, pmm.Free(), active, n, d, c, j, own);
      if Present(At(mem, oldPd)[j]) {
        r, t, own', got := CopyPt(At(mem, oldPd)[j].frame, c, j, m, free, n, d, own);
        return;
      }
      BuildAbsent(codePages, m, free, mem, pmm.Free(), active, n, d, c, j, own);
      mem := Put(mem, c, j, ZERO);
      BuiltFacts(codePages, m, free, mem, pmm.Free(), active, n, d, c, j + 1, own');
      return PtDone, t, own', got;
    }

    /** The copy of a page table that is there. */
    method CopyPt(from: nat, c: nat, j: nat, ghost m: Mem, ghost free: set<nat>, ghost n: nat, ghost d: nat,
                  ghost own: map<nat, Path>)
        returns (r: PtResult, t: nat, ghost own': map<nat, Path>, ghost got: map<nat, nat>)
      requires pmm.Valid() && (j == 2 || j == 3) && PdOf(m, active) !in free && 0 !in free
      requires Built(codePages, m, free, mem, pmm.Free(), active, n, d, c, j, own) && Took(pmm, free, pmm.Free())
      requires Present(At(m, PdOf(m, active))[j]) && from == PtOf(m, active, j) && CanCopy(codePages, m, free, from, j)
      modifies `mem, pmm.bitmap
      ensures pmm.Valid() && forall f :: f !in free ==> At(mem, f) == At(m, f)
      ensures forall f :: f !in old(pmm.Free()) && f != c ==> At(mem, f) == At(old(mem), f)
      ensures r.PtDone? ==>
                Built(codePages, m, free, mem, pmm.Free(), active, n, d, c, j + 1, own') && Took(pmm, free, pmm.Free())
      ensures r.PtDone? ==> Grown3(own, own', t, got, j) && RawWords(codePages, m, mem, from, t, j, 512, got)
      ensures !r.PtDone? ==> Shortage(pmm, codePages, m, active, free, own',
                                      if r.NoPt? then [0, 0, j] else [0, 0, j, r.i])
      ensures r.NoPt? ==> mem == old(mem) && pmm.Free() == old(pmm.Free())
      ensures r.PtPageFailed?
              ==> && r.i < 512 && t in old(pmm.Free()) && got.Keys <= old(pmm.Free()) && t !in got
                  && pmm.Free() == old(pmm.Free()) - {t} - got.Keys && RawWords(codePages, m, mem, from, t, j, r.i, got)
    {
      hide Built, Fits, FreeSet, Copied, Copyable, RawWords, Claimed, Spent, Shortage, Took, CanCopy, OwnedWord,
           Present;
      own', got, t := own, map[], 0;
      BuiltFacts(codePages, m, free, mem, pmm.Free(), active, n, d, c, j, own);
      ghost var m1, free1 := mem, pmm.Free();
      ParentKept(codePages, m, free, m1, from, j);
      t := AllocTable(free);
      if t == 0 {
        TableShortage(pmm, codePages, m, free, mem, pmm.Free(), active, n, d, c, j, own);
        return NoPt, 0, own, map[];
      }
      CopyReady(codePages, m, free, m1, free1, active, n, d, c, j, own, t);
      var failed;
      failed, got := CopyTable(from, t, j);
      TookMore(pmm, free, free1 - {t}, pmm.Free());
      CopiedParts(codePages, m, m1, free1, mem, pmm.Free(), from, t, j,
                  if failed.Some? then failed.value else 512, got);
      own' := Claimed(own, j, t, got);
      if failed.Some? {
        PageShortage(pmm, codePages, m, free, m1, free1, mem, pmm.Free(), active, n, d, c, j, own, t, failed.value,
                     got);
        return PtPageFailed(failed.value), t, own', got;
      }
      PtLinked(codePages, m, free, m1, free1, active, n, d, c, j, own, t, mem, pmm.Free(), got);
      mem := Put(mem, c, j, Private(t, At(mem, c)[j]));
      return PtDone, t, own', got;
    }

    /** kpalloc of a page table, zeroed; 0 when there is no frame. */
    method AllocTable(ghost free: set<nat>) returns (t: nat)
      requires pmm.Valid() && Took(pmm, free, pmm.Free())
      modifies `mem, pmm.bitmap
      ensures pmm.Valid()
      ensures t == 0 ==> mem == old(mem) && pmm.Free() == old(pmm.Free()) && Spent(pmm, pmm.Free())
      ensures t != 0 ==> t in old(pmm.Free()) && pmm.Free() == old(pmm.Free()) - {t} && mem == old(mem)[t := Blank()]
                         && Took(pmm, free, pmm.Free())
    {
      hide Fits, FreeSet, Took;
      var p := pmm.Alloc();
      if p.None? {
        return 0;
      }
      TookNext(pmm, free, old(pmm.Free()), p.value);
      mem := mem[p.value := Blank()];
      return p.value;
    }

    /** kpfree of the three upper tables and a page table (0: none), as every late failure path ends. */
    method FreeTables(n: nat, d: nat, c: nat, t: nat) returns (ok: bool)
      requires pmm.Valid() && 0 < n && 0 < d && 0 < c
      modifies pmm.bitmap
      ensures pmm.Valid() && (ok <==> TablesOk(n, d, c, t, pmm.frameCount, old(pmm.Free())))
      ensures ok ==> pmm.Free() == old(pmm.Free()) + ({n, d, c} + ({t} - {0}))
    {
      hide FreeSet, TablesOk;
      TablesParts(n, d, c, t, pmm.frameCount, pmm.Free());
      ok := pmm.Release(n);
      if ok {
        ok := pmm.Release(d);
      }
      if ok {
        ok := pmm.Release(c);
      }
      if ok {
        ok := pmm.Release(t);
      }
    }

    /** kvmm_create_user_pml4 up to the first page table of the window, with its failure paths. */
    method CreateLow(ghost w: World)
        returns (r: LowResult, ghost own: map<nat, Path>, ghost got: map<nat, nat>, ghost at: Path)
      requires pmm.Valid() && w.codePages == codePages && w.mem == mem && w.free == pmm.Free() && Ready(w, active)
      modifies `mem, pmm.bitmap
      ensures pmm.Valid() && forall f :: f !in w.free ==> At(mem, f) == At(w.mem, f)
      ensures r.LowFailed? ==> Shortage(pmm, codePages, w.mem, active, w.free, own, at) && StageInRange(StageOf(at))
      ensures r.LowFailed? ==> (r.halted <==> !StraysOk(codePages, w.mem, active, StageOf(at), pmm.frameCount, w.free))
      ensures r.LowFailed? && !r.halted ==> pmm.Free() == w.free + Lost(codePages, w.mem, active, StageOf(at))
      ensures r.LowDone? ==> Built(codePages, w.mem, w.free, mem, pmm.Free(), active, r.n, r.d, r.c, 3, own)
                             && Took(pmm, w.free, pmm.Free()) && LowTable(codePages, w.mem, mem, active, r.t, got)
                             && LowOwn(own, r.n, r.d, r.c, r.t, got)
    {
      hide Built, Fits, FreeSet, Claimed, RawWords, CanCopy, Shortage, Took, LowTable, StraysOk, Lost, LowOwn;
      ghost var m, free := mem, pmm.Free();
      got := map[];
      var upper;
      upper, own, at := CopyUpper();
      if upper.None? {
        UpperStrays(codePages, m, active, pmm.frameCount, free);
        return LowFailed(false), own, got, at;
      }
      var (n, d, c) := upper.value;
      own := UpperOwn(n, d, c);
      BuiltFacts(codePages, m, free, mem, pmm.Free(), active, n, d, c, 2, own);
      var oldPd := At(mem, At(mem, active)[0].frame)[0].frame;
      var low, t;
      ghost var upperOwn := own;
      low, t, own, got := BuildPt(oldPd, c, 2, m, free, n, d, own);
      if low.NoPt? {
        at := [0, 0, 2];
        UpperStrays(codePages, m, active, pmm.frameCount, free);
        UndoUpper(n, d, c, free);
        return LowFailed(false), own, got, at;
      }
      if low.PtPageFailed? {
        at := [0, 0, 2, low.i];
        var ok := UndoLowPage(n, d, c, t, low.i, m, free, got);
        return LowFailed(!ok), own, got, at;
      }
      LowIs(codePages, m, free, mem, active, n, d, c, t, upperOwn, own, got);
      return LowDone(n, d, c, t), own, got, at;
    }

    /** The failure path of the first page table itself, which never halts. */
    method UndoUpper(n: nat, d: nat, c: nat, ghost free: set<nat>)
      requires pmm.Valid() && (forall f :: f in free ==> 0 < f < pmm.frameCount)
      requires {n, d, c} <= free && n != d && n != c && d != c && pmm.Free() == free - {n, d, c}
      modifies pmm.bitmap
      ensures pmm.Valid() && pmm.Free() == free
    {
      hide FreeSet;
      var ok := FreeTables(n, d, c, 0);
      assert {n, d, c} + ({0} - {0}) == {n, d, c};
      assert ok;
      assert free - {n, d, c} + {n, d, c} == free;
    }

    /** The failure path of a page of the first page table. */
    method UndoLowPage(n: nat, d: nat, c: nat, t: nat, i: nat, ghost m: Mem, ghost free: set<nat>,
                       ghost got: map<nat, nat>) returns (ok: bool)
      requires pmm.Valid() && i < 512 && 0 !in free && (forall f :: f in free ==> f < pmm.frameCount)
      requires RawWords(codePages, m, mem, PtOf(m, active, 2), t, 2, i, got)
      requires {n, d, c, t} <= free && got.Keys <= free && got.Keys !! {n, d, c, t} && n != d && n != c && d != c
      requires t !in {n, d, c}
      requires pmm.Free() == free - got.Keys - {n, d, c, t}
      modifies pmm.bitmap
      ensures pmm.Valid() && (ok <==> StraysOk(codePages, m, active, LowPage(i), pmm.frameCount, free))
      ensures ok ==> pmm.Free() == free + Lost(codePages, m, active, LowPage(i))
    {
      hide WordFrames, FreeSet, Stray, RawWords, WordsDistinct, StraysDistinct;
      ghost var strays := Stray(codePages, m, PtOf(m, active, 2), 2, i, true);
      RawFrames(codePages, m, mem, PtOf(m, active, 2), t, 2, i, got, true);
      RawDistinct(codePages, m, mem, PtOf(m, active, 2), t, 2, i, got, true);
      assert {n, d, c} + ({t} - {0}) == {n, d, c, t};
      OneRollback(free, got.Keys, {n, d, c, t}, strays, pmm.frameCount);
      ok := FreePages(t, i, true);
      if ok {
        ok := FreeTables(n, d, c, t);
      }
    }

    /** The failure path of the second page table itself. */
    method UndoLow(n: nat, d: nat, c: nat, t2: nat, ghost m: Mem, ghost free: set<nat>, ghost own: map<nat, Path>,
                   ghost got: map<nat, nat>)
        returns (ok: bool)
      requires pmm.Valid() && 0 !in free && (forall f :: f in free ==> f < pmm.frameCount)
      requires LowTable(codePages, m, mem, active, t2, got) && LowOwn(own, n, d, c, t2, got) && own.Keys <= free
      requires pmm.Free() == free - own.Keys
      modifies pmm.bitmap
      ensures pmm.Valid() && (ok <==> StraysOk(codePages, m, active, HighTable, pmm.frameCount, free))
      ensures ok ==> pmm.Free() == free + Lost(codePages, m, active, HighTable)
    {
      hide WordFrames, FreeSet, LowStray, LowTable, WordsDistinct, LowDistinct;
      ghost var tables := {n, d, c} + ({t2} - {0});
      LowWords(codePages, m, mem, active, t2, got, false);
      LowRawDistinct(codePages, m, mem, active, t2, got, false);
      OneRollback(free, got.Keys, tables, LowStray(codePages, m, active, false), pmm.frameCount);
      assert free - own.Keys == free - got.Keys - tables;
      ok := FreePages(t2, 512, false);
      if ok {
        ok := FreeTables(n, d, c, t2);
      }
    }

    /** The last two writes: word 0 of the new PML4 and PDPT. */
    method LinkUpper(n: nat, d: nat, c: nat, ghost m: Mem, ghost free: set<nat>, ghost own: map<nat, Path>)
      requires Built(codePages, m, free, mem, pmm.Free(), active, n, d, c, 4, own)
      requires active !in free && PdptOf(m, active) !in free
      modifies `mem
      ensures RawFork(codePages, m, free, mem, pmm.Free(), active, n, d, c, own)
    {
      hide Built, RawFork, FreeSet;
      BuiltIsRawFork(codePages, m, free, mem, pmm.Free(), active, n, d, c, own);
      BuiltFacts(codePages, m, free, mem, pmm.Free(), active, n, d, c, 4, own);
      var oldPdpt := At(mem, active)[0].frame;
      mem := Put(mem, n, 0, Private(d, At(mem, active)[0]));
      assert At(mem, oldPdpt) == At(m, oldPdpt);
      mem := Put(mem, d, 0, Private(c, At(mem, oldPdpt)[0]));
    }

    /** The failure path of a page of the second page table. */
    method UndoHigh(n: nat, d: nat, c: nat, t2: nat, t3: nat, i: nat, ghost m: Mem, ghost free: set<nat>,
                    ghost own: map<nat, Path>, ghost got: map<nat, nat>, ghost got3: map<nat, nat>) returns (ok: bool)
      requires pmm.Valid() && i < 512 && 0 !in free && (forall f :: f in free ==> f < pmm.frameCount)
      requires LowTable(codePages, m, mem, active, t2, got) && LowOwn(own, n, d, c, t2, got) && own.Keys <= free
      requires RawWords(codePages, m, mem, PtOf(m, active, 3), t3, 3, i, got3)
      requires t3 in free - own.Keys && got3.Keys <= free - own.Keys && t3 !in got3
      requires pmm.Free() == free - own.Keys - {t3} - got3.Keys
      modifies pmm.bitmap
      ensures pmm.Valid() && (ok <==> StraysOk(codePages, m, active, HighPage(i), pmm.frameCount, free))
      ensures ok ==> pmm.Free() == free + Lost(codePages, m, active, HighPage(i))
    {
      hide WordFrames, FreeSet, Stray, LowStray, LowTable, RawWords, WordsDistinct, LowDistinct, StraysDistinct;
      ghost var tables := {n, d, c} + ({t2} - {0});
      ghost var low, high := LowStray(codePages, m, active, true), Stray(codePages, m, PtOf(m, active, 3), 3, i, true);
      LowWords(codePages, m, mem, active, t2, got, true);
      LowRawDistinct(codePages, m, mem, active, t2, got, true);
      RawFrames(codePages, m, mem, PtOf(m, active, 3), t3, 3, i, got3, true);
      RawDistinct(codePages, m, mem, PtOf(m, active, 3), t3, 3, i, got3, true);
      TwoRollbacks(free, got.Keys, got3.Keys, tables, t3, low, high, pmm.frameCount);
      assert pmm.Free() == free - got.Keys - tables - {t3} - got3.Keys;
      ok := FreePages(t3, i, true);
      if ok {
        ok := FreePages(t2, 512, true);
      }
      if ok {
        ok := FreeTables(n, d, c, t2);
      }
      if ok {
        ok := pmm.Release(t3);
      }
    }

    /** kvmm_create_user_pml4 from the active root: the tables, and every failure path. */
    method CreateTables(ghost w: World) returns (r: ForkResult, ghost taken: map<nat, Path>, ghost at: Path)
      requires pmm.Valid() && w.codePages == codePages && w.mem == mem && w.free == pmm.Free() && Ready(w, active)
      modifies `mem, pmm.bitmap
      ensures pmm.Valid() && forall f :: f !in w.free ==> At(mem, f) == At(w.mem, f)
      ensures r.Created? ==>
                exists d, c :: RawFork(codePages, w.mem, w.free, mem, pmm.Free(), active, r.root, d, c, taken)
      ensures r.Created? ==> taken.Keys <= Usable(pmm, w.free) && Places(codePages, w.mem, active, 4, taken)
      ensures !r.Created? ==> Shortage(pmm, codePages, w.mem, active, w.free, taken, at) && StageInRange(StageOf(at))
      ensures !r.Created? ==> (r.Halted? <==> !StraysOk(codePages, w.mem, active, StageOf(at), pmm.frameCount, w.free))
      ensures r.NoMemory? ==> pmm.Free() == w.free + Lost(codePages, w.mem, active, StageOf(at))
    {
      hide Built, Fits, FreeSet, RawWords, Claimed, CanCopy, RawFork, Shortage, Took, LowTable, LowOwn, StraysOk, Lost,
           Places, Usable;
      ghost var m, free := mem, pmm.Free();
      ghost var own, got;
      var low;
      low, own, got, at := CreateLow(w);
      if low.LowFailed? {
        return (if low.halted then Halted else NoMemory), own, at;
      }
      var LowDone(n, d, c, t2) := low;
      BuiltFacts(codePages, m, free, mem, pmm.Free(), active, n, d, c, 3, own);
      var oldPdpt := At(mem, active)[0].frame;
      var oldPd := At(mem, oldPdpt)[0].frame;
      ghost var m2, own3, got3 := mem, own, got;
      var high, t3;
      high, t3, own3, got3 := BuildPt(oldPd, c, 3, m, free, n, d, own);
      if high.NoPt? {
        at := [0, 0, 3];
        var ok := UndoLow(n, d, c, t2, m, free, own, got);
        return (if ok then NoMemory else Halted), own3, at;
      }
      if high.PtPageFailed? {
        at := [0, 0, 3, high.i];
        LowOwnIs(own, n, d, c, t2, got, free);
        LowTableSame(codePages, m, m2, mem, active, t2, got);
        var ok := UndoHigh(n, d, c, t2, t3, high.i, m, free, own, got, got3);
        return (if ok then NoMemory else Halted), own3, at;
      }
      TookOwn(pmm, codePages, m, free, mem, pmm.Free(), active, n, d, c, own3);
      LinkUpper(n, d, c, m, free, own3);
      RawForkParts(codePages, m, free, mem, pmm.Free(), active, n, d, c, own3);
      return Created(n), own3, [];
    }

    /** kvmm_create_user_pml4.  On success it is a fork of the active space.  It succeeds exactly when there are
        at least as many usable frames as the copy needs; otherwise it stops at the needed position that has
        exactly as many before it as there are usable frames, gives back every frame it took and also the stray
        frames of that stage, and halts exactly when one of these is out of range, free, or named twice. */
    method CreateSpace() returns (r: ForkResult, ghost at: Path)
      requires Valid()
      modifies `mem, `roots, `owner, pmm.bitmap
      ensures r.Created? ==> Valid() && Step(old(W()), W(), Create(active, r.root))
      ensures r.Created? <==> |NeededSet(codePages, old(mem), active)| <= |Usable(pmm, old(pmm.Free()))|
      ensures !r.Created? ==> FailsAt(codePages, old(mem), active, Usable(pmm, old(pmm.Free())), at)
      ensures !r.Created? ==>
                (r.Halted? <==> !StraysOk(codePages, old(mem), active, StageOf(at), pmm.frameCount, old(pmm.Free())))
      ensures r.Halted? ==> !StageOf(at).Upper?
      ensures r.NoMemory? ==> pmm.Free() == old(pmm.Free()) + Lost(codePages, old(mem), active, StageOf(at))
      ensures r.NoMemory? ==> (pmm.Free() == old(pmm.Free()) <==> NoStrays(codePages, old(mem), active, StageOf(at)))
      ensures r.NoMemory? ==> forall f :: f !in old(pmm.Free()) ==> At(mem, f) == At(old(mem), f)
      ensures !r.Created? ==> roots == old(roots) && owner == old(owner)
      ensures r.NoMemory? ==>
                (Valid() <==> Lost(codePages, old(mem), active, StageOf(at)) !! old(owner).Keys + old(shared))
      ensures r.NoMemory? && NoStrays(codePages, old(mem), active, StageOf(at)) ==> Valid()
      ensures r.NoMemory? && Valid() ==> Step(old(W()), W(), Elsewhere)
    {
      hide Inv, Step, RawFork, Forked, Lost, CanCopy, FreeSet, AfterFork, Shortage, StraysOk, NoStrays, Places, Usable,
           FailsAt, NeededSet;
      ghost var w := W();
      ghost var taken;
      ReadyRoot(w, active);
      r, taken, at := CreateTables(w);
      if r.Created? {
        ghost var d, c :| RawFork(codePages, w.mem, w.free, mem, pmm.Free(), active, r.root, d, c, taken);
        CreatedStep(w, mem, pmm.Free(), active, r.root, d, c, taken, pmm.frameCount);
        AfterForkFields(w, mem, pmm.Free(), r.root);
        roots, owner := w.roots + {r.root}, AfterFork(w, mem, pmm.Free(), r.root).owner;
        assert W() == AfterFork(w, mem, pmm.Free(), r.root);
        EnoughFrames(pmm, codePages, w.mem, active, w.free, taken);
      } else {
        TooFewFrames(pmm, codePages, w.mem, active, w.free, taken, at);
        UpperStrays(codePages, w.mem, active, pmm.frameCount, w.free);
        if r.NoMemory? {
          RestoredExact(codePages, w.mem, active, StageOf(at), pmm.frameCount, w.free);
          GaveUp(w, mem, Lost(codePages, w.mem, active, StageOf(at)));
        }
      }
    }

    // -------------------------------------------------------------- freeing

    /** kvmm_free_user_pml4 over one page table of the window: its owned pages, then the table. */
    method DropTable(t: nat, j: nat, ghost own: map<nat, Path>, ghost free: set<nat>) returns (ok: bool)
      requires pmm.Valid() && (j == 2 || j == 3)
      requires HeldAs(Some(t), [0, 0, j], own, free, pmm.frameCount)
      requires forall i :: 0 <= i < 512 && OwnedWord(codePages, At(mem, t)[i], j * 512 + i)
                           ==> HeldAs(Some(At(mem, t)[i].frame), [0, 0, j, i], own, free, pmm.frameCount)
      requires forall f :: f in pmm.Free() && f !in free ==> f in own && (|own[f]| <= 2 || own[f][2] != j)
      modifies pmm.bitmap
      ensures ok && pmm.Valid() && pmm.Free() == old(pmm.Free()) + {t} + PageFrames(codePages, mem, t, j, 512)
    {
      hide FreeSet;
      for i := 0 to 512
        invariant pmm.Valid() && pmm.Free() == old(pmm.Free()) + PageFrames(codePages, mem, t, j, i)
      {
        var e := At(mem, t)[i];
        PageFramesStep(codePages, mem, t, j, i);
        if !(Present(e) && User(e)) {
          continue;
        }
        if SharedPage(codePages, (j * 512 + i) * 4096) {
          continue;
        }
        assert e.frame !in PageFrames(codePages, mem, t, j, i);
        ok := pmm.Release(e.frame);
        assert ok;
      }
      assert t !in PageFrames(codePages, mem, t, j, 512);
      ok := pmm.Release(t);
    }

    /** kvmm_free_user_pml4 below an inactive root: frees exactly the frames the root owns, wherever its
        walk stops, and never halts. */
    method DropTables(root: nat, ghost own: map<nat, Path>) returns (ok: bool)
      requires pmm.Valid() && Droppable(codePages, mem, root, own, pmm.Free(), pmm.frameCount)
      modifies pmm.bitmap
      ensures ok && pmm.Valid() && pmm.Free() == old(pmm.Free()) + OwnedFrames(codePages, mem, root)
    {
      hide FreeSet, Droppable, OwnsAt, Link, TableAt, OwnedFrames, OwnedWord;
      ghost var free := pmm.Free();
      HeldUpper(codePages, mem, root, own, free, pmm.frameCount);
      SpineOf(mem, root);
      var pml4e := At(mem, root)[0];
      if !Present(pml4e) {
        OwnedShort(codePages, mem, root);
        ok := pmm.Release(root);
        return;
      }
      var pdpt := pml4e.frame;
      var pdpte := At(mem, pdpt)[0];
      if !Present(pdpte) {
        OwnedShort(codePages, mem, root);
        ok := pmm.Release(pdpt);
        ok := pmm.Release(root);
        return;
      }
      var pd := pdpte.frame;
      ok := DropWindow(root, pd, own);
      OwnedFull(codePages, mem, root);
      HeldFrames(codePages, mem, root, own, free, pmm.frameCount, 2);
      HeldFrames(codePages, mem, root, own, free, pmm.frameCount, 3);
      hide TableFrames;
      ok := pmm.Release(pd);
      ok := pmm.Release(pdpt);
      ok := pmm.Release(root);
    }

    /** The two page tables of the window. */
    method DropWindow(ghost root: nat, pd: nat, ghost own: map<nat, Path>) returns (ok: bool)
      requires pmm.Valid() && Droppable(codePages, mem, root, own, pmm.Free(), pmm.frameCount)
      requires TableAt(mem, root, [0, 0]).Some? && pd == PdOf(mem, root)
      modifies pmm.bitmap
      ensures ok && pmm.Valid()
      ensures pmm.Free() == old(pmm.Free()) + TableFrames(codePages, mem, pd, 2) + TableFrames(codePages, mem, pd, 3)
    {
      hide FreeSet, Droppable, OwnsAt, Link, TableAt, OwnedWord;
      ghost var free := pmm.Free();
      ok := true;
      HeldFrames(codePages, mem, root, own, free, pmm.frameCount, 2);
      var low := At(mem, pd)[2];
      if Present(low) {
        HeldPages(codePages, mem, root, own, free, pmm.frameCount, 2);
        ok := DropTable(low.frame, 2, own, free);
      }
      assert pmm.Free() == free + TableFrames(codePages, mem, pd, 2);
      var high := At(mem, pd)[3];
      if Present(high) {
        HeldPages(codePages, mem, root, own, free, pmm.frameCount, 3);
        ok := DropTable(high.frame, 3, own, free);
      }
    }

    /** kvmm_free_user_pml4: ignores a null root, refuses the active one (which then leaks), and
        otherwise returns exactly the frames of the space. */
    method DropSpace(root: nat)
      requires Valid() && (root in roots || root == 0)
      modifies `roots, `owner, pmm.bitmap
      ensures Valid()
      ensures root == 0 || root == active ==> W() == old(W())
      ensures root != 0 && root != active ==> Step(old(W()), W(), Destroy(root))
    {
      hide Inv, Droppable, OwnedFrames, FreeSet;
      if root == 0 {
        return;
      }
      if root == active {
        return;
      }
      ghost var w := W();
      RootsDroppable(w, root, pmm.frameCount);
      DropKeepsInv(w, root);
      var ok := DropTables(root, map f | f in owner && owner[f].0 == root :: owner[f].1);
      roots, owner := roots - {root}, owner - OwnedFrames(codePages, mem, root);
      assert W() == AfterDrop(w, root);
    }

    // -------------------------------------------------------------- page system calls

    /** kpalloc followed by kvmmap_at with flags 0x07. */
    method MapFresh(r: nat, vp: nat) returns (res: PageResult)
      requires Valid() && r in roots && Window(vp)
      modifies `mem, `owner, pmm.bitmap
      ensures res.NoPage? ==> W() == old(W()) && Valid()
      ensures res.NoPage? <==> Usable(pmm, old(pmm.Free())) == {}
      ensures res.Page? <==> |Lacking(old(mem), r, Indices(vp), 3)| + 1 <= |Usable(pmm, old(pmm.Free()))|
      ensures res.Page? ==> res.vp == vp && Valid() && Step(old(W()), W(), AllocPage(r, vp, res.f))
      ensures res.Page? ==> res.f in old(pmm.Free()) && Leaf(mem, r, vp) == Entry(res.f, 0x07)
    {
      hide Inv, Mapped, FreeSet, Fits, OwnerAfterMap, Step, Usable, Lacking, TookFor;
      ghost var w := W();
      var page := pmm.Alloc();
      UsableAfter(pmm, w.free, page);
      if page.None? {
        return NoPage;
      }
      var f := page.value;
      ghost var w1 := w.(free := w.free - {f});
      TakeFrame(w, f);
      NotFree(w1, r);
      var done := MapAt(r, vp, f, 0x07);
      if !done {
        return HaltedInMap;
      }
      owner := OwnerAfterMap(w1, mem, r, vp, Entry(f, 0x07));
      assert W() == AfterAlloc(w, mem, pmm.Free(), r, vp, f);
      AllocPageStep(w, W(), r, vp, f);
      MappedLeaf(w.mem, w1.free, mem, pmm.Free(), r, vp, Entry(f, 0x07));
      return Page(vp, f);
    }

    /** sys_alloc_page: the lowest page of the user heap area that is not a present user page gets a
        fresh frame. */
    method SysAllocPage(r: nat) returns (res: PageResult)
      requires Valid() && r in roots
      modifies `mem, `owner, pmm.bitmap
      ensures res.NoPage? ==> W() == old(W()) && Valid()
      ensures var free := Usable(pmm, old(pmm.Free()));
              && (res.NoPage? <==> free == {} || FirstFree(old(mem), r, 0x700))
              && (res.HaltedInMap? ==>
                    exists vp :: FirstFree(old(mem), r, vp) && 0 < |free| <= |Lacking(old(mem), r, Indices(vp), 3)|)
              && (res.Page? ==>
                    FirstFree(old(mem), r, res.vp) && |Lacking(old(mem), r, Indices(res.vp), 3)| < |free|)
      ensures res.Page? ==> 0x410 <= res.vp < 0x700 && Valid() && Step(old(W()), W(), AllocPage(r, res.vp, res.f))
      ensures res.Page? ==> res.f in old(pmm.Free()) && Leaf(mem, r, res.vp) == Entry(res.f, 0x07)
      ensures res.Page? && !SharedPage(codePages, res.vp * 4096) ==> Conserving(old(W()), AllocPage(r, res.vp, res.f))
      ensures res.Page? ==>
                forall vq :: 0x410 <= vq < res.vp ==> Present(Leaf(old(mem), r, vq)) && User(Leaf(old(mem), r, vq))
    {
      hide Inv, Step, Usable, Lacking, FreeSet;
      var virt := FindFreePage(r);
      FirstFreeOne(mem, r);
      if virt.None? {
        return NoPage;
      }
      res := MapFresh(r, virt.value);
    }

    /** sys_free_page (and sys_unmmap_and_free): the checks look only at the address.  The result is None
        when kpfree halts. */
    method SysFreePage(r: nat, virt: nat) returns (rax: Option<bool>)
      requires Valid() && r in roots
      modifies `mem, `owner, pmm.bitmap
      ensures rax == Some(false) <==>
                || !UserPageOk(codePages, virt) || TableAt(old(mem), r, Indices(virt / 4096)[..3]).None?
      ensures rax == Some(false) <==>
                || virt < 0x400000 || 0x700000 <= virt || virt < 0x400000 + codePages || 0x44F000 <= virt < 0x450000
                || TableAt(old(mem), r, Indices(virt / 4096)[..3]).None?
      ensures rax.None? <==> UserPageOk(codePages, virt)
                             && var f := Leaf(old(mem), r, virt / 4096).frame;
                                f != 0 && (f >= pmm.frameCount || f in old(pmm.Free()))
      ensures rax == Some(false) ==> W() == old(W()) && Valid()
      ensures rax == Some(true) ==> UserPageOk(codePages, virt) && W() == AfterFree(old(W()), mem, r, virt / 4096)
      ensures rax == Some(true) && FreesItsOwn(old(W()), r, virt / 4096)
              ==> Valid() && Step(old(W()), W(), FreePage(r, virt / 4096))
    {
      hide Inv, Mapped, FreeSet, Fits, OwnerAfterMap, Leaf, OwnedWord, Step, FreesItsOwn;
      if virt == 0 || !UserPageOk(codePages, virt) {
        return Some(false);
      }
      ghost var w := W();
      var vp := virt / 4096;
      NotFree(w, r);
      rax := UnmapAndFreeAt(r, vp);
      if rax == Some(true) {
        owner := OwnerAfterMap(w, mem, r, vp, ZERO);
        assert W() == AfterFree(w, mem, r, vp);
        if FreesItsOwn(w, r, vp) {
          FreePageStep(w, W(), r, vp);
        }
      }
    }

    /** Page k of a device mapping: a frame that is not normal RAM, at a page not yet present. */
    ghost predicate MmioPage(m: Mem, root: nat, vp: nat, phys: nat, k: nat) {
      && !NormalRam(pmm.regions, pmm.kernelEnd, pmm.bitmap.Length, phys + k * 0x1000)
      && !Present(Leaf(m, root, vp + k))
    }

    /** The pages asked for are absent and the frames asked for are not RAM. */
    lemma MmioMeans(m: Mem, root: nat, vp: nat, phys: nat, pages: nat)
      requires phys % 0x1000 == 0
      ensures (forall i :: 0 <= i < pages ==> MmioPage(m, root, vp, phys, i)) <==>
              && (forall vq :: vp <= vq < vp + pages ==> Leaf(m, root, vq).low & 0x01 == 0)
              && (forall a: nat :: phys <= a < phys + pages * 0x1000 && a % 0x1000 == 0 ==>
                    !NormalRam(pmm.regions, pmm.kernelEnd, pmm.bitmap.Length, a))
    {
      hide NormalRam, Leaf;
      if forall i :: 0 <= i < pages ==> MmioPage(m, root, vp, phys, i) {
        forall vq | vp <= vq < vp + pages ensures Leaf(m, root, vq).low & 0x01 == 0 {
          assert MmioPage(m, root, vp, phys, vq - vp);
        }
        forall a: nat | phys <= a < phys + pages * 0x1000 && a % 0x1000 == 0
          ensures !NormalRam(pmm.regions, pmm.kernelEnd, pmm.bitmap.Length, a)
        {
          assert MmioPage(m, root, vp, phys, (a - phys) / 0x1000);
        }
      } else {
        var i :| 0 <= i < pages && !MmioPage(m, root, vp, phys, i);
        assert phys <= phys + i * 0x1000 < phys + pages * 0x1000 && (phys + i * 0x1000) % 0x1000 == 0;
        assert Present(Leaf(m, root, vp + i)) ==> Leaf(m, root, vp + i).low & 0x01 != 0;
      }
    }

    /** A frame the allocator has handed out in any run since initialisation is no page of a device mapping. */
    lemma MmioNeverHeld(ls: seq<Ledger>, pool: set<nat>, i: nat, m: Mem, root: nat, vp: nat, phys: nat, k: nat, q: nat)
      requires i < |ls| && ls[0] == Ledger(pool, {})
      requires forall j :: 0 <= j < |ls| - 1 ==> LedgerStep(ls[j], ls[j + 1], pmm.FirstPage(), pmm.frameCount)
      requires forall p: nat :: p in pool ==> InRam(pmm.regions, p) && pmm.kernelEnd <= p * PAGE
      requires BITMAP_ADDR + pmm.bitmap.Length <= pmm.kernelEnd
      requires phys % 4096 == 0 && MmioPage(m, root, vp, phys, k) && q in Held(ls[i].live)
      ensures phys / 4096 + k != q
    {
      hide Leaf, NormalRam, LedgerStep;
      HeldIsNormalRam(ls, pool, pmm.FirstPage(), pmm.frameCount, i, pmm.regions, pmm.kernelEnd, pmm.bitmap.Length, q);
      assert phys + k * 0x1000 == (phys / 4096 + k) * PAGE;
    }

    /** The first loop of sys_map_mmio. */
    method MmioAllowed(root: nat, vp: nat, phys: nat, pages: nat) returns (ok: bool)
      requires pmm.Valid()
      ensures ok <==> forall k :: 0 <= k < pages ==> MmioPage(mem, root, vp, phys, k)
    {
      hide Leaf, NormalRam;
      assert !Present(ZERO);
      for i := 0 to pages
        invariant forall k :: 0 <= k < i ==> MmioPage(mem, root, vp, phys, k)
      {
        var pt := PteTable(mem, root, vp + i);
        var ram := pmm.IsNormalRam(phys + i * 0x1000);
        if ram || (pt.Some? && Present(At(mem, pt.value)[(vp + i) % 512])) {
          assert !MmioPage(mem, root, vp, phys, i);
          return false;
        }
      }
      return true;
    }

    /** sys_map_mmio: all or nothing.  Frames of normal RAM and pages already present are refused.  The call halts
        exactly when the tables the range lacks are more than the usable frames.  When the space shares none of the
        tables on the way with another one it is a run of mapping steps, `ws` being the worlds in between. */
    method SysMapMmio(root: nat, virt: nat, phys: nat, pages: nat) returns (rax: Option<nat>, ghost ws: seq<World>)
      requires pmm.Valid() && Tidy(mem, pmm.Free(), root) && virt < WORD && phys < WORD && pages < WORD
      modifies `mem, `shared, pmm.bitmap
      ensures rax == Some(0) ==> mem == old(mem) && pmm.Free() == old(pmm.Free()) && shared == old(shared)
      ensures rax == Some(0) <==>
                !(&& 0 < pages <= 256 && virt % 0x1000 == 0 && phys % 0x1000 == 0
                  && 0x40000000 <= virt && virt + pages * 0x1000 <= 0x80000000
                  && phys + pages * 0x1000 < 0x1_0000_0000_0000_0000
                  && forall i :: 0 <= i < pages ==> MmioPage(old(mem), root, virt / 4096, phys, i))
      ensures rax.Some? && rax.value != 0 ==>
                && (forall vp :: virt / 4096 <= vp < virt / 4096 + pages ==> Leaf(old(mem), root, vp).low & 0x01 == 0)
                && (forall a: nat :: phys <= a < phys + pages * 0x1000 && a % 0x1000 == 0 ==>
                      !NormalRam(pmm.regions, pmm.kernelEnd, pmm.bitmap.Length, a))
      ensures rax.None? ==> Short(pmm, old(pmm.Free()), LackingRange(old(mem), root, virt / 4096, pages))
      ensures rax.Some? && rax.value != 0 ==>
                !Short(pmm, old(pmm.Free()), LackingRange(old(mem), root, virt / 4096, pages))
      ensures rax.Some? && rax.value != 0 ==> rax.value == virt && Tidy(mem, pmm.Free(), root)
      ensures rax.Some? && rax.value != 0 ==>
                RangeMapped(old(mem), mem, root, virt / 4096, phys / 4096, pages)
      ensures rax.Some? && rax.value != 0 ==> forall vp :: virt / 4096 <= vp < virt / 4096 + pages ==>
                Leaf(mem, root, vp) == Entry(phys / 4096 + (vp - virt / 4096), 0x1F)
      ensures rax.Some? && rax.value != 0 && old(Valid()) && old(RangeAlone(W(), root, virt / 4096, pages)) ==>
                Valid() && ws != [] && ws[0] == old(W()) && MapSteps(ws, root, virt / 4096, phys / 4096, pages, W())
    {
      hide Tidy, NormalRam, FreeSet, Short, LackingRange, RangeMapped, RangeAlone, MapSteps, Inv;
      ws := [];
      if pages == 0 || pages > 256 || virt % 4096 != 0 || phys % 4096 != 0 {
        return Some(0), ws;
      }
      MmioChecks(virt, phys, pages);
      if virt < USER_MMIO_MIN || (virt + pages * 0x1000) % WORD < virt || (virt + pages * 0x1000) % WORD > USER_MMIO_MAX
         || (phys + pages * 0x1000) % WORD < phys {
        return Some(0), ws;
      }
      var vp, pf := virt / 4096, phys / 4096;
      var ok := MmioAllowed(root, vp, phys, pages);
      if !ok {
        return Some(0), ws;
      }
      MmioPages(virt, pages);
      var done;
      done, ws := MapRange(root, vp, pf, pages);
      if !done {
        return None, ws;
      }
      RangeWords(old(mem), mem, root, vp, pf, pages);
      MmioMeans(old(mem), root, vp, phys, pages);
      return Some(virt), ws;
    }

    /** The second loop of sys_map_mmio. */
    method MapRange(root: nat, vp: nat, pf: nat, pages: nat) returns (done: bool, ghost ws: seq<World>)
      requires pmm.Valid() && Tidy(mem, pmm.Free(), root) && OutsideRange(vp, pages)
      modifies `mem, `shared, pmm.bitmap
      ensures done <==> !Short(pmm, old(pmm.Free()), LackingRange(old(mem), root, vp, pages))
      ensures done ==> Tidy(mem, pmm.Free(), root) && RangeMapped(old(mem), mem, root, vp, pf, pages)
      ensures done && old(Valid()) && old(RangeAlone(W(), root, vp, pages)) ==>
                Valid() && ws != [] && ws[0] == old(W()) && MapSteps(ws, root, vp, pf, pages, W())
    {
      hide Tidy, FreeSet, Short, LackingRange, RangeMapped, TookFor, OutsideRange, Vmm.Valid, Vmm.Mapping, Mapped,
           RangeAlone, MapSteps, Inv, Step, Usable, Lacking, Alone;
      ghost var m0, free0, w0 := mem, pmm.Free(), W();
      ghost var alone := Valid() && RangeAlone(w0, root, vp, pages);
      ws := [w0];
      RangeStart(pmm, free0, m0, root, vp, pf);
      MappingStart(root, vp, pf, pages);
      for i := 0 to pages
        invariant pmm.Valid() && Tidy(mem, pmm.Free(), root) && RangeMapped(m0, mem, root, vp, pf, i)
        invariant TookFor(pmm, free0, pmm.Free(), LackingRange(m0, root, vp, i))
        invariant alone ==> ws != [] && ws[0] == w0 && Mapping(ws, root, vp, pf, i, pages)
      {
        ghost var m, free := mem, pmm.Free();
        OutsideIn(vp, pages, i);
        var done1;
        done1, ws := MapOne(root, vp, pf, i, pages, ws);
        if !done1 {
          RangeShort(pmm, free0, free, m0, m, root, vp, pf, i, pages);
          return false, ws;
        }
        RangeTook(pmm, free0, free, pmm.Free(), m0, m, root, vp, pf, i);
        RangeNext(m0, free, m, pmm.Free(), mem, root, vp, pf, i);
        MappedTidy(m, free, mem, pmm.Free(), root, vp + i, Entry(pf + i, 0x1F));
      }
      TookForEnough(pmm, free0, pmm.Free(), LackingRange(m0, root, vp, pages));
      if alone {
        MappingDone(ws, root, vp, pf, pages);
      }
      return true, ws;
    }

    /** The first i pages of the range are mapped, step by step, and the space still shares none of the tables. */
    ghost predicate Mapping(ws: seq<World>, root: nat, vp: nat, pf: nat, i: nat, pages: nat)
      reads this, pmm.bitmap
    {
      Valid() && RangeAlone(W(), root, vp, pages) && MapSteps(ws, root, vp, pf, i, W())
    }

    lemma MappingStart(root: nat, vp: nat, pf: nat, pages: nat)
      ensures Valid() && RangeAlone(W(), root, vp, pages) ==> Mapping([W()], root, vp, pf, 0, pages)
    {
      hide Vmm.Valid, RangeAlone;
      StepsStart(W(), root, vp, pf);
    }

    lemma MappingDone(ws: seq<World>, root: nat, vp: nat, pf: nat, pages: nat)
      requires Mapping(ws, root, vp, pf, pages, pages)
      ensures Valid() && MapSteps(ws, root, vp, pf, pages, W())
    {
      hide Vmm.Valid, RangeAlone, MapSteps;
    }

    /** One turn of that loop. */
    method MapOne(root: nat, vp: nat, pf: nat, i: nat, ghost pages: nat, ghost ws: seq<World>)
      returns (done: bool, ghost ws': seq<World>)
      requires pmm.Valid() && Tidy(mem, pmm.Free(), root) && i < pages && OutsideRange(vp, pages)
      modifies `mem, `shared, pmm.bitmap
      ensures pmm.Valid()
      ensures done <==> |Lacking(old(mem), root, Indices(vp + i), 3)| <= |Usable(pmm, old(pmm.Free()))|
      ensures done ==> TookFor(pmm, old(pmm.Free()), pmm.Free(), Lacking(old(mem), root, Indices(vp + i), 3))
      ensures done ==> Mapped(old(mem), old(pmm.Free()), mem, pmm.Free(), root, vp + i, Entry(pf + i, 0x1F))
      ensures done && old(Mapping(ws, root, vp, pf, i, pages)) ==>
                ws' == ws + [W()] && Mapping(ws', root, vp, pf, i + 1, pages)
    {
      hide Tidy, Mapped, FreeSet, RangeAlone, MapSteps, TookFor, Usable, Lacking, OutsideRange, Inv, Step;
      ghost var w := W();
      ghost var stepping := Mapping(ws, root, vp, pf, i, pages);
      done := MapAt(root, vp + i, pf + i, 0x1F);
      shared := shared + (w.free - pmm.Free());
      ws' := ws + [W()];
      if done && stepping {
        assert W() == AfterOutside(w, mem, pmm.Free());
        OutsideStep(w, W(), root, vp, pages, i, Entry(pf + i, 0x1F));
        StepsNext(ws, w, W(), root, vp, pf, i);
      }
    }
  }

  lemma MmioChecks(virt: nat, phys: nat, pages: nat)
    requires virt < WORD && phys < WORD && 0 < pages <= 256
    ensures (virt + pages * 0x1000) % WORD < virt || (virt + pages * 0x1000) % WORD > USER_MMIO_MAX
            || virt < USER_MMIO_MIN
            <==> virt < USER_MMIO_MIN || virt + pages * 4096 > USER_MMIO_MAX
    ensures (phys + pages * 0x1000) % WORD < phys <==> phys + pages * 4096 >= WORD
  {
  }

  lemma MmioPages(virt: nat, pages: nat)
    requires virt % 4096 == 0 && USER_MMIO_MIN <= virt && virt + pages * 4096 <= USER_MMIO_MAX
    ensures OutsideRange(virt / 4096, pages)
  {
    assert virt / 4096 >= 0x40000 && virt / 4096 + pages <= 0x80000;
  }

  const USER_MMIO_MIN: nat := 0x40000000
  const USER_MMIO_MAX: nat := 0x80000000

  lemma MappedTidy(m: Mem, free: set<nat>, m': Mem, free': set<nat>, root: nat, vp: nat, e: Entry)
    requires Mapped(m, free, m', free', root, vp, e)
    ensures Tidy(m', free', root)
  {
  }

  /** The address check of sys_free_page lets a shared page through exactly when the byte bound of the
      init image, a page count, falls inside the page at or below the address. */
  lemma AddressCheckExact(codePages: nat, virt: nat)
    requires USER_AREA_BASE <= virt < USER_AREA_END
    ensures UserPageOk(codePages, virt) && SharedPage(codePages, virt / 4096 * 4096)
            <==> virt / 4096 * 4096 < 0x400000 + codePages <= virt && virt / 4096 != 0x44F
  {
  }

  /** For instance, with an init image of one page, 0x400001 passes although its page is shared. */
  lemma AddressCheckMisses()
    ensures UserPageOk(1, 0x400001) && SharedPage(1, 0x400001 / 4096 * 4096)
  {
  }

  /** vp is the lowest page of the user heap area that is not a present user page; 0x700 when all are. */
  ghost predicate FirstFree(m: Mem, r: nat, vp: nat) {
    && 0x410 <= vp <= 0x700 && (forall vq :: 0x410 <= vq < vp ==> Present(Leaf(m, r, vq)) && User(Leaf(m, r, vq)))
    && (vp < 0x700 ==> !(Present(Leaf(m, r, vp)) && User(Leaf(m, r, vp))))
  }

  lemma FirstFreeOne(m: Mem, r: nat)
    ensures forall vp, vq :: FirstFree(m, r, vp) && FirstFree(m, r, vq) ==> vp == vq
  {
    hide Leaf;
  }

  lemma TookForNone(pmm: FrameAllocator, free: set<nat>, m: Mem, root: nat, x: Path)
    ensures TookFor(pmm, free, free, Lacking(m, root, x, 0))
  {
    TookNone(pmm, free);
    assert free - free == {} && Lacking(m, root, x, 0) == {};
  }

  lemma GrownNext(m: Mem, free: set<nat>, m1: Mem, free1: set<nat>, root: nat, x: Path, k: nat)
    requires k < 3 && |x| == 4 && Grown(m, free, m1, free1, root, x, k)
    ensures Link(m1, root, x[..k + 1]) == Link(m, root, x[..k + 1])
  {
    assert !(x[..k + 1] <= x[..k]);
  }

  datatype PageResult = Page(vp: nat, f: nat) | NoPage | HaltedInMap

  lemma AllocPageStep(w: World, w': World, r: nat, vp: nat, f: nat)
    requires Inv(w) && r in w.roots && Window(vp) && f in w.free
    requires Mapped(w.mem, w.free - {f}, w'.mem, w'.free, r, vp, Entry(f, USER_PAGE))
    requires w' == AfterAlloc(w, w'.mem, w'.free, r, vp, f)
    ensures Step(w, w', AllocPage(r, vp, f)) && Inv(w') && w'.owner.Keys <= w.owner.Keys + w.free
  {
    hide Inv, Mapped, OwnerAfterMap;
    AllocKeepsInv(w, w', r, vp, f);
    TakeFrame(w, f);
    FreshMappable(w, r, vp, f);
    MapOwners(w.(free := w.free - {f}), w'.mem, w'.free, r, vp, Entry(f, USER_PAGE));
  }

  lemma FreePageStep(w: World, w': World, r: nat, vp: nat)
    requires Inv(w) && r in w.roots && Window(vp) && FreesItsOwn(w, r, vp)
    requires Mapped(w.mem, w.free, w'.mem, w.free, r, vp, ZERO) && w' == AfterFree(w, w'.mem, r, vp)
    ensures Step(w, w', FreePage(r, vp)) && Inv(w') && w'.owner.Keys <= w.owner.Keys
  {
    hide Inv, Mapped, OwnerAfterMap, Leaf, OwnedWord;
    FreeKeepsInv(w, w'.mem, r, vp);
    SameOwner(w, w'.mem, r, vp);
  }

  lemma MapOwners(w: World, m': Mem, free': set<nat>, r: nat, vp: nat, e: Entry)
    requires Inv(w) && r in w.roots && Window(vp) && Mapped(w.mem, w.free, m', free', r, vp, e) && Mappable(w, r, vp, e)
    ensures OwnerAfterMap(w, m', r, vp, e).Keys <= w.owner.Keys + w.free + {e.frame}
  {
    hide Link, TableAt, Mapped, Ledgered, GoodRoot, OwnsAt, OwnedWord, Leaf, Indices, Window;
    MapTables(w, m', free', r, vp, e);
  }

  /** Every frame of a window page table is held under a position of that table. */
  lemma HeldFrames(codePages: nat, m: Mem, root: nat, own: map<nat, Path>, free: set<nat>, limit: nat, j: nat)
    requires Droppable(codePages, m, root, own, free, limit) && TableAt(m, root, [0, 0]).Some? && (j == 2 || j == 3)
    ensures forall f :: f in TableFrames(codePages, m, PdOf(m, root), j)
                        ==> f in own && f !in free && |own[f]| > 2 && own[f][2] == j
  {
    hide Droppable, TableAt, Link;
    if Present(At(m, PdOf(m, root))[j]) {
      HeldPages(codePages, m, root, own, free, limit, j);
    }
  }

  lemma PageFramesStep(codePages: nat, m: Mem, t: nat, j: nat, i: nat)
    requires i < 512
    ensures PageFrames(codePages, m, t, j, i + 1)
         == PageFrames(codePages, m, t, j, i) + if OwnedWord(codePages, At(m, t)[i],
                                                             j * 512 + i) then {At(m, t)[i].frame} else {}
  {
  }

  lemma ReadyRoot(w: World, a: nat)
    requires Inv(w) && a in w.roots
    ensures Ready(w, a)
  {
    hide Inv;
    ParentUpper(w, a);
    forall j | 2 <= j <= 3 && Present(At(w.mem, PdOf(w.mem, a))[j])
      ensures CanCopy(w.codePages, w.mem, w.free, PtOf(w.mem, a, j), j)
    {
      ParentTable(w, a, j);
    }
  }

  lemma CreatedStep(w: World, m': Mem, free': set<nat>, a: nat, n: nat, d: nat, c: nat, taken: map<nat, Path>,
                    limit: nat)
    requires Inv(w) && a in w.roots && RawFork(w.codePages, w.mem, w.free, m', free', a, n, d, c, taken)
    requires forall f :: f in w.owner || f in w.free ==> 0 < f < limit
    ensures var w' := AfterFork(w, m', free', n);
            Inv(w') && Step(w, w', Create(a, n)) && forall f :: f in w'.owner ==> 0 < f < limit
  {
    hide Inv, RawFork, Forked, AfterFork;
    RawForkParts(w.codePages, w.mem, w.free, m', free', a, n, d, c, taken);
    RawForkIsForked(w, m', free', a, n, d, c, taken);
    ForkKeepsInv(w, m', free', a, n);
    AfterForkFields(w, m', free', n);
    NewOwnersInRange(w, m', free', a, n, limit);
  }

  lemma NewOwnersInRange(w: World, m': Mem, free': set<nat>, a: nat, n: nat, limit: nat)
    requires Inv(w) && a in w.roots && Forked(w.codePages, w.mem, w.free, m', free', a, n) && n in w.free
    requires forall f :: f in w.owner || f in w.free ==> 0 < f < limit
    ensures forall f :: f in AfterFork(w, m', free', n).owner ==> 0 < f < limit
  {
    hide Inv, Forked, AfterFork, OwnedFrames;
    ForkOwned(w, m', free', a, n);
  }

  datatype LowResult = LowDone(n: nat, d: nat, c: nat, t: nat) | LowFailed(halted: bool)

  datatype ForkResult = Created(root: nat) | NoMemory | Halted

  /** What creation needs of the active root a. */
  ghost predicate Ready(w: World, a: nat) {
    && a !in w.free && PdptOf(w.mem, a) !in w.free && PdOf(w.mem, a) !in w.free
    && forall j :: 2 <= j <= 3 && Present(At(w.mem, PdOf(w.mem, a))[j])
                   ==> CanCopy(w.codePages, w.mem, w.free, PtOf(w.mem, a, j), j)
  }

  datatype PtResult = PtDone | NoPt | PtPageFailed(i: nat)

  /** Creation stops at `at`: the needed position with as many before it as there are usable frames. */
  ghost predicate FailsAt(codePages: nat, m: Mem, a: nat, usable: set<nat>, at: Path) {
    Needed(codePages, m, a, at) && |NeededBefore(codePages, m, a, at)| == |usable| && StageInRange(StageOf(at))
  }

  lemma EnoughFrames(pmm: FrameAllocator, codePages: nat, m: Mem, a: nat, free: set<nat>, taken: map<nat, Path>)
    requires taken.Keys <= Usable(pmm, free) && Places(codePages, m, a, 4, taken)
    ensures |NeededSet(codePages, m, a)| <= |Usable(pmm, free)|
  {
    hide Places, Usable, NeededSet;
    PlacesCount(codePages, m, a, taken);
    SubsetSize(taken.Keys, Usable(pmm, free));
  }

  lemma TooFewFrames(pmm: FrameAllocator, codePages: nat, m: Mem, a: nat, free: set<nat>, taken: map<nat, Path>,
                     at: Path)
    requires Shortage(pmm, codePages, m, a, free, taken, at) && StageInRange(StageOf(at))
    ensures FailsAt(codePages, m, a, Usable(pmm, free), at) && |Usable(pmm, free)| < |NeededSet(codePages, m, a)|
  {
    hide Usable, NeededSet, NeededBefore, Needed;
    UpToCount(codePages, m, a, taken, at);
  }

  /** The early failures have no stray frames. */
  lemma UpperStrays(codePages: nat, m: Mem, a: nat, limit: nat, free: set<nat>)
    ensures StageInRange(Upper) && StraysOk(codePages, m, a, Upper, limit, free) && Lost(codePages, m, a, Upper) == {}
    ensures free + Lost(codePages, m, a, Upper) == free
  {
  }

  /** What creation owns when the first page table is done. */
  ghost predicate LowOwn(own: map<nat, Path>, n: nat, d: nat, c: nat, t: nat, got: map<nat, nat>) {
    && own.Keys == {n, d, c} + ({t} - {0}) + got.Keys && n != d && n != c && d != c && 0 < n && 0 < d && 0 < c
    && t != n && t != d && t != c && 0 !in got && got.Keys !! {n, d, c} + {t}
  }

  lemma LowOwnIs(own: map<nat, Path>, n: nat, d: nat, c: nat, t: nat, got: map<nat, nat>, free: set<nat>)
    requires LowOwn(own, n, d, c, t, got) && own.Keys <= free
    ensures c in own.Keys && t != c && (t != 0 ==> t in own.Keys)
  {
  }

  ghost predicate Grown3(own: map<nat, Path>, own': map<nat, Path>, t: nat, got: map<nat, nat>, j: nat) {
    && 0 < t && t !in own && t !in got && got.Keys !! own.Keys && 0 !in got
    && own' == Claimed(own, j, t, got) && own'.Keys == own.Keys + {t} + got.Keys
  }

  /** Linking the finished copy of page table j. */
  lemma PtLinked(codePages: nat, m: Mem, free: set<nat>, m1: Mem, free1: set<nat>, a: nat, n: nat, d: nat, c: nat,
                 j: nat, own: map<nat, Path>, t: nat, mc: Mem, free2: set<nat>, got: map<nat, nat>)
    requires 2 <= j <= 3 && Built(codePages, m, free, m1, free1, a, n, d, c, j, own) && 0 !in free && t in free1
    requires Present(At(m, PdOf(m, a))[j]) && CanCopy(codePages, m, free, PtOf(m, a, j), j)
    requires Copied(codePages, m1[t := Blank()], free1 - {t}, mc, free2, PtOf(m, a, j), t, j, 512, got)
    ensures var m2 := Put(mc, c, j, Private(t, At(mc, c)[j]));
            && Built(codePages, m, free, m2, free2, a, n, d, c, j + 1, Claimed(own, j, t, got))
            && Grown3(own, Claimed(own, j, t, got), t, got, j)
            && RawWords(codePages, m, m2, PtOf(m, a, j), t, j, 512, got)
            && (forall f :: f !in free ==> At(m2, f) == At(m, f))
            && forall f :: f !in free1 && f != c ==> At(m2, f) == At(m1, f)
  {
    hide Built, Copied, RawWords, Claimed, CanCopy, OwnedWord, Present;
    var from := PtOf(m, a, j);
    BuiltFacts(codePages, m, free, m1, free1, a, n, d, c, j, own);
    CanCopyIs(codePages, m, free, from, j);
    CopiedParts(codePages, m, m1, free1, mc, free2, from, t, j, 512, got);
    BuildTable(codePages, m, free, m1, free1, a, n, d, c, j, own, t, mc, free2, got);
    RawWordsSame(codePages, m, mc, Put(mc, c, j, Private(t, At(mc, c)[j])), from, t, j, 512, got);
    ClaimedKeys(own, j, t, got);
    BuiltFacts(codePages, m, free, Put(mc, c, j, Private(t, At(mc, c)[j])), free2, a, n, d, c, j + 1,
               Claimed(own, j, t, got));
  }

  lemma LowIs(codePages: nat, m: Mem, free: set<nat>, m': Mem, a: nat, n: nat, d: nat, c: nat, t: nat,
              own: map<nat, Path>, own': map<nat, Path>, got: map<nat, nat>)
    requires own == UpperOwn(n, d, c) && n != d && n != c && d != c && 0 < n && 0 < d && 0 < c
    requires 0 !in free
    requires forall f :: f !in free ==> At(m', f) == At(m, f)
    requires if Present(At(m, PdOf(m, a))[2])
             then Grown3(own, own', t, got, 2) && RawWords(codePages, m, m', PtOf(m, a, 2), t, 2, 512, got)
             else t == 0 && own' == own && got == map[]
    ensures LowTable(codePages, m, m', a, t, got) && LowOwn(own', n, d, c, t, got)
  {
    hide RawWords, Claimed;
    assert own.Keys == {n, d, c};
  }

  lemma ParentKept(codePages: nat, m: Mem, free: set<nat>, m1: Mem, from: nat, j: nat)
    requires CanCopy(codePages, m, free, from, j) && forall f :: f !in free ==> At(m1, f) == At(m, f)
    ensures At(m1, from) == At(m, from) && from !in free
  {
  }

  lemma CanCopyIs(codePages: nat, m: Mem, free: set<nat>, from: nat, j: nat)
    requires CanCopy(codePages, m, free, from, j)
    ensures from !in free
    ensures forall i :: 0 <= i < 512 && OwnedWord(codePages, At(m, from)[i], j * 512 + i) ==>
              At(m, from)[i].frame !in free
  {
  }

  lemma CopiedParts(codePages: nat, m: Mem, m1: Mem, free1: set<nat>, mc: Mem, free2: set<nat>, from: nat, t: nat,
                    j: nat, n: nat, got: map<nat, nat>)
    requires n <= 512 && Copied(codePages, m1[t := Blank()], free1 - {t}, mc, free2, from, t, j, n, got)
    requires from != t && At(m1, from) == At(m, from)
    ensures RawWords(codePages, m, mc, from, t, j, n, got)
    ensures got.Keys <= free1 && t !in got && free2 == free1 - {t} - got.Keys
    ensures forall f :: f !in free1 && f != t ==> At(mc, f) == At(m1, f)
  {
    CopiedRaw(codePages, m, m1[t := Blank()], free1 - {t}, mc, free2, from, t, j, n, got);
  }

  lemma TookOwn(pmm: FrameAllocator, codePages: nat, m: Mem, free: set<nat>, m1: Mem, free1: set<nat>, a: nat, n: nat,
                d: nat, c: nat, own: map<nat, Path>)
    requires Built(codePages, m, free, m1, free1, a, n, d, c, 4, own) && Took(pmm, free, free1)
    ensures own.Keys <= Usable(pmm, free) && Places(codePages, m, a, 4, own)
  {
    hide Built, Places, Usable;
    BuiltFacts(codePages, m, free, m1, free1, a, n, d, c, 4, own);
    BuiltPlaces(codePages, m, free, m1, free1, a, n, d, c, 4, own);
    assert free - free1 == own.Keys;
  }

  lemma WordNext(m: Mem, t: nat, i: nat, userOnly: bool)
    requires i < 512 && WordsDistinct(m, t, i, userOnly)
    ensures !Hit(At(m, t)[i], userOnly) || At(m, t)[i].frame !in WordFrames(m, t, i, userOnly) ==>
              WordsDistinct(m, t, i + 1, userOnly)
  {
    forall k | 0 <= k < i && Hit(At(m, t)[k], userOnly) ensures At(m, t)[k].frame in WordFrames(m, t, i, userOnly) {
    }
  }

  lemma WordStops(m: Mem, t: nat, i: nat, n: nat, userOnly: bool, limit: nat, free: set<nat>)
    requires i < n <= 512 && Hit(At(m, t)[i], userOnly)
    requires var f := At(m, t)[i].frame; f >= limit || f in free + WordFrames(m, t, i, userOnly)
    ensures !(WordsDistinct(m, t, n, userOnly) && Clear(WordFrames(m, t, n, userOnly), limit, free))
  {
    var f := At(m, t)[i].frame;
    assert f in WordFrames(m, t, n, userOnly);
    if f in WordFrames(m, t, i, userOnly) {
      var k: nat :| k < i && k < 512 && Hit(At(m, t)[k], userOnly) && f == At(m, t)[k].frame;
    }
  }

  lemma WordFramesStep(m: Mem, t: nat, i: nat, userOnly: bool)
    requires i < 512
    ensures var e := At(m, t)[i];
            WordFrames(m, t, i + 1, userOnly)
            == WordFrames(m, t, i, userOnly) + (if Present(e) && (!userOnly || User(e)) then {e.frame} - {0} else {})
    ensures WordFrames(m, t, 0, userOnly) == {}
  {
  }

  lemma CopiedStart(codePages: nat, m: Mem, free: set<nat>, from: nat, to: nat, j: nat)
    requires At(m, to) == Blank()
    ensures Copied(codePages, m, free, m, free, from, to, j, 0, map[])
  {
  }

  lemma SourceKept(codePages: nat, m: Mem, free: set<nat>, m1: Mem, free1: set<nat>, from: nat, to: nat, j: nat, i: nat,
                   got: map<nat, nat>)
    requires i <= 512 && Copyable(codePages, m, free, from, to, j)
    requires Copied(codePages, m, free, m1, free1, from, to, j, i, got)
    ensures At(m1, from) == At(m, from) && free1 <= free
    ensures i < 512 ==> At(m1, to)[i] == ZERO
  {
  }
}
