/** The kernel's own address space: kvmm_init (src/mm/vmm.c) replaces the 2 MiB boot mapping by
    512 page tables that identity-map the first GiB.  The result is the first state of every run. */
module KernelMap {
  import opened Common
  import opened Frames
  import opened PageTables
  import opened Mapping
  import opened Spaces
  import opened ForkCopy
  import opened ForkBuild
  import opened ForkUndo
  import Runs

  const KERNEL_PAGE: bv12 := 0x03

  /** What the boot loader leaves: one PDPT, one PD, nothing else reachable from the root. */
  ghost predicate BootTables(m: Mem, root: nat, free: set<nat>) {
    var d, c := PdptOf(m, root), PdOf(m, root);
    && At(m, root)[0].low == KERNEL_PAGE && At(m, d)[0].low == KERNEL_PAGE
    && (forall i :: 1 <= i < 512 ==> !Present(At(m, root)[i]) && !Present(At(m, d)[i]))
    && root != d && root != c && d != c && root !in free && d !in free && c !in free
  }

  /** Page table number i of the identity map. */
  ghost predicate Identity(t: Table, i: nat) {
    forall j :: 0 <= j < 512 ==> t[j] == Entry(i * 512 + j, KERNEL_PAGE)
  }

  /** The first n directory words lead to identity tables; pts lists them. */
  ghost predicate Mapped512(boot: Mem, m: Mem, free: set<nat>, free': set<nat>, root: nat, pts: seq<nat>) {
    var c := PdOf(boot, root);
    && |pts| <= 512
    && (forall i :: 0 <= i < |pts|
                    ==> pts[i] in free && At(m, c)[i] == Entry(pts[i], KERNEL_PAGE) && Identity(At(m, pts[i]), i))
    && (forall i, k :: 0 <= i < k < |pts| ==> pts[i] != pts[k])
    && free' == free - (set i | 0 <= i < |pts| :: pts[i])
    && (forall f :: f !in free && f != c ==> At(m, f) == At(boot, f))
  }

  /** kvmm_init */
  method KernelInit(pmm: FrameAllocator, boot: Mem, root: nat) returns (ok: bool, m: Mem, ghost pts: seq<nat>)
    requires pmm.Valid() && BootTables(boot, root, pmm.Free())
    modifies pmm.bitmap
    ensures pmm.Valid()
    ensures !ok ==> forall p: nat :: !Fits(pmm.Free(), pmm.FirstPage(), pmm.frameCount, p, 1)
    ensures ok ==> |pts| == 512 && Mapped512(boot, m, old(pmm.Free()), pmm.Free(), root, pts)
  {
    hide FreeSet, Fits;
    ghost var free := pmm.Free();
    m, pts := boot, [];
    var pdpt := At(m, root)[0].frame;
    var pd := At(m, pdpt)[0].frame;
    for i := 0 to 512
      invariant pmm.Valid() && |pts| == i && Mapped512(boot, m, free, pmm.Free(), root, pts)
    {
      ghost var m0, free0 := m, pmm.Free();
      var pt := pmm.Alloc();
      if pt.None? {
        return false, m, pts;
      }
      var t := Blank();
      for j := 0 to 512
        invariant forall k :: 0 <= k < j ==> t[k] == Entry(i * 512 + k, KERNEL_PAGE)
      {
        t := t[j := Entry(i * 512 + j, KERNEL_PAGE)];
      }
      OneMore(boot, m0, free, free0, root, pts, pt.value, t);
      m := m[pt.value := t];
      m := Put(m, pd, i, Entry(pt.value, KERNEL_PAGE));
      pts := pts + [pt.value];
    }
    return true, m, pts;
  }

  lemma OneMore(boot: Mem, m: Mem, free: set<nat>, free1: set<nat>, root: nat, pts: seq<nat>, p: nat, t: Table)
    requires BootTables(boot, root, free) && Mapped512(boot, m, free, free1, root, pts) && |pts| < 512 && p in free1
    requires Identity(t, |pts|)
    ensures Mapped512(boot, Put(m[p := t], PdOf(boot, root), |pts|, Entry(p, KERNEL_PAGE)), free, free1 - {p}, root,
                      pts + [p])
  {
    hide Identity;
    var c, pts' := PdOf(boot, root), pts + [p];
    var m' := Put(m[p := t], c, |pts|, Entry(p, KERNEL_PAGE));
    forall i | 0 <= i < |pts| ensures pts[i] != p && pts[i] != c {
      assert pts[i] !in free1;
    }
    assert (set i | 0 <= i < |pts'| :: pts'[i]) == (set i | 0 <= i < |pts| :: pts[i]) + {p} by {
      assert pts'[|pts|] == p;
      assert forall i :: 0 <= i < |pts| ==> pts'[i] == pts[i];
    }
  }

  // ---------------------------------------------------------------- the first state satisfies the invariant

  lemma KernelWords(boot: Mem, m: Mem, free: set<nat>, free': set<nat>, root: nat, pts: seq<nat>)
    requires BootTables(boot, root, free) && Mapped512(boot, m, free, free', root, pts) && |pts| == 512
    ensures TableAt(m, root, [0]) == Some(PdptOf(boot, root)) && TableAt(m, root, [0, 0]) == Some(PdOf(boot, root))
    ensures forall i: nat :: Link(m, root, [i]) == Word(boot, root, i)
    ensures forall i: nat :: Link(m, root, [0, i]) == Word(boot, PdptOf(boot, root), i)
    ensures forall i: nat :: Link(m, root, [0, 0, i]) == if i < 512 then Entry(pts[i], KERNEL_PAGE) else ZERO
  {
    hide Identity;
    var d, c := PdptOf(boot, root), PdOf(boot, root);
    assert At(m, root) == At(boot, root) && At(m, d) == At(boot, d);
    forall i: nat ensures Link(m, root, [i]) == Word(boot, root, i) {
      RootWord(m, root, i);
    }
    TableOfLink(m, root, [0]);
    forall i: nat ensures Link(m, root, [0, i]) == Word(boot, d, i) {
      WalkDown(m, root, [0], i);
      assert [0] + [i] == [0, i];
    }
    TableOfLink(m, root, [0, 0]);
    forall i: nat ensures Link(m, root, [0, 0, i]) == if i < 512 then Entry(pts[i], KERNEL_PAGE) else ZERO {
      WalkDown(m, root, [0, 0], i);
      assert [0, 0] + [i] == [0, 0, i];
    }
  }

  /** Where the kernel root has tables, and which. */
  lemma KernelTable(boot: Mem, m: Mem, free: set<nat>, free': set<nat>, root: nat, pts: seq<nat>, q: Path)
    requires BootTables(boot, root, free) && Mapped512(boot, m, free, free', root, pts) && |pts| == 512
    requires |q| <= 3 && TableAt(m, root, q).Some?
    ensures q == [] || q == [0] || q == [0, 0] || (|q| == 3 && q == [0, 0, q[2]] && q[2] < 512)
    ensures TableAt(m, root, q) == Some(if q == [] then root else if q == [0] then PdptOf(boot, root)
                                        else if q == [0, 0] then PdOf(boot, root) else pts[q[2]])
    ensures q != [] ==> Link(m, root, q).low == KERNEL_PAGE
  {
    hide Identity;
    KernelWords(boot, m, free, free', root, pts);
    if |q| == 1 {
      assert q == [q[0]];
    } else if |q| == 2 {
      WalkUp(m, root, q);
      assert Init(q) == [q[0]];
      assert q == [0, q[1]];
    } else if |q| == 3 {
      WalkUp(m, root, q);
      assert Init(q) == [q[0], q[1]];
      WalkUp(m, root, Init(q));
      assert Init(Init(q)) == [q[0]];
      assert Init(q) == [0, q[1]];
      assert q == [0, 0, q[2]];
    }
  }

  lemma KernelLeaf(boot: Mem, m: Mem, free: set<nat>, free': set<nat>, root: nat, pts: seq<nat>, q: Path)
    requires BootTables(boot, root, free) && Mapped512(boot, m, free, free', root, pts) && |pts| == 512
    requires |q| == 4
    ensures Link(m, root, q) == if q[0] == 0 && q[1] == 0 && q[2] < 512 && q[3] < 512
                                then Entry(q[2] * 512 + q[3], KERNEL_PAGE) else ZERO
  {
    var p := Init(q);
    assert q == p + [q[3]] && p == [q[0], q[1], q[2]];
    WalkDown(m, root, p, q[3]);
    KernelWords(boot, m, free, free', root, pts);
    if TableAt(m, root, p).Some? {
      KernelTable(boot, m, free, free', root, pts, p);
      assert Identity(At(m, pts[q[2]]), q[2]);
    } else if q[0] == 0 && q[1] == 0 && q[2] < 512 {
      TableOfLink(m, root, p);
      assert false;
    }
  }

  /** The first GiB is mapped to itself, kernel-only; nothing else is mapped. */
  lemma IdentityMap(boot: Mem, m: Mem, free: set<nat>, free': set<nat>, root: nat, pts: seq<nat>, vp: nat)
    requires BootTables(boot, root, free) && Mapped512(boot, m, free, free', root, pts) && |pts| == 512 && vp < PAGES
    ensures Leaf(m, root, vp) == if vp < 0x40000 then Entry(vp, 0x03) else ZERO
  {
    KernelLeaf(boot, m, free, free', root, pts, Indices(vp));
    Digits(vp);
  }

  function KernelOwner(root: nat, d: nat, c: nat, pts: seq<nat>): map<nat, (nat, Path)>
    requires |pts| == 512
  {
    map[root := (root, []), d := (root, [0]), c := (root, [0, 0]), pts[2] := (root, [0, 0, 2]),
        pts[3] := (root, [0, 0, 3])]
  }

  /** The state after kvmm_init: one root, the page tables outside the window shared. */
  ghost function KernelWorld(codePages: nat, boot: Mem, m: Mem, free': set<nat>, root: nat, pts: seq<nat>): World
    requires |pts| == 512
  {
    World(codePages, m, free', {root}, set i | 0 <= i < 512 && i != 2 && i != 3 :: pts[i],
          KernelOwner(root, PdptOf(boot, root), PdOf(boot, root), pts))
  }

  lemma KernelTree(boot: Mem, m: Mem, free: set<nat>, free': set<nat>, root: nat, pts: seq<nat>)
    requires BootTables(boot, root, free) && Mapped512(boot, m, free, free', root, pts) && |pts| == 512
    ensures Tree(m, root)
  {
    hide Link, TableAt, Identity;
    forall p, q: Path | |p| <= 3 && |q| <= 3 && TableAt(m, root, p).Some? && TableAt(m, root, p) == TableAt(m, root, q)
      ensures p == q
    {
      KernelTable(boot, m, free, free', root, pts, p);
      KernelTable(boot, m, free, free', root, pts, q);
    }
  }

  lemma KernelRights(boot: Mem, m: Mem, free: set<nat>, free': set<nat>, root: nat, pts: seq<nat>)
    requires BootTables(boot, root, free) && Mapped512(boot, m, free, free', root, pts) && |pts| == 512
    ensures RightsKept(m, root)
  {
    hide Link, TableAt, Identity, BootTables, Mapped512;
    forall q: Path | 0 < |q| <= 3 && Present(Link(m, root, q)) ensures Writable(Link(m, root, q)) {
      TableOfLink(m, root, q);
      KernelTable(boot, m, free, free', root, pts, q);
    }
    forall q: Path | |q| == 4 ensures !User(Link(m, root, q)) {
      KernelLeaf(boot, m, free, free', root, pts, q);
    }
  }

  lemma KernelOwns(boot: Mem, m: Mem, free: set<nat>, free': set<nat>, root: nat, pts: seq<nat>, codePages: nat,
                   q: Path)
    requires BootTables(boot, root, free) && Mapped512(boot, m, free, free', root, pts) && |pts| == 512
    ensures OwnsAt(codePages, m, root, q) <==> Spine(q)
    ensures Spine(q) ==> TableAt(m, root, q) == Some(if q == [] then root else if q == [0] then PdptOf(boot, root)
                                                     else if q == [0, 0] then PdOf(boot, root) else pts[q[2]])
  {
    hide Identity;
    KernelWords(boot, m, free, free', root, pts);
    RootTable(m, root);
    TableOfLink(m, root, [0, 0, 2]);
    TableOfLink(m, root, [0, 0, 3]);
    hide Link, TableAt, BootTables, Mapped512;
    if WindowLeaf(q) {
      KernelLeaf(boot, m, free, free', root, pts, q);
    }
  }

  /** The frames behind the kernel root's own tables are five different ones. */
  lemma KernelDistinct(boot: Mem, m: Mem, free: set<nat>, free': set<nat>, root: nat, pts: seq<nat>)
    requires BootTables(boot, root, free) && Mapped512(boot, m, free, free', root, pts) && |pts| == 512
    ensures var d, c := PdptOf(boot, root), PdOf(boot, root);
            && root != d && root != c && d != c && pts[2] != pts[3]
            && (forall i :: 0 <= i < 512 ==> pts[i] != root && pts[i] != d && pts[i] != c && pts[i] !in free')
            && (forall i, k :: 0 <= i < k < 512 ==> pts[i] != pts[k])
            && root !in free' && d !in free' && c !in free'
  {
    hide Identity;
  }

  lemma KernelLedger(codePages: nat, boot: Mem, m: Mem, free: set<nat>, free': set<nat>, root: nat, pts: seq<nat>)
    requires BootTables(boot, root, free) && Mapped512(boot, m, free, free', root, pts) && |pts| == 512
    ensures Ledgered(KernelWorld(codePages, boot, m, free', root, pts))
  {
    hide Link, TableAt, OwnsAt, BootTables, Mapped512;
    var w := KernelWorld(codePages, boot, m, free', root, pts);
    KernelDistinct(boot, m, free, free', root, pts);
    forall r, q | r in w.roots && OwnsAt(codePages, m, r, q) ensures OwnedBy(w, TableAt(m, r, q), r, q) {
      KernelOwns(boot, m, free, free', root, pts, codePages, q);
    }
    forall f | f in w.owner ensures Backed(w, f) {
      KernelOwns(boot, m, free, free', root, pts, codePages, w.owner[f].1);
    }
  }

  lemma KernelGood(codePages: nat, boot: Mem, m: Mem, free: set<nat>, free': set<nat>, root: nat, pts: seq<nat>)
    requires BootTables(boot, root, free) && Mapped512(boot, m, free, free', root, pts) && |pts| == 512
    ensures GoodRoot(KernelWorld(codePages, boot, m, free', root, pts), root)
  {
    hide Link, TableAt, BootTables, Mapped512, Tree, RightsKept, KernelOwner;
    var w := KernelWorld(codePages, boot, m, free', root, pts);
    KernelTree(boot, m, free, free', root, pts);
    KernelRights(boot, m, free, free', root, pts);
    KernelWords(boot, m, free, free', root, pts);
    forall q: Path | |q| <= 3 && !Spine(q) && TableAt(m, root, q).Some? ensures TableAt(m, root, q).value in w.shared {
      KernelTable(boot, m, free, free', root, pts, q);
      assert q[2] != 2 && q[2] != 3;
    }
  }

  /** The invariant holds when kvmm_init returns: the base case of every run. */
  lemma KernelWorldInv(codePages: nat, boot: Mem, m: Mem, free: set<nat>, free': set<nat>, root: nat, pts: seq<nat>)
    requires BootTables(boot, root, free) && Mapped512(boot, m, free, free', root, pts) && |pts| == 512
    ensures Inv(KernelWorld(codePages, boot, m, free', root, pts))
  {
    hide Ledgered, GoodRoot, BootTables, Mapped512;
    KernelLedger(codePages, boot, m, free, free', root, pts);
    KernelGood(codePages, boot, m, free, free', root, pts);
    KernelDistinct(boot, m, free, free', root, pts);
  }

  // ---------------------------------------------------------------- the local APIC

  // LAPIC_VIRT, 0xFFFF8000FEE00000, as a 36-bit page number
  const LAPIC_PAGE: nat := 0x8000FEE00

  /** kenable_lapic maps one more page while the kernel root is the only one: the invariant still holds when
      the first space is created. */
  lemma LapicInv(codePages: nat, boot: Mem, m: Mem, free: set<nat>, free': set<nat>, root: nat, pts: seq<nat>,
                 base: nat, m2: Mem, free2: set<nat>)
    requires BootTables(boot, root, free) && Mapped512(boot, m, free, free', root, pts) && |pts| == 512
    requires Mapped(m, free', m2, free2, root, LAPIC_PAGE, Entry(base, KERNEL_PAGE))
    ensures var w := KernelWorld(codePages, boot, m, free', root, pts);
            var w' := Runs.AfterOutside(w, m2, free2);
            Runs.Step(w, w', Runs.MapOutside(root, LAPIC_PAGE, Entry(base, KERNEL_PAGE))) && Inv(w')
  {
    hide Inv, Mapped, BootTables, Mapped512, KernelOwner;
    var w := KernelWorld(codePages, boot, m, free', root, pts);
    KernelWorldInv(codePages, boot, m, free, free', root, pts);
    Runs.OutsideKeepsInv(w, m2, free2, root, LAPIC_PAGE, Entry(base, KERNEL_PAGE));
  }

  // ---------------------------------------------------------------- a failing creation from the kernel root

  lemma KernelPt(boot: Mem, m: Mem, free: set<nat>, free': set<nat>, root: nat, pts: seq<nat>, j: nat)
    requires BootTables(boot, root, free) && Mapped512(boot, m, free, free', root, pts) && |pts| == 512 && j < 512
    ensures At(m, PdOf(m, root))[j] == Entry(pts[j], KERNEL_PAGE) && PtOf(m, root, j) == pts[j]
    ensures forall i :: 0 <= i < 512 ==> At(m, PtOf(m, root, j))[i] == Entry(j * 512 + i, KERNEL_PAGE)
  {
    assert At(m, root) == At(boot, root) && At(m, PdptOf(boot, root)) == At(boot, PdptOf(boot, root));
    assert Identity(At(m, pts[j]), j);
  }

  lemma KernelBits()
    ensures var e := Entry(0, KERNEL_PAGE); Present(e) && !User(e)
  {
  }

  /** The kernel root has no private page: a copy of it needs the five tables. */
  lemma KernelNeeds(codePages: nat, boot: Mem, m: Mem, free: set<nat>, free': set<nat>, root: nat, pts: seq<nat>,
                    q: Path)
    requires BootTables(boot, root, free) && Mapped512(boot, m, free, free', root, pts) && |pts| == 512
    ensures Needed(codePages, m, root, q) <==> Spine(q)
  {
    KernelPt(boot, m, free, free', root, pts, 2);
    KernelPt(boot, m, free, free', root, pts, 3);
    hide BootTables, Mapped512;
    KernelBits();
    if WindowLeaf(q) && q[3] < 512 {
      WindowLeafParts(q);
    }
  }

  /** With exactly four usable frames its second page table finds none. */
  lemma KernelFourFrames(codePages: nat, boot: Mem, m: Mem, free: set<nat>, free': set<nat>, root: nat, pts: seq<nat>)
    requires BootTables(boot, root, free) && Mapped512(boot, m, free, free', root, pts) && |pts| == 512
    ensures Needed(codePages, m, root, [0, 0, 3]) && |NeededBefore(codePages, m, root, [0, 0, 3])| == 4
    ensures StageOf([0, 0, 3]) == HighTable
  {
    hide Needed, BootTables, Mapped512;
    forall q ensures Needed(codePages, m, root, q) <==> Spine(q) {
      KernelNeeds(codePages, boot, m, free, free', root, pts, q);
    }
    assert NeededBefore(codePages, m, root, [0, 0, 3]) == {[], [0], [0, 0], [0, 0, 2]};
  }

  /** That failure goes on to free the 512 identity-mapped frames of the first page table, 0x400000 to 0x600000,
      and halts exactly when one of them is out of range or free. */
  lemma KernelHighTable(codePages: nat, boot: Mem, m: Mem, free: set<nat>, free': set<nat>, root: nat, pts: seq<nat>,
                        limit: nat)
    requires BootTables(boot, root, free) && Mapped512(boot, m, free, free', root, pts) && |pts| == 512
    ensures Lost(codePages, m, root, HighTable) == set f: nat | f < 1536 && Hole(f)
    ensures StraysOk(codePages, m, root, HighTable, limit, free') <==>
              forall f: nat :: Hole(f) ==> f < limit && f !in free'
    ensures !NoStrays(codePages, m, root, HighTable)
  {
    KernelPt(boot, m, free, free', root, pts, 2);
    hide BootTables, Mapped512, Lost;
    KernelBits();
    var from := PtOf(m, root, 2);
    forall i | 0 <= i < 512
      ensures StrayWord(codePages, At(m, from)[i], 1024 + i, false) && At(m, from)[i].frame == 1024 + i {
    }
    LostIs(codePages, m, root);
    forall f: nat | Hole(f) ensures f in Stray(codePages, m, from, 2, 512, false) {
      assert At(m, from)[f - 1024].frame == f;
    }
    assert StraysDistinct(codePages, m, from, 2, 512, false);
    assert StrayWord(codePages, At(m, from)[0], 1024, false);
  }

  lemma LostIs(codePages: nat, m: Mem, a: nat)
    ensures Present(At(m, PdOf(m, a))[2]) ==>
              Lost(codePages, m, a, HighTable) == Stray(codePages, m, PtOf(m, a, 2), 2, 512, false)
  {
  }
}
