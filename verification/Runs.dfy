/** Whole runs over address spaces: any interleaving of creating and freeing spaces, mapping,
    unmapping, allocating and freeing window pages, user stores, and kernel work elsewhere. */
module Runs {
  import opened Common
  import Frames
  import opened PageTables
  import opened Mapping
  import opened Spaces
  import opened Fork
  import opened Drop

  datatype Event =
    | MapPage(r: nat, vp: nat, e: Entry)   // kvmmap_at in the window
    | MapOutside(r: nat, vp: nat, e: Entry) // kvmmap_at outside the window
    | UnmapPage(r: nat, vp: nat)           // kvmunmap_at
    | AllocPage(r: nat, vp: nat, f: nat)   // kpalloc, then kvmmap_at with flags 0x07
    | FreePage(r: nat, vp: nat)            // kvmunmap_and_free_at
    | Create(a: nat, n: nat)               // kvmm_create_user_pml4 with a active
    | Destroy(r: nat)                      // kvmm_free_user_pml4
    | Store(r: nat, vp: nat, i: nat, e: Entry) // a user store into a page the space owns
    | Elsewhere                            // a creation that fails, or kernel work on other frames

  const USER_PAGE: bv12 := 0x07

  function AfterAlloc(w: World, m': Mem, free': set<nat>, r: nat, vp: nat, f: nat): World {
    AfterMap(w.(free := w.free - {f}), m', free', r, vp, Entry(f, USER_PAGE))
  }

  function AfterFree(w: World, m': Mem, r: nat, vp: nat): World {
    AfterMap(w, m', w.free, r, vp, ZERO).(free := w.free + ({Leaf(w.mem, r, vp).frame} - {0}))
  }

  ghost predicate Allocated(w: World, w': World, r: nat, vp: nat, f: nat) {
    && f in w.free
    && Mapped(w.mem, w.free - {f}, w'.mem, w'.free, r, vp, Entry(f, USER_PAGE))
    && w' == AfterAlloc(w, w'.mem, w'.free, r, vp, f)
  }

  /** The frame is freed only if it is one the page owned. */
  predicate FreesItsOwn(w: World, r: nat, vp: nat) {
    var was := Leaf(w.mem, r, vp);
    was.frame != 0 <==> OwnedWord(w.codePages, was, vp)
  }

  ghost predicate Untouched(w: World, w': World) {
    && w' == w.(mem := w'.mem, free := w'.free)
    && (forall f :: f in w.owner || f in w.shared ==> At(w'.mem, f) == At(w.mem, f))
    && w'.free !! w.owner.Keys && w'.free !! w.shared
  }

  /** No frame in use that another space than r reaches or owns has changed. */
  ghost predicate OthersKept(w: World, m': Mem, r: nat) {
    forall s, f :: s in w.roots && s != r && f !in w.free && OnSpace(w, s, f) ==> At(m', f) == At(w.mem, f)
  }

  /** f is a table on the walk of space s, or a frame s owns. */
  ghost predicate OnSpace(w: World, s: nat, f: nat) {
    !OffWalk(w.mem, s, f) || (f in w.owner && w.owner[f].0 == s)
  }

  /** The tables linked by a mapping outside the window belong to no space: copies of the root share them. */
  function AfterOutside(w: World, m': Mem, free': set<nat>): World {
    w.(mem := m', free := free', shared := w.shared + (w.free - free'))
  }

  ghost predicate Step(w: World, w': World, ev: Event) {
    match ev
    case MapPage(r, vp, e) =>
      r in w.roots && Window(vp) && Mappable(w, r, vp, e)
      && Mapped(w.mem, w.free, w'.mem, w'.free, r, vp, e) && w' == AfterMap(w, w'.mem, w'.free, r, vp, e)
    case MapOutside(r, vp, e) =>
      r in w.roots && !Window(vp) && vp < PAGES && OthersKept(w, w'.mem, r)
      && Mapped(w.mem, w.free, w'.mem, w'.free, r, vp, e) && w' == AfterOutside(w, w'.mem, w'.free)
    case UnmapPage(r, vp) =>
      r in w.roots && Window(vp)
      && Mapped(w.mem, w.free, w'.mem, w.free, r, vp, ZERO) && w' == AfterMap(w, w'.mem, w.free, r, vp, ZERO)
    case AllocPage(r, vp, f) => r in w.roots && Window(vp) && Allocated(w, w', r, vp, f)
    case FreePage(r, vp) =>
      r in w.roots && Window(vp) && FreesItsOwn(w, r, vp)
      && Mapped(w.mem, w.free, w'.mem, w.free, r, vp, ZERO) && w' == AfterFree(w, w'.mem, r, vp)
    case Create(a, n) =>
      a in w.roots && n in w.free && Forked(w.codePages, w.mem, w.free, w'.mem, w'.free, a, n)
      && w' == AfterFork(w, w'.mem, w'.free, n)
    case Destroy(r) => r in w.roots && w' == AfterDrop(w, r)
    case Store(r, vp, i, e) =>
      r in w.roots && Window(vp) && i < 512 && OwnedWord(w.codePages, Leaf(w.mem, r, vp), vp)
      && w' == w.(mem := Put(w.mem, Leaf(w.mem, r, vp).frame, i, e))
    case Elsewhere => Untouched(w, w')
  }

  /** The one address space an event works on, if any. */
  predicate WorksOn(ev: Event, s: nat) {
    match ev
    case Create(_, n) => n == s
    case Elsewhere => false
    case _ => ev.r == s
  }

  // ---------------------------------------------------------------- one step

  lemma ZeroOwnsNothing(codePages: nat, vp: nat)
    ensures !OwnedWord(codePages, ZERO, vp)
  {
  }

  lemma FrameWrites(w: World, m': Mem, r: nat)
    requires Inv(w)
    requires forall f :: f in w.owner && Spine(w.owner[f].1) ==> At(m', f) == At(w.mem, f)
    requires forall f :: f in w.shared ==> At(m', f) == At(w.mem, f)
    requires r in w.roots
    ensures SameWalk(w.mem, m', r)
  {
    hide Tree, RightsKept;
    forall q: Path | |q| <= 3 && TableAt(w.mem, r, q).Some?
      ensures At(m', TableAt(w.mem, r, q).value) == At(w.mem, TableAt(w.mem, r, q).value)
    {
      assert GoodRoot(w, r);
      if Spine(q) {
        OldOwner(w, r, q);
      }
    }
    forall q: Path | |q| <= 4
      ensures TableAt(m', r, q) == TableAt(w.mem, r, q) && (q != [] ==> Link(m', r, q) == Link(w.mem, r, q))
    {
      SameTables(w.mem, m', r, q);
    }
  }

  /** Rewriting frames that are no table of any space keeps the invariant. */
  lemma TablesIntact(w: World, w': World)
    requires Inv(w) && w' == w.(mem := w'.mem, free := w'.free)
    requires forall f :: f in w.owner && Spine(w.owner[f].1) ==> At(w'.mem, f) == At(w.mem, f)
    requires forall f :: f in w.shared ==> At(w'.mem, f) == At(w.mem, f)
    requires w'.free !! w.owner.Keys && w'.free !! w.shared
    ensures Inv(w') && forall s :: s in w.roots ==> SameWalk(w.mem, w'.mem, s)
  {
    hide Link, TableAt, OwnsAt, Ledgered, GoodRoot, SameWalk, Spine;
    forall s | s in w.roots ensures SameWalk(w.mem, w'.mem, s) && GoodRoot(w', s) {
      FrameWrites(w, w'.mem, s);
      GoodRootSame(w, w', s);
    }
    LedgerSame(w, w');
  }

  /** A creation that gave up, having written free frames only and freed `lost` besides what it took: the
      invariant holds if and only if it freed no frame of a space and no shared table, and then the failure is a
      step like any other. */
  lemma GaveUp(w: World, m': Mem, lost: set<nat>)
    requires Inv(w) && forall f :: f !in w.free ==> At(m', f) == At(w.mem, f)
    ensures var w' := w.(mem := m', free := w.free + lost);
            (Inv(w') <==> lost !! w.owner.Keys + w.shared) && (Inv(w') ==> Step(w, w', Elsewhere))
  {
    hide Ledgered, GoodRoot;
    var w' := w.(mem := m', free := w.free + lost);
    if lost !! w.owner.Keys + w.shared {
      TablesIntact(w, w');
    }
  }

  lemma LedgerSame(w: World, w': World)
    requires Inv(w) && w' == w.(mem := w'.mem, free := w'.free)
    requires forall s :: s in w.roots ==> SameWalk(w.mem, w'.mem, s)
    ensures Ledgered(w')
  {
    hide Link, TableAt, OwnsAt, GoodRoot, SameWalk;
    forall s, q | s in w'.roots && OwnsAt(w'.codePages, w'.mem, s, q) ensures OwnedBy(w', TableAt(w'.mem, s, q), s, q) {
      OwnsSame(w.codePages, w.mem, w'.mem, s, q);
      OldOwner(w, s, q);
    }
    forall f | f in w'.owner ensures Backed(w', f) {
      OldBacked(w, f);
      OwnsSame(w.codePages, w.mem, w'.mem, w.owner[f].0, w.owner[f].1);
    }
  }

  lemma StoreIntact(w: World, r: nat, vp: nat, i: nat, e: Entry)
    requires Inv(w) && r in w.roots && Window(vp) && i < 512 && OwnedWord(w.codePages, Leaf(w.mem, r, vp), vp)
    ensures var w' := w.(mem := Put(w.mem, Leaf(w.mem, r, vp).frame, i, e));
            Inv(w') && forall s :: s in w.roots ==> SameWalk(w.mem, w'.mem, s)
  {
    hide Link, TableAt, Ledgered, GoodRoot, SameWalk;
    OldLeaf(w, r, vp);
    TablesIntact(w, w.(mem := Put(w.mem, Leaf(w.mem, r, vp).frame, i, e)));
  }

  lemma AllocKeepsInv(w: World, w': World, r: nat, vp: nat, f: nat)
    requires Inv(w) && r in w.roots && Window(vp) && Allocated(w, w', r, vp, f)
    ensures Inv(w')
    ensures Accounted(w') == Accounted(w) - (if OwnedWord(w.codePages, Leaf(w.mem, r, vp),
                                                          vp) then {Leaf(w.mem, r, vp).frame} else {})
                             - (if SharedPage(w.codePages, vp * 4096) then {f} else {})
  {
    hide Link, TableAt, Ledgered, GoodRoot, Mapped, OwnerAfterMap, Leaf;
    var w1 := w.(free := w.free - {f});
    TakeFrame(w, f);
    assert Mappable(w1, r, vp, Entry(f, USER_PAGE));
    MapKeepsInv(w1, w'.mem, w'.free, r, vp, Entry(f, USER_PAGE));
    MapAccounts(w1, w'.mem, w'.free, r, vp, Entry(f, USER_PAGE));
    if OwnedWord(w.codePages, Leaf(w.mem, r, vp), vp) {
      OldLeaf(w, r, vp);
    }
    assert OwnedWord(w.codePages, Entry(f, USER_PAGE), vp) <==> !SharedPage(w.codePages, vp * 4096);
  }

  lemma UnmapKeepsInv(w: World, m': Mem, r: nat, vp: nat)
    requires Inv(w) && r in w.roots && Window(vp) && Mapped(w.mem, w.free, m', w.free, r, vp, ZERO)
    ensures var w1 := AfterMap(w, m', w.free, r, vp, ZERO);
            && Inv(w1) && w1.free == w.free && w1.shared == w.shared
            && w1.owner == if OwnedWord(w.codePages, Leaf(w.mem, r, vp),
                                        vp) then w.owner - {Leaf(w.mem, r, vp).frame} else w.owner
  {
    hide Link, TableAt, Ledgered, GoodRoot, Mapped, Leaf, Inv;
    ZeroOwnsNothing(w.codePages, vp);
    MapKeepsInv(w, m', w.free, r, vp, ZERO);
    SameOwner(w, m', r, vp);
  }

  lemma SameOwner(w: World, m': Mem, r: nat, vp: nat)
    requires Inv(w) && r in w.roots && Window(vp) && Mapped(w.mem, w.free, m', w.free, r, vp, ZERO)
    ensures OwnerAfterMap(w, m', r, vp, ZERO)
         == if OwnedWord(w.codePages, Leaf(w.mem, r, vp), vp) then w.owner - {Leaf(w.mem, r, vp).frame} else w.owner
  {
    hide Link, TableAt, Ledgered, GoodRoot, Mapped, Leaf;
    ZeroOwnsNothing(w.codePages, vp);
    MapTables(w, m', w.free, r, vp, ZERO);
  }

  lemma GrowFree(w: World, f: nat)
    requires Inv(w) && f !in w.owner && f !in w.shared
    ensures Inv(w.(free := w.free + {f}))
  {
    hide Link, TableAt, OwnsAt, Tree, RightsKept;
    var w' := w.(free := w.free + {f});
    forall g | g in w'.owner ensures Backed(w', g) {
      OldBacked(w, g);
    }
    forall r | r in w'.roots ensures GoodRoot(w', r) {
      assert GoodRoot(w, r);
    }
  }

  /** kvmunmap_and_free_at keeps the ledger balanced exactly when it clears an empty word or frees a
      frame the page owned.  It does not check either: a shared or kernel page upsets the balance. */
  lemma FreePageExact(w: World, m': Mem, r: nat, vp: nat)
    requires Inv(w) && r in w.roots && Window(vp) && Mapped(w.mem, w.free, m', w.free, r, vp, ZERO)
    requires 0 !in w.owner && Leaf(w.mem, r, vp).frame !in w.free
    ensures var w' := AfterFree(w, m', r, vp);
            Inv(w') && Accounted(w') == Accounted(w)
            <==> Leaf(w.mem, r, vp).frame == 0 || OwnedWord(w.codePages, Leaf(w.mem, r, vp), vp)
  {
    hide Link, TableAt, Ledgered, GoodRoot, Mapped, Leaf, OwnerAfterMap;
    var f := Leaf(w.mem, r, vp).frame;
    var w1 := AfterMap(w, m', w.free, r, vp, ZERO);
    UnmapKeepsInv(w, m', r, vp);
    if OwnedWord(w.codePages, Leaf(w.mem, r, vp), vp) {
      OldLeaf(w, r, vp);
      GrowFree(w1, f);
      assert {f} - {0} == {f};
      assert AfterFree(w, m', r, vp) == w1.(free := w1.free + {f});
    } else if f == 0 {
      assert AfterFree(w, m', r, vp) == w1;
    }
  }

  lemma FreeKeepsInv(w: World, m': Mem, r: nat, vp: nat)
    requires Inv(w) && r in w.roots && Window(vp) && Mapped(w.mem, w.free, m', w.free, r, vp, ZERO)
    requires FreesItsOwn(w, r, vp)
    ensures Inv(AfterFree(w, m', r, vp)) && Accounted(AfterFree(w, m', r, vp)) == Accounted(w)
  {
    hide Link, TableAt, Ledgered, GoodRoot, Mapped, Leaf, OwnerAfterMap;
    var f := Leaf(w.mem, r, vp).frame;
    var w1 := AfterMap(w, m', w.free, r, vp, ZERO);
    UnmapKeepsInv(w, m', r, vp);
    if OwnedWord(w.codePages, Leaf(w.mem, r, vp), vp) {
      OldLeaf(w, r, vp);
      GrowFree(w1, f);
      assert {f} - {0} == {f};
      assert AfterFree(w, m', r, vp) == w1.(free := w1.free + {f});
    } else {
      assert AfterFree(w, m', r, vp) == w1;
    }
  }

  // ---------------------------------------------------------------- mapping outside the window

  lemma OutsidePath(vp: nat, q: Path)
    requires !Window(vp) && vp < PAGES && q <= Indices(vp)
    ensures !WindowLeaf(q) && (Spine(q) ==> q == [] || q == [0] || q == [0, 0])
  {
    var x := Indices(vp);
    Digits(vp);
    assert !(x[0] == 0 && x[1] == 0 && (x[2] == 2 || x[2] == 3));
    assert |q| >= 3 ==> q[0] == x[0] && q[1] == x[1] && q[2] == x[2];
    assert |q| >= 3 ==> q[..3] == [q[0], q[1], q[2]];
  }

  /** The private positions of the mapped space are what they were. */
  lemma OutsideOwns(w: World, m': Mem, free': set<nat>, r: nat, vp: nat, e: Entry, q: Path)
    requires Inv(w) && r in w.roots && !Window(vp) && vp < PAGES && Mapped(w.mem, w.free, m', free', r, vp, e)
    requires Spine(q) || WindowLeaf(q)
    ensures TableAt(m', r, q) == TableAt(w.mem, r, q) && (WindowLeaf(q) ==> Link(m', r, q) == Link(w.mem, r, q))
    ensures OwnsAt(w.codePages, m', r, q) <==> OwnsAt(w.codePages, w.mem, r, q)
  {
    hide Ledgered, Tree, RightsKept, OwnedWord, Avoids;
    var x := Indices(vp);
    if q == [] {
      RootTable(w.mem, r);
      RootTable(m', r);
    } else {
      TableOfLink(w.mem, r, q);
      TableOfLink(m', r, q);
      if q <= x {
        OutsidePath(vp, q);
        assert q == x[..|q|];
        SpineThere(w, r, q);
        assert Kept(Link(w.mem, r, x[..|q|]), Link(m', r, x[..|q|]), w.free);
      }
    }
  }

  lemma SpineThere(w: World, r: nat, q: Path)
    requires Inv(w) && r in w.roots && (q == [0] || q == [0, 0])
    ensures Present(Link(w.mem, r, q))
  {
    hide Ledgered, Tree, RightsKept;
    assert GoodRoot(w, r);
    WalkUp(w.mem, r, [0, 0]);
    assert Init([0, 0]) == [0];
    TableOfLink(w.mem, r, [0, 0]);
    TableOfLink(w.mem, r, [0]);
  }

  lemma OutsideTables(w: World, m': Mem, free': set<nat>, r: nat, vp: nat, e: Entry, q: Path)
    requires Inv(w) && r in w.roots && !Window(vp) && vp < PAGES && Mapped(w.mem, w.free, m', free', r, vp, e)
    requires 0 < |q| <= 3 && !Spine(q) && TableAt(m', r, q).Some?
    ensures TableAt(m', r, q).value in w.shared + (w.free - free')
  {
    hide Ledgered, Tree, RightsKept, Avoids;
    assert GoodRoot(w, r);
    var x := Indices(vp);
    TableOfLink(w.mem, r, q);
    TableOfLink(m', r, q);
    if q <= x {
      var j := |q|;
      assert q == x[..j];
      assert Kept(Link(w.mem, r, x[..j]), Link(m', r, x[..j]), w.free);
      assert !Present(Link(w.mem, r, x[..j])) ==> Link(m', r, x[..j]).frame in NewTables(w.mem, m', r, x, 3);
    }
  }

  lemma OutsideGoodRoot(w: World, m': Mem, free': set<nat>, r: nat, vp: nat, e: Entry)
    requires Inv(w) && r in w.roots && !Window(vp) && vp < PAGES && Mapped(w.mem, w.free, m', free', r, vp, e)
    ensures GoodRoot(AfterOutside(w, m', free'), r)
  {
    hide Ledgered, Tree, RightsKept, Link, TableAt, Avoids, NewTables;
    assert GoodRoot(w, r);
    OutsideOwns(w, m', free', r, vp, e, [0, 0]);
    forall q: Path | |q| <= 3 && !Spine(q) && TableAt(m', r, q).Some?
      ensures TableAt(m', r, q).value in w.shared + (w.free - free')
    {
      OutsideTables(w, m', free', r, vp, e, q);
    }
  }

  lemma OutsideOthers(w: World, m': Mem, free': set<nat>, r: nat, s: nat)
    requires Inv(w) && r in w.roots && s in w.roots && s != r && OthersKept(w, m', r)
    ensures SameWalk(w.mem, m', s)
    ensures forall f :: f in w.owner && w.owner[f].0 == s ==> At(m', f) == At(w.mem, f)
    ensures GoodRoot(AfterOutside(w, m', free'), s)
  {
    hide Ledgered, Tree, RightsKept;
    forall q: Path | |q| <= 3 && TableAt(w.mem, s, q).Some?
      ensures At(m', TableAt(w.mem, s, q).value) == At(w.mem, TableAt(w.mem, s, q).value)
    {
      NotFreeAt(w, s, q);
      assert OnSpace(w, s, TableAt(w.mem, s, q).value);
    }
    forall q: Path | |q| <= 4
      ensures TableAt(m', s, q) == TableAt(w.mem, s, q) && (q != [] ==> Link(m', s, q) == Link(w.mem, s, q))
    {
      SameTables(w.mem, m', s, q);
    }
    forall f | f in w.owner && w.owner[f].0 == s ensures At(m', f) == At(w.mem, f) {
      assert OnSpace(w, s, f);
    }
    GoodRootSame(w, w.(mem := m'), s);
    assert GoodRoot(w.(mem := m'), s);
  }

  lemma NotFreeAt(w: World, s: nat, q: Path)
    requires Inv(w) && s in w.roots && |q| <= 3 && TableAt(w.mem, s, q).Some?
    ensures TableAt(w.mem, s, q).value !in w.free
  {
    hide Tree, RightsKept;
    assert GoodRoot(w, s);
    if Spine(q) {
      OldOwner(w, s, q);
    }
  }

  lemma OutsideKeepsInv(w: World, m': Mem, free': set<nat>, r: nat, vp: nat, e: Entry)
    requires Inv(w) && r in w.roots && !Window(vp) && vp < PAGES && Mapped(w.mem, w.free, m', free', r, vp, e)
    requires OthersKept(w, m', r)
    ensures Inv(AfterOutside(w, m', free')) && free' <= w.free
  {
    hide GoodRoot, Mapped, Link, TableAt, OwnsAt, SameWalk, OthersKept;
    var w' := AfterOutside(w, m', free');
    MappedFree(w.mem, w.free, m', free', r, vp, e);
    OutsideGoodRoot(w, m', free', r, vp, e);
    forall s | s in w.roots ensures GoodRoot(w', s) {
      if s != r {
        OutsideOthers(w, m', free', r, s);
      }
    }
    forall s, q | s in w.roots
      ensures OwnsAt(w.codePages, m', s, q) <==> OwnsAt(w.codePages, w.mem, s, q)
      ensures OwnsAt(w.codePages, w.mem, s, q) ==> TableAt(m', s, q) == TableAt(w.mem, s, q)
    {
      OutsideSame(w, m', free', r, vp, e, s, q);
    }
    assert Ledgered(w') by {
      forall s, q | s in w'.roots && OwnsAt(w'.codePages, m', s, q) ensures OwnedBy(w', TableAt(m', s, q), s, q) {
        OldOwner(w, s, q);
      }
      forall f | f in w'.owner ensures Backed(w', f) {
        OldBacked(w, f);
        var (s, q) := w.owner[f];
        OutsideSame(w, m', free', r, vp, e, s, q);
      }
    }
  }

  /** A word written into table t shows in the walk of space s exactly when t is one of its tables and the
      word is new.  So a device page mapped by one space shows in another exactly when they already share
      the table written, as they do after a copy. */
  lemma SharedWrite(m: Mem, s: nat, t: nat, i: nat, e: Entry)
    requires Tree(m, s) && i < 512
    ensures SameWalk(m, Put(m, t, i, e), s) <==> OffWalk(m, s, t) || At(m, t)[i] == e
  {
    var m' := Put(m, t, i, e);
    if OffWalk(m, s, t) || At(m, t)[i] == e {
      forall q: Path | |q| <= 4
        ensures TableAt(m', s, q) == TableAt(m, s, q) && (q != [] ==> Link(m', s, q) == Link(m, s, q))
      {
        SameTables(m, m', s, q);
      }
    } else {
      var q :| |q| <= 3 && TableAt(m, s, q) == Some(t);
      WriteHere(m, s, q, i, e);
      WalkDown(m, s, q, i);
      assert Link(m', s, q + [i]) != Link(m, s, q + [i]);
    }
  }

  ghost predicate OffWalk(m: Mem, s: nat, t: nat) {
    forall q :: |q| <= 3 ==> TableAt(m, s, q) != Some(t)
  }

  lemma MappedFree(m: Mem, free: set<nat>, m': Mem, free': set<nat>, r: nat, vp: nat, e: Entry)
    requires Mapped(m, free, m', free', r, vp, e)
    ensures free' <= free
  {
  }

  lemma OutsideSame(w: World, m': Mem, free': set<nat>, r: nat, vp: nat, e: Entry, s: nat, q: Path)
    requires Inv(w) && r in w.roots && !Window(vp) && vp < PAGES && Mapped(w.mem, w.free, m', free', r, vp, e)
    requires OthersKept(w, m', r) && s in w.roots
    ensures OwnsAt(w.codePages, m', s, q) <==> OwnsAt(w.codePages, w.mem, s, q)
    ensures OwnsAt(w.codePages, w.mem, s, q) ==> TableAt(m', s, q) == TableAt(w.mem, s, q)
  {
    hide Inv, Mapped, Link, TableAt, OwnedWord, OthersKept;
    if Spine(q) || WindowLeaf(q) {
      if s == r {
        OutsideOwns(w, m', free', r, vp, e, q);
      } else {
        OutsideOthers(w, m', free', r, s);
        OwnsSame(w.codePages, w.mem, m', s, q);
      }
    }
  }

  /** Every step keeps the invariant. */
  lemma StepKeepsInv(w: World, w': World, ev: Event)
    requires Inv(w) && Step(w, w', ev)
    ensures Inv(w')
  {
    hide Inv, Mapped, Forked, AfterMap, AfterDrop, AfterFork, OwnedWord;
    match ev
    case MapPage(r, vp, e) => MapKeepsInv(w, w'.mem, w'.free, r, vp, e);
    case MapOutside(r, vp, e) => OutsideKeepsInv(w, w'.mem, w'.free, r, vp, e);
    case UnmapPage(r, vp) => UnmapKeepsInv(w, w'.mem, r, vp);
    case AllocPage(r, vp, f) => AllocKeepsInv(w, w', r, vp, f);
    case FreePage(r, vp) => FreeKeepsInv(w, w'.mem, r, vp);
    case Create(a, n) => ForkKeepsInv(w, w'.mem, w'.free, a, n);
    case Destroy(r) => DropKeepsInv(w, r);
    case Store(r, vp, i, e) => StoreIntact(w, r, vp, i, e);
    case Elsewhere => TablesIntact(w, w');
  }

  // ---------------------------------------------------------------- isolation

  /** Space s is the same in both worlds: its whole walk, the frames it owns, and their contents. */
  ghost predicate SameSpace(w: World, w': World, s: nat) {
    && SameWalk(w.mem, w'.mem, s)
    && (forall f :: f in w.owner && w.owner[f].0 == s ==>
           f in w'.owner && w'.owner[f] == w.owner[f] && At(w'.mem, f) == At(w.mem, f))
    && (forall f :: f in w'.owner && w'.owner[f].0 == s ==> f in w.owner && w.owner[f] == w'.owner[f])
  }

  lemma MapIsolated(w: World, m': Mem, free': set<nat>, r: nat, vp: nat, e: Entry, s: nat)
    requires Inv(w) && r in w.roots && Window(vp) && Mapped(w.mem, w.free, m', free', r, vp, e)
    requires Mappable(w, r, vp, e) && s in w.roots && s != r
    ensures SameSpace(w, AfterMap(w, m', free', r, vp, e), s)
  {
    hide SameWalk, Mapped, Inv, OwnerAfterMap, Mappable;
    MapOthers(w, m', free', r, vp, e, s);
    MapElsewhere(w, m', free', r, vp, e);
  }

  lemma CreateIsolated(w: World, w': World, a: nat, n: nat, s: nat)
    requires Inv(w) && Step(w, w', Create(a, n)) && s in w.roots
    ensures SameSpace(w, w', s) && s != n
  {
    hide SameWalk, Forked, Inv, AfterFork;
    NewRootIsNew(w, n);
    ForkOthers(w, w'.mem, w'.free, a, n, s);
    ForkOwned(w, w'.mem, w'.free, a, n);
    AfterForkFields(w, w'.mem, w'.free, n);
  }

  lemma DestroyIsolated(w: World, r: nat, s: nat)
    requires Inv(w) && r in w.roots && s in w.roots && s != r
    ensures SameSpace(w, AfterDrop(w, r), s)
  {
    hide Link, TableAt, OwnedFrames, Inv;
    forall f ensures f in OwnedFrames(w.codePages, w.mem, r) <==> f in w.owner && w.owner[f].0 == r {
      OwnedIsLedger(w, r, f);
    }
  }

  /** A step that does not work on space s leaves everything about s as it was. */
  lemma StepIsolated(w: World, w': World, ev: Event, s: nat)
    requires Inv(w) && Step(w, w', ev) && s in w.roots && !WorksOn(ev, s)
    ensures s in w'.roots && SameSpace(w, w', s)
  {
    hide Inv, Mapped, Forked, AfterFork, SameWalk, OwnerAfterMap, OwnedWord, Leaf, OwnedFrames;
    match ev
    case MapPage(r, vp, e) => MapIsolated(w, w'.mem, w'.free, r, vp, e, s);
    case MapOutside(r, vp, e) => OutsideOthers(w, w'.mem, w'.free, r, s);
    case UnmapPage(r, vp) =>
      ZeroOwnsNothing(w.codePages, vp);
      MapIsolated(w, w'.mem, w.free, r, vp, ZERO, s);
    case AllocPage(r, vp, f) =>
      TakeFrame(w, f);
      FreshMappable(w, r, vp, f);
      MapIsolated(w.(free := w.free - {f}), w'.mem, w'.free, r, vp, Entry(f, USER_PAGE), s);
    case FreePage(r, vp) =>
      ZeroOwnsNothing(w.codePages, vp);
      MapIsolated(w, w'.mem, w.free, r, vp, ZERO, s);
    case Create(a, n) =>
      CreateIsolated(w, w', a, n, s);
      AfterForkFields(w, w'.mem, w'.free, n);
    case Destroy(r) => DestroyIsolated(w, r, s);
    case Store(r, vp, i, e) =>
      StoreIntact(w, r, vp, i, e);
      OldLeaf(w, r, vp);
    case Elsewhere => TablesElsewhere(w, w');
  }

  lemma FreshMappable(w: World, r: nat, vp: nat, f: nat)
    requires Inv(w) && f in w.free
    ensures Mappable(w.(free := w.free - {f}), r, vp, Entry(f, USER_PAGE))
  {
    hide Ledgered, GoodRoot;
  }

  lemma TablesElsewhere(w: World, w': World)
    requires Inv(w) && Untouched(w, w')
    ensures forall s :: s in w.roots ==> SameWalk(w.mem, w'.mem, s)
  {
    hide Ledgered, GoodRoot, SameWalk;
    TablesIntact(w, w');
  }

  ghost predicate IsRun(ws: seq<World>, evs: seq<Event>) {
    |ws| == |evs| + 1 && Inv(ws[0]) && forall k :: 0 <= k < |evs| ==> Step(ws[k], ws[k + 1], evs[k])
  }

  lemma {:induction false} RunKeepsInv(ws: seq<World>, evs: seq<Event>, k: nat)
    requires IsRun(ws, evs) && k < |ws|
    ensures Inv(ws[k])
  {
    hide Inv, Step;
    if k > 0 {
      RunKeepsInv(ws, evs, k - 1);
      assert Step(ws[k - 1], ws[k - 1 + 1], evs[k - 1]);
      StepKeepsInv(ws[k - 1], ws[k], evs[k - 1]);
    }
  }

  /** Isolation over whole runs: while nothing works on space s, s is untouched, whatever happens to
      the other spaces. */
  lemma {:induction false} RunIsolated(ws: seq<World>, evs: seq<Event>, s: nat, k: nat)
    requires IsRun(ws, evs) && k < |ws| && s in ws[0].roots
    requires forall i :: 0 <= i < |evs| ==> !WorksOn(evs[i], s)
    ensures s in ws[k].roots && SameSpace(ws[0], ws[k], s)
  {
    hide Inv, Step, WorksOn, SameSpace;
    if k > 0 {
      RunIsolated(ws, evs, s, k - 1);
      RunKeepsInv(ws, evs, k - 1);
      assert Step(ws[k - 1], ws[k - 1 + 1], evs[k - 1]);
      StepIsolated(ws[k - 1], ws[k], evs[k - 1], s);
      SameTransitive(ws[0], ws[k - 1], ws[k], s);
    } else {
      SameReflexive(ws[0], s);
    }
  }

  lemma SameReflexive(w: World, s: nat)
    ensures SameSpace(w, w, s)
  {
  }

  lemma SameTransitive(w0: World, w1: World, w2: World, s: nat)
    requires SameSpace(w0, w1, s) && SameSpace(w1, w2, s)
    ensures SameSpace(w0, w2, s)
  {
    hide Link, TableAt;
  }

  /** In particular every virtual page of s translates to the same word with the same effective rights. */
  lemma RunTranslation(ws: seq<World>, evs: seq<Event>, s: nat, k: nat, vp: nat)
    requires IsRun(ws, evs) && k < |ws| && s in ws[0].roots
    requires forall i :: 0 <= i < |evs| ==> !WorksOn(evs[i], s)
    ensures Leaf(ws[k].mem, s, vp) == Leaf(ws[0].mem, s, vp)
    ensures Present(Leaf(ws[0].mem, s, vp))
            ==> (EffectiveUser(ws[k].mem, s, Indices(vp)) <==> User(Leaf(ws[0].mem, s, vp)))
    ensures Present(Leaf(ws[0].mem, s, vp))
            ==> (EffectiveWritable(ws[k].mem, s, Indices(vp)) <==> Writable(Leaf(ws[0].mem, s, vp)))
  {
    RunIsolated(ws, evs, s, k);
    RunKeepsInv(ws, evs, k);
    hide IsRun, Ledgered, Tree;
    assert GoodRoot(ws[k], s);
    if Present(Leaf(ws[k].mem, s, vp)) {
      RightsFromLeaf(ws[k].mem, s, vp);
    }
  }

  // ---------------------------------------------------------------- conservation

  /** Steps that lose no frame: an allocation lands on a page that is neither shared nor owned
      already, and a plain unmap does not hit an owned page. */
  predicate Conserving(w: World, ev: Event) {
    match ev
    case MapPage(r, vp, e) => !OwnedWord(w.codePages, Leaf(w.mem, r, vp), vp) && !OwnedWord(w.codePages, e, vp)
    case UnmapPage(r, vp) => !OwnedWord(w.codePages, Leaf(w.mem, r, vp), vp)
    case AllocPage(r, vp, _) => !OwnedWord(w.codePages, Leaf(w.mem, r, vp), vp) && !SharedPage(w.codePages, vp * 4096)
    case Elsewhere => false
    case MapOutside(_, _, _) => false
    case _ => true
  }

  lemma StepConserves(w: World, w': World, ev: Event)
    requires Inv(w) && Step(w, w', ev) && Conserving(w, ev)
    ensures Accounted(w') == Accounted(w)
  {
    hide Inv, Mapped, Forked, AfterFork, OwnedWord, Leaf;
    match ev
    case MapPage(r, vp, e) => MapAccounts(w, w'.mem, w'.free, r, vp, e);
    case UnmapPage(r, vp) =>
      ZeroOwnsNothing(w.codePages, vp);
      MapAccounts(w, w'.mem, w.free, r, vp, ZERO);
    case AllocPage(r, vp, f) => AllocKeepsInv(w, w', r, vp, f);
    case FreePage(r, vp) => FreeKeepsInv(w, w'.mem, r, vp);
    case Create(a, n) => ForkKeepsInv(w, w'.mem, w'.free, a, n);
    case Destroy(r) => DropKeepsInv(w, r);
    case Store(r, vp, i, e) =>
  }

  /** Conservation over whole runs, however many spaces are created, filled and freed in between. */
  lemma {:induction false} RunConserves(ws: seq<World>, evs: seq<Event>, k: nat)
    requires IsRun(ws, evs) && k < |ws|
    requires forall i :: 0 <= i < |evs| ==> Conserving(ws[i], evs[i])
    ensures Accounted(ws[k]) == Accounted(ws[0])
  {
    hide Inv, Step, Conserving, Accounted;
    if k > 0 {
      RunConserves(ws, evs, k - 1);
      RunKeepsInv(ws, evs, k - 1);
      assert Step(ws[k - 1], ws[k - 1 + 1], evs[k - 1]);
      StepConserves(ws[k - 1], ws[k], evs[k - 1]);
    }
  }

  /** The ledger of every space but r is untouched, so only r's frames come and go. */
  ghost predicate OthersSame(w: World, w': World, r: nat) {
    && (forall f :: f in w.owner && w.owner[f].0 != r ==> f in w'.owner && w'.owner[f] == w.owner[f])
    && (forall f :: f in w'.owner && w'.owner[f].0 != r ==> f in w.owner && w.owner[f] == w'.owner[f])
    && w'.roots - {r} == w.roots - {r}
  }

  lemma StepOthers(w: World, w': World, ev: Event, r: nat)
    requires Inv(w) && Step(w, w', ev) && WorksOn(ev, r)
    ensures OthersSame(w, w', r)
  {
    hide Inv, Mapped, Forked, AfterFork, OwnerAfterMap, OwnedWord, Leaf, OwnedFrames;
    match ev
    case MapPage(_, vp, e) => MapElsewhere(w, w'.mem, w'.free, r, vp, e);
    case UnmapPage(_, vp) =>
      ZeroOwnsNothing(w.codePages, vp);
      MapElsewhere(w, w'.mem, w.free, r, vp, ZERO);
    case AllocPage(_, vp, f) =>
      TakeFrame(w, f);
      FreshMappable(w, r, vp, f);
      MapElsewhere(w.(free := w.free - {f}), w'.mem, w'.free, r, vp, Entry(f, USER_PAGE));
    case FreePage(_, vp) =>
      ZeroOwnsNothing(w.codePages, vp);
      MapElsewhere(w, w'.mem, w.free, r, vp, ZERO);
    case Create(a, n) =>
      ForkOwned(w, w'.mem, w'.free, a, n);
      AfterForkFields(w, w'.mem, w'.free, n);
    case Destroy(_) =>
      forall f ensures f in OwnedFrames(w.codePages, w.mem, r) <==> f in w.owner && w.owner[f].0 == r {
        OwnedIsLedger(w, r, f);
      }
    case MapOutside(_, _, _) =>
    case Store(_, vp, i, e) =>
  }

  lemma {:induction false} RunOthers(ws: seq<World>, evs: seq<Event>, r: nat, k: nat)
    requires IsRun(ws, evs) && k < |ws| && forall i :: 0 <= i < |evs| ==> WorksOn(evs[i], r)
    ensures OthersSame(ws[0], ws[k], r)
  {
    hide Inv, Step, WorksOn;
    if k > 0 {
      RunOthers(ws, evs, r, k - 1);
      RunKeepsInv(ws, evs, k - 1);
      assert Step(ws[k - 1], ws[k - 1 + 1], evs[k - 1]);
      StepOthers(ws[k - 1], ws[k], evs[k - 1], r);
    }
  }

  /** Create a space, allocate, free and store in it any number of times, then free it: the frame
      bitmap is restored byte for byte, and no other space's ledger has changed. */
  lemma RoundTrip(ws: seq<World>, evs: seq<Event>, a: nat, n: nat, before: seq<bv8>, after: seq<bv8>)
    requires IsRun(ws, evs) && |evs| >= 2 && evs[0] == Create(a, n) && evs[|evs| - 1] == Destroy(n)
    requires forall i :: 0 <= i < |evs| ==> WorksOn(evs[i], n) && Conserving(ws[i], evs[i])
    requires |before| == |after| && Frames.FreeSet(before) == ws[0].free && Frames.FreeSet(after) == ws[|evs|].free
    ensures before == after && ws[|evs|].owner == ws[0].owner && ws[|evs|].roots == ws[0].roots
  {
    var last := |evs|;
    assert Step(ws[0], ws[0 + 1], evs[0]) && Step(ws[last - 1], ws[last - 1 + 1], evs[last - 1]);
    RunKeepsInv(ws, evs, last - 1);
    RunKeepsInv(ws, evs, last);
    NewRootIsNew(ws[0], n);
    NoneOwned(ws[0], n);
    RunConserves(ws, evs, last);
    RunOthers(ws, evs, n, last);
    DropKeepsInv(ws[last - 1], n);
    NoneOwned(ws[last], n);
    Rejoin(ws[0], ws[last], n);
    Frames.BitmapFromSet(before, after);
  }

  lemma NoneOwned(w: World, n: nat)
    requires Inv(w) && n !in w.roots
    ensures forall f :: f in w.owner ==> w.owner[f].0 != n
  {
    hide GoodRoot;
    forall f | f in w.owner ensures w.owner[f].0 != n {
      OldBacked(w, f);
    }
  }

  lemma Rejoin(w: World, w': World, n: nat)
    requires Inv(w) && Inv(w') && n !in w.roots && n !in w'.roots && OthersSame(w, w', n)
    requires Accounted(w') == Accounted(w)
    requires forall f :: f in w.owner ==> w.owner[f].0 != n
    requires forall f :: f in w'.owner ==> w'.owner[f].0 != n
    ensures w'.owner == w.owner && w'.roots == w.roots && w'.free == w.free
  {
    hide Ledgered, GoodRoot;
    assert w'.owner.Keys == w.owner.Keys;
    assert w'.roots == w'.roots - {n} && w.roots == w.roots - {n};
  }
}
