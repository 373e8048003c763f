/** Ownership of physical frames by address spaces, and what every operation on them keeps.

    Each address space (root table) has private tables at the positions [], [0], [0,0], [0,0,2] and
    [0,0,3] of its walk: its PML4, the PDPT and PD on the way to the user window
    0x400000..0x800000, and the two page tables of that window.  It also owns the frames its
    window maps as present, user and not shared.  Everything else is shared between roots. */
module Spaces {
  import opened Common
  import opened PageTables
  import opened Mapping

  /** is_shared_user_page, of a virtual address; codePages is the page count of the init image. */
  predicate SharedPage(codePages: nat, virt: nat) {
    (0x400000 <= virt < 0x400000 + codePages) || (0x44F000 <= virt < 0x450000)
  }

  predicate Spine(q: Path) {
    q == [] || q == [0] || q == [0, 0] || q == [0, 0, 2] || q == [0, 0, 3]
  }

  predicate WindowLeaf(q: Path) {
    |q| == 4 && (q[..3] == [0, 0, 2] || q[..3] == [0, 0, 3])
  }

  function PageOf(q: Path): nat
    requires |q| == 4
  {
    q[2] * 512 + q[3]
  }

  /** A word that makes its space own the frame it maps. */
  predicate OwnedWord(codePages: nat, e: Entry, vp: nat) {
    Present(e) && User(e) && !SharedPage(codePages, vp * 4096)
  }

  /** The space at root owns the frame at position q. */
  predicate OwnsAt(codePages: nat, m: Mem, root: nat, q: Path) {
    || (Spine(q) && TableAt(m, root, q).Some?)
    || (WindowLeaf(q) && OwnedWord(codePages, Link(m, root, q), PageOf(q)))
  }

  lemma OwnedHasFrame(codePages: nat, m: Mem, root: nat, q: Path)
    requires OwnsAt(codePages, m, root, q)
    ensures TableAt(m, root, q).Some?
  {
  }

  /** Physical memory, the free frames, the live roots, the table frames shared between roots, and
      who owns which frame. */
  datatype World = World(codePages: nat, mem: Mem, free: set<nat>, roots: set<nat>, shared: set<nat>,
                         owner: map<nat, (nat, Path)>)

  ghost predicate Ledgered(w: World) {
    && (forall r, q :: r in w.roots && OwnsAt(w.codePages, w.mem, r, q)
                       ==> OwnedBy(w, TableAt(w.mem, r, q), r, q))
    && (forall f :: f in w.owner ==> Backed(w, f))
  }

  ghost predicate OwnedBy(w: World, f: Option<nat>, r: nat, q: Path) {
    f.Some? && f.value in w.owner && w.owner[f.value] == (r, q)
  }

  ghost predicate Backed(w: World, f: nat)
    requires f in w.owner
  {
    var (r, q) := w.owner[f];
    r in w.roots && OwnsAt(w.codePages, w.mem, r, q) && TableAt(w.mem, r, q) == Some(f)
  }

  /** What every root satisfies: a proper tree, a present spine, tables off the spine all shared, and
      rights decided by the leaves. */
  ghost predicate GoodRoot(w: World, r: nat) {
    && Tree(w.mem, r)
    && TableAt(w.mem, r, [0, 0]).Some?
    && (forall q :: |q| <= 3 && !Spine(q) && TableAt(w.mem, r, q).Some? ==> TableAt(w.mem, r, q).value in w.shared)
    && RightsKept(w.mem, r)
  }

  ghost predicate Inv(w: World) {
    && Ledgered(w)
    && (forall r :: r in w.roots ==> GoodRoot(w, r))
    && w.free !! w.owner.Keys
    && w.shared !! w.free
    && w.shared !! w.owner.Keys
  }

  /** m' agrees with m on the whole walk of root. */
  ghost predicate SameWalk(m: Mem, m': Mem, root: nat) {
    forall q :: |q| <= 4 ==> TableAt(m', root, q) == TableAt(m, root, q)
                             && (q != [] ==> Link(m', root, q) == Link(m, root, q))
  }

  lemma NotFree(w: World, r: nat)
    requires Inv(w) && r in w.roots
    ensures Tidy(w.mem, w.free, r)
  {
    forall q: Path | |q| <= 3 && TableAt(w.mem, r, q).Some? ensures TableAt(w.mem, r, q).value !in w.free {
      if Spine(q) {
        assert OwnsAt(w.codePages, w.mem, r, q);
        assert OwnedBy(w, TableAt(w.mem, r, q), r, q);
      }
    }
  }

  /** Writing only frames that are free, or owned by r, changes no walk and no owned page of another root. */
  lemma OtherRoots(w: World, m': Mem, r: nat, s: nat)
    requires Inv(w) && s in w.roots && s != r
    requires forall f :: f !in w.free && !(f in w.owner && w.owner[f].0 == r) ==> At(m', f) == At(w.mem, f)
    ensures SameWalk(w.mem, m', s)
    ensures forall f :: f in w.owner && w.owner[f].0 == s ==> At(m', f) == At(w.mem, f)
  {
    forall q: Path | |q| <= 3 && TableAt(w.mem, s, q).Some?
      ensures At(m', TableAt(w.mem, s, q).value) == At(w.mem, TableAt(w.mem, s, q).value)
    {
      if Spine(q) {
        assert OwnsAt(w.codePages, w.mem, s, q);
        assert OwnedBy(w, TableAt(w.mem, s, q), s, q);
      }
    }
    forall q: Path | |q| <= 4
      ensures TableAt(m', s, q) == TableAt(w.mem, s, q) && (q != [] ==> Link(m', s, q) == Link(w.mem, s, q))
    {
      SameTables(w.mem, m', s, q);
    }
  }

  // ---------------------------------------------------------------- mapping a page of the window

  predicate Window(vp: nat) {
    0x400 <= vp < 0x800
  }

  lemma WindowIndices(vp: nat)
    requires Window(vp)
    ensures Indices(vp) == [0, 0, vp / 512, vp % 512] && WindowLeaf(Indices(vp)) && PageOf(Indices(vp)) == vp
    ensures Indices(vp)[..0] == [] && Indices(vp)[..1] == [0] && Indices(vp)[..2] == [0, 0]
    ensures Indices(vp)[..3] == [0, 0, vp / 512] && Spine(Indices(vp)[..3])
  {
    assert vp / 512 == 2 || vp / 512 == 3;
    assert vp / 0x8000000 == 0 && vp / 0x40000 == 0;
  }

  /** The ledger after page vp of r maps word e: a frame the page owned before is no longer owned, a
      page table linked on the way is, and so is the frame of e if the page is of the owned kind. */
  function OwnerAfterMap(w: World, m': Mem, r: nat, vp: nat, e: Entry): map<nat, (nat, Path)> {
    var x, was := Indices(vp), Leaf(w.mem, r, vp);
    var dropped := if OwnedWord(w.codePages, was, vp) then w.owner - {was.frame} else w.owner;
    var linked := if Present(Link(w.mem, r, x[..3])) then dropped
                  else dropped[Link(m', r, x[..3]).frame := (r, x[..3])];
    if OwnedWord(w.codePages, e, vp) then linked[e.frame := (r, x)] else linked
  }

  function AfterMap(w: World, m': Mem, free': set<nat>, r: nat, vp: nat, e: Entry): World {
    w.(mem := m', free := free', owner := OwnerAfterMap(w, m', r, vp, e))
  }

  /** e does not make vp own a frame that is free, shared or owned elsewhere. */
  ghost predicate Mappable(w: World, r: nat, vp: nat, e: Entry) {
    OwnedWord(w.codePages, e, vp)
    ==> e.frame !in w.free && e.frame !in w.shared && (e.frame in w.owner ==> w.owner[e.frame] == (r, Indices(vp)))
  }

  lemma SpinePresent(w: World, r: nat)
    requires Inv(w) && r in w.roots
    ensures Present(Link(w.mem, r, [0, 0])) && Present(Link(w.mem, r, [0]))
  {
    hide Tree, RightsKept, Ledgered;
    assert GoodRoot(w, r);
    assert Init([0, 0]) == [0];
  }

  /** On the walk of r, mapping a window page keeps every table and adds at most the page table. */
  lemma MapTables(w: World, m': Mem, free': set<nat>, r: nat, vp: nat, e: Entry)
    requires Inv(w) && r in w.roots && Window(vp) && Mapped(w.mem, w.free, m', free', r, vp, e)
    ensures var y := Indices(vp)[..3];
            && (forall q :: |q| <= 3 && q != y ==> TableAt(m', r, q) == TableAt(w.mem, r, q))
            && TableAt(m', r, y) == Some(Link(m', r, y).frame)
            && (TableAt(w.mem, r, y).Some? <==> Present(Link(w.mem, r, y)))
            && (if Present(Link(w.mem, r, y)) then TableAt(m', r, y) == TableAt(w.mem, r, y) && free' == w.free
                else Link(m', r, y).frame in w.free && free' == w.free - {Link(m', r, y).frame})
  {
    hide Tree, Avoids, RightsKept, Ledgered, Outside, GoodRoot;
    WindowIndices(vp);
    var x := Indices(vp);
    SpinePresent(w, r);
    assert Kept(Link(w.mem, r, x[..1]), Link(m', r, x[..1]), w.free);
    assert Kept(Link(w.mem, r, x[..2]), Link(m', r, x[..2]), w.free);
    assert Kept(Link(w.mem, r, x[..3]), Link(m', r, x[..3]), w.free);
    assert NewTables(w.mem, m', r, x, 3)
        == if Present(Link(w.mem, r, x[..3])) then {} else {Link(m', r, x[..3]).frame};
    forall q: Path | |q| <= 3 && q != x[..3] ensures TableAt(m', r, q) == TableAt(w.mem, r, q) {
      if q <= x {
        assert q == x[..|q|];
      }
    }
  }

  lemma MapTouches(w: World, m': Mem, free': set<nat>, r: nat, vp: nat, e: Entry, f: nat)
    requires Inv(w) && r in w.roots && Window(vp) && Mapped(w.mem, w.free, m', free', r, vp, e)
    requires f !in w.free && !(f in w.owner && w.owner[f].0 == r)
    ensures At(m', f) == At(w.mem, f)
  {
    hide Tree, Avoids, RightsKept, Ledgered, GoodRoot, Link, TableAt, Words, NewTables;
    var x := Indices(vp);
    WindowIndices(vp);
    forall j | 0 <= j < 4 ensures TableAt(w.mem, r, x[..j]) != Some(f) {
      assert Spine(x[..j]);
      if TableAt(w.mem, r, x[..j]).Some? {
        OldOwner(w, r, x[..j]);
      }
    }
  }

  lemma MapOthers(w: World, m': Mem, free': set<nat>, r: nat, vp: nat, e: Entry, s: nat)
    requires Inv(w) && r in w.roots && Window(vp) && Mapped(w.mem, w.free, m', free', r, vp, e)
    requires s in w.roots && s != r
    ensures SameWalk(w.mem, m', s)
    ensures forall f :: f in w.owner && w.owner[f].0 == s ==> At(m', f) == At(w.mem, f)
  {
    forall f | f !in w.free && !(f in w.owner && w.owner[f].0 == r) ensures At(m', f) == At(w.mem, f) {
      MapTouches(w, m', free', r, vp, e, f);
    }
    OtherRoots(w, m', r, s);
  }

  lemma GoodRootSame(w: World, w': World, s: nat)
    requires GoodRoot(w, s) && SameWalk(w.mem, w'.mem, s) && w'.shared == w.shared
    ensures GoodRoot(w', s)
  {
    forall q: Path | |q| == 4 && Present(Link(w'.mem, s, q)) && User(Link(w'.mem, s, q))
      ensures EffectiveUser(w'.mem, s, q)
    {
      SameUser(w.mem, w'.mem, s, q);
    }
  }

  lemma {:induction false} SameUser(m: Mem, m': Mem, s: nat, q: Path)
    requires SameWalk(m, m', s) && |q| <= 4
    ensures EffectiveUser(m', s, q) == EffectiveUser(m, s, q)
    decreases |q|
  {
    if q != [] {
      SameUser(m, m', s, Init(q));
    }
  }

  lemma MapGoodRoot(w: World, m': Mem, free': set<nat>, r: nat, vp: nat, e: Entry)
    requires Inv(w) && r in w.roots && Window(vp) && Mapped(w.mem, w.free, m', free', r, vp, e)
    ensures GoodRoot(AfterMap(w, m', free', r, vp, e), r)
  {
    hide Tree, RightsKept, Ledgered, Outside, OwnerAfterMap;
    MapTables(w, m', free', r, vp, e);
    WindowIndices(vp);
    assert GoodRoot(w, r);
  }

  /** What r owns after the call, position by position. */
  lemma MapOwns(w: World, m': Mem, free': set<nat>, r: nat, vp: nat, e: Entry, q: Path)
    requires Inv(w) && r in w.roots && Window(vp) && Mapped(w.mem, w.free, m', free', r, vp, e)
    ensures q == Indices(vp) ==> (OwnsAt(w.codePages, m', r, q) <==> OwnedWord(w.codePages, e, vp))
                                 && (Present(e) ==> TableAt(m', r, q) == Some(e.frame))
    ensures q == Indices(vp)[..3] ==> OwnsAt(w.codePages, m', r, q) && TableAt(m', r, q) == Some(Link(m', r, q).frame)
    ensures q != Indices(vp) && q != Indices(vp)[..3]
            ==> (OwnsAt(w.codePages, m', r, q) <==> OwnsAt(w.codePages, w.mem, r, q))
                && (|q| <= 4 ==> TableAt(m', r, q) == TableAt(w.mem, r, q))
    ensures OwnsAt(w.codePages, m', r, q) || OwnsAt(w.codePages, w.mem, r, q) ==> |q| <= 4
  {
    hide Tree, Avoids, RightsKept, Ledgered, Outside, NewTables;
    MapTables(w, m', free', r, vp, e);
    WindowIndices(vp);
    var x := Indices(vp);
    if |q| == 4 && q != x {
      assert !(q <= x);
      assert Link(m', r, q) == Link(w.mem, r, q);
    }
  }

  lemma OldLeaf(w: World, r: nat, vp: nat)
    requires Inv(w) && r in w.roots && Window(vp) && OwnedWord(w.codePages, Leaf(w.mem, r, vp), vp)
    ensures OwnedBy(w, Some(Leaf(w.mem, r, vp).frame), r, Indices(vp))
  {
    WindowIndices(vp);
    assert OwnsAt(w.codePages, w.mem, r, Indices(vp));
  }

  lemma OldOwner(w: World, r: nat, q: Path)
    requires Inv(w) && r in w.roots && OwnsAt(w.codePages, w.mem, r, q)
    ensures OwnedBy(w, TableAt(w.mem, r, q), r, q)
  {
  }

  lemma MapOwned(w: World, m': Mem, free': set<nat>, r: nat, vp: nat, e: Entry, q: Path)
    requires Inv(w) && r in w.roots && Window(vp) && Mapped(w.mem, w.free, m', free', r, vp, e)
    requires Mappable(w, r, vp, e) && OwnsAt(w.codePages, m', r, q)
    ensures OwnedBy(AfterMap(w, m', free', r, vp, e), TableAt(m', r, q), r, q)
  {
    hide Link, TableAt, Mapped, Ledgered, GoodRoot, OwnsAt, OwnedWord, Leaf, Indices, Window;
    MapTables(w, m', free', r, vp, e);
    MapOwns(w, m', free', r, vp, e, q);
    WindowIndices(vp);
    var x := Indices(vp);
    if q == x[..3] {
      if Present(Link(w.mem, r, q)) {
        OwnsSpine(w, r, q);
        OldOwner(w, r, q);
      }
    } else if q != x {
      OldOwner(w, r, q);
    }
    if OwnedWord(w.codePages, Leaf(w.mem, r, vp), vp) {
      OldLeaf(w, r, vp);
    }
    if OwnedWord(w.codePages, e, vp) {
      OwnedPresent(w.codePages, e, vp);
    }
  }

  lemma OwnedPresent(codePages: nat, e: Entry, vp: nat)
    requires OwnedWord(codePages, e, vp)
    ensures Present(e)
  {
  }

  lemma OwnsSpine(w: World, r: nat, q: Path)
    requires q != [] && Spine(q) && Present(Link(w.mem, r, q))
    ensures OwnsAt(w.codePages, w.mem, r, q) && TableAt(w.mem, r, q) == Some(Link(w.mem, r, q).frame)
  {
  }

  lemma MapBacked(w: World, m': Mem, free': set<nat>, r: nat, vp: nat, e: Entry, f: nat)
    requires Inv(w) && r in w.roots && Window(vp) && Mapped(w.mem, w.free, m', free', r, vp, e)
    requires Mappable(w, r, vp, e)
    requires f in AfterMap(w, m', free', r, vp, e).owner && AfterMap(w, m', free', r, vp, e).owner[f].0 == r
    ensures Backed(AfterMap(w, m', free', r, vp, e), f)
  {
    hide Link, TableAt, Mapped, Ledgered, GoodRoot, OwnsAt, OwnedWord, Leaf, Indices, Window;
    var q := AfterMap(w, m', free', r, vp, e).owner[f].1;
    MapTables(w, m', free', r, vp, e);
    MapOwns(w, m', free', r, vp, e, q);
    WindowIndices(vp);
    if f in w.owner {
      OldBacked(w, f);
    }
    if OwnedWord(w.codePages, Leaf(w.mem, r, vp), vp) {
      OldLeaf(w, r, vp);
    }
    if OwnedWord(w.codePages, e, vp) {
      OwnedPresent(w.codePages, e, vp);
    }
    if q == Indices(vp) && f in w.owner {
      OwnsLeaf(w, r, vp);
    }
  }

  lemma OldBacked(w: World, f: nat)
    requires Inv(w) && f in w.owner
    ensures Backed(w, f)
  {
  }

  lemma OwnsLeaf(w: World, r: nat, vp: nat)
    requires Window(vp)
    ensures OwnsAt(w.codePages, w.mem, r, Indices(vp)) <==> OwnedWord(w.codePages, Leaf(w.mem, r, vp), vp)
    ensures OwnsAt(w.codePages, w.mem, r, Indices(vp)) ==>
              TableAt(w.mem, r, Indices(vp)) == Some(Leaf(w.mem, r, vp).frame)
  {
    WindowIndices(vp);
  }

  /** The part of the invariant about one root carries over to the rest: if only r's walk changed and
      the ledger changed only in r's frames, the ledger stays right for every root. */
  lemma Relabel(w: World, w': World, r: nat)
    requires Inv(w) && w'.codePages == w.codePages && w'.roots - {r} == w.roots - {r}
    requires forall s :: s in w.roots && s != r ==> SameWalk(w.mem, w'.mem, s)
    requires forall q :: r in w'.roots && OwnsAt(w.codePages, w'.mem, r, q) ==> OwnedBy(w', TableAt(w'.mem, r, q), r, q)
    requires forall f :: f in w'.owner && w'.owner[f].0 == r ==> Backed(w', f)
    requires forall f :: f in w.owner && w.owner[f].0 != r ==> f in w'.owner && w'.owner[f] == w.owner[f]
    requires forall f :: f in w'.owner && w'.owner[f].0 != r ==> f in w.owner && w'.owner[f] == w.owner[f]
    ensures Ledgered(w')
  {
    hide Link, TableAt, OwnsAt, GoodRoot, SameWalk;
    forall s, q | s in w'.roots && OwnsAt(w'.codePages, w'.mem, s, q) ensures OwnedBy(w', TableAt(w'.mem, s, q), s, q) {
      if s != r {
        assert s in w'.roots - {r};
        OwnsSame(w.codePages, w.mem, w'.mem, s, q);
        OldOwner(w, s, q);
      }
    }
    forall f | f in w'.owner ensures Backed(w', f) {
      if w'.owner[f].0 != r {
        OldBacked(w, f);
        assert w.owner[f].0 in w.roots - {r};
        OwnsSame(w.codePages, w.mem, w'.mem, w.owner[f].0, w.owner[f].1);
      }
    }
  }

  lemma OwnsSame(codePages: nat, m: Mem, m': Mem, s: nat, q: Path)
    requires SameWalk(m, m', s)
    ensures OwnsAt(codePages, m', s, q) <==> OwnsAt(codePages, m, s, q)
    ensures OwnsAt(codePages, m, s, q) ==> TableAt(m', s, q) == TableAt(m, s, q)
  {
  }

  lemma MapElsewhere(w: World, m': Mem, free': set<nat>, r: nat, vp: nat, e: Entry)
    requires Inv(w) && r in w.roots && Window(vp) && Mapped(w.mem, w.free, m', free', r, vp, e)
    requires Mappable(w, r, vp, e)
    ensures var o := OwnerAfterMap(w, m', r, vp, e);
            && (forall f :: f in w.owner && w.owner[f].0 != r ==> f in o && o[f] == w.owner[f])
            && (forall f :: f in o && o[f].0 != r ==> f in w.owner && o[f] == w.owner[f])
            && free' !! o.Keys && w.shared !! o.Keys
  {
    hide Link, TableAt, Mapped, Ledgered, GoodRoot, OwnsAt, OwnedWord, Leaf, Indices, Window;
    MapTables(w, m', free', r, vp, e);
    if OwnedWord(w.codePages, Leaf(w.mem, r, vp), vp) {
      OldLeaf(w, r, vp);
    }
  }

  /** Mapping a page of the window of one root keeps the invariant. */
  lemma MapKeepsInv(w: World, m': Mem, free': set<nat>, r: nat, vp: nat, e: Entry)
    requires Inv(w) && r in w.roots && Window(vp) && Mapped(w.mem, w.free, m', free', r, vp, e)
    requires Mappable(w, r, vp, e)
    ensures Inv(AfterMap(w, m', free', r, vp, e))
  {
    hide Link, TableAt, Mapped, Ledgered, GoodRoot, OwnsAt, OwnerAfterMap, SameWalk, Backed, OwnedBy, Mappable, Window;
    var w' := AfterMap(w, m', free', r, vp, e);
    forall s | s in w'.roots && s != r ensures SameWalk(w.mem, m', s) && GoodRoot(w', s) {
      MapOthers(w, m', free', r, vp, e, s);
      GoodRootSame(w, w', s);
    }
    forall q | OwnsAt(w.codePages, m', r, q) ensures OwnedBy(w', TableAt(m', r, q), r, q) {
      MapOwned(w, m', free', r, vp, e, q);
    }
    forall f | f in w'.owner && w'.owner[f].0 == r ensures Backed(w', f) {
      MapBacked(w, m', free', r, vp, e, f);
    }
    MapElsewhere(w, m', free', r, vp, e);
    Relabel(w, w', r);
    MapGoodRoot(w, m', free', r, vp, e);
    MapTables(w, m', free', r, vp, e);
  }

  // ---------------------------------------------------------------- conservation, one step at a time

  /** The frames accounted for: free, or owned by some space. */
  ghost function Accounted(w: World): set<nat> {
    w.free + w.owner.Keys
  }

  lemma TakeFrame(w: World, f: nat)
    requires Inv(w)
    ensures Inv(w.(free := w.free - {f}))
  {
    hide Link, TableAt, OwnsAt, Tree, RightsKept;
    var w' := w.(free := w.free - {f});
    forall g | g in w'.owner ensures Backed(w', g) {
      OldBacked(w, g);
    }
    forall r | r in w'.roots ensures GoodRoot(w', r) {
      assert GoodRoot(w, r);
    }
  }

  lemma MapAccounts(w: World, m': Mem, free': set<nat>, r: nat, vp: nat, e: Entry)
    requires Inv(w) && r in w.roots && Window(vp) && Mapped(w.mem, w.free, m', free', r, vp, e) && Mappable(w, r, vp, e)
    ensures var was := Leaf(w.mem, r, vp);
            Accounted(AfterMap(w, m', free', r, vp, e))
            == Accounted(w) - (if OwnedWord(w.codePages, was, vp) then {was.frame} else {})
               + (if OwnedWord(w.codePages, e, vp) then {e.frame} else {})
  {
    hide Link, TableAt, Mapped, Ledgered, GoodRoot, OwnsAt, OwnedWord, Leaf, Indices, Window;
    MapTables(w, m', free', r, vp, e);
    if OwnedWord(w.codePages, Leaf(w.mem, r, vp), vp) {
      OldLeaf(w, r, vp);
    }
  }
}
