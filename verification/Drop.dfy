/** Freeing an address space (kvmm_free_user_pml4 in src/mm/vmm.c). */
module Drop {
  import opened Common
  import opened PageTables
  import opened Spaces
  import opened Fork
  import opened ForkCopy

  /** The frames the first n words of window page table t own. */
  function PageFrames(codePages: nat, m: Mem, t: nat, j: nat, n: nat): set<nat> {
    set i: nat | i < n && i < 512 && OwnedWord(codePages, At(m, t)[i], j * 512 + i) :: At(m, t)[i].frame
  }

  /** Page table j below directory c, with the pages it owns. */
  function TableFrames(codePages: nat, m: Mem, c: nat, j: nat): set<nat>
    requires j < 512
  {
    if Present(At(m, c)[j]) then {At(m, c)[j].frame} + PageFrames(codePages, m, At(m, c)[j].frame, j, 512) else {}
  }

  /** Every frame root owns is known to the ledger under its position, is in use and is a real frame. */
  ghost predicate Droppable(codePages: nat, m: Mem, root: nat, own: map<nat, Path>, free: set<nat>, limit: nat) {
    forall q :: OwnsAt(codePages, m, root, q) ==> HeldAs(TableAt(m, root, q), q, own, free, limit)
  }

  ghost predicate HeldAs(f: Option<nat>, q: Path, own: map<nat, Path>, free: set<nat>, limit: nat) {
    f.Some? && f.value in own && own[f.value] == q && f.value !in free && 0 < f.value < limit
  }

  lemma OwnedNone(codePages: nat, m: Mem, root: nat, q: Path)
    requires OwnsAt(codePages, m, root, q) && TableAt(m, root, [0, 0]).None?
    ensures q == [] || (q == [0] && TableAt(m, root, [0]).Some?)
  {
    if |q| > 2 {
      if WindowLeaf(q) {
        WindowLeafParts(q);
      }
      assert [0, 0] < q;
      NothingBelow(m, root, [0, 0], q);
    }
  }

  lemma SpineOf(m: Mem, root: nat)
    ensures TableAt(m, root, [0]) == if Present(At(m, root)[0]) then Some(PdptOf(m, root)) else None
    ensures Present(At(m, root)[0])
            ==> TableAt(m, root, [0, 0]) == if Present(At(m, PdptOf(m, root))[0]) then Some(PdOf(m, root)) else None
    ensures !Present(At(m, root)[0]) ==> TableAt(m, root, [0, 0]).None?
    ensures TableAt(m, root, [0, 0]).Some? ==>
              forall j: nat :: j < 512 ==> Link(m, root, [0, 0, j]) == At(m, PdOf(m, root))[j]
  {
    RootWord(m, root, 0);
    WalkDown(m, root, [0], 0);
    assert [0] + [0] == [0, 0];
    forall j: nat | j < 512 && TableAt(m, root, [0, 0]).Some?
      ensures Link(m, root, [0, 0, j]) == At(m, PdOf(m, root))[j]
    {
      WalkDown(m, root, [0, 0], j);
      assert [0, 0] + [j] == [0, 0, j];
    }
  }

  /** What root owns when its walk stops above the window. */
  lemma OwnedShort(codePages: nat, m: Mem, root: nat)
    requires TableAt(m, root, [0, 0]).None?
    ensures OwnedFrames(codePages, m, root) == if Present(At(m, root)[0]) then {root, PdptOf(m, root)} else {root}
  {
    SpineOf(m, root);
    hide Link, TableAt;
    forall f | f in OwnedFrames(codePages, m, root)
      ensures f == root || (Present(At(m, root)[0]) && f == PdptOf(m, root)) {
      var q :| q in Positions() && OwnsAt(codePages, m, root, q) && TableAt(m, root, q) == Some(f);
      OwnedNone(codePages, m, root, q);
      assert q == [] ==> TableAt(m, root, q) == Some(root) by { RootTable(m, root); }
    }
    RootTable(m, root);
    OwnedPosition(codePages, m, root, []);
    if Present(At(m, root)[0]) {
      OwnedPosition(codePages, m, root, [0]);
    }
  }

  /** What root owns, read off its tables. */
  lemma OwnedFull(codePages: nat, m: Mem, root: nat)
    requires TableAt(m, root, [0, 0]).Some?
    ensures OwnedFrames(codePages, m, root)
         == {root, PdptOf(m, root), PdOf(m, root)} + TableFrames(codePages, m, PdOf(m, root), 2)
            + TableFrames(codePages, m, PdOf(m, root), 3)
  {
    SpineOf(m, root);
    hide Link, TableAt, OwnsAt, Positions;
    var d, c := PdptOf(m, root), PdOf(m, root);
    var all := {root, d, c} + TableFrames(codePages, m, c, 2) + TableFrames(codePages, m, c, 3);
    forall f | f in OwnedFrames(codePages, m, root) ensures f in all {
      var q :| q in Positions() && OwnsAt(codePages, m, root, q) && TableAt(m, root, q) == Some(f);
      HoldsIsOwns(codePages, m, root, d, c, q, f);
      HoldsInTables(codePages, m, root, d, c, q, f);
    }
    forall f | f in all ensures f in OwnedFrames(codePages, m, root) {
      var q := TablePosition(codePages, m, root, d, c, f);
      HoldsIsOwns(codePages, m, root, d, c, q, f);
      OwnedPosition(codePages, m, root, q);
    }
  }

  lemma HoldsInTables(codePages: nat, m: Mem, root: nat, d: nat, c: nat, q: Path, f: nat)
    requires HoldsAt(codePages, m, root, d, c, q, f)
    ensures f in {root, d, c} + TableFrames(codePages, m, c, 2) + TableFrames(codePages, m, c, 3)
  {
    if WindowLeaf(q) {
      WindowLeafParts(q);
    }
  }

  lemma TablePosition(codePages: nat, m: Mem, root: nat, d: nat, c: nat, f: nat) returns (q: Path)
    requires f in {root, d, c} + TableFrames(codePages, m, c, 2) + TableFrames(codePages, m, c, 3)
    ensures HoldsAt(codePages, m, root, d, c, q, f)
  {
    if f == root {
      q := [];
    } else if f == d {
      q := [0];
    } else if f == c {
      q := [0, 0];
    } else {
      var j := if f in TableFrames(codePages, m, c, 2) then 2 else 3;
      var t := At(m, c)[j].frame;
      q := [0, 0, j];
      if f != t {
        var i: nat :| i < 512 && OwnedWord(codePages, At(m, t)[i], j * 512 + i) && f == At(m, t)[i].frame;
        q := [0, 0, j, i];
        assert q[..3] == [0, 0, j] && PageOf(q) == j * 512 + i;
      }
    }
  }

  // ---------------------------------------------------------------- distinctness while freeing

  lemma HeldAt(codePages: nat, m: Mem, root: nat, own: map<nat, Path>, free: set<nat>, limit: nat, q: Path, f: nat)
    requires Droppable(codePages, m, root, own, free, limit) && TableAt(m, root, [0, 0]).Some?
    requires HoldsAt(codePages, m, root, PdptOf(m, root), PdOf(m, root), q, f)
    ensures HeldAs(Some(f), q, own, free, limit)
  {
    SpineOf(m, root);
    HoldsIsOwns(codePages, m, root, PdptOf(m, root), PdOf(m, root), q, f);
  }

  /** The frames of one page table are in use, pairwise distinct, and known under their positions. */
  lemma HeldPages(codePages: nat, m: Mem, root: nat, own: map<nat, Path>, free: set<nat>, limit: nat, j: nat)
    requires Droppable(codePages, m, root, own, free, limit) && TableAt(m, root, [0, 0]).Some?
    requires (j == 2 || j == 3) && Present(At(m, PdOf(m, root))[j])
    ensures var t := At(m, PdOf(m, root))[j].frame;
            && HeldAs(Some(t), [0, 0, j], own, free, limit)
            && forall i :: 0 <= i < 512 && OwnedWord(codePages, At(m, t)[i], j * 512 + i)
                           ==> HeldAs(Some(At(m, t)[i].frame), [0, 0, j, i], own, free, limit)
  {
    hide HeldAs, Droppable, Link, TableAt;
    var t := At(m, PdOf(m, root))[j].frame;
    HeldAt(codePages, m, root, own, free, limit, [0, 0, j], t);
    forall i | 0 <= i < 512 && OwnedWord(codePages, At(m, t)[i], j * 512 + i)
      ensures HeldAs(Some(At(m, t)[i].frame), [0, 0, j, i], own, free, limit)
    {
      var q := [0, 0, j, i];
      assert q[..3] == [0, 0, j] && PageOf(q) == j * 512 + i;
      HeldAt(codePages, m, root, own, free, limit, q, At(m, t)[i].frame);
    }
  }

  lemma HeldUpper(codePages: nat, m: Mem, root: nat, own: map<nat, Path>, free: set<nat>, limit: nat)
    requires Droppable(codePages, m, root, own, free, limit)
    ensures HeldAs(Some(root), [], own, free, limit)
    ensures Present(At(m, root)[0]) ==> HeldAs(Some(PdptOf(m, root)), [0], own, free, limit)
    ensures TableAt(m, root, [0, 0]).Some? ==> HeldAs(Some(PdOf(m, root)), [0, 0], own, free, limit)
  {
    SpineOf(m, root);
    RootTable(m, root);
    assert OwnsAt(codePages, m, root, []);
    assert Present(At(m, root)[0]) ==> OwnsAt(codePages, m, root, [0]);
    assert TableAt(m, root, [0, 0]).Some? ==> OwnsAt(codePages, m, root, [0, 0]);
  }

  // ---------------------------------------------------------------- what dropping a root does

  function AfterDrop(w: World, r: nat): World {
    w.(free := w.free + OwnedFrames(w.codePages, w.mem, r), roots := w.roots - {r},
       owner := w.owner - OwnedFrames(w.codePages, w.mem, r))
  }

  lemma OwnedIsLedger(w: World, r: nat, f: nat)
    requires Inv(w) && r in w.roots
    ensures f in OwnedFrames(w.codePages, w.mem, r) <==> f in w.owner && w.owner[f].0 == r
  {
    hide Link, TableAt, OwnsAt, Positions, GoodRoot;
    if f in OwnedFrames(w.codePages, w.mem, r) {
      var q :| q in Positions() && OwnsAt(w.codePages, w.mem, r, q) && TableAt(w.mem, r, q) == Some(f);
      OldOwner(w, r, q);
    }
    if f in w.owner && w.owner[f].0 == r {
      OldBacked(w, f);
      OwnedPosition(w.codePages, w.mem, r, w.owner[f].1);
    }
  }

  lemma RootsDroppable(w: World, r: nat, limit: nat)
    requires Inv(w) && r in w.roots && forall f :: f in w.owner ==> 0 < f < limit
    ensures Droppable(w.codePages, w.mem, r, map f | f in w.owner && w.owner[f].0 == r :: w.owner[f].1, w.free, limit)
  {
    hide Link, TableAt, GoodRoot;
    forall q | OwnsAt(w.codePages, w.mem, r, q)
      ensures HeldAs(TableAt(w.mem, r, q), q, map f | f in w.owner && w.owner[f].0 == r :: w.owner[f].1, w.free, limit)
    {
      OldOwner(w, r, q);
    }
  }

  /** Freeing a space keeps the invariant and moves exactly its frames from owned to free. */
  lemma DropKeepsInv(w: World, r: nat)
    requires Inv(w) && r in w.roots
    ensures Inv(AfterDrop(w, r)) && Accounted(AfterDrop(w, r)) == Accounted(w)
    ensures OwnedFrames(w.codePages, w.mem, r) <= w.owner.Keys
  {
    hide Link, TableAt, OwnsAt, GoodRoot, OwnedFrames, Ledgered, Backed;
    var w' := AfterDrop(w, r);
    forall f ensures f in OwnedFrames(w.codePages, w.mem, r) <==> f in w.owner && w.owner[f].0 == r {
      OwnedIsLedger(w, r, f);
    }
    forall s | s in w'.roots ensures GoodRoot(w', s) {
      GoodRootSame(w, w', s);
    }
    Relabel(w, w', r);
  }
}
