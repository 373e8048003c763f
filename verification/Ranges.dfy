/** Mapping a range of pages outside the window, as sys_map_mmio does (src/syscall/syscall.c): which tables it
    needs, and when it leaves every other space alone. */
module Ranges {
  import opened Common
  import opened Frames
  import opened PageTables
  import opened Mapping
  import opened Spaces
  import opened Runs

  const DEVICE_PAGE: bv12 := 0x1F

  // ---------------------------------------------------------------- the tables a range needs

  /** The table positions missing on the way to the pages vp to vp + n. */
  ghost function LackingRange(m: Mem, root: nat, vp: nat, n: nat): set<Path> {
    if n == 0 then {} else LackingRange(m, root, vp, n - 1) + Lacking(m, root, Indices(vp + n - 1), 3)
  }

  /** m is m0 with those pages mapped, in the flat map and in the tables that are there. */
  ghost predicate RangeMapped(m0: Mem, m: Mem, root: nat, vp: nat, pf: nat, n: nat) {
    && (forall vq :: 0 <= vq < PAGES ==>
          Leaf(m, root, vq) == if vp <= vq < vp + n then Entry(pf + (vq - vp), DEVICE_PAGE) else Leaf(m0, root, vq))
    && (forall q :: 0 < |q| <= 3 ==>
          (Present(Link(m, root, q)) <==> Present(Link(m0, root, q)) || q in LackingRange(m0, root, vp, n)))
  }

  lemma RangeWords(m0: Mem, m: Mem, root: nat, vp: nat, pf: nat, n: nat)
    requires RangeMapped(m0, m, root, vp, pf, n) && vp + n <= PAGES
    ensures forall vq :: vp <= vq < vp + n ==> Leaf(m, root, vq) == Entry(pf + (vq - vp), 0x1F)
  {
  }

  lemma RangeStart(pmm: FrameAllocator, free: set<nat>, m: Mem, root: nat, vp: nat, pf: nat)
    ensures TookFor(pmm, free, free, LackingRange(m, root, vp, 0)) && RangeMapped(m, m, root, vp, pf, 0)
  {
    TookNone(pmm, free);
    assert free - free == {};
  }

  /** What the next page needs comes on top of what the pages before it needed. */
  lemma LackingNow(m0: Mem, m: Mem, root: nat, vp: nat, pf: nat, n: nat)
    requires RangeMapped(m0, m, root, vp, pf, n)
    ensures LackingRange(m0, root, vp, n + 1) == LackingRange(m0, root, vp, n) + Lacking(m, root, Indices(vp + n), 3)
    ensures LackingRange(m0, root, vp, n) !! Lacking(m, root, Indices(vp + n), 3)
  {
    hide Link, Leaf;
    var x := Indices(vp + n);
    var before, was, now := LackingRange(m0, root, vp, n), Lacking(m0, root, x, 3), Lacking(m, root, x, 3);
    forall j | 1 <= j <= 3
      ensures x[..j] in now <==> !Present(Link(m, root, x[..j]))
      ensures x[..j] in was <==> !Present(Link(m0, root, x[..j]))
    {
      LackingIn(m, root, x, j);
      LackingIn(m0, root, x, j);
    }
    forall q ensures q in was - before <==> q in now {
    }
  }

  lemma LackingIn(m: Mem, root: nat, x: Path, j: nat)
    requires 1 <= j <= 3 <= |x|
    ensures x[..j] in Lacking(m, root, x, 3) <==> !Present(Link(m, root, x[..j]))
  {
    hide Link;
    forall i | 1 <= i <= 3 && x[..i] == x[..j] ensures i == j {
      assert |x[..i]| == |x[..j]|;
    }
  }

  lemma {:induction false} LackingGrows(m: Mem, root: nat, vp: nat, i: nat, n: nat)
    requires i <= n
    ensures LackingRange(m, root, vp, i) <= LackingRange(m, root, vp, n)
  {
    if i < n {
      LackingGrows(m, root, vp, i, n - 1);
    }
  }

  lemma TwoSets<T>(a: set<T>, b: set<T>)
    requires a !! b
    ensures |a + b| == |a| + |b|
  {
  }

  lemma RangeShort(pmm: FrameAllocator, free0: set<nat>, free: set<nat>, m0: Mem, m: Mem, root: nat, vp: nat, pf: nat,
                   i: nat, n: nat)
    requires TookFor(pmm, free0, free, LackingRange(m0, root, vp, i)) && RangeMapped(m0, m, root, vp, pf, i) && i < n
    requires |Usable(pmm, free)| < |Lacking(m, root, Indices(vp + i), 3)|
    ensures Short(pmm, free0, LackingRange(m0, root, vp, n))
  {
    hide RangeMapped, Took, Usable, LackingRange, Lacking;
    UsableLeft(pmm, free0, free);
    LackingNow(m0, m, root, vp, pf, i);
    TwoSets(LackingRange(m0, root, vp, i), Lacking(m, root, Indices(vp + i), 3));
    LackingGrows(m0, root, vp, i + 1, n);
    SubsetSize(LackingRange(m0, root, vp, i + 1), LackingRange(m0, root, vp, n));
  }

  lemma RangeTook(pmm: FrameAllocator, free0: set<nat>, free: set<nat>, free': set<nat>, m0: Mem, m: Mem, root: nat,
                  vp: nat, pf: nat, i: nat)
    requires TookFor(pmm, free0, free, LackingRange(m0, root, vp, i)) && RangeMapped(m0, m, root, vp, pf, i)
    requires TookFor(pmm, free, free', Lacking(m, root, Indices(vp + i), 3))
    ensures TookFor(pmm, free0, free', LackingRange(m0, root, vp, i + 1))
  {
    hide RangeMapped, Took, LackingRange, Lacking;
    TookMore(pmm, free0, free, free');
    TookSubset(pmm, free0, free);
    TookSubset(pmm, free, free');
    LackingNow(m0, m, root, vp, pf, i);
    TwoSets(LackingRange(m0, root, vp, i), Lacking(m, root, Indices(vp + i), 3));
    assert free0 - free' == (free0 - free) + (free - free');
    TwoSets(free0 - free, free - free');
  }

  lemma RangeNext(m0: Mem, free: set<nat>, m: Mem, free': set<nat>, m': Mem, root: nat, vp: nat, pf: nat, i: nat)
    requires RangeMapped(m0, m, root, vp, pf, i) && vp + i < PAGES
    requires Mapped(m, free, m', free', root, vp + i, Entry(pf + i, DEVICE_PAGE))
    ensures RangeMapped(m0, m', root, vp, pf, i + 1)
  {
    hide Link, Leaf, Tidy, Outside, NewTables, RightsKept, LackingRange, Lacking;
    var x := Indices(vp + i);
    LackingNow(m0, m, root, vp, pf, i);
    forall vq | 0 <= vq < PAGES
      ensures Leaf(m', root, vq) == if vq == vp + i then Entry(pf + i, DEVICE_PAGE) else Leaf(m, root, vq)
    {
      MappedIsUpdate(m, free, m', free', root, vp + i, Entry(pf + i, DEVICE_PAGE), vq);
    }
    forall q: Path | 0 < |q| <= 3
      ensures Present(Link(m', root, q)) <==>
                Present(Link(m0, root, q)) || q in LackingRange(m0, root, vp, i + 1)
    {
      if q <= x {
        assert q == x[..|q|];
        LackingIn(m, root, x, |q|);
        assert Kept(Link(m, root, x[..|q|]), Link(m', root, x[..|q|]), free);
      } else {
        NotLacking(m, root, x, q);
      }
    }
  }

  lemma NotLacking(m: Mem, root: nat, x: Path, q: Path)
    requires !(q <= x) && |x| >= 3
    ensures q !in Lacking(m, root, x, 3)
  {
    hide Link;
  }

  // ---------------------------------------------------------------- leaving the other spaces alone

  ghost predicate OutsideRange(vp: nat, n: nat) {
    vp + n <= PAGES && forall vq :: vp <= vq < vp + n ==> !Window(vq)
  }

  lemma OutsideIn(vp: nat, n: nat, i: nat)
    requires OutsideRange(vp, n) && i < n
    ensures vp + i < PAGES && !Window(vp + i)
  {
  }

  /** No table on the way to page vq in space r is on the walk of another space. */
  ghost predicate Alone(w: World, r: nat, vq: nat) {
    forall s, j :: s in w.roots && s != r && 0 <= j <= 3 ==> OffBoth(w.mem, r, s, Indices(vq)[..j])
  }

  ghost predicate OffBoth(m: Mem, r: nat, s: nat, q: Path) {
    match TableAt(m, r, q)
    case None => true
    case Some(t) => OffWalk(m, s, t)
  }

  ghost predicate RangeAlone(w: World, r: nat, vp: nat, n: nat) {
    r in w.roots && forall vq :: vp <= vq < vp + n ==> Alone(w, r, vq)
  }

  /** A table on the walk of r belongs to no other space. */
  lemma TableOwner(w: World, r: nat, q: Path)
    requires Inv(w) && r in w.roots && |q| <= 3 && TableAt(w.mem, r, q).Some?
    ensures var t := TableAt(w.mem, r, q).value; t in w.owner ==> w.owner[t].0 == r
  {
    hide Tree, RightsKept;
    assert GoodRoot(w, r);
    if Spine(q) {
      OldOwner(w, r, q);
    }
  }

  lemma AloneKept(w: World, m': Mem, free': set<nat>, r: nat, vp: nat, e: Entry)
    requires Inv(w) && r in w.roots && Mapped(w.mem, w.free, m', free', r, vp, e) && Alone(w, r, vp)
    ensures OthersKept(w, m', r)
  {
    hide Inv, OffWalk, TableAt, Link, Leaf, Tidy, NewTables, RightsKept;
    forall s, f | s in w.roots && s != r && f !in w.free && OnSpace(w, s, f) ensures At(m', f) == At(w.mem, f) {
      forall j | 0 <= j < 4 ensures TableAt(w.mem, r, Indices(vp)[..j]) != Some(f) {
        assert OffBoth(w.mem, r, s, Indices(vp)[..j]);
        if TableAt(w.mem, r, Indices(vp)[..j]) == Some(f) {
          TableOwner(w, r, Indices(vp)[..j]);
        }
      }
    }
  }

  lemma OffSame(m: Mem, m': Mem, s: nat, t: nat)
    requires SameWalk(m, m', s) && OffWalk(m, s, t)
    ensures OffWalk(m', s, t)
  {
  }

  lemma FreeOff(w: World, s: nat, t: nat)
    requires Inv(w) && s in w.roots && t in w.free
    ensures OffWalk(w.mem, s, t)
  {
    hide Inv, TableAt;
    forall q: Path | |q| <= 3 ensures TableAt(w.mem, s, q) != Some(t) {
      if TableAt(w.mem, s, q) == Some(t) {
        NotFreeAt(w, s, q);
      }
    }
  }

  /** The same holds of every page after the mapping of one. */
  lemma AloneNext(w: World, m': Mem, free': set<nat>, r: nat, vp: nat, e: Entry, vq: nat)
    requires Inv(w) && r in w.roots && Mapped(w.mem, w.free, m', free', r, vp, e) && OthersKept(w, m', r)
    requires Alone(w, r, vq)
    ensures Alone(AfterOutside(w, m', free'), r, vq)
  {
    hide Inv, OffWalk, TableAt, Mapped, OthersKept, SameWalk;
    forall s, j | s in w.roots && s != r && 0 <= j <= 3 ensures OffBoth(m', r, s, Indices(vq)[..j]) {
      var q := Indices(vq)[..j];
      assert OffBoth(w.mem, r, s, q);
      OutsideOthers(w, m', free', r, s);
      match TableAt(m', r, q)
      case None =>
      case Some(t) =>
        MappedTable(w.mem, w.free, m', free', r, vp, e, q);
        if t in w.free {
          FreeOff(w, s, t);
        }
        OffSame(w.mem, m', s, t);
    }
  }

  lemma MappedTable(m: Mem, free: set<nat>, m': Mem, free': set<nat>, r: nat, vp: nat, e: Entry, q: Path)
    requires Mapped(m, free, m', free', r, vp, e) && |q| <= 3 && TableAt(m', r, q).Some?
    ensures TableAt(m', r, q) == TableAt(m, r, q) || TableAt(m', r, q).value in free
  {
    hide Tidy, Outside, NewTables, RightsKept, Leaf;
    var x := Indices(vp);
    if q == [] {
      RootTable(m, r);
      RootTable(m', r);
    } else {
      TableOfLink(m, r, q);
      TableOfLink(m', r, q);
      if q <= x {
        assert q == x[..|q|];
        assert Kept(Link(m, r, x[..|q|]), Link(m', r, x[..|q|]), free);
      }
    }
  }

  lemma OutsideStep(w: World, w': World, r: nat, vp: nat, n: nat, i: nat, e: Entry)
    requires Inv(w) && RangeAlone(w, r, vp, n) && OutsideRange(vp, n) && i < n
    requires Mapped(w.mem, w.free, w'.mem, w'.free, r, vp + i, e) && w' == AfterOutside(w, w'.mem, w'.free)
    ensures Step(w, w', MapOutside(r, vp + i, e)) && Inv(w') && RangeAlone(w', r, vp, n)
  {
    hide Inv, Mapped, Alone, OthersKept;
    AloneKept(w, w'.mem, w'.free, r, vp + i, e);
    OutsideKeepsInv(w, w'.mem, w'.free, r, vp + i, e);
    forall vq | vp <= vq < vp + n ensures Alone(w', r, vq) {
      AloneNext(w, w'.mem, w'.free, r, vp + i, e, vq);
    }
  }

  /** ws are the worlds of a run that maps the pages vp to vp + n one by one and ends in w. */
  ghost predicate MapSteps(ws: seq<World>, r: nat, vp: nat, pf: nat, n: nat, w: World) {
    && |ws| == n + 1 && ws[n] == w
    && forall k :: 0 <= k < n ==> Step(ws[k], ws[k + 1], MapOutside(r, vp + k, Entry(pf + k, DEVICE_PAGE)))
  }

  lemma StepsStart(w: World, r: nat, vp: nat, pf: nat)
    ensures MapSteps([w], r, vp, pf, 0, w)
  {
  }

  lemma StepsNext(ws: seq<World>, w: World, w': World, r: nat, vp: nat, pf: nat, n: nat)
    requires MapSteps(ws, r, vp, pf, n, w) && Step(w, w', MapOutside(r, vp + n, Entry(pf + n, DEVICE_PAGE)))
    ensures MapSteps(ws + [w'], r, vp, pf, n + 1, w')
  {
    hide Step;
    var ws' := ws + [w'];
    forall k | 0 <= k < n + 1 ensures Step(ws'[k], ws'[k + 1], MapOutside(r, vp + k, Entry(pf + k, DEVICE_PAGE))) {
      if k < n {
        assert ws'[k] == ws[k] && ws'[k + 1] == ws[k + 1];
      }
    }
  }
}
