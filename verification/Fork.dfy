/** Creating an address space from the active one: what the copy is, and that it keeps the
    ownership invariant (kvmm_create_user_pml4 in src/mm/vmm.c). */
module Fork {
  import opened Common
  import opened PageTables
  import opened Spaces

  /** A private table word of the copy: present and writable, with the parent's user bit. */
  predicate ForkedTable(was: Entry, now: Entry) {
    if Present(was) then now.low == 0x03 | (was.low & 0x04) else now == ZERO
  }

  /** A window word of the copy: owned pages are duplicated into a frame with the same 4096 bytes and
      keep their flags, every other present page is shared, absent words become zero. */
  predicate ForkedLeaf(codePages: nat, m: Mem, m': Mem, was: Entry, now: Entry, vp: nat) {
    if !Present(was) then now == ZERO
    else if OwnedWord(codePages, was, vp) then now.low == was.low && At(m', now.frame) == At(m, was.frame)
    else now == was
  }

  function Positions(): set<Path> {
    {[], [0], [0, 0], [0, 0, 2], [0, 0, 3]}
    + (set i: nat | i < 512 :: [0, 0, 2, i]) + (set i: nat | i < 512 :: [0, 0, 3, i])
  }

  /** The frames the space at root owns. */
  function OwnedFrames(codePages: nat, m: Mem, root: nat): set<nat> {
    set q | q in Positions() && OwnsAt(codePages, m, root, q) && TableAt(m, root, q).Some? :: TableAt(m, root, q).value
  }

  lemma OwnedPosition(codePages: nat, m: Mem, root: nat, q: Path)
    requires OwnsAt(codePages, m, root, q)
    ensures q in Positions() && TableAt(m, root, q).Some?
    ensures TableAt(m, root, q).value in OwnedFrames(codePages, m, root)
  {
    OwnedHasFrame(codePages, m, root, q);
    if WindowLeaf(q) {
      assert q == [0, 0, q[2], q[3]];
      assert q[3] < 512;
    }
  }

  ghost predicate Forked(codePages: nat, m: Mem, free: set<nat>, m': Mem, free': set<nat>, a: nat, n: nat) {
    && (forall q :: 0 < |q| <= 4 && !Spine(q) && !WindowLeaf(q) ==> Link(m', n, q) == Link(m, a, q))
    && (forall q :: q != [] && Spine(q) ==> ForkedTable(Link(m, a, q), Link(m', n, q)))
    && (forall q :: WindowLeaf(q) ==> ForkedLeaf(codePages, m, m', Link(m, a, q), Link(m', n, q), PageOf(q)))
    && FreshlyOwned(codePages, m', free, n)
    && free' == free - OwnedFrames(codePages, m', n)
    && (forall f :: f !in free ==> At(m', f) == At(m, f))
  }

  /** The bits of the private tables' words: a copy is present and writable, takes over the user bit and no other. */
  lemma ForkTables(codePages: nat, m: Mem, free: set<nat>, m': Mem, free': set<nat>, a: nat, n: nat, q: Path)
    requires Forked(codePages, m, free, m', free', a, n)
    requires q == [0] || q == [0, 0] || q == [0, 0, 2] || q == [0, 0, 3]
    ensures if Link(m, a, q).low & 0x01 != 0 then Link(m', n, q).low == 0x03 | (Link(m, a, q).low & 0x04)
            else Link(m', n, q) == Entry(0, 0)
  {
    hide Link, FreshlyOwned, OwnedFrames, ForkedLeaf;
    assert Spine(q);
  }

  /** Everything n owns came from the free frames, one frame per position. */
  ghost predicate FreshlyOwned(codePages: nat, m': Mem, free: set<nat>, n: nat) {
    && (forall q :: OwnsAt(codePages, m', n, q) ==> TableAt(m', n, q).Some? && TableAt(m', n, q).value in free)
    && (forall p, q :: OwnsAt(codePages, m', n, p) && OwnsAt(codePages, m', n, q)
                       && TableAt(m', n, p) == TableAt(m', n, q)
                       ==> p == q)
  }

  /** Right after creation every page translates as in the parent, except that owned window pages
      have their own frames with the same contents and flags. */
  lemma ForkTranslation(codePages: nat, m: Mem, free: set<nat>, m': Mem, free': set<nat>, a: nat, n: nat, vp: nat)
    requires Forked(codePages, m, free, m', free', a, n) && vp < PAGES
    ensures var was, now := Leaf(m, a, vp), Leaf(m', n, vp);
            if !Window(vp) then now == was
            else if was.low & 0x01 == 0 then now == Entry(0, 0)
            else if was.low & 0x04 == 0 || SharedPage(codePages, vp * 4096) then now == was
            else now.low == was.low && now.frame in free && At(m', now.frame) == At(m, was.frame)
  {
    hide Link, TableAt, OwnedFrames, ForkedTable, SharedPage, At, Indices;
    var q := Indices(vp);
    if Window(vp) {
      WindowIndices(vp);
      TableOfLink(m', n, q);
      assert ForkedLeaf(codePages, m, m', Link(m, a, q), Link(m', n, q), vp);
      assert OwnedWord(codePages, Leaf(m, a, vp), vp) ==> OwnsAt(codePages, m', n, q);
    } else {
      NotWindow(vp);
    }
  }

  lemma NotWindow(vp: nat)
    requires vp < PAGES && !Window(vp)
    ensures !WindowLeaf(Indices(vp))
  {
    var q := Indices(vp);
    if q[..3] == [0, 0, 2] || q[..3] == [0, 0, 3] {
      assert q[..3][0] == q[0] && q[..3][1] == q[1] && q[..3][2] == q[2];
      Digits(vp);
      assert false;
    }
  }

  ghost function PositionOf(codePages: nat, m: Mem, root: nat, f: nat): Path
    requires f in OwnedFrames(codePages, m, root)
  {
    var q :| q in Positions() && OwnsAt(codePages, m, root, q) && TableAt(m, root, q) == Some(f);
    q
  }

  ghost function AfterFork(w: World, m': Mem, free': set<nat>, n: nat): World {
    w.(mem := m', free := free', roots := w.roots + {n},
       owner := w.owner + map f | f in OwnedFrames(w.codePages, m', n) :: (n, PositionOf(w.codePages, m', n, f)))
  }

  lemma NewRootIsNew(w: World, n: nat)
    requires Inv(w) && n in w.free
    ensures n !in w.roots
  {
    assert OwnsAt(w.codePages, w.mem, n, []);
  }

  lemma ForkOffSpine(w: World, m': Mem, free': set<nat>, a: nat, n: nat, q: Path)
    requires Inv(w) && a in w.roots && Forked(w.codePages, w.mem, w.free, m', free', a, n)
    requires |q| <= 3 && TableAt(m', n, q).Some?
    ensures Spine(q) ==> OwnsAt(w.codePages, m', n, q) && TableAt(m', n, q).value in w.free
    ensures !Spine(q) ==> TableAt(m', n, q) == TableAt(w.mem, a, q) && TableAt(m', n, q).value in w.shared
  {
    hide Tree, RightsKept, Ledgered;
    assert GoodRoot(w, a);
    if Spine(q) {
      assert OwnsAt(w.codePages, m', n, q);
    } else {
      assert Link(m', n, q) == Link(w.mem, a, q);
    }
  }

  lemma ForkTree(w: World, m': Mem, free': set<nat>, a: nat, n: nat)
    requires Inv(w) && a in w.roots && Forked(w.codePages, w.mem, w.free, m', free', a, n)
    ensures Tree(m', n)
  {
    forall p, q: Path | |p| <= 3 && |q| <= 3 && TableAt(m', n, p).Some? && TableAt(m', n, p) == TableAt(m', n, q)
      ensures p == q
    {
      hide Forked, OwnsAt, TableAt, Link, Ledgered, RightsKept, Spine;
      ForkOffSpine(w, m', free', a, n, p);
      ForkOffSpine(w, m', free', a, n, q);
      if Spine(p) && Spine(q) {
        ForkDistinct(w.codePages, w.mem, w.free, m', free', a, n, p, q);
      } else {
        assert GoodRoot(w, a);
      }
    }
  }

  lemma ForkDistinct(codePages: nat, m: Mem, free: set<nat>, m': Mem, free': set<nat>, a: nat, n: nat, p: Path, q: Path)
    requires Forked(codePages, m, free, m', free', a, n)
    requires OwnsAt(codePages, m', n, p) && OwnsAt(codePages, m', n, q) && TableAt(m', n, p) == TableAt(m', n, q)
    ensures p == q
  {
  }

  lemma ForkedBits(was: Entry, now: Entry)
    requires ForkedTable(was, now) && Present(was)
    ensures Present(now) && Writable(now) && (User(now) <==> User(was))
  {
  }

  lemma {:induction false} ForkUser(codePages: nat, m: Mem, free: set<nat>, m': Mem, free': set<nat>, a: nat, n: nat,
                                    q: Path)
    requires Forked(codePages, m, free, m', free', a, n) && |q| <= 4 && TableAt(m, a, q).Some?
    requires EffectiveUser(m, a, q)
    ensures EffectiveUser(m', n, q)
    decreases |q|
  {
    if q != [] {
      ForkUser(codePages, m, free, m', free', a, n, Init(q));
      if Spine(q) {
        ForkedBits(Link(m, a, q), Link(m', n, q));
      }
    }
  }

  lemma ForkRights(w: World, m': Mem, free': set<nat>, a: nat, n: nat)
    requires Inv(w) && a in w.roots && Forked(w.codePages, w.mem, w.free, m', free', a, n)
    ensures RightsKept(m', n)
  {
    hide Ledgered, Tree, FreshlyOwned;
    assert GoodRoot(w, a);
    forall q: Path | 0 < |q| <= 3 && Present(Link(m', n, q)) ensures Writable(Link(m', n, q)) {
      if Spine(q) {
        assert ForkedTable(Link(w.mem, a, q), Link(m', n, q));
        if Present(Link(w.mem, a, q)) {
          ForkedBits(Link(w.mem, a, q), Link(m', n, q));
        }
      }
    }
    forall q: Path | |q| == 4 && Present(Link(m', n, q)) && User(Link(m', n, q)) ensures EffectiveUser(m', n, q) {
      assert Present(Link(w.mem, a, q)) && User(Link(w.mem, a, q));
      ForkUser(w.codePages, w.mem, w.free, m', free', a, n, q);
    }
  }

  lemma ForkGoodRoot(w: World, m': Mem, free': set<nat>, a: nat, n: nat)
    requires Inv(w) && a in w.roots && Forked(w.codePages, w.mem, w.free, m', free', a, n)
    ensures GoodRoot(AfterFork(w, m', free', n), n)
  {
    ForkTree(w, m', free', a, n);
    ForkRights(w, m', free', a, n);
    assert TableAt(m', n, [0, 0]).Some? by {
      assert GoodRoot(w, a);
      ForkedBits(Link(w.mem, a, [0, 0]), Link(m', n, [0, 0]));
    }
    hide Forked, Tree, RightsKept, Ledgered;
    forall q: Path | |q| <= 3 && !Spine(q) && TableAt(m', n, q).Some? ensures TableAt(m', n, q).value in w.shared {
      ForkOffSpine(w, m', free', a, n, q);
    }
  }

  lemma ForkOthers(w: World, m': Mem, free': set<nat>, a: nat, n: nat, s: nat)
    requires Inv(w) && a in w.roots && Forked(w.codePages, w.mem, w.free, m', free', a, n) && n in w.free
    requires s in w.roots
    ensures SameWalk(w.mem, m', s) && forall f :: f in w.owner ==> At(m', f) == At(w.mem, f)
  {
    NewRootIsNew(w, n);
    OtherRoots(w, m', n, s);
  }

  lemma ForkOwned(w: World, m': Mem, free': set<nat>, a: nat, n: nat)
    requires Inv(w) && a in w.roots && Forked(w.codePages, w.mem, w.free, m', free', a, n) && n in w.free
    ensures var w' := AfterFork(w, m', free', n);
            && (forall q :: OwnsAt(w.codePages, m', n, q) ==> OwnedBy(w', TableAt(m', n, q), n, q))
            && (forall f :: f in w'.owner && w'.owner[f].0 == n ==> Backed(w', f))
            && w'.owner.Keys == w.owner.Keys + OwnedFrames(w.codePages, m', n)
            && OwnedFrames(w.codePages, m', n) <= w.free && free' == w.free - OwnedFrames(w.codePages, m', n)
            && (forall f :: f in w.owner ==> w.owner[f].0 != n && w'.owner[f] == w.owner[f])
  {
    hide TableAt, Link, OwnsAt, Positions, GoodRoot, Spine;
    var w' := AfterFork(w, m', free', n);
    NewRootIsNew(w, n);
    forall f | f in w.owner ensures w.owner[f].0 != n {
      OldBacked(w, f);
    }
    forall q | OwnsAt(w.codePages, m', n, q) ensures OwnedBy(w', TableAt(m', n, q), n, q) {
      OwnedPosition(w.codePages, m', n, q);
      var f := TableAt(m', n, q).value;
      var p := PositionOf(w.codePages, m', n, f);
      ForkDistinct(w.codePages, w.mem, w.free, m', free', a, n, p, q);
    }
  }

  /** Creation keeps the invariant and moves exactly the new space's frames from free to owned. */
  lemma ForkKeepsInv(w: World, m': Mem, free': set<nat>, a: nat, n: nat)
    requires Inv(w) && a in w.roots && Forked(w.codePages, w.mem, w.free, m', free', a, n) && n in w.free
    ensures Inv(AfterFork(w, m', free', n))
    ensures free' + AfterFork(w, m', free', n).owner.Keys == w.free + w.owner.Keys
  {
    hide TableAt, Link, OwnsAt, Positions, GoodRoot, Spine, Forked, AfterFork, OwnedFrames, Ledgered, SameWalk, Backed,
         OwnedBy;
    var w' := AfterFork(w, m', free', n);
    ForkOwned(w, m', free', a, n);
    ForkGoodRoot(w, m', free', a, n);
    AfterForkFields(w, m', free', n);
    forall s | s in w'.roots && s != n ensures SameWalk(w.mem, m', s) && GoodRoot(w', s) {
      ForkOthers(w, m', free', a, n, s);
      GoodRootSame(w, w', s);
    }
    Relabel(w, w', n);
  }

  lemma AfterForkFields(w: World, m': Mem, free': set<nat>, n: nat)
    ensures var w' := AfterFork(w, m', free', n);
            w'.mem == m' && w'.free == free' && w'.roots == w.roots + {n}
            && w'.shared == w.shared && w'.codePages == w.codePages
            && forall f :: f in w'.owner && w'.owner[f].0 != n ==> f in w.owner && w.owner[f] == w'.owner[f]
  {
  }
}
