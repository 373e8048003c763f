/** The table words kvmm_create_user_pml4 writes, and why they are a fork of the parent. */
module ForkCopy {
  import opened Common
  import opened PageTables
  import opened Spaces
  import opened Fork

  function Private(f: nat, e: Entry): Entry {
    Entry(f, 0x03 | (e.low & 0x04))
  }

  function PdptOf(m: Mem, a: nat): nat { At(m, a)[0].frame }
  function PdOf(m: Mem, a: nat): nat { At(m, PdptOf(m, a))[0].frame }
  function PtOf(m: Mem, a: nat, j: nat): nat
    requires j < 512
  {
    At(m, PdOf(m, a))[j].frame
  }

  /** The first n words of page table `to` are the copies of those of `from`; `got` records which of
      the frames taken for it backs which index. */
  ghost predicate Copied(codePages: nat, m: Mem, free: set<nat>, m': Mem, free': set<nat>,
                         from: nat, to: nat, j: nat, n: nat, got: map<nat, nat>)
    requires n <= 512
  {
    && (forall i :: 0 <= i < n ==> ForkedLeaf(codePages, m, m', At(m, from)[i], At(m', to)[i], j * 512 + i))
    && (forall i :: n <= i < 512 ==> At(m', to)[i] == ZERO)
    && (forall i :: 0 <= i < n && OwnedWord(codePages, At(m, from)[i], j * 512 + i)
                    ==> At(m', to)[i].frame in got && got[At(m', to)[i].frame] == i)
    && (forall f :: f in got ==> got[f] < n && OwnedWord(codePages, At(m, from)[got[f]], j * 512 + got[f])
                                 && At(m', to)[got[f]].frame == f)
    && got.Keys <= free && free' == free - got.Keys
    && (forall f :: f !in got && f != to ==> At(m', f) == At(m, f))
  }

  /** What copying relies on: neither table is free, and no page to be duplicated is free. */
  ghost predicate Copyable(codePages: nat, m: Mem, free: set<nat>, from: nat, to: nat, j: nat) {
    && from != to && from !in free && to !in free
    && forall i :: 0 <= i < 512 && OwnedWord(codePages, At(m, from)[i], j * 512 + i)
                   ==> At(m, from)[i].frame !in free && At(m, from)[i].frame != to
  }

  lemma CopyOwned(codePages: nat, m: Mem, free: set<nat>, m1: Mem, free1: set<nat>, from: nat, to: nat, j: nat, i: nat,
                  got: map<nat, nat>, np: nat)
    requires Copyable(codePages, m, free, from, to, j)
    requires i < 512 && Copied(codePages, m, free, m1, free1, from, to, j, i, got)
    requires OwnedWord(codePages, At(m, from)[i], j * 512 + i) && np in free1
    ensures var was := At(m1, from)[i];
            Copied(codePages, m, free, Put(m1[np := At(m1, was.frame)], to, i, Entry(np, was.low)), free1 - {np},
                   from, to, j, i + 1, got[np := i])
  {
    hide OwnedWord, ForkedLeaf, Put;
    var was := At(m1, from)[i];
    var m2 := Put(m1[np := At(m1, was.frame)], to, i, Entry(np, was.low));
    CopyOwnedMem(m1, from, to, i, np);
    forall k | 0 <= k < i + 1 ensures ForkedLeaf(codePages, m, m2, At(m, from)[k], At(m2, to)[k], j * 512 + k) {
      CopyOwnedLeaf(codePages, m, free, m1, free1, from, to, j, i, got, np, k);
    }
    CopyOwnedGot(codePages, m, free, m1, free1, from, to, j, i, got, np, At(m2, to));
  }

  /** What the two writes of a copied page leave. */
  lemma CopyOwnedMem(m1: Mem, from: nat, to: nat, i: nat, np: nat)
    requires i < 512 && np != to
    ensures var was := At(m1, from)[i];
            var m2 := Put(m1[np := At(m1, was.frame)], to, i, Entry(np, was.low));
            && At(m2, to) == At(m1, to)[i := Entry(np, was.low)]
            && forall f :: f != to && f != np ==> At(m2, f) == At(m1, f)
  {
  }

  /** The record of the frames taken, with the new one. */
  lemma CopyOwnedGot(codePages: nat, m: Mem, free: set<nat>, m1: Mem, free1: set<nat>, from: nat, to: nat, j: nat,
                     i: nat, got: map<nat, nat>, np: nat, t: Table)
    requires i < 512 && Copied(codePages, m, free, m1, free1, from, to, j, i, got) && np in free1
    requires OwnedWord(codePages, At(m, from)[i], j * 512 + i) && t == At(m1, to)[i := Entry(np, At(m1, from)[i].low)]
    ensures var got' := got[np := i];
            && (forall k :: 0 <= k < i + 1 && OwnedWord(codePages, At(m, from)[k], j * 512 + k)
                            ==> t[k].frame in got' && got'[t[k].frame] == k)
            && (forall f :: f in got'
                            ==> got'[f] < i + 1 && OwnedWord(codePages, At(m, from)[got'[f]], j * 512 + got'[f])
                                && t[got'[f]].frame == f)
            && (forall k :: i + 1 <= k < 512 ==> t[k] == ZERO)
            && got'.Keys <= free && free1 - {np} == free - got'.Keys
  {
    hide OwnedWord, ForkedLeaf;
  }

  lemma CopyOwnedLeaf(codePages: nat, m: Mem, free: set<nat>, m1: Mem, free1: set<nat>, from: nat, to: nat, j: nat,
                      i: nat, got: map<nat, nat>, np: nat, k: nat)
    requires Copyable(codePages, m, free, from, to, j)
    requires i < 512 && Copied(codePages, m, free, m1, free1, from, to, j, i, got)
    requires OwnedWord(codePages, At(m, from)[i], j * 512 + i) && np in free1 && k <= i
    ensures var was := At(m1, from)[i];
            var m2 := Put(m1[np := At(m1, was.frame)], to, i, Entry(np, was.low));
            ForkedLeaf(codePages, m, m2, At(m, from)[k], At(m2, to)[k], j * 512 + k)
  {
    hide OwnedWord;
    var was := At(m1, from)[i];
    var m2 := Put(m1[np := At(m1, was.frame)], to, i, Entry(np, was.low));
    OwnedPresent(codePages, At(m, from)[i], j * 512 + i);
    assert At(m1, from) == At(m, from) && At(m1, was.frame) == At(m, was.frame);
    assert At(m2, to) == At(m1, to)[i := Entry(np, was.low)];
    if k < i {
      assert ForkedLeaf(codePages, m, m1, At(m, from)[k], At(m1, to)[k], j * 512 + k);
      assert OwnedWord(codePages, At(m, from)[k], j * 512 + k) ==> At(m1, to)[k].frame in got;
    }
  }

  lemma CopyPlain(codePages: nat, m: Mem, free: set<nat>, m1: Mem, free1: set<nat>, from: nat, to: nat, j: nat, i: nat,
                  got: map<nat, nat>)
    requires Copyable(codePages, m, free, from, to, j)
    requires i < 512 && Copied(codePages, m, free, m1, free1, from, to, j, i, got)
    requires !OwnedWord(codePages, At(m, from)[i], j * 512 + i) && Present(At(m, from)[i])
    ensures Copied(codePages, m, free, Put(m1, to, i, At(m, from)[i]), free1, from, to, j, i + 1, got)
  {
    hide OwnedWord;
    var m2 := Put(m1, to, i, At(m, from)[i]);
    assert At(m2, to) == At(m1, to)[i := At(m, from)[i]];
    forall k | 0 <= k < i ensures ForkedLeaf(codePages, m, m2, At(m, from)[k], At(m2, to)[k], j * 512 + k) {
      assert ForkedLeaf(codePages, m, m1, At(m, from)[k], At(m1, to)[k], j * 512 + k);
    }
  }

  lemma CopyAbsent(codePages: nat, m: Mem, free: set<nat>, m1: Mem, free1: set<nat>, from: nat, to: nat, j: nat, i: nat,
                   got: map<nat, nat>)
    requires i < 512 && Copied(codePages, m, free, m1, free1, from, to, j, i, got) && !Present(At(m, from)[i])
    ensures Copied(codePages, m, free, m1, free1, from, to, j, i + 1, got)
  {
  }

  // ---------------------------------------------------------------- the whole copy

  /** Position q of the new space, read off its tables n, d and c. */
  ghost predicate HoldsAt(codePages: nat, m': Mem, n: nat, d: nat, c: nat, q: Path, f: nat) {
    || (q == [] && f == n)
    || (q == [0] && f == d)
    || (q == [0, 0] && f == c)
    || (q == [0, 0, 2] && Present(At(m', c)[2]) && f == At(m', c)[2].frame)
    || (q == [0, 0, 3] && Present(At(m', c)[3]) && f == At(m', c)[3].frame)
    || (WindowLeaf(q) && q[3] < 512 && Present(At(m', c)[q[2]])
        && var e := At(m', At(m', c)[q[2]].frame)[q[3]]; OwnedWord(codePages, e, PageOf(q)) && f == e.frame)
  }

  ghost predicate RawFork(codePages: nat, m: Mem, free: set<nat>, m': Mem, free': set<nat>, a: nat, n: nat, d: nat,
                          c: nat, own: map<nat, Path>)
  {
    && At(m', n) == At(m, a)[0 := Private(d, At(m, a)[0])]
    && At(m', d) == At(m, PdptOf(m, a))[0 := Private(c, At(m, PdptOf(m, a))[0])]
    && (forall i :: 0 <= i < 512 && i != 2 && i != 3 ==> At(m', c)[i] == At(m, PdOf(m, a))[i])
    && (forall j :: 2 <= j <= 3 ==> ForkedTable(At(m, PdOf(m, a))[j], At(m', c)[j]))
    && (forall j :: 2 <= j <= 3 && Present(At(m, PdOf(m, a))[j])
                    ==> RawTable(codePages, m, m', PtOf(m, a, j), At(m', c)[j].frame, j))
    && (forall q, f :: HoldsAt(codePages, m', n, d, c, q, f) ==> f in own && own[f] == q)
    && (forall f :: f in own ==> HoldsAt(codePages, m', n, d, c, own[f], f))
    && own.Keys <= free && free' == free - own.Keys
    && (forall f :: f !in free ==> At(m', f) == At(m, f))
  }

  ghost predicate RawTable(codePages: nat, m: Mem, m': Mem, from: nat, to: nat, j: nat) {
    forall i :: 0 <= i < 512 ==> ForkedLeaf(codePages, m, m', At(m, from)[i], At(m', to)[i], j * 512 + i)
  }

  /** The parent's own walk in terms of its tables. */
  lemma ParentSpine(w: World, a: nat)
    requires Inv(w) && a in w.roots
    ensures TableAt(w.mem, a, [0]) == Some(PdptOf(w.mem, a)) && TableAt(w.mem, a, [0, 0]) == Some(PdOf(w.mem, a))
    ensures Present(At(w.mem, a)[0]) && Present(At(w.mem, PdptOf(w.mem, a))[0])
    ensures forall j: nat :: j < 512 && Present(At(w.mem, PdOf(w.mem, a))[j]) ==>
              TableAt(w.mem, a, [0, 0, j]) == Some(PtOf(w.mem, a, j))
  {
    hide Tree, RightsKept, Ledgered;
    assert GoodRoot(w, a);
    WalkUp(w.mem, a, [0, 0]);
    assert Init([0, 0]) == [0];
    SpineLinks(w.mem, a, PdptOf(w.mem, a), PdOf(w.mem, a));
  }

  lemma SpineLinks(m: Mem, r: nat, d: nat, c: nat)
    requires TableAt(m, r, [0]).Some? && At(m, r)[0].frame == d
    ensures TableAt(m, r, [0]) == Some(d) && Present(At(m, r)[0])
    ensures TableAt(m, r, [0, 0]).Some? <==> Present(At(m, d)[0])
    ensures At(m, d)[0].frame == c && Present(At(m, d)[0]) ==> TableAt(m, r, [0, 0]) == Some(c)
    ensures At(m, d)[0].frame == c && Present(At(m, d)[0])
            ==> forall j: nat :: j < 512 && Present(At(m, c)[j]) ==> TableAt(m, r, [0, 0, j]) == Some(At(m, c)[j].frame)
  {
    WalkDown(m, r, [], 0);
    assert [] + [0] == [0];
    WalkDown(m, r, [0], 0);
    assert [0] + [0] == [0, 0];
    forall j: nat | j < 512 && At(m, d)[0].frame == c && Present(At(m, d)[0]) && Present(At(m, c)[j])
      ensures TableAt(m, r, [0, 0, j]) == Some(At(m, c)[j].frame)
    {
      WalkDown(m, r, [0, 0], j);
      assert [0, 0] + [j] == [0, 0, j];
    }
  }

  /** The new space's walk in terms of its tables. */
  lemma ChildSpine(w: World, m': Mem, free': set<nat>, a: nat, n: nat, d: nat, c: nat, own: map<nat, Path>)
    requires Inv(w) && a in w.roots && RawFork(w.codePages, w.mem, w.free, m', free', a, n, d, c, own)
    ensures TableAt(m', n, [0]) == Some(d) && TableAt(m', n, [0, 0]) == Some(c)
    ensures forall j: nat :: j < 512 ==> Link(m', n, [0, 0, j]) == At(m', c)[j]
  {
    hide RawFork, Inv, Link, TableAt, Present;
    ChildTop(w, m', free', a, n, d, c, own);
    RootTable(m', n);
    WalkDown(m', n, [], 0);
    assert [] + [0] == [0];
    TableOfLink(m', n, [0]);
    WalkDown(m', n, [0], 0);
    assert [0] + [0] == [0, 0];
    TableOfLink(m', n, [0, 0]);
    forall j: nat | j < 512 ensures Link(m', n, [0, 0, j]) == At(m', c)[j] {
      WalkDown(m', n, [0, 0], j);
      assert [0, 0] + [j] == [0, 0, j];
    }
  }

  lemma ChildTop(w: World, m': Mem, free': set<nat>, a: nat, n: nat, d: nat, c: nat, own: map<nat, Path>)
    requires Inv(w) && a in w.roots && RawFork(w.codePages, w.mem, w.free, m', free', a, n, d, c, own)
    ensures Present(At(m', n)[0]) && At(m', n)[0].frame == d && Present(At(m', d)[0]) && At(m', d)[0].frame == c
  {
    hide Inv, HoldsAt, RawTable, ForkedTable;
    ParentSpine(w, a);
  }

  /** A table reached off the spine is shared, so creation did not write it. */
  lemma SharedTable(w: World, m': Mem, free': set<nat>, a: nat, n: nat, d: nat, c: nat, own: map<nat, Path>, p: Path,
                    t: nat)
    requires Inv(w) && a in w.roots && RawFork(w.codePages, w.mem, w.free, m', free', a, n, d, c, own)
    requires |p| <= 3 && !Spine(p) && TableAt(w.mem, a, p) == Some(t)
    ensures At(m', t) == At(w.mem, t)
  {
    hide Ledgered, RightsKept, Tree, HoldsAt, RawTable, ForkedTable;
    assert GoodRoot(w, a);
    assert TableAt(w.mem, a, p).value in w.shared;
  }

  /** The words of the private upper tables that lead off the spine. */
  lemma UpperWords(w: World, m': Mem, free': set<nat>, a: nat, n: nat, d: nat, c: nat, own: map<nat, Path>, i: nat)
    requires RawFork(w.codePages, w.mem, w.free, m', free', a, n, d, c, own)
    ensures i != 0 ==> Word(m', n, i) == Word(w.mem, a, i) && Word(m', d, i) == Word(w.mem, PdptOf(w.mem, a), i)
    ensures i != 2 && i != 3 ==> Word(m', c, i) == Word(w.mem, PdOf(w.mem, a), i)
  {
    hide HoldsAt, RawTable, ForkedTable;
  }

  lemma LeavesSpine(p: Path, i: nat)
    requires Spine(p) && !Spine(p + [i]) && !WindowLeaf(p + [i])
    ensures (p == [] && i != 0) || (p == [0] && i != 0) || (p == [0, 0] && i != 2 && i != 3)
  {
    assert [] + [0] == [0] && [0] + [0] == [0, 0] && [0, 0] + [2] == [0, 0, 2] && [0, 0] + [3] == [0, 0, 3];
  }

  lemma OffSpine(p: Path)
    requires |p| < 4 && !Spine(p)
    ensures 0 < |p| && !WindowLeaf(p)
  {
  }

  /** A word that leads off the private upper tables. */
  lemma SideWord(w: World, m': Mem, free': set<nat>, a: nat, n: nat, d: nat, c: nat, own: map<nat, Path>, p: Path,
                  i: nat)
    requires Inv(w) && a in w.roots && RawFork(w.codePages, w.mem, w.free, m', free', a, n, d, c, own)
    requires (p == [] && i != 0) || (p == [0] && i != 0) || (p == [0, 0] && i != 2 && i != 3)
    ensures Link(m', n, p + [i]) == Link(w.mem, a, p + [i])
  {
    hide Inv, RawFork, Link, TableAt, Word;
    WalkDown(m', n, p, i);
    WalkDown(w.mem, a, p, i);
    ChildSpine(w, m', free', a, n, d, c, own);
    ParentSpine(w, a);
    UpperWords(w, m', free', a, n, d, c, own, i);
    RootTable(m', n);
    RootTable(w.mem, a);
  }

  lemma SharedWord(w: World, m': Mem, free': set<nat>, a: nat, n: nat, d: nat, c: nat, own: map<nat, Path>, p: Path,
                   i: nat)
    requires Inv(w) && a in w.roots && RawFork(w.codePages, w.mem, w.free, m', free', a, n, d, c, own)
    requires 0 < |p| <= 3 && !Spine(p) && Link(m', n, p) == Link(w.mem, a, p)
    ensures Link(m', n, p + [i]) == Link(w.mem, a, p + [i])
  {
    hide Inv, RawFork, Link, Spine;
    WalkDown(m', n, p, i);
    WalkDown(w.mem, a, p, i);
    if TableAt(w.mem, a, p).Some? {
      SharedTable(w, m', free', a, n, d, c, own, p, TableAt(w.mem, a, p).value);
    }
  }

  /** Off the private tables the new space sees exactly the parent's words. */
  lemma {:induction false} CopyOffSpine(w: World, m': Mem, free': set<nat>, a: nat, n: nat, d: nat, c: nat,
                                        own: map<nat, Path>, q: Path)
    requires Inv(w) && a in w.roots && RawFork(w.codePages, w.mem, w.free, m', free', a, n, d, c, own)
    requires 0 < |q| <= 4 && !Spine(q) && !WindowLeaf(q)
    ensures Link(m', n, q) == Link(w.mem, a, q)
    decreases |q|
  {
    hide Inv, RawFork, Link, Spine, WindowLeaf;
    var p, i := q[..|q| - 1], q[|q| - 1];
    assert q == p + [i];
    if Spine(p) {
      LeavesSpine(p, i);
      SideWord(w, m', free', a, n, d, c, own, p, i);
    } else {
      OffSpine(p);
      CopyOffSpine(w, m', free', a, n, d, c, own, p);
      SharedWord(w, m', free', a, n, d, c, own, p, i);
    }
  }

  lemma ChildPt(w: World, m': Mem, free': set<nat>, a: nat, n: nat, d: nat, c: nat, own: map<nat, Path>, j: nat)
    requires RawFork(w.codePages, w.mem, w.free, m', free', a, n, d, c, own) && (j == 2 || j == 3)
    ensures ForkedTable(At(w.mem, PdOf(w.mem, a))[j], At(m', c)[j])
    ensures Present(At(w.mem, PdOf(w.mem, a))[j]) <==> Present(At(m', c)[j])
    ensures Present(At(w.mem, PdOf(w.mem, a))[j])
            ==> RawTable(w.codePages, w.mem, m', PtOf(w.mem, a, j), At(m', c)[j].frame, j)
  {
    hide HoldsAt, RawTable;
    assert ForkedTable(At(w.mem, PdOf(w.mem, a))[j], At(m', c)[j]);
    if Present(At(w.mem, PdOf(w.mem, a))[j]) {
      ForkedBits(At(w.mem, PdOf(w.mem, a))[j], At(m', c)[j]);
    }
  }

  lemma WindowLeafParts(q: Path)
    requires WindowLeaf(q)
    ensures (q[2] == 2 || q[2] == 3) && q == [0, 0, q[2]] + [q[3]] && PageOf(q) == q[2] * 512 + q[3]
  {
    assert q[..3][0] == q[0] && q[..3][1] == q[1] && q[..3][2] == q[2];
  }

  /** The word of a window leaf, when c is the page directory of root. */
  lemma LeafWord(m: Mem, root: nat, c: nat, q: Path)
    requires WindowLeaf(q) && TableAt(m, root, [0, 0]) == Some(c)
    ensures q[2] < 512
    ensures Link(m, root, q) == if Present(At(m, c)[q[2]]) then Word(m, At(m, c)[q[2]].frame, q[3]) else ZERO
  {
    WindowLeafParts(q);
    WalkDown(m, root, [0, 0], q[2]);
    WalkDown(m, root, [0, 0, q[2]], q[3]);
    assert [0, 0] + [q[2]] == [0, 0, q[2]];
  }

  lemma ChildLeaf(w: World, m': Mem, free': set<nat>, a: nat, n: nat, d: nat, c: nat, own: map<nat, Path>, q: Path)
    requires Inv(w) && a in w.roots && RawFork(w.codePages, w.mem, w.free, m', free', a, n, d, c, own)
    requires WindowLeaf(q)
    ensures ForkedLeaf(w.codePages, w.mem, m', Link(w.mem, a, q), Link(m', n, q), PageOf(q))
  {
    hide Inv, RawFork, Link, TableAt;
    WindowLeafParts(q);
    ChildSpine(w, m', free', a, n, d, c, own);
    ParentSpine(w, a);
    LeafWord(w.mem, a, PdOf(w.mem, a), q);
    LeafWord(m', n, c, q);
    ChildPt(w, m', free', a, n, d, c, own, q[2]);
  }

  /** Owning a position and holding a frame there, read off the tables, are the same thing. */
  lemma HoldsIsOwns(codePages: nat, m': Mem, n: nat, d: nat, c: nat, q: Path, f: nat)
    requires TableAt(m', n, [0]) == Some(d) && TableAt(m', n, [0, 0]) == Some(c)
    requires Link(m', n, [0, 0, 2]) == At(m', c)[2] && Link(m', n, [0, 0, 3]) == At(m', c)[3]
    ensures HoldsAt(codePages, m', n, d, c, q, f) <==> OwnsAt(codePages, m', n, q) && TableAt(m', n, q) == Some(f)
  {
    if WindowLeaf(q) {
      LeafWord(m', n, c, q);
    }
  }

  lemma RawForkOwns(w: World, m': Mem, free': set<nat>, a: nat, n: nat, d: nat, c: nat, own: map<nat, Path>)
    requires Inv(w) && a in w.roots && RawFork(w.codePages, w.mem, w.free, m', free', a, n, d, c, own)
    ensures FreshlyOwned(w.codePages, m', w.free, n) && OwnedFrames(w.codePages, m', n) == own.Keys
  {
    hide Inv, OwnsAt, TableAt, Link, HoldsAt, RawTable, ForkedTable;
    ChildSpine(w, m', free', a, n, d, c, own);
    forall q | OwnsAt(w.codePages, m', n, q)
      ensures TableAt(m', n, q).Some? && TableAt(m', n, q).value in own && own[TableAt(m', n, q).value] == q
    {
      OwnedHasFrame(w.codePages, m', n, q);
      HoldsIsOwns(w.codePages, m', n, d, c, q, TableAt(m', n, q).value);
    }
    forall f | f in own ensures f in OwnedFrames(w.codePages, m', n) {
      HoldsIsOwns(w.codePages, m', n, d, c, own[f], f);
      OwnedPosition(w.codePages, m', n, own[f]);
    }
  }

  lemma ChildUpper(w: World, m': Mem, free': set<nat>, a: nat, n: nat, d: nat, c: nat, own: map<nat, Path>)
    requires RawFork(w.codePages, w.mem, w.free, m', free', a, n, d, c, own)
    ensures At(m', n)[0] == Private(d, At(w.mem, a)[0]) && At(m', d)[0] == Private(c, At(w.mem, PdptOf(w.mem, a))[0])
  {
    hide HoldsAt, RawTable, ForkedTable;
  }

  lemma SpineWords(m: Mem, r: nat, d: nat, c: nat)
    requires TableAt(m, r, [0]) == Some(d) && TableAt(m, r, [0, 0]) == Some(c)
    ensures Link(m, r, [0]) == At(m, r)[0] && Link(m, r, [0, 0]) == At(m, d)[0]
    ensures Link(m, r, [0, 0, 2]) == At(m, c)[2] && Link(m, r, [0, 0, 3]) == At(m, c)[3]
  {
    RootWord(m, r, 0);
    WalkDown(m, r, [0], 0);
    WalkDown(m, r, [0, 0], 2);
    WalkDown(m, r, [0, 0], 3);
    assert [0] + [0] == [0, 0] && [0, 0] + [2] == [0, 0, 2] && [0, 0] + [3] == [0, 0, 3];
  }

  lemma ChildTable(w: World, m': Mem, free': set<nat>, a: nat, n: nat, d: nat, c: nat, own: map<nat, Path>, q: Path)
    requires Inv(w) && a in w.roots && RawFork(w.codePages, w.mem, w.free, m', free', a, n, d, c, own)
    requires q != [] && Spine(q)
    ensures ForkedTable(Link(w.mem, a, q), Link(m', n, q))
  {
    hide Inv, RawFork, Link, TableAt, RawTable;
    ChildUpper(w, m', free', a, n, d, c, own);
    ChildSpine(w, m', free', a, n, d, c, own);
    ParentSpine(w, a);
    ChildPt(w, m', free', a, n, d, c, own, 2);
    ChildPt(w, m', free', a, n, d, c, own, 3);
    SpineWords(w.mem, a, PdptOf(w.mem, a), PdOf(w.mem, a));
    SpineWords(m', n, d, c);
  }

  lemma RootWord(m: Mem, r: nat, i: nat)
    ensures Link(m, r, [i]) == Word(m, r, i)
  {
    WalkDown(m, r, [], i);
    assert [] + [i] == [i];
  }

  lemma RawForkParts(codePages: nat, m: Mem, free: set<nat>, m': Mem, free': set<nat>, a: nat, n: nat, d: nat, c: nat,
                     own: map<nat, Path>)
    requires RawFork(codePages, m, free, m', free', a, n, d, c, own)
    ensures n in own && own.Keys <= free && free' == free - own.Keys
    ensures forall f :: f !in free ==> At(m', f) == At(m, f)
  {
    assert HoldsAt(codePages, m', n, d, c, [], n);
  }

  /** The words kvmm_create_user_pml4 writes make the new root a fork of the parent. */
  lemma RawForkIsForked(w: World, m': Mem, free': set<nat>, a: nat, n: nat, d: nat, c: nat, own: map<nat, Path>)
    requires Inv(w) && a in w.roots && RawFork(w.codePages, w.mem, w.free, m', free', a, n, d, c, own)
    ensures Forked(w.codePages, w.mem, w.free, m', free', a, n) && n in w.free
  {
    hide Inv, RawFork, Link, TableAt, FreshlyOwned, OwnedFrames, ForkedTable, ForkedLeaf;
    RawForkOwns(w, m', free', a, n, d, c, own);
    RawForkParts(w.codePages, w.mem, w.free, m', free', a, n, d, c, own);
    forall q: Path | q != [] && Spine(q) ensures ForkedTable(Link(w.mem, a, q), Link(m', n, q)) {
      ChildTable(w, m', free', a, n, d, c, own, q);
    }
    forall q: Path | 0 < |q| <= 4 && !Spine(q) && !WindowLeaf(q) ensures Link(m', n, q) == Link(w.mem, a, q) {
      CopyOffSpine(w, m', free', a, n, d, c, own, q);
    }
    forall q: Path | WindowLeaf(q)
      ensures ForkedLeaf(w.codePages, w.mem, m', Link(w.mem, a, q), Link(m', n, q), PageOf(q))
    {
      ChildLeaf(w, m', free', a, n, d, c, own, q);
    }
  }
}
