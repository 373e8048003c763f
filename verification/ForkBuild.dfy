/** The stages of kvmm_create_user_pml4: the copy of the upper tables, then one page table of the
    window after the other. */
module ForkBuild {
  import opened PageTables
  import opened Spaces
  import opened Fork
  import opened ForkCopy

  /** The positions filled once the page tables below k are done. */
  ghost predicate HoldsBelow(codePages: nat, m': Mem, n: nat, d: nat, c: nat, k: nat, q: Path, f: nat) {
    HoldsAt(codePages, m', n, d, c, q, f) && (|q| <= 2 || q[2] < k)
  }

  ghost predicate Tables(codePages: nat, m: Mem, m': Mem, a: nat, c: nat, k: nat) {
    && (forall i :: 0 <= i < 512 && !(2 <= i < k) ==> At(m', c)[i] == At(m, PdOf(m, a))[i])
    && (forall j :: 2 <= j < k && j <= 3 ==> ForkedTable(At(m, PdOf(m, a))[j], At(m', c)[j]))
    && (forall j :: 2 <= j < k && j <= 3 && Present(At(m, PdOf(m, a))[j])
                    ==> RawTable(codePages, m, m', PtOf(m, a, j), At(m', c)[j].frame, j))
  }

  ghost predicate Owns(codePages: nat, m': Mem, n: nat, d: nat, c: nat, k: nat, own: map<nat, Path>) {
    && (forall q, f :: HoldsBelow(codePages, m', n, d, c, k, q, f) ==> f in own && own[f] == q)
    && (forall f :: f in own ==> HoldsBelow(codePages, m', n, d, c, k, own[f], f))
  }

  /** (m', free') is the state when the page tables 2 .. k - 1 of the copy are done. */
  ghost predicate Built(codePages: nat, m: Mem, free: set<nat>, m': Mem, free': set<nat>, a: nat, n: nat, d: nat,
                        c: nat, k: nat, own: map<nat, Path>)
  {
    && At(m', n) == At(m, a)[0 := ZERO]
    && At(m', d) == At(m, PdptOf(m, a))
    && Tables(codePages, m, m', a, c, k)
    && Owns(codePages, m', n, d, c, k, own)
    && own.Keys <= free && free' == free - own.Keys
    && (forall f :: f !in free ==> At(m', f) == At(m, f))
  }

  /** Filling in word 0 of the new PML4 and PDPT last completes the copy. */
  lemma BuiltIsRawFork(codePages: nat, m: Mem, free: set<nat>, m1: Mem, free1: set<nat>, a: nat, n: nat, d: nat, c: nat,
                       own: map<nat, Path>)
    requires Built(codePages, m, free, m1, free1, a, n, d, c, 4, own)
    ensures var m2 := Put(Put(m1, n, 0, Private(d, At(m, a)[0])), d, 0, Private(c, At(m, PdptOf(m, a))[0]));
            RawFork(codePages, m, free, m2, free1, a, n, d, c, own)
  {
    hide HoldsAt, Owns, RawTable, ForkedTable;
    var m2 := Put(Put(m1, n, 0, Private(d, At(m, a)[0])), d, 0, Private(c, At(m, PdptOf(m, a))[0]));
    BuiltDistinct(codePages, m1, n, d, c, 4, own);
    assert forall f :: f != n && f != d ==> At(m2, f) == At(m1, f);
    SameHolds(codePages, m1, m2, n, d, c, 4);
    AllHeld(codePages, m1, m2, n, d, c, own);
    forall j | 2 <= j <= 3 && Present(At(m, PdOf(m, a))[j])
      ensures RawTable(codePages, m, m2, PtOf(m, a, j), At(m2, c)[j].frame, j)
    {
      ForkedBits(At(m, PdOf(m, a))[j], At(m1, c)[j]);
      KeepRawTable(codePages, m, m1, m2, a, n, d, c, 4, own, j);
    }
  }

  lemma AllHeld(codePages: nat, m1: Mem, m2: Mem, n: nat, d: nat, c: nat, own: map<nat, Path>)
    requires Owns(codePages, m1, n, d, c, 4, own)
    requires forall q, f :: HoldsBelow(codePages, m2, n, d, c, 4, q, f) <==> HoldsBelow(codePages, m1, n, d, c, 4, q, f)
    ensures forall q, f :: HoldsAt(codePages, m2, n, d, c, q, f) ==> f in own && own[f] == q
    ensures forall f :: f in own ==> HoldsAt(codePages, m2, n, d, c, own[f], f)
  {
    forall q, f | HoldsAt(codePages, m2, n, d, c, q, f) ensures f in own && own[f] == q {
      if WindowLeaf(q) {
        WindowLeafParts(q);
      }
      assert HoldsBelow(codePages, m2, n, d, c, 4, q, f);
      assert HoldsBelow(codePages, m1, n, d, c, 4, q, f);
    }
    forall f | f in own ensures HoldsAt(codePages, m2, n, d, c, own[f], f) {
      assert HoldsBelow(codePages, m1, n, d, c, 4, own[f], f);
      assert HoldsBelow(codePages, m2, n, d, c, 4, own[f], f);
    }
  }

  /** A finished page table survives writes outside it and outside the pages it backs. */
  lemma KeepRawTable(codePages: nat, m: Mem, m1: Mem, m2: Mem, a: nat, n: nat, d: nat, c: nat, k: nat,
                     own: map<nat, Path>, j: nat)
    requires 2 <= j < k <= 4 && Present(At(m1, c)[j]) && Owns(codePages, m1, n, d, c, k, own)
    requires RawTable(codePages, m, m1, PtOf(m, a, j), At(m1, c)[j].frame, j)
    requires forall f :: f in own && |own[f]| > 2 ==> At(m2, f) == At(m1, f)
    ensures RawTable(codePages, m, m2, PtOf(m, a, j), At(m1, c)[j].frame, j)
  {
    var from, to := PtOf(m, a, j), At(m1, c)[j].frame;
    assert HoldsBelow(codePages, m1, n, d, c, k, [0, 0, j], to);
    forall i | 0 <= i < 512 ensures ForkedLeaf(codePages, m, m2, At(m, from)[i], At(m2, to)[i], j * 512 + i) {
      assert ForkedLeaf(codePages, m, m1, At(m, from)[i], At(m1, to)[i], j * 512 + i);
      if OwnedWord(codePages, At(m, from)[i], j * 512 + i) {
        var q := [0, 0, j, i];
        assert q[..3] == [0, 0, j] && PageOf(q) == j * 512 + i;
        assert HoldsBelow(codePages, m1, n, d, c, k, q, At(m1, to)[i].frame);
      }
    }
  }

  /** Positions below k depend only on the directory's words below k and the page tables they lead to. */
  lemma SameHolds(codePages: nat, m1: Mem, m2: Mem, n: nat, d: nat, c: nat, k: nat)
    requires 2 <= k <= 4
    requires forall j :: 2 <= j < k ==> At(m2, c)[j] == At(m1, c)[j]
    requires forall j :: 2 <= j < k && Present(At(m1, c)[j]) ==>
               At(m2, At(m1, c)[j].frame) == At(m1, At(m1, c)[j].frame)
    ensures forall q, f :: HoldsBelow(codePages, m2, n, d, c, k, q, f) <==> HoldsBelow(codePages, m1, n, d, c, k, q, f)
  {
    forall q, f ensures HoldsBelow(codePages, m2, n, d, c, k, q, f) <==> HoldsBelow(codePages, m1, n, d, c, k, q, f) {
      if WindowLeaf(q) {
        WindowLeafParts(q);
      }
    }
  }

  /** The three upper tables copied, nothing else yet. */
  lemma BuiltStart(codePages: nat, m: Mem, free: set<nat>, m1: Mem, a: nat, n: nat, d: nat, c: nat)
    requires n in free && d in free && c in free && n != d && n != c && d != c
    requires At(m1, n) == At(m, a)[0 := ZERO] && At(m1, d) == At(m, PdptOf(m, a)) && At(m1, c) == At(m, PdOf(m, a))
    requires forall f :: f !in free ==> At(m1, f) == At(m, f)
    ensures Built(codePages, m, free, m1, free - {n, d, c}, a, n, d, c, 2, UpperOwn(n, d, c))
  {
    var own: map<nat, Path> := UpperOwn(n, d, c);
    forall q, f | HoldsBelow(codePages, m1, n, d, c, 2, q, f) ensures f in own && own[f] == q {
      if WindowLeaf(q) {
        WindowLeafParts(q);
      }
    }
    assert own.Keys == {n, d, c};
    forall f | f in own ensures HoldsBelow(codePages, m1, n, d, c, 2, own[f], f) {
    }
  }

  /** The positions of the three upper tables. */
  function UpperOwn(n: nat, d: nat, c: nat): map<nat, Path> {
    map[n := [], d := [0], c := [0, 0]]
  }

  lemma UpperIsBuilt(codePages: nat, m: Mem, free: set<nat>, m1: Mem, a: nat, n: nat, d: nat, c: nat)
    requires n in free && d in free && c in free && n != d && n != c && d != c
    requires a !in free && PdptOf(m, a) !in free && PdOf(m, a) !in free
    requires At(m1, n) == At(m, a)[0 := ZERO] && forall f :: f != n ==> At(m1, f) == At(m, f)
    ensures var m2 := m1[d := At(m1, PdptOf(m, a))];
            && At(m1, a) == At(m, a) && At(m2, PdptOf(m, a)) == At(m, PdptOf(m, a))
            && Built(codePages, m, free, m2[c := At(m2, PdOf(m, a))], free - {n, d, c}, a, n, d, c, 2,
                     UpperOwn(n, d, c))
  {
    hide Built;
    var m2 := m1[d := At(m1, PdptOf(m, a))];
    BuiltStart(codePages, m, free, m2[c := At(m2, PdOf(m, a))], a, n, d, c);
  }

  /** The private tables are pairwise distinct. */
  lemma BuiltDistinct(codePages: nat, m1: Mem, n: nat, d: nat, c: nat, k: nat, own: map<nat, Path>)
    requires 2 <= k <= 4 && Owns(codePages, m1, n, d, c, k, own)
    ensures n in own && d in own && c in own && n != d && n != c && d != c
    ensures own[n] == [] && own[d] == [0] && own[c] == [0, 0]
    ensures forall j :: 2 <= j < k && Present(At(m1, c)[j])
                        ==> At(m1, c)[j].frame in own && own[At(m1, c)[j].frame] == [0, 0, j] && At(m1, c)[j].frame != c
  {
    assert HoldsBelow(codePages, m1, n, d, c, k, [], n);
    assert HoldsBelow(codePages, m1, n, d, c, k, [0], d);
    assert HoldsBelow(codePages, m1, n, d, c, k, [0, 0], c);
    forall j | 2 <= j < k && Present(At(m1, c)[j])
      ensures At(m1, c)[j].frame in own && own[At(m1, c)[j].frame] == [0, 0, j] && At(m1, c)[j].frame != c
    {
      assert HoldsBelow(codePages, m1, n, d, c, k, [0, 0, j], At(m1, c)[j].frame);
    }
  }

  lemma TablesStep(codePages: nat, m: Mem, m1: Mem, m2: Mem, a: nat, n: nat, d: nat, c: nat, k: nat,
                   own: map<nat, Path>)
    requires 2 <= k <= 3 && Owns(codePages, m1, n, d, c, k, own) && Tables(codePages, m, m1, a, c, k)
    requires forall i :: 0 <= i < 512 && i != k ==> At(m2, c)[i] == At(m1, c)[i]
    requires forall f :: f in own && |own[f]| > 2 ==> At(m2, f) == At(m1, f)
    requires ForkedTable(At(m, PdOf(m, a))[k], At(m2, c)[k])
    requires Present(At(m, PdOf(m, a))[k]) ==> RawTable(codePages, m, m2, PtOf(m, a, k), At(m2, c)[k].frame, k)
    ensures Tables(codePages, m, m2, a, c, k + 1)
  {
    hide RawTable;
    forall j | 2 <= j < k && Present(At(m, PdOf(m, a))[j])
      ensures RawTable(codePages, m, m2, PtOf(m, a, j), At(m2, c)[j].frame, j)
    {
      ForkedBits(At(m, PdOf(m, a))[j], At(m1, c)[j]);
      KeepRawTable(codePages, m, m1, m2, a, n, d, c, k, own, j);
    }
  }

  /** The parent has no page table k: neither has the copy. */
  /** An absent page table adds no position. */
  lemma AbsentOwns(codePages: nat, m1: Mem, m2: Mem, n: nat, d: nat, c: nat, k: nat, own: map<nat, Path>)
    requires 2 <= k <= 3 && Owns(codePages, m1, n, d, c, k, own) && !Present(At(m2, c)[k])
    requires forall q, f :: HoldsBelow(codePages, m2, n, d, c, k, q, f) <==> HoldsBelow(codePages, m1, n, d, c, k, q, f)
    ensures Owns(codePages, m2, n, d, c, k + 1, own)
  {
    hide HoldsBelow, Present;
    var k' := k + 1;
    forall q, f | HoldsBelow(codePages, m2, n, d, c, k', q, f) ensures f in own && own[f] == q {
      AbsentHolds(codePages, m2, n, d, c, k, q, f);
      assert HoldsBelow(codePages, m1, n, d, c, k, q, f);
    }
    forall f | f in own ensures HoldsBelow(codePages, m2, n, d, c, k', own[f], f) {
      assert HoldsBelow(codePages, m1, n, d, c, k, own[f], f);
      AbsentHolds(codePages, m2, n, d, c, k, own[f], f);
    }
  }

  lemma AbsentHolds(codePages: nat, m2: Mem, n: nat, d: nat, c: nat, k: nat, q: Path, f: nat)
    requires 2 <= k <= 3 && !Present(At(m2, c)[k])
    ensures HoldsBelow(codePages, m2, n, d, c, k + 1, q, f) <==> HoldsBelow(codePages, m2, n, d, c, k, q, f)
  {
    hide OwnedWord, Present;
    if WindowLeaf(q) {
      WindowLeafParts(q);
    }
  }

  lemma BuildAbsent(codePages: nat, m: Mem, free: set<nat>, m1: Mem, free1: set<nat>, a: nat, n: nat, d: nat, c: nat,
                    k: nat, own: map<nat, Path>)
    requires 2 <= k <= 3 && Built(codePages, m, free, m1, free1, a, n, d, c, k, own)
    requires !Present(At(m, PdOf(m, a))[k])
    ensures Built(codePages, m, free, Put(m1, c, k, ZERO), free1, a, n, d, c, k + 1, own)
  {
    hide Owns, HoldsBelow, RawTable, Present;
    var m2 := Put(m1, c, k, ZERO);
    BuiltDistinct(codePages, m1, n, d, c, k, own);
    AbsentTable(codePages, m, m1, a, n, d, c, k, own);
    SameHolds(codePages, m1, m2, n, d, c, k);
    ZeroAbsent();
    AbsentOwns(codePages, m1, m2, n, d, c, k, own);
  }

  lemma ZeroAbsent()
    ensures !Present(ZERO)
  {
  }

  lemma AbsentTable(codePages: nat, m: Mem, m1: Mem, a: nat, n: nat, d: nat, c: nat, k: nat, own: map<nat, Path>)
    requires 2 <= k <= 3 && Owns(codePages, m1, n, d, c, k, own) && Tables(codePages, m, m1, a, c, k)
    requires !Present(At(m, PdOf(m, a))[k])
    ensures Tables(codePages, m, Put(m1, c, k, ZERO), a, c, k + 1)
  {
    hide Tables, HoldsBelow, RawTable;
    BuiltDistinct(codePages, m1, n, d, c, k, own);
    OwnNotPd(codePages, m1, n, d, c, k, own);
    TablesStep(codePages, m, m1, Put(m1, c, k, ZERO), a, n, d, c, k, own);
  }

  lemma OwnNotPd(codePages: nat, m1: Mem, n: nat, d: nat, c: nat, k: nat, own: map<nat, Path>)
    requires 2 <= k <= 4 && Owns(codePages, m1, n, d, c, k, own)
    ensures forall f :: f in own && |own[f]| > 2 ==> f != c
  {
    hide HoldsBelow;
    BuiltDistinct(codePages, m1, n, d, c, k, own);
  }

  function Claimed(own: map<nat, Path>, k: nat, t: nat, got: map<nat, nat>): map<nat, Path> {
    own[t := [0, 0, k]] + map f | f in got :: [0, 0, k, got[f]]
  }

  /** What the new page table k adds to the positions held. */
  lemma ClaimedHolds(codePages: nat, m1: Mem, m2: Mem, n: nat, d: nat, c: nat, k: nat, own: map<nat, Path>, t: nat,
                     got: map<nat, nat>)
    requires 2 <= k <= 3 && Owns(codePages, m1, n, d, c, k, own)
    requires forall q, f :: HoldsBelow(codePages, m2, n, d, c, k, q, f) <==> HoldsBelow(codePages, m1, n, d, c, k, q, f)
    requires Present(At(m2, c)[k]) && At(m2, c)[k].frame == t
    requires forall i :: 0 <= i < 512 && OwnedWord(codePages, At(m2, t)[i], k * 512 + i)
                         ==> At(m2, t)[i].frame in got && got[At(m2, t)[i].frame] == i
    requires forall f :: f in got ==> got[f] < 512 && OwnedWord(codePages, At(m2, t)[got[f]], k * 512 + got[f])
                                      && At(m2, t)[got[f]].frame == f
    requires t !in got && t !in own && got.Keys !! own.Keys
    ensures Owns(codePages, m2, n, d, c, k + 1, Claimed(own, k, t, got))
  {
    var own', k' := Claimed(own, k, t, got), k + 1;
    forall q, f | HoldsBelow(codePages, m2, n, d, c, k', q, f) ensures f in own' && own'[f] == q {
      if WindowLeaf(q) {
        WindowLeafParts(q);
      }
      if |q| > 2 && q[2] == k {
        assert q == [0, 0, k] ==> f == t;
      } else {
        assert HoldsBelow(codePages, m2, n, d, c, k, q, f);
        assert HoldsBelow(codePages, m1, n, d, c, k, q, f);
      }
    }
    forall f | f in own' ensures HoldsBelow(codePages, m2, n, d, c, k', own'[f], f) {
      if f in got {
        var q := [0, 0, k, got[f]];
        assert q[..3] == [0, 0, k] && PageOf(q) == k * 512 + got[f];
      } else if f != t {
        assert HoldsBelow(codePages, m1, n, d, c, k, own[f], f);
        assert HoldsBelow(codePages, m2, n, d, c, k, own[f], f);
      }
    }
  }

  /** Copying relative to the state so far is copying relative to the state at the start. */
  lemma CopiedTable(codePages: nat, m: Mem, free: set<nat>, m1: Mem, mc: Mem, m2: Mem, free1: set<nat>, free2: set<nat>,
                    k: nat, from: nat, t: nat, got: map<nat, nat>, c: nat)
    requires forall f :: f !in free ==> At(m1, f) == At(m, f)
    requires from !in free && t in free && c != t && c !in got
    requires forall i :: 0 <= i < 512 && OwnedWord(codePages, At(m, from)[i], k * 512 + i) ==>
               At(m, from)[i].frame !in free
    requires Copied(codePages, m1[t := Blank()], free1 - {t}, mc, free2, from, t, k, 512, got)
    requires forall f :: f != c ==> At(m2, f) == At(mc, f)
    ensures RawTable(codePages, m, m2, from, t, k)
    ensures forall i :: 0 <= i < 512 && OwnedWord(codePages, At(m2, t)[i], k * 512 + i)
                        ==> At(m2, t)[i].frame in got && got[At(m2, t)[i].frame] == i
    ensures forall f :: f in got ==> got[f] < 512 && OwnedWord(codePages, At(m2, t)[got[f]], k * 512 + got[f])
                                     && At(m2, t)[got[f]].frame == f
  {
    var mb := m1[t := Blank()];
    assert At(mb, from) == At(m, from);
    forall i | 0 <= i < 512
      ensures ForkedLeaf(codePages, m, m2, At(m, from)[i], At(m2, t)[i], k * 512 + i)
      ensures OwnedWord(codePages, At(m2, t)[i], k * 512 + i) <==> OwnedWord(codePages, At(m, from)[i], k * 512 + i)
    {
      assert ForkedLeaf(codePages, mb, mc, At(mb, from)[i], At(mc, t)[i], k * 512 + i);
    }
  }

  /** Page table k was copied into t, backed by the frames of got: what that leaves alone. */
  lemma CopiedKeeps(codePages: nat, m: Mem, free: set<nat>, m1: Mem, free1: set<nat>, a: nat, n: nat, d: nat, c: nat,
                    k: nat, own: map<nat, Path>, t: nat, mc: Mem, free2: set<nat>, got: map<nat, nat>)
    requires 2 <= k <= 3 && Built(codePages, m, free, m1, free1, a, n, d, c, k, own) && t in free1
    requires Copied(codePages, m1[t := Blank()], free1 - {t}, mc, free2, PtOf(m, a, k), t, k, 512, got)
    ensures t in free && t !in own && t !in got && got.Keys !! own.Keys && got.Keys <= free && c !in got && c != t
    ensures forall f :: f in own || f !in free ==> At(mc, f) == At(m1, f)
    ensures At(m1, c)[k] == At(m, PdOf(m, a))[k] && At(mc, c) == At(m1, c)
    ensures free2 == free - Claimed(own, k, t, got).Keys && Claimed(own, k, t, got).Keys <= free
  {
    hide Owns, HoldsBelow, HoldsAt, RawTable, Copied, Tables, OwnedWord, ForkedLeaf;
    BuiltDistinct(codePages, m1, n, d, c, k, own);
    CopiedFrame(codePages, m1, free1, mc, free2, PtOf(m, a, k), t, k, got);
    NextWord(codePages, m, m1, a, c, k);
    assert Claimed(own, k, t, got).Keys == own.Keys + {t} + got.Keys;
  }

  /** Linking the copied page table finishes stage k. */
  lemma BuildTable(codePages: nat, m: Mem, free: set<nat>, m1: Mem, free1: set<nat>, a: nat, n: nat, d: nat, c: nat,
                   k: nat, own: map<nat, Path>, t: nat, mc: Mem, free2: set<nat>, got: map<nat, nat>)
    requires 2 <= k <= 3 && Built(codePages, m, free, m1, free1, a, n, d, c, k, own)
    requires Present(At(m, PdOf(m, a))[k]) && t in free1 && PtOf(m, a, k) !in free
    requires forall i :: 0 <= i < 512 && OwnedWord(codePages, At(m, PtOf(m, a, k))[i], k * 512 + i)
                         ==> At(m, PtOf(m, a, k))[i].frame !in free
    requires Copied(codePages, m1[t := Blank()], free1 - {t}, mc, free2, PtOf(m, a, k), t, k, 512, got)
    ensures At(mc, c) == At(m1, c)
    ensures Built(codePages, m, free, Put(mc, c, k, Private(t, At(m1, c)[k])), free2, a, n, d, c,
                  k + 1, Claimed(own, k, t, got))
  {
    hide Owns, HoldsBelow, HoldsAt, RawTable, Copied, Tables, OwnedWord, ForkedLeaf, Claimed;
    var m2 := Put(mc, c, k, Private(t, At(m1, c)[k]));
    CopiedKeeps(codePages, m, free, m1, free1, a, n, d, c, k, own, t, mc, free2, got);
    BuiltDistinct(codePages, m1, n, d, c, k, own);
    assert At(m2, c) == At(m1, c)[k := Private(t, At(m1, c)[k])];
    CopiedTable(codePages, m, free, m1, mc, m2, free1, free2, k, PtOf(m, a, k), t, got, c);
    ForkedBits(At(m, PdOf(m, a))[k], At(m2, c)[k]);
    TablesStep(codePages, m, m1, m2, a, n, d, c, k, own);
    SameHolds(codePages, m1, m2, n, d, c, k);
    ClaimedHolds(codePages, m1, m2, n, d, c, k, own, t, got);
  }

  lemma NextWord(codePages: nat, m: Mem, m1: Mem, a: nat, c: nat, k: nat)
    requires k < 512 && Tables(codePages, m, m1, a, c, k)
    ensures At(m1, c)[k] == At(m, PdOf(m, a))[k]
  {
  }

  lemma CopiedFrame(codePages: nat, m1: Mem, free1: set<nat>, mc: Mem, free2: set<nat>, from: nat, t: nat, k: nat,
                    got: map<nat, nat>)
    requires Copied(codePages, m1[t := Blank()], free1 - {t}, mc, free2, from, t, k, 512, got)
    ensures got.Keys <= free1 - {t} && free2 == free1 - {t} - got.Keys
    ensures forall f :: f !in got && f != t ==> At(mc, f) == At(m1, f)
  {
  }

  // ---------------------------------------------------------------- what the failure paths free

  /** A word a rollback loop frees: present (and, if asked, user) and not of the null frame. */
  predicate Hit(e: Entry, userOnly: bool) {
    Present(e) && (userOnly ==> User(e)) && e.frame != 0
  }

  predicate StrayWord(codePages: nat, e: Entry, vp: nat, userOnly: bool) {
    Hit(e, userOnly) && !OwnedWord(codePages, e, vp)
  }

  /** The frames a rollback loop frees over the first n words of table t. */
  function WordFrames(m: Mem, t: nat, n: nat, userOnly: bool): set<nat> {
    set i: nat | i < n && i < 512 && Hit(At(m, t)[i], userOnly) :: At(m, t)[i].frame
  }

  /** Of those, the frames the copy did not allocate: the parent's shared and kernel pages. */
  function Stray(codePages: nat, m: Mem, from: nat, j: nat, n: nat, userOnly: bool): set<nat> {
    set i: nat | i < n && i < 512 && StrayWord(codePages, At(m, from)[i], j * 512 + i, userOnly) :: At(m, from)[i].frame
  }

  /** Which frame a rollback loop finds in a copied word. */
  lemma RawHit(codePages: nat, was: Entry, now: Entry, vp: nat, i: nat, got: map<nat, nat>, userOnly: bool)
    requires RawWord(codePages, was, now, vp, i, got) && 0 !in got
    ensures OwnedWord(codePages, was, vp) ==> Hit(now, userOnly) && now.frame in got && got[now.frame] == i
    ensures OwnedWord(codePages, was, vp) ==> !StrayWord(codePages, was, vp, userOnly)
    ensures !OwnedWord(codePages, was, vp) ==> (Hit(now, userOnly) <==> StrayWord(codePages, was, vp, userOnly))
    ensures !OwnedWord(codePages, was, vp) && Hit(now, userOnly) ==> now.frame == was.frame
  {
  }

  /** A partial copy holds the frames taken for it and the parent's stray frames. */
  lemma RawFrames(codePages: nat, m: Mem, m': Mem, from: nat, t: nat, j: nat, n: nat, got: map<nat, nat>,
                  userOnly: bool)
    requires n <= 512 && RawWords(codePages, m, m', from, t, j, n, got) && 0 !in got
    ensures WordFrames(m', t, n, userOnly) == got.Keys + Stray(codePages, m, from, j, n, userOnly)
  {
    hide OwnedWord, Hit, StrayWord, RawWord;
    forall i: nat | i < n ensures RawWord(codePages, At(m, from)[i], At(m', t)[i], j * 512 + i, i, got) {
    }
    forall i: nat | i < n
      ensures OwnedWord(codePages, At(m, from)[i], j * 512 + i) ==>
                Hit(At(m', t)[i], userOnly) && At(m', t)[i].frame in got
      ensures !OwnedWord(codePages, At(m, from)[i], j * 512 + i) ==>
                (Hit(At(m', t)[i], userOnly) <==> StrayWord(codePages, At(m, from)[i], j * 512 + i, userOnly))
                && (Hit(At(m', t)[i], userOnly) ==> At(m', t)[i].frame == At(m, from)[i].frame)
      ensures StrayWord(codePages, At(m, from)[i], j * 512 + i, userOnly) ==>
                !OwnedWord(codePages, At(m, from)[i], j * 512 + i)
    {
      RawHit(codePages, At(m, from)[i], At(m', t)[i], j * 512 + i, i, got, userOnly);
    }
    forall f | f in got ensures f in WordFrames(m', t, n, userOnly) {
      assert Hit(At(m', t)[got[f]], userOnly);
    }
  }

  /** Where creation can run out of frames: an upper table or the first page table, a page of the first
      page table, the second page table, or one of its pages. */
  datatype Stage = Upper | LowPage(i: nat) | HighTable | HighPage(i: nat)

  function LowStray(codePages: nat, m: Mem, a: nat, userOnly: bool): set<nat> {
    if Present(At(m, PdOf(m, a))[2]) then Stray(codePages, m, PtOf(m, a, 2), 2, 512, userOnly)
    else WordFrames(m, 0, 512, userOnly)
  }

  /** The frames a failed creation returns to the free set although it never took them. */
  function Lost(codePages: nat, m: Mem, a: nat, stage: Stage): set<nat> {
    match stage
    case Upper => {}
    case LowPage(i) => Stray(codePages, m, PtOf(m, a, 2), 2, i, true)
    case HighTable => LowStray(codePages, m, a, false)
    case HighPage(i) => LowStray(codePages, m, a, true) + Stray(codePages, m, PtOf(m, a, 3), 3, i, true)
  }

  /** The frames a failed creation gives up, word by word.  A rollback over user words finds the parent's shared
      pages, the one over all words its kernel pages as well; without a first page table it reads frame 0 as one. */
  lemma LostExact(codePages: nat, m: Mem, a: nat, n: nat, f: nat)
    requires n <= 512
    ensures Lost(codePages, m, a, Upper) == {}
    ensures f in Lost(codePages, m, a, LowPage(n)) <==> f != 0 && SharedFrame(codePages, m, PtOf(m, a, 2), 0x400, n, f)
    ensures At(m, PdOf(m, a))[2].low & 0x01 != 0 ==>
              (f in Lost(codePages, m, a, HighTable) <==>
                f != 0 && (|| SharedFrame(codePages, m, PtOf(m, a, 2), 0x400, 512, f)
                           || KernelFrame(m, PtOf(m, a, 2), f)))
    ensures At(m, PdOf(m, a))[2].low & 0x01 == 0 ==>
              (f in Lost(codePages, m, a, HighTable) <==>
                f != 0 && exists i :: 0 <= i < 512 && At(m, 0)[i].frame == f && At(m, 0)[i].low & 0x01 != 0)
    ensures At(m, PdOf(m, a))[2].low & 0x01 != 0 ==>
              (f in Lost(codePages, m, a, HighPage(n)) <==>
                f != 0 && (|| SharedFrame(codePages, m, PtOf(m, a, 2), 0x400, 512, f)
                           || SharedFrame(codePages, m, PtOf(m, a, 3), 0x600, n, f)))
  {
  }

  /** f is the frame of one of the first n words of page table t, a present user page at a shared address. */
  ghost predicate SharedFrame(codePages: nat, m: Mem, t: nat, vp: nat, n: nat, f: nat)
    requires n <= 512
  {
    exists i :: && 0 <= i < n && At(m, t)[i].frame == f && At(m, t)[i].low & 0x01 != 0 && At(m, t)[i].low & 0x04 != 0
                && ((vp + i) * 4096 < 0x400000 + codePages || vp + i == 0x44F)
  }

  /** f is the frame of a present page of page table t without the user bit. */
  ghost predicate KernelFrame(m: Mem, t: nat, f: nat) {
    exists i :: 0 <= i < 512 && At(m, t)[i].frame == f && At(m, t)[i].low & 0x01 != 0 && At(m, t)[i].low & 0x04 == 0
  }

  /** What copying page table j of a relies on. */
  lemma ParentTable(w: World, a: nat, j: nat)
    requires Inv(w) && a in w.roots && (j == 2 || j == 3) && Present(At(w.mem, PdOf(w.mem, a))[j])
    ensures PtOf(w.mem, a, j) !in w.free
    ensures forall i :: 0 <= i < 512 && OwnedWord(w.codePages, At(w.mem, PtOf(w.mem, a, j))[i], j * 512 + i)
                        ==> At(w.mem, PtOf(w.mem, a, j))[i].frame !in w.free
  {
    hide GoodRoot, Tree, RightsKept, Ledgered, Link, TableAt;
    ParentSpine(w, a);
    OldOwner(w, a, [0, 0, j]);
    forall i | 0 <= i < 512 && OwnedWord(w.codePages, At(w.mem, PtOf(w.mem, a, j))[i], j * 512 + i)
      ensures At(w.mem, PtOf(w.mem, a, j))[i].frame !in w.free
    {
      var q := [0, 0, j, i];
      assert q[..3] == [0, 0, j] && PageOf(q) == j * 512 + i;
      LeafWord(w.mem, a, PdOf(w.mem, a), q);
      TableOfLink(w.mem, a, q);
      OldOwner(w, a, q);
    }
  }

  lemma ParentUpper(w: World, a: nat)
    requires Inv(w) && a in w.roots
    ensures a !in w.free && PdptOf(w.mem, a) !in w.free && PdOf(w.mem, a) !in w.free
  {
    ParentSpine(w, a);
    hide GoodRoot, Tree, RightsKept, Ledgered;
    OldOwner(w, a, []);
    OldOwner(w, a, [0]);
    OldOwner(w, a, [0, 0]);
  }

  /** No page the copy of table `from` would duplicate is free, nor is the table. */
  ghost predicate CanCopy(codePages: nat, m: Mem, free: set<nat>, from: nat, j: nat) {
    from !in free
    && forall i :: 0 <= i < 512 && OwnedWord(codePages, At(m, from)[i], j * 512 + i) ==> At(m, from)[i].frame !in free
  }

  lemma BuiltFacts(codePages: nat, m: Mem, free: set<nat>, m1: Mem, free1: set<nat>, a: nat, n: nat, d: nat, c: nat,
                   k: nat, own: map<nat, Path>)
    requires 2 <= k <= 4 && Built(codePages, m, free, m1, free1, a, n, d, c, k, own)
    ensures free1 <= free && free1 == free - own.Keys && own.Keys <= free && n in own && d in own && c in own
    ensures forall f :: f !in free ==> At(m1, f) == At(m, f)
    ensures k < 4 ==> At(m1, c)[k] == At(m, PdOf(m, a))[k]
  {
    BuiltDistinct(codePages, m1, n, d, c, k, own);
  }

  lemma CopyReady(codePages: nat, m: Mem, free: set<nat>, m1: Mem, free1: set<nat>, a: nat, n: nat, d: nat, c: nat,
                  k: nat, own: map<nat, Path>, t: nat)
    requires 2 <= k <= 3 && Built(codePages, m, free, m1, free1, a, n, d, c, k, own)
    requires CanCopy(codePages, m, free, PtOf(m, a, k), k) && t in free1
    ensures Copyable(codePages, m1[t := Blank()], free1 - {t}, PtOf(m, a, k), t, k)
  {
    hide Owns, Tables;
    assert At(m1[t := Blank()], PtOf(m, a, k)) == At(m, PtOf(m, a, k));
  }

  /** Word by word, table t of the copy holds a frame of got for each owned word of the parent's table, and
      the parent's word otherwise. */
  ghost predicate RawWords(codePages: nat, m: Mem, m': Mem, from: nat, t: nat, j: nat, n: nat, got: map<nat, nat>)
    requires n <= 512
  {
    && (forall i :: 0 <= i < n ==> RawWord(codePages, At(m, from)[i], At(m', t)[i], j * 512 + i, i, got))
    && (forall f :: f in got ==> got[f] < n && At(m', t)[got[f]].frame == f
                                 && OwnedWord(codePages, At(m, from)[got[f]], j * 512 + got[f]))
  }

  ghost predicate RawWord(codePages: nat, was: Entry, now: Entry, vp: nat, i: nat, got: map<nat, nat>) {
    if OwnedWord(codePages, was, vp) then now.low == was.low && now.frame in got && got[now.frame] == i
    else now == if Present(was) then was else ZERO
  }

  lemma CopiedRaw(codePages: nat, m: Mem, m0: Mem, free0: set<nat>, m': Mem, free': set<nat>, from: nat, t: nat, j: nat,
                  n: nat, got: map<nat, nat>)
    requires n <= 512 && Copied(codePages, m0, free0, m', free', from, t, j, n, got) && At(m0, from) == At(m, from)
    ensures RawWords(codePages, m, m', from, t, j, n, got)
  {
    forall i | 0 <= i < n ensures RawWord(codePages, At(m, from)[i], At(m', t)[i], j * 512 + i, i, got) {
      assert ForkedLeaf(codePages, m0, m', At(m0, from)[i], At(m', t)[i], j * 512 + i);
    }
  }

  lemma RawWordsSame(codePages: nat, m: Mem, m1: Mem, m2: Mem, from: nat, t: nat, j: nat, n: nat, got: map<nat, nat>)
    requires n <= 512 && RawWords(codePages, m, m1, from, t, j, n, got) && At(m2, t) == At(m1, t)
    ensures RawWords(codePages, m, m2, from, t, j, n, got)
  {
  }

  lemma SameWordFrames(m1: Mem, m2: Mem, t: nat, n: nat, userOnly: bool)
    requires At(m2, t) == At(m1, t)
    ensures WordFrames(m2, t, n, userOnly) == WordFrames(m1, t, n, userOnly)
  {
  }

  lemma ClaimedKeys(own: map<nat, Path>, k: nat, t: nat, got: map<nat, nat>)
    ensures Claimed(own, k, t, got).Keys == own.Keys + {t} + got.Keys
  {
  }

  /** The first page table of the copy, or none when the parent has none: the rollback then reads frame 0. */
  ghost predicate LowTable(codePages: nat, m: Mem, m': Mem, a: nat, t: nat, got: map<nat, nat>) {
    if Present(At(m, PdOf(m, a))[2]) then 0 < t && t !in got
       && RawWords(codePages, m, m', PtOf(m, a, 2), t, 2, 512, got)
    else t == 0 && got == map[] && At(m', 0) == At(m, 0)
  }

  lemma LowTableSame(codePages: nat, m: Mem, m1: Mem, m2: Mem, a: nat, t: nat, got: map<nat, nat>)
    requires LowTable(codePages, m, m1, a, t, got) && At(m2, t) == At(m1, t)
    ensures LowTable(codePages, m, m2, a, t, got)
  {
    if Present(At(m, PdOf(m, a))[2]) {
      RawWordsSame(codePages, m, m1, m2, PtOf(m, a, 2), t, 2, 512, got);
    }
  }

  lemma LowWords(codePages: nat, m: Mem, m': Mem, a: nat, t: nat, got: map<nat, nat>, userOnly: bool)
    requires LowTable(codePages, m, m', a, t, got) && 0 !in got
    ensures WordFrames(m', t, 512, userOnly) == got.Keys + LowStray(codePages, m, a, userOnly)
  {
    hide Stray, WordFrames, RawWords;
    if Present(At(m, PdOf(m, a))[2]) {
      RawFrames(codePages, m, m', PtOf(m, a, 2), t, 2, 512, got, userOnly);
    } else {
      SameWordFrames(m, m', 0, 512, userOnly);
    }
  }
}
