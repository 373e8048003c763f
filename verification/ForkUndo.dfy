/** The failure paths of kvmm_create_user_pml4: which frames they free, when kpfree halts on one of them, and
    where creation runs out of frames. */
module ForkUndo {
  import opened Common
  import opened PageTables
  import opened Spaces
  import opened Fork
  import opened ForkCopy
  import opened ForkBuild
  import F = Frames

  // ---------------------------------------------------------------- when a rollback halts

  /** kpfree takes every frame of xs: none is out of range or free. */
  ghost predicate Clear(xs: set<nat>, limit: nat, free: set<nat>) {
    forall x :: x in xs ==> x < limit && x !in free
  }

  /** No frame is freed twice by the loop over the first n words of t. */
  ghost predicate WordsDistinct(m: Mem, t: nat, n: nat, userOnly: bool)
    requires n <= 512
  {
    forall i, k :: 0 <= i < k < n && Hit(At(m, t)[i], userOnly) && Hit(At(m, t)[k], userOnly)
                   ==> At(m, t)[i].frame != At(m, t)[k].frame
  }

  ghost predicate StraysDistinct(codePages: nat, m: Mem, from: nat, j: nat, n: nat, userOnly: bool)
    requires n <= 512
  {
    forall i, k :: 0 <= i < k < n && StrayWord(codePages, At(m, from)[i], j * 512 + i, userOnly)
                   && StrayWord(codePages, At(m, from)[k], j * 512 + k, userOnly)
                   ==> At(m, from)[i].frame != At(m, from)[k].frame
  }

  ghost predicate LowDistinct(codePages: nat, m: Mem, a: nat, userOnly: bool) {
    if Present(At(m, PdOf(m, a))[2]) then StraysDistinct(codePages, m, PtOf(m, a, 2), 2, 512, userOnly)
    else WordsDistinct(m, 0, 512, userOnly)
  }

  ghost predicate StageInRange(stage: Stage) {
    match stage
    case LowPage(i) => i < 512
    case HighPage(i) => i < 512
    case _ => true
  }

  /** Exactly when the rollback from `stage` does not halt, read off the parent's tables: the stray frames
      are in range, in use, and named once. */
  ghost predicate StraysOk(codePages: nat, m: Mem, a: nat, stage: Stage, limit: nat, free: set<nat>)
    requires StageInRange(stage)
  {
    && Clear(Lost(codePages, m, a, stage), limit, free)
    && match stage
       case Upper => true
       case LowPage(i) => StraysDistinct(codePages, m, PtOf(m, a, 2), 2, i, true)
       case HighTable => LowDistinct(codePages, m, a, false)
       case HighPage(i) =>
         && LowDistinct(codePages, m, a, true) && StraysDistinct(codePages, m, PtOf(m, a, 3), 3, i, true)
         && LowStray(codePages, m, a, true) !! Stray(codePages, m, PtOf(m, a, 3), 3, i, true)
  }

  /** Exactly when a rollback that does not halt restores the free set: it met no stray word at all. */
  ghost predicate NoStrays(codePages: nat, m: Mem, a: nat, stage: Stage)
    requires StageInRange(stage)
  {
    match stage
    case Upper => true
    case LowPage(n) => NoStrayWords(codePages, m, PtOf(m, a, 2), 2, n, true)
    case HighTable => NoLowStrays(codePages, m, a, false)
    case HighPage(n) => NoLowStrays(codePages, m, a, true) && NoStrayWords(codePages, m, PtOf(m, a, 3), 3, n, true)
  }

  ghost predicate NoStrayWords(codePages: nat, m: Mem, from: nat, j: nat, n: nat, userOnly: bool)
    requires n <= 512
  {
    forall i :: 0 <= i < n ==> !StrayWord(codePages, At(m, from)[i], j * 512 + i, userOnly)
  }

  ghost predicate NoLowStrays(codePages: nat, m: Mem, a: nat, userOnly: bool) {
    if Present(At(m, PdOf(m, a))[2]) then NoStrayWords(codePages, m, PtOf(m, a, 2), 2, 512, userOnly)
    else forall i :: 0 <= i < 512 ==> !Hit(At(m, 0)[i], userOnly)
  }

  lemma StrayEmpty(codePages: nat, m: Mem, from: nat, j: nat, n: nat, userOnly: bool)
    requires n <= 512
    ensures Stray(codePages, m, from, j, n, userOnly) == {} <==> NoStrayWords(codePages, m, from, j, n, userOnly)
  {
    hide StrayWord;
    if i :| 0 <= i < n && StrayWord(codePages, At(m, from)[i], j * 512 + i, userOnly) {
      assert At(m, from)[i].frame in Stray(codePages, m, from, j, n, userOnly);
    }
  }

  lemma LowEmpty(codePages: nat, m: Mem, a: nat, userOnly: bool)
    ensures LowStray(codePages, m, a, userOnly) == {} <==> NoLowStrays(codePages, m, a, userOnly)
  {
    hide Stray, NoStrayWords, Hit;
    if Present(At(m, PdOf(m, a))[2]) {
      StrayEmpty(codePages, m, PtOf(m, a, 2), 2, 512, userOnly);
    } else if i :| 0 <= i < 512 && Hit(At(m, 0)[i], userOnly) {
      assert At(m, 0)[i].frame in WordFrames(m, 0, 512, userOnly);
    }
  }

  /** For every stage: the free set is restored if and only if the rollback met no stray word. */
  lemma RestoredExact(codePages: nat, m: Mem, a: nat, stage: Stage, limit: nat, free: set<nat>)
    requires StageInRange(stage) && StraysOk(codePages, m, a, stage, limit, free)
    ensures free + Lost(codePages, m, a, stage) == free <==> NoStrays(codePages, m, a, stage)
    ensures NoStrays(codePages, m, a, stage) <==> Lost(codePages, m, a, stage) == {}
  {
    hide Stray, NoStrayWords, NoLowStrays, LowStray, StraysDistinct, LowDistinct;
    var lost := Lost(codePages, m, a, stage);
    assert free + lost == free <==> lost == {} by {
      if x :| x in lost {
        assert x !in free && x in free + lost;
      }
    }
    match stage {
      case Upper =>
      case LowPage(n) => StrayEmpty(codePages, m, PtOf(m, a, 2), 2, n, true);
      case HighTable => LowEmpty(codePages, m, a, false);
      case HighPage(n) =>
        LowEmpty(codePages, m, a, true);
        StrayEmpty(codePages, m, PtOf(m, a, 3), 3, n, true);
    }
  }

  /** The words of a copied table are distinct exactly when its strays are, and none of them is a frame
      taken for the copy. */
  lemma RawDistinct(codePages: nat, m: Mem, m': Mem, from: nat, t: nat, j: nat, n: nat, got: map<nat, nat>,
                    userOnly: bool)
    requires n <= 512 && RawWords(codePages, m, m', from, t, j, n, got) && 0 !in got
    ensures WordsDistinct(m', t, n, userOnly)
            <==> StraysDistinct(codePages, m, from, j, n, userOnly)
                 && Stray(codePages, m, from, j, n, userOnly) !! got.Keys
  {
    forall i | 0 <= i < n
      ensures StrayWord(codePages, At(m, from)[i], j * 512 + i, userOnly) ==>
                Hit(At(m', t)[i], userOnly) && At(m', t)[i] == At(m, from)[i]
      ensures Hit(At(m', t)[i], userOnly) ==> StrayWord(codePages, At(m, from)[i], j * 512 + i, userOnly)
                                               || (At(m', t)[i].frame in got && got[At(m', t)[i].frame] == i)
    {
      assert RawWord(codePages, At(m, from)[i], At(m', t)[i], j * 512 + i, i, got);
    }
    if WordsDistinct(m', t, n, userOnly) {
      OwnStrays(codePages, m, m', from, t, j, n, got, userOnly);
    } else {
      var i, k :| 0 <= i < k < n && Hit(At(m', t)[i], userOnly) && Hit(At(m', t)[k], userOnly)
          && At(m', t)[i].frame == At(m', t)[k].frame;
      assert StrayWord(codePages, At(m, from)[i], j * 512 + i, userOnly)
             ==> At(m, from)[i].frame in Stray(codePages, m, from, j, n, userOnly);
      assert StrayWord(codePages, At(m, from)[k], j * 512 + k, userOnly)
             ==> At(m, from)[k].frame in Stray(codePages, m, from, j, n, userOnly);
    }
  }

  lemma OwnStrays(codePages: nat, m: Mem, m': Mem, from: nat, t: nat, j: nat, n: nat, got: map<nat, nat>,
                  userOnly: bool)
    requires n <= 512 && RawWords(codePages, m, m', from, t, j, n, got) && 0 !in got
    requires WordsDistinct(m', t, n, userOnly)
    ensures Stray(codePages, m, from, j, n, userOnly) !! got.Keys
  {
    hide OwnedWord, Hit, StrayWord, RawWord;
    forall f | f in Stray(codePages, m, from, j, n, userOnly) ensures f !in got {
      var i: nat :| i < n && i < 512 && StrayWord(codePages, At(m, from)[i], j * 512 + i, userOnly)
          && f == At(m, from)[i].frame;
      assert RawWord(codePages, At(m, from)[i], At(m', t)[i], j * 512 + i, i, got);
      RawHit(codePages, At(m, from)[i], At(m', t)[i], j * 512 + i, i, got, userOnly);
      if f in got {
        var k := got[f];
        assert RawWord(codePages, At(m, from)[k], At(m', t)[k], j * 512 + k, k, got);
        RawHit(codePages, At(m, from)[k], At(m', t)[k], j * 512 + k, k, got, userOnly);
      }
    }
  }

  lemma LowRawDistinct(codePages: nat, m: Mem, m': Mem, a: nat, t: nat, got: map<nat, nat>, userOnly: bool)
    requires LowTable(codePages, m, m', a, t, got) && 0 !in got
    ensures WordsDistinct(m', t, 512, userOnly)
            <==> LowDistinct(codePages, m, a, userOnly) && LowStray(codePages, m, a, userOnly) !! got.Keys
  {
    hide Stray, RawWords, StraysDistinct;
    if Present(At(m, PdOf(m, a))[2]) {
      hide WordsDistinct;
      RawDistinct(codePages, m, m', PtOf(m, a, 2), t, 2, 512, got, userOnly);
    }
  }

  /** kpfree of the three upper tables and a page table (0: none) after `free`. */
  ghost predicate TablesOk(n: nat, d: nat, c: nat, t: nat, limit: nat, free: set<nat>) {
    && n != d && n != c && d != c && t != n && t != d && t != c
    && Clear({n, d, c} + ({t} - {0}), limit, free)
  }

  lemma TablesParts(n: nat, d: nat, c: nat, t: nat, limit: nat, free: set<nat>)
    requires 0 < n && 0 < d && 0 < c
    ensures TablesOk(n, d, c, t, limit, free)
            <==> && (n < limit && n !in free) && (d < limit && d !in free + {n})
                 && (c < limit && c !in free + {n} + {d})
                 && (t == 0 || (t < limit && t !in free + {n} + {d} + {c}))
    ensures t == 0 ==> free + {n} + {d} + {c} == free + ({n, d, c} + ({t} - {0}))
    ensures t != 0 ==> free + {n} + {d} + {c} + {t} == free + ({n, d, c} + ({t} - {0}))
  {
    if t == 0 {
      assert {n, d, c} + ({t} - {0}) == {n, d, c};
    } else {
      assert {n, d, c} + ({t} - {0}) == {n, d, c, t};
    }
  }

  /** Frees that follow one another, when `got` and the tables were taken from the free set: they go through
      exactly when the strays were in range and in use to begin with. */
  lemma OneRollback(free: set<nat>, got: set<nat>, tables: set<nat>, strays: set<nat>, limit: nat)
    requires got <= free && tables <= free && got !! tables && forall f :: f in free ==> f < limit
    ensures var f1 := free - got - tables;
            && ((strays !! got && Clear(got + strays, limit, f1) && Clear(tables, limit, f1 + (got + strays)))
                <==> Clear(strays, limit, free))
            && f1 + (got + strays) + tables == free + strays
  {
    var f1 := free - got - tables;
    if Clear(strays, limit, free) {
      assert strays !! got && strays !! tables;
    }
    if strays !! got && Clear(got + strays, limit, f1) && Clear(tables, limit, f1 + (got + strays)) {
      forall x | x in strays ensures x < limit && x !in free {
        assert x in got + strays;
        assert x in tables ==> x !in f1 + (got + strays);
      }
    }
  }

  /** The same with two page tables, the last freed being the second table itself. */
  lemma TwoRollbacks(free: set<nat>, got2: set<nat>, got3: set<nat>, tables: set<nat>, last: nat, low: set<nat>,
                     high: set<nat>, limit: nat)
    requires got2 <= free && got3 <= free && tables <= free && last in free && forall f :: f in free ==> f < limit
    requires got2 !! tables && got3 !! tables && got2 !! got3 && last !in got2 + got3 + tables
    ensures var f1 := free - got2 - tables - {last} - got3;
            var f2 := f1 + (got3 + high);
            var f3 := f2 + (got2 + low);
            && ((high !! got3 && Clear(got3 + high, limit, f1) && low !! got2 && Clear(got2 + low, limit, f2)
                 && Clear(tables, limit, f3) && last !in f3 + tables)
                <==> Clear(low + high, limit, free) && low !! high)
            && f3 + tables + {last} == free + (low + high)
  {
    var f1 := free - got2 - tables - {last} - got3;
    var f2 := f1 + (got3 + high);
    var f3 := f2 + (got2 + low);
    if Clear(low + high, limit, free) && low !! high {
      assert low !! free && high !! free by {
        forall x | x in free ensures x !in low && x !in high {
          assert x in low + high ==> x !in free;
        }
      }
      assert forall x :: x in low || x in high ==> x in low + high;
    }
    if high !! got3 && Clear(got3 + high, limit, f1) && low !! got2 && Clear(got2 + low, limit, f2)
       && Clear(tables, limit, f3) && last !in f3 + tables {
      forall x | x in high ensures x < limit && x !in free && x !in low {
        assert x in got3 + high && x in f2 && x in f3;
        assert x in got2 ==> x in got2 + low;
        assert x in low ==> x in got2 + low;
        assert x in tables ==> x !in f3;
      }
      forall x | x in low ensures x < limit && x !in free {
        assert x in got2 + low && x in f3;
        assert x in tables ==> x !in f3;
      }
    }
  }

  // ---------------------------------------------------------------- where creation runs out of frames

  /** A position of the walk for which the copy of space a needs a frame of its own. */
  predicate Needed(codePages: nat, m: Mem, a: nat, q: Path) {
    || q == [] || q == [0] || q == [0, 0]
    || ((q == [0, 0, 2] || q == [0, 0, 3]) && Present(At(m, PdOf(m, a))[q[2]]))
    || (WindowLeaf(q) && q[3] < 512 && WindowWord(codePages, m, a, q[2], q[3]))
  }

  predicate WindowWord(codePages: nat, m: Mem, a: nat, j: nat, i: nat) {
    j < 512 && i < 512 && Present(At(m, PdOf(m, a))[j]) && OwnedWord(codePages, At(m, PtOf(m, a, j))[i], j * 512 + i)
  }

  /** The order in which creation takes the frames. */
  function Rank(q: Path): nat {
    if |q| <= 2 then |q|
    else if |q| == 3 then (if q[2] == 2 then 3 else 516)
    else if q[2] == 2 then 4 + q[3] else 517 + q[3]
  }

  function StageOf(at: Path): Stage {
    if |at| <= 2 || at == [0, 0, 2] then Upper
    else if |at| == 3 then HighTable
    else if at[2] == 2 then LowPage(at[3]) else HighPage(at[3])
  }

  ghost predicate Filled(taken: map<nat, Path>, q: Path) {
    exists f :: f in taken && taken[f] == q
  }

  /** The frames of `taken` fill different positions, exactly the needed ones of the page tables below k. */
  ghost predicate Places(codePages: nat, m: Mem, a: nat, k: nat, taken: map<nat, Path>) {
    && OnePlace(codePages, m, a, taken)
    && (forall f :: f in taken ==> |taken[f]| <= 2 || taken[f][2] < k)
    && (forall q :: Needed(codePages, m, a, q) && (|q| <= 2 || q[2] < k) ==> Filled(taken, q))
  }

  ghost predicate OnePlace(codePages: nat, m: Mem, a: nat, taken: map<nat, Path>) {
    && (forall f :: f in taken ==> Needed(codePages, m, a, taken[f]))
    && (forall f, g :: f in taken && g in taken && f != g ==> taken[f] != taken[g])
  }

  /** The frames of `taken` fill different positions, exactly the needed ones before `at`, which is needed too. */
  ghost predicate UpTo(codePages: nat, m: Mem, a: nat, taken: map<nat, Path>, at: Path) {
    && Needed(codePages, m, a, at) && OnePlace(codePages, m, a, taken)
    && (forall f :: f in taken ==> Rank(taken[f]) < Rank(at))
    && (forall q :: Needed(codePages, m, a, q) && Rank(q) < Rank(at) ==> Filled(taken, q))
  }

  lemma NeededShape(codePages: nat, m: Mem, a: nat, q: Path)
    requires Needed(codePages, m, a, q)
    ensures q in Positions() && |q| <= 4 && (|q| > 2 ==> q[2] == 2 || q[2] == 3)
    ensures (|q| == 4 ==> q == [0, 0, q[2], q[3]] && q[3] < 512)
    ensures |q| <= 2 ==> q == [] || q == [0] || q == [0, 0]
    ensures |q| == 3 ==> q == [0, 0, q[2]]
  {
    if WindowLeaf(q) {
      WindowLeafParts(q);
      assert q == [0, 0, q[2], q[3]];
    }
  }

  lemma RankInjective(codePages: nat, m: Mem, a: nat, p: Path, q: Path)
    requires Needed(codePages, m, a, p) && Needed(codePages, m, a, q) && Rank(p) == Rank(q)
    ensures p == q
  {
    hide Needed;
    NeededShape(codePages, m, a, p);
    NeededShape(codePages, m, a, q);
  }

  lemma BuiltPlaces(codePages: nat, m: Mem, free: set<nat>, m1: Mem, free1: set<nat>, a: nat, n: nat, d: nat, c: nat,
                    k: nat, own: map<nat, Path>)
    requires 2 <= k <= 4 && Built(codePages, m, free, m1, free1, a, n, d, c, k, own)
    ensures Places(codePages, m, a, k, own)
  {
    hide Needed, Built, Owns;
    forall f | f in own ensures Needed(codePages, m, a, own[f]) && (|own[f]| <= 2 || own[f][2] < k) {
      HeldIsNeeded(codePages, m, free, m1, free1, a, n, d, c, k, own, f);
    }
    forall f, g | f in own && g in own && f != g ensures own[f] != own[g] {
      HeldOnce(codePages, m, free, m1, free1, a, n, d, c, k, own, f, g);
    }
    forall q | Needed(codePages, m, a, q) && (|q| <= 2 || q[2] < k) ensures Filled(own, q) {
      NeededIsHeld(codePages, m, free, m1, free1, a, n, d, c, k, own, q);
    }
  }

  lemma HeldOnce(codePages: nat, m: Mem, free: set<nat>, m1: Mem, free1: set<nat>, a: nat, n: nat, d: nat, c: nat,
                 k: nat, own: map<nat, Path>, f: nat, g: nat)
    requires Built(codePages, m, free, m1, free1, a, n, d, c, k, own) && f in own && g in own && f != g
    ensures own[f] != own[g]
  {
    hide OwnedWord, Tables;
    HeldBelow(codePages, m1, n, d, c, k, own, f);
    HeldBelow(codePages, m1, n, d, c, k, own, g);
  }

  lemma HeldIsNeeded(codePages: nat, m: Mem, free: set<nat>, m1: Mem, free1: set<nat>, a: nat, n: nat, d: nat, c: nat,
                     k: nat, own: map<nat, Path>, f: nat)
    requires 2 <= k <= 4 && Built(codePages, m, free, m1, free1, a, n, d, c, k, own) && f in own
    ensures Needed(codePages, m, a, own[f]) && (|own[f]| <= 2 || own[f][2] < k)
  {
    hide Owns;
    var q := own[f];
    HeldBelow(codePages, m1, n, d, c, k, own, f);
    if |q| > 2 {
      var j := q[2];
      if WindowLeaf(q) {
        WindowLeafParts(q);
        ForkedBits(At(m, PdOf(m, a))[j], At(m1, c)[j]);
        assert ForkedLeaf(codePages, m, m1, At(m, PtOf(m, a, j))[q[3]], At(m1, At(m1, c)[j].frame)[q[3]],
                          j * 512 + q[3]);
      } else {
        ForkedBits(At(m, PdOf(m, a))[j], At(m1, c)[j]);
      }
    }
  }

  lemma HeldBelow(codePages: nat, m1: Mem, n: nat, d: nat, c: nat, k: nat, own: map<nat, Path>, f: nat)
    requires Owns(codePages, m1, n, d, c, k, own) && f in own
    ensures HoldsBelow(codePages, m1, n, d, c, k, own[f], f)
  {
  }

  lemma NeededIsHeld(codePages: nat, m: Mem, free: set<nat>, m1: Mem, free1: set<nat>, a: nat, n: nat, d: nat, c: nat,
                     k: nat, own: map<nat, Path>, q: Path)
    requires 2 <= k <= 4 && Built(codePages, m, free, m1, free1, a, n, d, c, k, own)
    requires Needed(codePages, m, a, q) && (|q| <= 2 || q[2] < k)
    ensures Filled(own, q)
  {
    hide Owns;
    NeededShape(codePages, m, a, q);
    var f := if q == [] then n else if q == [0] then d else if q == [0, 0] then c
             else if |q| == 3 then At(m1, c)[q[2]].frame else At(m1, At(m1, c)[q[2]].frame)[q[3]].frame;
    if |q| > 2 {
      var j := q[2];
      ForkedBits(At(m, PdOf(m, a))[j], At(m1, c)[j]);
      if |q| == 4 {
        assert ForkedLeaf(codePages, m, m1, At(m, PtOf(m, a, j))[q[3]], At(m1, At(m1, c)[j].frame)[q[3]],
                          j * 512 + q[3]);
      }
    }
    assert HoldsBelow(codePages, m1, n, d, c, k, q, f);
    HoldsOwned(codePages, m1, n, d, c, k, own, q, f);
  }

  lemma HoldsOwned(codePages: nat, m1: Mem, n: nat, d: nat, c: nat, k: nat, own: map<nat, Path>, q: Path, f: nat)
    requires Owns(codePages, m1, n, d, c, k, own) && HoldsBelow(codePages, m1, n, d, c, k, q, f)
    ensures f in own && own[f] == q
  {
  }

  /** Creation stops at page table j. */
  lemma TableUpTo(codePages: nat, m: Mem, a: nat, own: map<nat, Path>, j: nat)
    requires (j == 2 || j == 3) && Places(codePages, m, a, j, own) && Present(At(m, PdOf(m, a))[j])
    ensures UpTo(codePages, m, a, own, [0, 0, j])
  {
    hide Filled;
    assert Needed(codePages, m, a, [0, 0, j]);
    hide Needed;
    forall f | f in own ensures Rank(own[f]) < Rank([0, 0, j]) {
      NeededShape(codePages, m, a, own[f]);
    }
    forall q | Needed(codePages, m, a, q) && Rank(q) < Rank([0, 0, j]) ensures Filled(own, q) {
      NeededShape(codePages, m, a, q);
    }
  }

  /** Creation stops at word i of page table j, having taken t for the table and `got` for its words. */
  lemma PageUpTo(codePages: nat, m: Mem, a: nat, own: map<nat, Path>, j: nat, t: nat, got: map<nat, nat>, i: nat,
                 m': Mem)
    requires (j == 2 || j == 3) && Places(codePages, m, a, j, own) && Present(At(m, PdOf(m, a))[j])
    requires i < 512 && WindowWord(codePages, m, a, j, i) && RawWords(codePages, m, m', PtOf(m, a, j), t, j, i, got)
    requires t !in got && t !in own && got.Keys !! own.Keys
    ensures UpTo(codePages, m, a, Claimed(own, j, t, got), [0, 0, j, i])
  {
    hide Filled, RawWords, OwnedWord;
    var taken := Claimed(own, j, t, got);
    LeafPlace(j, i);
    GotPlaces(codePages, m, m', a, t, j, i, got);
    forall f | f in taken ensures Needed(codePages, m, a, taken[f]) && Rank(taken[f]) < Rank([0, 0, j, i]) {
      if f in got {
        LeafPlace(j, got[f]);
      } else if f != t {
        NeededShape(codePages, m, a, own[f]);
      }
    }
    ClaimedOnce(codePages, m, a, own, j, t, got);
    forall q | Needed(codePages, m, a, q) && Rank(q) < Rank([0, 0, j, i]) ensures Filled(taken, q) {
      ClaimedFills(codePages, m, a, own, j, t, got, i, m', q);
    }
  }

  lemma ClaimedOnce(codePages: nat, m: Mem, a: nat, own: map<nat, Path>, j: nat, t: nat, got: map<nat, nat>)
    requires (j == 2 || j == 3) && Places(codePages, m, a, j, own) && t !in got && t !in own && got.Keys !! own.Keys
    requires forall f, g :: f in got && g in got && f != g ==> got[f] != got[g]
    ensures var taken := Claimed(own, j, t, got);
            forall f, g :: f in taken && g in taken && f != g ==> taken[f] != taken[g]
  {
    hide Filled, Needed;
    var taken := Claimed(own, j, t, got);
    forall f, g | f in taken && g in taken && f != g ensures taken[f] != taken[g] {
      if f in own && f !in got && g in own && g !in got {
        assert taken[f] == own[f] && taken[g] == own[g];
      }
    }
  }

  /** A frame taken earlier keeps its position. */
  lemma OwnFills(codePages: nat, m: Mem, a: nat, own: map<nat, Path>, j: nat, t: nat, got: map<nat, nat>, q: Path)
    requires Places(codePages, m, a, j, own) && t !in own && got.Keys !! own.Keys
    requires Needed(codePages, m, a, q) && (|q| <= 2 || q[2] < j)
    ensures Filled(Claimed(own, j, t, got), q)
  {
    hide Needed, OnePlace;
    assert Filled(own, q);
    var f :| f in own && own[f] == q;
    assert Claimed(own, j, t, got)[f] == q;
  }

  /** The page of a copied private word fills its position. */
  lemma LeafFills(codePages: nat, m: Mem, a: nat, own: map<nat, Path>, j: nat, t: nat, got: map<nat, nat>, i: nat,
                  m': Mem, k: nat)
    requires j < 512 && i < 512 && RawWords(codePages, m, m', PtOf(m, a, j), t, j, i, got) && k < i
    requires OwnedWord(codePages, At(m, PtOf(m, a, j))[k], j * 512 + k)
    ensures Filled(Claimed(own, j, t, got), [0, 0, j, k])
  {
    hide OwnedWord, PtOf;
    assert RawWord(codePages, At(m, PtOf(m, a, j))[k], At(m', t)[k], j * 512 + k, k, got);
    var f := At(m', t)[k].frame;
    assert Claimed(own, j, t, got)[f] == [0, 0, j, k];
  }

  lemma NeededOwned(codePages: nat, m: Mem, a: nat, q: Path)
    requires Needed(codePages, m, a, q) && |q| == 4
    ensures q[2] < 512 && q[3] < 512 && OwnedWord(codePages, At(m, PtOf(m, a, q[2]))[q[3]], q[2] * 512 + q[3])
  {
    hide OwnedWord, PtOf;
  }

  lemma ClaimedFills(codePages: nat, m: Mem, a: nat, own: map<nat, Path>, j: nat, t: nat, got: map<nat, nat>, i: nat,
                     m': Mem, q: Path)
    requires (j == 2 || j == 3) && Places(codePages, m, a, j, own) && t !in got && t !in own && got.Keys !! own.Keys
    requires i < 512 && RawWords(codePages, m, m', PtOf(m, a, j), t, j, i, got)
    requires Needed(codePages, m, a, q) && Rank(q) < Rank([0, 0, j, i])
    ensures Filled(Claimed(own, j, t, got), q)
  {
    hide OwnedWord, Needed, Places, RawWords, PtOf;
    NeededShape(codePages, m, a, q);
    if |q| <= 2 || q[2] < j {
      OwnFills(codePages, m, a, own, j, t, got, q);
    } else if |q| == 3 {
      assert Claimed(own, j, t, got)[t] == q;
    } else {
      NeededOwned(codePages, m, a, q);
      LeafFills(codePages, m, a, own, j, t, got, i, m', q[3]);
    }
  }

  lemma LeafPlace(j: nat, i: nat)
    requires j == 2 || j == 3
    ensures var q := [0, 0, j, i]; WindowLeaf(q) && q[2] == j && q[3] == i
  {
    assert [0, 0, j, i][..3] == [0, 0, j];
  }

  /** The frames a partial copy of page table j took, each for its own private word. */
  lemma GotPlaces(codePages: nat, m: Mem, m': Mem, a: nat, t: nat, j: nat, i: nat, got: map<nat, nat>)
    requires i <= 512 && (j == 2 || j == 3) && Present(At(m, PdOf(m, a))[j])
    requires RawWords(codePages, m, m', PtOf(m, a, j), t, j, i, got)
    ensures forall f :: f in got ==> got[f] < i && WindowWord(codePages, m, a, j, got[f])
    ensures forall f, g :: f in got && g in got && f != g ==> got[f] != got[g]
  {
    hide OwnedWord, RawWord;
  }

  // ---------------------------------------------------------------- counting

  ghost function NeededSet(codePages: nat, m: Mem, a: nat): set<Path> {
    set q | q in Positions() && Needed(codePages, m, a, q)
  }

  ghost function NeededBefore(codePages: nat, m: Mem, a: nat, at: Path): set<Path> {
    set q | q in Positions() && Needed(codePages, m, a, q) && Rank(q) < Rank(at)
  }

  /** Creation ran out of frames at position `at`: all usable frames are taken, one for each needed position
      before it. */
  ghost predicate Shortage(pmm: F.FrameAllocator, codePages: nat, m: Mem, a: nat, free: set<nat>, taken: map<nat, Path>,
                           at: Path) {
    taken.Keys == F.Usable(pmm, free) && UpTo(codePages, m, a, taken, at)
  }

  lemma {:induction false} SameSize(taken: map<nat, Path>, qs: set<Path>)
    requires forall f, g :: f in taken && g in taken && f != g ==> taken[f] != taken[g]
    requires forall f :: f in taken ==> taken[f] in qs
    requires forall q :: q in qs ==> Filled(taken, q)
    ensures |taken.Keys| == |qs|
    decreases taken.Keys
  {
    if taken.Keys == {} {
      if q :| q in qs {
        assert Filled(taken, q);
      }
      assert qs == {};
    } else {
      var f :| f in taken;
      var rest := taken - {f};
      forall q | q in qs - {taken[f]} ensures Filled(rest, q) {
        var g :| g in taken && taken[g] == q;
        assert g in rest && rest[g] == q;
      }
      SameSize(rest, qs - {taken[f]});
      assert rest.Keys == taken.Keys - {f};
    }
  }

  /** Creation stops at `at` only if there are exactly as many usable frames as needed positions before it. */
  lemma UpToCount(codePages: nat, m: Mem, a: nat, taken: map<nat, Path>, at: Path)
    requires UpTo(codePages, m, a, taken, at)
    ensures |taken.Keys| == |NeededBefore(codePages, m, a, at)| < |NeededSet(codePages, m, a)|
  {
    hide Needed, Rank;
    var before, all := NeededBefore(codePages, m, a, at), NeededSet(codePages, m, a);
    forall f | f in taken ensures taken[f] in before {
      NeededShape(codePages, m, a, taken[f]);
    }
    SameSize(taken, before);
    NeededShape(codePages, m, a, at);
    assert before <= all - {at};
    SubsetSize(before, all - {at});
  }

  lemma PlacesCount(codePages: nat, m: Mem, a: nat, taken: map<nat, Path>)
    requires Places(codePages, m, a, 4, taken)
    ensures |taken.Keys| == |NeededSet(codePages, m, a)|
  {
    hide Needed;
    forall f | f in taken ensures taken[f] in NeededSet(codePages, m, a) {
      NeededShape(codePages, m, a, taken[f]);
    }
    forall q | q in NeededSet(codePages, m, a) ensures Filled(taken, q) {
      NeededShape(codePages, m, a, q);
    }
    SameSize(taken, NeededSet(codePages, m, a));
  }

  /** The number of usable frames fixes the position, so the outcome of a creation can be told beforehand. */
  lemma OnePoint(codePages: nat, m: Mem, a: nat, p: Path, q: Path)
    requires Needed(codePages, m, a, p) && Needed(codePages, m, a, q)
    requires |NeededBefore(codePages, m, a, p)| == |NeededBefore(codePages, m, a, q)|
    ensures p == q
  {
    if Rank(p) == Rank(q) {
      RankInjective(codePages, m, a, p, q);
    } else {
      var x, y := if Rank(p) < Rank(q) then p else q, if Rank(p) < Rank(q) then q else p;
      hide Needed, Rank;
      NeededShape(codePages, m, a, x);
      var low, high := NeededBefore(codePages, m, a, x), NeededBefore(codePages, m, a, y);
      assert low <= high - {x} && x in high;
      SubsetSize(low, high - {x});
    }
  }
}
