/** What one mapping call does to the tables (kvmmap_at in src/mm/vmm.c), as a relation between
    memory and free frames before and after. */
module Mapping {
  import opened Common
  import opened PageTables

  // ---------------------------------------------------------------- what a mapping call does

  /** The frames linked as new tables on the first k levels of x. */
  ghost function NewTables(m: Mem, m': Mem, root: nat, x: Path, k: nat): set<nat>
    requires k <= |x|
  {
    set j | 1 <= j <= k && !Present(Link(m, root, x[..j])) :: Link(m', root, x[..j]).frame
  }

  /** The positions on the first k levels of x that have no table. */
  ghost function Lacking(m: Mem, root: nat, x: Path, k: nat): set<Path>
    requires k <= |x|
  {
    set j | 1 <= j <= k && !Present(Link(m, root, x[..j])) :: x[..j]
  }

  lemma LackingNext(m: Mem, root: nat, x: Path, k: nat)
    requires k < |x|
    ensures var more := if Present(Link(m, root, x[..k + 1])) then {} else {x[..k + 1]};
            Lacking(m, root, x, k + 1) == Lacking(m, root, x, k) + more && x[..k + 1] !in Lacking(m, root, x, k)
  {
    hide Link;
    forall j | 1 <= j <= k ensures x[..j] != x[..k + 1] {
      assert |x[..j]| == j;
    }
  }

  lemma LackingMore(m: Mem, root: nat, x: Path, k: nat)
    requires k < 3 <= |x| && !Present(Link(m, root, x[..k + 1]))
    ensures |Lacking(m, root, x, k)| < |Lacking(m, root, x, 3)|
  {
    hide Link;
    LackingNext(m, root, x, k);
    var few, all := Lacking(m, root, x, k), Lacking(m, root, x, 3);
    assert x[..k + 1] in all && few <= all - {x[..k + 1]};
    SubsetSize(few, all - {x[..k + 1]});
  }

  ghost predicate Tidy(m: Mem, free: set<nat>, root: nat) {
    Tree(m, root) && Avoids(m, root, free)
  }

  /** Only the words at x[..1] .. x[..k] changed: each is now present, kept its frame if it was
      present, and otherwise leads to a table taken from the free frames. */
  ghost predicate Words(m: Mem, m': Mem, free: set<nat>, root: nat, x: Path, k: nat)
    requires k <= |x|
  {
    && (forall q :: 0 < |q| <= 4 && !(q <= x[..k]) ==> Link(m', root, q) == Link(m, root, q))
    && (forall j :: 1 <= j <= k ==> Kept(Link(m, root, x[..j]), Link(m', root, x[..j]), free))
  }

  ghost predicate Kept(e: Entry, e': Entry, free: set<nat>) {
    Present(e') && if Present(e) then e'.frame == e.frame else e'.frame in free
  }

  /** Memory outside the first k tables on x and the free frames is untouched. */
  ghost predicate Outside(m: Mem, m': Mem, free: set<nat>, root: nat, x: Path, k: nat)
    requires k <= |x|
  {
    forall f :: f !in free && (forall j :: 0 <= j < k ==> TableAt(m, root, x[..j]) != Some(f)) ==> At(m', f) == At(m, f)
  }

  ghost predicate Grown(m: Mem, free: set<nat>, m': Mem, free': set<nat>, root: nat, x: Path, k: nat)
    requires k <= |x|
  {
    && Tidy(m', free', root)
    && Words(m, m', free, root, x, k)
    && free' == free - NewTables(m, m', root, x, k)
    && Outside(m, m', free, root, x, k)
    && (RightsKept(m, root) ==> RightsKept(m', root))
  }

  lemma GrowKeep(m: Mem, free: set<nat>, m1: Mem, free1: set<nat>, root: nat, x: Path, k: nat)
    requires k < 3 && |x| == 4 && Grown(m, free, m1, free1, root, x, k)
    requires Present(Link(m1, root, x[..k + 1]))
    ensures Grown(m, free, m1, free1, root, x, k + 1)
  {
    assert !(x[..k + 1] <= x[..k]);
    assert x[..k] <= x[..k + 1];
    assert NewTables(m, m1, root, x, k + 1) == NewTables(m, m1, root, x, k);
  }

  /** Some word at y was rewritten, inside table t or a frame that was free. */
  lemma GrowWords(m: Mem, free: set<nat>, m1: Mem, m2: Mem, root: nat, x: Path, k: nat)
    requires k < 3 && |x| == 4 && Words(m, m1, free, root, x, k)
    requires OnlyAt(m1, m2, root, x[..k + 1]) && !Present(Link(m1, root, x[..k + 1]))
    requires Present(Link(m2, root, x[..k + 1])) && Link(m2, root, x[..k + 1]).frame in free
    ensures Words(m, m2, free, root, x, k + 1)
    ensures NewTables(m, m2, root, x, k + 1) == NewTables(m, m1, root, x, k) + {Link(m2, root, x[..k + 1]).frame}
  {
    hide Link, Present;
    var y := x[..k + 1];
    assert x[..k] <= y && !(y <= x[..k]);
    forall j | 1 <= j <= k ensures Link(m2, root, x[..j]) == Link(m1, root, x[..j]) {
      assert |x[..j]| != |y|;
    }
    assert Link(m1, root, y) == Link(m, root, y);
    forall j | 1 <= j <= k + 1 ensures Kept(Link(m, root, x[..j]), Link(m2, root, x[..j]), free) {
    }
  }

  lemma SameTablesBut(m1: Mem, m2: Mem, root: nat, x: Path, k: nat)
    requires k < 3 && |x| == 4 && OnlyAt(m1, m2, root, x[..k + 1])
    ensures forall j :: 0 <= j <= k ==> TableAt(m2, root, x[..j]) == TableAt(m1, root, x[..j])
    ensures forall j :: 1 <= j <= 3 && j != k + 1 ==> Link(m2, root, x[..j]) == Link(m1, root, x[..j])
  {
    forall j | 1 <= j <= 3 && j != k + 1 ensures Link(m2, root, x[..j]) == Link(m1, root, x[..j]) {
      assert |x[..j]| != |x[..k + 1]|;
    }
  }

  lemma GrowNew(m: Mem, free: set<nat>, m1: Mem, free1: set<nat>, root: nat, x: Path, k: nat, t: nat, e: Entry)
    requires k < 3 && |x| == 4 && x[k] < 512 && Grown(m, free, m1, free1, root, x, k)
    requires TableAt(m1, root, x[..k]) == Some(t) && !Present(Link(m1, root, x[..k + 1]))
    requires e.frame in free1 && (e.low == 0x03 || e.low == 0x07)
    ensures Grown(m, free, Put(m1[e.frame := Blank()], t, x[k], e), free1 - {e.frame}, root, x, k + 1)
    ensures TableAt(Put(m1[e.frame := Blank()], t, x[k], e), root, x[..k + 1]) == Some(e.frame)
    ensures Link(Put(m1[e.frame := Blank()], t, x[k], e), root, x[..k + 1]) == e
    ensures forall j :: 0 <= j <= k ==>
              TableAt(Put(m1[e.frame := Blank()], t, x[k], e), root, x[..j]) == TableAt(m1, root, x[..j])
    ensures forall j :: 1 <= j <= k ==>
              Link(Put(m1[e.frame := Blank()], t, x[k], e), root, x[..j]) == Link(m1, root, x[..j])
  {
    hide Words, Outside, RightsKept, NewTables, Tree, Avoids, OnlyAt, Link, TableAt;
    var m2 := Put(m1[e.frame := Blank()], t, x[k], e);
    var y := x[..k + 1];
    assert y == x[..k] + [x[k]];
    AvoidsOne(m1, root, free1, e.frame);
    LinkBlank(m1, root, x[..k], x[k], e);
    TableOfLink(m2, root, y);
    SameTablesBut(m1, m2, root, x, k);
    StillAvoids(m1, m2, root, y, free1);
    GrowWords(m, free, m1, m2, root, x, k);
    WordsKept(m, free, m1, root, x, k);
    GrowOutside(m, free, m1, m2, root, x, k, k, k + 1, t);
    if RightsKept(m, root) {
      RightsStep(m1, m2, root, y);
    }
  }

  lemma AvoidsOne(m: Mem, root: nat, free: set<nat>, f: nat)
    requires Avoids(m, root, free) && f in free
    ensures Avoids(m, root, {f})
  {
  }

  lemma WordsKept(m: Mem, free: set<nat>, m1: Mem, root: nat, x: Path, k: nat)
    requires k <= |x| && Words(m, m1, free, root, x, k)
    ensures forall j :: 1 <= j <= k ==> Kept(Link(m, root, x[..j]), Link(m1, root, x[..j]), free)
  {
  }

  lemma StillAvoids(m1: Mem, m2: Mem, root: nat, y: Path, free1: set<nat>)
    requires y != [] && OnlyAt(m1, m2, root, y) && Avoids(m1, root, free1)
    ensures Avoids(m2, root, free1 - {Link(m2, root, y).frame})
  {
    forall q: Path | |q| <= 3 && TableAt(m2, root, q).Some?
      ensures TableAt(m2, root, q).value !in free1 - {Link(m2, root, y).frame}
    {
      assert q != y ==> TableAt(m2, root, q) == TableAt(m1, root, q);
    }
  }

  /** Rewriting the table at level k keeps the frame condition: that table is one the old tree
      already had, or a frame that was free. */
  lemma GrowOutside(m: Mem, free: set<nat>, m1: Mem, m2: Mem, root: nat, x: Path, k: nat, n: nat, n': nat, t: nat)
    requires k <= 3 && |x| == 4 && k < n' <= 4 && n <= n' && TableAt(m1, root, x[..k]) == Some(t)
    requires forall j :: 1 <= j <= k ==> Kept(Link(m, root, x[..j]), Link(m1, root, x[..j]), free)
    requires Outside(m, m1, free, root, x, n)
    requires forall f :: f !in free && f != t ==> At(m2, f) == At(m1, f)
    ensures Outside(m, m2, free, root, x, n')
  {
    assert t in free || TableAt(m, root, x[..k]) == Some(t);
  }

  /** kvmmap_at of page vp to word e, as a relation: the leaf of vp is e, every word off the walk of
      vp is unchanged, and the tables on the walk are the old ones or fresh ones. */
  ghost predicate Mapped(m: Mem, free: set<nat>, m': Mem, free': set<nat>, root: nat, vp: nat, e: Entry) {
    var x := Indices(vp);
    && Tidy(m', free', root)
    && Leaf(m', root, vp) == e
    && (forall q :: 0 < |q| <= 4 && !(q <= x) ==> Link(m', root, q) == Link(m, root, q))
    && (forall j :: 1 <= j <= 3 ==> Kept(Link(m, root, x[..j]), Link(m', root, x[..j]), free))
    && free' == free - NewTables(m, m', root, x, 3)
    && Outside(m, m', free, root, x, 4)
    && (RightsKept(m, root) ==> RightsKept(m', root))
  }

  /** The four-level table refines a flat map from page numbers to words: mapping a page is one
      update of that map, whichever intermediate tables had to be allocated. */
  lemma MappedIsUpdate(m: Mem, free: set<nat>, m': Mem, free': set<nat>, root: nat, vp: nat, e: Entry, vq: nat)
    requires Mapped(m, free, m', free', root, vp, e) && vp < PAGES && vq < PAGES
    ensures Leaf(m', root, vq) == if vq == vp then e else Leaf(m, root, vq)
  {
    if vq != vp && Indices(vq) == Indices(vp) {
      IndicesInjective(vq, vp);
    }
    assert Indices(vq) <= Indices(vp) ==> Indices(vq) == Indices(vp);
  }

  function Raise(e: Entry): Entry {
    e.(low := e.low | 0x04)
  }

  lemma RaiseBits(e: Entry)
    ensures Present(Raise(e)) == Present(e) && Writable(Raise(e)) == Writable(e) && User(Raise(e))
  {
  }

  lemma WordsPresent(m: Mem, free: set<nat>, m1: Mem, root: nat, x: Path, j: nat)
    requires |x| == 4 && 1 <= j <= 3 && Words(m, m1, free, root, x, 3)
    ensures Present(Link(m1, root, x[..j])) && TableAt(m1, root, x[..j]).Some?
    ensures forall i :: 1 <= i <= 3 ==> Kept(Link(m, root, x[..i]), Link(m1, root, x[..i]), free)
  {
  }

  lemma UpperWritable(m: Mem, root: nat, y: Path)
    requires RightsKept(m, root) && 0 < |y| <= 3 && Present(Link(m, root, y))
    ensures Writable(Link(m, root, y))
  {
  }

  lemma RaiseTables(m1: Mem, root: nat, p: Path, i: nat, t: nat)
    requires Tree(m1, root) && |p| <= 2 && i < 512 && TableAt(m1, root, p) == Some(t)
    requires Present(Link(m1, root, p + [i]))
    ensures var m2 := Put(m1, t, i, Raise(At(m1, t)[i]));
            && Tree(m2, root) && OnlyAt(m1, m2, root, p + [i])
            && Link(m2, root, p + [i]) == Raise(Link(m1, root, p + [i]))
            && forall q :: |q| <= 3 ==> TableAt(m2, root, q) == TableAt(m1, root, q)
  {
    var e := At(m1, t)[i];
    var m2 := Put(m1, t, i, Raise(e));
    assert Init(p + [i]) == p;
    RaiseBits(e);
    Reflag(m1, root, p, i, Raise(e));
    forall q: Path | |q| <= 3 ensures TableAt(m2, root, q) == TableAt(m1, root, q) {
      if q != [] && q != p + [i] {
        assert Link(m2, root, q) == Link(m1, root, q);
      }
    }
  }

  lemma GrowRaise(m: Mem, free: set<nat>, m1: Mem, free1: set<nat>, root: nat, x: Path, k: nat, t: nat)
    requires k < 3 && |x| == 4 && x[k] < 512 && Grown(m, free, m1, free1, root, x, 3)
    requires TableAt(m1, root, x[..k]) == Some(t)
    ensures var m2 := Put(m1, t, x[k], Raise(At(m1, t)[x[k]]));
            && Grown(m, free, m2, free1, root, x, 3) && User(Link(m2, root, x[..k + 1]))
            && Link(m2, root, x[..k + 1]) == Raise(Link(m1, root, x[..k + 1]))
            && (forall q :: |q| <= 3 ==> TableAt(m2, root, q) == TableAt(m1, root, q))
            && forall j :: 1 <= j <= 3 && j != k + 1 ==> Link(m2, root, x[..j]) == Link(m1, root, x[..j])
  {
    hide Words, Outside, RightsKept, NewTables, Tree, OnlyAt, Link, TableAt;
    var m2 := Put(m1, t, x[k], Raise(At(m1, t)[x[k]]));
    var y := x[..k + 1];
    WordsPresent(m, free, m1, root, x, k + 1);
    assert y == x[..k] + [x[k]];
    RaiseBits(Link(m1, root, y));
    RaiseTables(m1, root, x[..k], x[k], t);
    SameTablesBut(m1, m2, root, x, k);
    RaiseWords(m, free, m1, m2, root, x, k);
    GrowOutside(m, free, m1, m2, root, x, k, 3, 3, t);
    if RightsKept(m, root) {
      UpperWritable(m1, root, y);
      RightsStep(m1, m2, root, y);
    }
  }

  lemma RaiseWords(m: Mem, free: set<nat>, m1: Mem, m2: Mem, root: nat, x: Path, k: nat)
    requires k < 3 && |x| == 4 && Words(m, m1, free, root, x, 3) && OnlyAt(m1, m2, root, x[..k + 1])
    requires Present(Link(m2, root, x[..k + 1])) && Link(m2, root, x[..k + 1]).frame == Link(m1, root, x[..k + 1]).frame
    ensures Words(m, m2, free, root, x, 3) && NewTables(m, m2, root, x, 3) == NewTables(m, m1, root, x, 3)
  {
    var y := x[..k + 1];
    assert y <= x[..3];
    forall j | 1 <= j <= 3
      ensures Present(Link(m2, root, x[..j])) && Link(m2, root, x[..j]).frame == Link(m1, root, x[..j]).frame
    {
      assert x[..j] == y || Link(m2, root, x[..j]) == Link(m1, root, x[..j]);
    }
  }

  lemma SameNewTables(m: Mem, m1: Mem, m2: Mem, root: nat, x: Path)
    requires |x| == 4 && forall j :: 1 <= j <= 3 ==> Link(m2, root, x[..j]) == Link(m1, root, x[..j])
    ensures NewTables(m, m2, root, x, 3) == NewTables(m, m1, root, x, 3)
  {
  }

  lemma GrownStart(m: Mem, free: set<nat>, root: nat, x: Path)
    requires Tidy(m, free, root)
    ensures Grown(m, free, m, free, root, x, 0)
  {
    assert NewTables(m, m, root, x, 0) == {};
  }

  lemma UserWalk(m: Mem, root: nat, x: Path)
    requires |x| == 4 && User(Link(m, root, x[..1])) && User(Link(m, root, x[..2])) && User(Link(m, root, x[..3]))
    ensures EffectiveUser(m, root, x[..3])
  {
    assert Init(x[..3]) == x[..2] && Init(x[..2]) == x[..1] && Init(x[..1]) == [];
    assert EffectiveUser(m, root, x[..1]);
    assert EffectiveUser(m, root, x[..2]);
  }

  lemma LeafWords(m: Mem, free: set<nat>, m1: Mem, m2: Mem, root: nat, x: Path)
    requires |x| == 4 && Words(m, m1, free, root, x, 3) && OnlyAt(m1, m2, root, x)
    ensures forall q :: 0 < |q| <= 4 && !(q <= x) ==> Link(m2, root, q) == Link(m, root, q)
    ensures forall j :: 1 <= j <= 3 ==> Link(m2, root, x[..j]) == Link(m1, root, x[..j])
    ensures forall q :: |q| <= 3 ==> TableAt(m2, root, q) == TableAt(m1, root, q)
  {
    forall q: Path | 0 < |q| <= 4 && !(q <= x) ensures Link(m2, root, q) == Link(m, root, q) {
      assert !(q <= x[..3]);
    }
    forall q: Path | |q| <= 3 ensures TableAt(m2, root, q) == TableAt(m1, root, q) {
    }
  }

  lemma GrowLeaf(m: Mem, free: set<nat>, m1: Mem, free1: set<nat>, root: nat, vp: nat, t: nat, e: Entry)
    requires Grown(m, free, m1, free1, root, Indices(vp), 3) && TableAt(m1, root, Indices(vp)[..3]) == Some(t)
    requires User(e) ==> EffectiveUser(m1, root, Indices(vp)[..3])
    ensures Mapped(m, free, Put(m1, t, vp % 512, e), free1, root, vp, e)
    ensures forall j :: 1 <= j <= 3 ==>
              Link(Put(m1, t, vp % 512, e), root, Indices(vp)[..j]) == Link(m1, root, Indices(vp)[..j])
  {
    hide Outside, RightsKept, NewTables, Tree, EffectiveUser, Link, TableAt, OnlyAt, Words;
    var x := Indices(vp);
    var m2 := Put(m1, t, vp % 512, e);
    assert x == x[..3] + [x[3]] && Init(x) == x[..3];
    WriteLeaf(m1, root, x[..3], x[3], e);
    LeafWords(m, free, m1, m2, root, x);
    SameNewTables(m, m1, m2, root, x);
    WordsKept(m, free, m1, root, x, 3);
    GrowOutside(m, free, m1, m2, root, x, 3, 3, 4, t);
    if RightsKept(m, root) {
      RightsStep(m1, m2, root, x);
    }
  }

  /** Clearing the leaf of a page whose tables are all there is mapping it to the zero word. */
  lemma UnmapLeaf(m: Mem, free: set<nat>, root: nat, vp: nat, t: nat)
    requires Tidy(m, free, root) && TableAt(m, root, Indices(vp)[..3]) == Some(t)
    ensures Mapped(m, free, Put(m, t, vp % 512, ZERO), free, root, vp, ZERO)
    ensures forall q :: 0 < |q| <= 4 && q != Indices(vp) ==>
              Link(Put(m, t, vp % 512, ZERO), root, q) == Link(m, root, q)
  {
    hide Grown, Tidy, Mapped;
    var x := Indices(vp);
    assert Init(x[..3]) == x[..2] && Init(x[..2]) == x[..1];
    WalkUp(m, root, x[..3]);
    WalkUp(m, root, x[..2]);
    WalkUp(m, root, x[..1]);
    GrownStart(m, free, root, x);
    GrowKeep(m, free, m, free, root, x, 0);
    GrowKeep(m, free, m, free, root, x, 1);
    GrowKeep(m, free, m, free, root, x, 2);
    GrowLeaf(m, free, m, free, root, vp, t, ZERO);
    OnlyTheLeaf(m, free, Put(m, t, vp % 512, ZERO), free, root, vp, ZERO);
  }

  lemma OnlyTheLeaf(m: Mem, free: set<nat>, m': Mem, free': set<nat>, root: nat, vp: nat, e: Entry)
    requires Mapped(m, free, m', free', root, vp, e)
    requires forall j :: 1 <= j <= 3 ==> Link(m', root, Indices(vp)[..j]) == Link(m, root, Indices(vp)[..j])
    ensures forall q :: 0 < |q| <= 4 && q != Indices(vp) ==> Link(m', root, q) == Link(m, root, q)
  {
    hide Link, Indices;
    forall q: Path | 0 < |q| <= 4 && q != Indices(vp) ensures Link(m', root, q) == Link(m, root, q) {
      if q <= Indices(vp) {
        assert q == Indices(vp)[..|q|];
      }
    }
  }

  lemma MappedLeaf(m: Mem, free: set<nat>, m': Mem, free': set<nat>, root: nat, vp: nat, e: Entry)
    requires Mapped(m, free, m', free', root, vp, e)
    ensures Leaf(m', root, vp) == e
  {
  }
}
