/** The four-level page-table walk over physical memory (src/mm/vmm.c).  A 64-bit table word is
    split into its frame number (bits 12 and up) and its low twelve flag bits, so `w & ~0xFFF` is
    the frame and `w & 0xFFF` is `low`.  A position in the tree is the sequence of indices that
    leads to it from the root. */
module PageTables {
  import opened Common

  datatype Entry = Entry(frame: nat, low: bv12)

  const ZERO := Entry(0, 0)

  predicate Present(e: Entry) { e.low & 0x01 != 0 }
  predicate Writable(e: Entry) { e.low & 0x02 != 0 }
  predicate User(e: Entry) { e.low & 0x04 != 0 }

  type Table = t: seq<Entry> | |t| == 512 witness seq(512, _ => ZERO)

  function Blank(): Table {
    seq(512, _ => ZERO)
  }

  /** Physical memory, one table of 512 words per frame; a frame not recorded reads as zeros. */
  type Mem = map<nat, Table>

  function At(m: Mem, f: nat): Table {
    if f in m then m[f] else Blank()
  }

  function Word(m: Mem, f: nat, i: nat): Entry {
    if i < 512 then At(m, f)[i] else ZERO
  }

  function Put(m: Mem, f: nat, i: nat, e: Entry): Mem
    requires i < 512
  {
    m[f := At(m, f)[i := e]]
  }

  // ---------------------------------------------------------------- the walk

  type Path = seq<nat>

  function Init(q: Path): Path
    requires q != []
  {
    q[..|q| - 1]
  }

  /** The word at position q; zero when the walk stops above it. */
  function Link(m: Mem, root: nat, q: Path): Entry
    requires q != []
    decreases |q|, 0
  {
    match TableAt(m, root, Init(q))
    case None => ZERO
    case Some(t) => Word(m, t, q[|q| - 1])
  }

  /** The table frame at position q, when every word on the way is present. */
  function TableAt(m: Mem, root: nat, q: Path): Option<nat>
    decreases |q|, 1
  {
    if q == [] then Some(root)
    else if Present(Link(m, root, q)) then Some(Link(m, root, q).frame)
    else None
  }

  /** One step of the walk down, and one back up. */
  lemma WalkDown(m: Mem, root: nat, q: Path, i: nat)
    ensures Link(m, root, q + [i]) == match TableAt(m, root, q) case None => ZERO case Some(t) => Word(m, t, i)
  {
    assert Init(q + [i]) == q;
  }

  lemma TableOfLink(m: Mem, root: nat, y: Path)
    requires y != []
    ensures TableAt(m, root, y) == if Present(Link(m, root, y)) then Some(Link(m, root, y).frame) else None
  {
  }

  lemma RootTable(m: Mem, root: nat)
    ensures TableAt(m, root, []) == Some(root)
  {
  }

  lemma WalkUp(m: Mem, root: nat, q: Path)
    requires q != [] && TableAt(m, root, q).Some?
    ensures Present(Link(m, root, q)) && TableAt(m, root, Init(q)).Some?
  {
  }

  /** No frame serves as a table at two positions under one root. */
  ghost predicate Tree(m: Mem, root: nat) {
    forall p, q :: |p| <= 3 && |q| <= 3 && TableAt(m, root, p).Some? && TableAt(m, root, p) == TableAt(m, root, q)
                   ==> p == q
  }

  ghost predicate Avoids(m: Mem, root: nat, frames: set<nat>) {
    forall q :: |q| <= 3 && TableAt(m, root, q).Some? ==> TableAt(m, root, q).value !in frames
  }

  // ---------------------------------------------------------------- virtual pages

  const PAGES: nat := 0x10_0000_0000 // 2^36

  /** The four indices of virtual page number vp. */
  function Indices(vp: nat): (q: Path)
    ensures |q| == 4 && forall k :: 0 <= k < 4 ==> q[k] < 512
  {
    [vp / 0x8000000 % 512, vp / 0x40000 % 512, vp / 0x200 % 512, vp % 512]
  }

  /** kget_pte_addr_at followed by a read: the leaf word of a page, zero when a table is missing. */
  function Leaf(m: Mem, root: nat, vp: nat): Entry {
    Link(m, root, Indices(vp))
  }

  lemma IndicesInjective(a: nat, b: nat)
    requires a < PAGES && b < PAGES && Indices(a) == Indices(b)
    ensures a == b
  {
    var x, y := Indices(a), Indices(b);
    assert x[0] == y[0] && x[1] == y[1] && x[2] == y[2] && x[3] == y[3];
    Digits(a);
    Digits(b);
  }

  lemma Digits(a: nat)
    requires a < PAGES
    ensures a == 0x8000000 * (a / 0x8000000 % 512) + 0x40000 * (a / 0x40000 % 512) + 0x200 * (a / 0x200 % 512) + a % 512
  {
    assert a / 0x200 / 512 == a / 0x40000;
    assert a / 0x40000 / 512 == a / 0x8000000;
  }

  // ---------------------------------------------------------------- writing one word

  /** A write to the word at position p + [i] changes no word outside the subtree at p + [i]. */
  lemma {:induction false} WriteElsewhere(m: Mem, root: nat, p: Path, i: nat, e: Entry, q: Path)
    requires Tree(m, root) && |p| <= 3 && i < 512 && TableAt(m, root, p).Some?
    requires 0 < |q| <= 4 && !(p + [i] <= q)
    ensures Link(Put(m, TableAt(m, root, p).value, i, e), root, q) == Link(m, root, q)
    decreases |q|
  {
    var t := TableAt(m, root, p).value;
    var m' := Put(m, t, i, e);
    var r := Init(q);
    if r != [] {
      assert r <= q;
      WriteElsewhere(m, root, p, i, e, r);
    }
    assert TableAt(m', root, r) == TableAt(m, root, r);
    if TableAt(m, root, r) == Some(t) {
      assert r == p;
      assert q == r + [q[|q| - 1]];
    }
  }

  /** The written position itself reads back. */
  lemma {:induction false} WriteHere(m: Mem, root: nat, p: Path, i: nat, e: Entry)
    requires Tree(m, root) && |p| <= 3 && i < 512 && TableAt(m, root, p).Some?
    ensures Link(Put(m, TableAt(m, root, p).value, i, e), root, p + [i]) == e
    ensures TableAt(Put(m, TableAt(m, root, p).value, i, e), root, p) == TableAt(m, root, p)
  {
    if p != [] {
      assert !(p + [i] <= p);
      WriteElsewhere(m, root, p, i, e, p);
    }
    assert Init(p + [i]) == p;
  }

  /** Frames that are no table of this root may be overwritten freely. */
  lemma {:induction false} SameTables(m: Mem, m': Mem, root: nat, q: Path)
    requires forall p :: |p| <= 3 && TableAt(m, root, p).Some?
                         ==> At(m', TableAt(m, root, p).value) == At(m, TableAt(m, root, p).value)
    requires |q| <= 4
    ensures TableAt(m', root, q) == TableAt(m, root, q)
    ensures q != [] ==> Link(m', root, q) == Link(m, root, q)
    decreases |q|
  {
    if q != [] {
      SameTables(m, m', root, Init(q));
    }
  }

  /** m and m' agree on every word of the tree but the one at position x. */
  ghost predicate OnlyAt(m: Mem, m': Mem, root: nat, x: Path) {
    forall q :: 0 < |q| <= 4 && q != x ==> Link(m', root, q) == Link(m, root, q)
  }

  lemma {:induction false} NothingBelow(m: Mem, root: nat, x: Path, q: Path)
    requires x < q && TableAt(m, root, x).None?
    ensures Link(m, root, q) == ZERO
    decreases |q|
  {
    if Init(q) != x {
      NothingBelow(m, root, x, Init(q));
    }
  }

  /** Linking a blank table under an absent word shows no new leaf. */
  lemma {:induction false} LinkBlank(m: Mem, root: nat, p: Path, i: nat, e: Entry)
    requires Tree(m, root) && |p| <= 2 && i < 512 && TableAt(m, root, p).Some?
    requires !Present(Link(m, root, p + [i])) && Present(e)
    requires Avoids(m, root, {e.frame})
    ensures var m' := Put(m[e.frame := Blank()], TableAt(m, root, p).value, i, e);
            OnlyAt(m, m', root, p + [i]) && Link(m', root, p + [i]) == e && Tree(m', root)
  {
    var t, x := TableAt(m, root, p).value, p + [i];
    var m1 := m[e.frame := Blank()];
    var m' := Put(m1, t, i, e);
    forall q: Path | |q| <= 4
      ensures TableAt(m1, root, q) == TableAt(m, root, q)
      ensures q != [] ==> Link(m1, root, q) == Link(m, root, q)
    {
      SameTables(m, m1, root, q);
    }
    WriteHere(m1, root, p, i, e);
    forall q: Path | 0 < |q| <= 4 && q != x ensures Link(m', root, q) == Link(m, root, q) {
      if x <= q {
        NothingBelow(m, root, x, q);
        var y := x + [q[|x|]];
        assert Init(y) == x && y <= q;
        assert Link(m', root, y) == ZERO;
        if q != y {
          NothingBelow(m', root, y, q);
        }
      } else {
        WriteElsewhere(m1, root, p, i, e, q);
      }
    }
    OneNewTable(m, m', root, x);
  }

  lemma OneNewTable(m: Mem, m': Mem, root: nat, x: Path)
    requires Tree(m, root) && 0 < |x| <= 3 && OnlyAt(m, m', root, x)
    requires Avoids(m, root, {Link(m', root, x).frame})
    ensures Tree(m', root)
  {
    forall q: Path | |q| <= 3 && q != x ensures TableAt(m', root, q) == TableAt(m, root, q) {}
  }

  /** Changing the flags of a word that stays present, with the same frame, moves no table. */
  lemma {:induction false} Reflag(m: Mem, root: nat, p: Path, i: nat, e: Entry)
    requires Tree(m, root) && |p| <= 2 && i < 512 && TableAt(m, root, p).Some?
    requires Present(Link(m, root, p + [i])) && Present(e) && e.frame == Link(m, root, p + [i]).frame
    ensures var m' := Put(m, TableAt(m, root, p).value, i, e);
            OnlyAt(m, m', root, p + [i]) && Link(m', root, p + [i]) == e && Tree(m', root)
  {
    var t, x := TableAt(m, root, p).value, p + [i];
    var m' := Put(m, t, i, e);
    WriteHere(m, root, p, i, e);
    forall q: Path | 0 < |q| <= 4 && q != x ensures Link(m', root, q) == Link(m, root, q) {
      if x <= q {
        ReflagBelow(m, m', root, t, x, q);
      } else {
        WriteElsewhere(m, root, p, i, e, q);
      }
    }
    forall q: Path | |q| <= 3 ensures TableAt(m', root, q) == TableAt(m, root, q) {}
  }

  lemma {:induction false} ReflagBelow(m: Mem, m': Mem, root: nat, t: nat, x: Path, q: Path)
    requires Tree(m, root) && 0 < |x| <= 3 && TableAt(m, root, Init(x)) == Some(t)
    requires forall f :: f != t ==> At(m', f) == At(m, f)
    requires TableAt(m', root, x) == TableAt(m, root, x)
    requires x < q && |q| <= 4
    ensures Link(m', root, q) == Link(m, root, q)
    decreases |q|
  {
    if Init(q) != x {
      ReflagBelow(m, m', root, t, x, Init(q));
    }
    assert |Init(q)| > |Init(x)|;
  }

  /** Writing a leaf word changes that leaf and no other word, and moves no table. */
  lemma {:induction false} WriteLeaf(m: Mem, root: nat, p: Path, i: nat, e: Entry)
    requires Tree(m, root) && |p| == 3 && i < 512 && TableAt(m, root, p).Some?
    ensures var m' := Put(m, TableAt(m, root, p).value, i, e);
            OnlyAt(m, m', root, p + [i]) && Link(m', root, p + [i]) == e && Tree(m', root)
  {
    var m' := Put(m, TableAt(m, root, p).value, i, e);
    WriteHere(m, root, p, i, e);
    forall q: Path | 0 < |q| <= 4 && q != p + [i] ensures Link(m', root, q) == Link(m, root, q) {
      assert p + [i] <= q ==> q == p + [i];
      WriteElsewhere(m, root, p, i, e, q);
    }
    forall q: Path | |q| <= 3 ensures TableAt(m', root, q) == TableAt(m, root, q) {}
  }

  // ---------------------------------------------------------------- access rights

  /** The rights the processor grants: a bit counts only when every word on the walk has it. */
  ghost predicate EffectiveUser(m: Mem, root: nat, q: Path)
    decreases |q|
  {
    q == [] || (EffectiveUser(m, root, Init(q)) && User(Link(m, root, q)))
  }

  ghost predicate EffectiveWritable(m: Mem, root: nat, q: Path)
    decreases |q|
  {
    q == [] || (EffectiveWritable(m, root, Init(q)) && Writable(Link(m, root, q)))
  }

  /** Upper words are always writable, and user-accessible above every user leaf. */
  ghost predicate RightsKept(m: Mem, root: nat) {
    && (forall q :: 0 < |q| <= 3 && Present(Link(m, root, q)) ==> Writable(Link(m, root, q)))
    && (forall q :: |q| == 4 && Present(Link(m, root, q)) && User(Link(m, root, q)) ==> EffectiveUser(m, root, q))
  }

  lemma {:induction false} WritableAbove(m: Mem, root: nat, q: Path)
    requires RightsKept(m, root) && |q| <= 3 && TableAt(m, root, q).Some?
    ensures EffectiveWritable(m, root, q)
    decreases |q|
  {
    if q != [] {
      WritableAbove(m, root, Init(q));
    }
  }

  /** The leaf word alone decides the effective rights of a present page. */
  lemma RightsFromLeaf(m: Mem, root: nat, vp: nat)
    requires RightsKept(m, root) && Present(Leaf(m, root, vp))
    ensures EffectiveUser(m, root, Indices(vp)) <==> User(Leaf(m, root, vp))
    ensures EffectiveWritable(m, root, Indices(vp)) <==> Writable(Leaf(m, root, vp))
  {
    WritableAbove(m, root, Init(Indices(vp)));
  }

  lemma {:induction false} UserMonotone(m: Mem, m': Mem, root: nat, x: Path, q: Path)
    requires |q| <= 4 && OnlyAt(m, m', root, x)
    requires x != [] && (Present(Link(m, root, x)) && User(Link(m, root, x)) ==> User(Link(m', root, x)))
    requires TableAt(m, root, q).Some? && EffectiveUser(m, root, q)
    ensures EffectiveUser(m', root, q)
    decreases |q|
  {
    if q != [] {
      UserMonotone(m, m', root, x, Init(q));
    }
  }

  lemma RightsStep(m: Mem, m': Mem, root: nat, x: Path)
    requires RightsKept(m, root) && 0 < |x| <= 4 && OnlyAt(m, m', root, x)
    requires |x| <= 3 ==> Writable(Link(m', root, x))
    requires |x| <= 3 && Present(Link(m, root, x)) && User(Link(m, root, x)) ==> User(Link(m', root, x))
    requires |x| == 4 && Present(Link(m', root, x)) && User(Link(m', root, x)) ==> EffectiveUser(m, root, Init(x))
    ensures RightsKept(m', root)
  {
    forall q: Path | |q| == 4 && Present(Link(m', root, q)) && User(Link(m', root, q))
      ensures EffectiveUser(m', root, q)
    {
      if |x| <= 3 {
        UserMonotone(m, m', root, x, q);
      } else if q != x {
        UserAgrees(m, m', root, x, q);
      } else {
        UserAgrees(m, m', root, x, Init(q));
      }
    }
  }

  lemma {:induction false} UserAgrees(m: Mem, m': Mem, root: nat, x: Path, q: Path)
    requires |q| <= 4 && |x| == 4 && q != x && OnlyAt(m, m', root, x)
    ensures EffectiveUser(m', root, q) == EffectiveUser(m, root, q)
    decreases |q|
  {
    if q != [] {
      UserAgrees(m, m', root, x, Init(q));
    }
  }
}
