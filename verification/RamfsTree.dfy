/** The ramfs node tree (src/fs/ramfs.c): nodes linked by child and sibling pointers.  A pointer is
    a node number; 0 is null. */
module RamfsTree {
  import opened Common
  import opened RamfsPath

  datatype Node = Node(name: string, isDir: bool, size: nat, child: nat, sibling: nat, pages: seq<nat>)

  /** The nodes with, for reasoning, each directory's children in list order, each node's parent and
      the names on the way to it from the root. */
  datatype Tree = Tree(root: nat, nodes: map<nat, Node>, kids: map<nat, seq<nat>>, parent: map<nat, nat>,
                       path: map<nat, seq<string>>)

  /** Following sibling pointers from `first` visits ks and ends in a null pointer. */
  ghost predicate ChainSeq(nodes: map<nat, Node>, first: nat, ks: seq<nat>) {
    && first == (if ks == [] then 0 else ks[0])
    && forall i :: 0 <= i < |ks| ==> ChainLink(nodes, ks, i)
  }

  predicate ChainLink(nodes: map<nat, Node>, ks: seq<nat>, i: nat)
    requires i < |ks|
  {
    ks[i] in nodes && nodes[ks[i]].sibling == if i + 1 < |ks| then ks[i + 1] else 0
  }

  ghost predicate NamesDiffer(nodes: map<nat, Node>, ks: seq<nat>) {
    forall i, j :: 0 <= i < j < |ks| && ks[i] in nodes && ks[j] in nodes ==> nodes[ks[i]].name != nodes[ks[j]].name
  }

  /** The child and sibling pointers of d spell out kids[d]. */
  ghost predicate Chained(t: Tree, d: nat)
    requires d in t.nodes && d in t.kids
  {
    ChainSeq(t.nodes, t.nodes[d].child, t.kids[d])
  }

  ghost predicate KidOk(t: Tree, d: nat, k: nat) {
    && d in t.nodes && k in t.nodes && d in t.path && k in t.path && k in t.parent
    && t.nodes[d].isDir && t.parent[k] == d && k != t.root
    && GoodName(t.nodes[k].name) && t.path[k] == t.path[d] + [t.nodes[k].name]
  }

  /** Names of siblings differ. */
  ghost predicate Distinct(t: Tree, d: nat)
    requires d in t.kids
  {
    NamesDiffer(t.nodes, t.kids[d])
  }

  ghost predicate TreeOk(t: Tree) {
    && t.root in t.nodes && 0 !in t.nodes && t.nodes[t.root].isDir
    && t.kids.Keys == t.nodes.Keys && t.path.Keys == t.nodes.Keys && t.path[t.root] == []
    && (forall d :: d in t.nodes ==> Chained(t, d) && Distinct(t, d))
    && (forall d, k :: d in t.nodes && k in t.kids[d] ==> KidOk(t, d, k))
    && (forall n :: n in t.nodes && n != t.root ==> HasParent(t, n))
  }

  ghost predicate HasParent(t: Tree, n: nat) {
    n in t.parent && t.parent[n] in t.kids && n in t.kids[t.parent[n]]
  }

  // ---------------------------------------------------------------- resolving names

  ghost function ChildOf(t: Tree, d: nat, name: string): Option<nat> {
    if d in t.kids && exists k :: k in t.kids[d] && k in t.nodes && t.nodes[k].name == name then
      var k :| k in t.kids[d] && k in t.nodes && t.nodes[k].name == name;
      Some(k)
    else None
  }

  ghost function ResolveAt(t: Tree, cs: seq<string>): Option<nat>
    decreases |cs|
  {
    if cs == [] then Some(t.root)
    else
      match ResolveAt(t, cs[..|cs| - 1])
      case None => None
      case Some(d) => ChildOf(t, d, cs[|cs| - 1])
  }

  lemma ChildUnique(t: Tree, d: nat, k: nat)
    requires TreeOk(t) && d in t.nodes && k in t.kids[d]
    ensures ChildOf(t, d, t.nodes[k].name) == Some(k)
  {
    hide KidOk, Chained, HasParent;
    assert Distinct(t, d);
    assert KidOk(t, d, k);
    assert k in t.nodes by { KidFacts(t, d, k); }
    var j := ChildOf(t, d, t.nodes[k].name).value;
    var a :| 0 <= a < |t.kids[d]| && t.kids[d][a] == k;
    var b :| 0 <= b < |t.kids[d]| && t.kids[d][b] == j;
    assert a < b || b < a || a == b;
  }

  lemma KidFacts(t: Tree, d: nat, k: nat)
    requires TreeOk(t) && d in t.nodes && k in t.kids[d]
    ensures KidOk(t, d, k)
  {
  }

  lemma ParentFacts(t: Tree, n: nat)
    requires TreeOk(t) && n in t.nodes && n != t.root
    ensures n in t.parent && t.parent[n] in t.nodes && n in t.kids[t.parent[n]] && KidOk(t, t.parent[n], n)
  {
    assert HasParent(t, n);
  }

  /** Lookup and tree paths are inverse: resolving cs reaches n exactly when cs is the path of n. */
  lemma {:induction false} ResolveIff(t: Tree, cs: seq<string>, n: nat)
    requires TreeOk(t)
    ensures ResolveAt(t, cs) == Some(n) <==> n in t.nodes && t.path[n] == cs
    decreases |cs|
  {
    if cs == [] {
      if n in t.nodes && n != t.root {
        ParentFacts(t, n);
      }
    } else {
      var ini, c := cs[..|cs| - 1], cs[|cs| - 1];
      assert cs == ini + [c];
      if ResolveAt(t, cs) == Some(n) {
        var d := ResolveAt(t, ini).value;
        ResolveIff(t, ini, d);
        KidFacts(t, d, n);
      }
      if n in t.nodes && t.path[n] == cs {
        ParentFacts(t, n);
        var d := t.parent[n];
        assert t.path[d] == ini && t.nodes[n].name == c;
        ResolveIff(t, ini, d);
        ChildUnique(t, d, n);
      }
    }
  }

  /** A file or a missing name has nothing below it. */
  lemma {:induction false} DeadEnd(t: Tree, p: seq<string>, q: seq<string>)
    requires TreeOk(t) && p < q
    requires match ResolveAt(t, p) case None => true case Some(n) => n in t.nodes && !t.nodes[n].isDir
    ensures ResolveAt(t, q).None?
    decreases |q|
  {
    var ini := q[..|q| - 1];
    if p == ini {
      if ResolveAt(t, p).Some? {
        NoKids(t, ResolveAt(t, p).value);
      }
    } else {
      DeadEnd(t, p, ini);
    }
  }

  lemma NoKids(t: Tree, n: nat)
    requires TreeOk(t) && n in t.nodes && !t.nodes[n].isDir
    ensures t.kids[n] == []
  {
    if t.kids[n] != [] {
      KidFacts(t, n, t.kids[n][0]);
      assert false;
    }
  }

  /** ramfs_lookup. */
  ghost function LookupOf(t: Tree, path: string): Option<nat> {
    match Parse(path)
    case None => None
    case Some(cs) => ResolveAt(t, cs)
  }

  /** ramfs_parent_of, for a path other than "/": the directory and the last name. */
  ghost function ParentOf(t: Tree, path: string): Option<(nat, string)> {
    match Parse(path)
    case None => None
    case Some(cs) =>
      if cs == [] then None
      else
        match ResolveAt(t, cs[..|cs| - 1])
        case None => None
        case Some(d) => if d in t.nodes && t.nodes[d].isDir then Some((d, cs[|cs| - 1])) else None
  }

  /** The text of a node's path looks the node up, and no other text does. */
  lemma LookupInverse(t: Tree, path: string, n: nat)
    requires TreeOk(t)
    ensures LookupOf(t, path) == Some(n) <==> n in t.nodes && path == PathText(t.path[n])
  {
    hide TreeOk, Parse, PathText, ResolveAt;
    KeysOf(t);
    if LookupOf(t, path) == Some(n) {
      var cs := Parse(path).value;
      ResolveIff(t, cs, n);
      ParseText(path, cs);
    }
    if n in t.nodes && path == PathText(t.path[n]) {
      GoodPath(t, n);
      ParseText(path, t.path[n]);
      ResolveIff(t, t.path[n], n);
    }
  }

  lemma KeysOf(t: Tree)
    requires TreeOk(t)
    ensures t.path.Keys == t.nodes.Keys && t.kids.Keys == t.nodes.Keys && t.root in t.nodes && 0 !in t.nodes
    ensures t.path[t.root] == []
  {
  }

  lemma {:induction false} GoodPath(t: Tree, n: nat)
    requires TreeOk(t) && n in t.nodes
    ensures forall i :: 0 <= i < |t.path[n]| ==> GoodName(t.path[n][i])
    decreases |t.path[n]|
  {
    if n != t.root {
      ParentFacts(t, n);
      GoodPath(t, t.parent[n]);
    }
  }

  // ---------------------------------------------------------------- creating a node

  function AddNode(t: Tree, d: nat, name: string, isDir: bool, n: nat): Tree
    requires d in t.nodes && d in t.kids && d in t.path && n != d
  {
    t.(nodes := t.nodes[n := Node(name, isDir, 0, 0, t.nodes[d].child, [])][d := t.nodes[d].(child := n)],
       kids := t.kids[n := []][d := [n] + t.kids[d]],
       parent := t.parent[n := d],
       path := t.path[n := t.path[d] + [name]])
  }

  lemma AddKid(t: Tree, d: nat, name: string, isDir: bool, n: nat, e: nat, k: nat)
    requires TreeOk(t) && d in t.nodes && t.nodes[d].isDir && n !in t.nodes && n != 0 && GoodName(name)
    requires var t' := AddNode(t, d, name, isDir, n); e in t'.nodes && k in t'.kids[e]
    ensures KidOk(AddNode(t, d, name, isDir, n), e, k)
  {
    hide TreeOk, Parse;
    KeysOf(t);
    if k != n {
      assert e != n && k in t.kids[e];
      KidFacts(t, e, k);
    } else {
      KidsOld(t, e, n);
    }
  }

  lemma KidsOld(t: Tree, e: nat, n: nat)
    requires TreeOk(t) && n !in t.nodes
    ensures e in t.nodes ==> n !in t.kids[e]
  {
    if e in t.nodes && n in t.kids[e] {
      KidFacts(t, e, n);
      assert false;
    }
  }

  lemma AddParent(t: Tree, d: nat, name: string, isDir: bool, n: nat, m: nat)
    requires TreeOk(t) && d in t.nodes && n !in t.nodes && n != 0 && (m in t.nodes || m == n) && m != t.root
    ensures HasParent(AddNode(t, d, name, isDir, n), m)
  {
    KeysOf(t);
    if m != n {
      ParentFacts(t, m);
    }
    hide TreeOk, KidOk;
    assert n in [n] + t.kids[d];
  }

  lemma AddKeepsTree(t: Tree, d: nat, name: string, isDir: bool, n: nat)
    requires TreeOk(t) && d in t.nodes && t.nodes[d].isDir && n !in t.nodes && n != 0 && GoodName(name)
    requires ChildOf(t, d, name).None?
    ensures TreeOk(AddNode(t, d, name, isDir, n))
  {
    hide Chained, Distinct, KidOk, HasParent, ChildOf;
    var t' := AddNode(t, d, name, isDir, n);
    forall e | e in t'.nodes ensures Chained(t', e) && Distinct(t', e) {
      AddChain(t, d, name, isDir, n, e);
    }
    forall e, k | e in t'.nodes && k in t'.kids[e] ensures KidOk(t', e, k) {
      AddKid(t, d, name, isDir, n, e, k);
    }
    forall m | m in t'.nodes && m != t'.root ensures HasParent(t', m) {
      AddParent(t, d, name, isDir, n, m);
    }
    assert t'.kids.Keys == t'.nodes.Keys && t'.path.Keys == t'.nodes.Keys;
  }

  lemma ChainOf(t: Tree, e: nat)
    requires TreeOk(t) && e in t.nodes
    ensures Chained(t, e) && Distinct(t, e) && forall i :: 0 <= i < |t.kids[e]| ==> t.kids[e][i] in t.nodes
  {
    hide KidOk, HasParent;
    assert Chained(t, e);
    forall i | 0 <= i < |t.kids[e]| ensures t.kids[e][i] in t.nodes {
      assert ChainLink(t.nodes, t.kids[e], i);
    }
  }

  lemma NameFree(t: Tree, d: nat, name: string)
    requires TreeOk(t) && d in t.nodes && ChildOf(t, d, name).None?
    ensures forall k :: k in t.kids[d] && k in t.nodes ==> t.nodes[k].name != name
  {
    hide KidOk, HasParent, Chained, Distinct;
  }

  lemma ChainSame(nodes: map<nat, Node>, nodes': map<nat, Node>, first: nat, ks: seq<nat>)
    requires ChainSeq(nodes, first, ks) && NamesDiffer(nodes, ks)
    requires forall m :: m in ks && m in nodes ==>
               m in nodes' && nodes'[m].sibling == nodes[m].sibling && nodes'[m].name == nodes[m].name
    ensures ChainSeq(nodes', first, ks) && NamesDiffer(nodes', ks)
  {
    forall i | 0 <= i < |ks|
      ensures ChainLink(nodes', ks, i) && ks[i] in nodes && ks[i] in nodes'
              && nodes'[ks[i]].sibling == nodes[ks[i]].sibling && nodes'[ks[i]].name == nodes[ks[i]].name {
      assert ks[i] in ks && ChainLink(nodes, ks, i);
    }
  }

  lemma ChainCons(nodes: map<nat, Node>, first: nat, ks: seq<nat>, n: nat)
    requires ChainSeq(nodes, first, ks) && n in nodes && nodes[n].sibling == first
    ensures ChainSeq(nodes, n, [n] + ks)
  {
    var ks' := [n] + ks;
    forall i | 0 <= i < |ks'| ensures ChainLink(nodes, ks', i) {
      if i > 0 {
        assert ChainLink(nodes, ks, i - 1);
      } else {
        assert ks != [] ==> ks'[1] == ks[0];
      }
    }
  }

  lemma NamesCons(nodes: map<nat, Node>, ks: seq<nat>, n: nat)
    requires NamesDiffer(nodes, ks) && n in nodes
    requires forall k :: k in ks && k in nodes ==> nodes[k].name != nodes[n].name
    ensures NamesDiffer(nodes, [n] + ks)
  {
    var ks' := [n] + ks;
    forall i, j | 0 <= i < j < |ks'| && ks'[i] in nodes && ks'[j] in nodes
      ensures nodes[ks'[i]].name != nodes[ks'[j]].name {
      assert ks'[j] == ks[j - 1] && ks[j - 1] in ks;
      if i > 0 {
        assert ks'[i] == ks[i - 1];
      }
    }
  }

  lemma AddChain(t: Tree, d: nat, name: string, isDir: bool, n: nat, e: nat)
    requires TreeOk(t) && d in t.nodes && n !in t.nodes && n != 0 && ChildOf(t, d, name).None?
    requires e in t.nodes || e == n
    ensures Chained(AddNode(t, d, name, isDir, n), e) && Distinct(AddNode(t, d, name, isDir, n), e)
  {
    hide TreeOk, ChildOf, ChainSeq, NamesDiffer;
    KeysOf(t);
    var t' := AddNode(t, d, name, isDir, n);
    if e == n {
      ChainEmpty(t'.nodes);
    } else {
      ChainOf(t, e);
      KidsOld(t, e, n);
      ChainSame(t.nodes, t'.nodes, t.nodes[e].child, t.kids[e]);
      if e == d {
        NameFree(t, d, name);
        ChainCons(t'.nodes, t.nodes[d].child, t.kids[d], n);
        NamesCons(t'.nodes, t.kids[d], n);
      }
    }
  }

  lemma ChainEmpty(nodes: map<nat, Node>)
    ensures ChainSeq(nodes, 0, []) && NamesDiffer(nodes, [])
  {
  }

  /** A successful creation changes the lookup result of exactly one path. */
  lemma CreateChangesOne(t: Tree, d: nat, name: string, isDir: bool, n: nat, path: string, q: string)
    requires TreeOk(t) && n !in t.nodes && n != 0
    requires ParentOf(t, path) == Some((d, name)) && ChildOf(t, d, name).None?
    ensures d in t.nodes && t.nodes[d].isDir && GoodName(name)
    ensures TreeOk(AddNode(t, d, name, isDir, n))
    ensures LookupOf(AddNode(t, d, name, isDir, n), q) == if q == path then Some(n) else LookupOf(t, q)
  {
    hide TreeOk, ResolveAt, Parse, ChildOf, PathText;
    var cs := Parse(path).value;
    var ini := cs[..|cs| - 1];
    ParseText(path, cs);
    assert GoodName(cs[|cs| - 1]);
    KeysOf(t);
    ResolveIff(t, ini, d);
    AddKeepsTree(t, d, name, isDir, n);
    var t' := AddNode(t, d, name, isDir, n);
    assert t'.path[n] == cs;
    LookupInverse(t', path, n);
    if q != path {
      SameLookup(t, t', n, q);
    }
  }

  lemma SameLookup(t: Tree, t': Tree, n: nat, q: string)
    requires TreeOk(t) && TreeOk(t') && n !in t.nodes && n in t'.nodes && t.path.Keys == t.nodes.Keys
    requires t'.path.Keys == t'.nodes.Keys && t'.nodes.Keys == t.nodes.Keys + {n}
    requires forall m :: m in t.nodes ==> t'.path[m] == t.path[m]
    requires q != PathText(t'.path[n])
    ensures LookupOf(t', q) == LookupOf(t, q)
  {
    hide ResolveAt, Parse, PathText, TreeOk, LookupOf;
    if LookupOf(t, q).Some? {
      var m := LookupOf(t, q).value;
      LookupInverse(t, q, m);
      LookupInverse(t', q, m);
    } else if LookupOf(t', q).Some? {
      var m := LookupOf(t', q).value;
      LookupInverse(t', q, m);
      LookupInverse(t, q, m);
    }
  }

  // ---------------------------------------------------------------- changing a file

  /** Replacing a node by one with the same name, kind and links. */
  function SetFile(t: Tree, n: nat, size: nat, pages: seq<nat>): Tree
    requires n in t.nodes
  {
    t.(nodes := t.nodes[n := t.nodes[n].(size := size, pages := pages)])
  }

  /** ... changes neither the tree nor any lookup. */
  lemma SetFileKeepsTree(t: Tree, n: nat, size: nat, pages: seq<nat>)
    requires TreeOk(t) && n in t.nodes
    ensures TreeOk(SetFile(t, n, size, pages))
    ensures forall q :: LookupOf(SetFile(t, n, size, pages), q) == LookupOf(t, q)
  {
    var t' := SetFile(t, n, size, pages);
    SetFileTree(t, n, size, pages);
    forall q ensures LookupOf(t', q) == LookupOf(t, q) {
      hide TreeOk, LookupOf, PathText;
      KeysOf(t);
      KeysOf(t');
      if LookupOf(t, q).Some? {
        LookupInverse(t, q, LookupOf(t, q).value);
        LookupInverse(t', q, LookupOf(t, q).value);
      } else if LookupOf(t', q).Some? {
        LookupInverse(t', q, LookupOf(t', q).value);
        LookupInverse(t, q, LookupOf(t', q).value);
      }
    }
  }

  lemma SetFileTree(t: Tree, n: nat, size: nat, pages: seq<nat>)
    requires TreeOk(t) && n in t.nodes
    ensures TreeOk(SetFile(t, n, size, pages))
  {
    hide ChainSeq, NamesDiffer, KidOk, HasParent;
    var t' := SetFile(t, n, size, pages);
    forall d | d in t'.nodes ensures Chained(t', d) && Distinct(t', d) {
      assert Chained(t, d) && Distinct(t, d);
      ChainSame(t.nodes, t'.nodes, t.nodes[d].child, t.kids[d]);
    }
    forall d, k | d in t'.nodes && k in t'.kids[d] ensures KidOk(t', d, k) {
      KidFacts(t, d, k);
      KidSame(t, t', d, k);
    }
    forall m | m in t'.nodes && m != t'.root ensures HasParent(t', m) {
      assert HasParent(t, m);
      ParentSame(t, t', m);
    }
  }

  lemma KidSame(t: Tree, t': Tree, d: nat, k: nat)
    requires KidOk(t, d, k) && t'.path == t.path && t'.parent == t.parent && t'.root == t.root
    requires d in t'.nodes && k in t'.nodes && t'.nodes[d].isDir == t.nodes[d].isDir
    requires t'.nodes[k].name == t.nodes[k].name
    ensures KidOk(t', d, k)
  {
  }

  lemma ParentSame(t: Tree, t': Tree, m: nat)
    requires HasParent(t, m) && t'.parent == t.parent && t'.kids == t.kids
    ensures HasParent(t', m)
  {
  }
}
