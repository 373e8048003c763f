/** The in-memory file system (src/fs/ramfs.c) and the program loader on top of it (src/exec/exec.c). */
module Ramfs {
  import opened Common
  import F = Frames
  import opened RamfsPath
  import opened RamfsTree
  import opened RamfsFiles

  const VFS_OK: int := 0
  const VFS_ERR_INVAL: int := -1
  const VFS_ERR_NOTFOUND: int := -2
  const VFS_ERR_EXISTS: int := -3
  const VFS_ERR_ISDIR: int := -5
  const VFS_ERR_NOSPACE: int := -6
  const VFS_ERR_BADPATH: int := -7

  class FileSystem {
    const pmm: F.FrameAllocator
    const root: nat
    var nodes: map<nat, Node>
    var data: Frames
    ghost var kids: map<nat, seq<nat>>
    ghost var parent: map<nat, nat>
    ghost var path: map<nat, seq<string>>
    ghost var powner: map<nat, (nat, nat)>

    ghost function T(): Tree
      reads this
    {
      Tree(root, nodes, kids, parent, path)
    }

    ghost predicate Valid()
      reads this, pmm.bitmap
    {
      pmm.Valid() && TreeOk(T()) && FilesOk(nodes, powner, pmm.Free())
    }

    /** ramfs_init, with the node kmalloc returned for the root. */
    constructor (pmm_: F.FrameAllocator, rootNode: nat)
      requires pmm_.Valid() && rootNode != 0
      ensures Valid() && pmm == pmm_ && root == rootNode && nodes.Keys == {root}
    {
      pmm, root := pmm_, rootNode;
      nodes := map[rootNode := Node("", true, 0, 0, 0, [])];
      data := map[];
      kids, parent, path, powner := map[rootNode := []], map[], map[rootNode := []], map[];
    }

    /** ramfs_find_child */
    method FindChild(dir: nat, name: string) returns (r: Option<nat>)
      requires TreeOk(T()) && dir in nodes
      ensures r == ChildOf(T(), dir, name)
    {
      hide TreeOk, ChildOf;
      if !nodes[dir].isDir {
        NoKids(T(), dir);
        ChildNone(T(), dir, name);
        return None;
      }
      ChainOf(T(), dir);
      KeysOf(T());
      var c := nodes[dir].child;
      ghost var i := 0;
      while c != 0
        invariant 0 <= i <= |kids[dir]| && c == (if i < |kids[dir]| then kids[dir][i] else 0)
        invariant forall j :: 0 <= j < i ==> kids[dir][j] in nodes && nodes[kids[dir][j]].name != name
        decreases |kids[dir]| - i
      {
        assert ChainLink(nodes, kids[dir], i);
        if nodes[c].name == name {
          ChildUnique(T(), dir, c);
          return Some(c);
        }
        c := nodes[c].sibling;
        i := i + 1;
      }
      assert i == |kids[dir]|;
      ChildNone(T(), dir, name);
      return None;
    }

    /** The inner loop of ramfs_parent_of: one component, given up on past 63 characters. */
    method ReadComponent(p: string, start: nat) returns (i: nat, comp: string)
      requires start <= |p|
      ensures start <= i <= |p| && |comp| <= VFS_NAME_MAX + 1
      ensures |comp| <= VFS_NAME_MAX ==> comp == p[start..i] && '/' !in comp && (i < |p| ==> p[i] == '/')
      ensures |comp| <= VFS_NAME_MAX ==> Split(p[start..]) == if i == |p| then [comp] else [comp] + Split(p[i + 1..])
      ensures |comp| > VFS_NAME_MAX ==> |Split(p[start..])[0]| > VFS_NAME_MAX
      ensures comp == "" ==> Split(p[start..])[0] == ""
    {
      hide Split;
      i, comp := start, "";
      while i < |p| && p[i] != '/'
        invariant start <= i <= |p| && |comp| == i - start <= VFS_NAME_MAX && comp == p[start..i] && '/' !in comp
      {
        if |comp| >= VFS_NAME_MAX {
          LongName(p, start, i);
          comp := comp + [p[i]];
          return;
        }
        comp := comp + [p[i]];
        i := i + 1;
      }
      SplitAtSlash(p, start, i);
    }

    /** ramfs_parent_of, for a path other than "/". */
    method FindParent(p: string) returns (r: Option<(nat, string)>)
      requires TreeOk(T()) && p != "/"
      ensures r == ParentOf(T(), p)
    {
      hide TreeOk, ResolveAt, ChildOf, Split, ParentOf;
      if p == "" || p[0] != '/' {
        NotAbsolute(T(), p);
        return None;
      }
      var cur, i := root, 1;
      ghost var done: seq<string> := [];
      KeysOf(T());
      ResolveRoot(T());
      assert done + Split(p[1..]) == Split(p[1..]);
      while true
        invariant 1 <= i <= |p| && Split(p[1..]) == done + Split(p[i..])
        invariant forall k :: 0 <= k < |done| ==> GoodName(done[k])
        invariant ResolveAt(T(), done) == Some(cur) && cur in nodes && nodes[cur].isDir
        decreases |p| - i
      {
        ghost var start := i;
        var comp;
        i, comp := ReadComponent(p, i);
        if comp == "" || |comp| > VFS_NAME_MAX {
          BadComponent(T(), p, done, p[start..]);
          return None;
        }
        if i == |p| {
          LastComponent(T(), p, done, comp, cur);
          return Some((cur, comp));
        }
        var next := FindChild(cur, comp);
        ResolveStep(T(), done, comp, cur);
        if next.None? || !nodes[next.value].isDir {
          DeadComponent(T(), p, done, comp, Split(p[i + 1..]));
          return None;
        }
        cur := next.value;
        i := i + 1;
        done := done + [comp];
        assert Split(p[1..]) == done + Split(p[i..]);
      }
    }

    /** ramfs_lookup */
    method Lookup(p: string) returns (r: Option<nat>)
      requires TreeOk(T())
      ensures r == LookupOf(T(), p) && (r.Some? ==> r.value in nodes)
    {
      hide TreeOk, ResolveAt, ChildOf, ParentOf, LookupOf;
      if p == "" || p[0] != '/' {
        NotAbsolute(T(), p);
        return None;
      }
      if p == "/" {
        LookupRoot(T());
        return Some(root);
      }
      var pr := FindParent(p);
      LookupByParent(T(), p);
      if pr.None? {
        return None;
      }
      r := FindChild(pr.value.0, pr.value.1);
    }

    /** ramfs_create, given what kmalloc returns for the node. */
    method Create(p: string, isDir: bool, fresh_: Option<nat>) returns (code: int)
      requires Valid() && (fresh_.Some? ==> fresh_.value !in nodes && fresh_.value != 0)
      modifies `nodes, `kids, `parent, `path
      ensures Valid()
      ensures code in {VFS_OK, VFS_ERR_BADPATH, VFS_ERR_EXISTS, VFS_ERR_NOSPACE}
      ensures code != VFS_OK ==> T() == old(T())
      ensures code == -7 <==> |p| > 256 || ParentOf(old(T()), p).None?
      ensures code == -3 <==> |p| <= 256 && p != "/" && LookupOf(old(T()), p).Some?
      ensures code == VFS_ERR_NOSPACE ==> fresh_.None?
      ensures code == VFS_OK ==>
                fresh_.Some? && nodes.Keys == old(nodes).Keys + {fresh_.value} && nodes[fresh_.value].isDir == isDir
                && nodes[fresh_.value].size == 0 && nodes[fresh_.value].pages == []
      ensures code == VFS_OK ==> forall q :: LookupOf(T(), q) == if q == p then fresh_ else LookupOf(old(T()), q)
      ensures forall n :: n in old(nodes) ==>
                nodes[n].pages == old(nodes)[n].pages && nodes[n].size == old(nodes)[n].size
    {
      hide TreeOk, ResolveAt, ChildOf, ParentOf, LookupOf, FilesOk;
      if p == "" || p[0] != '/' || p == "/" {
        if p == "/" {
          LookupRoot(T());
        } else {
          NotAbsolute(T(), p);
        }
        return VFS_ERR_BADPATH;
      }
      if |p| > VFS_PATH_MAX {
        return VFS_ERR_BADPATH;
      }
      var pr := FindParent(p);
      LookupByParent(T(), p);
      if pr.None? || pr.value.1 == "" {
        return VFS_ERR_BADPATH;
      }
      var (d, leaf) := pr.value;
      assert nodes[d].isDir; // so the source's VFS_ERR_NOTDIR branch is never taken
      var existing := FindChild(d, leaf);
      if existing.Some? {
        return VFS_ERR_EXISTS;
      }
      if fresh_.None? {
        return VFS_ERR_NOSPACE;
      }
      AddLeaf(d, leaf, isDir, fresh_.value, p);
      return VFS_OK;
    }

    /** Links a new node in front of the children of d. */
    method AddLeaf(d: nat, leaf: string, isDir: bool, n: nat, ghost p: string)
      requires Valid() && n !in nodes && n != 0 && ParentOf(T(), p) == Some((d, leaf)) && ChildOf(T(), d, leaf).None?
      modifies `nodes, `kids, `parent, `path
      ensures Valid()
      ensures nodes.Keys == old(nodes).Keys + {n}
      ensures nodes[n].isDir == isDir && nodes[n].size == 0 && nodes[n].pages == []
      ensures forall q :: LookupOf(T(), q) == if q == p then Some(n) else LookupOf(old(T()), q)
      ensures forall m :: m in old(nodes) ==>
                nodes[m].pages == old(nodes)[m].pages && nodes[m].size == old(nodes)[m].size
    {
      hide TreeOk, ResolveAt, ChildOf, ParentOf, LookupOf, FilesOk;
      ghost var t := T();
      KeysOf(t);
      CreateChangesOne(t, d, leaf, isDir, n, p, p);
      ghost var t' := AddNode(t, d, leaf, isDir, n);
      forall q ensures LookupOf(t', q) == if q == p then Some(n) else LookupOf(t, q) {
        CreateChangesOne(t, d, leaf, isDir, n, p, q);
      }
      nodes := nodes[n := Node(leaf, isDir, 0, 0, nodes[d].child, [])];
      nodes := nodes[d := nodes[d].(child := n)];
      kids, parent, path := t'.kids, t'.parent, t'.path;
      assert T() == t';
      FilesSame(t.nodes, nodes, powner, pmm.Free(), n);
    }

    // -------------------------------------------------------------- files

    /** ramfs_ensure_page: grows the file by zeroed pages up to page idx. */
    method EnsurePage(f: nat, idx: nat) returns (r: Option<nat>)
      requires Valid() && f in nodes && !nodes[f].isDir
      modifies `nodes, `data, `powner, pmm.bitmap
      ensures Valid() && OnlyFile(old(nodes), old(data), old(pmm.Free()), nodes, data, pmm.Free(), f)
      ensures nodes[f].size == old(nodes)[f].size
      ensures r.Some? ==> idx < |nodes[f].pages| && r.value == nodes[f].pages[idx]
      ensures Zeroed(old(nodes)[f].pages, nodes[f].pages, old(data), data)
      ensures PagesTaken(pmm, old(nodes)[f].pages, old(pmm.Free()), nodes[f].pages, pmm.Free())
      ensures r.Some? <==> |old(nodes)[f].pages| > idx
                           || (idx < RAMFS_PAGES_PER_FILE
                               && idx + 1 <= |old(nodes)[f].pages| + |F.Usable(pmm, old(pmm.Free()))|)
      ensures r.Some? ==> |nodes[f].pages| == Max(|old(nodes)[f].pages|, idx + 1)
      ensures r.None? ==> |nodes[f].pages| <= idx
      ensures r.None? && idx < RAMFS_PAGES_PER_FILE ==> F.Spent(pmm, pmm.Free())
    {
      hide TreeOk, FilesOk, F.FreeSet, LookupOf, ZeroPage, PagesTaken, OnlyFile, F.Usable, F.Spent, PageAt;
      ghost var pages, nodes0, data0, free0 := nodes[f].pages, nodes, data, pmm.Free();
      TakenStart(pmm, pages, free0);
      OnlyFileStart(nodes, data, free0, f);
      SizeOf(nodes, powner, free0, f);
      NewZero(pages, pages, data, data);
      while |nodes[f].pages| <= idx
        invariant Valid() && OnlyFile(nodes0, data0, free0, nodes, data, pmm.Free(), f) && f in nodes
        invariant nodes[f].size == nodes0[f].size && !nodes[f].isDir && SizesOk(nodes[f])
        invariant Zeroed(pages, nodes[f].pages, data0, data)
        invariant PagesTaken(pmm, pages, free0, nodes[f].pages, pmm.Free())
        invariant |nodes[f].pages| <= Max(|pages|, idx + 1)
        decreases idx - |nodes[f].pages|
      {
        TakenCount(pmm, pages, free0, nodes[f].pages, pmm.Free());
        if |nodes[f].pages| >= RAMFS_PAGES_PER_FILE {
          return None;
        }
        ghost var nodes1, data1, free1 := nodes, data, pmm.Free();
        PagesInUse(nodes, powner, free1, f);
        var p := AddPage(f);
        if p.None? {
          NoneLeft(pmm, pages, free0, nodes[f].pages, pmm.Free());
          return None;
        }
        TakenOne(pmm, pages, free0, nodes1[f].pages, free1, p.value);
        OnlyFileAdd(nodes0, data0, free0, nodes1, data1, free1, f, p.value);
        ZeroedAdd(pages, nodes1[f].pages, data0, data1, p.value);
      }
      TakenCount(pmm, pages, free0, nodes[f].pages, pmm.Free());
      return Some(nodes[f].pages[idx]);
    }

    /** One turn of that loop: a zeroed frame becomes the last page of the file. */
    method AddPage(f: nat) returns (p: Option<nat>)
      requires Valid() && f in nodes && !nodes[f].isDir && |nodes[f].pages| < RAMFS_PAGES_PER_FILE
      modifies `nodes, `data, `powner, pmm.bitmap
      ensures Valid()
      ensures p.None? ==> nodes == old(nodes) && data == old(data) && powner == old(powner)
      ensures p.None? ==> pmm.Free() == old(pmm.Free()) && F.Spent(pmm, pmm.Free())
      ensures p.Some? ==> p.value in old(pmm.Free()) && pmm.Free() == old(pmm.Free()) - {p.value}
      ensures p.Some? ==> F.Fits(old(pmm.Free()), pmm.FirstPage(), pmm.frameCount, p.value, 1)
      ensures p.Some? ==> nodes == old(nodes)[f := old(nodes)[f].(pages := old(nodes)[f].pages + [p.value])]
      ensures p.Some? ==> data == old(data)[p.value := ZeroPage()] && SizesOk(nodes[f])
      ensures p.Some? ==> powner == old(powner)[p.value := (f, |old(nodes)[f].pages|)]
    {
      hide TreeOk, FilesOk, F.FreeSet, F.Fits, LookupOf, ZeroPage;
      ghost var free := pmm.Free();
      p := pmm.Alloc();
      if p.None? {
        return;
      }
      AddPageOk(nodes, powner, free, f, p.value);
      SetFileTree(T(), f, nodes[f].size, nodes[f].pages + [p.value]);
      data := data[p.value := ZeroPage()];
      powner := powner[p.value := (f, |nodes[f].pages|)];
      nodes := nodes[f := nodes[f].(pages := nodes[f].pages + [p.value])];
      SizeOf(nodes, powner, pmm.Free(), f);
    }

    /** The copy loop of ramfs_write; returns how many bytes were copied before pages ran out. */
    method WriteBytes(f: nat, buf: seq<Byte>, offset: nat) returns (w: nat)
      requires Valid() && f in nodes && !nodes[f].isDir && offset <= nodes[f].size
      requires offset + |buf| <= VFS_MAX_FILE_SIZE
      modifies `nodes, `data, `powner, pmm.bitmap
      ensures Valid() && OnlyFile(old(nodes), old(data), old(pmm.Free()), nodes, data, pmm.Free(), f)
      ensures nodes[f].size == old(nodes)[f].size
      ensures w <= |buf| && old(nodes)[f].size <= 4096 * |old(nodes)[f].pages|
      ensures Written(old(data), old(nodes)[f].pages, data, nodes[f].pages, old(nodes)[f].size, offset, buf, w)
      ensures w < |buf| ==> old(nodes)[f].size <= offset + w
      ensures w < |buf| ==> F.Spent(pmm, pmm.Free())
      ensures PagesTaken(pmm, old(nodes)[f].pages, old(pmm.Free()), nodes[f].pages, pmm.Free())
      ensures w == |buf| <==>
                PagesFor(offset + |buf|) <= |old(nodes)[f].pages| + |F.Usable(pmm, old(pmm.Free()))|
    {
      hide FileSystem.Valid, FileSystem.Progress, F.FreeSet, OnlyFile, Written, PagesTaken, F.Usable, F.Spent, PagesFor;
      ghost var nodes0, data0, free0 := nodes, data, pmm.Free();
      Started(f, buf, offset);
      w := 0;
      while w < |buf|
        invariant f in nodes0 && w <= |buf| && Progress(nodes0, data0, free0, f, offset, buf, w)
      {
        var chunk := CopyChunk(f, buf, offset, w, nodes0, data0, free0);
        if chunk == 0 {
          Stopped(nodes0, data0, free0, f, offset, buf, w);
          return;
        }
        w := w + chunk;
      }
      Stopped(nodes0, data0, free0, f, offset, buf, w);
    }

    /** After w bytes of a write that began with nodes0, data0 and free0. */
    ghost predicate Progress(nodes0: map<nat, Node>, data0: Frames, free0: set<nat>, f: nat, offset: nat,
                             buf: seq<Byte>, w: nat)
      requires f in nodes0
      reads this, pmm.bitmap
    {
      && Valid() && OnlyFile(nodes0, data0, free0, nodes, data, pmm.Free(), f)
      && f in nodes && nodes[f].size == nodes0[f].size <= 4096 * |nodes0[f].pages| && !nodes[f].isDir
      && offset <= nodes[f].size && w <= |buf|
      && Written(data0, nodes0[f].pages, data, nodes[f].pages, nodes0[f].size, offset, buf, w)
      && PagesTaken(pmm, nodes0[f].pages, free0, nodes[f].pages, pmm.Free())
      && |nodes[f].pages| >= Max(|nodes0[f].pages|, PagesFor(offset + w))
      && |nodes[f].pages| <= Max(|nodes0[f].pages|, PagesFor(offset + |buf|))
    }

    lemma Started(f: nat, buf: seq<Byte>, offset: nat)
      requires Valid() && f in nodes && !nodes[f].isDir && offset <= nodes[f].size
      ensures Progress(nodes, data, pmm.Free(), f, offset, buf, 0)
    {
      hide TreeOk, FilesOk, F.FreeSet, F.Fits, LookupOf, Written, OnlyFile, PagesTaken;
      OnlyFileStart(nodes, data, pmm.Free(), f);
      SizeOf(nodes, powner, pmm.Free(), f);
      WrittenStart(data, nodes[f].pages, nodes[f].size, offset, buf);
      TakenStart(pmm, nodes[f].pages, pmm.Free());
    }

    /** What the copy loop leaves behind. */
    lemma Stopped(nodes0: map<nat, Node>, data0: Frames, free0: set<nat>, f: nat, offset: nat, buf: seq<Byte>, w: nat)
      requires f in nodes0 && Progress(nodes0, data0, free0, f, offset, buf, w)
      requires w < |buf| ==> F.Spent(pmm, pmm.Free()) && |nodes[f].pages| <= (offset + w) / 4096
      ensures Valid() && OnlyFile(nodes0, data0, free0, nodes, data, pmm.Free(), f) && f in nodes
      ensures nodes[f].size == nodes0[f].size <= 4096 * |nodes0[f].pages|
      ensures Written(data0, nodes0[f].pages, data, nodes[f].pages, nodes0[f].size, offset, buf, w)
      ensures w < |buf| ==> nodes0[f].size <= offset + w
      ensures PagesTaken(pmm, nodes0[f].pages, free0, nodes[f].pages, pmm.Free())
      ensures w == |buf| <==> PagesFor(offset + |buf|) <= |nodes0[f].pages| + |F.Usable(pmm, free0)|
    {
      hide FileSystem.Valid, F.FreeSet, F.Fits, OnlyFile, Written, PagesTaken, F.Usable, F.Spent;
      TakenCount(pmm, nodes0[f].pages, free0, nodes[f].pages, pmm.Free());
      if w < |buf| {
        NoneLeft(pmm, nodes0[f].pages, free0, nodes[f].pages, pmm.Free());
        PageNeeded(offset, w, 1, |buf|);
      }
    }

    /** One turn of the copy loop; 0 when its page could not be had. */
    method CopyChunk(f: nat, buf: seq<Byte>, offset: nat, w: nat, ghost nodes0: map<nat, Node>, ghost data0: Frames,
                     ghost free0: set<nat>)
      returns (chunk: nat)
      requires f in nodes0 && w < |buf| && Progress(nodes0, data0, free0, f, offset, buf, w)
      requires offset + |buf| <= VFS_MAX_FILE_SIZE
      modifies `nodes, `data, `powner, pmm.bitmap
      ensures w + chunk <= |buf| && Progress(nodes0, data0, free0, f, offset, buf, w + chunk)
      ensures chunk == 0 ==> F.Spent(pmm, pmm.Free()) && |nodes[f].pages| <= (offset + w) / 4096
    {
      hide TreeOk, FilesOk, F.FreeSet, F.Fits, LookupOf, Written, OnlyFile, PutChunk, PagesTaken, F.Usable, F.Spent,
           PagesFor;
      ghost var node := nodes0[f];
      var off := offset + w;
      var pidx, poff := off / 4096, off % 4096;
      chunk := 4096 - poff;
      if chunk > |buf| - w {
        chunk := |buf| - w;
      }
      PageNeeded(offset, w, chunk, |buf|);
      var page := ChunkPage(f, buf, offset, w, pidx, nodes0, data0, free0);
      if page.None? {
        return 0;
      }
      PagesDiffer(nodes, powner, pmm.Free(), f, pidx);
      WriteMore(data0, node.pages, data, nodes[f].pages, node.size, offset, buf, w, chunk);
      OnlyFilePut(nodes0, data0, free0, nodes, data, pmm.Free(), f, pidx, poff, buf[w..w + chunk]);
      data := PutChunk(data, page.value, poff, buf[w..w + chunk]);
    }

    /** The page a chunk goes to; growing the file undoes nothing written so far. */
    method ChunkPage(f: nat, ghost buf: seq<Byte>, ghost offset: nat, ghost w: nat, pidx: nat,
                     ghost nodes0: map<nat, Node>, ghost data0: Frames, ghost free0: set<nat>)
      returns (page: Option<nat>)
      requires f in nodes0 && Progress(nodes0, data0, free0, f, offset, buf, w)
      requires pidx + 1 <= PagesFor(offset + |buf|) && pidx < RAMFS_PAGES_PER_FILE
      modifies `nodes, `data, `powner, pmm.bitmap
      ensures Progress(nodes0, data0, free0, f, offset, buf, w)
      ensures page.Some? ==> pidx < |nodes[f].pages| && page.value == nodes[f].pages[pidx]
      ensures page.None? ==> |nodes[f].pages| <= pidx && F.Spent(pmm, pmm.Free())
    {
      hide TreeOk, FilesOk, F.FreeSet, F.Fits, LookupOf, Written, OnlyFile, PagesTaken, Zeroed, F.Usable, F.Spent,
           PagesFor;
      ghost var pages, data1, pages1, nodes1, free1 := nodes0[f].pages, data, nodes[f].pages, nodes, pmm.Free();
      page := EnsurePage(f, pidx);
      OnlyFileTrans(nodes0, data0, free0, nodes1, data1, free1, nodes, data, pmm.Free(), f);
      TakenTrans(pmm, pages, free0, pages1, free1, nodes[f].pages, pmm.Free());
      TakenCount(pmm, pages1, free1, nodes[f].pages, pmm.Free());
      WrittenZeroed(data0, pages, data1, pages1, data, nodes[f].pages, nodes0[f].size, offset, buf, w);
    }

    /** ramfs_write.  On success the data is spliced in at the offset.  A write past the largest file size
        is refused; one that runs out of frames keeps the size but has replaced every old byte from the
        offset on. */
    method Write(p: string, buf: seq<Byte>, offset: nat) returns (code: int)
      requires Valid()
      modifies `nodes, `data, `powner, pmm.bitmap
      ensures Valid() && forall q :: LookupOf(T(), q) == LookupOf(old(T()), q)
      ensures var f := LookupOf(old(T()), p);
              && (code == -2 <==> f.None?)
              && (code == -5 <==> f.Some? && old(nodes)[f.value].isDir)
      ensures var f := LookupOf(old(T()), p);
              f.Some? && !old(nodes)[f.value].isDir ==>
                var node := old(nodes)[f.value];
                && (code == -1 <==> 0 < |buf| && node.size < offset)
                && (code == -6 <==>
                      && 0 < |buf| && offset <= node.size
                      && (32768 < offset + |buf|
                          || |node.pages| + |F.Usable(pmm, old(pmm.Free()))| < (offset + |buf| + 4095) / 4096))
                && (code == |buf| <==>
                      || |buf| == 0
                      || (&& offset <= node.size && offset + |buf| <= 32768
                          && (offset + |buf| + 4095) / 4096 <= |node.pages| + |F.Usable(pmm, old(pmm.Free()))|))
      ensures code <= 0 && code != VFS_ERR_NOSPACE ==> nodes == old(nodes) && data == old(data)
      ensures code > 0 ==> code == |buf| && var f := LookupOf(old(T()), p).value;
                                            SizesOk(nodes[f]) && offset <= old(nodes)[f].size
                                            && Contents(data, nodes[f])
                                               == Splice(Contents(old(data), old(nodes)[f]), offset, buf)
      ensures code == VFS_ERR_NOSPACE && offset + |buf| > VFS_MAX_FILE_SIZE ==> nodes == old(nodes) && data == old(data)
      ensures code == VFS_ERR_NOSPACE && offset + |buf| <= VFS_MAX_FILE_SIZE ==>
                var f := LookupOf(old(T()), p).value;
                && nodes[f].size == old(nodes)[f].size < offset + |buf| && SizesOk(nodes[f])
                && offset <= old(nodes)[f].size
                && Contents(data, nodes[f]) == Splice(Contents(old(data), old(nodes)[f]), offset, buf)[..nodes[f].size]
                && F.Spent(pmm, pmm.Free())
      ensures code <= 0 && code != VFS_ERR_NOSPACE ==> pmm.Free() == old(pmm.Free())
      ensures code > 0 || code == VFS_ERR_NOSPACE ==>
                var f := LookupOf(old(T()), p).value;
                PagesTaken(pmm, old(nodes)[f].pages, old(pmm.Free()), nodes[f].pages, pmm.Free())
      ensures nodes.Keys == old(nodes).Keys
      ensures forall g :: g in nodes && Some(g) != LookupOf(old(T()), p)
                          ==> nodes[g] == old(nodes)[g] && SizesOk(nodes[g])
                              && Contents(data, nodes[g]) == Contents(old(data), nodes[g])
    {
      hide TreeOk, FilesOk, F.FreeSet, F.Fits, LookupOf, Written, OnlyFile, Splice, PagesTaken, F.Usable, F.Spent;
      var fr := Lookup(p);
      AllSizes(nodes, powner, pmm.Free());
      if fr.None? {
        return VFS_ERR_NOTFOUND;
      }
      var f := fr.value;
      if nodes[f].isDir {
        return VFS_ERR_ISDIR;
      }
      if buf == [] {
        return 0;
      }
      if offset > nodes[f].size {
        return VFS_ERR_INVAL;
      }
      if offset + |buf| > VFS_MAX_FILE_SIZE {
        TakenStart(pmm, nodes[f].pages, pmm.Free());
        return VFS_ERR_NOSPACE;
      }
      code := WriteFile(f, buf, offset);
    }

    /** ramfs_write once its checks have passed. */
    method WriteFile(f: nat, buf: seq<Byte>, offset: nat) returns (code: int)
      requires Valid() && f in nodes && !nodes[f].isDir && buf != [] && offset <= nodes[f].size
      requires offset + |buf| <= VFS_MAX_FILE_SIZE
      modifies `nodes, `data, `powner, pmm.bitmap
      ensures Valid() && forall q :: LookupOf(T(), q) == LookupOf(old(T()), q)
      ensures nodes.Keys == old(nodes).Keys && SizesOk(old(nodes)[f]) && SizesOk(nodes[f])
      ensures code == if PagesFor(offset + |buf|) <= |old(nodes)[f].pages| + |F.Usable(pmm, old(pmm.Free()))| then |buf|
                      else VFS_ERR_NOSPACE
      ensures PagesTaken(pmm, old(nodes)[f].pages, old(pmm.Free()), nodes[f].pages, pmm.Free())
      ensures code == |buf| ==> Contents(data, nodes[f]) == Splice(Contents(old(data), old(nodes)[f]), offset, buf)
      ensures code == VFS_ERR_NOSPACE ==>
                nodes[f].size == old(nodes)[f].size && F.Spent(pmm, pmm.Free())
      ensures code == VFS_ERR_NOSPACE
              ==> nodes[f].size < offset + |buf|
                  && Contents(data, nodes[f]) == Splice(Contents(old(data), old(nodes)[f]), offset,
                                                        buf)[..nodes[f].size]
      ensures forall g :: g in nodes && g != f
                          ==> nodes[g] == old(nodes)[g] && SizesOk(nodes[g])
                              && Contents(data, nodes[g]) == Contents(old(data), nodes[g])
    {
      hide TreeOk, FilesOk, F.FreeSet, F.Fits, LookupOf, Written, OnlyFile, Splice, PagesTaken, F.Usable, F.Spent,
           PagesFor;
      ghost var t, node := T(), nodes[f];
      SizeOf(nodes, powner, pmm.Free(), f);
      ghost var powner0 := powner;
      var w := WriteBytes(f, buf, offset);
      forall g | g in t.nodes && g != f
        ensures g in nodes && nodes[g] == t.nodes[g] && SizesOk(nodes[g])
        ensures Contents(data, nodes[g]) == Contents(old(data), nodes[g])
      {
        OnlyFileOthers(t.nodes, old(data), old(pmm.Free()), nodes, data, pmm.Free(), f, powner0, g);
      }
      assert T() == SetFile(t, f, node.size, nodes[f].pages) by {
        OnlyFileNodes(t.nodes, old(data), old(pmm.Free()), nodes, data, pmm.Free(), f);
      }
      SetFileKeepsTree(t, f, node.size, nodes[f].pages);
      SizeOf(nodes, powner, pmm.Free(), f);
      if w < |buf| {
        WrittenRanOut(old(data), node, data, nodes[f].pages, offset, buf, w);
        assert nodes[f] == node.(pages := nodes[f].pages);
        return VFS_ERR_NOSPACE;
      }
      var end := offset + w;
      WrittenIsSplice(old(data), node, data, nodes[f].pages, offset, buf);
      if end > nodes[f].size {
        SetFileKeepsTree(T(), f, end, nodes[f].pages);
        SetSizeOk(nodes, powner, pmm.Free(), f, end);
        nodes := nodes[f := nodes[f].(size := end)];
      }
      return w;
    }

    /** ramfs_read: exactly the requested slice of the file's bytes, unless the end of the request leaves 64
        bits; then it runs to the end of the last page. */
    method Read(p: string, len: nat, offset: nat) returns (code: int, out: seq<Byte>)
      requires Valid() && len < F.WORD && offset < F.WORD
      ensures var f := LookupOf(T(), p);
              && (code == VFS_ERR_NOTFOUND <==> f.None?)
              && (code == VFS_ERR_ISDIR <==> f.Some? && nodes[f.value].isDir)
              && (f.Some? && !nodes[f.value].isDir
                  ==> SizesOk(nodes[f.value]) && code == |out| && out == ReadOf(data, nodes[f.value], offset, len))
              && (f.None? || nodes[f.value].isDir ==> out == [])
      ensures var f := LookupOf(T(), p);
              f.Some? && !nodes[f.value].isDir ==>
                var node := nodes[f.value];
                && (node.size <= offset ==> |out| == 0)
                && (offset < node.size && offset + len < 0x1_0000_0000_0000_0000
                    ==> |out| == if len <= node.size - offset then len else node.size - offset)
                && (offset < node.size && offset + len >= 0x1_0000_0000_0000_0000
                    ==> |out| == 4096 * |node.pages| - offset)
                && (forall k :: 0 <= k < |out| ==>
                      offset + k < 4096 * |node.pages| && out[k] == ByteAt(data, node.pages, offset + k))
    {
      hide TreeOk, FilesOk, F.FreeSet, LookupOf, ReadOf, ByteAt;
      out := [];
      var fr := Lookup(p);
      AllSizes(nodes, powner, pmm.Free());
      if fr.None? {
        return VFS_ERR_NOTFOUND, [];
      }
      var f := nodes[fr.value];
      ReadBytewise(data, f, offset, len);
      if f.isDir {
        return VFS_ERR_ISDIR, [];
      }
      if len == 0 || offset >= f.size {
        return 0, [];
      }
      ReadPart(data, f, offset, len);
      var n := if (offset + len) % F.WORD > f.size then f.size - offset else len;
      out := ReadBytes(f, offset, n);
      return |out|, out;
    }

    /** The copy loop of ramfs_read; it stops behind the last page. */
    method ReadBytes(f: Node, offset: nat, n: nat) returns (out: seq<Byte>)
      requires SizesOk(f) && offset <= f.size
      ensures out == Slice(Contents(data, Whole(f)), offset, n)
    {
      hide Contents;
      ghost var all := Contents(data, Whole(f));
      var done := 0;
      out := [];
      while done < n
        invariant done <= n && offset + done <= |all| && out == all[offset..offset + done]
      {
        var piece := ReadChunk(f, offset + done, n - done);
        if piece == [] {
          break;
        }
        out := out + piece;
        Slices(all, offset, offset + done, offset + done + |piece|);
        done := done + |piece|;
      }
    }

    /** One turn of that loop; nothing behind the last page. */
    method ReadChunk(f: Node, off: nat, left: nat) returns (piece: seq<Byte>)
      requires SizesOk(f) && off <= 4096 * |f.pages| && 0 < left
      ensures |piece| <= left && off + |piece| <= 4096 * |f.pages|
      ensures piece == Contents(data, Whole(f))[off..off + |piece|]
      ensures piece == [] <==> off == 4096 * |f.pages|
    {
      hide Contents;
      var pidx, poff := off / 4096, off % 4096;
      var chunk := 4096 - poff;
      if chunk > left {
        chunk := left;
      }
      if pidx >= |f.pages| {
        return [];
      }
      ChunkRead(data, Whole(f), off, chunk);
      return PageAt(data, f.pages[pidx])[poff..poff + chunk];
    }

    /** ktest_vfs up to its read: a file is created and written. */
    method Store(p: string, buf: seq<Byte>, fresh_: Option<nat>) returns (ok: bool)
      requires Valid() && (fresh_.Some? ==> fresh_.value !in nodes && fresh_.value != 0)
      modifies `nodes, `kids, `parent, `path, `data, `powner, pmm.bitmap
      ensures Valid()
      ensures ok <==> |p| <= 256 && ParentOf(old(T()), p).Some? && LookupOf(old(T()), p).None? && fresh_.Some?
                      && |buf| <= 32768 && (|buf| + 4095) / 4096 <= |F.Usable(pmm, old(pmm.Free()))|
      ensures ok ==> forall q :: LookupOf(T(), q) == if q == p then fresh_ else LookupOf(old(T()), q)
      ensures ok ==> fresh_.value in nodes && !nodes[fresh_.value].isDir && SizesOk(nodes[fresh_.value])
                     && Contents(data, nodes[fresh_.value]) == buf
      ensures ok ==> SameFiles(old(nodes), old(data), nodes, data)
    {
      hide TreeOk, FilesOk, F.FreeSet, LookupOf, ParentOf, Splice, F.Usable, PagesTaken, F.Spent, SameFiles, Contents,
           F.Fits, FileSystem.T;
      LookupRoot(T());
      AllSizes(nodes, powner, pmm.Free());
      var created := Create(p, false, fresh_);
      if created != VFS_OK {
        return false;
      }
      ghost var nodes1 := nodes;
      AllSizes(nodes, powner, pmm.Free());
      var written := Write(p, buf, 0);
      if written != |buf| {
        return false;
      }
      AllSizes(nodes, powner, pmm.Free());
      assert Contents(old(data), nodes1[fresh_.value]) == [];
      SameFilesBut(old(nodes), old(data), nodes1, nodes, data, fresh_.value);
      return true;
    }

    /** ktest_vfs, for any path and any bytes: a file created and written is read back as written, and no other
        file changes.  `ok` says that the file could be created and written. */
    method StoreAndLoad(p: string, buf: seq<Byte>, len: nat, fresh_: Option<nat>) returns (ok: bool, out: seq<Byte>)
      requires Valid() && (fresh_.Some? ==> fresh_.value !in nodes && fresh_.value != 0) && len < F.WORD
      modifies `nodes, `kids, `parent, `path, `data, `powner, pmm.bitmap
      ensures Valid()
      ensures ok <==> |p| <= 256 && ParentOf(old(T()), p).Some? && LookupOf(old(T()), p).None? && fresh_.Some?
                      && |buf| <= 32768 && (|buf| + 4095) / 4096 <= |F.Usable(pmm, old(pmm.Free()))|
      ensures ok ==> out == if len < |buf| then buf[..len] else buf
      ensures ok ==> forall q :: LookupOf(T(), q) == if q == p then fresh_ else LookupOf(old(T()), q)
      ensures ok ==> SameFiles(old(nodes), old(data), nodes, data)
    {
      hide TreeOk, FilesOk, F.FreeSet, LookupOf, ParentOf, F.Usable, ReadOf, SameFiles, Contents, ByteAt;
      out := [];
      ok := Store(p, buf, fresh_);
      if ok {
        ghost var file := nodes[fresh_.value];
        var code;
        code, out := Read(p, len, 0);
        assert forall k :: 0 <= k < |out| ==> out[k] == Contents(data, file)[k];
      }
    }

    /** ramfs_size */
    method FileSize(p: string) returns (code: int)
      requires Valid()
      ensures var f := LookupOf(T(), p);
              code == if f.None? then VFS_ERR_NOTFOUND
                      else if f.value !in nodes || nodes[f.value].isDir then VFS_ERR_ISDIR else nodes[f.value].size
    {
      hide TreeOk, FilesOk, F.FreeSet, LookupOf;
      var fr := Lookup(p);
      if fr.None? {
        return VFS_ERR_NOTFOUND;
      }
      if nodes[fr.value].isDir {
        return VFS_ERR_ISDIR;
      }
      return nodes[fr.value].size;
    }

    /** exec_load: any non-empty file that fits is loaded whole, followed by zeros. */
    method ExecLoad(p: string, before: seq<Byte>) returns (code: int, image: seq<Byte>)
      requires Valid()
      ensures |image| == |before|
      ensures var f := LookupOf(T(), p);
              if |p| <= 256 && f.Some? && f.value in nodes && !nodes[f.value].isDir
                 && 0 < nodes[f.value].size <= |before|
              then SizesOk(nodes[f.value]) && code == nodes[f.value].size
                   && image == Contents(data, nodes[f.value]) + Zeros(|before| - nodes[f.value].size)
              else code < 0 && image == before
    {
      hide TreeOk, FilesOk, F.FreeSet, LookupOf;
      image := before;
      if |p| > VFS_PATH_MAX {
        return VFS_ERR_BADPATH, before;
      }
      var sz := FileSize(p);
      if sz < 0 {
        return sz, before;
      }
      if sz == 0 {
        return VFS_ERR_INVAL, before;
      }
      if sz > |before| {
        return VFS_ERR_NOSPACE, before;
      }
      image := Zeros(|before|);
      AllSizes(nodes, powner, pmm.Free());
      var r, out := Read(p, sz, 0);
      image := out + image[|out|..];
      return sz, image;
    }
  }

  /** Every file of nodes is still there and holds the same bytes. */
  ghost predicate SameFiles(nodes: map<nat, Node>, data: Frames, nodes': map<nat, Node>, data': Frames) {
    forall g :: g in nodes ==>
      && g in nodes' && nodes[g].size == nodes'[g].size
      && nodes[g].size <= 4096 * |nodes[g].pages| && nodes'[g].size <= 4096 * |nodes'[g].pages|
      && Contents(data', nodes'[g]) == Contents(data, nodes[g])
  }

  lemma SameFilesBut(nodes: map<nat, Node>, data: Frames, nodes1: map<nat, Node>, nodes': map<nat, Node>,
                     data': Frames, n: nat)
    requires n !in nodes && nodes1.Keys == nodes.Keys + {n} && nodes'.Keys == nodes1.Keys
    requires forall g :: g in nodes ==> nodes1[g].size == nodes[g].size && nodes1[g].pages == nodes[g].pages
    requires forall g :: g in nodes' && g != n ==>
               nodes'[g] == nodes1[g] && SizesOk(nodes'[g])
               && Contents(data', nodes'[g]) == Contents(data, nodes'[g])
    ensures SameFiles(nodes, data, nodes', data')
  {
    forall g | g in nodes
      ensures nodes'[g].size == nodes[g].size <= 4096 * |nodes[g].pages|
      ensures Contents(data', nodes'[g]) == Contents(data, nodes[g])
    {
      assert Contents(data, nodes'[g]) == Contents(data, nodes[g]);
    }
  }

  function Slice(s: seq<Byte>, offset: nat, len: nat): seq<Byte> {
    if offset >= |s| then [] else if offset + len > |s| then s[offset..] else s[offset..offset + len]
  }

  /** The file with everything its pages hold. */
  function Whole(f: Node): Node { f.(size := 4096 * |f.pages|) }

  /** What ramfs_read returns from a file. */
  ghost function ReadOf(data: Frames, f: Node, offset: nat, len: nat): seq<Byte>
    requires SizesOk(f)
  {
    if offset >= f.size || offset + len < F.WORD then Slice(Contents(data, f), offset, len)
    else Slice(Contents(data, Whole(f)), offset, len)
  }

  lemma ReadPart(data: Frames, f: Node, offset: nat, len: nat)
    requires SizesOk(f) && offset < f.size && 0 < len < F.WORD
    ensures var n := if (offset + len) % F.WORD > f.size then f.size - offset else len;
            Slice(Contents(data, Whole(f)), offset, n) == ReadOf(data, f, offset, len)
  {
    var all := Contents(data, Whole(f));
    assert Contents(data, f) == all[..f.size];
    if offset + len >= F.WORD {
      assert (offset + len) % F.WORD == offset + len - F.WORD;
    }
  }

  lemma ReadBytewise(data: Frames, f: Node, offset: nat, len: nat)
    requires SizesOk(f) && len < F.WORD
    ensures var out := ReadOf(data, f, offset, len);
            && (len == 0 || f.size <= offset ==> out == [])
            && (offset < f.size && offset + len < 0x1_0000_0000_0000_0000
                ==> |out| == if len <= f.size - offset then len else f.size - offset)
            && (offset < f.size && offset + len >= 0x1_0000_0000_0000_0000 ==> |out| == 4096 * |f.pages| - offset)
            && (forall k :: 0 <= k < |out| ==>
                  offset + k < 4096 * |f.pages| && out[k] == ByteAt(data, f.pages, offset + k))
  {
    hide ByteAt;
    var node := if f.size <= offset || offset + len < F.WORD then f else Whole(f);
    var s, out := Contents(data, node), ReadOf(data, f, offset, len);
    forall k | 0 <= k < |out| ensures offset + k < |s| && out[k] == s[offset + k] {
    }
  }

  /** A read whose end leaves 64 bits returns the rest of the file exactly when the file fills its last page. */
  lemma ReadExact(data: Frames, f: Node, offset: nat, len: nat)
    requires SizesOk(f) && len < F.WORD
    ensures ReadOf(data, f, offset, len) == Slice(Contents(data, f), offset, len)
            <==> offset >= f.size || offset + len < F.WORD || f.size == 4096 * |f.pages|
  {
    if offset < f.size && offset + len >= F.WORD {
      assert |ReadOf(data, f, offset, len)| == 4096 * |f.pages| - offset;
      assert |Slice(Contents(data, f), offset, len)| == f.size - offset;
      if f.size == 4096 * |f.pages| {
        assert Whole(f) == f;
      }
    }
  }

  function Zeros(n: nat): (z: seq<Byte>)
    ensures |z| == n && forall i :: 0 <= i < n ==> z[i] == 0
  {
    seq(n, _ => 0)
  }

  lemma AllSizes(nodes: map<nat, Node>, powner: map<nat, (nat, nat)>, free: set<nat>)
    requires FilesOk(nodes, powner, free)
    ensures forall n :: n in nodes ==> SizesOk(nodes[n])
  {
  }

  lemma Slices<T>(s: seq<T>, i: nat, j: nat, k: nat)
    requires i <= j <= k <= |s|
    ensures s[i..j] + s[j..k] == s[i..k]
  {
  }

  lemma ChunkRead(data: Frames, f: Node, off: nat, chunk: nat)
    requires SizesOk(f) && off + chunk <= f.size && off % 4096 + chunk <= 4096 && off / 4096 < |f.pages|
    ensures PageAt(data, f.pages[off / 4096])[off % 4096..off % 4096 + chunk] == Contents(data, f)[off..off + chunk]
  {
    var q, r := off / 4096, off % 4096;
    var a, b := PageAt(data, f.pages[q])[r..r + chunk], Contents(data, f)[off..off + chunk];
    forall i | 0 <= i < chunk ensures a[i] == b[i] {
      assert off + i == 4096 * q + (r + i);
      assert (off + i) / 4096 == q && (off + i) % 4096 == r + i;
    }
  }

  lemma SetSizeOk(nodes: map<nat, Node>, powner: map<nat, (nat, nat)>, free: set<nat>, f: nat, size: nat)
    requires FilesOk(nodes, powner, free) && f in nodes && size <= 4096 * |nodes[f].pages|
    ensures FilesOk(nodes[f := nodes[f].(size := size)], powner, free)
  {
    var nodes' := nodes[f := nodes[f].(size := size)];
    forall n | n in nodes' ensures SizesOk(nodes'[n]) {
      assert SizesOk(nodes[n]);
    }
    forall n, i | n in nodes' && 0 <= i < |nodes'[n].pages| ensures PageOk(nodes'[n].pages, i, n, powner, free) {
      assert PageOk(nodes[n].pages, i, n, powner, free);
    }
  }

  lemma OnlyFileNodes(nodes: map<nat, Node>, data: Frames, free: set<nat>, nodes': map<nat, Node>, data': Frames,
                      free': set<nat>, f: nat)
    requires OnlyFile(nodes, data, free, nodes', data', free', f) && nodes'[f].size == nodes[f].size
    ensures nodes' == nodes[f := nodes[f].(size := nodes[f].size, pages := nodes'[f].pages)]
    ensures nodes'.Keys == nodes.Keys
  {
  }

  function Max(a: nat, b: nat): nat { if a < b then b else a }

  /** The pages a file of n bytes needs. */
  function PagesFor(n: nat): nat { (n + 4095) / 4096 }

  ghost function Elements(s: seq<nat>): set<nat> { set x | x in s }

  lemma ElementsJoin(a: seq<nat>, b: seq<nat>)
    ensures Elements(a + b) == Elements(a) + Elements(b)
  {
  }

  /** The frames taken are exactly the pages added at the end, each once, and kpalloc could hand each of them
      out. */
  ghost predicate PagesTaken(pmm: F.FrameAllocator, pages: seq<nat>, free: set<nat>, pages': seq<nat>, free': set<nat>)
  {
    && pages <= pages' && F.Took(pmm, free, free')
    && free - free' == Elements(pages'[|pages|..]) && |free - free'| == |pages'| - |pages|
  }

  lemma TakenStart(pmm: F.FrameAllocator, pages: seq<nat>, free: set<nat>)
    ensures PagesTaken(pmm, pages, free, pages, free)
  {
    F.TookNone(pmm, free);
    assert free - free == {};
  }

  lemma TakenOne(pmm: F.FrameAllocator, pages: seq<nat>, free: set<nat>, pages1: seq<nat>, free1: set<nat>, p: nat)
    requires PagesTaken(pmm, pages, free, pages1, free1)
    requires p in free1 && F.Fits(free1, pmm.FirstPage(), pmm.frameCount, p, 1)
    ensures PagesTaken(pmm, pages, free, pages1 + [p], free1 - {p})
  {
    hide F.Took, F.Fits;
    F.TookNext(pmm, free, free1, p);
    assert free1 <= free by { F.TookSubset(pmm, free, free1); }
    assert free - (free1 - {p}) == free - free1 + {p};
    assert (pages1 + [p])[|pages|..] == pages1[|pages|..] + [p];
    ElementsJoin(pages1[|pages|..], [p]);
  }

  lemma TakenTrans(pmm: F.FrameAllocator, pages: seq<nat>, free: set<nat>, pages1: seq<nat>, free1: set<nat>,
                   pages2: seq<nat>, free2: set<nat>)
    requires PagesTaken(pmm, pages, free, pages1, free1) && PagesTaken(pmm, pages1, free1, pages2, free2)
    ensures PagesTaken(pmm, pages, free, pages2, free2)
  {
    hide F.Took, Elements;
    F.TookMore(pmm, free, free1, free2);
    F.TookSubset(pmm, free, free1);
    F.TookSubset(pmm, free1, free2);
    assert free - free2 == (free - free1) + (free1 - free2);
    assert pages2[|pages|..] == pages1[|pages|..] + pages2[|pages1|..];
    ElementsJoin(pages1[|pages|..], pages2[|pages1|..]);
  }

  lemma TakenCount(pmm: F.FrameAllocator, pages: seq<nat>, free: set<nat>, pages': seq<nat>, free': set<nat>)
    requires PagesTaken(pmm, pages, free, pages', free')
    ensures pages <= pages' && |pages'| <= |pages| + |F.Usable(pmm, free)|
  {
    SubsetSize(free - free', F.Usable(pmm, free));
  }

  lemma NoneLeft(pmm: F.FrameAllocator, pages: seq<nat>, free: set<nat>, pages': seq<nat>, free': set<nat>)
    requires PagesTaken(pmm, pages, free, pages', free') && F.Spent(pmm, free')
    ensures |pages'| == |pages| + |F.Usable(pmm, free)|
  {
    F.AllTaken(pmm, free, free');
  }

  /** Which page a chunk of the copy loop ends in. */
  lemma PageNeeded(offset: nat, w: nat, chunk: nat, len: nat)
    requires 0 < chunk <= 4096 - (offset + w) % 4096 && w + chunk <= len
    ensures PagesFor(offset + w + chunk) == (offset + w) / 4096 + 1
    ensures (offset + w) / 4096 + 1 <= PagesFor(offset + len)
  {
    var q, r := (offset + w) / 4096, (offset + w) % 4096;
    assert offset + w + chunk + 4095 == 4096 * (q + 1) + (r + chunk - 1);
  }

  /** Only the size and page list of f, and bytes of f's pages or of frames that were free, differ. */
  ghost predicate OnlyFile(nodes: map<nat, Node>, data: Frames, free: set<nat>, nodes': map<nat, Node>, data': Frames,
                           free': set<nat>, f: nat) {
    && f in nodes && f in nodes'
    && nodes' == nodes[f := nodes[f].(size := nodes'[f].size, pages := nodes'[f].pages)]
    && nodes[f].pages <= nodes'[f].pages
    && free' <= free
    && (forall p :: p in nodes'[f].pages ==> p in nodes[f].pages || p in free)
    && forall p :: p !in free && p !in nodes[f].pages ==> PageAt(data', p) == PageAt(data, p)
  }

  /** The old pages are as they were, the ones behind them are zero. */
  ghost predicate Zeroed(pages: seq<nat>, pages': seq<nat>, data: Frames, data': Frames) {
    && (forall p :: p in pages ==> PageAt(data', p) == PageAt(data, p))
    && forall i :: |pages| <= i < |pages'| ==> PageAt(data', pages'[i]) == ZeroPage()
  }

  /** Every byte behind the old pages reads 0, every byte of theirs as before. */
  lemma ZeroedBytes(pages: seq<nat>, pages': seq<nat>, data: Frames, data': Frames, o: nat)
    requires pages <= pages' && Zeroed(pages, pages', data, data') && o < 4096 * |pages'|
    ensures ByteAt(data', pages', o) == if o < 4096 * |pages| then ByteAt(data, pages, o) else 0
  {
    var i := o / 4096;
    if i < |pages| {
      assert pages'[i] == pages[i] && pages[i] in pages;
    }
  }

  lemma WrittenZeroed(data: Frames, pages: seq<nat>, data1: Frames, pages1: seq<nat>, data2: Frames, pages2: seq<nat>,
                      size: nat, off: nat, buf: seq<Byte>, w: nat)
    requires size <= 4096 * |pages| && w <= |buf| && Written(data, pages, data1, pages1, size, off, buf, w)
    requires pages1 <= pages2 && Zeroed(pages1, pages2, data1, data2)
    ensures Written(data, pages, data2, pages2, size, off, buf, w)
  {
    hide Written;
    WrittenGrow(data, pages, data1, pages1, data2, pages2, size, off, buf, w);
  }

  lemma NewZero(pages: seq<nat>, pages': seq<nat>, data: Frames, data': Frames)
    requires pages' == pages && data' == data
    ensures Zeroed(pages, pages', data, data')
  {
  }

  lemma OnlyFileAdd(nodes: map<nat, Node>, data: Frames, free: set<nat>, nodes1: map<nat, Node>, data1: Frames,
                    free1: set<nat>, f: nat, p: nat)
    requires OnlyFile(nodes, data, free, nodes1, data1, free1, f) && p in free1
    ensures OnlyFile(nodes, data, free, nodes1[f := nodes1[f].(pages := nodes1[f].pages + [p])],
                     data1[p := ZeroPage()], free1 - {p}, f)
  {
    hide ZeroPage;
  }

  lemma ZeroedAdd(pages: seq<nat>, pages1: seq<nat>, data: Frames, data1: Frames, p: nat)
    requires Zeroed(pages, pages1, data, data1) && pages <= pages1 && p !in pages1
    ensures Zeroed(pages, pages1 + [p], data, data1[p := ZeroPage()])
  {
    hide ZeroPage;
    forall i | |pages| <= i < |pages1| + 1 ensures PageAt(data1[p := ZeroPage()], (pages1 + [p])[i]) == ZeroPage() {
      if i < |pages1| {
        assert pages1[i] in pages1;
      }
    }
  }

  lemma OnlyFileStart(nodes: map<nat, Node>, data: Frames, free: set<nat>, f: nat)
    requires f in nodes
    ensures OnlyFile(nodes, data, free, nodes, data, free, f)
  {
  }

  lemma OnlyFileTrans(nodes: map<nat, Node>, data: Frames, free: set<nat>, nodes1: map<nat, Node>, data1: Frames,
                      free1: set<nat>, nodes2: map<nat, Node>, data2: Frames, free2: set<nat>, f: nat)
    requires OnlyFile(nodes, data, free, nodes1, data1, free1, f)
    requires OnlyFile(nodes1, data1, free1, nodes2, data2, free2, f)
    ensures OnlyFile(nodes, data, free, nodes2, data2, free2, f) && nodes1[f].pages <= nodes2[f].pages
    ensures f in nodes2 && nodes2[f].isDir == nodes1[f].isDir
  {
  }

  lemma OnlyFilePut(nodes: map<nat, Node>, data: Frames, free: set<nat>, nodes1: map<nat, Node>, data1: Frames,
                    free1: set<nat>, f: nat, idx: nat, poff: nat, src: seq<Byte>)
    requires OnlyFile(nodes, data, free, nodes1, data1, free1, f) && idx < |nodes1[f].pages| && poff + |src| <= 4096
    ensures OnlyFile(nodes, data, free, nodes1, PutChunk(data1, nodes1[f].pages[idx], poff, src), free1, f)
  {
    assert nodes1[f].pages[idx] in nodes1[f].pages;
  }

  /** Other files keep their bytes. */
  lemma OnlyFileOthers(nodes: map<nat, Node>, data: Frames, free: set<nat>, nodes': map<nat, Node>, data': Frames,
                       free': set<nat>, f: nat, powner: map<nat, (nat, nat)>, g: nat)
    requires OnlyFile(nodes, data, free, nodes', data', free', f) && FilesOk(nodes, powner, free) && g in nodes
    requires g != f
    ensures g in nodes' && nodes'[g] == nodes[g] && SizesOk(nodes[g])
    ensures Contents(data', nodes[g]) == Contents(data, nodes[g])
  {
    PagesInUse(nodes, powner, free, g);
    forall i | 0 <= i < |nodes[f].pages| ensures nodes[f].pages[i] !in nodes[g].pages {
      PagesDiffer(nodes, powner, free, f, i);
    }
    ContentsSame(data, data', nodes[g]);
  }

  lemma SizeOf(nodes: map<nat, Node>, powner: map<nat, (nat, nat)>, free: set<nat>, f: nat)
    requires FilesOk(nodes, powner, free) && f in nodes
    ensures SizesOk(nodes[f])
  {
  }

  lemma WrittenStart(data: Frames, pages: seq<nat>, size: nat, off: nat, buf: seq<Byte>)
    requires size <= 4096 * |pages|
    ensures Written(data, pages, data, pages, size, off, buf, 0)
  {
  }

  lemma LookupRoot(t: Tree)
    requires TreeOk(t)
    ensures LookupOf(t, "/") == Some(t.root) && t.root in t.nodes && ParentOf(t, "/").None?
  {
  }

  /** Looking a path up is finding its parent and then the last name in it. */
  lemma LookupByParent(t: Tree, p: string)
    requires TreeOk(t) && p != "/"
    ensures LookupOf(t, p) == match ParentOf(t, p) case None => None case Some(dl) => ChildOf(t, dl.0, dl.1)
    ensures ParentOf(t, p).Some? ==> ParentOf(t, p).value.0 in t.nodes && t.nodes[ParentOf(t, p).value.0].isDir
                                     && GoodName(ParentOf(t, p).value.1)
    ensures LookupOf(t, p).Some? ==> LookupOf(t, p).value in t.nodes
  {
    if Parse(p).Some? && p != "" {
      var cs := Parse(p).value;
      assert cs == Split(p[1..]);
      var d := ResolveAt(t, cs[..|cs| - 1]);
      if d.Some? {
        ResolveIff(t, cs[..|cs| - 1], d.value);
        if !t.nodes[d.value].isDir {
          NoKids(t, d.value);
        }
      }
      if ResolveAt(t, cs).Some? {
        ResolveIff(t, cs, ResolveAt(t, cs).value);
      }
    }
  }

  lemma FilesSame(nodes: map<nat, Node>, nodes': map<nat, Node>, powner: map<nat, (nat, nat)>, free: set<nat>, n: nat)
    requires FilesOk(nodes, powner, free) && nodes'.Keys == nodes.Keys + {n} && n !in nodes
    requires forall m :: m in nodes ==>
               nodes'[m].pages == nodes[m].pages && nodes'[m].size == nodes[m].size && nodes'[m].isDir == nodes[m].isDir
    requires nodes'[n].pages == [] && nodes'[n].size == 0
    ensures FilesOk(nodes', powner, free)
  {
    forall m | m in nodes' ensures SizesOk(nodes'[m]) {
      assert m in nodes ==> SizesOk(nodes[m]);
    }
    forall m, i | m in nodes' && 0 <= i < |nodes'[m].pages| ensures PageOk(nodes'[m].pages, i, m, powner, free) {
      assert m in nodes ==> PageOk(nodes[m].pages, i, m, powner, free);
    }
  }

  lemma ChildNone(t: Tree, d: nat, name: string)
    requires TreeOk(t) && d in t.nodes && forall j :: 0 <= j < |t.kids[d]| && t.kids[d][j] in t.nodes ==>
               t.nodes[t.kids[d][j]].name != name
    ensures ChildOf(t, d, name).None?
  {
    hide TreeOk;
  }

  lemma NotAbsolute(t: Tree, p: string)
    requires p == "" || p[0] != '/'
    ensures ParentOf(t, p).None? && LookupOf(t, p).None?
  {
  }

  lemma ResolveRoot(t: Tree)
    requires TreeOk(t)
    ensures ResolveAt(t, []) == Some(t.root) && t.root in t.nodes && t.nodes[t.root].isDir
  {
  }

  lemma ResolveStep(t: Tree, done: seq<string>, c: string, d: nat)
    requires TreeOk(t) && ResolveAt(t, done) == Some(d)
    ensures ResolveAt(t, done + [c]) == ChildOf(t, d, c)
    ensures ChildOf(t, d, c).Some? ==> ChildOf(t, d, c).value in t.nodes
  {
    assert (done + [c])[..|done|] == done;
  }

  lemma SplitAtSlash(p: string, start: nat, i: nat)
    requires start <= i <= |p| && '/' !in p[start..i] && (i < |p| ==> p[i] == '/')
    ensures Split(p[start..]) == if i == |p| then [p[start..i]] else [p[start..i]] + Split(p[i + 1..])
  {
    hide Split;
    var c := p[start..i];
    if i == |p| {
      assert p[start..] == c;
      SplitStep(c, []);
    } else {
      SplitStep(c, p[i + 1..]);
      assert p[start..] == c + "/" + p[i + 1..];
    }
  }

  lemma LongName(p: string, start: nat, i: nat)
    requires start + VFS_NAME_MAX == i < |p| && '/' !in p[start..i] && p[i] != '/'
    ensures |Split(p[start..])[0]| > VFS_NAME_MAX
  {
    var k := Head(p[start..]);
    assert k > VFS_NAME_MAX by {
      assert forall j :: 0 <= j < VFS_NAME_MAX ==> p[start..][j] == p[start..i][j];
      assert p[start..][VFS_NAME_MAX] == p[i];
    }
  }

  /** A component that is empty or too long makes the whole path malformed. */
  lemma BadComponent(t: Tree, p: string, done: seq<string>, rest: string)
    requires p != "/" && p != "" && p[0] == '/' && Split(p[1..]) == done + Split(rest) && !GoodName(Split(rest)[0])
    ensures ParentOf(t, p).None?
  {
    assert (done + Split(rest))[|done|] == Split(rest)[0];
  }

  lemma LastComponent(t: Tree, p: string, done: seq<string>, c: string, d: nat)
    requires p != "/" && p != "" && p[0] == '/' && Split(p[1..]) == done + [c] && GoodName(c)
    requires forall k :: 0 <= k < |done| ==> GoodName(done[k])
    requires ResolveAt(t, done) == Some(d) && d in t.nodes && t.nodes[d].isDir
    ensures ParentOf(t, p) == Some((d, c))
  {
    hide ResolveAt, Split;
    assert (done + [c])[..|done|] == done;
  }

  /** Below a missing name or a file no parent is found. */
  lemma DeadComponent(t: Tree, p: string, done: seq<string>, c: string, rest: seq<string>)
    requires TreeOk(t) && p != "/" && p != "" && p[0] == '/' && Split(p[1..]) == done + ([c] + rest) && |rest| > 0
    requires match ResolveAt(t, done + [c]) case None => true case Some(n) => n in t.nodes && !t.nodes[n].isDir
    ensures ParentOf(t, p).None?
  {
    hide TreeOk, ResolveAt, Split;
    var cs := Split(p[1..]);
    var q := done + [c];
    assert cs == q + rest;
    var ini := cs[..|cs| - 1];
    assert q <= ini;
    if q != ini {
      DeadEnd(t, q, ini);
    }
  }
}
