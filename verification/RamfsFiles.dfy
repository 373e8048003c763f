/** File contents of ramfs (src/fs/ramfs.c): up to eight 4096-byte frames per file. */
module RamfsFiles {
  import opened RamfsTree

  type Byte = bv8
  type Page = p: seq<Byte> | |p| == 4096 witness seq(4096, _ => 0)
  type Frames = map<nat, Page>

  const RAMFS_PAGES_PER_FILE: nat := 8
  const VFS_MAX_FILE_SIZE: nat := 32768

  function ZeroPage(): Page {
    seq(4096, _ => 0)
  }

  function PageAt(data: Frames, f: nat): Page {
    if f in data then data[f] else ZeroPage()
  }

  function ByteAt(data: Frames, pages: seq<nat>, o: nat): Byte
    requires o < 4096 * |pages|
  {
    PageAt(data, pages[o / 4096])[o % 4096]
  }

  /** The byte sequence a file stands for. */
  function Contents(data: Frames, node: Node): (s: seq<Byte>)
    requires node.size <= 4096 * |node.pages|
    ensures |s| == node.size && forall o :: 0 <= o < |s| ==> s[o] == ByteAt(data, node.pages, o)
  {
    seq(node.size, o requires 0 <= o < node.size => ByteAt(data, node.pages, o))
  }

  predicate SizesOk(node: Node) {
    node.size <= 4096 * |node.pages| && |node.pages| <= RAMFS_PAGES_PER_FILE && (node.isDir ==> node.pages == [])
  }

  ghost predicate PageOk(pages: seq<nat>, i: nat, n: nat, powner: map<nat, (nat, nat)>, free: set<nat>)
    requires i < |pages|
  {
    pages[i] in powner && powner[pages[i]] == (n, i) && pages[i] !in free
  }

  /** Sizes fit their pages, and every page belongs to one file at one index and is in use. */
  ghost predicate FilesOk(nodes: map<nat, Node>, powner: map<nat, (nat, nat)>, free: set<nat>) {
    && (forall n :: n in nodes ==> SizesOk(nodes[n]))
    && (forall n, i :: n in nodes && 0 <= i < |nodes[n].pages| ==> PageOk(nodes[n].pages, i, n, powner, free))
  }

  /** The file's bytes after writing buf at offset off, clipped to n bytes. */
  function Splice(s: seq<Byte>, off: nat, buf: seq<Byte>): (r: seq<Byte>)
    requires off <= |s|
    ensures |r| == (if off + |buf| > |s| then off + |buf| else |s|)
    ensures forall o :: 0 <= o < |r| ==> r[o] == if off <= o < off + |buf| then buf[o - off] else s[o]
  {
    s[..off] + buf + (if off + |buf| <= |s| then s[off + |buf|..] else [])
  }

  // ---------------------------------------------------------------- one chunk

  /** memcpy of src to page p at poff. */
  function PutChunk(data: Frames, p: nat, poff: nat, src: seq<Byte>): Frames
    requires poff + |src| <= 4096
  {
    var pg := PageAt(data, p);
    data[p := pg[..poff] + src + pg[poff + |src|..]]
  }

  lemma ChunkByte(data: Frames, pages: seq<nat>, pidx: nat, poff: nat, src: seq<Byte>, o: nat)
    requires pidx < |pages| && poff + |src| <= 4096 && o < 4096 * |pages|
    requires forall i :: 0 <= i < |pages| && i != pidx ==> pages[i] != pages[pidx]
    ensures var start := 4096 * pidx + poff;
            ByteAt(PutChunk(data, pages[pidx], poff, src), pages, o)
            == if start <= o < start + |src| then src[o - start] else ByteAt(data, pages, o)
  {
    var q, r := o / 4096, o % 4096;
    assert o == 4096 * q + r;
    ChunkCell(data, pages, pidx, poff, src, q, r);
  }

  lemma ChunkCell(data: Frames, pages: seq<nat>, pidx: nat, poff: nat, src: seq<Byte>, q: nat, r: nat)
    requires pidx < |pages| && poff + |src| <= 4096 && q < |pages| && r < 4096
    requires forall i :: 0 <= i < |pages| && i != pidx ==> pages[i] != pages[pidx]
    ensures PageAt(PutChunk(data, pages[pidx], poff, src), pages[q])[r]
            == if q == pidx && poff <= r < poff + |src| then src[r - poff] else PageAt(data, pages[q])[r]
  {
  }

  lemma ContentsSame(data: Frames, data': Frames, node: Node)
    requires SizesOk(node) && forall p :: p in node.pages ==> PageAt(data', p) == PageAt(data, p)
    ensures Contents(data', node) == Contents(data, node)
  {
    forall o: nat | o < node.size ensures ByteAt(data', node.pages, o) == ByteAt(data, node.pages, o) {
      assert node.pages[o / 4096] in node.pages;
    }
  }

  // ---------------------------------------------------------------- growing and writing a file

  lemma AddPageOk(nodes: map<nat, Node>, powner: map<nat, (nat, nat)>, free: set<nat>, f: nat, p: nat)
    requires FilesOk(nodes, powner, free) && f in nodes && !nodes[f].isDir && |nodes[f].pages| < RAMFS_PAGES_PER_FILE
    requires p in free
    ensures FilesOk(nodes[f := nodes[f].(pages := nodes[f].pages + [p])],
                    powner[p := (f, |nodes[f].pages|)], free - {p})
  {
    var nodes' := nodes[f := nodes[f].(pages := nodes[f].pages + [p])];
    var powner' := powner[p := (f, |nodes[f].pages|)];
    forall n | n in nodes' ensures SizesOk(nodes'[n]) {
      assert SizesOk(nodes[n]);
    }
    forall n, i | n in nodes' && 0 <= i < |nodes'[n].pages| ensures PageOk(nodes'[n].pages, i, n, powner', free - {p}) {
      if i < |nodes[n].pages| {
        assert PageOk(nodes[n].pages, i, n, powner, free);
      }
    }
  }

  lemma PagesDiffer(nodes: map<nat, Node>, powner: map<nat, (nat, nat)>, free: set<nat>, f: nat, j: nat)
    requires FilesOk(nodes, powner, free) && f in nodes && j < |nodes[f].pages|
    ensures nodes[f].pages[j] !in free
    ensures forall i :: 0 <= i < |nodes[f].pages| && i != j ==> nodes[f].pages[i] != nodes[f].pages[j]
    ensures forall g :: g in nodes && g != f ==> nodes[f].pages[j] !in nodes[g].pages
  {
    assert PageOk(nodes[f].pages, j, f, powner, free);
    forall i | 0 <= i < |nodes[f].pages| && i != j ensures nodes[f].pages[i] != nodes[f].pages[j] {
      assert PageOk(nodes[f].pages, i, f, powner, free);
    }
    forall g | g in nodes && g != f ensures nodes[f].pages[j] !in nodes[g].pages {
      forall i | 0 <= i < |nodes[g].pages| ensures nodes[g].pages[i] != nodes[f].pages[j] {
        assert PageOk(nodes[g].pages, i, g, powner, free);
      }
    }
  }

  lemma PagesInUse(nodes: map<nat, Node>, powner: map<nat, (nat, nat)>, free: set<nat>, g: nat)
    requires FilesOk(nodes, powner, free) && g in nodes
    ensures forall p :: p in nodes[g].pages ==> p !in free
  {
    forall i | 0 <= i < |nodes[g].pages| ensures nodes[g].pages[i] !in free {
      assert PageOk(nodes[g].pages, i, g, powner, free);
    }
  }

  /** The first w bytes of buf are in place at off; every other byte below size is as it was. */
  ghost predicate Written(data: Frames, pages: seq<nat>, data': Frames, pages': seq<nat>, size: nat, off: nat,
                          buf: seq<Byte>, w: nat)
    requires size <= 4096 * |pages| && w <= |buf|
  {
    && pages <= pages' && (w > 0 ==> off + w <= 4096 * |pages'|)
    && (forall o: nat :: o < 4096 * |pages'| && off <= o < off + w ==> ByteAt(data', pages', o) == buf[o - off])
    && (forall o: nat :: o < size && !(off <= o < off + w) ==> ByteAt(data', pages', o) == ByteAt(data, pages, o))
  }

  lemma WriteMore(data: Frames, pages: seq<nat>, data1: Frames, pages1: seq<nat>, size: nat, off: nat, buf: seq<Byte>,
                  w: nat, chunk: nat)
    requires size <= 4096 * |pages| && w + chunk <= |buf| && 0 < chunk
    requires Written(data, pages, data1, pages1, size, off, buf, w)
    requires (off + w) / 4096 < |pages1| && (off + w) % 4096 + chunk <= 4096
    requires forall i :: 0 <= i < |pages1| && i != (off + w) / 4096 ==> pages1[i] != pages1[(off + w) / 4096]
    ensures Written(data, pages, PutChunk(data1, pages1[(off + w) / 4096], (off + w) % 4096, buf[w..w + chunk]), pages1,
                    size, off, buf, w + chunk)
  {
    var pidx, poff := (off + w) / 4096, (off + w) % 4096;
    assert off + w == 4096 * pidx + poff;
    var src := buf[w..w + chunk];
    var data2 := PutChunk(data1, pages1[pidx], poff, src);
    forall o: nat | o < 4096 * |pages1|
      ensures ByteAt(data2, pages1, o) == if off + w <= o < off + w + chunk then buf[o - off]
              else ByteAt(data1, pages1, o)
    {
      ChunkByte(data1, pages1, pidx, poff, src, o);
    }
    assert off + w + chunk <= 4096 * |pages1|;
  }

  /** Growing a file by fresh pages changes none of its bytes. */
  lemma WrittenGrow(data: Frames, pages: seq<nat>, data1: Frames, pages1: seq<nat>, data2: Frames, pages2: seq<nat>,
                    size: nat, off: nat, buf: seq<Byte>, w: nat)
    requires size <= 4096 * |pages| && w <= |buf| && Written(data, pages, data1, pages1, size, off, buf, w)
    requires pages1 <= pages2
    requires forall p :: p in pages1 ==> PageAt(data2, p) == PageAt(data1, p)
    ensures Written(data, pages, data2, pages2, size, off, buf, w)
  {
    forall o: nat | o < 4096 * |pages1| ensures ByteAt(data2, pages2, o) == ByteAt(data1, pages1, o) {
      assert pages1[o / 4096] in pages1;
    }
  }

  /** A finished write is a splice. */
  lemma WrittenIsSplice(data: Frames, node: Node, data': Frames, pages': seq<nat>, off: nat, buf: seq<Byte>)
    requires SizesOk(node) && off <= node.size && |buf| > 0
    requires Written(data, node.pages, data', pages', node.size, off, buf, |buf|)
    ensures var size' := if off + |buf| > node.size then off + |buf| else node.size;
            size' <= 4096 * |pages'|
            && Contents(data', node.(size := size', pages := pages')) == Splice(Contents(data, node), off, buf)
  {
  }

  /** A write that ran out of frames after w bytes did so past the end of the file: the size stays, and
      the bytes from the offset on are those of the splice. */
  lemma WrittenRanOut(data: Frames, node: Node, data': Frames, pages': seq<nat>, off: nat, buf: seq<Byte>, w: nat)
    requires SizesOk(node) && off <= node.size <= off + w && w <= |buf|
    requires Written(data, node.pages, data', pages', node.size, off, buf, w)
    ensures node.size <= 4096 * |pages'|
    ensures Contents(data', node.(pages := pages')) == Splice(Contents(data, node), off, buf)[..node.size]
  {
  }

  /** Such a failed write leaves the file as it was exactly when it was asked to write what was there. */
  lemma FailedWriteUnchanged(s: seq<Byte>, off: nat, buf: seq<Byte>)
    requires off <= |s| < off + |buf|
    ensures Splice(s, off, buf)[..|s|] == s <==> buf[..|s| - off] == s[off..]
  {
    var t, n := Splice(s, off, buf)[..|s|], |s| - off;
    if t == s {
      forall k | 0 <= k < n ensures buf[..n][k] == s[off..][k] {
        assert t[off + k] == buf[k];
      }
    }
    if buf[..n] == s[off..] {
      forall o | 0 <= o < |s| ensures t[o] == s[o] {
        assert off <= o ==> s[off..][o - off] == buf[..n][o - off];
      }
    }
  }
}
