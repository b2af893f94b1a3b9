/** Files as byte sequences: what the block tree of an inode means, what one step of writei's
    loop does to it, and why no step touches any other inode (fs.c:432-490). */
module FileData {
  import opened Layout
  import opened BlockTree

  function Max(a: nat, b: nat): nat { if a < b then b else a }

  // Number of blocks a file of the given size needs.
  function BlocksFor(size: nat): nat { (size + BSIZE - 1) / BSIZE }

  // Byte x of inode i, read through its block tree.
  function ByteAt(img: Image, i: nat, x: nat): byte
    requires i < |img.ino|
  {
    if x / BSIZE < MAXFILE && At(img, i, PosOf(x / BSIZE)) < |img.blk|
    then img.blk[At(img, i, PosOf(x / BSIZE))][x % BSIZE] else 0
  }

  function Content(img: Image, i: nat): (c: seq<byte>)
    requires i < |img.ino|
    ensures |c| == img.ino[i].size
  {
    seq(img.ino[i].size, x requires 0 <= x < img.ino[i].size => ByteAt(img, i, x))
  }

  // The bytes of src laid over c at off, making it longer if they reach past its end.
  function Splice(c: seq<byte>, off: nat, src: seq<byte>): (r: seq<byte>)
    requires off <= |c|
    ensures |r| == Max(|c|, off + |src|)
  {
    c[..off] + src + if off + |src| < |c| then c[off + |src|..] else []
  }

  lemma JoinSlices(c: seq<byte>, from: nat, mid: nat, to: nat)
    requires from <= mid <= to <= |c|
    ensures c[from..mid] + c[mid..to] == c[from..to]
  {}

  // Reading a written range back gives what was written; bytes around it are untouched.
  lemma SpliceReadBack(c: seq<byte>, off: nat, src: seq<byte>)
    requires off <= |c|
    ensures Splice(c, off, src)[off..off + |src|] == src
    ensures Splice(c, off, src)[..off] == c[..off]
    ensures forall k :: off + |src| <= k < |c| ==> Splice(c, off, src)[k] == c[k]
  {}

  lemma SpliceAt(c: seq<byte>, off: nat, src: seq<byte>, x: nat)
    requires off <= |c| && x < Max(|c|, off + |src|)
    ensures Splice(c, off, src)[x] == if off <= x < off + |src| then src[x - off] else c[x]
  {}

  // Every inode but i, and every block not held by i, is as it was.
  ghost predicate Others(t: Tree, t': Tree, i: nat) {
    && |t'.img.ino| == |t.img.ino|
    && |t.img.used| == |t.img.blk| == |t.img.ptr| == |t'.img.used| == |t'.img.blk| == |t'.img.ptr|
    && (forall j :: 0 <= j < |t.img.ino| && j != i ==> t'.img.ino[j] == t.img.ino[j])
    && (forall c {:trigger t.owner[c]} :: c in t.owner && t.owner[c].i != i && c < |t.img.blk| ==>
          c in t'.owner && t'.owner[c] == t.owner[c] && t'.img.blk[c] == t.img.blk[c] && t'.img.ptr[c] == t.img.ptr[c])
  }

  lemma OthersTwice(t: Tree, t1: Tree, t2: Tree, i: nat)
    requires Others(t, t1, i) && Others(t1, t2, i)
    ensures Others(t, t2, i)
  {}

  // What happens to the other inodes of such a change: nothing.
  lemma OthersKeep(lo: nat, t: Tree, t': Tree, i: nat, j: nat)
    requires Good(lo, t) && Others(t, t', i) && j < |t.img.ino| && j != i
    requires Mapped(t.img.ino[j], t.img.ptr, BlocksFor(t.img.ino[j].size))
    ensures t'.img.ino[j] == t.img.ino[j] && Content(t'.img, j) == Content(t.img, j)
    ensures Mapped(t'.img.ino[j], t'.img.ptr, BlocksFor(t'.img.ino[j].size))
  {
    var d := t.img.ino[j];
    assert At(t.img, j, INDIRECT) == d.addrs[INDIRECT];
    assert d.addrs[INDIRECT] != 0 ==> t.owner[At(t.img, j, INDIRECT)] == Pos(j, INDIRECT);
    forall p | 0 <= p < POSITIONS
      ensures BlockAt(d, t'.img.ptr, p) == BlockAt(d, t.img.ptr, p)
    {}
    forall x | 0 <= x < d.size
      ensures ByteAt(t'.img, j, x) == ByteAt(t.img, j, x)
    {
      var p := PosOf(x / BSIZE);
      assert BlockAt(d, t'.img.ptr, p) == BlockAt(d, t.img.ptr, p);
      assert At(t.img, j, p) == BlockAt(d, t.img.ptr, p) && Needed(p, BlocksFor(d.size));
      assert t.owner[At(t.img, j, p)] == Pos(j, p);
    }
  }

  // bmap leaves the bytes of all blocks that were already mapped.
  lemma BytesAfterBmap(lo: nat, t: Tree, t1: Tree, i: nat, bn: nat, n: nat, x: nat)
    requires AfterBmap(lo, t, t1, i, bn, n) && x / BSIZE < n
    ensures ByteAt(t1.img, i, x) == ByteAt(t.img, i, x)
  {}

  // A block with src laid over it from byte o on.
  function Patch(b: Block, o: nat, src: seq<byte>): Block
    requires o + |src| <= BSIZE
  {
    b[..o] + src + b[o + |src|..]
  }

  // Rewriting block bn of inode i changes those bytes of that file, and nothing else.
  lemma BytesAfterWrite(lo: nat, t: Tree, i: nat, bn: nat, data: Block, x: nat)
    requires Good(lo, t) && i < |t.img.ino| && bn < MAXFILE && At(t.img, i, PosOf(bn)) != 0 && x / BSIZE < MAXFILE
    ensures var a := At(t.img, i, PosOf(bn));
      && lo <= a < |t.img.blk| && Good(lo, Tree(WithBlock(t.img, a, data), t.owner))
      && Others(t, Tree(WithBlock(t.img, a, data), t.owner), i)
      && ByteAt(WithBlock(t.img, a, data), i, x) ==
           if x / BSIZE == bn then data[x % BSIZE] else ByteAt(t.img, i, x)
  {
    var a := At(t.img, i, PosOf(bn));
    assert t.owner[a] == Pos(i, PosOf(bn));
    GoodAfterWrite(lo, t, a, data);
    var n := WithBlock(t.img, a, data);
    assert At(n, i, PosOf(x / BSIZE)) == At(t.img, i, PosOf(x / BSIZE));
    if At(t.img, i, PosOf(x / BSIZE)) == a {
      assert PosOf(x / BSIZE) == PosOf(bn);
    }
  }

  // ---------- writei's loop ----------

  // The loop has written src[..off - off0] at off0. A file that has already outgrown its
  // recorded size has the blocks its new end needs, and no more.
  ghost predicate Writing(lo: nat, t0: Tree, t: Tree, i: nat, off0: nat, off: nat, src: seq<byte>) {
    && i < |t.img.ino| && i < |t0.img.ino| && off0 <= off <= off0 + |src|
    && Shape(lo, t0, t, i, off)
    && Wrote(t0, t, i, off0, off, src)
  }

  ghost predicate Shape(lo: nat, t0: Tree, t: Tree, i: nat, off: nat)
    requires i < |t.img.ino| && i < |t0.img.ino|
  {
    && Good(lo, t) && Others(t0, t, i)
    && t.img.ino[i] == t0.img.ino[i].(addrs := t.img.ino[i].addrs)
    && Mapped(t.img.ino[i], t.img.ptr, BlocksFor(Max(t.img.ino[i].size, off)))
    && (off <= t.img.ino[i].size ==> t.img.ino == t0.img.ino)
  }

  ghost predicate Wrote(t0: Tree, t: Tree, i: nat, off0: nat, off: nat, src: seq<byte>)
    requires i < |t.img.ino| && i < |t0.img.ino| && off <= off0 + |src|
  {
    forall x {:trigger ByteAt(t.img, i, x)} :: 0 <= x < Max(t.img.ino[i].size, off) ==>
      ByteAt(t.img, i, x) == if off0 <= x < off then src[x - off0] else ByteAt(t0.img, i, x)
  }

  // One round: bmap, then memmove into the block it returned.
  ghost function Rewritten(t1: Tree, i: nat, off: nat, part: seq<byte>): Tree
    requires i < |t1.img.ino| && off / BSIZE < MAXFILE && off % BSIZE + |part| <= BSIZE
    requires At(t1.img, i, PosOf(off / BSIZE)) < |t1.img.blk| == |t1.img.ptr|
  {
    var a := At(t1.img, i, PosOf(off / BSIZE));
    Tree(WithBlock(t1.img, a, Patch(t1.img.blk[a], off % BSIZE, part)), t1.owner)
  }

  lemma RewrittenKeeps(lo: nat, t: Tree, t1: Tree, i: nat, off: nat, n: nat, part: seq<byte>)
    requires AfterBmap(lo, t, t1, i, off / BSIZE, n) && off % BSIZE + |part| <= BSIZE
    ensures At(t1.img, i, PosOf(off / BSIZE)) < |t1.img.blk|
    ensures var t2 := Rewritten(t1, i, off, part);
      && Good(lo, t2) && Others(t, t2, i) && t2.img.ino == t1.img.ino
      && Mapped(t2.img.ino[i], t2.img.ptr, if off / BSIZE < n then n else n + 1)
  {
    var a := At(t1.img, i, PosOf(off / BSIZE));
    assert t1.owner[a] == Pos(i, PosOf(off / BSIZE));
    var data := Patch(t1.img.blk[a], off % BSIZE, part);
    BytesAfterWrite(lo, t1, i, off / BSIZE, data, 0);
    var t2 := Rewritten(t1, i, off, part);
    OthersTwice(t, t1, t2, i);
    GoodAfterWrite(lo, t1, a, data);
    forall p | 0 <= p < POSITIONS
      ensures BlockAt(t2.img.ino[i], t2.img.ptr, p) == BlockAt(t1.img.ino[i], t1.img.ptr, p)
    {
      assert At(t2.img, i, p) == At(t1.img, i, p);
    }
  }

  lemma RewrittenByte(lo: nat, t: Tree, t1: Tree, i: nat, off: nat, n: nat, part: seq<byte>, x: nat)
    requires AfterBmap(lo, t, t1, i, off / BSIZE, n) && off % BSIZE + |part| <= BSIZE && x / BSIZE < MAXFILE
    requires At(t1.img, i, PosOf(off / BSIZE)) < |t1.img.blk|
    ensures var y := ByteAt(Rewritten(t1, i, off, part).img, i, x);
      && (off <= x < off + |part| ==> y == part[x - off])
      && (!(off <= x < off + |part|) && x / BSIZE < n ==> y == ByteAt(t.img, i, x))
  {
    var a := At(t1.img, i, PosOf(off / BSIZE));
    BytesAfterWrite(lo, t1, i, off / BSIZE, Patch(t1.img.blk[a], off % BSIZE, part), x);
    if x / BSIZE < n {
      BytesAfterBmap(lo, t, t1, i, off / BSIZE, n, x);
    }
  }

  function Chunk(off0: nat, off: nat, total: nat): (m: nat)
    requires off <= off0 + total
    ensures m <= off0 + total - off && (off < off0 + total ==> 0 < m)
  {
    Min(off0 + total - off, BSIZE - off % BSIZE)
  }

  lemma WriteStep(lo: nat, t0: Tree, t: Tree, t1: Tree, i: nat, off0: nat, off: nat, next: nat, src: seq<byte>,
                  part: seq<byte>)
    requires Writing(lo, t0, t, i, off0, off, src)
    requires off < off0 + |src| <= MAXFILE * BSIZE && next == off + Chunk(off0, off, |src|) &&
      part == src[off - off0..next - off0]
    requires AfterBmap(lo, t, t1, i, off / BSIZE, BlocksFor(Max(t.img.ino[i].size, off)))
    requires t1.img.ino[i] == t.img.ino[i].(addrs := t1.img.ino[i].addrs)
    ensures At(t1.img, i, PosOf(off / BSIZE)) < |t1.img.blk|
    ensures Writing(lo, t0, Rewritten(t1, i, off, part), i, off0, next, src)
  {
    WriteStepShape(lo, t0, t, t1, i, off, next, BlocksFor(Max(t.img.ino[i].size, off)), part);
    WriteStepBytes(lo, t0, t, t1, i, off0, off, next, src, part);
  }

  lemma WriteStepShape(lo: nat, t0: Tree, t: Tree, t1: Tree, i: nat, off: nat, next: nat, n: nat, part: seq<byte>)
    requires i < |t.img.ino| && i < |t0.img.ino| && Shape(lo, t0, t, i, off)
    requires n == BlocksFor(Max(t.img.ino[i].size, off))
    requires AfterBmap(lo, t, t1, i, off / BSIZE, n) && off < next == off + |part| && off % BSIZE + |part| <= BSIZE
    requires t1.img.ino[i] == t.img.ino[i].(addrs := t1.img.ino[i].addrs)
    ensures At(t1.img, i, PosOf(off / BSIZE)) < |t1.img.blk|
    ensures i < |t1.img.ino| && Shape(lo, t0, Rewritten(t1, i, off, part), i, next)
  {
    RewrittenKeeps(lo, t, t1, i, off, n, part);
    var t2 := Rewritten(t1, i, off, part);
    OthersTwice(t0, t, t2, i);
    assert BlocksFor(Max(t.img.ino[i].size, next)) == if off / BSIZE < n then n else n + 1;
  }

  lemma WriteStepBytes(lo: nat, t0: Tree, t: Tree, t1: Tree, i: nat, off0: nat, off: nat, next: nat, src: seq<byte>,
                       part: seq<byte>)
    requires i < |t.img.ino| && i < |t0.img.ino| && off0 <= off < off0 + |src| <= MAXFILE * BSIZE
    requires Wrote(t0, t, i, off0, off, src) && next == off + Chunk(off0, off, |src|) &&
      part == src[off - off0..next - off0]
    requires AfterBmap(lo, t, t1, i, off / BSIZE, BlocksFor(Max(t.img.ino[i].size, off)))
    requires t1.img.ino[i].size == t.img.ino[i].size
    requires At(t1.img, i, PosOf(off / BSIZE)) < |t1.img.blk|
    ensures Wrote(t0, Rewritten(t1, i, off, part), i, off0, next, src)
  {
    var size := t.img.ino[i].size;
    var n := BlocksFor(Max(size, off));
    var t2 := Rewritten(t1, i, off, part);
    forall x | 0 <= x < Max(size, next)
      ensures ByteAt(t2.img, i, x) == if off0 <= x < next then src[x - off0] else ByteAt(t0.img, i, x)
    {
      assert x / BSIZE < MAXFILE by { assert n <= MAXFILE; }
      RewrittenByte(lo, t, t1, i, off, n, part, x);
      if !(off <= x < next) {
        assert x < Max(size, off);
      }
    }
  }

  // The loop is done: the file, at its new size, is the old one with src laid over it.
  lemma WritingDone(lo: nat, t0: Tree, t: Tree, i: nat, off0: nat, src: seq<byte>, d: Dinode)
    requires Writing(lo, t0, t, i, off0, off0 + |src|, src) && off0 <= t0.img.ino[i].size
    requires d == t.img.ino[i].(size := Max(t.img.ino[i].size, off0 + |src|))
    ensures var n := Tree(WithInode(t.img, i, d), t.owner);
      && Good(lo, n) && Others(t0, n, i) && Mapped(d, n.img.ptr, BlocksFor(d.size))
      && Content(n.img, i) == Splice(Content(t0.img, i), off0, src)
  {
    GoodAfterInode(lo, t, i, d);
    var n := Tree(WithInode(t.img, i, d), t.owner);
    forall p | 0 <= p < POSITIONS
      ensures BlockAt(d, n.img.ptr, p) == BlockAt(t.img.ino[i], t.img.ptr, p)
    {}
    SplicedContent(t0, t, i, off0, src, n.img);
  }

  lemma SplicedContent(t0: Tree, t: Tree, i: nat, off0: nat, src: seq<byte>, n: Image)
    requires i < |t0.img.ino| && i < |t.img.ino| == |n.ino| && off0 <= t0.img.ino[i].size == t.img.ino[i].size
    requires Wrote(t0, t, i, off0, off0 + |src|, src)
    requires n.ino[i].size == Max(t.img.ino[i].size, off0 + |src|) && n.ino[i].addrs == t.img.ino[i].addrs
    requires n.ptr == t.img.ptr && n.blk == t.img.blk
    ensures Content(n, i) == Splice(Content(t0.img, i), off0, src)
  {
    var c, r := Content(t0.img, i), Splice(Content(t0.img, i), off0, src);
    forall x | 0 <= x < n.ino[i].size
      ensures Content(n, i)[x] == r[x]
    {
      SpliceAt(c, off0, src, x);
      assert ByteAt(n, i, x) == ByteAt(t.img, i, x);
    }
  }
}
