/** The inode file system of fs.c over a raw disk: block allocation, the inode cache, block
    mapping, truncation, reading and writing file bytes. */
module FileSystem {
  import opened Layout
  import opened BlockTree
  import opened FileData
  import opened InodeCache

  // T_DIR and T_DEV come from stat.h, which is not part of this model; only that they differ
  // from each other and from 0 (a free inode) matters.
  const T_DIR: u16 := 1
  const T_DEV: u16 := 3

  // `Panic` is the kernel's panic(): it halts, so nothing is promised about the state behind
  // it. `Driver` says the call was handed to the device driver with that major number, and
  // `Waits` that the caller sleeps on a lock somebody else holds.
  datatype Why =
    | OutOfBlocks | FreeingFree | OutOfRange | NoInodes | NoSlots | BadInode | NoType | NotLocked
    | NotDir | ShortRead | DirFull
  datatype Result<T> = Done(value: T) | Panic(why: Why) | Driver(major: u16) | Waits

  // A regular inode: exactly the blocks its size needs, and none while it is free.
  ghost predicate FileOk(d: Dinode, ptr: seq<Pointers>) {
    && Mapped(d, ptr, BlocksFor(d.size))
    && (d.ty == 0 ==> d.size == 0)
  }

  ghost predicate AllOk(img: Image) {
    forall i :: 0 <= i < |img.ino| ==> FileOk(img.ino[i], img.ptr)
  }

  // Every other file is untouched: its inode and its bytes.
  ghost predicate OthersSame(img: Image, img': Image, i: nat) {
    |img'.ino| == |img.ino| &&
    forall j :: 0 <= j < |img.ino| && j != i ==> img'.ino[j] == img.ino[j] && Content(img', j) == Content(img, j)
  }

  lemma AllKept(lo: nat, t: Tree, t': Tree, i: nat)
    requires Good(lo, t) && Others(t, t', i) && AllOk(t.img) && i < |t.img.ino| && FileOk(t'.img.ino[i], t'.img.ptr)
    ensures AllOk(t'.img) && OthersSame(t.img, t'.img, i)
  {
    forall j | 0 <= j < |t.img.ino| && j != i
      ensures FileOk(t'.img.ino[j], t'.img.ptr) && t'.img.ino[j] == t.img.ino[j] &&
        Content(t'.img, j) == Content(t.img, j)
    {
      OthersKeep(lo, t, t', i, j);
    }
  }

  // What is in memory about an inode agrees with the disk.
  ghost predicate Coherent(slots: seq<Inode>, dev: u32, ino: seq<Dinode>) {
    forall s {:trigger InUse(slots, s)}
      | 0 <= s < |slots| && InUse(slots, s) && slots[s].valid && slots[s].dev == dev ::
      slots[s].inum < |ino| && slots[s].d == ino[slots[s].inum] && slots[s].d.ty != 0
  }

  ghost predicate CacheOk(slots: seq<Inode>, handles: multiset<Handle>, dev: u32, ino: seq<Dinode>) {
    CacheInv(slots, handles) && Coherent(slots, dev, ino)
  }

  ghost predicate DiskOk(sb: Superblock, raw: seq<Block>, t: Tree) {
    Refines(sb, raw, t.img) && Good(DataStart(sb), t) && AllOk(t.img)
  }

  // A disk as it comes from mkfs: no inode in use, and only the metadata taken.
  lemma EmptyDisk(sb: Superblock, raw: seq<Block>, img: Image)
    requires Refines(sb, raw, img)
    requires forall i :: 0 <= i < |img.ino| ==>
      img.ino[i].ty == 0 && img.ino[i].size == 0 && img.ino[i].addrs == NoAddrs()
    requires forall b :: 0 <= b < |img.used| ==> (img.used[b] <==> b < DataStart(sb))
    ensures DiskOk(sb, raw, Tree(img, map[]))
  {}

  // No holes: a file's block is mapped exactly if it lies below the end of the file.
  lemma NoHoles(sb: Superblock, raw: seq<Block>, t: Tree, i: nat, bn: nat)
    requires DiskOk(sb, raw, t) && i < |t.img.ino| && bn < MAXFILE
    ensures At(t.img, i, PosOf(bn)) != 0 <==> BSIZE * bn < t.img.ino[i].size
  {}

  // Where byte x of a file lies on the disk: in the block with the address number x / 512 of the
  // inode, or behind the first twelve, with the number at that place in the indirect block.
  lemma FileByteOnDisk(sb: Superblock, raw: seq<Block>, t: Tree, i: nat, x: nat)
    requires DiskOk(sb, raw, t) && i < |t.img.ino| && x < t.img.ino[i].size
    ensures var d := t.img.ino[i]; var k := x / 512;
      && k < 140 && (k >= 12 ==> d.addrs[12] < |raw|)
      && var b := if k < 12 then d.addrs[k] else Number(raw[d.addrs[12]][4 * (k - 12)..4 * (k - 12) + 4]);
         b < |raw| && Content(t.img, i)[x] == raw[b][x % 512]
  {
    var d, k := t.img.ino[i], x / 512;
    BlockMapped(DataStart(sb), t, i, k);
    if k >= 12 {
      EntryOnDisk(sb, raw, t, i, k + 1);
      WordsAre(raw[d.addrs[12]], k - 12);
    }
    ByteInBlock(sb, raw, t.img, i, x, k, At(t.img, i, PosOf(k)));
  }

  lemma ByteInBlock(sb: Superblock, raw: seq<Block>, img: Image, i: nat, x: nat, k: nat, b: nat)
    requires Refines(sb, raw, img) && i < |img.ino| && x < img.ino[i].size && k == x / BSIZE < MAXFILE
    requires b == At(img, i, PosOf(k)) && DataStart(sb) <= b < |raw|
    ensures Content(img, i)[x] == raw[b][x % BSIZE]
  {}

  lemma GetKeepsOk(slots: seq<Inode>, handles: multiset<Handle>, dev: u32, ino: seq<Dinode>, d: u32, inum: u32)
    requires CacheOk(slots, handles, dev, ino) && Chosen(slots, d, inum) < |slots|
    ensures CacheOk(AfterGet(slots, d, inum), handles + multiset{Handle(Chosen(slots, d, inum), d, inum)}, dev, ino)
  {
    GetKeepsInv(slots, handles, d, inum);
    var slots' := AfterGet(slots, d, inum);
    forall s | 0 <= s < |slots'| && InUse(slots', s) && slots'[s].valid
      ensures InUse(slots, s)
    {}
  }

  // What a handle gives its holder.
  lemma HandleGood(slots: seq<Inode>, handles: multiset<Handle>, dev: u32, ino: seq<Dinode>, s: nat)
    requires CacheOk(slots, handles, dev, ino) && s < |slots| && HandleOf(slots, s) in handles
    ensures InUse(slots, s) && handles == handles[HandleOf(slots, s) := slots[s].ref]
    ensures slots[s].valid && slots[s].dev == dev ==>
              slots[s].inum < |ino| && slots[s].d == ino[slots[s].inum] && slots[s].d.ty != 0
  {
    assert handles[HandleOf(slots, s)] == slots[s].ref;
    assert InUse(slots, s);
  }

  // A block inside the file is mapped, so bmap has nothing to do.
  lemma BlockMapped(lo: nat, t: Tree, i: nat, bn: nat)
    requires Good(lo, t) && AllOk(t.img) && i < |t.img.ino| && bn < BlocksFor(t.img.ino[i].size)
    ensures bn < MAXFILE && lo <= At(t.img, i, PosOf(bn)) < |t.img.blk|
    ensures CanMap(lo, t, i, bn) && Bmapped(lo, t, i, bn) == t
  {}

  // A stretch of a file inside one block lies there in one piece.
  lemma BlockBytes(lo: nat, t: Tree, i: nat, off: nat, next: nat)
    requires i < |t.img.ino| && off <= next <= t.img.ino[i].size && off % BSIZE + (next - off) <= BSIZE
    requires off / BSIZE < MAXFILE && At(t.img, i, PosOf(off / BSIZE)) < |t.img.blk|
    ensures Content(t.img, i)[off..next] ==
      t.img.blk[At(t.img, i, PosOf(off / BSIZE))][off % BSIZE..off % BSIZE + (next - off)]
  {}

  lemma WritingStarts(lo: nat, t: Tree, i: nat, off: nat, src: seq<byte>)
    requires Good(lo, t) && AllOk(t.img) && i < |t.img.ino| && off <= t.img.ino[i].size
    ensures Writing(lo, t, t, i, off, off, src)
  {}

  // A finished write to inode i: the bytes are spliced in, and only size and addresses moved.
  ghost predicate WroteBack(lo: nat, t0: Tree, t: Tree, i: nat, off: nat, src: seq<byte>)
    requires i < |t0.img.ino| && off <= t0.img.ino[i].size
  {
    && Good(lo, t) && Others(t0, t, i)
    && Mapped(t.img.ino[i], t.img.ptr, BlocksFor(t.img.ino[i].size))
    && SameButSize(t0.img.ino[i], t.img.ino[i], Max(t0.img.ino[i].size, off + |src|))
    && Content(t.img, i) == Splice(Content(t0.img, i), off, src)
  }

  predicate SameButSize(d0: Dinode, d: Dinode, size: nat) {
    d.size == size && d == d0.(size := d.size, addrs := d.addrs)
  }

  lemma BitPlace(sb: Superblock, b: nat, bi: nat)
    requires b % BPB == 0 && bi < BPB
    ensures BBlock(sb, b + bi) == BBlock(sb, b) && (b + bi) % BPB == bi
  {}

  // The wrap-around of a 32-bit sum shows in its being smaller.
  lemma Wraps(off: u32, n: u32)
    ensures (off + n) % U32 < off <==> off + n >= U32
  {}

  // Inode i >= 1 is the first with type zero; if i is past the end there is none.
  predicate FirstFreeInode(ino: seq<Dinode>, i: nat) {
    && 1 <= i && (forall j :: 1 <= j < i && j < |ino| ==> ino[j].ty != 0)
    && (i < |ino| ==> ino[i].ty == 0)
  }

  // writei's effect: the file is spliced, every other file is as it was, and the inode in
  // memory still equals its record on disk.
  ghost predicate WriteEffect(t0: Tree, t: Tree, slots: seq<Inode>, slots': seq<Inode>, ip: nat, off: nat,
                              src: seq<byte>) {
    && ip < |slots| && slots[ip].inum < |t0.img.ino| && off <= t0.img.ino[slots[ip].inum].size
    && OthersSame(t0.img, t.img, slots[ip].inum)
    && Content(t.img, slots[ip].inum) == Splice(Content(t0.img, slots[ip].inum), off, src)
    && SameButSize(t0.img.ino[slots[ip].inum], t.img.ino[slots[ip].inum],
      Max(t0.img.ino[slots[ip].inum].size, off + |src|))
    && slots' == slots[ip := slots[ip].(d := t.img.ino[slots[ip].inum])]
  }

  // At most the addresses of one slot in memory differ.
  predicate AddrsOnly(slots: seq<Inode>, slots': seq<Inode>, ip: nat) {
    && ip < |slots| == |slots'| && slots' == slots[ip := slots'[ip]]
    && slots'[ip] == slots[ip].(d := slots[ip].d.(addrs := slots'[ip].d.addrs))
  }

  lemma AddrsOnlyTwice(slots: seq<Inode>, slots1: seq<Inode>, slots2: seq<Inode>, ip: nat)
    requires AddrsOnly(slots, slots1, ip) && AddrsOnly(slots1, slots2, ip)
    ensures AddrsOnly(slots, slots2, ip)
  {}

  // The free blocks and those a file of `size` bytes holds, together.
  ghost function Budget(used: seq<bool>, size: nat): nat { FreeCount(used) + BlocksHeld(BlocksFor(size)) }

  // Fewer blocks are free than a file of `size` bytes needs on top of its own to reach `end`.
  ghost predicate TooFew(used: seq<bool>, size: nat, end: nat) {
    Budget(used, size) < BlocksHeld(BlocksFor(Max(size, end)))
  }

  // One round of writei's loop stays inside one block, and reaches at most one block further.
  lemma ChunkBlocks(size: nat, off0: nat, off: nat, next: nat, total: nat)
    requires off0 <= off < off0 + total <= MAXFILE * BSIZE && next == off + Chunk(off0, off, total)
    ensures off / BSIZE < MAXFILE && off / BSIZE <= BlocksFor(Max(size, off)) && off % BSIZE + (next - off) <= BSIZE
    ensures var n := BlocksFor(Max(size, off)); BlocksFor(Max(size, next)) == if off / BSIZE < n then n else n + 1
    ensures BlocksHeld(BlocksFor(Max(size, next))) <= BlocksHeld(BlocksFor(Max(size, off0 + total)))
  {}

  // What bmap does for a round of writei, and what it costs; it fails only if there are too
  // few blocks for the rest of the write.
  lemma ChunkMapped(lo: nat, t: Tree, i: nat, off0: nat, off: nat, next: nat, total: nat, size: nat)
    requires Good(lo, t) && i < |t.img.ino| && off0 <= off < off0 + total <= MAXFILE * BSIZE &&
      next == off + Chunk(off0, off, total)
    requires size == t.img.ino[i].size && Mapped(t.img.ino[i], t.img.ptr, BlocksFor(Max(size, off)))
    ensures off / BSIZE < MAXFILE
    ensures if !CanMap(lo, t, i, off / BSIZE)
      then Budget(t.img.used, Max(size, off)) < BlocksHeld(BlocksFor(Max(size, off0 + total)))
      else
        && AfterBmap(lo, t, Bmapped(lo, t, i, off / BSIZE), i, off / BSIZE, BlocksFor(Max(size, off)))
        && Budget(Bmapped(lo, t, i, off / BSIZE).img.used, Max(size, next)) == Budget(t.img.used, Max(size, off))
  {
    ChunkBlocks(size, off0, off, next, total);
    BmapCost(lo, t, i, off / BSIZE, BlocksFor(Max(size, off)));
    if CanMap(lo, t, i, off / BSIZE) {
      BmapGrows(lo, t, i, off / BSIZE, BlocksFor(Max(size, off)));
    }
  }

  // Inside writei on slot ip: src[..off - off0] is written. Only the addresses of that slot
  // have changed in memory, and no inode record on disk; every block taken is the file's.
  ghost predicate WriteState(sb: Superblock, raw: seq<Block>, t: Tree, slots: seq<Inode>,
                             t0: Tree, slots0: seq<Inode>, ip: nat, off0: nat, off: nat, src: seq<byte>) {
    && Refines(sb, raw, t.img) && t.img.ino == t0.img.ino && AddrsOnly(slots0, slots, ip)
    && slots0[ip].inum < |t0.img.ino|
    && Budget(t.img.used, Max(t0.img.ino[slots0[ip].inum].size, off)) ==
      Budget(t0.img.used, t0.img.ino[slots0[ip].inum].size)
    && Writing(DataStart(sb), t0, Cur(t, slots[ip]), slots[ip].inum, off0, off, src)
  }

  // iput's test: nobody else holds the inode and no directory names it.
  predicate LastUnlinked(ip: Inode) { ip.ref == 1 && ip.valid && ip.d.nlink == 0 }

  // A free inode record is taken: it owned nothing, and nobody has it in memory.
  lemma TakeInode(lo: nat, t: Tree, i: nat, ty: u16)
    requires Good(lo, t) && AllOk(t.img) && i < |t.img.ino| && t.img.ino[i].ty == 0
    ensures var t' := Tree(WithInode(t.img, i, NewInode(ty)), t.owner);
      Good(lo, t') && AllOk(t'.img) && OthersSame(t.img, t'.img, i)
  {
    var d := t.img.ino[i];
    assert FileOk(d, t.img.ptr);
    forall p | 0 <= p < 13
      ensures d.addrs[p] == 0
    {
      assert BlockAt(d, t.img.ptr, p) != 0 <==> Needed(p, 0);
    }
    assert d.addrs == NoAddrs();
    GoodAfterInode(lo, t, i, NewInode(ty));
    var t' := Tree(WithInode(t.img, i, NewInode(ty)), t.owner);
    forall p | 0 <= p < POSITIONS
      ensures BlockAt(NewInode(ty), t.img.ptr, p) == BlockAt(d, t.img.ptr, p)
    {}
    AllKept(lo, t, t', i);
  }

  // Fields of an inode that say nothing about its blocks change: nothing else does.
  lemma FieldsKept(lo: nat, t: Tree, i: nat, d: Dinode)
    requires Good(lo, t) && AllOk(t.img) && i < |t.img.ino|
    requires d.size == t.img.ino[i].size && d.addrs == t.img.ino[i].addrs && d.ty == t.img.ino[i].ty
    ensures var t' := Tree(WithInode(t.img, i, d), t.owner);
      Good(lo, t') && AllOk(t'.img) && OthersSame(t.img, t'.img, i) && Content(t'.img, i) == Content(t.img, i)
  {
    GoodAfterInode(lo, t, i, d);
    var t' := Tree(WithInode(t.img, i, d), t.owner);
    forall p | 0 <= p < POSITIONS
      ensures BlockAt(d, t.img.ptr, p) == BlockAt(t.img.ino[i], t.img.ptr, p)
    {}
    AllKept(lo, t, t', i);
    forall x | 0 <= x < d.size
      ensures ByteAt(t'.img, i, x) == ByteAt(t.img, i, x)
    {}
  }

  // A truncated and freed inode leaves a good disk, and every other file as it was.
  lemma FreedKept(lo: nat, t: Tree, used: seq<bool>, i: nat, d: Dinode)
    requires Good(lo, t) && AllOk(t.img) && i < |t.img.ino| && Cleared(t, used, i, POSITIONS)
    requires d.addrs == NoAddrs() && d.size == 0
    ensures var t' := Truncated(t, used, i, d); Good(lo, t') && AllOk(t'.img) && OthersSame(t.img, t'.img, i)
  {
    TruncatedGood(lo, t, used, i, d);
    AllKept(lo, t, Truncated(t, used, i, d), i);
  }

  // Inode i is free and empty, exactly its blocks' bits are clear, every other file is as it was.
  ghost predicate Freed(t: Tree, t': Tree, i: nat, d: Dinode) {
    && i < |t.img.ino| == |t'.img.ino| && t'.img.ino[i] == Emptied(d)
    && t'.img.ino[i].ty == 0 && t'.img.ino[i].size == 0 && (forall p :: 0 <= p < 13 ==> t'.img.ino[i].addrs[p] == 0)
    && OthersSame(t.img, t'.img, i) && Cleared(t, t'.img.used, i, POSITIONS)
  }

  function NewInode(ty: u16): Dinode { Dinode(ty, 0, 0, 0, 0, NoAddrs()) }

  lemma TakeInodeKeepsOk(slots: seq<Inode>, handles: multiset<Handle>, dev: u32, ino: seq<Dinode>, i: nat, ty: u16)
    requires CacheOk(slots, handles, dev, ino) && i < |ino| && ino[i].ty == 0
    ensures CacheOk(slots, handles, dev, ino[i := NewInode(ty)])
  {}

  // One slot in use changes, and the disk record of its inode with it.
  lemma ChangeKeepsOk(slots: seq<Inode>, handles: multiset<Handle>, dev: u32, ino: seq<Dinode>, ino': seq<Dinode>,
                      s: nat, ip: Inode)
    requires CacheOk(slots, handles, dev, ino) && s < |slots| && InUse(slots, s) && |ino'| == |ino|
    requires ip.dev == slots[s].dev && ip.inum == slots[s].inum && (ip.locked ==> ip.ref > 0)
    requires forall j :: 0 <= j < |ino| && !(slots[s].dev == dev && j == slots[s].inum) ==> ino'[j] == ino[j]
    requires ip.ref > 0 && ip.valid && ip.dev == dev ==> ip.inum < |ino| && ip.d == ino'[ip.inum] && ip.d.ty != 0
    ensures CacheOk(slots[s := ip], handles[HandleOf(slots, s) := ip.ref], dev, ino')
  {
    ReplaceSlot(slots, handles, s, ip);
    var slots' := slots[s := ip];
    forall r | 0 <= r < |slots'| && r != s && InUse(slots', r)
      ensures InUse(slots, r)
    {}
  }

  // The tree with one inode as it stands in memory, possibly ahead of the disk.
  ghost function Cur(t: Tree, ip: Inode): Tree
    requires ip.inum < |t.img.ino|
  {
    Tree(WithInode(t.img, ip.inum, ip.d), t.owner)
  }

  // The entries of an inode's indirect block are read off the disk.
  lemma EntryOnDisk(sb: Superblock, raw: seq<Block>, t: Tree, i: nat, p: nat)
    requires Good(DataStart(sb), t) && |raw| == |t.img.blk| && i < |t.img.ino| && INDIRECT < p < POSITIONS
    requires forall b {:trigger Words(raw[b])} :: DataStart(sb) <= b < |raw| ==> t.img.ptr[b] == Words(raw[b])
    requires At(t.img, i, INDIRECT) != 0
    ensures At(t.img, i, INDIRECT) == t.img.ino[i].addrs[INDIRECT] < |raw|
    ensures At(t.img, i, p) == Words(raw[t.img.ino[i].addrs[INDIRECT]])[p - 13]
  {}

  class FileSystem {
    const sb: Superblock
    const dev: u32
    const devsw: seq<bool>
    var raw: seq<Block>
    var inode: seq<Inode>
    ghost var t: Tree
    ghost var handles: multiset<Handle>

    ghost predicate Valid()
      reads this
    {
      DiskOk(sb, raw, t) && CacheOk(inode, handles, dev, t.img.ino)
    }

    // iinit: nothing cached yet, on a disk in order.
    constructor (sb: Superblock, dev: u32, devsw: seq<bool>, raw: seq<Block>, slots: seq<Inode>, ghost t: Tree)
      requires DiskOk(sb, raw, t)
      requires forall s :: 0 <= s < |slots| ==> slots[s].ref == 0 && !slots[s].locked
      ensures Valid() && this.raw == raw && this.t == t && inode == slots && handles == multiset{}
    {
      this.sb, this.dev, this.devsw := sb, dev, devsw;
      this.raw, inode, this.t, handles := raw, slots, t, multiset{};
      InitialState(slots);
    }

    // ---------- blocks ----------

    method Bzero(b: nat)
      requires Refines(sb, raw, t.img) && DataStart(sb) <= b < sb.size
      modifies `raw, `t
      ensures Refines(sb, raw, t.img)
      ensures t == Tree(WithBlock(old(t).img, b, ZeroBlock()), old(t).owner)
    {
      PutBlockRefines(sb, raw, t.img, b, ZeroBlock());
      raw := raw[b := ZeroBlock()];
      t := Tree(WithBlock(t.img, b, ZeroBlock()), t.owner);
    }

    // balloc's choice of block b: set its bit, then zero it.
    method Take(b: nat)
      requires Refines(sb, raw, t.img) && DataStart(sb) <= b < sb.size
      modifies `raw, `t
      ensures Refines(sb, raw, t.img) && t == Tree(Allocated(old(t).img, b), old(t).owner)
    {
      PutBitRefines(sb, raw, t.img, b, true);
      raw := raw[BBlock(sb, b) := SetBit(raw[BBlock(sb, b)], b % BPB)];
      t := Tree(t.img.(used := t.img.used[b := true]), t.owner);
      Bzero(b);
    }

    // balloc's search: the first block whose bit is clear, sb.size if there is none.
    method FindFree() returns (b: nat)
      requires Refines(sb, raw, t.img)
      ensures b == FirstFree(t.img.used)
    {
      BitsOf(sb, raw, t.img);
      b := 0;
      while b < sb.size
        invariant b % BPB == 0
        invariant forall c :: 0 <= c < b && c < sb.size ==> t.img.used[c]
      {
        var bp := raw[BBlock(sb, b)];
        var bi := 0;
        while bi < BPB && b + bi < sb.size
          invariant bi <= BPB
          invariant forall c :: 0 <= c < b + bi && c < sb.size ==> t.img.used[c]
        {
          BitPlace(sb, b, bi);
          if !TestBit(bp, bi) {
            FirstFreeIs(t.img.used, b + bi);
            return b + bi;
          }
          bi := bi + 1;
        }
        b := b + BPB;
      }
      FirstFreeIs(t.img.used, sb.size);
      return sb.size;
    }

    // The lowest free block, marked and filled with zeros.
    method Balloc() returns (r: Result<u32>)
      requires Refines(sb, raw, t.img) && forall b :: 0 <= b < DataStart(sb) ==> t.img.used[b]
      modifies `raw, `t
      ensures Refines(sb, raw, t.img)
      ensures if HasFree(old(t).img)
              then r == Done(FirstFree(old(t).img.used)) && t == Tree(Allocated(old(t).img, r.value), old(t).owner)
              else r == Panic(OutOfBlocks) && t == old(t)
    {
      var b := FindFree();
      if b == sb.size {
        return Panic(OutOfBlocks);
      }
      Take(b);
      return Done(b);
    }

    method Bfree(b: nat) returns (r: Result<()>)
      requires Refines(sb, raw, t.img) && b < sb.size
      modifies `raw, `t
      ensures Refines(sb, raw, t.img)
      ensures r == if old(t).img.used[b] then Done(()) else Panic(FreeingFree)
      ensures old(t).img.used[b] ==> t == Tree(old(t).img.(used := old(t).img.used[b := false]), old(t).owner)
    {
      BitsOf(sb, raw, t.img);
      var bp := raw[BBlock(sb, b)];
      var bi := b % BPB;
      if !TestBit(bp, bi) {
        return Panic(FreeingFree);
      }
      PutBitRefines(sb, raw, t.img, b, false);
      raw := raw[BBlock(sb, b) := ClearBit(bp, bi)];
      t := Tree(t.img.(used := t.img.used[b := false]), t.owner);
      return Done(());
    }

    // A data block gets new contents.
    method WriteBlock(b: nat, data: Block)
      requires Refines(sb, raw, t.img) && DataStart(sb) <= b < sb.size
      modifies `raw, `t
      ensures Refines(sb, raw, t.img) && t == Tree(WithBlock(old(t).img, b, data), old(t).owner)
    {
      PutBlockRefines(sb, raw, t.img, b, data);
      raw := raw[b := data];
      t := Tree(WithBlock(t.img, b, data), t.owner);
    }

    // ---------- inodes ----------

    // One inode record gets new contents.
    method WriteInode(i: nat, d: Dinode)
      requires Refines(sb, raw, t.img) && i < sb.ninodes
      modifies `raw, `t
      ensures Refines(sb, raw, t.img) && t == Tree(WithInode(old(t).img, i, d), old(t).owner)
    {
      PutInodeRefines(sb, raw, t.img, i, d);
      raw := PutInode(sb, raw, i, d);
      t := Tree(WithInode(t.img, i, d), t.owner);
    }

    // The disk record of slot ip's inode becomes the copy in memory.
    method Iupdate(ip: nat)
      requires Refines(sb, raw, t.img) && ip < |inode| && inode[ip].inum < sb.ninodes
      modifies `raw, `t
      ensures Refines(sb, raw, t.img) && t == Cur(old(t), inode[ip])
    {
      WriteInode(inode[ip].inum, inode[ip].d);
    }

    // ---------- block mapping ----------

    // A fresh block for one of the thirteen addresses in the inode.
    method BallocAddr(ip: nat, p: nat) returns (r: Result<u32>)
      requires Refines(sb, raw, t.img) && ip < |inode| && inode[ip].inum < |t.img.ino| && p <= INDIRECT
      requires Good(DataStart(sb), Cur(t, inode[ip]))
      modifies `raw, `t, `inode
      ensures if HasFree(old(t).img)
        then
          && r == Done(FirstFree(old(t).img.used)) && Refines(sb, raw, t.img) && t.img.ino == old(t).img.ino
          && inode == old(inode)[ip :=
            old(inode)[ip].(d := old(inode)[ip].d.(addrs := old(inode)[ip].d.addrs[p := r.value]))]
          && Cur(t, inode[ip]) == Put(DataStart(sb), Cur(old(t), old(inode)[ip]), inode[ip].inum, p)
        else r == Panic(OutOfBlocks) && !HasFree(t.img)
    {
      ghost var o := Cur(t, inode[ip]);
      assert forall b :: 0 <= b < DataStart(sb) ==> o.img.used[b];
      r := Balloc();
      if r.Panic? { return; }
      inode := inode[ip := inode[ip].(d := inode[ip].d.(addrs := inode[ip].d.addrs[p := r.value]))];
      t := Tree(t.img, t.owner[r.value := Pos(inode[ip].inum, p)]);
    }

    // Make sure the inode has an indirect block.
    method LoadIndirect(ip: nat) returns (r: Result<u32>)
      requires Refines(sb, raw, t.img) && ip < |inode| && inode[ip].inum < |t.img.ino|
      requires Good(DataStart(sb), Cur(t, inode[ip]))
      modifies `raw, `t, `inode
      ensures var lo, i, o := DataStart(sb), old(inode)[ip].inum, Cur(old(t), old(inode)[ip]);
        if !CanFill(o, i, INDIRECT) then r == Panic(OutOfBlocks) && !HasFree(t.img)
        else
          && Refines(sb, raw, t.img) && t.img.ino == old(t).img.ino && AddrsOnly(old(inode), inode, ip)
          && Cur(t, inode[ip]) == Filled(lo, o, i, INDIRECT) && r == Done(inode[ip].d.addrs[INDIRECT])
          && (At(o.img, i, INDIRECT) != 0 ==> raw == old(raw) && t == old(t) && inode == old(inode))
    {
      var addr := inode[ip].d.addrs[INDIRECT];
      assert At(Cur(t, inode[ip]).img, inode[ip].inum, INDIRECT) == addr;
      if addr == 0 {
        r := BallocAddr(ip, INDIRECT);
        return;
      }
      return Done(addr);
    }

    // A fresh block for one entry of the indirect block.
    method BallocEntry(ip: nat, p: nat) returns (r: Result<u32>)
      requires Refines(sb, raw, t.img) && ip < |inode| && inode[ip].inum < |t.img.ino| && INDIRECT < p < POSITIONS
      requires Good(DataStart(sb), Cur(t, inode[ip])) && At(Cur(t, inode[ip]).img, inode[ip].inum, INDIRECT) != 0
      modifies `raw, `t
      ensures if HasFree(old(t).img)
        then
          && r == Done(FirstFree(old(t).img.used)) && Refines(sb, raw, t.img) && t.img.ino == old(t).img.ino
          && Cur(t, inode[ip]) == Put(DataStart(sb), Cur(old(t), inode[ip]), inode[ip].inum, p)
        else r == Panic(OutOfBlocks) && !HasFree(t.img)
    {
      ghost var o := Cur(t, inode[ip]);
      var ind := inode[ip].d.addrs[INDIRECT];
      assert At(o.img, inode[ip].inum, INDIRECT) == ind;
      assert forall b :: 0 <= b < DataStart(sb) ==> o.img.used[b];
      assert ind in o.owner;
      var bp := raw[ind];
      r := Balloc();
      if r.Panic? { return; }
      WriteBlock(ind, SetWord(bp, p - 13, r.value));
      t := Tree(t.img, t.owner[r.value := Pos(inode[ip].inum, p)]);
    }

    // Make sure the entry of the indirect block holds a block.
    method LoadEntry(ip: nat, p: nat) returns (r: Result<u32>)
      requires Refines(sb, raw, t.img) && ip < |inode| && inode[ip].inum < |t.img.ino| && INDIRECT < p < POSITIONS
      requires Good(DataStart(sb), Cur(t, inode[ip])) && At(Cur(t, inode[ip]).img, inode[ip].inum, INDIRECT) != 0
      modifies `raw, `t
      ensures var lo, i, o := DataStart(sb), inode[ip].inum, Cur(old(t), inode[ip]);
        if !CanFill(o, i, p) then r == Panic(OutOfBlocks) && !HasFree(t.img)
        else
          && Refines(sb, raw, t.img) && t.img.ino == old(t).img.ino
          && Cur(t, inode[ip]) == Filled(lo, o, i, p) && r == Done(At(Cur(t, inode[ip]).img, i, p))
          && (At(o.img, i, p) != 0 ==> raw == old(raw) && t == old(t))
    {
      ghost var i, o := inode[ip].inum, Cur(t, inode[ip]);
      EntryOnDisk(sb, raw, o, i, p);
      var e := Words(raw[inode[ip].d.addrs[INDIRECT]])[p - 13];
      if e != 0 {
        return Done(e);
      }
      r := BallocEntry(ip, p);
      if r.Done? {
        PutGood(DataStart(sb), o, i, p);
        assert At(Put(DataStart(sb), o, i, p).img, i, p) == r.value;
      }
    }

    // bmap behind the direct blocks
    method BmapIndirect(ip: nat, bn: nat) returns (r: Result<u32>)
      requires Refines(sb, raw, t.img) && ip < |inode| && inode[ip].inum < |t.img.ino| && NDIRECT <= bn < MAXFILE
      requires Good(DataStart(sb), Cur(t, inode[ip]))
      modifies `raw, `t, `inode
      ensures BmapResult(old(t), old(inode), old(raw), ip, bn, r)
    {
      ghost var i, o := inode[ip].inum, Cur(t, inode[ip]);
      assert At(o.img, i, PosOf(bn)) != 0 ==> At(o.img, i, INDIRECT) != 0;
      r := LoadIndirect(ip);
      if r.Panic? { return; }
      r := LoadEntry(ip, PosOf(bn));
    }

    // The block at place bn of the file, made first if there is none.
    method Bmap(ip: nat, bn: nat) returns (r: Result<u32>)
      requires Refines(sb, raw, t.img) && ip < |inode| && inode[ip].inum < |t.img.ino|
      requires Good(DataStart(sb), Cur(t, inode[ip]))
      modifies `raw, `t, `inode
      ensures if bn >= MAXFILE then r == Panic(OutOfRange) else BmapResult(old(t), old(inode), old(raw), ip, bn, r)
    {
      if bn < NDIRECT {
        var addr := inode[ip].d.addrs[bn];
        assert At(Cur(t, inode[ip]).img, inode[ip].inum, bn) == addr;
        if addr == 0 {
          r := BallocAddr(ip, bn);
          return;
        }
        return Done(addr);
      }
      if bn - NDIRECT >= NINDIRECT {
        return Panic(OutOfRange);
      }
      r := BmapIndirect(ip, bn);
    }

    // bmap's outcome: out of blocks (with none left) exactly if it cannot map bn; otherwise the
    // tree of the in-memory inode has bn mapped, the disk inode is not written, and nothing at
    // all happens if bn was mapped before.
    ghost predicate BmapResult(t0: Tree, inode0: seq<Inode>, raw0: seq<Block>, ip: nat, bn: nat, r: Result<u32>)
      requires ip < |inode0| && inode0[ip].inum < |t0.img.ino| && bn < MAXFILE
      requires Good(DataStart(sb), Cur(t0, inode0[ip]))
      reads this
    {
      var lo, i, o := DataStart(sb), inode0[ip].inum, Cur(t0, inode0[ip]);
      if !CanMap(lo, o, i, bn) then r == Panic(OutOfBlocks) && !HasFree(t.img)
      else
        && Refines(sb, raw, t.img) && t.img.ino == t0.img.ino && AddrsOnly(inode0, inode, ip)
        && Cur(t, inode[ip]) == Bmapped(lo, o, i, bn)
        && r == Done(At(Cur(t, inode[ip]).img, i, PosOf(bn)))
        && (At(o.img, i, PosOf(bn)) != 0 ==> raw == raw0 && t == t0 && inode == inode0)
    }

    // ---------- truncation ----------

    // Free the block inode i holds at position p, if it holds one there.
    method FreeAt(a: u32, ghost o: Tree, ghost i: nat, ghost p: nat, ghost k: nat) returns (r: Result<()>)
      requires Refines(sb, raw, t.img) && Good(DataStart(sb), o) && i < |o.img.ino| && p < POSITIONS
      requires a == At(o.img, i, p) && k == Rank(p) && Cleared(o, t.img.used, i, k)
      modifies `raw, `t
      ensures r == Done(())
      ensures Refines(sb, raw, t.img) && Cleared(o, t.img.used, i, k + 1)
      ensures t == Tree(old(t).img.(used := t.img.used), old(t).owner)
    {
      ClearOne(DataStart(sb), o, t.img.used, i, p);
      if a != 0 {
        r := Bfree(a);
      } else {
        r := Done(());
      }
    }

    // Free the direct blocks.
    method FreeDirect(ip: nat) returns (r: Result<()>)
      requires Refines(sb, raw, t.img) && ip < |inode| && inode[ip].inum < |t.img.ino|
      requires Good(DataStart(sb), Cur(t, inode[ip]))
      modifies `raw, `t, `inode
      ensures r == Done(())
      ensures Refines(sb, raw, t.img) && t == Tree(old(t).img.(used := t.img.used), old(t).owner)
      ensures Cleared(Cur(old(t), old(inode)[ip]), t.img.used, old(inode)[ip].inum, NDIRECT)
      ensures AddrsOnly(old(inode), inode, ip)
      ensures inode[ip].d.addrs == NoAddrs()[INDIRECT := old(inode)[ip].d.addrs[INDIRECT]]
    {
      ghost var o, i := Cur(t, inode[ip]), inode[ip].inum;
      var k := 0;
      r := Done(());
      while k < NDIRECT
        invariant k <= NDIRECT && r == Done(())
        invariant Refines(sb, raw, t.img) && t == Tree(old(t).img.(used := t.img.used), old(t).owner)
        invariant Cleared(o, t.img.used, i, k)
        invariant AddrsOnly(old(inode), inode, ip)
        invariant forall j :: 0 <= j < 13 ==> inode[ip].d.addrs[j] == if j < k then 0 else o.img.ino[i].addrs[j]
      {
        r := FreeAt(inode[ip].d.addrs[k], o, i, k, k);
        inode := inode[ip := inode[ip].(d := inode[ip].d.(addrs := inode[ip].d.addrs[k := 0]))];
        k := k + 1;
      }
    }

    // Free the blocks listed in the indirect block, then that block.
    method FreeIndirect(ip: nat, ghost o: Tree) returns (r: Result<()>)
      requires Refines(sb, raw, t.img) && ip < |inode| && inode[ip].inum < |o.img.ino|
      requires Good(DataStart(sb), o) && t.img.blk == o.img.blk && t.img.ptr == o.img.ptr
      requires inode[ip].d.addrs[INDIRECT] == At(o.img, inode[ip].inum, INDIRECT) != 0
      requires Cleared(o, t.img.used, inode[ip].inum, NDIRECT)
      modifies `raw, `t
      ensures r == Done(())
      ensures Refines(sb, raw, t.img) && t == Tree(old(t).img.(used := t.img.used), old(t).owner)
      ensures Cleared(o, t.img.used, inode[ip].inum, POSITIONS)
    {
      ghost var i := inode[ip].inum;
      EntryOnDisk(sb, raw, o, i, 13);
      r := FreeEntries(Words(raw[inode[ip].d.addrs[INDIRECT]]), o, i);
      r := FreeAt(inode[ip].d.addrs[INDIRECT], o, i, INDIRECT, 140);
    }

    method FreeEntries(a: Pointers, ghost o: Tree, ghost i: nat) returns (r: Result<()>)
      requires Refines(sb, raw, t.img) && i < |o.img.ino| && Good(DataStart(sb), o)
      requires forall p {:trigger At(o.img, i, p)} :: INDIRECT < p < POSITIONS ==> At(o.img, i, p) == a[p - 13]
      requires Cleared(o, t.img.used, i, NDIRECT)
      modifies `raw, `t
      ensures r == Done(())
      ensures Refines(sb, raw, t.img) && t == Tree(old(t).img.(used := t.img.used), old(t).owner)
      ensures Cleared(o, t.img.used, i, 140)
    {
      var j := 0;
      ghost var k := NDIRECT;
      r := Done(());
      while j < NINDIRECT
        invariant j <= NINDIRECT && r == Done(()) && k == NDIRECT + j
        invariant Refines(sb, raw, t.img) && t == Tree(old(t).img.(used := t.img.used), old(t).owner)
        invariant Cleared(o, t.img.used, i, k)
      {
        assert At(o.img, i, 13 + j) == a[j];
        r := FreeAt(a[j], o, i, 13 + j, k);
        j, k := j + 1, k + 1;
      }
      assert k == 140;
    }

    // Free every block of the inode and clear its addresses in memory.
    method FreeBlocks(ip: nat) returns (r: Result<()>)
      requires Refines(sb, raw, t.img) && ip < |inode| && inode[ip].inum < |t.img.ino|
      requires Good(DataStart(sb), Cur(t, inode[ip]))
      modifies `raw, `t, `inode
      ensures r == Done(())
      ensures Refines(sb, raw, t.img) && t == Tree(old(t).img.(used := t.img.used), old(t).owner)
      ensures Cleared(Cur(old(t), old(inode)[ip]), t.img.used, old(inode)[ip].inum, POSITIONS)
      ensures inode == old(inode)[ip := old(inode)[ip].(d := old(inode)[ip].d.(addrs := NoAddrs()))]
    {
      ghost var o, i := Cur(t, inode[ip]), inode[ip].inum;
      assert At(o.img, i, INDIRECT) == inode[ip].d.addrs[INDIRECT];
      r := FreeDirect(ip);
      if inode[ip].d.addrs[INDIRECT] != 0 {
        r := FreeIndirect(ip, o);
        inode := inode[ip := inode[ip].(d := inode[ip].d.(addrs := inode[ip].d.addrs[INDIRECT := 0]))];
      } else {
        ClearNoIndirect(DataStart(sb), o, t.img.used, i);
      }
      assert inode[ip].d.addrs == NoAddrs();
    }

    // The file becomes empty: its blocks are free again, and its record says so.
    method Itrunc(ip: nat) returns (r: Result<()>)
      requires Refines(sb, raw, t.img) && ip < |inode| && inode[ip].inum < |t.img.ino|
      requires Good(DataStart(sb), Cur(t, inode[ip]))
      modifies `raw, `t, `inode
      ensures r == Done(())
      ensures Refines(sb, raw, t.img)
      ensures inode == old(inode)[ip := old(inode)[ip].(d := old(inode)[ip].d.(size := 0, addrs := NoAddrs()))]
      ensures Cleared(Cur(old(t), old(inode)[ip]), t.img.used, old(inode)[ip].inum, POSITIONS)
      ensures t == Truncated(old(t), t.img.used, old(inode)[ip].inum, inode[ip].d)
    {
      r := FreeBlocks(ip);
      inode := inode[ip := inode[ip].(d := inode[ip].d.(size := 0))];
      Iupdate(ip);
      t := Tree(t.img, Without(t.owner, inode[ip].inum));
    }

    // ---------- the inode cache ----------

    // iget's search: the slot in use for (d, inum), or else the first free one.
    method FindSlot(d: u32, inum: u32) returns (ip: nat)
      ensures ip == Chosen(inode, d, inum)
    {
      var empty: nat := |inode|;
      ip := 0;
      while ip < |inode|
        invariant ip <= |inode| && empty <= |inode|
        invariant forall s :: 0 <= s < ip ==> !(inode[s].ref > 0 && inode[s].dev == d && inode[s].inum == inum)
        invariant empty < |inode| ==> 0 <= empty < ip && inode[empty].ref == 0
        invariant forall s :: 0 <= s < ip && s < empty ==> inode[s].ref > 0
      {
        if inode[ip].ref > 0 && inode[ip].dev == d && inode[ip].inum == inum {
          return;
        }
        if empty == |inode| && inode[ip].ref == 0 {
          empty := ip;
        }
        ip := ip + 1;
      }
      return empty;
    }

    // A counted reference to the slot for (d, inum); nothing is locked or read in.
    method Iget(d: u32, inum: u32) returns (r: Result<nat>)
      requires CacheOk(inode, handles, dev, t.img.ino)
      modifies `inode, `handles
      ensures CacheOk(inode, handles, dev, t.img.ino)
      ensures var s := Chosen(old(inode), d, inum);
        if s == |old(inode)| then r == Panic(NoSlots) && AllInUse(inode) && inode == old(inode) &&
          handles == old(handles)
        else
          && r == Done(s) && inode == AfterGet(old(inode), d, inum)
          && handles == old(handles) + multiset{Handle(s, d, inum)}
          && Steps(State(old(inode), old(handles)), IGet(d, inum), State(inode, handles))
    {
      var ip := FindSlot(d, inum);
      if ip == |inode| {
        return Panic(NoSlots);
      }
      GetKeepsOk(inode, handles, dev, t.img.ino, d, inum);
      GetIs(inode, handles, d, inum, ip);
      handles := handles + multiset{Handle(ip, d, inum)};
      if inode[ip].ref > 0 {
        inode := inode[ip := inode[ip].(ref := inode[ip].ref + 1)];
      } else {
        inode := inode[ip := inode[ip].(dev := d, inum := inum, ref := 1, valid := false)];
      }
      return Done(ip);
    }

    // One more handle on a slot the caller already holds.
    method Idup(ip: nat)
      requires CacheOk(inode, handles, dev, t.img.ino) && ip < |inode| && HandleOf(inode, ip) in handles
      modifies `inode, `handles
      ensures CacheOk(inode, handles, dev, t.img.ino)
      ensures inode == old(inode)[ip := old(inode)[ip].(ref := old(inode)[ip].ref + 1)]
      ensures handles == old(handles) + multiset{HandleOf(old(inode), ip)}
      ensures Steps(State(old(inode), old(handles)), IDup(HandleOf(old(inode), ip)), State(inode, handles))
    {
      HandleGood(inode, handles, dev, t.img.ino, ip);
      DupIs(inode, handles, ip);
      ChangeKeepsOk(inode, handles, dev, t.img.ino, t.img.ino, ip, inode[ip].(ref := inode[ip].ref + 1));
      assert handles + multiset{HandleOf(inode, ip)} == handles[HandleOf(inode, ip) := inode[ip].ref + 1];
      handles := handles + multiset{HandleOf(inode, ip)};
      inode := inode[ip := inode[ip].(ref := inode[ip].ref + 1)];
    }

    // Take the lock of slot ip, and read its inode in if that was not done yet. |inode| or
    // more stands for a null pointer.
    method Ilock(ip: nat) returns (r: Result<()>)
      requires Refines(sb, raw, t.img) && CacheOk(inode, handles, dev, t.img.ino)
      requires ip < |inode| && inode[ip].ref > 0 ==> inode[ip].dev == dev && inode[ip].inum < |t.img.ino|
      modifies `inode
      ensures
        if ip >= |old(inode)| || old(inode)[ip].ref < 1 then r == Panic(BadInode) && inode == old(inode)
        else if old(inode)[ip].locked then r == Waits && inode == old(inode)
        else
          var d := t.img.ino[old(inode)[ip].inum];
          if !old(inode)[ip].valid && d.ty == 0 then r == Panic(NoType)
          else
            && r == Done(()) && d.ty != 0 && CacheOk(inode, handles, dev, t.img.ino)
            && inode == old(inode)[ip := old(inode)[ip].(locked := true, valid := true, d := d)]
            && Steps(State(old(inode), handles), ILock(HandleOf(old(inode), ip), d), State(inode, handles))
    {
      if ip >= |inode| || inode[ip].ref < 1 {
        return Panic(BadInode);
      }
      if inode[ip].locked {
        return Waits;
      }
      Regions(sb);
      HandleGood(inode, handles, dev, t.img.ino, ip);
      ghost var slots := inode;
      inode := inode[ip := inode[ip].(locked := true)];
      if !inode[ip].valid {
        var i := inode[ip].inum;
        var bp := raw[IBlock(sb, i)];
        inode := inode[ip := inode[ip].(d := Record(bp, i % IPB), valid := true)];
        if inode[ip].d.ty == 0 {
          return Panic(NoType);
        }
      }
      ChangeKeepsOk(slots, handles, dev, t.img.ino, t.img.ino, ip, inode[ip]);
      assert inode == slots[ip := inode[ip]];
      return Done(());
    }

    // Let go of the lock of slot ip.
    method Iunlock(ip: nat) returns (r: Result<()>)
      requires CacheOk(inode, handles, dev, t.img.ino)
      modifies `inode
      ensures CacheOk(inode, handles, dev, t.img.ino)
      ensures if ip >= |old(inode)| || !old(inode)[ip].locked || old(inode)[ip].ref < 1
        then r == Panic(NotLocked) && inode == old(inode)
              else
                && r == Done(()) && inode == old(inode)[ip := old(inode)[ip].(locked := false)]
                && Steps(State(old(inode), handles), IUnlock(HandleOf(old(inode), ip)), State(inode, handles))
    {
      if ip >= |inode| || !inode[ip].locked || inode[ip].ref < 1 {
        return Panic(NotLocked);
      }
      HandleGood(inode, handles, dev, t.img.ino, ip);
      ChangeKeepsOk(inode, handles, dev, t.img.ino, t.img.ino, ip, inode[ip].(locked := false));
      inode := inode[ip := inode[ip].(locked := false)];
      return Done(());
    }

    // What a system call does to a locked inode's other fields: change them in memory, then
    // iupdate. Blocks, sizes, contents and every other file stay as they are.
    method SetFields(ip: nat, major: u16, minor: u16, nlink: u16)
      requires Valid() && ip < |inode| && HandleOf(inode, ip) in handles && inode[ip].dev == dev
      requires inode[ip].valid && inode[ip].locked
      modifies `raw, `t, `inode
      ensures Valid() && old(inode)[ip].inum < |old(t).img.ino|
      ensures inode == old(inode)[ip :=
        old(inode)[ip].(d := old(inode)[ip].d.(major := major, minor := minor, nlink := nlink))]
      ensures t == Tree(WithInode(old(t).img, inode[ip].inum, inode[ip].d), old(t).owner)
      ensures OthersSame(old(t).img, t.img, inode[ip].inum)
      ensures Content(t.img, inode[ip].inum) == Content(old(t).img, inode[ip].inum)
    {
      HandleGood(inode, handles, dev, t.img.ino, ip);
      ghost var d := inode[ip].d.(major := major, minor := minor, nlink := nlink);
      FieldsKept(DataStart(sb), t, inode[ip].inum, d);
      ChangeKeepsOk(inode, handles, dev, t.img.ino, t.img.ino[inode[ip].inum := d], ip, inode[ip].(d := d));
      assert handles == handles[HandleOf(inode, ip) := inode[ip].ref];
      inode := inode[ip := inode[ip].(d := inode[ip].d.(major := major, minor := minor, nlink := nlink))];
      Iupdate(ip);
    }

    // ialloc's search: the first free record, sb.ninodes or more if there is none.
    method FindInode() returns (inum: nat)
      requires Refines(sb, raw, t.img)
      ensures FirstFreeInode(t.img.ino, inum)
    {
      inum := 1;
      Regions(sb);
      while inum < sb.ninodes
        invariant 1 <= inum && forall j :: 1 <= j < inum && j < sb.ninodes ==> t.img.ino[j].ty != 0
      {
        var dip := Record(raw[IBlock(sb, inum)], inum % IPB);
        if dip.ty == 0 {
          return;
        }
        inum := inum + 1;
      }
    }

    // A handle on the first free inode, which is now of the given type.
    method Ialloc(ty: u16) returns (r: Result<nat>, ghost i: nat)
      requires Valid()
      modifies `raw, `t, `inode, `handles
      ensures FirstFreeInode(old(t).img.ino, i) &&
        (r.Panic? ==> r.why == if i < |old(t).img.ino| then NoSlots else NoInodes)
      ensures r.Done? ==>
        && i < |old(t).img.ino| && Valid() && t == Tree(WithInode(old(t).img, i, NewInode(ty)), old(t).owner)
        && t.img.ino[i] == Dinode(ty, 0, 0, 0, 0, seq(13, _ => 0))
        && OthersSame(old(t).img, t.img, i)
        && r.value == Chosen(old(inode), dev, i) < |old(inode)| && inode == AfterGet(old(inode), dev, i)
        && handles == old(handles) + multiset{Handle(r.value, dev, i)}
      ensures r.Done? || r == Panic(NoInodes) || (r == Panic(NoSlots) && AllInUse(inode))
    {
      var inum := FindInode();
      i := inum;
      if inum < sb.ninodes {
        InitInode(inum, ty);
        r := Iget(dev, inum);
      } else {
        r := Panic(NoInodes);
      }
    }

    // The record becomes an empty inode of the given type.
    method InitInode(i: nat, ty: u16)
      requires Valid() && i < |t.img.ino| && t.img.ino[i].ty == 0
      modifies `raw, `t
      ensures Valid() && t == Tree(WithInode(old(t).img, i, NewInode(ty)), old(t).owner)
      ensures OthersSame(old(t).img, t.img, i)
    {
      TakeInode(DataStart(sb), t, i, ty);
      TakeInodeKeepsOk(inode, handles, dev, t.img.ino, i, ty);
      WriteInode(i, NewInode(ty));
    }

    // iput's window: truncate the inode, mark its record free, forget the copy in memory.
    method FreeInode(ip: nat) returns (r: Result<()>)
      requires Valid() && ip < |inode| && HandleOf(inode, ip) in handles && inode[ip].dev == dev
      requires inode[ip].valid && inode[ip].inum < |t.img.ino|
      modifies `raw, `t, `inode
      ensures r == Done(()) && Valid()
      ensures inode == old(inode)[ip := old(inode)[ip].(valid := false, d := Emptied(old(inode)[ip].d))]
      ensures Freed(old(t), t, old(inode)[ip].inum, old(inode)[ip].d)
    {
      ghost var i, t0, slots := inode[ip].inum, t, inode;
      HandleGood(inode, handles, dev, t.img.ino, ip);
      assert Cur(t, inode[ip]) == t;
      r := Itrunc(ip);
      inode := inode[ip := inode[ip].(d := inode[ip].d.(ty := 0))];
      Iupdate(ip);
      inode := inode[ip := inode[ip].(valid := false)];
      assert t == Truncated(t0, t.img.used, i, inode[ip].d);
      FreedKept(DataStart(sb), t0, t.img.used, i, inode[ip].d);
      ChangeKeepsOk(slots, handles, dev, t0.img.ino, t.img.ino, ip, inode[ip]);
      assert inode == slots[ip := inode[ip]];
    }

    // The count falls by one.
    method DropRef(ip: nat)
      requires CacheOk(inode, handles, dev, t.img.ino) && ip < |inode| && HandleOf(inode, ip) in handles
      requires inode[ip].locked ==> inode[ip].ref > 1
      modifies `inode, `handles
      ensures CacheOk(inode, handles, dev, t.img.ino)
      ensures handles == old(handles) - multiset{HandleOf(old(inode), ip)} && old(inode)[ip].ref > 0
      ensures inode == old(inode)[ip := old(inode)[ip].(ref := old(inode)[ip].ref - 1)]
    {
      HandleGood(inode, handles, dev, t.img.ino, ip);
      ghost var h := HandleOf(inode, ip);
      ChangeKeepsOk(inode, handles, dev, t.img.ino, t.img.ino, ip, inode[ip].(ref := inode[ip].ref - 1));
      assert handles - multiset{h} == handles[h := inode[ip].ref - 1];
      handles := handles - multiset{h};
      inode := inode[ip := inode[ip].(ref := inode[ip].ref - 1)];
    }

    // Give one handle back. With the last one of an inode that is read in and has no name,
    // its blocks and its record become free.
    method Iput(ip: nat) returns (r: Result<()>)
      requires Valid() && ip < |inode| && HandleOf(inode, ip) in handles && inode[ip].dev == dev
      requires inode[ip].locked ==> inode[ip].ref > 1
      modifies `raw, `t, `inode, `handles
      ensures r == Done(()) && Valid()
      ensures handles == old(handles) - multiset{HandleOf(old(inode), ip)} && old(inode)[ip].ref > 0
      ensures var o := old(inode)[ip];
        if LastUnlinked(o)
        then
          && inode == old(inode)[ip := o.(ref := 0, valid := false, d := Emptied(o.d))]
          && Freed(old(t), t, o.inum, o.d)
        else t == old(t) && raw == old(raw) && inode == old(inode)[ip := o.(ref := o.ref - 1)]
      ensures Steps(State(old(inode), old(handles)), IPut(HandleOf(old(inode), ip), LastUnlinked(old(inode)[ip])),
                State(inode, handles))
    {
      HandleGood(inode, handles, dev, t.img.ino, ip);
      PutIs(inode, handles, ip, LastUnlinked(inode[ip]));
      if inode[ip].ref == 1 && inode[ip].valid && inode[ip].d.nlink == 0 {
        r := FreeInode(ip);
      }
      DropRef(ip);
      r := Done(());
    }

    // ---------- inode content ----------

    // A call on a device inode goes to its driver, if there is one.
    function DeviceCall(d: Dinode): (r: Result<int>)
      ensures r == Driver(d.major) || r == Done(-1)
      ensures r == Driver(d.major) <==> d.major < 0x8000 && d.major < |devsw| && devsw[d.major]
    {
      if d.major < 0x8000 && d.major < |devsw| && devsw[d.major] then Driver(d.major) else Done(-1)
    }

    // One round of readi: the bytes up to `next` of the block bmap gives.
    method ReadChunk(ip: nat, off: nat, next: nat) returns (part: seq<byte>)
      requires DiskOk(sb, raw, t) && ip < |inode| && inode[ip].inum < |t.img.ino| &&
        inode[ip].d == t.img.ino[inode[ip].inum]
      requires off < next <= inode[ip].d.size && off % BSIZE + (next - off) <= BSIZE
      modifies `raw, `t, `inode
      ensures unchanged(this) && part == Content(t.img, inode[ip].inum)[off..next]
    {
      ghost var i := inode[ip].inum;
      BlockMapped(DataStart(sb), t, i, off / BSIZE);
      assert Cur(t, inode[ip]) == t;
      var b := Bmap(ip, off / BSIZE);
      BlockBytes(DataStart(sb), t, i, off, next);
      var bp := raw[b.value];
      part := bp[off % BSIZE..off % BSIZE + (next - off)];
    }

    method ReadLoop(ip: nat, off0: nat, end: nat) returns (dst: seq<byte>)
      requires DiskOk(sb, raw, t) && ip < |inode| && inode[ip].inum < |t.img.ino| &&
        inode[ip].d == t.img.ino[inode[ip].inum]
      requires off0 <= end <= inode[ip].d.size
      modifies `raw, `t, `inode
      ensures unchanged(this) && dst == Content(t.img, inode[ip].inum)[off0..end]
    {
      ghost var c := Content(t.img, inode[ip].inum);
      dst := [];
      var off := off0;
      while off < end
        invariant off0 <= off <= end && raw == old(raw) && t == old(t) && inode == old(inode)
        invariant dst == c[off0..off]
      {
        var next := off + Min(end - off, BSIZE - off % BSIZE);
        var part := ReadChunk(ip, off, next);
        JoinSlices(c, off0, off, next);
        dst := dst + part;
        off := next;
      }
    }

    // readi of a file at an offset inside it, cut at the end.
    method ReadUpToEnd(ip: nat, off0: nat, n0: nat) returns (n: nat, dst: seq<byte>)
      requires DiskOk(sb, raw, t) && ip < |inode| && inode[ip].inum < |t.img.ino| &&
        inode[ip].d == t.img.ino[inode[ip].inum]
      requires off0 <= inode[ip].d.size
      modifies `raw, `t, `inode
      ensures unchanged(this) && n == Min(n0, inode[ip].d.size - off0)
      ensures dst == Content(t.img, inode[ip].inum)[off0..off0 + n]
    {
      n := n0;
      if off0 + n > inode[ip].d.size {
        n := inode[ip].d.size - off0;
      }
      dst := ReadLoop(ip, off0, off0 + n);
    }

    // Up to n0 bytes of the file from off0 on.
    method Readi(ip: nat, off0: u32, n0: u32) returns (r: Result<int>, dst: seq<byte>)
      requires Valid() && ip < |inode| && HandleOf(inode, ip) in handles && inode[ip].dev == dev
      requires inode[ip].valid && inode[ip].locked
      modifies `raw, `t, `inode
      ensures unchanged(this) && inode[ip].inum < |t.img.ino| && inode[ip].d == t.img.ino[inode[ip].inum]
      ensures var d := inode[ip].d;
        if d.ty == T_DEV then r == DeviceCall(d)
        else if off0 <= d.size && off0 + n0 < U32 then
          var n := Min(n0, d.size - off0); r == Done(n) && dst == Content(t.img, inode[ip].inum)[off0..off0 + n]
        else r == Done(-1)
    {
      dst := [];
      Wraps(off0, n0);
      HandleGood(inode, handles, dev, t.img.ino, ip);
      if inode[ip].d.ty == T_DEV {
        r := DeviceCall(inode[ip].d);
        return;
      }
      if off0 > inode[ip].d.size || (off0 + n0) % U32 < off0 {
        return Done(-1), [];
      }
      var n;
      n, dst := ReadUpToEnd(ip, off0, n0);
      r := Done(n);
    }

    // The block for the next round of writei, from bmap.
    method MapChunk(ip: nat, off: nat, ghost next: nat, ghost t0: Tree, ghost inode0: seq<Inode>, ghost off0: nat,
                    ghost src: seq<byte>)
      returns (b: Result<u32>)
      requires ip < |inode0| && inode0[ip].inum < |t0.img.ino| &&
        WriteState(sb, raw, t, inode, t0, inode0, ip, off0, off, src)
      requires off < off0 + |src| <= MAXFILE * BSIZE && next == off + Chunk(off0, off, |src|)
      modifies `raw, `t, `inode
      ensures var i := inode0[ip].inum;
        if b.Panic? then b == Panic(OutOfBlocks) && !HasFree(t.img) &&
          TooFew(t0.img.used, t0.img.ino[i].size, off0 + |src|)
        else
          && MappedChunk(t, inode, old(t), old(inode), ip, i, off)
          && b == Done(At(Cur(t, inode[ip]).img, i, PosOf(off / BSIZE)))
          && Budget(t.img.used, Max(t0.img.ino[i].size, next)) == Budget(t0.img.used, t0.img.ino[i].size)
    {
      ghost var i := inode0[ip].inum;
      ChunkMapped(DataStart(sb), Cur(t, inode[ip]), i, off0, off, next, |src|, t0.img.ino[i].size);
      b := Bmap(ip, off / BSIZE);
    }

    // bmap made sure of the block at offset off of inode i, and touched only addresses in memory.
    ghost predicate MappedChunk(t1: Tree, slots1: seq<Inode>, t: Tree, slots: seq<Inode>, ip: nat, i: nat, off: nat)
      reads this
    {
      && Refines(sb, raw, t1.img) && t1.img.ino == t.img.ino && AddrsOnly(slots, slots1, ip)
      && i == slots[ip].inum < |t.img.ino| && off / BSIZE < MAXFILE
      && AfterBmap(DataStart(sb), Cur(t, slots[ip]), Cur(t1, slots1[ip]), i, off / BSIZE,
        BlocksFor(Max(slots[ip].d.size, off)))
    }

    // One round of writei, up to offset `next`: change part of the block bmap gives.
    method WriteChunk(ip: nat, off: nat, part: seq<byte>, ghost next: nat, ghost t0: Tree, ghost inode0: seq<Inode>,
                      ghost off0: nat,
                      ghost src: seq<byte>)
      returns (r: Result<()>)
      requires ip < |inode0| && inode0[ip].inum < |t0.img.ino| &&
        WriteState(sb, raw, t, inode, t0, inode0, ip, off0, off, src)
      requires off < off0 + |src| <= MAXFILE * BSIZE && next == off + Chunk(off0, off, |src|) &&
        part == src[off - off0..next - off0]
      modifies `raw, `t, `inode
      ensures r.Done? || (r == Panic(OutOfBlocks) && !HasFree(t.img) &&
        TooFew(t0.img.used, t0.img.ino[inode0[ip].inum].size, off0 + |src|))
      ensures r.Done? ==> WriteState(sb, raw, t, inode, t0, inode0, ip, off0, next, src)
    {
      ghost var i, o, slots := inode0[ip].inum, Cur(t, inode[ip]), inode;
      var b := MapChunk(ip, off, next, t0, inode0, off0, src);
      if b.Panic? {
        return Panic(OutOfBlocks);
      }
      AddrsOnlyTwice(inode0, slots, inode, ip);
      ghost var t1 := Cur(t, inode[ip]);
      WriteStep(DataStart(sb), t0, o, t1, i, off0, off, next, src, part);
      assert At(t1.img, i, PosOf(off / BSIZE)) in t1.owner;
      WriteBlock(b.value, Patch(raw[b.value], off % BSIZE, part));
      assert Cur(t, inode[ip]) == Rewritten(t1, i, off, part);
      r := Done(());
    }

    method WriteLoop(ip: nat, off0: nat, src: seq<byte>, ghost t0: Tree, ghost inode0: seq<Inode>)
      returns (r: Result<()>)
      requires ip < |inode0| && inode0[ip].inum < |t0.img.ino| &&
        WriteState(sb, raw, t, inode, t0, inode0, ip, off0, off0, src)
      requires off0 + |src| <= MAXFILE * BSIZE
      modifies `raw, `t, `inode
      ensures r.Done? || (r == Panic(OutOfBlocks) && !HasFree(t.img))
      ensures r.Panic? <==> TooFew(t0.img.used, t0.img.ino[inode0[ip].inum].size, off0 + |src|)
      ensures r.Done? ==> WriteState(sb, raw, t, inode, t0, inode0, ip, off0, off0 + |src|, src)
    {
      var off: nat := off0;
      while off < off0 + |src|
        invariant off0 <= off <= off0 + |src|
        invariant WriteState(sb, raw, t, inode, t0, inode0, ip, off0, off, src)
      {
        var next := off + Chunk(off0, off, |src|);
        r := WriteChunk(ip, off, src[off - off0..next - off0], next, t0, inode0, off0, src);
        if r.Panic? { return; }
        off := next;
      }
      assert off == off0 + |src|;
      r := Done(());
    }

    // The end of writei: a file that grew gets its new size, in memory and on disk.
    method FinishWrite(ip: nat, off0: nat, src: seq<byte>, ghost t0: Tree, ghost inode0: seq<Inode>)
      requires ip < |inode0| && inode0[ip].inum < |t0.img.ino| && inode0[ip].d == t0.img.ino[inode0[ip].inum]
      requires WriteState(sb, raw, t, inode, t0, inode0, ip, off0, off0 + |src|, src) && off0 <= inode0[ip].d.size &&
        off0 + |src| < U32
      modifies `raw, `t, `inode
      ensures Refines(sb, raw, t.img)
      ensures WroteBack(DataStart(sb), t0, t, inode0[ip].inum, off0, src)
      ensures inode == inode0[ip := inode0[ip].(d := t.img.ino[inode0[ip].inum])]
    {
      var off := off0 + |src|;
      ghost var i, t1 := inode[ip].inum, Cur(t, inode[ip]);
      ghost var d := inode[ip].d.(size := Max(inode[ip].d.size, off));
      WritingDone(DataStart(sb), t0, t1, i, off0, src, d);
      if |src| > 0 && off > inode[ip].d.size {
        inode := inode[ip := inode[ip].(d := inode[ip].d.(size := off))];
        Iupdate(ip);
      }
      assert t == Tree(WithInode(t1.img, i, d), t1.owner);
    }

    // Write src into the file at off0. Running out of blocks half-way is a panic, and happens
    // exactly if fewer are free than the write needs.
    method Writei(ip: nat, src: seq<byte>, off0: u32) returns (r: Result<int>)
      requires Valid() && ip < |inode| && HandleOf(inode, ip) in handles && inode[ip].dev == dev
      requires inode[ip].valid && inode[ip].locked && |src| < U32
      modifies `raw, `t, `inode
      ensures var d := old(inode)[ip].d;
        if d.ty == T_DEV then r == DeviceCall(d)
        else if off0 <= d.size && off0 + |src| < U32 && off0 + |src| <= MAXFILE * BSIZE then
          r == if TooFew(old(t).img.used, d.size, off0 + |src|) then Panic(OutOfBlocks) else Done(|src|)
        else r == Done(-1)
      ensures r.Panic? ==> !HasFree(t.img)
      ensures old(inode)[ip].d.ty == T_DEV || r == Done(-1) ==> unchanged(this)
      ensures old(inode)[ip].d.ty != T_DEV && r == Done(|src|) ==>
        Valid() && WriteEffect(old(t), t, old(inode), inode, ip, off0, src)
    {
      Wraps(off0, |src|);
      HandleGood(inode, handles, dev, t.img.ino, ip);
      if inode[ip].d.ty == T_DEV {
        r := DeviceCall(inode[ip].d);
        return;
      }
      if off0 > inode[ip].d.size || (off0 + |src|) % U32 < off0 {
        return Done(-1);
      }
      if off0 + |src| > MAXFILE * BSIZE {
        return Done(-1);
      }
      r := WriteInRange(ip, src, off0);
    }

    method WriteInRange(ip: nat, src: seq<byte>, off0: u32) returns (r: Result<int>)
      requires Valid() && ip < |inode| && HandleOf(inode, ip) in handles && inode[ip].dev == dev && inode[ip].valid
      requires off0 <= inode[ip].d.size && off0 + |src| <= MAXFILE * BSIZE
      modifies `raw, `t, `inode
      ensures r == if TooFew(old(t).img.used, old(inode)[ip].d.size, off0 + |src|) then Panic(OutOfBlocks)
        else Done(|src|)
      ensures r.Panic? ==> !HasFree(t.img)
      ensures r.Done? ==> Valid() && WriteEffect(old(t), t, old(inode), inode, ip, off0, src)
    {
      HandleGood(inode, handles, dev, t.img.ino, ip);
      ghost var t0, slots, i := t, inode, inode[ip].inum;
      assert Cur(t, inode[ip]) == t;
      WritingStarts(DataStart(sb), t, i, off0, src);
      var w := WriteLoop(ip, off0, src, t0, slots);
      if w.Panic? {
        return Panic(OutOfBlocks);
      }
      FinishWrite(ip, off0, src, t0, slots);
      AllKept(DataStart(sb), t0, t, i);
      ChangeKeepsOk(slots, handles, dev, t0.img.ino, t.img.ino, ip, inode[ip]);
      assert inode == slots[ip := inode[ip]];
      r := Done(|src|);
    }
  }
}
