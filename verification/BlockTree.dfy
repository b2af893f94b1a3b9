/** Who owns which block. An inode reaches blocks through 141 positions: twelve direct
    addresses, the indirect block's own address, and the 128 entries inside it
    (fs.c:344-382). `owner` is the inverse of that: it sends every allocated data block to
    the one position that holds it. Its existence is what rules out sharing and leaks. */
module BlockTree {
  import opened Layout

  const INDIRECT := 12
  const POSITIONS := 141

  datatype Pos = Pos(i: nat, p: nat)
  datatype Tree = Tree(img: Image, owner: map<nat, Pos>)

  // The block number stored at position p of an inode, 0 for none.
  function BlockAt(d: Dinode, ptr: seq<Pointers>, p: nat): u32
    requires p < POSITIONS
  {
    if p <= INDIRECT then d.addrs[p]
    else if d.addrs[INDIRECT] == 0 || |ptr| <= d.addrs[INDIRECT] then 0
    else ptr[d.addrs[INDIRECT]][p - 13]
  }

  function At(img: Image, i: nat, p: nat): u32
    requires i < |img.ino| && p < POSITIONS
  {
    BlockAt(img.ino[i], img.ptr, p)
  }

  // Position of the n-th block of a file.
  function PosOf(bn: nat): nat { if bn < NDIRECT then bn else bn + 1 }

  // `owner` inverts `At`, and the bitmap is exactly its domain plus the metadata below lo.
  ghost predicate Good(lo: nat, t: Tree) {
    && 0 < lo <= |t.img.used| == |t.img.blk| == |t.img.ptr| < U32
    && (forall i, p {:trigger At(t.img, i, p)} :: 0 <= i < |t.img.ino| && 0 <= p < POSITIONS && At(t.img, i, p) != 0 ==>
          At(t.img, i, p) in t.owner && t.owner[At(t.img, i, p)] == Pos(i, p))
    && (forall b {:trigger t.owner[b]} :: b in t.owner ==>
          lo <= b < |t.img.used| && t.owner[b].i < |t.img.ino| && t.owner[b].p < POSITIONS &&
            At(t.img, t.owner[b].i, t.owner[b].p) == b)
    && (forall b {:trigger t.img.used[b]} :: 0 <= b < |t.img.used| ==> (t.img.used[b] <==> b < lo || b in t.owner))
    && (forall b {:trigger Words(t.img.blk[b])} :: lo <= b < |t.img.blk| ==> t.img.ptr[b] == Words(t.img.blk[b]))
  }

  // No two positions of any inodes hold the same block, and the bits set above the metadata
  // are exactly the blocks held somewhere.
  lemma NoSharingNoLeak(lo: nat, t: Tree)
    requires Good(lo, t)
    ensures forall i, p, j, q | 0 <= i < |t.img.ino| && 0 <= p < POSITIONS && 0 <= j < |t.img.ino| && 0 <= q < POSITIONS
              :: At(t.img, i, p) != 0 && At(t.img, i, p) == At(t.img, j, q) ==> i == j && p == q
    ensures forall b | lo <= b < |t.img.used|
              :: t.img.used[b] <==> exists i, p :: 0 <= i < |t.img.ino| && 0 <= p < POSITIONS && At(t.img, i, p) == b
  {
    forall i, p, j, q | 0 <= i < |t.img.ino| && 0 <= p < POSITIONS && 0 <= j < |t.img.ino| && 0 <= q < POSITIONS &&
                        At(t.img, i, p) != 0 && At(t.img, i, p) == At(t.img, j, q)
      ensures i == j && p == q
    {
      assert t.owner[At(t.img, i, p)] == Pos(i, p) && t.owner[At(t.img, j, q)] == Pos(j, q);
    }
    forall b | lo <= b < |t.img.used|
      ensures t.img.used[b] <==> exists i, p :: 0 <= i < |t.img.ino| && 0 <= p < POSITIONS && At(t.img, i, p) == b
    {
      if t.img.used[b] {
        assert At(t.img, t.owner[b].i, t.owner[b].p) == b;
      }
    }
  }

  // ---------- changes of the image ----------

  ghost function WithInode(img: Image, i: nat, d: Dinode): Image
    requires i < |img.ino|
  {
    Image(img.used, img.ino[i := d], img.blk, img.ptr)
  }

  // balloc's effect: the bit is set and the block is zeroed.
  ghost function Allocated(img: Image, b: nat): Image
    requires b < |img.used| == |img.blk| == |img.ptr|
  {
    Image(img.used[b := true], img.ino, img.blk[b := ZeroBlock()], img.ptr[b := Words(ZeroBlock())])
  }

  ghost function WithBlock(img: Image, b: nat, data: Block): Image
    requires b < |img.blk| == |img.ptr|
  {
    Image(img.used, img.ino, img.blk[b := data], img.ptr[b := Words(data)])
  }

  // The lowest free block, or the number of blocks if there is none.
  function FirstFree(used: seq<bool>): (b: nat)
    ensures b <= |used| && (b < |used| ==> !used[b])
    ensures forall c :: 0 <= c < b ==> used[c]
  {
    if used == [] || !used[0] then 0
    else
      assert forall c :: 0 < c < |used| ==> used[c] == used[1..][c - 1];
      1 + FirstFree(used[1..])
  }

  lemma FirstFreeIs(used: seq<bool>, b: nat)
    requires b <= |used| && (b < |used| ==> !used[b]) && forall c :: 0 <= c < b ==> used[c]
    ensures FirstFree(used) == b
  {}

  predicate HasFree(img: Image) { FirstFree(img.used) < |img.used| }

  // How many blocks are free.
  function FreeCount(used: seq<bool>): nat {
    if used == [] then 0 else (if used[0] then 0 else 1) + FreeCount(used[1..])
  }

  lemma {:induction false} TakeFirstFree(used: seq<bool>)
    ensures FreeCount(used) > 0 <==> FirstFree(used) < |used|
    ensures FirstFree(used) < |used| ==> FreeCount(used[FirstFree(used) := true]) == FreeCount(used) - 1
  {
    if used != [] && used[0] {
      TakeFirstFree(used[1..]);
      if FirstFree(used) < |used| {
        assert used[FirstFree(used) := true][1..] == used[1..][FirstFree(used[1..]) := true];
      }
    } else if used != [] {
      assert used[0 := true][1..] == used[1..];
    }
  }

  // Position p of inode i now holds b; every other position is as it was.
  ghost predicate Stored(o: Image, n: Image, i: nat, p: nat, b: nat) {
    |n.ino| == |o.ino| &&
    forall j, q {:trigger At(n, j, q)} :: 0 <= j < |o.ino| && 0 <= q < POSITIONS ==>
      At(n, j, q) == if j == i && q == p then b else At(o, j, q)
  }

  // Every position is as it was.
  ghost predicate Same(o: Image, n: Image) {
    |n.ino| == |o.ino| &&
    forall j, q {:trigger At(n, j, q)} :: 0 <= j < |o.ino| && 0 <= q < POSITIONS ==> At(n, j, q) == At(o, j, q)
  }

  // Storing a fresh block at an empty position keeps ownership exact.
  lemma GoodAfterStore(lo: nat, t: Tree, img: Image, i: nat, p: nat, b: nat)
    requires Good(lo, t) && i < |t.img.ino| && p < POSITIONS
    requires lo <= b < |t.img.used| && !t.img.used[b] && img.used == t.img.used[b := true]
    requires |img.blk| == |img.ptr| == |t.img.blk|
    requires forall c {:trigger Words(img.blk[c])} :: lo <= c < |img.blk| ==> img.ptr[c] == Words(img.blk[c])
    requires At(t.img, i, p) == 0 && Stored(t.img, img, i, p, b)
    ensures Good(lo, Tree(img, t.owner[b := Pos(i, p)]))
  {}

  // A change that moves no block and sets no bit keeps ownership exact.
  lemma GoodAfterSame(lo: nat, t: Tree, img: Image)
    requires Good(lo, t) && img.used == t.img.used && |img.blk| == |img.ptr| == |t.img.blk|
    requires forall c {:trigger Words(img.blk[c])} :: lo <= c < |img.blk| ==> img.ptr[c] == Words(img.blk[c])
    requires Same(t.img, img)
    ensures Good(lo, Tree(img, t.owner))
  {}

  // A block that is not some inode's indirect block can be rewritten freely.
  lemma SameAfterWrite(lo: nat, t: Tree, b: nat, data: Block)
    requires Good(lo, t) && lo <= b < |t.img.used| && (b in t.owner ==> t.owner[b].p != INDIRECT)
    ensures Same(t.img, WithBlock(t.img, b, data))
  {
    var n := WithBlock(t.img, b, data);
    forall j, q | 0 <= j < |t.img.ino| && 0 <= q < POSITIONS
      ensures At(n, j, q) == At(t.img, j, q)
    {
      assert At(t.img, j, INDIRECT) == t.img.ino[j].addrs[INDIRECT];
    }
  }

  lemma GoodAfterWrite(lo: nat, t: Tree, b: nat, data: Block)
    requires Good(lo, t) && b in t.owner && t.owner[b].p != INDIRECT
    ensures Good(lo, Tree(WithBlock(t.img, b, data), t.owner)) && Same(t.img, WithBlock(t.img, b, data))
  {
    assert lo <= b < |t.img.used| && t.owner[b].p != INDIRECT;
    SameAfterWrite(lo, t, b, data);
    GoodAfterSame(lo, t, WithBlock(t.img, b, data));
  }

  // An inode record replaced without touching its addresses moves no block.
  lemma GoodAfterInode(lo: nat, t: Tree, i: nat, d: Dinode)
    requires Good(lo, t) && i < |t.img.ino| && d.addrs == t.img.ino[i].addrs
    ensures Good(lo, Tree(WithInode(t.img, i, d), t.owner)) && Same(t.img, WithInode(t.img, i, d))
  {
    GoodAfterSame(lo, t, WithInode(t.img, i, d));
  }

  // ---------- bmap ----------

  // The first free block goes into the inode's address p, or into its indirect block for p > 12.
  ghost function Put(lo: nat, t: Tree, i: nat, p: nat): Tree
    requires Good(lo, t) && HasFree(t.img) && i < |t.img.ino| && p < POSITIONS
    requires p > INDIRECT ==> At(t.img, i, INDIRECT) != 0
  {
    var b := FirstFree(t.img.used);
    var img := Allocated(t.img, b);
    var d := t.img.ino[i];
    var owner := t.owner[b := Pos(i, p)];
    if p <= INDIRECT then Tree(WithInode(img, i, d.(addrs := d.addrs[p := b])), owner)
    else
      assert At(t.img, i, INDIRECT) == d.addrs[INDIRECT];
      Tree(WithBlock(img, d.addrs[INDIRECT], SetWord(t.img.blk[d.addrs[INDIRECT]], p - 13, b)), owner)
  }

  // t' is t after inode i got more blocks: what was owned still is, and every block but i's
  // own indirect block keeps its bytes.
  ghost predicate Grown(t: Tree, t': Tree, i: nat) {
    && |t'.img.ino| == |t.img.ino|
    && |t.img.used| == |t.img.blk| == |t.img.ptr| == |t'.img.used| == |t'.img.blk| == |t'.img.ptr|
    && (forall j :: 0 <= j < |t.img.ino| && j != i ==> t'.img.ino[j] == t.img.ino[j])
    && (forall c {:trigger t.owner[c]} :: c in t.owner && c < |t.img.blk| ==>
          c in t'.owner && t'.owner[c] == t.owner[c] &&
          (t.owner[c] != Pos(i, INDIRECT) ==> t'.img.blk[c] == t.img.blk[c] && t'.img.ptr[c] == t.img.ptr[c]))
  }

  lemma PutAddr(lo: nat, t: Tree, i: nat, p: nat)
    requires Good(lo, t) && i < |t.img.ino| && p <= INDIRECT && HasFree(t.img) && At(t.img, i, p) == 0
    ensures var n := Put(lo, t, i, p); Good(lo, n) && Stored(t.img, n.img, i, p, FirstFree(t.img.used))
  {
    var b := FirstFree(t.img.used);
    var n := Put(lo, t, i, p).img;
    SameAfterWrite(lo, t, b, ZeroBlock());
    WordsOfZero();
    forall j, q | 0 <= j < |t.img.ino| && 0 <= q < POSITIONS
      ensures At(n, j, q) == if j == i && q == p then b else At(t.img, j, q)
    {
      assert At(WithBlock(t.img, b, ZeroBlock()), j, q) == At(t.img, j, q);
    }
    GoodAfterStore(lo, t, n, i, p, b);
  }

  lemma PutEntry(lo: nat, t: Tree, i: nat, p: nat)
    requires Good(lo, t) && i < |t.img.ino| && INDIRECT < p < POSITIONS && HasFree(t.img) && At(t.img, i, p) == 0
    requires At(t.img, i, INDIRECT) != 0
    ensures var n := Put(lo, t, i, p); Good(lo, n) && Stored(t.img, n.img, i, p, FirstFree(t.img.used))
  {
    var b := FirstFree(t.img.used);
    var ind := t.img.ino[i].addrs[INDIRECT];
    assert At(t.img, i, INDIRECT) == ind;
    assert t.owner[ind] == Pos(i, INDIRECT);
    var n := Put(lo, t, i, p).img;
    SetWordUpdates(t.img.blk[ind], p - 13, b);
    assert t.img.ptr[ind] == Words(t.img.blk[ind]);
    assert n.ptr[ind] == t.img.ptr[ind][p - 13 := b];
    SameAfterWrite(lo, t, b, ZeroBlock());
    forall j, q | 0 <= j < |t.img.ino| && 0 <= q < POSITIONS
      ensures At(n, j, q) == if j == i && q == p then b else At(t.img, j, q)
    {
      assert At(WithBlock(t.img, b, ZeroBlock()), j, q) == At(t.img, j, q);
      assert At(t.img, j, INDIRECT) == t.img.ino[j].addrs[INDIRECT];
    }
    GoodAfterStore(lo, t, n, i, p, b);
  }

  lemma PutGrown(lo: nat, t: Tree, i: nat, p: nat)
    requires Good(lo, t) && i < |t.img.ino| && p < POSITIONS && HasFree(t.img)
    requires p > INDIRECT ==> At(t.img, i, INDIRECT) != 0
    ensures Grown(t, Put(lo, t, i, p), i)
  {
    if p > INDIRECT {
      assert At(t.img, i, INDIRECT) == t.img.ino[i].addrs[INDIRECT];
      assert t.owner[At(t.img, i, INDIRECT)] == Pos(i, INDIRECT);
    }
  }

  lemma PutGood(lo: nat, t: Tree, i: nat, p: nat)
    requires Good(lo, t) && i < |t.img.ino| && p < POSITIONS && HasFree(t.img) && At(t.img, i, p) == 0
    requires p > INDIRECT ==> At(t.img, i, INDIRECT) != 0
    ensures var n := Put(lo, t, i, p);
      Good(lo, n) && Grown(t, n, i) && Stored(t.img, n.img, i, p, FirstFree(t.img.used))
  {
    PutGrown(lo, t, i, p);
    if p <= INDIRECT {
      PutAddr(lo, t, i, p);
    } else {
      PutEntry(lo, t, i, p);
    }
  }

  // Position p, filled if it was empty and there is a free block for it.
  ghost predicate CanFill(t: Tree, i: nat, p: nat)
    requires i < |t.img.ino| && p < POSITIONS
  {
    At(t.img, i, p) == 0 ==> HasFree(t.img)
  }

  ghost function Filled(lo: nat, t: Tree, i: nat, p: nat): (n: Tree)
    requires Good(lo, t) && i < |t.img.ino| && p < POSITIONS && CanFill(t, i, p)
    requires p > INDIRECT ==> At(t.img, i, INDIRECT) != 0
    ensures Good(lo, n) && |n.img.ino| == |t.img.ino| && At(n.img, i, p) != 0
  {
    if At(t.img, i, p) != 0 then t else PutGood(lo, t, i, p); Put(lo, t, i, p)
  }

  lemma FilledStored(lo: nat, t: Tree, i: nat, p: nat)
    requires Good(lo, t) && i < |t.img.ino| && p < POSITIONS && CanFill(t, i, p)
    requires p > INDIRECT ==> At(t.img, i, INDIRECT) != 0
    ensures var n := Filled(lo, t, i, p);
      && Grown(t, n, i)
      && if At(t.img, i, p) != 0 then n == t else Stored(t.img, n.img, i, p, FirstFree(t.img.used))
  {
    if At(t.img, i, p) == 0 {
      PutGood(lo, t, i, p);
    }
  }

  // bmap on block bn: the indirect block first, if bn needs it.
  ghost predicate CanMap(lo: nat, t: Tree, i: nat, bn: nat)
    requires Good(lo, t) && i < |t.img.ino| && bn < MAXFILE
  {
    if bn < NDIRECT then CanFill(t, i, bn)
    else CanFill(t, i, INDIRECT) && CanFill(Filled(lo, t, i, INDIRECT), i, PosOf(bn))
  }

  ghost function Bmapped(lo: nat, t: Tree, i: nat, bn: nat): (n: Tree)
    requires Good(lo, t) && i < |t.img.ino| && bn < MAXFILE && CanMap(lo, t, i, bn)
  {
    if bn < NDIRECT then Filled(lo, t, i, bn) else Filled(lo, Filled(lo, t, i, INDIRECT), i, PosOf(bn))
  }

  // bmap fills the position of block bn, and the indirect block's if bn lies behind it.
  lemma BmapFills(lo: nat, t: Tree, i: nat, bn: nat)
    requires Good(lo, t) && i < |t.img.ino| && bn < MAXFILE && CanMap(lo, t, i, bn)
    ensures var t' := Bmapped(lo, t, i, bn);
      && Good(lo, t') && Grown(t, t', i)
      && (forall q {:trigger At(t'.img, i, q)}
            | 0 <= q < POSITIONS && q != PosOf(bn) && !(q == INDIRECT && bn >= NDIRECT) ::
            At(t'.img, i, q) == At(t.img, i, q))
      && At(t'.img, i, PosOf(bn)) != 0 && (bn >= NDIRECT ==> At(t'.img, i, INDIRECT) != 0)
      && (At(t.img, i, PosOf(bn)) != 0 ==> At(t'.img, i, PosOf(bn)) == At(t.img, i, PosOf(bn)))
      && (bn >= NDIRECT && At(t.img, i, INDIRECT) != 0 ==> At(t'.img, i, INDIRECT) == At(t.img, i, INDIRECT))
  {
    if bn < NDIRECT {
      FilledStored(lo, t, i, bn);
    } else {
      var t1 := Filled(lo, t, i, INDIRECT);
      FilledStored(lo, t, i, INDIRECT);
      FilledStored(lo, t1, i, PosOf(bn));
      assert At(t1.img, i, PosOf(bn)) == At(t.img, i, PosOf(bn));
      GrownTwice(t, t1, Bmapped(lo, t, i, bn), i);
    }
  }

  // t1 is t after bmap made sure that block bn of inode i, which had n blocks, is there.
  ghost predicate AfterBmap(lo: nat, t: Tree, t1: Tree, i: nat, bn: nat, n: nat) {
    && Good(lo, t) && Good(lo, t1) && Grown(t, t1, i) && i < |t.img.ino| && bn <= n && bn < MAXFILE
    && At(t1.img, i, PosOf(bn)) != 0 && (bn < n ==> t1 == t)
    && Mapped(t.img.ino[i], t.img.ptr, n)
    && Mapped(t1.img.ino[i], t1.img.ptr, if bn < n then n else n + 1)
    && (forall q {:trigger At(t1.img, i, q)} :: 0 <= q < POSITIONS && Needed(q, n) ==>
      At(t1.img, i, q) == At(t.img, i, q))
  }

  // What bmap does for its caller: block bn is there afterwards, nothing happens if it was
  // there before, and a file without holes stays without holes.
  lemma BmapGrows(lo: nat, t: Tree, i: nat, bn: nat, n: nat)
    requires Good(lo, t) && i < |t.img.ino| && bn < MAXFILE && CanMap(lo, t, i, bn)
    requires Mapped(t.img.ino[i], t.img.ptr, n) && bn <= n
    ensures AfterBmap(lo, t, Bmapped(lo, t, i, bn), i, bn, n)
  {
    var t' := Bmapped(lo, t, i, bn);
    BmapFills(lo, t, i, bn);
    assert At(t.img, i, PosOf(bn)) != 0 <==> bn < n;
    assert At(t.img, i, INDIRECT) != 0 <==> n > NDIRECT;
    var d', ptr' := t'.img.ino[i], t'.img.ptr;
    forall q | 0 <= q < POSITIONS
      ensures BlockAt(d', ptr', q) != 0 <==> Needed(q, if bn < n then n else n + 1)
    {
      assert At(t'.img, i, q) == BlockAt(d', ptr', q);
      assert At(t.img, i, q) != 0 <==> Needed(q, n);
    }
    forall q | 0 <= q < POSITIONS && Needed(q, n)
      ensures At(t'.img, i, q) == At(t.img, i, q)
    {
      assert At(t.img, i, q) != 0;
    }
  }

  // Blocks a file of n data blocks holds, its indirect block counted.
  function BlocksHeld(n: nat): nat { if n > NDIRECT then n + 1 else n }

  lemma FillCost(lo: nat, t: Tree, i: nat, p: nat)
    requires Good(lo, t) && i < |t.img.ino| && p < POSITIONS
    requires p > INDIRECT ==> At(t.img, i, INDIRECT) != 0
    ensures CanFill(t, i, p) <==> At(t.img, i, p) != 0 || FreeCount(t.img.used) > 0
    ensures CanFill(t, i, p) ==>
      FreeCount(Filled(lo, t, i, p).img.used) == FreeCount(t.img.used) - (if At(t.img, i, p) == 0 then 1 else 0)
  {
    TakeFirstFree(t.img.used);
  }

  // What bmap on block bn <= n costs a file of n blocks, and that it works exactly if there
  // are that many free blocks: free blocks and the file's own together stay the same.
  lemma BmapCost(lo: nat, t: Tree, i: nat, bn: nat, n: nat)
    requires Good(lo, t) && i < |t.img.ino| && bn < MAXFILE && Mapped(t.img.ino[i], t.img.ptr, n) && bn <= n
    ensures var n' := if bn < n then n else n + 1;
      && (CanMap(lo, t, i, bn) <==> FreeCount(t.img.used) + BlocksHeld(n) >= BlocksHeld(n'))
      && (CanMap(lo, t, i, bn) ==>
            FreeCount(Bmapped(lo, t, i, bn).img.used) + BlocksHeld(n') == FreeCount(t.img.used) + BlocksHeld(n))
  {
    assert At(t.img, i, PosOf(bn)) != 0 <==> bn < n;
    assert At(t.img, i, INDIRECT) != 0 <==> n > NDIRECT;
    if bn < NDIRECT {
      FillCost(lo, t, i, bn);
    } else {
      FillCost(lo, t, i, INDIRECT);
      if CanFill(t, i, INDIRECT) {
        FilledStored(lo, t, i, INDIRECT);
        var t1 := Filled(lo, t, i, INDIRECT);
        assert At(t1.img, i, PosOf(bn)) == At(t.img, i, PosOf(bn));
        FillCost(lo, t1, i, PosOf(bn));
      }
    }
  }

  lemma GrownTwice(t: Tree, t1: Tree, t2: Tree, i: nat)
    requires Grown(t, t1, i) && Grown(t1, t2, i)
    ensures Grown(t, t2, i)
  {}

  // Positions a file of n blocks uses.
  predicate Needed(p: nat, n: nat) {
    if p < NDIRECT then p < n else if p == INDIRECT then n > NDIRECT else p - 1 < n
  }

  // No holes: exactly the first n blocks of the file are mapped.
  ghost predicate Mapped(d: Dinode, ptr: seq<Pointers>, n: nat) {
    n <= MAXFILE && forall p {:trigger BlockAt(d, ptr, p)} :: 0 <= p < POSITIONS ==>
      (BlockAt(d, ptr, p) != 0 <==> Needed(p, n))
  }

  // ---------- truncation ----------

  ghost function Without(owner: map<nat, Pos>, i: nat): map<nat, Pos> {
    map b | b in owner && owner[b].i != i :: owner[b]
  }

  // itrunc frees the direct blocks, then the entries of the indirect block, then that block.
  function Rank(p: nat): nat { if p < INDIRECT then p else if p == INDIRECT then 140 else p - 1 }

  // The bits of exactly the blocks inode i holds at the first k positions in that order are clear.
  ghost predicate Cleared(t: Tree, used: seq<bool>, i: nat, k: nat) {
    |used| == |t.img.used| &&
    forall b :: 0 <= b < |used| ==>
      (used[b] <==> t.img.used[b] && !(b in t.owner && t.owner[b].i == i && Rank(t.owner[b].p) < k))
  }

  // Freeing one more position: its block is still marked in use, and is the only one left at it.
  lemma ClearOne(lo: nat, t: Tree, used: seq<bool>, i: nat, p: nat)
    requires Good(lo, t) && i < |t.img.ino| && p < POSITIONS && Cleared(t, used, i, Rank(p))
    ensures var b := At(t.img, i, p);
      if b == 0 then Cleared(t, used, i, Rank(p) + 1)
      else b < |used| && used[b] && Cleared(t, used[b := false], i, Rank(p) + 1)
  {
    var b := At(t.img, i, p);
    forall c | 0 <= c < |used| && c in t.owner && t.owner[c].i == i && Rank(t.owner[c].p) == Rank(p)
      ensures c == b
    {
      assert t.owner[c].p == p;
    }
    if b != 0 {
      assert t.owner[b] == Pos(i, p);
    }
  }

  // An inode without an indirect block has nothing behind it.
  lemma ClearNoIndirect(lo: nat, t: Tree, used: seq<bool>, i: nat)
    requires Good(lo, t) && i < |t.img.ino| && Cleared(t, used, i, Rank(13)) && At(t.img, i, INDIRECT) == 0
    ensures Cleared(t, used, i, POSITIONS)
  {}

  ghost function Truncated(t: Tree, used: seq<bool>, i: nat, d: Dinode): Tree
    requires i < |t.img.ino|
  {
    Tree(Image(used, t.img.ino[i := d], t.img.blk, t.img.ptr), Without(t.owner, i))
  }

  // Freeing all blocks of inode i and clearing its addresses leaves ownership exact.
  lemma TruncatedGood(lo: nat, t: Tree, used: seq<bool>, i: nat, d: Dinode)
    requires Good(lo, t) && i < |t.img.ino| && d.addrs == NoAddrs() && Cleared(t, used, i, POSITIONS)
    ensures Good(lo, Truncated(t, used, i, d))
    ensures Mapped(d, t.img.ptr, 0)
  {
    var n := Truncated(t, used, i, d);
    forall j, q | 0 <= j < |t.img.ino| && 0 <= q < POSITIONS
      ensures At(n.img, j, q) == if j == i then 0 else At(t.img, j, q)
    {}
    forall c | c in n.owner
      ensures At(n.img, n.owner[c].i, n.owner[c].p) == c
    {
      assert At(t.img, t.owner[c].i, t.owner[c].p) == c;
    }
    forall j, q | 0 <= j < |t.img.ino| && 0 <= q < POSITIONS && At(n.img, j, q) != 0
      ensures At(n.img, j, q) in n.owner && n.owner[At(n.img, j, q)] == Pos(j, q)
    {
      assert At(t.img, j, q) != 0;
    }
    forall b | b in t.owner && t.owner[b].i == i
      ensures Rank(t.owner[b].p) < POSITIONS
    {}
  }
}
