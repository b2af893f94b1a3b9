/** Block allocation and the block tree of the ext2 code (ext2_fs.c): runs of consecutive
    blocks from the bitmap, storing a file's block list in its inode, finding a block again. */
module Ext2 {
  import opened Layout
  import opened Path

  const BLOCK := 1024
  const BITS := 8192
  const DIRECT := 12
  const PER := 256
  const PER2 := 65536
  const PER3 := 16777216
  const IND := 12
  const DIND := 13
  const TIND := 14
  const SLOTS := 15

  type Words = w: seq<u32> | |w| == 256 witness seq(256, _ => 0)

  function NoWords(): Words { seq(256, _ => 0) }

  // ---------- the bitmap ----------

  // Bit k counts from the most significant bit of byte 0.
  predicate Taken(bm: seq<byte>, k: nat)
    requires |bm| == BLOCK && k < BITS
  {
    bm[k / 8] & Mask(7 - k % 8) != 0
  }

  // Block k is digit 7 - k % 8 of byte k / 8 in base two.
  lemma TakenIs(bm: seq<byte>, k: nat)
    requires |bm| == BLOCK && k < BITS
    ensures Taken(bm, k) <==> bm[k / 8] as int / Pow2(7 - k % 8) % 2 == 1
  {
    BinaryDigit(bm[k / 8], 7 - k % 8);
  }

  function Take(bm: seq<byte>, k: nat): (r: seq<byte>)
    requires |bm| == BLOCK && k < BITS
    ensures |r| == BLOCK
  {
    bm[k / 8 := bm[k / 8] | Mask(7 - k % 8)]
  }

  lemma TakeOne(bm: seq<byte>, k: nat, j: nat)
    requires |bm| == BLOCK && k < BITS && j < BITS
    ensures Taken(Take(bm, k), j) == (j == k || Taken(bm, j))
  {
    SamePlace(k, j);
    if j / 8 == k / 8 {
      MasksDiffer(7 - k % 8, 7 - j % 8);
      OneBits(bm[k / 8], Mask(7 - k % 8), Mask(7 - j % 8));
    }
  }

  predicate FreeRun(bm: seq<byte>, j: nat, n: nat)
    requires |bm| == BLOCK
  {
    j + n <= BITS && forall k :: j <= k < j + n ==> !Taken(bm, k)
  }

  // The bits j, ..., j + n - 1 are taken in addition.
  predicate TakenToo(bm: seq<byte>, j: nat, n: nat, bm': seq<byte>)
    requires |bm| == BLOCK && |bm'| == BLOCK
  {
    forall k :: 0 <= k < BITS ==> (Taken(bm', k) <==> Taken(bm, k) || j <= k < j + n)
  }

  predicate LowestRun(bm: seq<byte>, j: nat, n: nat)
    requires |bm| == BLOCK
  {
    FreeRun(bm, j, n) && forall i :: 0 <= i < j ==> !FreeRun(bm, i, n)
  }

  // One call: the lowest run of n free blocks is taken, or there is none and nothing changes.
  predicate Allocates(bm: seq<byte>, n: nat, r: Option<nat>, bm': seq<byte>)
    requires |bm| == BLOCK && |bm'| == BLOCK
  {
    match r
    case Some(j) => n > 0 && LowestRun(bm, j, n) && TakenToo(bm, j, n, bm')
    case None => bm' == bm && (n == 0 || forall i :: 0 <= i < BITS ==> !FreeRun(bm, i, n))
  }

  // A run of calls: maps[i] is the bitmap before call i.
  ghost predicate Calls(maps: seq<seq<byte>>, sizes: seq<nat>, results: seq<Option<nat>>) {
    && |maps| == |sizes| + 1 && |results| == |sizes|
    && (forall i :: 0 <= i < |maps| ==> |maps[i]| == BLOCK)
    && (forall i :: 0 <= i < |sizes| ==> Allocates(maps[i], sizes[i], results[i], maps[i + 1]))
  }

  lemma {:induction false} StaysTaken(maps: seq<seq<byte>>, sizes: seq<nat>, results: seq<Option<nat>>, i: nat,
                                      j: nat, k: nat)
    requires Calls(maps, sizes, results) && i <= j < |maps| && k < BITS && Taken(maps[i], k)
    ensures Taken(maps[j], k)
  {
    if i < j {
      StaysTaken(maps, sizes, results, i, j - 1, k);
      assert Allocates(maps[j - 1], sizes[j - 1], results[j - 1], maps[j]);
    }
  }

  // Over any run of calls no block is handed out twice.
  lemma NoBlockTwice(maps: seq<seq<byte>>, sizes: seq<nat>, results: seq<Option<nat>>, i: nat, j: nat)
    requires Calls(maps, sizes, results) && i < j < |sizes| && results[i].Some? && results[j].Some?
    ensures results[i].value + sizes[i] <= results[j].value || results[j].value + sizes[j] <= results[i].value
  {
    var a, b := results[i].value, results[j].value;
    assert Allocates(maps[i], sizes[i], results[i], maps[i + 1]) &&
      Allocates(maps[j], sizes[j], results[j], maps[j + 1]);
    if b < a + sizes[i] && a < b + sizes[j] {
      var k := if a < b then b else a;
      assert Taken(maps[i + 1], k);
      StaysTaken(maps, sizes, results, i + 1, j, k);
    }
  }

  // The scan for n consecutive free blocks has reached bit `pos` with `consec` free ones before it.
  predicate Scanned(bm: seq<byte>, pos: nat, consec: nat, n: nat)
    requires |bm| == BLOCK
  {
    && consec <= pos <= BITS && consec < n
    && FreeRun(bm, pos - consec, consec)
    && (pos == consec || Taken(bm, pos - consec - 1))
    && (forall j :: 0 <= j <= pos - n ==> !FreeRun(bm, j, n))
  }

  lemma ScanStep(bm: seq<byte>, pos: nat, consec: nat, n: nat)
    requires |bm| == BLOCK && Scanned(bm, pos, consec, n) && pos < BITS
    ensures Taken(bm, pos) ==> Scanned(bm, pos + 1, 0, n)
    ensures !Taken(bm, pos) && consec + 1 < n ==> Scanned(bm, pos + 1, consec + 1, n)
    ensures !Taken(bm, pos) && consec + 1 == n ==>
            FreeRun(bm, pos - consec, n) && forall j :: 0 <= j < pos - consec ==> !FreeRun(bm, j, n)
  {}

  // Sector of the k-th block of the group.
  function Address(begin: u32, k: nat): nat { 2 * k + begin }

  // Blocks of 1024 bytes lie one behind the other, on sectors of 512.
  lemma AddressIs(begin: u32, k: nat)
    ensures 512 * Address(begin, k) == 512 * begin + 1024 * k
  {}

  // The group's sector numbers fit 32 bits; sector 0 is not among them.
  predicate Placed(begin: u32) { 0 < begin && begin + 2 * BITS <= U32 }

  // ---------- the block tree, read ----------

  // Blocks of 256 numbers by sector; one that was never written reads as zeros.
  function ReadWords(disk: map<u32, Words>, a: u32): Words { if a in disk then disk[a] else NoWords() }

  // ext2_block_of_set, its returned location.
  function BlockOfSet(disk: map<u32, Words>, blocks: seq<u32>, i: nat): u32
    requires |blocks| == SLOTS
  {
    if i < DIRECT then blocks[i]
    else if i < DIRECT + PER then
      if blocks[IND] == 0 then 0 else ReadWords(disk, blocks[IND])[i - DIRECT]
    else if i < DIRECT + PER + PER2 then
      var offset := i - (DIRECT + PER);
      if blocks[DIND] == 0 then 0 else
      var single := ReadWords(disk, blocks[DIND])[offset / PER];
      if single == 0 then 0 else ReadWords(disk, single)[offset % PER]
    else if i < DIRECT + PER + PER2 + PER3 then
      var offset := i - (DIRECT + PER + PER2);
      if blocks[TIND] == 0 then 0 else
      var double := ReadWords(disk, blocks[TIND])[offset / PER2];
      if double == 0 then 0 else
      var single := ReadWords(disk, double)[offset % PER2 / PER];
      if single == 0 then 0 else ReadWords(disk, single)[offset % PER2 % PER]
    else 0
  }

  // A path of the tree: a slot of the inode, then one of 256 slots per level below it.
  predicate IsPath(p: seq<nat>) {
    && 0 < |p| <= 4
    && (|p| == 1 ==> p[0] < DIRECT)
    && (|p| > 1 ==> p[0] == IND + |p| - 2)
    && (forall k :: 1 <= k < |p| ==> p[k] < PER)
  }

  // The number of the block at the end of a path, by radix 256.
  function Digits256(p: seq<nat>): nat
  {
    if p == [] then 0 else PER * Digits256(p[..|p| - 1]) + p[|p| - 1]
  }

  function NumberOf(p: seq<nat>): nat
    requires IsPath(p)
  {
    match |p|
    case 1 => p[0]
    case 2 => DIRECT + Digits256(p[1..])
    case 3 => DIRECT + PER + Digits256(p[1..])
    case _ => DIRECT + PER + PER2 + Digits256(p[1..])
  }

  // Down a path; a zero anywhere means there is no block.
  function Descend(disk: map<u32, Words>, a: u32, p: seq<nat>): u32
    requires forall k :: 0 <= k < |p| ==> p[k] < PER
    decreases |p|
  {
    if a == 0 || p == [] then a else Descend(disk, ReadWords(disk, a)[p[0]], p[1..])
  }

  function PathOf(i: nat): (p: seq<nat>)
    requires i < DIRECT + PER + PER2 + PER3
  {
    if i < DIRECT then [i]
    else if i < DIRECT + PER then [IND, i - DIRECT]
    else if i < DIRECT + PER + PER2 then
      var o := i - DIRECT - PER; [DIND, o / PER, o % PER]
    else
      var o := i - DIRECT - PER - PER2; [TIND, o / PER2, o % PER2 / PER, o % PER]
  }

  lemma OneDigit(a: nat)
    ensures Digits256([a]) == a
  {}

  lemma TwoDigits(a: nat, b: nat)
    requires a < PER && b < PER
    ensures Digits256([a, b]) == PER * a + b < PER2
    ensures (PER * a + b) / PER == a && (PER * a + b) % PER == b
  {
    OneDigit(a);
    assert [a, b][..1] == [a];
  }

  lemma ThreeDigits(a: nat, b: nat, c: nat)
    requires a < PER && b < PER && c < PER
    ensures Digits256([a, b, c]) == PER2 * a + PER * b + c < PER3
    ensures var o := PER2 * a + PER * b + c; o / PER2 == a && o % PER2 / PER == b && o % PER == c && o % PER2 % PER == c
  {
    TwoDigits(a, b);
    assert [a, b, c][..2] == [a, b];
    assert (PER2 * a + PER * b + c) % PER2 == PER * b + c;
    TwoDigits(b, c);
  }

  lemma TripleDigits(o: nat)
    requires o < PER3
    ensures o / PER2 < PER && o % PER2 / PER < PER && o % PER2 % PER == o % PER
    ensures o == PER2 * (o / PER2) + PER * (o % PER2 / PER) + o % PER
  {
    assert o % PER2 % PER == o % PER;
  }

  // Every path of the tree has one number in range, and that number leads back to the path.
  lemma EveryPathHit(p: seq<nat>)
    requires IsPath(p)
    ensures NumberOf(p) < DIRECT + PER + PER2 + PER3 && PathOf(NumberOf(p)) == p
  {
    if |p| == 1 {
    } else if |p| == 2 {
      OneDigit(p[1]);
      assert p[1..] == [p[1]];
      assert p == [IND, p[1]];
    } else if |p| == 3 {
      TwoDigits(p[1], p[2]);
      assert p[1..] == [p[1], p[2]];
      assert p == [DIND, p[1], p[2]];
    } else {
      ThreeDigits(p[1], p[2], p[3]);
      assert p[1..] == [p[1], p[2], p[3]];
      assert p == [TIND, p[1], p[2], p[3]];
    }
  }

  // Every number in range has a path of in-bounds slots whose number it is (so distinct numbers
  // have distinct paths).
  lemma EveryNumberHasPath(i: nat)
    requires i < DIRECT + PER + PER2 + PER3
    ensures IsPath(PathOf(i)) && NumberOf(PathOf(i)) == i
  {
    var p := PathOf(i);
    if |p| == 2 {
      OneDigit(p[1]);
      assert p[1..] == [p[1]];
    } else if |p| == 3 {
      TwoDigits(p[1], p[2]);
      assert p[1..] == [p[1], p[2]];
    } else if |p| == 4 {
      TripleDigits(i - DIRECT - PER - PER2);
      ThreeDigits(p[1], p[2], p[3]);
      assert p[1..] == [p[1], p[2], p[3]];
    }
  }

  lemma DescendOne(disk: map<u32, Words>, a: u32, x: nat)
    requires x < PER
    ensures Descend(disk, a, [x]) == if a == 0 then 0 else ReadWords(disk, a)[x]
  {}

  lemma DescendTwo(disk: map<u32, Words>, a: u32, x: nat, y: nat)
    requires x < PER && y < PER
    ensures Descend(disk, a, [x, y]) ==
            if a == 0 then 0
            else if ReadWords(disk, a)[x] == 0 then 0
            else ReadWords(disk, ReadWords(disk, a)[x])[y]
  {
    assert [x, y][1..] == [y];
    DescendOne(disk, ReadWords(disk, a)[x], y);
  }

  // The four branches are the descent of the number's path.
  lemma LookupIsDescent(disk: map<u32, Words>, blocks: seq<u32>, i: nat)
    requires |blocks| == SLOTS && i < DIRECT + PER + PER2 + PER3
    ensures IsPath(PathOf(i))
    ensures BlockOfSet(disk, blocks, i) == Descend(disk, blocks[PathOf(i)[0]], PathOf(i)[1..])
  {
    EveryNumberHasPath(i);
    var p := PathOf(i);
    var a := blocks[p[0]];
    if |p| == 2 {
      assert p[1..] == [p[1]];
      DescendOne(disk, a, p[1]);
    } else if |p| == 3 {
      assert p[1..] == [p[1], p[2]];
      DescendTwo(disk, a, p[1], p[2]);
    } else if |p| == 4 {
      var o := i - DIRECT - PER - PER2;
      assert o % PER2 % PER == o % PER;
      assert p[1..] == [p[1], p[2], p[3]] && p[1..][1..] == [p[2], p[3]];
      DescendTwo(disk, ReadWords(disk, a)[p[1]], p[2], p[3]);
    }
  }

  // ---------- the group, changed in place ----------

  // The disk after n blocks from the j-th on have been cleared.
  predicate Cleared(disk: map<u32, Words>, begin: u32, j: nat, n: nat, disk': map<u32, Words>)
    requires Placed(begin) && j + n <= BITS
  {
    forall a: u32 :: ReadWords(disk', a) == if InRun(begin, j, n, a) then NoWords() else ReadWords(disk, a)
  }

  predicate InRun(begin: u32, j: nat, n: nat, a: u32) {
    Address(begin, j) <= a < Address(begin, j + n) && (a - begin) % 2 == 0
  }

  // The write of n zeroed blocks as one big chunk.
  function ClearBlocks(disk: map<u32, Words>, sector: nat, n: nat): map<u32, Words>
    requires sector + 2 * n <= U32
  {
    if n == 0 then disk else ClearBlocks(disk, sector, n - 1)[sector + 2 * (n - 1) := NoWords()]
  }

  lemma {:induction false} ClearedOk(disk: map<u32, Words>, begin: u32, j: nat, n: nat)
    requires Placed(begin) && j + n <= BITS
    ensures Cleared(disk, begin, j, n, ClearBlocks(disk, Address(begin, j), n))
  {
    if n > 0 {
      ClearedOk(disk, begin, j, n - 1);
      var before, after, last := ClearBlocks(disk, Address(begin, j), n - 1), ClearBlocks(disk, Address(begin, j), n),
        Address(begin, j + n - 1);
      assert (last - begin) % 2 == 0;
      forall a: u32
        ensures ReadWords(after, a) == if InRun(begin, j, n, a) then NoWords() else ReadWords(disk, a)
      {
        assert InRun(begin, j, n, a) <==> InRun(begin, j, n - 1, a) || a == last;
        assert ReadWords(after, a) == if a == last then NoWords() else ReadWords(before, a);
      }
    }
  }

  // ---------- the block tree, written ----------

  // A block of the group that has been handed out, and its sector.
  predicate Given(bm: seq<byte>, begin: u32, k: nat, a: u32)
    requires |bm| == BLOCK
  {
    k < BITS && Taken(bm, k) && a == Address(begin, k)
  }

  predicate Full(bm: seq<byte>)
    requires |bm| == BLOCK
  {
    forall k :: 0 <= k < BITS ==> Taken(bm, k)
  }

  lemma NoRunOfOne(bm: seq<byte>)
    requires |bm| == BLOCK && forall i :: 0 <= i < BITS ==> !FreeRun(bm, i, 1)
    ensures Full(bm)
  {
    forall k | 0 <= k < BITS
      ensures Taken(bm, k)
    {
      assert !FreeRun(bm, k, 1);
    }
  }

  // Only what is at sector a may differ.
  predicate SameBut(disk: map<u32, Words>, disk': map<u32, Words>, a: u32) {
    forall b: u32 {:trigger ReadWords(disk', b)} :: b != a ==> ReadWords(disk', b) == ReadWords(disk, b)
  }

  // ---------- what a run of calls has handed out ----------

  predicate IsNew(begin: u32, got: seq<nat>, a: u32) { exists i :: 0 <= i < |got| && a == Address(begin, got[i]) }

  // The blocks of `got` were free, are pairwise distinct, and are taken now; no other bit changed,
  // and every sector that is not one of theirs reads as before.
  ghost predicate Grew(bm: seq<byte>, disk: map<u32, Words>, bm': seq<byte>, disk': map<u32, Words>, begin: u32,
                       got: seq<nat>)
    requires |bm| == BLOCK && |bm'| == BLOCK
  {
    && (forall i :: 0 <= i < |got| ==> got[i] < BITS && !Taken(bm, got[i]))
    && (forall i, j :: 0 <= i < j < |got| ==> got[i] != got[j])
    && (forall k :: 0 <= k < BITS ==> (Taken(bm', k) <==> Taken(bm, k) || k in got))
    && (forall a: u32 {:trigger ReadWords(disk', a)} ::
          IsNew(begin, got, a) || ReadWords(disk', a) == ReadWords(disk, a))
  }

  lemma GrewOne(bm: seq<byte>, disk: map<u32, Words>, bm': seq<byte>, disk': map<u32, Words>, begin: u32, k: nat)
    requires |bm| == BLOCK && |bm'| == BLOCK && Placed(begin)
    requires k < BITS && !Taken(bm, k) && TakenToo(bm, k, 1, bm') && SameBut(disk, disk', Address(begin, k))
    ensures Grew(bm, disk, bm', disk', begin, [k])
  {
    forall a: u32
      ensures IsNew(begin, [k], a) || ReadWords(disk', a) == ReadWords(disk, a)
    {
      if a == Address(begin, k) {
        assert a == Address(begin, [k][0]);
      }
    }
  }

  // What is handed out later is distinct from what was handed out before.
  lemma GrewTwice(bm: seq<byte>, disk: map<u32, Words>, bm1: seq<byte>, disk1: map<u32, Words>, got1: seq<nat>,
                  bm2: seq<byte>, disk2: map<u32, Words>, got2: seq<nat>, begin: u32)
    requires |bm| == BLOCK && |bm1| == BLOCK && |bm2| == BLOCK
    requires Grew(bm, disk, bm1, disk1, begin, got1) && Grew(bm1, disk1, bm2, disk2, begin, got2)
    ensures Grew(bm, disk, bm2, disk2, begin, got1 + got2)
  {
    var got := got1 + got2;
    forall i, j | 0 <= i < j < |got|
      ensures got[i] != got[j]
    {
      if i < |got1| <= j {
        assert got1[i] in got1 && Taken(bm1, got1[i]) && !Taken(bm1, got2[j - |got1|]);
      }
    }
    forall a: u32
      ensures IsNew(begin, got, a) || ReadWords(disk2, a) == ReadWords(disk, a)
    {
      NewInEither(begin, got1, got2, a);
      assert IsNew(begin, got2, a) || ReadWords(disk2, a) == ReadWords(disk1, a);
      assert IsNew(begin, got1, a) || ReadWords(disk1, a) == ReadWords(disk, a);
    }
  }

  lemma NewInEither(begin: u32, got1: seq<nat>, got2: seq<nat>, a: u32)
    ensures IsNew(begin, got1 + got2, a) <==> IsNew(begin, got1, a) || IsNew(begin, got2, a)
  {
    var got := got1 + got2;
    if i :| 0 <= i < |got1| && a == Address(begin, got1[i]) {
      assert a == Address(begin, got[i]);
    }
    if i :| 0 <= i < |got2| && a == Address(begin, got2[i]) {
      assert a == Address(begin, got[|got1| + i]);
    }
  }

  // Writing a block that was just handed out.
  lemma GrewWrite(bm: seq<byte>, disk: map<u32, Words>, bm': seq<byte>, disk': map<u32, Words>, begin: u32,
                  got: seq<nat>,
                  i: nat, a: u32, data: Words)
    requires |bm| == BLOCK && |bm'| == BLOCK && Grew(bm, disk, bm', disk', begin, got)
    requires i < |got| && a == Address(begin, got[i])
    ensures Grew(bm, disk, bm', disk'[a := data], begin, got)
  {
    forall b: u32
      ensures IsNew(begin, got, b) || ReadWords(disk'[a := data], b) == ReadWords(disk, b)
    {
      assert IsNew(begin, got, b) || ReadWords(disk', b) == ReadWords(disk, b);
    }
  }

  // So a block in use keeps its content and stays in use.
  lemma InUseKept(bm: seq<byte>, disk: map<u32, Words>, bm': seq<byte>, disk': map<u32, Words>, begin: u32,
                  got: seq<nat>, k: nat)
    requires |bm| == BLOCK && |bm'| == BLOCK && Placed(begin) && Grew(bm, disk, bm', disk', begin, got)
    requires k < BITS && Taken(bm, k)
    ensures Taken(bm', k) && k !in got && ReadWords(disk', Address(begin, k)) == ReadWords(disk, Address(begin, k))
  {
    assert !IsNew(begin, got, Address(begin, k));
  }

  // ---------- the doubly indirect part ----------

  // The first rows of a doubly indirect block: row r is a block of its own, holding 256 of the
  // locations from number 12 + 256r on.
  predicate Row(disk: map<u32, Words>, a: u32, locs: seq<u32>, rest: nat, r: nat)
    requires DIRECT + rest <= |locs|
  {
    forall c :: 0 <= c < PER && PER * r + c < rest ==> ReadWords(disk, a)[c] == locs[DIRECT + PER * r + c]
  }

  ghost predicate Rows(disk: map<u32, Words>, bm: seq<byte>, begin: u32, others: set<nat>,
                       data: Words, at: seq<nat>, locs: seq<u32>, rest: nat)
    requires |bm| == BLOCK && DIRECT + rest <= |locs|
  {
    && |at| <= PER
    && (forall r :: 0 <= r < |at| ==> Given(bm, begin, at[r], data[r]) && at[r] !in others)
    && (forall r :: 0 <= r < |at| ==> Row(disk, data[r], locs, rest, r))
  }

  class Group {
    const begin: u32
    const bits: array<byte>
    // The block of the disk that holds the bitmap, and the group's other blocks.
    var saved: seq<byte>
    var disk: map<u32, Words>

    // The bitmap is read once and then kept in memory.
    constructor (begin: u32, saved: seq<byte>, disk: map<u32, Words>)
      requires Placed(begin) && |saved| == BLOCK
      ensures Valid() && this.begin == begin && this.saved == saved && this.disk == disk && fresh(bits)
    {
      this.begin, this.saved, this.disk := begin, saved, disk;
      bits := new byte[BLOCK](i requires 0 <= i < BLOCK => saved[i]);
      new;
      assert bits[..] == saved;
    }

    predicate Shape()
      reads this
    {
      bits.Length == BLOCK && Placed(begin)
    }

    // Between calls, the bitmap on the disk is the one in memory.
    predicate Valid()
      reads this, bits
    {
      Shape() && saved == bits[..]
    }

    // Going backwards from the last bit of the run: take each block and note its sector.
    method TakeBackwards(start: nat, n: nat) returns (output: array<u32>)
      requires Shape() && 0 < n && start + n <= BITS
      modifies bits
      ensures TakenToo(old(bits[..]), start, n, bits[..])
      ensures fresh(output) && output.Length == n
      ensures forall i :: 0 <= i < n ==> output[i] == Address(begin, start + i)
    {
      output := new u32[n];
      var off, bitOff, consec := (start + n - 1) / 8, (start + n - 1) % 8, n;
      ghost var k := start + n;
      while consec > 0
        invariant 0 <= consec <= n && 0 <= bitOff < 8 && 8 * off + bitOff + 1 == start + consec == k
        invariant TakenToo(old(bits[..]), k, n - consec, bits[..])
        invariant forall i :: consec <= i < n ==> output[i] == Address(begin, start + i)
      {
        k := k - 1;
        TakeOneMore(old(bits[..]), k, n - consec, bits[..]);
        TakeIs(bits[..], k, off, bitOff);
        bits[off] := bits[off] | Mask(7 - bitOff);
        output[consec - 1] := Address(begin, 8 * off + bitOff);
        bitOff := bitOff - 1;
        if bitOff < 0 {
          bitOff, off := 7, off - 1;
        }
        consec := consec - 1;
      }
    }

    // The two loops of the search: the last bit of the first run of n free ones.
    method FindRun(n: nat) returns (found: bool, off: nat, bitOff: nat)
      requires Shape() && 0 < n
      ensures found ==> off < BLOCK && bitOff < 8 && n <= 8 * off + bitOff + 1
      ensures found ==> LowestRun(bits[..], 8 * off + bitOff + 1 - n, n)
      ensures !found ==> forall j :: 0 <= j < BITS ==> !FreeRun(bits[..], j, n)
    {
      ghost var bm, j := bits[..], 0;
      var consec := 0;
      off := 0;
      while off < BLOCK
        invariant 0 <= off <= BLOCK && j == 8 * off && Scanned(bm, j, consec, n)
      {
        bitOff := 0;
        while bitOff < 8
          invariant 0 <= bitOff <= 8 && j == 8 * off + bitOff && Scanned(bm, j, consec, n)
        {
          BitAt(bm, off, bitOff);
          ScanStep(bm, j, consec, n);
          if bits[off] & Mask(7 - bitOff) == 0 {
            consec := consec + 1;
          } else {
            consec := 0;
          }
          if consec == n {
            return true, off, bitOff;
          }
          bitOff, j := bitOff + 1, j + 1;
        }
        off := off + 1;
      }
      return false, 0, 0;
    }

    // ext2_format_block_bitmap on the bitmap held in memory, which is written to its block.
    method FormatBlockBitmap(n: nat) returns (output: array?<u32>, ghost start: Option<nat>)
      requires Valid()
      modifies this, bits
      ensures Valid()
      ensures Allocates(old(bits[..]), n, start, bits[..])
      ensures start == None <==> output == null
      ensures output == null ==> disk == old(disk)
      ensures output != null ==>
        && fresh(output) && output.Length == n
        && (forall i :: 0 <= i < n ==> output[i] == Address(begin, start.value + i))
        && Cleared(old(disk), begin, start.value, n, disk)
        && (forall i, w :: 0 <= i < n && 0 <= w < 256 ==> ReadWords(disk, output[i])[w] == 0)
    {
      if n == 0 {
        return null, None;
      }
      var found, off, bitOff := FindRun(n);
      if !found {
        return null, None;
      }
      start := Some(8 * off + bitOff + 1 - n);
      output := TakeBackwards(8 * off + bitOff + 1 - n, n);
      saved := bits[..];
      ClearedOk(disk, begin, start.value, n);
      disk := ClearBlocks(disk, output[0], n);
    }

    // A call for one block; the callers follow the result without looking whether there is one.
    method One() returns (location: Option<u32>, ghost k: nat)
      requires Valid()
      modifies this, bits
      ensures Valid()
      ensures location == None ==> Full(bits[..]) && bits[..] == old(bits[..]) && disk == old(disk)
      ensures location.Some? ==>
        && k < BITS && !Taken(old(bits[..]), k) && TakenToo(old(bits[..]), k, 1, bits[..])
        && location.value == Address(begin, k) && SameBut(old(disk), disk, location.value)
    {
      var output, start := FormatBlockBitmap(1);
      if output == null {
        NoRunOfOne(bits[..]);
        return None, 0;
      }
      k := start.value;
      OneCleared(old(disk), begin, k, disk);
      return Some(output[0]), k;
    }

    // ext2_singly_create; its buffer starts out with whatever the heap held.
    method SinglyCreate(locs: seq<u32>, offset: nat, nblocks: nat) returns (location: Option<u32>, ghost k: nat)
      requires Valid() && nblocks <= PER && offset + nblocks <= |locs|
      modifies this, bits
      ensures Valid()
      ensures location == None ==> Full(bits[..]) && bits[..] == old(bits[..]) && disk == old(disk)
      ensures location.Some? ==>
        && k < BITS && !Taken(old(bits[..]), k) && TakenToo(old(bits[..]), k, 1, bits[..])
        && location.value == Address(begin, k) && SameBut(old(disk), disk, location.value)
        && (forall c :: 0 <= c < nblocks ==> ReadWords(disk, location.value)[c] == locs[offset + c])
    {
      var data: Words := *;
      location, k := One();
      if location == None {
        return;
      }
      var blk := 0;
      while blk < nblocks
        invariant 0 <= blk <= nblocks
        invariant forall c :: 0 <= c < blk ==> data[c] == locs[offset + c]
      {
        data := data[blk := locs[offset + blk]];
        blk := blk + 1;
      }
      StoredAt(old(disk), disk, location.value, data);
      disk := disk[location.value := data];
    }

    // One row: up to 256 of the locations left, in a block of their own.
    method AddRow(locs: seq<u32>, rest: nat, r: nat, ghost data: Words, ghost at: seq<nat>, ghost others: set<nat>)
      returns (row: Option<u32>, ghost m: nat)
      requires Valid() && rest <= PER2 && DIRECT + rest <= |locs| && PER * r < rest && |at| == r
      requires Rows(disk, bits[..], begin, others, data, at, locs, rest)
      requires forall k :: k in others ==> k < BITS && Taken(bits[..], k)
      modifies this, bits
      ensures Valid()
      ensures row == None ==> Full(bits[..]) && bits[..] == old(bits[..]) && disk == old(disk)
      ensures row.Some? ==> r < PER && Rows(disk, bits[..], begin, others, data[r := row.value], at + [m], locs, rest)
      ensures row.Some? ==> Grew(old(bits[..]), old(disk), bits[..], disk, begin, [m])
    {
      var blk := PER * r;
      RowSize(rest, r);
      row, m := SinglyCreate(locs, DIRECT + blk, if blk + PER <= rest then PER else rest % PER);
      if row.Some? {
        RowsStep(old(disk), old(bits[..]), begin, others, data, at, locs, rest, disk, bits[..], m, row.value);
        GrewOne(old(bits[..]), old(disk), bits[..], disk, begin, m);
      }
    }

    // The doubly indirect part: the source offset of every row starts at the direct blocks again.
    method Doubly(locs: seq<u32>, rest: nat) returns (location: Option<u32>, ghost got: seq<nat>)
      requires Valid() && 0 < rest <= PER2 && DIRECT + rest <= |locs|
      modifies this, bits
      ensures Valid()
      ensures location == None ==> Full(bits[..])
      ensures Grew(old(bits[..]), old(disk), bits[..], disk, begin, got)
      ensures location.Some? ==>
        && |got| == 1 + RowsFor(rest) && location.value == Address(begin, got[0])
        && Doubled(disk, location.value, locs, rest)
    {
      ghost var k;
      location, k := One();
      if location == None {
        return None, [];
      }
      GrewOne(old(bits[..]), old(disk), bits[..], disk, begin, k);
      got := [k];
      var data, r := NoWords(), 0;
      while PER * r < rest
        invariant |got| == 1 + r && got[0] == k && r <= RowsFor(rest) && Taken(bits[..], k)
        invariant Valid() && Rows(disk, bits[..], begin, {k}, data, got[1..], locs, rest)
        invariant Grew(old(bits[..]), old(disk), bits[..], disk, begin, got)
        decreases rest - PER * r
      {
        ghost var d1, b1 := disk, bits[..];
        ghost var m;
        var row;
        row, m := AddRow(locs, rest, r, data, got[1..], {k});
        if row == None {
          return None, got;
        }
        GrewTwice(old(bits[..]), old(disk), b1, d1, got, bits[..], disk, [m], begin);
        assert (got + [m])[1..] == got[1..] + [m];
        data := data[r := row.value];
        got := got + [m];
        r := r + 1;
      }
      RowsStored(disk, bits[..], begin, {k}, data, got[1..], locs, rest, k);
      GrewWrite(old(bits[..]), old(disk), bits[..], disk, begin, got, 0, location.value, data);
      disk := disk[location.value := data];
    }

    // The first two parts: direct blocks, and the singly indirect block if there is more to do.
    method Direct(node: array<u32>, locs: seq<u32>, n: nat)
      requires node.Length == SLOTS && n <= |locs|
      modifies node
      ensures forall i :: 0 <= i < SLOTS ==> node[i] == if i < n && i < DIRECT then locs[i] else 0
    {
      var blk := 0;
      while blk < SLOTS
        invariant 0 <= blk <= SLOTS && forall i :: 0 <= i < blk ==> node[i] == 0
      {
        node[blk] := 0;
        blk := blk + 1;
      }
      var end := if n < DIRECT then n else DIRECT;
      blk := 0;
      while blk < end
        invariant 0 <= blk <= end
        invariant forall i :: 0 <= i < SLOTS ==> node[i] == if i < blk then locs[i] else 0
      {
        node[blk] := locs[blk];
        blk := blk + 1;
      }
    }

    method Single(locs: seq<u32>, rest: nat) returns (location: Option<u32>, ghost k: nat)
      requires Valid() && DIRECT + rest <= |locs|
      modifies this, bits
      ensures Valid()
      ensures location == None ==> Full(bits[..]) && bits[..] == old(bits[..]) && disk == old(disk)
      ensures location.Some? ==>
        && k < BITS && location.value == Address(begin, k) && Grew(old(bits[..]), old(disk), bits[..], disk, begin, [k])
        && (forall c :: 0 <= c < PER ==> ReadWords(disk, location.value)[c] == if c < rest then locs[DIRECT + c] else 0)
    {
      location, k := One();
      if location == None {
        return;
      }
      var data, blk, end := NoWords(), 0, if rest < PER then rest else PER;
      while blk < end
        invariant 0 <= blk <= end
        invariant forall c :: 0 <= c < PER ==> data[c] == if c < blk then locs[DIRECT + c] else 0
      {
        data := data[blk := locs[DIRECT + blk]];
        blk := blk + 1;
      }
      GrewOne(old(bits[..]), old(disk), bits[..], disk, begin, k);
      GrewWrite(old(bits[..]), old(disk), bits[..], disk, begin, [k], 0, location.value, data);
      disk := disk[location.value := data];
    }

    // ext2_inode_entry_blocks without the triply indirect part; None is the null dereference when
    // the bitmap has no block left for the tree itself.
    method EntryBlocks(node: array<u32>, locs: seq<u32>, n: nat) returns (r: Option<nat>, ghost got: seq<nat>)
      requires Valid() && node.Length == SLOTS && n <= |locs| && n <= DIRECT + PER + PER2
      modifies this, bits, node
      ensures Valid()
      ensures Grew(old(bits[..]), old(disk), bits[..], disk, begin, got)
      ensures r.Some? ==> Stored(disk, node[..], locs, n) && r.value == if n < DIRECT then 0 else 1
      ensures r.Some? ==> |got| == TreeBlocks(n)
      ensures r == None ==> Full(bits[..])
    {
      Direct(node, locs, n);
      if n < DIRECT {
        return Some(0), [];
      }
      r, got := Indirect(node, locs, n);
    }

    // The part of the tree behind the direct blocks.
    method Indirect(node: array<u32>, locs: seq<u32>, n: nat) returns (r: Option<nat>, ghost got: seq<nat>)
      requires Valid() && node.Length == SLOTS && DIRECT <= n <= |locs| && n <= DIRECT + PER + PER2
      requires forall i :: 0 <= i < SLOTS ==> node[i] == if i < DIRECT then locs[i] else 0
      modifies this, bits, node
      ensures Valid()
      ensures Grew(old(bits[..]), old(disk), bits[..], disk, begin, got)
      ensures r.Some? ==> Stored(disk, node[..], locs, n) && r.value == 1 && |got| == TreeBlocks(n)
      ensures r == None ==> Full(bits[..])
    {
      got := [];
      ghost var k;
      var single;
      single, k := Single(locs, n - DIRECT);
      if single == None {
        return None, [];
      }
      node[IND] := single.value;
      got := [k];
      if n - DIRECT > PER {
        ghost var d1, b1 := disk, bits[..];
        ghost var more;
        r, more := Second(node, locs, n, k);
        GrewTwice(old(bits[..]), old(disk), b1, d1, got, bits[..], disk, more, begin);
        got := got + more;
        return;
      }
      return Some(1), got;
    }

    // The doubly indirect block, with the singly indirect one in block k.
    method Second(node: array<u32>, locs: seq<u32>, n: nat, ghost k: nat) returns (r: Option<nat>, ghost more: seq<nat>)
      requires Valid() && node.Length == SLOTS && DIRECT + PER < n <= |locs| && n <= DIRECT + PER + PER2
      requires forall i :: 0 <= i < DIRECT ==> node[i] == locs[i]
      requires k < BITS && Taken(bits[..], k) && node[IND] == Address(begin, k)
      requires forall c :: 0 <= c < PER ==> ReadWords(disk, node[IND])[c] == locs[DIRECT + c]
      modifies this, bits, node
      ensures Valid()
      ensures Grew(old(bits[..]), old(disk), bits[..], disk, begin, more)
      ensures r.Some? ==> Stored(disk, node[..], locs, n) && r.value == 1 && 1 + |more| == TreeBlocks(n)
      ensures r == None ==> Full(bits[..])
    {
      var double;
      double, more := Doubly(locs, n - DIRECT - PER);
      if double == None {
        return None, more;
      }
      InUseKept(old(bits[..]), old(disk), bits[..], disk, begin, more, k);
      node[DIND] := double.value;
      DoublyFound(disk, node[..], locs, n);
      return Some(1), more;
    }
  }

  // The sectors of a run of blocks, from the first on.
  function Sectors(begin: u32, start: Option<nat>, n: nat): seq<int> {
    match start
    case None => []
    case Some(j) => seq(n, c requires 0 <= c < n => Address(begin, j + c))
  }

  // Calls for these numbers of blocks, one after the other; locs[i] is the list call i returns.
  method FormatAll(g: Group, sizes: seq<nat>)
    returns (locs: seq<seq<u32>>, ghost maps: seq<seq<byte>>, ghost results: seq<Option<nat>>)
    requires g.Valid()
    modifies g, g.bits
    ensures g.Valid() && Calls(maps, sizes, results) && maps[0] == old(g.bits[..]) && maps[|sizes|] == g.bits[..]
    ensures |locs| == |sizes| && forall i :: 0 <= i < |sizes| ==> locs[i] == Sectors(g.begin, results[i], sizes[i])
  {
    locs, maps, results := [], [g.bits[..]], [];
    var i := 0;
    while i < |sizes|
      invariant 0 <= i == |locs| <= |sizes| && g.Valid()
      invariant Calls(maps, sizes[..i], results) && maps[0] == old(g.bits[..]) && maps[i] == g.bits[..]
      invariant forall j :: 0 <= j < i ==> locs[j] == Sectors(g.begin, results[j], sizes[j])
    {
      ghost var before := g.bits[..];
      var output, start := g.FormatBlockBitmap(sizes[i]);
      var loc: seq<u32> := if output == null then [] else output[..];
      assert loc == Sectors(g.begin, start, sizes[i]);
      OneMoreCall(maps, sizes, results, i, start, g.bits[..]);
      locs, maps, results := locs + [loc], maps + [g.bits[..]], results + [start];
      i := i + 1;
    }
    assert sizes[..|sizes|] == sizes;
  }

  // So the lists of different calls have no sector in common.
  lemma NoSectorTwice(begin: u32, maps: seq<seq<byte>>, sizes: seq<nat>, results: seq<Option<nat>>, i: nat, j: nat)
    requires Calls(maps, sizes, results) && i < j < |sizes|
    ensures var a, b := Sectors(begin, results[i], sizes[i]), Sectors(begin, results[j], sizes[j]);
      forall c, d | 0 <= c < |a| && 0 <= d < |b| :: a[c] != b[d]
  {
    if results[i].Some? && results[j].Some? {
      NoBlockTwice(maps, sizes, results, i, j);
      var a, b := Sectors(begin, results[i], sizes[i]), Sectors(begin, results[j], sizes[j]);
      forall c, d | 0 <= c < |a| && 0 <= d < |b|
        ensures a[c] != b[d]
      {
        assert a[c] == 2 * (results[i].value + c) + begin && b[d] == 2 * (results[j].value + d) + begin;
      }
    }
  }

  lemma OneMoreCall(maps: seq<seq<byte>>, sizes: seq<nat>, results: seq<Option<nat>>, i: nat, r: Option<nat>,
                    bm: seq<byte>)
    requires i < |sizes| && Calls(maps, sizes[..i], results) && |bm| == BLOCK && Allocates(maps[i], sizes[i], r, bm)
    ensures Calls(maps + [bm], sizes[..i + 1], results + [r])
  {
    forall k | 0 <= k < i + 1
      ensures Allocates((maps + [bm])[k], sizes[..i + 1][k], (results + [r])[k], (maps + [bm])[k + 1])
    {
      if k < i {
        assert Allocates(maps[k], sizes[..i][k], results[k], maps[k + 1]);
      }
    }
  }

  // Rows of the doubly indirect block, and blocks the tree takes for itself.
  function RowsFor(rest: nat): nat { (rest + PER - 1) / PER }
  function TreeBlocks(n: nat): nat {
    if n < DIRECT then 0 else if n <= DIRECT + PER then 1 else 2 + RowsFor(n - DIRECT - PER)
  }

  // Blocks a tree over n locations has to have: one per pointer block that is not empty.
  function TreeNeeds(n: nat): nat {
    if n <= DIRECT then 0 else if n <= DIRECT + PER then 1 else 2 + RowsFor(n - DIRECT - PER)
  }

  // Exactly with twelve locations a block is spent for nothing.
  lemma TwelveWastesOne(n: nat)
    ensures TreeBlocks(n) == TreeNeeds(n) + if n == 12 then 1 else 0
  {}

  lemma RowSize(rest: nat, r: nat)
    requires PER * r < rest <= PER2
    ensures r < PER && r < RowsFor(rest)
    ensures PER * r + PER > rest ==> rest % PER == rest - PER * r
  {}

  // What storing n block locations achieves.
  ghost predicate Stored(disk: map<u32, Words>, blocks: seq<u32>, locs: seq<u32>, n: nat)
    requires |blocks| == SLOTS && n <= |locs| && n <= DIRECT + PER + PER2
  {
    && (forall i :: 0 <= i < n && i < DIRECT + PER ==> BlockOfSet(disk, blocks, i) == locs[i])
    && (n <= DIRECT + PER ==> forall i :: n <= i ==> BlockOfSet(disk, blocks, i) == 0)
    && (forall i :: DIRECT + PER <= i < n ==> BlockOfSet(disk, blocks, i) == locs[i - PER])
  }

  lemma DoublyFound(disk: map<u32, Words>, blocks: seq<u32>, locs: seq<u32>, n: nat)
    requires |blocks| == SLOTS && n <= |locs| && DIRECT + PER < n <= DIRECT + PER + PER2 && blocks[DIND] != 0
    requires Doubled(disk, blocks[DIND], locs, n - DIRECT - PER)
    ensures forall i :: DIRECT + PER <= i < n ==> BlockOfSet(disk, blocks, i) == locs[i - PER]
  {}

  predicate RoundTrips(disk: map<u32, Words>, blocks: seq<u32>, locs: seq<u32>, n: nat)
    requires |blocks| == SLOTS && n <= |locs|
  {
    forall i :: 0 <= i < n ==> BlockOfSet(disk, blocks, i) == locs[i]
  }

  // A block list survives the round trip exactly if it needs no doubly indirect block, or repeats
  // itself there.
  lemma RoundTripExactly(disk: map<u32, Words>, blocks: seq<u32>, locs: seq<u32>, n: nat)
    requires |blocks| == SLOTS && n <= |locs| && n <= DIRECT + PER + PER2 && Stored(disk, blocks, locs, n)
    ensures RoundTrips(disk, blocks, locs, n) <==>
            forall i :: DIRECT + PER <= i < n ==> locs[i] == locs[i - PER]
  {
    if RoundTrips(disk, blocks, locs, n) {
      forall i | DIRECT + PER <= i < n
        ensures locs[i] == locs[i - PER]
      {
        assert BlockOfSet(disk, blocks, i) == locs[i - PER];
      }
    }
  }

  // So with no block listed twice, exactly up to 268 blocks.
  lemma RoundTripUpTo268(disk: map<u32, Words>, blocks: seq<u32>, locs: seq<u32>, n: nat)
    requires |blocks| == SLOTS && n <= |locs| && n <= DIRECT + PER + PER2 && Stored(disk, blocks, locs, n)
    requires forall i, j :: 0 <= i < j < n ==> locs[i] != locs[j]
    ensures RoundTrips(disk, blocks, locs, n) <==> n <= 268
  {
    if n > 268 {
      assert BlockOfSet(disk, blocks, 268) == locs[268 - PER] != locs[268];
    }
  }

  // For example 269 different locations: number 268 reads back as location 12.
  lemma RoundTripFailsAt269(disk: map<u32, Words>, blocks: seq<u32>, locs: seq<u32>)
    requires |blocks| == SLOTS && locs == seq(269, i => i + 1) && Stored(disk, blocks, locs, 269)
    ensures BlockOfSet(disk, blocks, 268) == 13 != locs[268] && !RoundTrips(disk, blocks, locs, 269)
  {
    assert BlockOfSet(disk, blocks, 268) == locs[268 - PER];
  }

  lemma StoredAt(disk: map<u32, Words>, disk': map<u32, Words>, a: u32, data: Words)
    requires SameBut(disk, disk', a)
    ensures SameBut(disk, disk'[a := data], a)
  {
    forall b: u32 | b != a
      ensures ReadWords(disk'[a := data], b) == ReadWords(disk, b)
    {
      assert ReadWords(disk', b) == ReadWords(disk, b);
    }
  }

  // One more row.
  lemma RowsStep(disk: map<u32, Words>, bm: seq<byte>, begin: u32, others: set<nat>, data: Words, at: seq<nat>,
                 locs: seq<u32>, rest: nat, disk': map<u32, Words>, bm': seq<byte>, m: nat, a: u32)
    requires |bm| == BLOCK && |bm'| == BLOCK && DIRECT + rest <= |locs| && |at| < PER
    requires Rows(disk, bm, begin, others, data, at, locs, rest)
    requires m < BITS && !Taken(bm, m) && TakenToo(bm, m, 1, bm') && a == Address(begin, m) && m !in others
    requires SameBut(disk, disk', a) && Row(disk', a, locs, rest, |at|)
    ensures Rows(disk', bm', begin, others, data[|at| := a], at + [m], locs, rest)
  {}

  // Every location of the doubly indirect part is found under sector a.
  predicate Doubled(disk: map<u32, Words>, a: u32, locs: seq<u32>, rest: nat)
    requires rest <= PER2 && DIRECT + rest <= |locs|
  {
    forall j :: 0 <= j < rest ==>
      && ReadWords(disk, a)[j / PER] != 0
      && ReadWords(disk, ReadWords(disk, a)[j / PER])[j % PER] == locs[DIRECT + j]
  }

  lemma RowsStored(disk: map<u32, Words>, bm: seq<byte>, begin: u32, others: set<nat>, data: Words, at: seq<nat>,
                   locs: seq<u32>, rest: nat, k: nat)
    requires |bm| == BLOCK && rest <= PER2 && DIRECT + rest <= |locs| && rest <= PER * |at| && Placed(begin)
    requires Rows(disk, bm, begin, others, data, at, locs, rest) && k in others && k < BITS
    ensures Doubled(disk[Address(begin, k) := data], Address(begin, k), locs, rest)
  {
    var a := Address(begin, k);
    forall j | 0 <= j < rest
      ensures data[j / PER] != 0
      ensures ReadWords(disk[a := data], data[j / PER])[j % PER] == locs[DIRECT + j]
    {
      var r := j / PER;
      assert Given(bm, begin, at[r], data[r]) && Row(disk, data[r], locs, rest, r);
      var c := j % PER;
      assert PER * r + c == j;
      assert ReadWords(disk, data[r])[c] == locs[DIRECT + PER * r + c];
      assert at[r] !in {k} && data[r] != a;
    }
  }

  lemma OneCleared(disk: map<u32, Words>, begin: u32, k: nat, disk': map<u32, Words>)
    requires Placed(begin) && k < BITS && Cleared(disk, begin, k, 1, disk')
    ensures SameBut(disk, disk', Address(begin, k))
  {}

  lemma BitAt(bm: seq<byte>, off: nat, bitOff: nat)
    requires |bm| == BLOCK && off < BLOCK && bitOff < 8
    ensures Taken(bm, 8 * off + bitOff) <==> bm[off] & Mask(7 - bitOff) != 0
  {}

  lemma TakeIs(bm: seq<byte>, k: nat, off: nat, bitOff: nat)
    requires |bm| == BLOCK && off < BLOCK && bitOff < 8 && k == 8 * off + bitOff
    ensures k / 8 == off && k % 8 == bitOff && Take(bm, k) == bm[off := bm[off] | Mask(7 - bitOff)]
  {}

  lemma TakeAll(bm: seq<byte>, k: nat)
    requires |bm| == BLOCK && k < BITS
    ensures forall j :: 0 <= j < BITS ==> Taken(Take(bm, k), j) == (j == k || Taken(bm, j))
  {
    forall j | 0 <= j < BITS
      ensures Taken(Take(bm, k), j) == (j == k || Taken(bm, j))
    {
      TakeOne(bm, k, j);
    }
  }

  // One more block at the front of those taken.
  lemma TakeOneMore(bm: seq<byte>, k: nat, m: nat, bm': seq<byte>)
    requires |bm| == BLOCK && |bm'| == BLOCK && k < BITS && TakenToo(bm, k + 1, m, bm')
    ensures TakenToo(bm, k, m + 1, Take(bm', k))
  {
    TakeAll(bm', k);
  }
}
