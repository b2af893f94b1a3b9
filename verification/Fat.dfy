/** The FAT reader (fat.c, the branch without MODE_EXFAT): following a file's cluster chain
    with a cursor that is kept between reads. */
module Fat {
  import opened Layout
  import opened Path

  const SECTOR := 512
  const NO_CLUSTER := 0xFFFF_FFFF

  // What fat_mount works out about a volume; the disk is its bytes.
  datatype Volume = Volume(
    disk: seq<byte>, fatSector: u32, fatSize: nat, rootSector: u32, numRootSectors: u32,
    clusterBits: nat, eofMark: u32, clusterSector: u32, numClusters: u32)

  // x >> n and x & ((1 << n) - 1)
  function ShiftRight(x: nat, n: nat): nat { if n == 0 then x else ShiftRight(x / 2, n - 1) }
  function LowBits(x: nat, n: nat): (r: nat)
    ensures r < Pow2(n)
  {
    if n == 0 then 0 else x % 2 + 2 * LowBits(x / 2, n - 1)
  }

  const SECTOR_BITS := 9

  function ClusterSize(v: Volume): (n: nat)
    ensures n > 0
  {
    Pow2(v.clusterBits + SECTOR_BITS)
  }

  // Logical cluster of a file offset, and the offset inside it.
  function ClusterOf(v: Volume, offset: nat): nat { ShiftRight(offset, v.clusterBits + SECTOR_BITS) }
  function OffsetIn(v: Volume, offset: nat): (o: nat)
    ensures o < ClusterSize(v)
  {
    LowBits(offset, v.clusterBits + SECTOR_BITS)
  }

  lemma TimesTwo(q: int, p: int)
    ensures q * (2 * p) == 2 * (q * p)
  {}

  // The two together are the offset.
  lemma {:induction false} ShiftParts(x: nat, n: nat)
    ensures x == ShiftRight(x, n) * Pow2(n) + LowBits(x, n)
  {
    if n > 0 {
      ShiftParts(x / 2, n - 1);
      TimesTwo(ShiftRight(x, n), Pow2(n - 1));
      var qp, low := ShiftRight(x, n) * Pow2(n - 1), LowBits(x / 2, n - 1);
      assert x / 2 == qp + low && x == 2 * (x / 2) + x % 2;
      assert ShiftRight(x, n) * Pow2(n) == 2 * qp;
    }
  }

  lemma {:induction false} SectorsPerCluster(n: nat)
    ensures Pow2(n + SECTOR_BITS) >= SECTOR
  {
    if n == 0 {
      assert Pow2(9) == 2 * (2 * (2 * (2 * (2 * Pow2(4)))));
    } else {
      SectorsPerCluster(n - 1);
    }
  }

  lemma SectorsBefore(lc: nat, cs: nat)
    requires cs >= SECTOR
    ensures lc * SECTOR <= lc * cs
  {}

  // disk_read: fails exactly if the range leaves the disk.
  function DiskRead(v: Volume, sector: nat, offset: nat, size: nat): (r: Option<seq<byte>>)
    ensures r.Some? ==> |r.value| == size
  {
    if SECTOR * sector + offset + size <= |v.disk|
    then Some(seq(size, i requires 0 <= i < size => v.disk[SECTOR * sector + offset + i]))
    else None
  }

  lemma DiskReadIs(v: Volume, sector: nat, offset: nat, size: nat)
    ensures var r, x := DiskRead(v, sector, offset, size), 512 * sector + offset;
      if x + size <= |v.disk| then r == Some(v.disk[x..x + size]) else r == None
  {
    var r, x := DiskRead(v, sector, offset, size), 512 * sector + offset;
    if x + size <= |v.disk| {
      assert r.value == v.disk[x..x + size];
    }
  }

  // ---------- FAT entries ----------

  // Byte offset of a cluster's entry: 4, 2 or 1.5 bytes each, in 32-bit arithmetic.
  function EntryOffset(fatSize: nat, c: u32): u32 {
    if fatSize == 32 then 4 * c % U32 else if fatSize == 16 then 2 * c % U32 else (c + c / 2) % U32
  }

  // (fat_size + 7) >> 3
  function EntryBytes(fatSize: nat): nat { if fatSize == 32 then 4 else 2 }

  // A 2-byte entry sits in the low half of a 32-bit variable; the upper half is whatever was
  // there before: `junk`.
  function DecodeWord(fatSize: nat, c: u32, w: u16, junk: u16): u32 {
    var raw: u32 := w + 0x1_0000 * junk;
    if fatSize == 16 then raw % 0x1_0000
    else (if c % 2 == 1 then raw / 16 else raw) % 0x1000
  }

  function DecodeEntry(fatSize: nat, c: u32, s: seq<byte>, junk: u16): u32
    requires |s| == EntryBytes(fatSize)
  {
    if fatSize == 32 then Word32(s, 0) else DecodeWord(fatSize, c, Word16(s, 0), junk)
  }

  lemma JunkArithmetic(w: int, j: int)
    requires 0 <= w < 0x1_0000
    ensures (w + 0x1_0000 * j) % 0x1_0000 == w
    ensures (w + 0x1_0000 * j) % 0x1000 == w % 0x1000
    ensures (w + 0x1_0000 * j) / 16 % 0x1000 == w / 16
  {
    assert (w + 0x1_0000 * j) / 16 == w / 16 + 0x1000 * j;
    assert (w / 16 + 0x1000 * j) % 0x1000 == w / 16;
    assert w + 0x1_0000 * j == w % 0x1000 + 0x1000 * (w / 0x1000 + 16 * j);
  }

  // Masking removes all of the junk.
  lemma JunkIsIrrelevant(fatSize: nat, c: u32, w: u16, junk: u16)
    ensures DecodeWord(fatSize, c, w, junk) == DecodeWord(fatSize, c, w, 0)
  {
    JunkArithmetic(w, junk);
    JunkArithmetic(w, 0);
  }

  // FAT12 packs two 12-bit entries into three bytes.
  type u12 = x: int | 0 <= x < 0x1000

  function Middle(a: u12, b: u12): (m: nat)
    ensures m < 0x100
  {
    a / 0x100 + 16 * (b % 16)
  }

  // The values of the packed bytes.
  function Pack12(vals: seq<u12>): (p: seq<nat>)
    ensures |p| == |vals| + (|vals| + 1) / 2
  {
    if vals == [] then []
    else if |vals| == 1 then [vals[0] % 0x100, Middle(vals[0], 0)]
    else [vals[0] % 0x100, Middle(vals[0], vals[1]), vals[1] / 16] + Pack12(vals[2..])
  }

  lemma PairArithmetic(a: u12, b: u12)
    ensures (a % 0x100 + 0x100 * Middle(a, b)) % 0x1000 == a
    ensures (Middle(a, b) + 0x100 * (b / 16)) / 16 == b
  {}

  // The entry in the word at byte c + c/2.
  function Entry12(p: seq<nat>, c: nat): nat
    requires c + c / 2 + 2 <= |p|
  {
    var w := p[c + c / 2] + 0x100 * p[c + c / 2 + 1];
    (if c % 2 == 1 then w / 16 else w) % 0x1000
  }

  // Three bytes further on there are two entries more.
  lemma Shift12(p: seq<nat>, q: seq<nat>, c: nat)
    requires 2 <= c && |p| == |q| + 3 && p[3..] == q && c - 2 + (c - 2) / 2 + 2 <= |q|
    ensures c + c / 2 + 2 <= |p| && Entry12(p, c) == Entry12(q, c - 2)
  {}

  lemma {:induction false} EveryEntry12(vals: seq<u12>, c: nat)
    requires c < |vals|
    ensures Entry12(Pack12(vals), c) == vals[c]
  {
    if c >= 2 {
      EveryEntry12(vals[2..], c - 2);
      Shift12(Pack12(vals), Pack12(vals[2..]), c);
    } else {
      PairArithmetic(vals[0], if |vals| == 1 then 0 else vals[1]);
    }
  }

  lemma Decode12(c: u32, w: u16, junk: u16)
    ensures DecodeWord(12, c, w, junk) == (if c % 2 == 1 then w / 16 else w) % 0x1000
  {
    JunkArithmetic(w, junk);
  }

  lemma Offset12(c: u32)
    requires c + c / 2 < U32
    ensures EntryOffset(12, c) == c + c / 2
  {}

  // Decoding inverts packing for every entry.
  lemma Fat12Decodes(s: seq<byte>, vals: seq<u12>, c: u32, junk: u16)
    requires |s| == |Pack12(vals)| && forall i :: 0 <= i < |s| ==> s[i] as int == Pack12(vals)[i]
    requires c < |vals| && c + c / 2 < U32
    ensures EntryOffset(12, c) + 2 <= |s|
    ensures DecodeWord(12, c, Word16(s, EntryOffset(12, c)), junk) == vals[c]
  {
    EveryEntry12(vals, c);
    Offset12(c);
    Decode12(c, Word16(s, c + c / 2), junk);
  }

  // FAT16 and FAT32 store the entries one behind the other, in two and four bytes.
  lemma Fat16Decodes(s: seq<byte>, vals: seq<u16>, c: u32, junk: u16)
    requires |s| == 2 * |vals| && forall i :: 0 <= i < |vals| ==> Number(s[2 * i..2 * i + 2]) == vals[i]
    requires c < |vals| && 2 * c < U32
    ensures var o := EntryOffset(16, c);
      o + EntryBytes(16) <= |s| && DecodeEntry(16, c, s[o..o + EntryBytes(16)], junk) == vals[c]
  {
    var e := s[2 * c..2 * c + 2];
    Number16(e, 0);
    assert e[0..2] == e;
    JunkArithmetic(Word16(e, 0), junk);
  }

  lemma Fat32Decodes(s: seq<byte>, vals: seq<u32>, c: u32, junk: u16)
    requires |s| == 4 * |vals| && forall i :: 0 <= i < |vals| ==> Number(s[4 * i..4 * i + 4]) == vals[i]
    requires c < |vals| && 4 * c < U32
    ensures var o := EntryOffset(32, c);
      o + EntryBytes(32) <= |s| && DecodeEntry(32, c, s[o..o + EntryBytes(32)], junk) == vals[c]
  {
    var e := s[4 * c..4 * c + 4];
    Number32(e, 0);
    assert e[0..4] == e;
  }

  datatype Link = To(cluster: u32) | End | Bad

  // Where the chain goes from cluster c; a failing read of the FAT counts as Bad.
  function Follow(v: Volume, c: u32): Link {
    match DiskRead(v, v.fatSector, EntryOffset(v.fatSize, c), EntryBytes(v.fatSize))
    case None => Bad
    case Some(s) =>
      LinkOf(v, DecodeEntry(v.fatSize, c, s, 0))
  }

  lemma FollowIs(v: Volume, c: u32, s: seq<byte>, junk: u16)
    requires DiskRead(v, v.fatSector, EntryOffset(v.fatSize, c), EntryBytes(v.fatSize)) == Some(s)
    requires |s| == EntryBytes(v.fatSize)
    ensures Follow(v, c) == LinkOf(v, DecodeEntry(v.fatSize, c, s, junk))
  {
    JunkIsIrrelevant(v.fatSize, c, Word16(s, 0), junk);
  }

  // What an entry says.
  function LinkOf(v: Volume, n: u32): Link {
    if n >= v.eofMark then End
    else if n < 2 || n >= v.numClusters then Bad
    else To(n)
  }

  lemma LinkIs(v: Volume, n: u32)
    ensures v.eofMark <= n ==> LinkOf(v, n) == End
    ensures n < v.eofMark && 2 <= n < v.numClusters ==> LinkOf(v, n) == To(n)
    ensures n < v.eofMark && (n < 2 || v.numClusters <= n) ==> LinkOf(v, n) == Bad
  {}

  // Where the FAT keeps the entry of cluster c, and what its bytes mean.
  lemma FollowOnDisk32(v: Volume, c: u32)
    requires v.fatSize == 32 && 4 * c < U32
    ensures var x := 512 * v.fatSector + 4 * c;
      Follow(v, c) == if x + 4 <= |v.disk| then LinkOf(v, Number32At(v.disk, x)) else Bad
  {
    var x := 512 * v.fatSector + 4 * c;
    DiskReadIs(v, v.fatSector, 4 * c, 4);
    if x + 4 <= |v.disk| {
      var s := v.disk[x..x + 4];
      Number32(s, 0);
      assert s[0..4] == s;
      FollowIs(v, c, s, 0);
    }
  }

  function Number32At(s: seq<byte>, x: nat): u32
    requires x + 4 <= |s|
  {
    Number32(s, x); Number(s[x..x + 4])
  }

  function Number16At(s: seq<byte>, x: nat): u16
    requires x + 2 <= |s|
  {
    Number16(s, x); Number(s[x..x + 2])
  }

  lemma WholeNumber16(disk: seq<byte>, x: nat, s: seq<byte>)
    requires x + 2 <= |disk| && s == disk[x..x + 2]
    ensures Word16(s, 0) == Number16At(disk, x)
  {
    Number16(s, 0);
    assert s[0..2] == s;
  }

  lemma Offset16(c: u32)
    requires 2 * c < U32
    ensures EntryOffset(16, c) == 2 * c
  {}

  lemma Decode16(c: u32, w: u16)
    ensures DecodeWord(16, c, w, 0) == w
  {}

  lemma FollowOnDisk16(v: Volume, c: u32)
    requires v.fatSize == 16 && 2 * c < U32
    ensures var x := 512 * v.fatSector + 2 * c;
      Follow(v, c) == if x + 2 <= |v.disk| then LinkOf(v, Number16At(v.disk, x)) else Bad
  {
    var x := 512 * v.fatSector + 2 * c;
    DiskReadIs(v, v.fatSector, 2 * c, 2);
    Offset16(c);
    if x + 2 <= |v.disk| {
      var s := v.disk[x..x + 2];
      WholeNumber16(v.disk, x, s);
      FollowIs(v, c, s, 0);
      Decode16(c, Word16(s, 0));
    }
  }

  lemma FollowOnDisk12(v: Volume, c: u32)
    requires v.fatSize == 12 && c + c / 2 < U32
    ensures var x := 512 * v.fatSector + c + c / 2;
      Follow(v, c) ==
      if x + 2 > |v.disk| then Bad
      else var w := Number16At(v.disk, x); LinkOf(v, if c % 2 == 1 then w / 16 else w % 4096)
  {
    var x := 512 * v.fatSector + c + c / 2;
    DiskReadIs(v, v.fatSector, c + c / 2, 2);
    Offset12(c);
    if x + 2 <= |v.disk| {
      var s := v.disk[x..x + 2];
      WholeNumber16(v.disk, x, s);
      FollowIs(v, c, s, 0);
      Decode12(c, Word16(s, 0), 0);
    }
  }

  // Only the low 28 bits of a FAT32 entry count, but the reader looks at all 32: it goes where
  // the format says exactly if the high bits are zero or the chain ends here anyway.
  lemma ReservedBits(v: Volume, n: u32)
    requires v.eofMark <= 0x1000_0000
    ensures LinkOf(v, n) == LinkOf(v, n % 0x1000_0000) <==> n < 0x1000_0000 || n % 0x1000_0000 >= v.eofMark
  {}

  // The k-th cluster of the chain starting at `start`, walked from the start.
  function Walk(v: Volume, start: u32, k: nat): Link {
    if k == 0 then To(start)
    else match Walk(v, start, k - 1)
      case To(c) => Follow(v, c)
      case other => other
  }

  // The same chain as the FAT32 format has it, with 28-bit entries.
  function FormatFollow(v: Volume, c: u32): Link {
    match DiskRead(v, v.fatSector, EntryOffset(32, c), 4)
    case None => Bad
    case Some(s) => LinkOf(v, Word32(s, 0) % 0x1000_0000)
  }

  function FormatWalk(v: Volume, start: u32, k: nat): Link {
    if k == 0 then To(start)
    else match FormatWalk(v, start, k - 1)
      case To(c) => FormatFollow(v, c)
      case other => other
  }

  // The entry of cluster c is one the reader understands.
  predicate CleanEntry(v: Volume, c: u32) {
    match DiskRead(v, v.fatSector, EntryOffset(32, c), 4)
    case None => true
    case Some(s) => Word32(s, 0) < 0x1000_0000 || Word32(s, 0) % 0x1000_0000 >= v.eofMark
  }

  // So is the entry behind the k-th cluster.
  predicate Clean(v: Volume, start: u32, k: nat) {
    match FormatWalk(v, start, k)
    case To(c) => CleanEntry(v, c)
    case _ => true
  }

  predicate Agree(v: Volume, start: u32, k: nat) { Walk(v, start, k) == FormatWalk(v, start, k) }

  lemma EntriesAgree(v: Volume, c: u32)
    requires v.fatSize == 32 && v.eofMark <= 0x1000_0000
    ensures CleanEntry(v, c) <==> Follow(v, c) == FormatFollow(v, c)
    ensures !CleanEntry(v, c) ==> Follow(v, c) == End && FormatFollow(v, c) != End
  {
    var s := DiskRead(v, v.fatSector, EntryOffset(32, c), 4);
    if s.Some? {
      EntrySays(v, c, s.value);
      ReservedBits(v, Word32(s.value, 0));
    }
  }

  lemma AgreeStep(v: Volume, start: u32, k: nat, next: nat)
    requires v.fatSize == 32 && v.eofMark <= 0x1000_0000 && next == k + 1 && Agree(v, start, k)
    ensures Clean(v, start, k) <==> Agree(v, start, next)
    ensures !Clean(v, start, k) ==> Walk(v, start, next) == End && FormatWalk(v, start, next) != End
  {
    if Walk(v, start, k).To? {
      EntriesAgree(v, Walk(v, start, k).cluster);
    }
  }

  // The reader follows the format's chain exactly as far as the entries are clean.
  lemma {:induction false} WalksAgree(v: Volume, start: u32, k: nat)
    requires v.fatSize == 32 && v.eofMark <= 0x1000_0000
    ensures (forall j :: 0 <= j < k ==> Clean(v, start, j)) <==> (forall j :: 0 <= j <= k ==> Agree(v, start, j))
  {
    if k > 0 {
      WalksAgree(v, start, k - 1);
      if Agree(v, start, k - 1) {
        AgreeStep(v, start, k - 1, k);
      }
    }
  }

  // A chain that has ended or broken stays that way.
  lemma {:induction false} WalkStuck(v: Volume, start: u32, j: nat, k: nat)
    requires j <= k && !Walk(v, start, j).To?
    ensures Walk(v, start, k) == Walk(v, start, j)
  {
    if j < k {
      WalkStuck(v, start, j, k - 1);
    }
  }

  // x << n in 32 bits.
  function ShiftLeft(x: u32, n: nat): u32
    decreases n
  {
    if n == 0 then x else ShiftLeft(2 * x % U32, n - 1)
  }

  // First sector of a cluster's data, in 32-bit arithmetic.
  function DataSector(v: Volume, c: u32): u32 {
    (v.clusterSector + ShiftLeft((c - 2) % U32, v.clusterBits)) % U32
  }

  // x << n without a bound.
  function Shifted(x: nat, n: nat): (y: nat)
    ensures x <= y
    decreases n
  {
    if n == 0 then x else Shifted(2 * x, n - 1)
  }

  lemma {:induction false} ShiftLeftIs(x: u32, n: nat)
    requires Shifted(x, n) < U32
    ensures ShiftLeft(x, n) == Shifted(x, n)
    decreases n
  {
    if n > 0 {
      assert 2 * x <= Shifted(2 * x, n - 1);
      ShiftOnce(x, n);
      ShiftLeftIs(2 * x, n - 1);
    }
  }

  lemma ShiftOnce(x: u32, n: nat)
    requires n > 0 && 2 * x < U32
    ensures ShiftLeft(x, n) == ShiftLeft(2 * x, n - 1)
  {}

  lemma {:induction false} ShiftedSum(a: nat, b: nat, n: nat)
    ensures Shifted(a + b, n) == Shifted(a, n) + Shifted(b, n)
    decreases n
  {
    if n > 0 {
      ShiftedSum(2 * a, 2 * b, n - 1);
    }
  }

  lemma TwiceTimes(x: int, p: int)
    ensures (2 * x) * p == x * (2 * p)
  {}

  lemma {:induction false} ShiftedIs(x: nat, n: nat)
    ensures Shifted(x, n) == x * Pow2(n)
    decreases n
  {
    if n > 0 {
      ShiftedIs(2 * x, n - 1);
      TwiceTimes(x, Pow2(n - 1));
    }
  }

  lemma {:induction false} PowerBehind(n: nat)
    ensures Pow2(n + SECTOR_BITS) == 512 * Pow2(n)
  {
    if n == 0 {
      PowersOfTwo();
      assert Pow2(9) == 2 * Pow2(8);
    } else {
      PowerBehind(n - 1);
    }
  }

  lemma ClusterSizeIs(v: Volume)
    ensures ClusterSize(v) == 512 * Pow2(v.clusterBits)
  {
    PowerBehind(v.clusterBits);
  }

  lemma Regroup(a: nat, p: nat)
    ensures 512 * (a * p) == a * (512 * p)
  {}

  lemma DataSectorIs(v: Volume, c: u32, n: nat, y: nat)
    requires c == n + 2 && y == Shifted(n, v.clusterBits) && v.clusterSector + y < U32
    ensures DataSector(v, c) == v.clusterSector + y
  {
    ShiftLeftIs(n, v.clusterBits);
    SmallSum(v.clusterSector, y);
    SmallSum(n, 0);
  }

  lemma SmallSum(a: nat, b: nat)
    requires a + b < U32
    ensures (a + b) % U32 == a + b
  {}

  // Where the data of cluster c lies: as many clusters behind the first one, which is cluster 2,
  // as its number says.
  lemma ClusterPlace(v: Volume, c: u32)
    requires 2 <= c && v.clusterSector + (c - 2) * Pow2(v.clusterBits) < U32
    ensures DataSector(v, c) == v.clusterSector + (c - 2) * Pow2(v.clusterBits)
    ensures 512 * DataSector(v, c) == 512 * v.clusterSector + (c - 2) * ClusterSize(v)
  {
    var n, p := c - 2, Pow2(v.clusterBits);
    ShiftedIs(n, v.clusterBits);
    DataSectorIs(v, c, n, n * p);
    ClusterSizeIs(v);
    Regroup(n, p);
  }

  // Clusters lie one behind the other, so the data of different ones does not overlap.
  lemma ClustersAdjoin(v: Volume, c: u32)
    requires 2 <= c && c + 1 < U32 && v.clusterSector + (c - 1) * Pow2(v.clusterBits) < U32
    ensures DataSector(v, 2) == v.clusterSector
    ensures 512 * DataSector(v, c + 1) == 512 * DataSector(v, c) + ClusterSize(v)
  {
    var n, b := c - 2, v.clusterBits;
    ShiftedIs(n + 1, b);
    ShiftedSum(n, 1, b);
    ShiftedSum(0, 0, b);
    ShiftedIs(1, b);
    DataSectorIs(v, 2, 0, 0);
    DataSectorIs(v, c, n, Shifted(n, b));
    DataSectorIs(v, c + 1, n + 1, Shifted(n + 1, b));
    ClusterSizeIs(v);
  }

  // ---------- reading by walking from the start; cs is the cluster size ----------

  datatype Outcome = Fail | Got(bytes: seq<byte>)

  // len bytes from offset `off` of the lc-th cluster on. Whether a piece of the file's data was
  // read is only seen by the error variable, so an error `err` from before fails the first.
  function ReadFrom(v: Volume, err: bool, cs: nat, start: u32, lc: nat, off: nat, len: nat): Outcome
    requires off < cs
    decreases len
  {
    if len == 0 then Got([])
    else match Walk(v, start, lc)
      case End => Got([])
      case Bad => Fail
      case To(c) =>
        var size := Min(cs - off, len);
        match DiskRead(v, DataSector(v, c), off, size)
        case None => Fail
        case Some(b) => if err then Fail else Then(b, ReadFrom(v, err, cs, start, lc + 1, 0, len - size))
  }

  function Then(b: seq<byte>, r: Outcome): Outcome {
    match r
    case Fail => Fail
    case Got(bs) => Got(b + bs)
  }

  // Byte x of the file's data from the lc-th cluster on; None if there is no such cluster.
  function FileByte(v: Volume, cs: nat, start: u32, lc: nat, x: nat): Option<byte>
    requires cs > 0
    decreases x
  {
    if x >= cs then FileByte(v, cs, start, lc + 1, x - cs)
    else match Walk(v, start, lc)
      case To(c) =>
        var p := SECTOR * DataSector(v, c) + x;
        if p < |v.disk| then Some(v.disk[p]) else None
      case _ => None
  }

  // Byte x lies behind the end of the chain.
  predicate Behind(v: Volume, cs: nat, start: u32, lc: nat, x: nat)
    requires cs > 0
    decreases x
  {
    if x >= cs then Behind(v, cs, start, lc + 1, x - cs) else Walk(v, start, lc) == End
  }

  // A read of n bytes that got b: the file's bytes in order, and short only if the chain
  // ends there.
  ghost predicate Reads(v: Volume, cs: nat, start: u32, lc: nat, off: nat, n: nat, b: seq<byte>)
    requires cs > 0
  {
    && |b| <= n
    && (forall x :: off <= x < off + |b| ==> FileByte(v, cs, start, lc, x) == Some(b[x - off]))
    && (|b| < n ==> Behind(v, cs, start, lc, off + |b|))
  }

  lemma ReadsJoin(v: Volume, cs: nat, start: u32, lc: nat, next: nat, off: nat, n: nat, b: seq<byte>, m: nat,
                  rest: seq<byte>)
    requires off < cs && |b| == cs - off <= n && next == lc + 1 && m == n - |b|
    requires Reads(v, cs, start, lc, off, |b|, b) && Reads(v, cs, start, next, 0, m, rest)
    ensures Reads(v, cs, start, lc, off, n, b + rest)
  {
    forall x | off <= x < off + |b + rest|
      ensures FileByte(v, cs, start, lc, x) == Some((b + rest)[x - off])
    {
      if x >= cs {
        assert FileByte(v, cs, start, lc, x) == FileByte(v, cs, start, next, x - cs);
      }
    }
    if |b + rest| < n {
      assert Behind(v, cs, start, lc, off + |b + rest|) == Behind(v, cs, start, next, |rest|);
    }
  }

  lemma OneCluster(v: Volume, cs: nat, start: u32, lc: nat, off: nat, n: nat)
    requires off < cs && n <= cs - off && Walk(v, start, lc).To?
    requires DiskRead(v, DataSector(v, Walk(v, start, lc).cluster), off, n).Some?
    ensures Reads(v, cs, start, lc, off, n, DiskRead(v, DataSector(v, Walk(v, start, lc).cluster), off, n).value)
  {}

  // One round of the loop.
  lemma OneRound(v: Volume, err: bool, cs: nat, start: u32, lc: nat, next: nat, off: nat, len: nat, size: nat,
                 rest: nat)
    requires off < cs && 0 < len && Walk(v, start, lc).To? && next == lc + 1
    requires size == Min(cs - off, len) && rest == len - size
    ensures ReadFrom(v, err, cs, start, lc, off, len) ==
      match DiskRead(v, DataSector(v, Walk(v, start, lc).cluster), off, size)
      case None => Fail
      case Some(b) => if err then Fail else Then(b, ReadFrom(v, err, cs, start, next, 0, rest))
  {}

  lemma Round(v: Volume, err: bool, cs: nat, start: u32, lc: nat, next: nat, off: nat, len: nat, size: nat, m: nat)
    returns (b: seq<byte>, rest: seq<byte>)
    requires off < cs && 0 < len && Walk(v, start, lc).To? && next == lc + 1 && size == Min(cs - off, len) &&
      m == len - size
    requires ReadFrom(v, err, cs, start, lc, off, len).Got?
    ensures ReadFrom(v, err, cs, start, next, 0, m) == Got(rest) && (m == 0 ==> rest == [])
    ensures ReadFrom(v, err, cs, start, lc, off, len) == Got(b + rest)
    ensures |b| == size && Reads(v, cs, start, lc, off, |b|, b)
  {
    OneRound(v, err, cs, start, lc, next, off, len, size, m);
    b := DiskRead(v, DataSector(v, Walk(v, start, lc).cluster), off, size).value;
    rest := ReadFrom(v, err, cs, start, next, 0, m).bytes;
    OneCluster(v, cs, start, lc, off, size);
  }

  lemma NothingRead(v: Volume, err: bool, cs: nat, start: u32, lc: nat, off: nat, len: nat)
    requires off < cs && ReadFrom(v, err, cs, start, lc, off, len).Got? && (len == 0 || !Walk(v, start, lc).To?)
    ensures ReadFrom(v, err, cs, start, lc, off, len) == Got([]) && Reads(v, cs, start, lc, off, len, [])
  {}

  // What a read returns, in terms of the file's bytes.
  lemma {:induction false} ReadFromMeans(v: Volume, err: bool, cs: nat, start: u32, lc: nat, off: nat, len: nat)
    requires off < cs && ReadFrom(v, err, cs, start, lc, off, len).Got?
    ensures Reads(v, cs, start, lc, off, len, ReadFrom(v, err, cs, start, lc, off, len).bytes)
    decreases len
  {
    if len == 0 || !Walk(v, start, lc).To? {
      NothingRead(v, err, cs, start, lc, off, len);
    } else {
      var next: nat, size: nat := lc + 1, Min(cs - off, len);
      var m: nat := len - size;
      var b, rest := Round(v, err, cs, start, lc, next, off, len, size, m);
      if m > 0 {
        ReadFromMeans(v, err, cs, start, next, 0, m);
        ReadsJoin(v, cs, start, lc, next, off, len, b, m, rest);
      } else {
        assert b + rest == b;
      }
    }
  }

  // ---------- the same by file offsets ----------

  lemma Unroll(q: nat, cs: nat, y: nat)
    requires q > 0
    ensures q * cs + y == (q - 1) * cs + y + cs && q * cs + y >= cs
  {}

  // Byte x of a file is byte x % cs of its cluster x / cs.
  lemma {:induction false} FileByteShift(v: Volume, cs: nat, start: u32, lc: nat, q: nat, y: nat, x: nat)
    requires cs > 0 && x == q * cs + y
    ensures FileByte(v, cs, start, lc, x) == FileByte(v, cs, start, lc + q, y)
    ensures Behind(v, cs, start, lc, x) == Behind(v, cs, start, lc + q, y)
    ensures Readable(v, cs, start, lc, x) == Readable(v, cs, start, lc + q, y)
    decreases q
  {
    if q > 0 {
      Unroll(q, cs, y);
      FileByteShift(v, cs, start, lc + 1, q - 1, y, x - cs);
    }
  }

  lemma ReadsShift(v: Volume, cs: nat, start: u32, q: nat, off: nat, x0: nat, n: nat, b: seq<byte>)
    requires off < cs && x0 == q * cs + off && Reads(v, cs, start, q, off, n, b)
    ensures Reads(v, cs, start, 0, x0, n, b)
  {
    forall x | x0 <= x < x0 + |b|
      ensures FileByte(v, cs, start, 0, x) == Some(b[x - x0])
    {
      FileByteShift(v, cs, start, 0, q, off + (x - x0), x);
    }
    FileByteShift(v, cs, start, 0, q, off + |b|, x0 + |b|);
  }

  lemma ReadableShift(v: Volume, cs: nat, start: u32, q: nat, off: nat, x0: nat, n: nat)
    requires off < cs && x0 == q * cs + off
    ensures AllReadable(v, cs, start, q, off, n) <==> AllReadable(v, cs, start, 0, x0, n)
    ensures Walk(v, start, q) == End <==> Behind(v, cs, start, 0, x0)
  {
    FileByteShift(v, cs, start, 0, q, off, x0);
    forall y | off <= y < off + n
      ensures Readable(v, cs, start, q, y) == Readable(v, cs, start, 0, x0 - off + y)
    {
      FileByteShift(v, cs, start, 0, q, y, x0 - off + y);
    }
    if AllReadable(v, cs, start, q, off, n) {
      forall x | x0 <= x < x0 + n
        ensures Readable(v, cs, start, 0, x)
      {
        assert Readable(v, cs, start, q, x - x0 + off);
      }
    }
    if AllReadable(v, cs, start, 0, x0, n) {
      forall y | off <= y < off + n
        ensures Readable(v, cs, start, q, y)
      {
        assert Readable(v, cs, start, 0, x0 - off + y);
      }
    }
  }

  // Where byte x of a file is on the disk.
  lemma FilePlace(v: Volume, start: u32, x: nat, q: nat, y: nat, c: u32, at: nat)
    requires x == q * ClusterSize(v) + y && y < ClusterSize(v) && Walk(v, start, q) == To(c)
    requires 2 <= c && v.clusterSector + (c - 2) * Pow2(v.clusterBits) < U32
    requires at == 512 * v.clusterSector + (c - 2) * ClusterSize(v) + y
    ensures FileByte(v, ClusterSize(v), start, 0, x) == if at < |v.disk| then Some(v.disk[at]) else None
  {
    FileByteShift(v, ClusterSize(v), start, 0, q, y, x);
    ClusterPlace(v, c);
    ByteInCluster(v, ClusterSize(v), start, q, y, c, at);
  }

  lemma ByteInCluster(v: Volume, cs: nat, start: u32, q: nat, y: nat, c: u32, at: nat)
    requires y < cs && Walk(v, start, q) == To(c) && at == 512 * DataSector(v, c) + y
    ensures FileByte(v, cs, start, q, y) == if at < |v.disk| then Some(v.disk[at]) else None
  {}

  // What fat_read_data returns for a file in clusters: exactly if every byte asked for can be
  // read or is behind the end, and no error is left over, its bytes from the offset on.
  lemma ReadDataMeans(v: Volume, err: bool, cluster: u32, offset: nat, len: nat)
    requires cluster != NO_CLUSTER
    ensures var r, cs := ReadSpec(v, err, cluster, offset, len), ClusterSize(v);
      && (r.Got? <==>
            len == 0 || Behind(v, cs, cluster, 0, offset) || (!err && AllReadable(v, cs, cluster, 0, offset, len)))
      && (r.Got? ==> Reads(v, cs, cluster, 0, offset, len, r.bytes))
  {
    var cs, q, off := ClusterSize(v), ClusterOf(v, offset), OffsetIn(v, offset);
    ShiftParts(offset, v.clusterBits + SECTOR_BITS);
    ReadWorksExactly(v, err, cs, cluster, q, off, len);
    ReadableShift(v, cs, cluster, q, off, offset, len);
    if ReadSpec(v, err, cluster, offset, len).Got? {
      ReadFromMeans(v, err, cs, cluster, q, off, len);
      ReadsShift(v, cs, cluster, q, off, offset, len, ReadSpec(v, err, cluster, offset, len).bytes);
    }
  }

  // Byte x from the lc-th cluster on can be read, or lies behind the end of the chain.
  predicate Readable(v: Volume, cs: nat, start: u32, lc: nat, x: nat)
    requires cs > 0
    decreases x
  {
    if x >= cs then Readable(v, cs, start, lc + 1, x - cs)
    else match Walk(v, start, lc)
      case End => true
      case Bad => false
      case To(c) => SECTOR * DataSector(v, c) + x < |v.disk|
  }

  lemma {:induction false} ReadableBehindEnd(v: Volume, cs: nat, start: u32, lc: nat, x: nat)
    requires cs > 0 && Walk(v, start, lc) == End
    ensures Readable(v, cs, start, lc, x)
    decreases x
  {
    if x >= cs {
      ReadableBehindEnd(v, cs, start, lc + 1, x - cs);
    }
  }

  predicate AllReadable(v: Volume, cs: nat, start: u32, lc: nat, off: nat, len: nat)
    requires cs > 0
  {
    forall x :: off <= x < off + len ==> Readable(v, cs, start, lc, x)
  }

  lemma AllBehindEnd(v: Volume, cs: nat, start: u32, lc: nat, len: nat)
    requires cs > 0
    ensures Walk(v, start, lc) == End ==> AllReadable(v, cs, start, lc, 0, len)
  {
    if Walk(v, start, lc) == End {
      forall x | 0 <= x < len
        ensures Readable(v, cs, start, lc, x)
      {
        ReadableBehindEnd(v, cs, start, lc, x);
      }
    }
  }

  lemma ReadableSplit(v: Volume, cs: nat, start: u32, lc: nat, next: nat, off: nat, len: nat)
    requires off < cs && cs - off < len && next == lc + 1
    ensures AllReadable(v, cs, start, lc, off, len) <==>
            AllReadable(v, cs, start, lc, off, cs - off) && AllReadable(v, cs, start, next, 0, len - (cs - off))
  {
    assert forall x: nat {:trigger Readable(v, cs, start, next, x)} ::
      Readable(v, cs, start, next, x) == Readable(v, cs, start, lc, cs + x);
    forall x | cs <= x < off + len
      ensures Readable(v, cs, start, lc, x) == Readable(v, cs, start, next, x - cs)
    {}
  }

  lemma OneReadable(v: Volume, cs: nat, start: u32, lc: nat, off: nat, n: nat)
    requires 0 < n && off + n <= cs && Walk(v, start, lc).To?
    ensures AllReadable(v, cs, start, lc, off, n) <==>
      DiskRead(v, DataSector(v, Walk(v, start, lc).cluster), off, n).Some?
  {
    assert AllReadable(v, cs, start, lc, off, n) ==> Readable(v, cs, start, lc, off + n - 1);
  }

  predicate Works(v: Volume, err: bool, cs: nat, start: u32, lc: nat, off: nat, len: nat)
    requires cs > 0
  {
    len == 0 || Walk(v, start, lc) == End || (!err && AllReadable(v, cs, start, lc, off, len))
  }

  lemma WorksStep(v: Volume, err: bool, cs: nat, start: u32, lc: nat, next: nat, off: nat, len: nat, size: nat,
                  rest: nat)
    requires off < cs && 0 < len && Walk(v, start, lc).To? && next == lc + 1
    requires size == Min(cs - off, len) && rest == len - size
    ensures Works(v, err, cs, start, lc, off, len) <==>
            !err && AllReadable(v, cs, start, lc, off, size) && Works(v, err, cs, start, next, 0, rest)
  {
    if size < len {
      ReadableSplit(v, cs, start, lc, next, off, len);
      AllBehindEnd(v, cs, start, next, len - size);
    }
  }

  lemma GotStep(v: Volume, err: bool, cs: nat, start: u32, lc: nat, next: nat, off: nat, len: nat, size: nat,
                rest: nat)
    requires off < cs && 0 < len && Walk(v, start, lc).To? && next == lc + 1
    requires size == Min(cs - off, len) && rest == len - size
    ensures ReadFrom(v, err, cs, start, lc, off, len).Got? <==>
            !err && AllReadable(v, cs, start, lc, off, size) && ReadFrom(v, err, cs, start, next, 0, rest).Got?
  {
    OneReadable(v, cs, start, lc, off, size);
    OneRound(v, err, cs, start, lc, next, off, len, size, rest);
  }

  lemma NoStep(v: Volume, err: bool, cs: nat, start: u32, lc: nat, off: nat, len: nat)
    requires off < cs && (len == 0 || !Walk(v, start, lc).To?)
    ensures ReadFrom(v, err, cs, start, lc, off, len).Got? <==> Works(v, err, cs, start, lc, off, len)
  {
    if len > 0 && Walk(v, start, lc).Bad? {
      assert !Readable(v, cs, start, lc, off);
    }
  }

  // When a read works: exactly if every byte asked for can be read or lies behind the end, and
  // no error is left over from before, unless there is nothing to read at all.
  lemma {:induction false} ReadWorksExactly(v: Volume, err: bool, cs: nat, start: u32, lc: nat, off: nat, len: nat)
    requires off < cs
    ensures ReadFrom(v, err, cs, start, lc, off, len).Got? <==> Works(v, err, cs, start, lc, off, len)
    decreases len
  {
    if len == 0 || !Walk(v, start, lc).To? {
      NoStep(v, err, cs, start, lc, off, len);
    } else {
      var next: nat, size: nat := lc + 1, Min(cs - off, len);
      var rest: nat := len - size;
      WorksStep(v, err, cs, start, lc, next, off, len, size, rest);
      GotStep(v, err, cs, start, lc, next, off, len, size, rest);
      ReadWorksExactly(v, err, cs, start, next, 0, rest);
    }
  }

  // At the first entry that is not clean a read ends with its cluster, as if the file did, and
  // the format's chain does not end there.
  lemma ReservedBitsCutShort(v: Volume, err: bool, cs: nat, start: u32, lc: nat, off: nat, len: nat)
    requires v.fatSize == 32 && v.eofMark <= 0x1000_0000 && off < cs && cs - off < len
    requires !Clean(v, start, lc) && forall j :: 0 <= j < lc ==> Clean(v, start, j)
    ensures FormatWalk(v, start, lc + 1) != End
    ensures var r := ReadFrom(v, err, cs, start, lc, off, len); r.Got? ==> |r.bytes| == cs - off
  {
    WalksAgree(v, start, lc);
    assert Agree(v, start, lc);
    AgreeStep(v, start, lc, lc + 1);
  }

  // ---------- one volume on which reads go wrong ----------

  // A FAT32 volume of zeros with one-sector clusters. The entry of cluster 2 says 3, with a
  // reserved bit set; both clusters can be read.
  function SmallVolume(): Volume {
    Volume(seq(2048, i => if i == 8 then 0x03 else if i == 11 then 0x10 else 0), 0, 32, 0, 0, 0, 0x0FFF_FFF8, 1, 4)
  }

  lemma SmallEntry()
    ensures var s := DiskRead(SmallVolume(), 0, EntryOffset(32, 2), 4); s.Some? && Word32(s.value, 0) == 0x1000_0003
  {}

  lemma EntrySays(v: Volume, c: u32, s: seq<byte>)
    requires v.fatSize == 32 && DiskRead(v, v.fatSector, EntryOffset(32, c), 4) == Some(s) && |s| == 4
    ensures Follow(v, c) == LinkOf(v, Word32(s, 0)) && FormatFollow(v, c) == LinkOf(v, Word32(s, 0) % 0x1000_0000)
  {}

  lemma SmallLinks(v: Volume)
    requires v.eofMark == 0x0FFF_FFF8 && v.numClusters == 4
    ensures LinkOf(v, 0x1000_0003) == End && LinkOf(v, 0x1000_0003 % 0x1000_0000) == To(3)
  {}

  lemma SmallChain()
    ensures FormatFollow(SmallVolume(), 2) == To(3) && Follow(SmallVolume(), 2) == End
  {
    SmallEntry();
    EntrySays(SmallVolume(), 2, DiskRead(SmallVolume(), 0, EntryOffset(32, 2), 4).value);
    SmallLinks(SmallVolume());
  }

  lemma SmallData()
    ensures DataSector(SmallVolume(), 2) == 1 && DiskRead(SmallVolume(), 1, 0, 512).Some?
  {}

  // A read of two clusters of a chain that has one.
  lemma OnlyOneCluster(v: Volume, start: u32, c: u32)
    requires Walk(v, start, 0) == To(c) && Walk(v, start, 1) == End && DiskRead(v, DataSector(v, c), 0, 512).Some?
    ensures ReadFrom(v, false, 512, start, 0, 0, 1024) == Got(DiskRead(v, DataSector(v, c), 0, 512).value)
  {
    RoundIs(v, false, 512, start, 0, 0, 1024, [], c, DiskRead(v, DataSector(v, c), 0, 512));
    NoRound(v, false, 512, start, 1, 0, 512, DiskRead(v, DataSector(v, c), 0, 512).value);
  }

  // The file that starts at cluster 2 goes on in cluster 3, but a read stops behind cluster 2.
  lemma ReservedBitsLoseCluster()
    ensures FormatWalk(SmallVolume(), 2, 1) == To(3)
    ensures var r := ReadFrom(SmallVolume(), false, 512, 2, 0, 0, 1024); r.Got? && |r.bytes| == 512
  {
    SmallChain();
    SmallData();
    OnlyOneCluster(SmallVolume(), 2, 2);
  }

  // Its first sector can be read, but not after an error.
  lemma OldErrorFailsRead()
    ensures ReadFrom(SmallVolume(), false, 512, 2, 0, 0, 512).Got?
    ensures ReadFrom(SmallVolume(), true, 512, 2, 0, 0, 512) == Fail
  {
    SmallData();
    OneRound(SmallVolume(), false, 512, 2, 0, 1, 0, 512, 512, 0);
    OneRound(SmallVolume(), true, 512, 2, 0, 1, 0, 512, 512, 0);
  }

  // One round after `buf` has been read.
  lemma RoundIs(v: Volume, err: bool, cs: nat, start: u32, lc: nat, off: nat, len: nat,
                buf: seq<byte>, c: u32, b: Option<seq<byte>>)
    requires off < cs && 0 < len && Walk(v, start, lc) == To(c)
    requires b == DiskRead(v, DataSector(v, c), off, Min(cs - off, len))
    ensures Then(buf, ReadFrom(v, err, cs, start, lc, off, len)) ==
            if b.Some? && !err then Then(buf + b.value,
              ReadFrom(v, err, cs, start, lc + 1, 0, len - Min(cs - off, len))) else Fail
  {}

  // No round after `buf` has been read, because all is read or the chain is over.
  lemma NoRound(v: Volume, err: bool, cs: nat, start: u32, lc: nat, off: nat, len: nat, buf: seq<byte>)
    requires off < cs && (len == 0 || !Walk(v, start, lc).To?)
    ensures Then(buf, ReadFrom(v, err, cs, start, lc, off, len)) ==
            if len == 0 || Walk(v, start, lc).End? then Got(buf) else Fail
  {}

  // Every cluster that is still to be looked at has a number below NO_CLUSTER - 1.
  predicate InRange(lc: nat, off: nat, len: nat) { lc + (off + len) / SECTOR < NO_CLUSTER - 1 }

  // That is so up to two terabytes.
  const READ_LIMIT := SECTOR * (NO_CLUSTER - 1)

  lemma ReachOf(v: Volume, offset: nat, len: nat)
    requires offset + len < READ_LIMIT
    ensures InRange(ClusterOf(v, offset), OffsetIn(v, offset), len)
  {
    ShiftParts(offset, v.clusterBits + SECTOR_BITS);
    SectorsPerCluster(v.clusterBits);
    SectorsBefore(ClusterOf(v, offset), ClusterSize(v));
  }

  // ---------- the reader with its cursor ----------

  class Reader {
    const v: Volume
    var fileCluster: u32
    var curClusterNum: u32
    var curCluster: u32
    // Whether the global error variable is set; a failing disk_read and error() set it, and
    // nothing here clears it.
    var errno: bool

    // The cursor is unset, or is where a walk from the file's first cluster would be.
    ghost predicate CursorOk()
      reads this
    {
      && v.fatSize in {12, 16, 32} && v.clusterBits <= 7
      && (curClusterNum == NO_CLUSTER || Walk(v, fileCluster, curClusterNum) == To(curCluster))
    }

    // The end of fat_mount: the cursor is unset, the root is open.
    constructor (v: Volume, rootCluster: u32, junk: u32, errno: bool)
      requires v.fatSize in {12, 16, 32} && v.clusterBits <= 7
      ensures CursorOk() && this.v == v && fileCluster == rootCluster && this.errno == errno
    {
      this.v := v;
      fileCluster := rootCluster;
      curClusterNum := NO_CLUSTER;
      curCluster := junk;
      this.errno := errno;
    }

    // fat_find_dir's switch to the directory entry it found.
    method Open(cluster: u32)
      requires CursorOk()
      modifies this
      ensures CursorOk() && fileCluster == cluster && errno == old(errno)
    {
      fileCluster := cluster;
      curClusterNum := NO_CLUSTER;
    }

    // The entry of the cursor's cluster, decoded and judged.
    method ReadEntry() returns (l: Link)
      requires v.fatSize in {12, 16, 32}
      ensures l == Follow(v, curCluster)
    {
      var junk: u16 := *;
      var s := DiskRead(v, v.fatSector, EntryOffset(v.fatSize, curCluster), EntryBytes(v.fatSize));
      if s == None {
        return Bad;
      }
      FollowIs(v, curCluster, s.value, junk);
      var next := DecodeEntry(v.fatSize, curCluster, s.value, junk);
      if next >= v.eofMark {
        return End;
      }
      if next < 2 || next >= v.numClusters {
        return Bad;
      }
      return To(next);
    }

    // One round of the search for the next cluster.
    method NextCluster() returns (l: Link)
      requires CursorOk() && curClusterNum < NO_CLUSTER - 1
      modifies `curCluster, `curClusterNum, `errno
      ensures CursorOk() && l == Walk(v, fileCluster, old(curClusterNum) + 1)
      ensures curClusterNum == if l.To? then old(curClusterNum) + 1 else old(curClusterNum)
      ensures errno == (old(errno) || l.Bad?)
    {
      l := ReadEntry();
      match l {
        case End =>
        case Bad => errno := true;
        case To(next) => curCluster, curClusterNum := next, curClusterNum + 1;
      }
    }

    // fat_read_data.
    method ReadData(offset0: nat, len0: nat) returns (r: Outcome)
      requires CursorOk() && offset0 + len0 < READ_LIMIT
      modifies `curCluster, `curClusterNum, `errno
      ensures CursorOk()
      ensures r == ReadSpec(v, old(errno), fileCluster, offset0, len0) && errno == (old(errno) || r.Fail?)
    {
      if fileCluster == NO_CLUSTER {
        r := ReadRoot(v, offset0, len0);
        errno := errno || r.Fail?;
        return;
      }
      r := ReadChain(offset0, len0);
    }

    // Move the cursor to the lc-th cluster, or to the last one before the chain ends or breaks.
    method Seek(lc: nat) returns (l: Link)
      requires CursorOk() && curClusterNum <= lc < NO_CLUSTER - 1
      modifies `curCluster, `curClusterNum, `errno
      ensures CursorOk() && l == Walk(v, fileCluster, lc) && curClusterNum <= lc
      ensures l.To? ==> curClusterNum == lc && l == To(curCluster)
      ensures errno == (old(errno) || l.Bad?)
    {
      while lc > curClusterNum
        invariant CursorOk() && curClusterNum <= lc && errno == old(errno)
        decreases lc - curClusterNum
      {
        l := NextCluster();
        if !l.To? {
          WalkStuck(v, fileCluster, curClusterNum + 1, lc);
          return;
        }
      }
      return To(curCluster);
    }

    // The part of the cursor's cluster that is asked for; None if the error variable is set
    // afterwards.
    method ReadPart(cs: nat, offset: nat, len: nat, ghost lc: nat, ghost buf: seq<byte>) returns (b: Option<seq<byte>>)
      requires offset < cs && 0 < len && Walk(v, fileCluster, lc) == To(curCluster)
      modifies `errno
      ensures Then(buf, ReadFrom(v, old(errno), cs, fileCluster, lc, offset, len)) ==
              if b.Some? then Then(buf + b.value,
                ReadFrom(v, old(errno), cs, fileCluster, lc + 1, 0, len - Min(cs - offset, len)))
              else Fail
      ensures errno == (old(errno) || b.None?)
    {
      b := DiskRead(v, DataSector(v, curCluster), offset, Min(cs - offset, len));
      RoundIs(v, errno, cs, fileCluster, lc, offset, len, buf, curCluster, b);
      errno := errno || b == None;
      if errno {
        b := None;
      }
    }

    // The part of a read that lies in cluster lc; `stop` is the outcome if the read ends there.
    method ReadOne(cs: nat, lc: nat, offset: nat, len: nat, buf: seq<byte>)
      returns (stop: Option<Outcome>, b: seq<byte>)
      requires CursorOk() && curClusterNum <= lc < NO_CLUSTER - 1 && offset < cs && 0 < len
      modifies `curCluster, `curClusterNum, `errno
      ensures CursorOk() && curClusterNum <= lc && errno == (old(errno) || stop == Some(Fail))
      ensures Then(buf, ReadFrom(v, old(errno), cs, fileCluster, lc, offset, len)) ==
              if stop.Some? then stop.value
              else Then(buf + b, ReadFrom(v, old(errno), cs, fileCluster, lc + 1, 0, len - Min(cs - offset, len)))
    {
      var l := Seek(lc);
      if !l.To? {
        NoRound(v, old(errno), cs, fileCluster, lc, offset, len, buf);
        return Some(if l.End? then Got(buf) else Fail), [];
      }
      var got := ReadPart(cs, offset, len, lc, buf);
      if got == None {
        return Some(Fail), [];
      }
      return None, got.value;
    }

    // One round of the loop over the clusters of size cs.
    method ReadRound(cs: nat, lc0: nat, offset0: nat, len0: nat, buf0: seq<byte>)
      returns (stop: Option<Outcome>, lc: nat, offset: nat, len: nat, buf: seq<byte>)
      requires CursorOk() && curClusterNum <= lc0 && offset0 < cs && InRange(lc0, offset0, len0) && 0 < len0 &&
        SECTOR <= cs
      modifies `curCluster, `curClusterNum, `errno
      ensures CursorOk() && curClusterNum <= lc && offset < cs && (len > 0 ==> InRange(lc, offset, len)) && len < len0
      ensures errno == (old(errno) || stop == Some(Fail))
      ensures Then(buf0, ReadFrom(v, old(errno), cs, fileCluster, lc0, offset0, len0)) ==
              if stop.Some? then stop.value else Then(buf, ReadFrom(v, old(errno), cs, fileCluster, lc, offset, len))
    {
      var b;
      stop, b := ReadOne(cs, lc0, offset0, len0, buf0);
      lc, offset, len, buf := lc0 + 1, 0, len0 - Min(cs - offset0, len0), buf0 + b;
    }

    // The loop over the clusters of size cs.
    method ReadClusters(cs: nat, lc0: nat, offset0: nat, len0: nat) returns (r: Outcome)
      requires CursorOk() && curClusterNum <= lc0
      requires offset0 < cs && InRange(lc0, offset0, len0) && SECTOR <= cs
      modifies `curCluster, `curClusterNum, `errno
      ensures CursorOk()
      ensures r == ReadFrom(v, old(errno), cs, fileCluster, lc0, offset0, len0) && errno == (old(errno) || r.Fail?)
    {
      var lc: nat, offset: nat, len: nat, buf: seq<byte> := lc0, offset0, len0, [];
      ghost var goal := ReadFrom(v, errno, cs, fileCluster, lc, offset, len);
      while len > 0
        invariant CursorOk() && curClusterNum <= lc && offset < cs && errno == old(errno)
        invariant len > 0 ==> InRange(lc, offset, len)
        invariant Then(buf, ReadFrom(v, old(errno), cs, fileCluster, lc, offset, len)) == goal
      {
        var stop;
        stop, lc, offset, len, buf := ReadRound(cs, lc, offset, len, buf);
        if stop.Some? {
          return stop.value;
        }
      }
      NoRound(v, errno, cs, fileCluster, lc, offset, len, buf);
      return Got(buf);
    }

    method ReadChain(offset0: nat, len0: nat) returns (r: Outcome)
      requires CursorOk() && offset0 + len0 < READ_LIMIT
      modifies `curCluster, `curClusterNum, `errno
      ensures CursorOk()
      ensures r == ReadFrom(v, old(errno), ClusterSize(v), fileCluster, ClusterOf(v, offset0), OffsetIn(v, offset0),
        len0)
      ensures errno == (old(errno) || r.Fail?)
    {
      ReachOf(v, offset0, len0);
      SectorsPerCluster(v.clusterBits);
      var lc, offset := ClusterOf(v, offset0), OffsetIn(v, offset0);
      if lc < curClusterNum {
        curClusterNum, curCluster := 0, fileCluster;
      }
      r := ReadClusters(ClusterSize(v), lc, offset, len0);
    }
  }

  // FAT12 and FAT16 keep the root directory outside the clusters.
  function ReadRoot(v: Volume, offset: nat, len: nat): Outcome {
    var size := Min((SECTOR * v.numRootSectors - offset) % U32, len);
    match DiskRead(v, v.rootSector, offset, size)
    case None => Fail
    case Some(b) => Got(b)
  }

  // The root directory's bytes lie one behind the other, and reads of it end with it.
  lemma RootMeans(v: Volume, offset: nat, len: nat)
    requires offset <= 512 * v.numRootSectors < U32
    ensures var at, n := 512 * v.rootSector + offset, Min(len, 512 * v.numRootSectors - offset);
      ReadRoot(v, offset, len) == if at + n <= |v.disk| then Got(v.disk[at..at + n]) else Fail
  {
    DiskReadIs(v, v.rootSector, offset, Min(len, 512 * v.numRootSectors - offset));
  }

  // What fat_read_data returns, without any cursor; `err` says that the error variable was set.
  function ReadSpec(v: Volume, err: bool, fileCluster: u32, offset: nat, len: nat): Outcome {
    if fileCluster == NO_CLUSTER then ReadRoot(v, offset, len)
    else ReadFrom(v, err, ClusterSize(v), fileCluster, ClusterOf(v, offset), OffsetIn(v, offset), len)
  }
}
