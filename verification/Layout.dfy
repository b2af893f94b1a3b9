/** On-disk format of the inode file system: fixed-size blocks of bytes holding the
    inode table, the free bitmap, indirect blocks and file data (fs.h, and the casts of
    `bp->data` in fs.c).

    The disk is a sequence of raw blocks. `Image` is what those bytes mean, and `Refines`
    ties the two together; the lemmas say which single change of the image each in-place
    change of the bytes amounts to. */
module Layout {

  type byte = bv8
  type u16 = x: int | 0 <= x < 0x1_0000
  type u32 = x: int | 0 <= x < 0x1_0000_0000

  const BSIZE := 512
  const BPB := 4096
  const IPB := 8
  const DINODE := 64
  const NDIRECT := 12
  const NINDIRECT := 128
  const MAXFILE := 140
  const U32 := 0x1_0000_0000

  function Min(a: int, b: int): (m: int)
    ensures m <= a && m <= b && (m == a || m == b)
  {
    if a < b then a else b
  }

  function Pow2(n: nat): (p: nat)
    ensures p > 0
  {
    if n == 0 then 1 else 2 * Pow2(n - 1)
  }

  type Block = b: seq<byte> | |b| == 512 witness seq(512, _ => 0)
  type Addrs = a: seq<u32> | |a| == 13 witness seq(13, _ => 0)

  type Pointers = s: seq<u32> | |s| == 128 witness seq(128, _ => 0)

  function ZeroBlock(): Block { seq(512, _ => 0) }
  function NoAddrs(): Addrs { seq(13, _ => 0) }

  datatype Superblock = Superblock(size: u32, ninodes: u32, inodestart: u32, bmapstart: u32)

  // On-disk inode; the four 16-bit fields are kept as unsigned values.
  datatype Dinode = Dinode(ty: u16, major: u16, minor: u16, nlink: u16, size: u32, addrs: Addrs)

  // ---------- little-endian numbers ----------

  function Byte0(v: u32): byte { (v % 0x100) as byte }
  function Byte1(v: u32): byte { (v / 0x100 % 0x100) as byte }
  function Byte2(v: u32): byte { (v / 0x1_0000 % 0x100) as byte }
  function Byte3(v: u32): byte { (v / 0x100_0000) as byte }

  lemma ByteBound(b: byte)
    ensures 0 <= b as int < 0x100
  {}

  function Word16(s: seq<byte>, o: nat): (w: u16)
    requires o + 2 <= |s|
  {
    ByteBound(s[o]); ByteBound(s[o + 1]);
    s[o] as int + 0x100 * (s[o + 1] as int)
  }

  function Word32(s: seq<byte>, o: nat): (w: u32)
    requires o + 4 <= |s|
  {
    ByteBound(s[o]); ByteBound(s[o + 1]); ByteBound(s[o + 2]); ByteBound(s[o + 3]);
    s[o] as int + 0x100 * (s[o + 1] as int) + 0x1_0000 * (s[o + 2] as int) + 0x100_0000 * (s[o + 3] as int)
  }

  function Bytes16(v: u16): (s: seq<byte>)
    ensures |s| == 2
  {
    [Byte0(v), Byte1(v)]
  }

  function Bytes32(v: u32): (s: seq<byte>)
    ensures |s| == 4
  {
    [Byte0(v), Byte1(v), Byte2(v), Byte3(v)]
  }

  // The case split keeps the solver to small numbers.
  lemma ByteRoundTrip(v: int)
    requires 0 <= v < 0x100
    ensures (v as byte) as int == v
  {
    if v < 128 {
      if v < 64 {} else {}
    } else {
      if v < 192 {} else {}
    }
  }

  lemma Digits(v: u32)
    ensures v == v % 0x100 + 0x100 * (v / 0x100 % 0x100) +
      0x1_0000 * (v / 0x1_0000 % 0x100) + 0x100_0000 * (v / 0x100_0000)
    ensures v < 0x1_0000 ==> v == v % 0x100 + 0x100 * (v / 0x100 % 0x100)
  {
    assert v / 0x1_0000 == v / 0x100 / 0x100;
    assert v / 0x100_0000 == v / 0x100 / 0x100 / 0x100;
  }

  lemma Word32RoundTrip(v: u32, s: seq<byte>, o: nat)
    requires o + 4 <= |s| && s[o..o + 4] == Bytes32(v)
    ensures Word32(s, o) == v
  {
    var t := s[o..o + 4];
    assert s[o] == t[0] && s[o + 1] == t[1] && s[o + 2] == t[2] && s[o + 3] == t[3];
    ByteRoundTrip(v % 0x100);
    ByteRoundTrip(v / 0x100 % 0x100);
    ByteRoundTrip(v / 0x1_0000 % 0x100);
    ByteRoundTrip(v / 0x100_0000);
    Digits(v);
  }

  lemma Word16RoundTrip(v: u16, s: seq<byte>, o: nat)
    requires o + 2 <= |s| && s[o..o + 2] == Bytes16(v)
    ensures Word16(s, o) == v
  {
    var t := s[o..o + 2];
    assert s[o] == t[0] && s[o + 1] == t[1];
    ByteRoundTrip(v % 0x100);
    ByteRoundTrip(v / 0x100 % 0x100);
    Digits(v);
  }

  // The number some bytes stand for, least significant first.
  function Number(s: seq<byte>): nat {
    if s == [] then 0 else ByteBound(s[0]); s[0] as int + 0x100 * Number(s[1..])
  }

  lemma Number16(s: seq<byte>, o: nat)
    requires o + 2 <= |s|
    ensures Word16(s, o) == Number(s[o..o + 2])
  {
    assert s[o..o + 2][1..] == [s[o + 1]];
    assert Number([s[o + 1]]) == s[o + 1] as int;
  }

  lemma Number32(s: seq<byte>, o: nat)
    requires o + 4 <= |s|
    ensures Word32(s, o) == Number(s[o..o + 4])
  {
    assert s[o..o + 4][1..] == s[o + 1..o + 4] && s[o + 1..o + 4][1..] == s[o + 2..o + 4];
    assert s[o + 2..o + 4][1..] == [s[o + 3]];
    assert Number([s[o + 3]]) == s[o + 3] as int;
    assert Number(s[o + 2..o + 4]) == s[o + 2] as int + 0x100 * (s[o + 3] as int);
    assert Number(s[o + 1..o + 4]) == s[o + 1] as int + 0x100 * Number(s[o + 2..o + 4]);
  }

  // ---------- indirect blocks: 128 block numbers ----------

  function Words(b: Block): Pointers {
    seq(NINDIRECT, k requires 0 <= k < NINDIRECT => Word32(b, 4 * k))
  }

  function SetWord(b: Block, k: nat, v: u32): Block
    requires k < NINDIRECT
  {
    b[..4 * k] + Bytes32(v) + b[4 * k + 4..]
  }

  // Entry k of an indirect block is the number in its bytes 4k to 4k + 3.
  lemma WordsAre(b: Block, k: nat)
    requires k < NINDIRECT
    ensures Words(b)[k] == Number(b[4 * k..4 * k + 4])
  {
    Number32(b, 4 * k);
  }

  lemma WordsOfZero()
    ensures forall k :: 0 <= k < NINDIRECT ==> Words(ZeroBlock())[k] == 0
  {}

  lemma SetWordUpdates(b: Block, k: nat, v: u32)
    requires k < NINDIRECT
    ensures Words(SetWord(b, k, v)) == Words(b)[k := v]
  {
    var c := SetWord(b, k, v);
    forall j | 0 <= j < NINDIRECT
      ensures Words(c)[j] == Words(b)[k := v][j]
    {
      if j == k {
        assert c[4 * k..4 * k + 4] == Bytes32(v);
        Word32RoundTrip(v, c, 4 * k);
      } else {
        assert c[4 * j] == b[4 * j] && c[4 * j + 1] == b[4 * j + 1] && c[4 * j + 2] == b[4 * j + 2] &&
          c[4 * j + 3] == b[4 * j + 3];
      }
    }
  }

  // ---------- inode records: 64 bytes each ----------

  function EncodeAddrs(a: seq<u32>): (s: seq<byte>)
    ensures |s| == 4 * |a|
  {
    if a == [] then [] else Bytes32(a[0]) + EncodeAddrs(a[1..])
  }

  function EncodeInode(d: Dinode): (s: seq<byte>)
    ensures |s| == DINODE
  {
    Bytes16(d.ty) + Bytes16(d.major) + Bytes16(d.minor) + Bytes16(d.nlink) + Bytes32(d.size) + EncodeAddrs(d.addrs)
  }

  function DecodeInode(s: seq<byte>): Dinode
    requires |s| == DINODE
  {
    Dinode(Word16(s, 0), Word16(s, 2), Word16(s, 4), Word16(s, 6), Word32(s, 8),
           seq(13, k requires 0 <= k < 13 => Word32(s, 12 + 4 * k)))
  }

  lemma {:induction false} EncodedAddr(a: seq<u32>, k: nat)
    requires k < |a|
    ensures EncodeAddrs(a)[4 * k..4 * k + 4] == Bytes32(a[k])
  {
    var first, rest := Bytes32(a[0]), EncodeAddrs(a[1..]);
    if k == 0 {
    } else {
      EncodedAddr(a[1..], k - 1);
      assert (first + rest)[4 * k..4 * k + 4] == rest[4 * (k - 1)..4 * (k - 1) + 4];
    }
  }

  lemma InodeSlices(d: Dinode)
    ensures var s := EncodeInode(d);
      && s[0..2] == Bytes16(d.ty) && s[2..4] == Bytes16(d.major)
      && s[4..6] == Bytes16(d.minor) && s[6..8] == Bytes16(d.nlink)
      && s[8..12] == Bytes32(d.size) && s[12..] == EncodeAddrs(d.addrs)
  {}

  lemma SliceShift(s: seq<byte>, from: nat, o: nat)
    requires from + o + 4 <= |s|
    ensures s[from + o..from + o + 4] == s[from..][o..o + 4]
  {}

  lemma DecodedAddrs(s: seq<byte>, a: Addrs)
    requires |s| == DINODE && s[12..] == EncodeAddrs(a)
    ensures DecodeInode(s).addrs == a
  {
    forall k | 0 <= k < 13
      ensures Word32(s, 12 + 4 * k) == a[k]
    {
      EncodedAddr(a, k);
      var t := s[12..];
      assert t[4 * k..4 * k + 4] == Bytes32(a[k]);
      SliceShift(s, 12, 4 * k);
      Word32RoundTrip(a[k], s, 12 + 4 * k);
    }
  }

  lemma InodeRoundTrip(d: Dinode)
    ensures DecodeInode(EncodeInode(d)) == d
  {
    InodeSlices(d);
    var s := EncodeInode(d);
    Word16RoundTrip(d.ty, s, 0);
    Word16RoundTrip(d.major, s, 2);
    Word16RoundTrip(d.minor, s, 4);
    Word16RoundTrip(d.nlink, s, 6);
    Word32RoundTrip(d.size, s, 8);
    DecodedAddrs(s, d.addrs);
  }

  function PutRecord(b: Block, k: nat, d: Dinode): Block
    requires k < IPB
  {
    b[..DINODE * k] + EncodeInode(d) + b[DINODE * k + DINODE..]
  }

  function Record(b: Block, k: nat): Dinode
    requires k < IPB
  {
    DecodeInode(b[DINODE * k..DINODE * k + DINODE])
  }

  lemma PutRecordUpdates(b: Block, k: nat, d: Dinode, j: nat)
    requires k < IPB && j < IPB
    ensures Record(PutRecord(b, k, d), j) == if j == k then d else Record(b, j)
  {
    RecordSlice(b, k, EncodeInode(d), j);
    if j == k {
      InodeRoundTrip(d);
    }
  }

  lemma RecordSlice(b: Block, k: nat, x: seq<byte>, j: nat)
    requires k < IPB && j < IPB && |x| == DINODE
    ensures (b[..DINODE * k] + x + b[DINODE * k + DINODE..])[DINODE * j..DINODE * j + DINODE] ==
            if j == k then x else b[DINODE * j..DINODE * j + DINODE]
  {}

  // Where the fields of an inode lie in the 64 bytes of its record.
  predicate Spells(s: seq<byte>, d: Dinode)
    requires |s| == 64
  {
    && d.ty == Number(s[0..2]) && d.major == Number(s[2..4]) && d.minor == Number(s[4..6]) && d.nlink == Number(s[6..8])
    && d.size == Number(s[8..12])
    && forall j :: 0 <= j < 13 ==> d.addrs[j] == Number(s[12 + 4 * j..16 + 4 * j])
  }

  lemma DecodeSpells(s: seq<byte>)
    requires |s| == 64
    ensures Spells(s, DecodeInode(s))
  {
    Number16(s, 0);
    Number16(s, 2);
    Number16(s, 4);
    Number16(s, 6);
    Number32(s, 8);
    forall j | 0 <= j < 13
      ensures DecodeInode(s).addrs[j] == Number(s[12 + 4 * j..16 + 4 * j])
    {
      Number32(s, 12 + 4 * j);
    }
  }

  // ---------- bitmap: bit b%8 of byte (b%BPB)/8 of block b/BPB + bmapstart ----------

  function Mask(b: nat): byte { (1 as byte) << (b % 8) }

  predicate TestBit(blk: Block, bi: nat)
    requires bi < BPB
  {
    blk[bi / 8] & Mask(bi) != 0
  }

  function SetBit(blk: Block, bi: nat): Block
    requires bi < BPB
  {
    blk[bi / 8 := blk[bi / 8] | Mask(bi)]
  }

  function ClearBit(blk: Block, bi: nat): Block
    requires bi < BPB
  {
    blk[bi / 8 := blk[bi / 8] & !Mask(bi)]
  }

  predicate OneBit(m: byte) { m == 1 || m == 2 || m == 4 || m == 8 || m == 16 || m == 32 || m == 64 || m == 128 }

  lemma OneBits(x: byte, m: byte, n: byte)
    requires OneBit(m) && OneBit(n)
    ensures ((x | m) & n != 0) == (m == n || x & n != 0)
    ensures ((x & !m) & n != 0) == (m != n && x & n != 0)
  {}

  lemma MaskIs(b: nat, k: nat)
    requires k == b % 8
    ensures k == 0 ==> Mask(b) == 1
    ensures k == 1 ==> Mask(b) == 2
    ensures k == 2 ==> Mask(b) == 4
    ensures k == 3 ==> Mask(b) == 8
    ensures k == 4 ==> Mask(b) == 16
    ensures k == 5 ==> Mask(b) == 32
    ensures k == 6 ==> Mask(b) == 64
    ensures k == 7 ==> Mask(b) == 128
  {}

  lemma MasksDiffer(i: nat, j: nat)
    ensures OneBit(Mask(i)) && OneBit(Mask(j)) && (Mask(i) == Mask(j) <==> i % 8 == j % 8)
  {
    MaskIs(i, i % 8);
    MaskIs(j, j % 8);
  }

  function Digit(v: nat, j: nat): nat { if j == 0 then v % 2 else Digit(v / 2, j - 1) }

  lemma {:induction false} MaskedDigit(x: byte, j: nat)
    requires j < 8
    ensures x & ((1 as byte) << j) != 0 <==> Digit(x as int, j) == 1
    decreases j
  {
    if j == 0 {
      LowBit(x);
    } else {
      HalfByte(x);
      MaskedDigit(x >> 1, j - 1);
      ShiftedBit(x, j);
    }
  }

  lemma {:induction false} DigitIs(v: nat, j: nat)
    requires j < 8
    ensures Digit(v, j) == v / Pow2(j) % 2
    decreases j
  {
    if j > 0 {
      DigitIs(v / 2, j - 1);
      HalfDigit(v, j);
    }
  }

  // Digit j of a byte in base two, counted from the lowest.
  lemma BinaryDigit(x: byte, j: nat)
    requires j < 8
    ensures x & ((1 as byte) << j) != 0 <==> x as int / Pow2(j) % 2 == 1
  {
    MaskedDigit(x, j);
    DigitIs(x as int, j);
  }

  lemma LowBit(x: byte)
    ensures (x & 1) as int == x as int % 2
  {}

  lemma HalfByte(x: byte)
    ensures (x >> 1) as int == x as int / 2
  {}

  lemma ShiftedBit(x: byte, j: nat)
    requires 0 < j < 8
    ensures x & ((1 as byte) << j) != 0 <==> (x >> 1) & ((1 as byte) << (j - 1)) != 0
  {
    if j == 1 {} else if j == 2 {} else if j == 3 {} else if j == 4 {} else if j == 5 {} else if j == 6 {} else {}
  }

  lemma PowersOfTwo()
    ensures Pow2(0) == 1 && Pow2(1) == 2 && Pow2(2) == 4 && Pow2(3) == 8
    ensures Pow2(4) == 16 && Pow2(5) == 32 && Pow2(6) == 64 && Pow2(7) == 128
  {
    assert Pow2(4) == 2 * Pow2(3) && Pow2(6) == 2 * Pow2(5);
  }

  lemma HalfDigit(v: nat, j: nat)
    requires 0 < j < 8
    ensures v / Pow2(j) == v / 2 / Pow2(j - 1)
  {
    PowersOfTwo();
    if j == 1 {} else if j == 2 {} else if j == 3 {} else if j == 4 {} else if j == 5 {} else if j == 6 {} else {}
  }

  // Bit bi of a block is digit bi % 8 of its byte bi / 8.
  lemma TestBitIs(blk: Block, bi: nat)
    requires bi < BPB
    ensures TestBit(blk, bi) <==> blk[bi / 8] as int / Pow2(bi % 8) % 2 == 1
  {
    BinaryDigit(blk[bi / 8], bi % 8);
  }

  lemma BitUpdates(blk: Block, bi: nat, j: nat)
    requires bi < BPB && j < BPB
    ensures TestBit(SetBit(blk, bi), j) == (j == bi || TestBit(blk, j))
    ensures TestBit(ClearBit(blk, bi), j) == (j != bi && TestBit(blk, j))
  {
    SamePlace(bi, j);
    if j / 8 == bi / 8 {
      MasksDiffer(bi, j);
      OneBits(blk[bi / 8], Mask(bi), Mask(j));
    }
  }

  lemma SamePlace(i: nat, j: nat)
    ensures i == j <==> i / 8 == j / 8 && i % 8 == j % 8
  {
    assert i == 8 * (i / 8) + i % 8 && j == 8 * (j / 8) + j % 8;
  }

  // ---------- the whole disk ----------

  function BBlock(sb: Superblock, b: nat): nat { b / BPB + sb.bmapstart }
  function IBlock(sb: Superblock, i: nat): nat { i / IPB + sb.inodestart }

  // First block behind the bitmap: everything below holds metadata.
  function DataStart(sb: Superblock): nat { sb.bmapstart + sb.size / BPB + 1 }

  // The regions lie in the order fs.h gives, without overlapping.
  predicate Geometry(sb: Superblock) {
    && 2 <= sb.inodestart
    && sb.inodestart + sb.ninodes / IPB < sb.bmapstart
    && DataStart(sb) <= sb.size
  }

  datatype Image = Image(used: seq<bool>, ino: seq<Dinode>, blk: seq<Block>, ptr: seq<Pointers>)

  // What the bytes mean: allocation bits, inode records, and for every data block its
  // bytes and the same bytes read as block numbers.
  ghost predicate Refines(sb: Superblock, raw: seq<Block>, img: Image) {
    && Geometry(sb)
    && |raw| == |img.used| == |img.blk| == |img.ptr| == sb.size
    && |img.ino| == sb.ninodes
    && (forall b {:trigger BBlock(sb, b)} :: 0 <= b < sb.size ==> img.used[b] == TestBit(raw[BBlock(sb, b)], b % BPB))
    && (forall i {:trigger IBlock(sb, i)} :: 0 <= i < sb.ninodes ==> img.ino[i] == Record(raw[IBlock(sb, i)], i % IPB))
    && (forall b :: DataStart(sb) <= b < sb.size ==> img.blk[b] == raw[b])
    && (forall b {:trigger Words(raw[b])} :: DataStart(sb) <= b < sb.size ==> img.ptr[b] == Words(raw[b]))
  }

  lemma Regions(sb: Superblock)
    requires Geometry(sb)
    ensures forall i :: 0 <= i < sb.ninodes ==> sb.inodestart <= IBlock(sb, i) < sb.bmapstart
    ensures forall b :: 0 <= b < sb.size ==> sb.bmapstart <= BBlock(sb, b) < DataStart(sb)
  {}

  // n bytes of the disk from byte x on.
  function DiskBytes(raw: seq<Block>, x: nat, n: nat): (s: seq<byte>)
    requires x + n <= BSIZE * |raw|
  {
    seq(n, j requires 0 <= j < n => raw[(x + j) / BSIZE][(x + j) % BSIZE])
  }

  // The inode table is one array of 64-byte records, and the bitmap one array of bits.
  lemma InodeOnDisk(sb: Superblock, raw: seq<Block>, img: Image, i: nat)
    requires Refines(sb, raw, img) && i < sb.ninodes
    ensures var x := 512 * sb.inodestart + 64 * i;
      x + 64 <= BSIZE * |raw| && Spells(DiskBytes(raw, x, 64), img.ino[i])
  {
    Regions(sb);
    RecordPlace(sb, i);
    RecordSpells(raw, 512 * sb.inodestart + 64 * i, IBlock(sb, i), i % IPB);
  }

  lemma RecordSpells(raw: seq<Block>, x: nat, b: nat, k: nat)
    requires b < |raw| && k < IPB && x == 512 * b + 64 * k
    ensures x + 64 <= BSIZE * |raw| && Spells(DiskBytes(raw, x, 64), Record(raw[b], k))
  {
    InsideBlock(raw, x, b, 64 * k, 64);
    DecodeSpells(DiskBytes(raw, x, 64));
  }

  lemma RecordPlace(sb: Superblock, i: nat)
    ensures 512 * sb.inodestart + 64 * i == 512 * IBlock(sb, i) + 64 * (i % IPB)
  {}

  lemma InsideBlock(raw: seq<Block>, x: nat, b: nat, o: nat, n: nat)
    requires b < |raw| && o + n <= BSIZE && x == 512 * b + o
    ensures x + n <= BSIZE * |raw| && DiskBytes(raw, x, n) == raw[b][o..o + n]
  {}

  lemma BitOnDisk(sb: Superblock, raw: seq<Block>, img: Image, b: nat)
    requires Refines(sb, raw, img) && b < sb.size
    ensures var x := 512 * sb.bmapstart + b / 8;
      && x + 1 <= BSIZE * |raw|
      && (img.used[b] <==> DiskBytes(raw, x, 1)[0] as int / Pow2(b % 8) % 2 == 1)
  {
    BitsOf(sb, raw, img);
    var x := 512 * sb.bmapstart + b / 8;
    assert x == 512 * BBlock(sb, b) + b % BPB / 8;
    InsideBlock(raw, x, BBlock(sb, b), b % BPB / 8, 1);
    TestBitIs(raw[BBlock(sb, b)], b % BPB);
  }

  // The bits the allocator tests are the ones the image speaks of.
  lemma BitsOf(sb: Superblock, raw: seq<Block>, img: Image)
    requires Refines(sb, raw, img)
    ensures |img.used| == sb.size
    ensures forall b :: 0 <= b < sb.size ==>
      BBlock(sb, b) < |raw| && img.used[b] == TestBit(raw[BBlock(sb, b)], b % BPB)
  {}

  lemma PutBlockRefines(sb: Superblock, raw: seq<Block>, img: Image, b: nat, data: Block)
    requires Refines(sb, raw, img) && DataStart(sb) <= b < sb.size
    ensures Refines(sb, raw[b := data], img.(blk := img.blk[b := data], ptr := img.ptr[b := Words(data)]))
  {}

  function PutInode(sb: Superblock, raw: seq<Block>, i: nat, d: Dinode): seq<Block>
    requires IBlock(sb, i) < |raw|
  {
    raw[IBlock(sb, i) := PutRecord(raw[IBlock(sb, i)], i % IPB, d)]
  }

  lemma RecordAfterPut(sb: Superblock, raw: seq<Block>, i: nat, d: Dinode, j: nat)
    requires IBlock(sb, i) < |raw| && IBlock(sb, j) < |raw|
    ensures Record(PutInode(sb, raw, i, d)[IBlock(sb, j)], j % IPB) == if j == i then d
      else Record(raw[IBlock(sb, j)], j % IPB)
  {
    if IBlock(sb, i) == IBlock(sb, j) {
      PutRecordUpdates(raw[IBlock(sb, i)], i % IPB, d, j % IPB);
      assert i == IPB * (i / IPB) + i % IPB && j == IPB * (j / IPB) + j % IPB;
    }
  }

  lemma PutInodeRefines(sb: Superblock, raw: seq<Block>, img: Image, i: nat, d: Dinode)
    requires Refines(sb, raw, img) && i < sb.ninodes
    ensures IBlock(sb, i) < |raw|
    ensures Refines(sb, PutInode(sb, raw, i, d), Image(img.used, img.ino[i := d], img.blk, img.ptr))
  {
    Regions(sb);
    var raw' := PutInode(sb, raw, i, d);
    forall j | 0 <= j < sb.ninodes
      ensures img.ino[i := d][j] == Record(raw'[IBlock(sb, j)], j % IPB)
    {
      RecordAfterPut(sb, raw, i, d, j);
    }
  }

  lemma PutBitRefines(sb: Superblock, raw: seq<Block>, img: Image, b: nat, on: bool)
    requires Refines(sb, raw, img) && b < sb.size
    ensures BBlock(sb, b) < |raw|
    ensures var x := raw[BBlock(sb, b)];
            Refines(sb, raw[BBlock(sb, b) := if on then SetBit(x, b % BPB) else ClearBit(x, b % BPB)],
              img.(used := img.used[b := on]))
  {
    Regions(sb);
    var x := raw[BBlock(sb, b)];
    var raw' := raw[BBlock(sb, b) := if on then SetBit(x, b % BPB) else ClearBit(x, b % BPB)];
    forall c | 0 <= c < sb.size
      ensures img.used[b := on][c] == TestBit(raw'[BBlock(sb, c)], c % BPB)
    {
      BitUpdates(x, b % BPB, c % BPB);
    }
  }
}
