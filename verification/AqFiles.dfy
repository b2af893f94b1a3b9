/** Files of AqFS 2 with one header page each (Aqfs.c:192-229 and 412-591, AqfsTools.c:462-641):
    chains of extents of whole sectors, appended to and read from any offset. */
module AqFiles {
  import opened Layout
  import opened Path
  import Alloc = AqAllocator

  const SECTOR := 512
  const PAGE := 8
  const ENTRIES := 112

  // ---------- what is on the disk ----------

  // AqFhdrEntry_t; inUse says that the magic number is there.
  datatype Entry = Entry(inUse: bool, spread: nat, used: nat, offset: nat, id: nat, nextOff: nat,
                         nextHdr: nat, location: nat)

  function NoEntry(): Entry { Entry(false, 0, 0, 0, 0, 0, 0, 0) }

  // AqFhdr_t
  datatype Header = Header(usedEntrys: nat, location: nat, entrys: seq<Entry>)

  function NoHeader(p: nat): Header { Header(0, p, seq(ENTRIES, _ => NoEntry())) }

  // AqFile_t
  datatype File = File(headers: nat, dataSize: nat, size: nat, lastEntryOff: nat, lastEntryHdr: nat,
                       location: nat, firstFileHeader: nat, lastFileHeader: nat)

  // A header page takes eight sectors.
  datatype Sector = Data(bytes: seq<byte>) | Page(hdr: Header, part: nat) | Desc(file: File) | Blank

  type Disk = map<nat, Sector>

  function Peek(disk: Disk, a: nat): Sector { if a in disk then disk[a] else Blank }

  // Byte k of the data from sector a on.
  function ByteOf(disk: Disk, a: nat, k: nat): byte {
    match Peek(disk, a + k / SECTOR)
    case Data(b) => if k % SECTOR < |b| then b[k % SECTOR] else 0
    case _ => 0
  }

  function ReadSectors(disk: Disk, a: nat, n: nat): (b: seq<byte>)
    ensures |b| == SECTOR * n
  {
    seq(SECTOR * n, k requires 0 <= k < SECTOR * n => ByteOf(disk, a, k))
  }

  function WriteSectors(disk: Disk, a: nat, n: nat, b: seq<byte>): Disk
    requires |b| == SECTOR * n
  {
    if n == 0 then disk
    else WriteSectors(disk, a, n - 1, b[..SECTOR * (n - 1)])[a + n - 1 := Data(b[SECTOR * (n - 1)..])]
  }

  // Only the n sectors from a on may differ.
  ghost predicate SameOutside(disk: Disk, disk': Disk, a: nat, n: nat) {
    forall s: nat {:trigger Peek(disk', s)} :: s < a || a + n <= s ==> Peek(disk', s) == Peek(disk, s)
  }

  lemma OneMore(disk: Disk, disk': Disk, a: nat, n: nat, x: Sector)
    requires SameOutside(disk, disk', a, n)
    ensures SameOutside(disk, disk'[a + n := x], a, n + 1)
  {
    forall s: nat | s < a || a + n + 1 <= s
      ensures Peek(disk'[a + n := x], s) == Peek(disk, s)
    {
      assert Peek(disk', s) == Peek(disk, s);
    }
  }

  lemma {:induction false} WrittenBytes(disk: Disk, a: nat, n: nat, b: seq<byte>)
    requires |b| == SECTOR * n
    ensures forall k :: 0 <= k < SECTOR * n ==> ByteOf(WriteSectors(disk, a, n, b), a, k) == b[k]
    ensures SameOutside(disk, WriteSectors(disk, a, n, b), a, n)
  {
    if n > 0 {
      var c := b[..SECTOR * (n - 1)];
      WrittenBytes(disk, a, n - 1, c);
      OneMore(disk, WriteSectors(disk, a, n - 1, c), a, n - 1, Data(b[SECTOR * (n - 1)..]));
      forall k | 0 <= k < SECTOR * n
        ensures ByteOf(WriteSectors(disk, a, n, b), a, k) == b[k]
      {
        if k < SECTOR * (n - 1) {
          assert ByteOf(WriteSectors(disk, a, n - 1, c), a, k) == c[k];
        } else {
          assert k == SECTOR * (n - 1) + k % SECTOR && k / SECTOR == n - 1;
        }
      }
    }
  }

  function WritePage(disk: Disk, hdr: Header): Disk { WriteParts(disk, hdr, PAGE) }

  function WriteParts(disk: Disk, hdr: Header, k: nat): Disk {
    if k == 0 then disk else WriteParts(disk, hdr, k - 1)[hdr.location + k - 1 := Page(hdr, k - 1)]
  }

  // The page at p; a page that is not whole reads as an empty one.
  function PageAt(disk: Disk, p: nat): Header {
    match Peek(disk, p)
    case Page(hdr, _) => if Intact(disk, p, hdr) then hdr else NoHeader(p)
    case _ => NoHeader(p)
  }

  predicate Intact(disk: Disk, p: nat, hdr: Header) {
    forall k {:trigger Page(hdr, k)} :: 0 <= k < PAGE ==> Peek(disk, p + k) == Page(hdr, k)
  }

  lemma PageIs(disk: Disk, p: nat, hdr: Header)
    requires Intact(disk, p, hdr)
    ensures PageAt(disk, p) == hdr
  {
    assert Peek(disk, p + 0) == Page(hdr, 0);
  }

  lemma {:induction false} PartsWritten(disk: Disk, hdr: Header, k: nat)
    ensures forall j :: 0 <= j < k ==> Peek(WriteParts(disk, hdr, k), hdr.location + j) == Page(hdr, j)
    ensures SameOutside(disk, WriteParts(disk, hdr, k), hdr.location, k)
  {
    if k > 0 {
      PartsWritten(disk, hdr, k - 1);
      OneMore(disk, WriteParts(disk, hdr, k - 1), hdr.location, k - 1, Page(hdr, k - 1));
    }
  }

  // ---------- whose sectors they are ----------

  datatype Role = Descriptor | PagePart | Extent(index: nat)

  // Each sector that was handed out belongs to one part of one file; files go by the sector of
  // their descriptor.
  type Owner = map<nat, (nat, Role)>

  predicate Owns(owner: Owner, a: nat, h: nat, role: Role) { a in owner && owner[a] == (h, role) }

  // ---------- a file's chain of extents ----------

  // Entry i of a page with m extents: linked in order, and full up to the last one, which has
  // less than a sector of slack.
  predicate EntryShape(e: Entry, i: nat, m: nat) {
    if i < m then
      && e.inUse && e.id == i && e.offset == 0
      && e.nextOff == (if i + 1 < m then i + 1 else 0)
      && 0 < e.used <= SECTOR * e.spread < e.used + SECTOR
      && (i + 1 < m ==> e.used == SECTOR * e.spread)
    else e == NoEntry()
  }

  predicate Shape(hdr: Header, p: nat) {
    && |hdr.entrys| == ENTRIES && hdr.usedEntrys <= ENTRIES && hdr.location == p
    && forall i :: 0 <= i < ENTRIES ==> EntryShape(hdr.entrys[i], i, hdr.usedEntrys)
  }

  // Where an extent's bytes start in the file.
  function Start(es: seq<Entry>, i: nat): nat
    requires i <= |es|
  {
    if i == 0 then 0 else Start(es, i - 1) + es[i - 1].used
  }

  lemma {:induction false} StartSame(es: seq<Entry>, fs: seq<Entry>, i: nat)
    requires i <= |es| && i <= |fs| && forall j :: 0 <= j < i ==> es[j].used == fs[j].used
    ensures Start(es, i) == Start(fs, i)
  {
    if i > 0 {
      StartSame(es, fs, i - 1);
    }
  }

  lemma {:induction false} StartGrows(es: seq<Entry>, i: nat, j: nat)
    requires i <= j <= |es|
    ensures Start(es, i) <= Start(es, j)
  {
    if i < j {
      StartGrows(es, i, j - 1);
    }
  }

  // The extent's sectors belong to it, and begin with these bytes.
  predicate ExtentOk(disk: Disk, owner: Owner, h: nat, i: nat, e: Entry, bytes: seq<byte>) {
    && |bytes| == e.used
    && (forall s :: e.location <= s < e.location + e.spread ==> Owns(owner, s, h, Extent(i)))
    && (forall k :: 0 <= k < |bytes| ==> ByteOf(disk, e.location, k) == bytes[k])
  }

  function Piece(content: seq<byte>, es: seq<Entry>, i: nat): seq<byte>
    requires i < |es|
  {
    if Start(es, i) + es[i].used <= |content| then content[Start(es, i)..Start(es, i) + es[i].used] else []
  }

  // The page at p is the chain of a file with this content.
  ghost predicate BodyOk(disk: Disk, owner: Owner, h: nat, p: nat, hdr: Header, content: seq<byte>) {
    && p > 0 && Shape(hdr, p) && Intact(disk, p, hdr)
    && (forall k :: p <= k < p + PAGE ==> Owns(owner, k, h, PagePart))
    && |content| == Start(hdr.entrys, hdr.usedEntrys)
    && (forall i :: 0 <= i < hdr.usedEntrys ==>
         ExtentOk(disk, owner, h, i, hdr.entrys[i], Piece(content, hdr.entrys, i)))
  }

  ghost predicate FileOk(disk: Disk, owner: Owner, h: nat, f: File, content: seq<byte>) {
    && h > 0 && f.location == h && Owns(owner, h, h, Descriptor) && Peek(disk, h) == Desc(f)
    && f.dataSize == |content|
    && (if f.headers == 0 then
          f.firstFileHeader == f.lastFileHeader == f.lastEntryHdr == f.size == 0 && content == []
        else
          var hdr := PageAt(disk, f.firstFileHeader);
          && f.headers == 1 && f.lastEntryOff + 1 == hdr.usedEntrys
          && f.firstFileHeader == f.lastFileHeader == f.lastEntryHdr
          && BodyOk(disk, owner, h, f.firstFileHeader, hdr, content)
          && f.size == |content| + Slack(hdr.entrys[f.lastEntryOff]))
  }

  // The bookkeeping of a file with a page: the size is the sum of what the extents use, every
  // extent but the last is full, and the last has less than a sector of slack.
  lemma Bookkeeping(disk: Disk, owner: Owner, h: nat, f: File, content: seq<byte>)
    requires FileOk(disk, owner, h, f, content) && f.headers != 0
    ensures var hdr := PageAt(disk, f.firstFileHeader); var m := hdr.usedEntrys;
      && 0 < m <= |hdr.entrys| && f.dataSize == Start(hdr.entrys, m)
      && (forall i :: 0 <= i < m - 1 ==> Slack(hdr.entrys[i]) == 0)
      && 0 <= Slack(hdr.entrys[m - 1]) < SECTOR && f.size == f.dataSize + Slack(hdr.entrys[m - 1])
  {
    var hdr := PageAt(disk, f.firstFileHeader);
    forall i | 0 <= i < hdr.usedEntrys
      ensures EntryShape(hdr.entrys[i], i, hdr.usedEntrys)
    {}
  }

  // ---------- what a step leaves alone ----------

  // Nothing of file h changes hands or content.
  predicate Kept(disk: Disk, owner: Owner, disk': Disk, owner': Owner, h: nat) {
    forall a :: a in owner && owner[a].0 == h ==>
      a in owner' && owner'[a] == owner[a] && Peek(disk', a) == Peek(disk, a)
  }

  // The same, but for the descriptor.
  predicate KeptBody(disk: Disk, owner: Owner, disk': Disk, owner': Owner, h: nat) {
    forall a :: a in owner && owner[a].0 == h && owner[a].1 != Descriptor ==>
      a in owner' && owner'[a] == owner[a] && Peek(disk', a) == Peek(disk, a)
  }

  lemma ExtentKept(disk: Disk, owner: Owner, disk': Disk, owner': Owner, h: nat, i: nat, e: Entry, bytes: seq<byte>)
    requires ExtentOk(disk, owner, h, i, e, bytes) && |bytes| <= SECTOR * e.spread
    requires forall a :: Owns(owner, a, h, Extent(i)) ==>
      Owns(owner', a, h, Extent(i)) && Peek(disk', a) == Peek(disk, a)
    ensures ExtentOk(disk', owner', h, i, e, bytes)
  {}

  lemma BodyKept(disk: Disk, owner: Owner, disk': Disk, owner': Owner, h: nat, p: nat, hdr: Header, content: seq<byte>)
    requires BodyOk(disk, owner, h, p, hdr, content) && KeptBody(disk, owner, disk', owner', h)
    ensures BodyOk(disk', owner', h, p, hdr, content)
  {
    forall k | 0 <= k < PAGE
      ensures Peek(disk', p + k) == Page(hdr, k)
    {
      assert Owns(owner, p + k, h, PagePart);
    }
    forall k | p <= k < p + PAGE
      ensures Owns(owner', k, h, PagePart)
    {
      assert Owns(owner, k, h, PagePart);
    }
    forall i | 0 <= i < hdr.usedEntrys
      ensures ExtentOk(disk', owner', h, i, hdr.entrys[i], Piece(content, hdr.entrys, i))
    {
      assert EntryShape(hdr.entrys[i], i, hdr.usedEntrys);
      ExtentKept(disk, owner, disk', owner', h, i, hdr.entrys[i], Piece(content, hdr.entrys, i));
    }
  }

  // So a file is the same after anything that happens to sectors of other files.
  lemma FileKept(disk: Disk, owner: Owner, disk': Disk, owner': Owner, h: nat, f: File, content: seq<byte>)
    requires FileOk(disk, owner, h, f, content) && Kept(disk, owner, disk', owner', h)
    ensures FileOk(disk', owner', h, f, content)
  {
    if f.headers != 0 {
      BodyKept(disk, owner, disk', owner', h, f.firstFileHeader, PageAt(disk, f.firstFileHeader), content);
      PageIs(disk', f.firstFileHeader, PageAt(disk, f.firstFileHeader));
    }
  }

  // ---------- filling up the last extent ----------

  // The sectors read back with buf copied in at byte r.
  function Patched(was: seq<byte>, r: nat, buf: seq<byte>): (b: seq<byte>)
    requires buf != [] ==> r + |buf| <= |was|
    ensures |b| == |was|
  {
    if buf == [] then was else was[..r] + buf + was[r + |buf|..]
  }

  // How many sectors n bytes take.
  function SectorsFor(n: nat): nat { (n + SECTOR - 1) / SECTOR }

  predicate LastShape(e: Entry) { 0 < e.used <= SECTOR * e.spread < e.used + SECTOR }

  // What fits behind an extent's data fits the sectors that are read for it.
  lemma FillFits(e: Entry, n: nat)
    requires LastShape(e) && 0 < n <= SECTOR * e.spread - e.used
    ensures SectorsFor(n) == 1 && e.used / SECTOR == e.spread - 1
    ensures e.used % SECTOR + n <= SECTOR
  {}

  // The sectors from the end of the data on are read, patched and written back.
  function FillSectors(disk: Disk, e: Entry, buf: seq<byte>): Disk
    requires LastShape(e) && |buf| <= SECTOR * e.spread - e.used
  {
    if buf != [] then FillFits(e, |buf|);
      var n, at := SectorsFor(|buf|), e.location + e.used / SECTOR;
      WriteSectors(disk, at, n, Patched(ReadSectors(disk, at, n), e.used % SECTOR, buf))
    else disk
  }

  lemma ByteShift(disk: Disk, a: nat, q: nat, k: nat)
    requires k < SECTOR
    ensures ByteOf(disk, a + q, k) == ByteOf(disk, a, SECTOR * q + k)
  {}

  lemma FillExtent(disk: Disk, owner: Owner, h: nat, i: nat, e: Entry, bytes: seq<byte>, buf: seq<byte>)
    requires ExtentOk(disk, owner, h, i, e, bytes) && LastShape(e) && |buf| <= SECTOR * e.spread - e.used
    ensures SameOutside(disk, FillSectors(disk, e, buf), e.location, e.spread)
    ensures ExtentOk(FillSectors(disk, e, buf), owner, h, i, e.(used := e.used + |buf|), bytes + buf)
  {
    if buf != [] {
      FillFits(e, |buf|);
      var q, r := e.used / SECTOR, e.used % SECTOR;
      var at, disk' := e.location + q, FillSectors(disk, e, buf);
      var b := Patched(ReadSectors(disk, at, 1), r, buf);
      WrittenBytes(disk, at, 1, b);
      forall k | 0 <= k < e.used + |buf|
        ensures ByteOf(disk', e.location, k) == (bytes + buf)[k]
      {
        FilledByte(disk, disk', e.location, q, r, bytes, buf, b, k);
      }
    } else {
      assert bytes + buf == bytes;
    }
  }

  lemma FilledByte(disk: Disk, disk': Disk, a: nat, q: nat, r: nat, bytes: seq<byte>, buf: seq<byte>, b: seq<byte>,
                   k: nat)
    requires |bytes| == SECTOR * q + r && r + |buf| <= SECTOR && k < |bytes| + |buf| && buf != []
    requires b == Patched(ReadSectors(disk, a + q, 1), r, buf)
    requires SameOutside(disk, disk', a + q, 1) && forall j :: 0 <= j < SECTOR ==> ByteOf(disk', a + q, j) == b[j]
    requires forall j :: 0 <= j < |bytes| ==> ByteOf(disk, a, j) == bytes[j]
    ensures ByteOf(disk', a, k) == (bytes + buf)[k]
  {
    if k < SECTOR * q {
      assert k / SECTOR < q;
      assert Peek(disk', a + k / SECTOR) == Peek(disk, a + k / SECTOR);
      assert ByteOf(disk, a, k) == bytes[k];
    } else {
      var j := k - SECTOR * q;
      ByteShift(disk', a, q, j);
      ByteShift(disk, a, q, j);
      assert ByteOf(disk', a + q, j) == b[j];
      if j < r {
        assert ByteOf(disk, a, k) == bytes[k];
      }
    }
  }

  // ---------- the chain after a step ----------

  // The page was written, and nothing else since.
  ghost predicate PageOver(disk: Disk, disk': Disk, hdr: Header) {
    Intact(disk', hdr.location, hdr) && SameOutside(disk, disk', hdr.location, PAGE)
  }

  lemma PageWritten(disk: Disk, hdr: Header)
    ensures PageOver(disk, WritePage(disk, hdr), hdr)
  {
    PartsWritten(disk, hdr, PAGE);
  }

  // A page may be written several times over.
  lemma PageAgain(disk: Disk, disk': Disk, h1: Header, h2: Header)
    requires PageOver(disk, disk', h1) && h1.location == h2.location
    ensures PageOver(disk, WritePage(disk', h2), h2)
  {
    PageWritten(disk', h2);
    forall s: nat | s < h2.location || h2.location + PAGE <= s
      ensures Peek(WritePage(disk', h2), s) == Peek(disk, s)
    {
      assert Peek(WritePage(disk', h2), s) == Peek(disk', s);
    }
  }

  function Filled(hdr: Header, n: nat): Header
    requires 0 < hdr.usedEntrys <= |hdr.entrys|
  {
    var last := hdr.usedEntrys - 1;
    hdr.(entrys := hdr.entrys[last := hdr.entrys[last].(used := hdr.entrys[last].used + n)])
  }

  function Slack(e: Entry): int { SECTOR * e.spread - e.used }

  lemma FilledPieces(hdr: Header, content: seq<byte>, buf: seq<byte>)
    requires 0 < hdr.usedEntrys <= |hdr.entrys| && |content| == Start(hdr.entrys, hdr.usedEntrys)
    ensures var m, fs := hdr.usedEntrys, Filled(hdr, |buf|).entrys;
      && |content + buf| == Start(fs, m)
      && Piece(content + buf, fs, m - 1) == Piece(content, hdr.entrys, m - 1) + buf
      && forall i :: 0 <= i < m - 1 ==> Piece(content + buf, fs, i) == Piece(content, hdr.entrys, i)
  {
    var m, es, fs := hdr.usedEntrys, hdr.entrys, Filled(hdr, |buf|).entrys;
    StartSame(es, fs, m - 1);
    forall i | 0 <= i < m - 1
      ensures Piece(content + buf, fs, i) == Piece(content, es, i)
    {
      StartSame(es, fs, i);
      StartGrows(es, i + 1, m);
    }
  }

  // Extents off the page are not touched by writing it.
  lemma ExtentOverPage(disk: Disk, disk': Disk, owner: Owner, h: nat, p: nat, hdr: Header, i: nat, e: Entry,
                       bytes: seq<byte>)
    requires ExtentOk(disk, owner, h, i, e, bytes) && |bytes| <= SECTOR * e.spread
    requires hdr.location == p && PageOver(disk, disk', hdr)
    requires forall k :: p <= k < p + PAGE ==> Owns(owner, k, h, PagePart)
    ensures ExtentOk(disk', owner, h, i, e, bytes)
  {
    forall a | Owns(owner, a, h, Extent(i))
      ensures Peek(disk', a) == Peek(disk, a)
    {
      assert !Owns(owner, a, h, PagePart);
    }
    ExtentKept(disk, owner, disk', owner, h, i, e, bytes);
  }

  // Nor are extents off the sectors of another one.
  lemma ExtentOverExtent(disk: Disk, disk': Disk, owner: Owner, h: nat, i: nat, e: Entry, bytes: seq<byte>, j: nat,
                         f: Entry)
    requires ExtentOk(disk, owner, h, i, e, bytes) && |bytes| <= SECTOR * e.spread && i != j
    requires SameOutside(disk, disk', f.location, f.spread)
    requires forall k :: f.location <= k < f.location + f.spread ==> Owns(owner, k, h, Extent(j))
    ensures ExtentOk(disk', owner, h, i, e, bytes)
  {
    forall a | Owns(owner, a, h, Extent(i))
      ensures Peek(disk', a) == Peek(disk, a)
    {
      assert !Owns(owner, a, h, Extent(j));
    }
    ExtentKept(disk, owner, disk', owner, h, i, e, bytes);
  }

  // An extent neither written itself (as extent m was, giving disk1) nor on the page written then.
  lemma OtherExtent(disk: Disk, disk1: Disk, disk': Disk, owner: Owner, h: nat, p: nat, hdr: Header,
                    m: nat, e: Entry, was: seq<byte>, i: nat, f: Entry, bytes: seq<byte>)
    requires i != m && ExtentOk(disk, owner, h, i, f, bytes) && |bytes| <= SECTOR * f.spread
    requires ExtentOk(disk, owner, h, m, e, was) && SameOutside(disk, disk1, e.location, e.spread)
    requires hdr.location == p && PageOver(disk1, disk', hdr)
    requires forall k :: p <= k < p + PAGE ==> Owns(owner, k, h, PagePart)
    ensures ExtentOk(disk', owner, h, i, f, bytes)
  {
    ExtentOverExtent(disk, disk1, owner, h, i, f, bytes, m, e);
    ExtentOverPage(disk1, disk', owner, h, p, hdr, i, f, bytes);
  }

  lemma FilledShape(hdr: Header, p: nat, n: nat)
    requires Shape(hdr, p) && 0 < hdr.usedEntrys && n <= Slack(hdr.entrys[hdr.usedEntrys - 1])
    ensures Shape(Filled(hdr, n), p)
  {}

  // disk1: the data of the last extent grew by buf; disk': its entry says so.
  ghost predicate Fills(disk: Disk, disk1: Disk, disk': Disk, owner: Owner, h: nat, hdr: Header,
                        bytes: seq<byte>, buf: seq<byte>)
    requires 0 < hdr.usedEntrys <= |hdr.entrys|
  {
    var m := hdr.usedEntrys - 1;
    var e := hdr.entrys[m];
    && LastShape(e) && |buf| <= Slack(e)
    && ExtentOk(disk, owner, h, m, e, bytes)
    && SameOutside(disk, disk1, e.location, e.spread)
    && ExtentOk(disk1, owner, h, m, e.(used := e.used + |buf|), bytes + buf)
    && PageOver(disk1, disk', Filled(hdr, |buf|))
  }

  lemma FillOne(disk: Disk, disk1: Disk, disk': Disk, owner: Owner, h: nat, p: nat, hdr: Header,
                bytes: seq<byte>, buf: seq<byte>, i: nat, piece: seq<byte>)
    requires i < hdr.usedEntrys <= |hdr.entrys| && hdr.location == p &&
      Fills(disk, disk1, disk', owner, h, hdr, bytes, buf)
    requires forall k :: p <= k < p + PAGE ==> Owns(owner, k, h, PagePart)
    requires i < hdr.usedEntrys - 1 ==>
      ExtentOk(disk, owner, h, i, hdr.entrys[i], piece) && |piece| <= SECTOR * hdr.entrys[i].spread
    requires i == hdr.usedEntrys - 1 ==> piece == bytes + buf
    ensures ExtentOk(disk', owner, h, i, Filled(hdr, |buf|).entrys[i], piece)
  {
    var m := hdr.usedEntrys - 1;
    var e, f := hdr.entrys[m], hdr.entrys[i];
    if i < m {
      OtherExtent(disk, disk1, disk', owner, h, p, Filled(hdr, |buf|), m, e, bytes, i, f, piece);
    } else {
      ExtentOverPage(disk1, disk', owner, h, p, Filled(hdr, |buf|), m, e.(used := e.used + |buf|), piece);
    }
  }

  lemma FillBody(disk: Disk, disk1: Disk, disk': Disk, owner: Owner, h: nat, p: nat, hdr: Header,
                 content: seq<byte>, buf: seq<byte>)
    requires BodyOk(disk, owner, h, p, hdr, content) && 0 < hdr.usedEntrys
    requires Fills(disk, disk1, disk', owner, h, hdr, Piece(content, hdr.entrys, hdr.usedEntrys - 1), buf)
    ensures BodyOk(disk', owner, h, p, Filled(hdr, |buf|), content + buf)
  {
    var m, fs := hdr.usedEntrys, Filled(hdr, |buf|).entrys;
    FilledShape(hdr, p, |buf|);
    FilledPieces(hdr, content, buf);
    forall i | 0 <= i < m
      ensures ExtentOk(disk', owner, h, i, fs[i], Piece(content + buf, fs, i))
    {
      assert EntryShape(hdr.entrys[i], i, m);
      FillOne(disk, disk1, disk', owner, h, p, hdr, Piece(content, hdr.entrys, m - 1), buf, i,
        Piece(content + buf, fs, i));
    }
  }

  // The same for n bytes into entry `last`.
  lemma FillLast(disk: Disk, disk1: Disk, disk': Disk, owner: Owner, h: nat, p: nat, hdr: Header, last: nat,
                 content: seq<byte>, part: seq<byte>, n: nat)
    requires BodyOk(disk, owner, h, p, hdr, content) && last + 1 == hdr.usedEntrys && n == |part|
    requires Fills(disk, disk1, disk', owner, h, hdr, Piece(content, hdr.entrys, last), part)
    ensures BodyOk(disk', owner, h, p, Filled(hdr, n), content + part)
    ensures Filled(hdr, n).usedEntrys == hdr.usedEntrys
    ensures Slack(Filled(hdr, n).entrys[last]) == Slack(hdr.entrys[last]) - n
  {
    FillBody(disk, disk1, disk', owner, h, p, hdr, content, part);
  }

  // Sectors that nobody owned become one part of file h.
  predicate Claimed(owner: Owner, owner': Owner, h: nat, loc: nat, n: nat, role: Role) {
    && (forall s :: loc <= s < loc + n ==> s !in owner && Owns(owner', s, h, role))
    && (forall a :: a in owner ==> a in owner' && owner'[a] == owner[a])
    && (forall a :: a in owner' ==> a in owner || loc <= a < loc + n)
  }

  function Claim(owner: Owner, h: nat, loc: nat, n: nat, role: Role): Owner {
    if n == 0 then owner else Claim(owner, h, loc, n - 1, role)[loc + n - 1 := (h, role)]
  }

  lemma {:induction false} ClaimOk(owner: Owner, h: nat, loc: nat, n: nat, role: Role)
    requires forall a :: a in owner ==> loc + n <= a
    ensures Claimed(owner, Claim(owner, h, loc, n, role), h, loc, n, role)
  {
    if n > 0 {
      ClaimOk(owner, h, loc, n - 1, role);
    }
  }

  // A new last entry, linked from the one that was last.
  function Extended(hdr: Header, e: Entry): Header
    requires hdr.usedEntrys < |hdr.entrys|
  {
    var m := hdr.usedEntrys;
    var linked := if m > 0 then hdr.entrys[m - 1 := hdr.entrys[m - 1].(nextOff := m, nextHdr := hdr.location)]
      else hdr.entrys;
    Header(m + 1, hdr.location, linked[m := e])
  }

  function NewEntry(m: nat, loc: nat, n: nat, used: nat): Entry { Entry(true, n, used, 0, m, 0, 0, loc) }

  lemma ExtendedPieces(hdr: Header, content: seq<byte>, e: Entry, chunk: seq<byte>)
    requires hdr.usedEntrys < |hdr.entrys| && |content| == Start(hdr.entrys, hdr.usedEntrys) && e.used == |chunk|
    ensures var m, fs := hdr.usedEntrys, Extended(hdr, e).entrys;
      && |content + chunk| == Start(fs, m + 1)
      && Piece(content + chunk, fs, m) == chunk
      && forall i :: 0 <= i < m ==> Piece(content + chunk, fs, i) == Piece(content, hdr.entrys, i)
  {
    var m, es, fs := hdr.usedEntrys, hdr.entrys, Extended(hdr, e).entrys;
    StartSame(es, fs, m);
    forall i | 0 <= i < m
      ensures Piece(content + chunk, fs, i) == Piece(content, es, i)
    {
      StartSame(es, fs, i);
      StartGrows(es, i + 1, m);
    }
  }

  lemma ExtendedShape(hdr: Header, p: nat, e: Entry)
    requires Shape(hdr, p) && hdr.usedEntrys < ENTRIES && LastShape(e)
    requires e == NewEntry(hdr.usedEntrys, e.location, e.spread, e.used)
    requires hdr.usedEntrys > 0 ==> Slack(hdr.entrys[hdr.usedEntrys - 1]) == 0
    ensures Shape(Extended(hdr, e), p)
  {}

  // The steps of adding an extent: disk1 has its data, disk' the new page as well.
  ghost predicate Extends(disk: Disk, disk1: Disk, disk': Disk, owner: Owner, owner': Owner, h: nat,
                          hdr: Header, e: Entry, chunk: seq<byte>) {
    && LastShape(e) && e.used == |chunk| && hdr.usedEntrys < |hdr.entrys|
    && Claimed(owner, owner', h, e.location, e.spread, Extent(hdr.usedEntrys))
    && SameOutside(disk, disk1, e.location, e.spread)
    && (forall k :: 0 <= k < |chunk| ==> ByteOf(disk1, e.location, k) == chunk[k])
    && PageOver(disk1, disk', Extended(hdr, e))
  }

  lemma OldExtent(disk: Disk, disk1: Disk, owner: Owner, owner': Owner, h: nat, loc: nat, n: nat, role: Role,
                  i: nat, e: Entry, bytes: seq<byte>)
    requires ExtentOk(disk, owner, h, i, e, bytes) && |bytes| <= SECTOR * e.spread
    requires Claimed(owner, owner', h, loc, n, role) && SameOutside(disk, disk1, loc, n)
    ensures ExtentOk(disk1, owner', h, i, e, bytes)
  {
    forall a | Owns(owner, a, h, Extent(i))
      ensures Owns(owner', a, h, Extent(i)) && Peek(disk1, a) == Peek(disk, a)
    {}
    ExtentKept(disk, owner, disk1, owner', h, i, e, bytes);
  }

  lemma ExtendOne(disk: Disk, disk1: Disk, disk': Disk, owner: Owner, owner': Owner, h: nat, p: nat,
                  hdr: Header, content: seq<byte>, e: Entry, chunk: seq<byte>, i: nat)
    requires BodyOk(disk, owner, h, p, hdr, content) && i <= hdr.usedEntrys < ENTRIES
    requires EntryShape(hdr.entrys[i], i, hdr.usedEntrys)
    requires Extends(disk, disk1, disk', owner, owner', h, hdr, e, chunk)
    requires forall k :: p <= k < p + PAGE ==> Owns(owner', k, h, PagePart)
    ensures ExtentOk(disk', owner', h, i, Extended(hdr, e).entrys[i],
      Piece(content + chunk, Extended(hdr, e).entrys, i))
  {
    ExtendedPieces(hdr, content, e, chunk);
    var f := Extended(hdr, e).entrys[i];
    var piece := Piece(content + chunk, Extended(hdr, e).entrys, i);
    if i < hdr.usedEntrys {
      OldExtent(disk, disk1, owner, owner', h, e.location, e.spread, Extent(hdr.usedEntrys), i, hdr.entrys[i], piece);
    }
    ExtentOverPage(disk1, disk', owner', h, p, Extended(hdr, e), i, f, piece);
  }

  lemma ExtendBody(disk: Disk, disk1: Disk, disk': Disk, owner: Owner, owner': Owner, h: nat, p: nat,
                   hdr: Header, content: seq<byte>, e: Entry, chunk: seq<byte>)
    requires BodyOk(disk, owner, h, p, hdr, content) && hdr.usedEntrys < ENTRIES
    requires hdr.usedEntrys > 0 ==> Slack(hdr.entrys[hdr.usedEntrys - 1]) == 0
    requires e == NewEntry(hdr.usedEntrys, e.location, e.spread, e.used)
    requires Extends(disk, disk1, disk', owner, owner', h, hdr, e, chunk)
    ensures BodyOk(disk', owner', h, p, Extended(hdr, e), content + chunk)
  {
    ExtendedShape(hdr, p, e);
    ExtendedPieces(hdr, content, e, chunk);
    forall k | p <= k < p + PAGE
      ensures Owns(owner', k, h, PagePart)
    {
      assert Owns(owner, k, h, PagePart);
    }
    forall i | 0 <= i < hdr.usedEntrys + 1
      ensures ExtentOk(disk', owner', h, i, Extended(hdr, e).entrys[i],
        Piece(content + chunk, Extended(hdr, e).entrys, i))
    {
      assert EntryShape(hdr.entrys[i], i, hdr.usedEntrys);
      ExtendOne(disk, disk1, disk', owner, owner', h, p, hdr, content, e, chunk, i);
    }
  }

  // ---------- reading ----------

  // b is what the file holds from byte `at` on.
  predicate IsPart(b: seq<byte>, content: seq<byte>, at: nat) {
    at + |b| <= |content| && forall k :: 0 <= k < |b| ==> b[k] == content[at + k]
  }

  lemma PartsJoin(a: seq<byte>, b: seq<byte>, content: seq<byte>, at: nat)
    requires IsPart(a, content, at) && IsPart(b, content, at + |a|)
    ensures IsPart(a + b, content, at)
  {}

  // The sectors read for the first bytes of a piece hold those bytes.
  lemma SectorBytes(disk: Disk, a: nat, n: nat, piece: seq<byte>, from: nat, to: nat)
    requires from <= to <= |piece| && to <= SECTOR * n
    requires forall k :: 0 <= k < |piece| ==> ByteOf(disk, a, k) == piece[k]
    ensures IsPart(ReadSectors(disk, a, n)[from..to], piece, from)
  {}

  lemma PieceIsPart(content: seq<byte>, es: seq<Entry>, i: nat, m: nat)
    requires i < m <= |es| && |content| == Start(es, m)
    ensures IsPart(Piece(content, es, i), content, Start(es, i)) && |Piece(content, es, i)| == es[i].used
  {
    StartGrows(es, i + 1, m);
  }

  lemma PartOfPart(b: seq<byte>, piece: seq<byte>, from: nat, content: seq<byte>, start: nat, at: nat)
    requires IsPart(b, piece, from) && IsPart(piece, content, start) && at == start + from
    ensures IsPart(b, content, at)
  {}

  // The sectors read for bytes from..to of an extent hold those bytes of the file.
  lemma ReadsPiece(disk: Disk, owner: Owner, h: nat, p: nat, hdr: Header, content: seq<byte>, i: nat, from: nat,
                   to: nat, n: nat,
                   at: nat)
    requires BodyOk(disk, owner, h, p, hdr, content) && i < hdr.usedEntrys && at == Start(hdr.entrys, i) + from
    requires from <= to <= hdr.entrys[i].used && to <= SECTOR * n
    ensures IsPart(ReadSectors(disk, hdr.entrys[i].location, n)[from..to], content, at)
  {
    var e, piece := hdr.entrys[i], Piece(content, hdr.entrys, i);
    assert ExtentOk(disk, owner, h, i, e, piece);
    PieceIsPart(content, hdr.entrys, i, hdr.usedEntrys);
    SectorBytes(disk, e.location, n, piece, from, to);
    PartOfPart(ReadSectors(disk, e.location, n)[from..to], piece, from, content, Start(hdr.entrys, i), at);
  }

  // The next extent starts where this one ends; there is one as long as bytes are left.
  lemma NextPiece(hdr: Header, p: nat, content: seq<byte>, i: nat)
    requires Shape(hdr, p) && |content| == Start(hdr.entrys, hdr.usedEntrys) && i < hdr.usedEntrys
    ensures Start(hdr.entrys, i + 1) == Start(hdr.entrys, i) + hdr.entrys[i].used <= |content|
    ensures Start(hdr.entrys, i + 1) < |content| ==> i + 1 < hdr.usedEntrys && hdr.entrys[i].nextOff == i + 1
    ensures hdr.entrys[i].inUse && hdr.entrys[i].offset == 0
  {
    StartGrows(hdr.entrys, i + 1, hdr.usedEntrys);
    assert EntryShape(hdr.entrys[i], i, hdr.usedEntrys);
  }
}
