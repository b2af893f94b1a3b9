/** The operations of AqFS 2 on files, in place on one disk (Aqfs.c:192-229 and 412-591). */
module Aqfs {
  import opened Layout
  import opened Path
  import opened AqFiles
  import A = AqAllocator


  // Every open file is what its content says, and nobody owns a sector the allocator still has.
  ghost predicate AllOk(disk: Disk, owner: Owner, files: map<nat, File>, contents: map<nat, seq<byte>>) {
    && files.Keys == contents.Keys
    && forall h :: h in files ==> FileOk(disk, owner, h, files[h], contents[h])
  }

  predicate Unowned(owner: Owner, bound: nat) { forall a :: a in owner ==> bound <= a }

  // A step for file h: owners stay, and of what is owned only h's pages and extents may change.
  predicate StepFor(disk: Disk, owner: Owner, disk': Disk, owner': Owner, h: nat) {
    forall a :: a in owner ==>
      && a in owner' && owner'[a] == owner[a]
      && (owner[a].0 != h || owner[a].1 == Descriptor ==> Peek(disk', a) == Peek(disk, a))
  }

  // One entry more, of n bytes.
  predicate Grown(hdr: Header, hdr': Header, n: nat) {
    && hdr'.usedEntrys == hdr.usedEntrys + 1 <= |hdr'.entrys|
    && hdr'.entrys[hdr.usedEntrys].used == n
    && hdr'.entrys[hdr.usedEntrys].spread == SectorsFor(n)
  }

  // How full a file's page and last extent are; its descriptor says so.
  datatype Level = Level(entries: nat, slack: int)

  function LevelOf(f: File): Level {
    if f.headers == 0 then Level(0, 0) else Level(f.lastEntryOff + 1, f.size - f.dataSize)
  }

  // n bytes go to the slack first, and what is left over to an extent of its own.
  function Filling(f: Level, n: nat): Level {
    if n <= f.slack then Level(f.entries, f.slack - n)
    else Level(f.entries + 1, SECTOR * SectorsFor(LeftOver(f, n)) - LeftOver(f, n))
  }

  function LeftOver(f: Level, n: nat): nat { if n <= f.slack then 0 else if f.slack < 0 then n else n - f.slack }

  // Sectors an append of n bytes takes: a page for the first, and an extent for what is left over.
  function Needed(f: Level, n: nat): nat { (if f.entries == 0 then PAGE else 0) + SectorsFor(LeftOver(f, n)) }

  // What 32-bit sizes allow: rounding the buffer up and adding it to the file must not wrap.
  predicate Fits32(size: nat, n: nat) { n <= U32 - SECTOR && size + n < U32 }

  class Aqfs {
    const alloc: A.Allocator
    var disk: Disk
    var files: map<nat, File>
    ghost var owner: Owner
    ghost var contents: map<nat, seq<byte>>

    ghost predicate Valid()
      reads this, alloc, alloc.table
    {
      && alloc.Valid() && Unowned(owner, alloc.Bound())
      && AllOk(disk, owner, files, contents)
    }

    // A freshly formatted disk, with no files yet.
    constructor (base: u32, diskSize: u32)
      requires base + A.TABLE_BLOCKS + 2 + diskSize < U32
      ensures Valid() && fresh(alloc) && fresh(alloc.table) && files == map[] && contents == map[]
      ensures alloc.greatest == diskSize
    {
      alloc := new A.Allocator(base, diskSize);
      disk, files, owner, contents := map[], map[], map[], map[];
    }

    // The search for a free entry in Aq_FileGet_FreeEntry.
    method FreeSlot(page: Header) returns (j: nat)
      requires Shape(page, page.location) && page.usedEntrys < ENTRIES
      ensures j == page.usedEntrys
    {
      j := 0;
      while page.entrys[j].inUse
        invariant 0 <= j <= page.usedEntrys
        decreases ENTRIES - j
      {
        assert EntryShape(page.entrys[j], j, page.usedEntrys);
        j := j + 1;
      }
      assert EntryShape(page.entrys[j], j, page.usedEntrys);
    }

    // Appending, first part: fill up the last extent of the page at p.
    method Fill(ghost h: nat, p: nat, last: nat, buf: seq<byte>, ghost content: seq<byte>) returns (t1: nat)
      requires BodyOk(disk, owner, h, p, PageAt(disk, p), content) && last + 1 == PageAt(disk, p).usedEntrys
      modifies `disk
      ensures t1 == Min(Slack(old(PageAt(disk, p)).entrys[last]), |buf|)
      ensures PageAt(disk, p) == Filled(old(PageAt(disk, p)), t1)
      ensures t1 < |buf| ==> Slack(PageAt(disk, p).entrys[PageAt(disk, p).usedEntrys - 1]) == 0
      ensures BodyOk(disk, owner, h, p, PageAt(disk, p), content + buf[..t1])
      ensures StepFor(old(disk), owner, disk, owner, h)
    {
      var hdr := PageAt(disk, p);
      var e := hdr.entrys[last];
      assert EntryShape(e, last, last + 1);
      t1 := Min(Slack(e), |buf|);
      var part := buf[..t1];
      ghost var before := disk;
      disk := FillData(disk, e, part, owner, h, last, Piece(content, hdr.entrys, last));
      ghost var filled := disk;
      PageWritten(disk, Filled(hdr, t1));
      disk := WritePage(disk, Filled(hdr, t1));
      FillLast(before, filled, disk, owner, h, p, hdr, last, content, part, t1);
      PageIs(disk, p, Filled(hdr, t1));
      FillSteps(before, filled, disk, owner, h, Filled(hdr, t1), e, last);
    }

    // Sectors for a chunk, and the chunk written to them. None is the null result of AqAlloc.
    method Place(ghost h: nat, chunk: seq<byte>, ghost role: Role) returns (loc: Option<u32>)
      requires alloc.Valid() && Unowned(owner, alloc.Bound())
      requires 0 < |chunk| && SectorsFor(|chunk|) < U32
      modifies `disk, `owner, alloc`greatest, alloc.table
      ensures alloc.Valid() && Unowned(owner, alloc.Bound())
      ensures loc.Some? <==> SectorsFor(|chunk|) <= old(alloc.greatest)
      ensures loc.Some? ==>
        && alloc.greatest == old(alloc.greatest) - SectorsFor(|chunk|)
        && Claimed(old(owner), owner, h, loc.value, SectorsFor(|chunk|), role)
        && SameOutside(old(disk), disk, loc.value, SectorsFor(|chunk|))
        && forall k :: 0 <= k < |chunk| ==> ByteOf(disk, loc.value, k) == chunk[k]
    {
      var n := SectorsFor(|chunk|);
      loc := alloc.Alloc(n);
      if loc.Some? {
        FreshSectors(owner, old(alloc.Bound()), loc.value, n, h, role);
        owner := Claim(owner, h, loc.value, n, role);
        WriteChunk(loc.value, n, chunk);
      }
    }

    // The page gets its new last entry, linked from entry prev.
    method Enter(p: nat, loc: nat, n: nat, used: nat, prev: Option<nat>, ghost hdr: Header) returns (j: nat)
      requires PageAt(disk, p) == hdr && Shape(hdr, p) && hdr.usedEntrys < ENTRIES
      requires LinkedFrom(prev, hdr.usedEntrys)
      modifies `disk
      ensures j == hdr.usedEntrys && PageOver(old(disk), disk, Extended(hdr, NewEntry(hdr.usedEntrys, loc, n, used)))
    {
      var page := PageAt(disk, p);
      j := FreeSlot(page);
      page := TakeSlot(page, j, loc);
      PageWritten(disk, page);
      disk := WritePage(disk, page);
      page := Completed(page, j, n, used, prev);
      LinkedPage(hdr, p, loc, n, used, prev);
      PageAgain(old(disk), disk, TakeSlot(hdr, j, loc), page);
      disk := WritePage(disk, page);
    }

    // Appending, second part: the chunk goes to a new extent, entered in the page at p behind
    // entry prev. None is the null dereference when the allocator has no chunk large enough.
    method AddExtent(ghost h: nat, p: nat, chunk: seq<byte>, prev: Option<nat>, ghost hdr: Header,
                     ghost content: seq<byte>)
      returns (id: Option<nat>, ghost hdr': Header)
      requires alloc.Valid() && Unowned(owner, alloc.Bound())
      requires BodyOk(disk, owner, h, p, hdr, content) && hdr.usedEntrys < ENTRIES
      requires 0 < |chunk| && SectorsFor(|chunk|) < U32
      requires LinkedFrom(prev, hdr.usedEntrys)
      requires hdr.usedEntrys > 0 ==> Slack(hdr.entrys[hdr.usedEntrys - 1]) == 0
      modifies `disk, `owner, alloc`greatest, alloc.table
      ensures alloc.Valid() && Unowned(owner, alloc.Bound())
      ensures id == if SectorsFor(|chunk|) <= old(alloc.greatest) then Some(hdr.usedEntrys) else None
      ensures id.Some? ==> alloc.greatest == old(alloc.greatest) - SectorsFor(|chunk|)
      ensures id.Some? ==> Grown(hdr, hdr', |chunk|) && BodyOk(disk, owner, h, p, hdr', content + chunk)
      ensures id.Some? ==> StepFor(old(disk), old(owner), disk, owner, h)
    {
      ghost var before, had := disk, owner;
      hdr' := hdr;
      var loc := Place(h, chunk, Extent(hdr.usedEntrys));
      if loc == None {
        return None, hdr;
      }
      var j;
      j, hdr' := EnterExtent(h, p, loc.value, chunk, prev, hdr, content, before, had);
      return Some(j), hdr';
    }

    // The entry for the chunk that was just written; `before` and `had` are from before that.
    method EnterExtent(ghost h: nat, p: nat, loc: nat, chunk: seq<byte>, prev: Option<nat>, ghost hdr: Header,
                       ghost content: seq<byte>, ghost before: Disk, ghost had: Owner)
      returns (j: nat, ghost hdr': Header)
      requires BodyOk(before, had, h, p, hdr, content) && hdr.usedEntrys < ENTRIES && 0 < |chunk|
      requires LinkedFrom(prev, hdr.usedEntrys)
      requires hdr.usedEntrys > 0 ==> Slack(hdr.entrys[hdr.usedEntrys - 1]) == 0
      requires Claimed(had, owner, h, loc, SectorsFor(|chunk|), Extent(hdr.usedEntrys))
      requires SameOutside(before, disk, loc, SectorsFor(|chunk|))
      requires forall k :: 0 <= k < |chunk| ==> ByteOf(disk, loc, k) == chunk[k]
      modifies `disk
      ensures j == hdr.usedEntrys && Grown(hdr, hdr', |chunk|)
      ensures BodyOk(disk, owner, h, p, hdr', content + chunk) && StepFor(before, had, disk, owner, h)
    {
      ghost var written := disk;
      PageUnwritten(before, written, had, owner, h, p, hdr, loc, SectorsFor(|chunk|), Extent(hdr.usedEntrys));
      j := Enter(p, loc, SectorsFor(|chunk|), |chunk|, prev, hdr);
      hdr' := Extended(hdr, NewEntry(hdr.usedEntrys, loc, SectorsFor(|chunk|), |chunk|));
      Entered(before, written, disk, had, owner, h, p, hdr, content, loc, chunk);
    }

    // Aq_FileCreate_NewHeader for a file that has no page yet.
    method NewHeader(ghost h: nat) returns (loc: Option<u32>)
      requires alloc.Valid() && Unowned(owner, alloc.Bound())
      modifies `disk, `owner, alloc`greatest, alloc.table
      ensures alloc.Valid() && Unowned(owner, alloc.Bound())
      ensures loc.Some? <==> PAGE <= old(alloc.greatest)
      ensures loc.Some? ==>
        && alloc.greatest == old(alloc.greatest) - PAGE
        && BodyOk(disk, owner, h, loc.value, NoHeader(loc.value), [])
        && StepFor(old(disk), old(owner), disk, owner, h)
    {
      loc := alloc.Alloc(PAGE);
      if loc.Some? {
        ghost var had := owner;
        FreshSectors(owner, old(alloc.Bound()), loc.value, PAGE, h, PagePart);
        owner := Claim(owner, h, loc.value, PAGE, PagePart);
        PageWritten(disk, NoHeader(loc.value));
        disk := WritePage(disk, NoHeader(loc.value));
        FreshSteps(old(disk), disk, had, owner, h, loc.value, PAGE, PagePart);
      }
    }

    // AqWrite of whole sectors from a buffer: behind the chunk comes whatever follows it in memory.
    method WriteChunk(loc: nat, n: nat, chunk: seq<byte>)
      requires |chunk| <= SECTOR * n
      modifies `disk
      ensures SameOutside(old(disk), disk, loc, n)
      ensures forall k :: 0 <= k < |chunk| ==> ByteOf(disk, loc, k) == chunk[k]
    {
      assert |seq(SECTOR * n - |chunk|, _ => 0 as byte)| == SECTOR * n - |chunk|;
      var tail: seq<byte> :| |tail| == SECTOR * n - |chunk|;
      WrittenBytes(disk, loc, n, chunk + tail);
      disk := WriteSectors(disk, loc, n, chunk + tail);
    }

    // Aq_CreateNew_File without the entry in the parent directory; None as for AddExtent.
    method Create() returns (h: Option<nat>)
      requires Valid()
      modifies this, alloc`greatest, alloc.table
      ensures h.Some? <==> 1 <= old(alloc.greatest)
      ensures h.Some? ==>
        && Valid() && alloc.greatest == old(alloc.greatest) - 1 && h.value == alloc.first + alloc.greatest
        && h.value !in old(files) && files == old(files)[h.value := File(0, 0, 0, 0, 0, h.value, 0, 0)]
        && contents == old(contents)[h.value := []]
    {
      var loc := alloc.Alloc(1);
      if loc == None {
        return None;
      }
      var file := File(0, 0, 0, 0, 0, loc.value, 0, 0);
      ghost var before, had := disk, owner;
      FreshSectors(owner, old(alloc.Bound()), loc.value, 1, loc.value, Descriptor);
      owner := Claim(owner, loc.value, loc.value, 1, Descriptor);
      files, disk := files[loc.value := file], disk[loc.value := Desc(file)];
      contents := contents[loc.value := []];
      Created(before, had, disk, owner, old(files), old(contents), loc.value, file);
      return Some(loc.value);
    }

    // Aq_FileSave_File, the last step of every append. d0 and o0: disk and owners at its start.
    method Finish(h: nat, file: File, ghost hdr: Header, ghost content: seq<byte>, ghost d0: Disk, ghost o0: Owner)
      requires alloc.Valid() && Unowned(owner, alloc.Bound())
      requires AllOk(d0, o0, files, contents) && h in files && StepFor(d0, o0, disk, owner, h)
      requires BodyOk(disk, owner, h, file.firstFileHeader, hdr, content) && Recorded(file, h, hdr, content)
      modifies `disk, `files, `contents
      ensures Valid() && files == old(files)[h := file] && contents == old(contents)[h := content]
    {
      SavedAll(d0, o0, disk, owner, files, contents, h, file, hdr, content);
      disk := disk[file.location := Desc(file)];
      files := files[h := file];
      contents := contents[h := content];
    }

    // The page of a new file and its first extent.
    method FirstExtent(ghost h: nat, buf: seq<byte>) returns (loc: Option<u32>, ghost hdr: Header)
      requires alloc.Valid() && Unowned(owner, alloc.Bound())
      requires 0 < |buf| && SectorsFor(|buf|) < U32
      modifies `disk, `owner, alloc`greatest, alloc.table
      ensures alloc.Valid() && Unowned(owner, alloc.Bound())
      ensures loc.Some? <==> PAGE + SectorsFor(|buf|) <= old(alloc.greatest)
      ensures loc.Some? ==>
        && alloc.greatest == old(alloc.greatest) - (PAGE + SectorsFor(|buf|))
        && hdr.usedEntrys == 1 && Grown(NoHeader(loc.value), hdr, |buf|)
        && BodyOk(disk, owner, h, loc.value, hdr, [] + buf)
        && StepFor(old(disk), old(owner), disk, owner, h)
    {
      loc := NewHeader(h);
      hdr := NoHeader(0);
      if loc.Some? {
        ghost var d1, o1 := disk, owner;
        var id;
        id, hdr := AddExtent(h, loc.value, buf, None, NoHeader(loc.value), []);
        if id == None {
          return None, hdr;
        }
        TwoSteps(old(disk), old(owner), d1, o1, disk, owner, h);
      }
    }

    // Aq_WriteFile_Append on a file without a page.
    method AppendNew(h: nat, buf: seq<byte>) returns (done: bool, ghost file': File)
      requires Valid() && h in files && files[h].headers == 0
      requires 0 < |buf| && SectorsFor(|buf|) < U32
      modifies this, alloc`greatest, alloc.table
      ensures done <==> PAGE + SectorsFor(|buf|) <= old(alloc.greatest)
      ensures done ==> alloc.greatest == old(alloc.greatest) - (PAGE + SectorsFor(|buf|))
      ensures done ==> Valid() && contents == old(contents)[h := old(contents)[h] + buf]
      ensures done ==> files == old(files)[h := file'] && LevelOf(file') == Level(1, SECTOR * SectorsFor(|buf|) - |buf|)
    {
      var file := files[h];
      NewFile(disk, owner, h, file, contents[h]);
      ghost var d0, o0 := disk, owner;
      var loc, hdr := FirstExtent(h, buf);
      if loc == None {
        return false, file;
      }
      file := file.(headers := file.headers + 1, firstFileHeader := loc.value, lastFileHeader := loc.value,
        lastEntryHdr := loc.value, lastEntryOff := 0,
        dataSize := file.dataSize + |buf|, size := file.size + SECTOR * SectorsFor(|buf|));
      Finish(h, file, hdr, contents[h] + buf, d0, o0);
      return true, file;
    }

    // Fill up the last extent; what is left over goes to a new one.
    method Extend(ghost h: nat, p: nat, last: nat, buf: seq<byte>, ghost was: Header, ghost content: seq<byte>,
                  ghost lv: Level)
      returns (done: bool, id: nat, added: nat, ghost hdr: Header)
      requires alloc.Valid() && Unowned(owner, alloc.Bound())
      requires PageAt(disk, p) == was && BodyOk(disk, owner, h, p, was, content) && last + 1 == was.usedEntrys
      requires SectorsFor(|buf|) < U32 && lv == Level(last + 1, Slack(was.entrys[last])) && 0 <= lv.slack
      requires Filling(lv, |buf|).entries <= ENTRIES
      modifies `disk, `owner, alloc`greatest, alloc.table
      ensures alloc.Valid() && Unowned(owner, alloc.Bound())
      ensures done <==> SectorsFor(LeftOver(lv, |buf|)) <= old(alloc.greatest)
      ensures done ==> added == SectorsFor(LeftOver(lv, |buf|)) && alloc.greatest == old(alloc.greatest) - added
      ensures done ==> id + 1 == hdr.usedEntrys <= |hdr.entrys|
      ensures done ==> Rises(lv, |buf|, added, Level(id + 1, Slack(hdr.entrys[id])))
      ensures done ==> BodyOk(disk, owner, h, p, hdr, content + buf) && StepFor(old(disk), old(owner), disk, owner, h)
    {
      ghost var d0, o0 := disk, owner;
      var t1 := Fill(h, p, last, buf, content);
      id, added, hdr := last, 0, PageAt(disk, p);
      if t1 < |buf| {
        Joins(content, buf, t1);
        var next, rest := None, buf[t1..];
        next, hdr := AddRest(h, p, last, rest, hdr, content + buf[..t1], content + buf, d0, o0);
        if next == None {
          LeftIs(was, last, |buf|, t1, |rest|, lv);
          return false, id, added, hdr;
        }
        id, added := next.value, SectorsFor(|rest|);
        LeftIs(was, last, |buf|, t1, |rest|, lv);
        RisesMore(was, last, |buf|, |rest|, hdr, id, added, lv);
        return true, id, added, hdr;
      }
      assert buf[..t1] == buf;
      RisesNot(was, last, |buf|, hdr, lv);
      return true, id, added, hdr;
    }

    // A new extent behind the last one, after a first step from d0 and o0.
    method AddRest(ghost h: nat, p: nat, last: nat, rest: seq<byte>, ghost hdr: Header, ghost content: seq<byte>,
                   ghost all: seq<byte>, ghost d0: Disk, ghost o0: Owner)
      returns (id: Option<nat>, ghost hdr': Header)
      requires alloc.Valid() && Unowned(owner, alloc.Bound()) && StepFor(d0, o0, disk, owner, h)
      requires BodyOk(disk, owner, h, p, hdr, content) && last + 1 == hdr.usedEntrys < ENTRIES
      requires 0 < |rest| && SectorsFor(|rest|) < U32 && Slack(hdr.entrys[last]) == 0 && all == content + rest
      modifies `disk, `owner, alloc`greatest, alloc.table
      ensures alloc.Valid() && Unowned(owner, alloc.Bound())
      ensures id == if SectorsFor(|rest|) <= old(alloc.greatest) then Some(hdr.usedEntrys) else None
      ensures id.Some? ==> alloc.greatest == old(alloc.greatest) - SectorsFor(|rest|)
      ensures id.Some? ==> Grown(hdr, hdr', |rest|) && BodyOk(disk, owner, h, p, hdr', all)
      ensures id.Some? ==> StepFor(d0, o0, disk, owner, h)
    {
      ghost var d1, o1 := disk, owner;
      id, hdr' := AddExtent(h, p, rest, Some(last), hdr, content);
      if id.Some? {
        TwoSteps(d0, o0, d1, o1, disk, owner, h);
      }
    }

    // Aq_WriteFile_Append on a file that has its page.
    method AppendOld(h: nat, buf: seq<byte>, ghost lv: Level) returns (done: bool, ghost file': File)
      requires Valid() && h in files && files[h].headers != 0 && lv == LevelOf(files[h])
      requires 0 < |buf| && SectorsFor(|buf|) < U32 && Filling(lv, |buf|).entries <= ENTRIES
      modifies this, alloc`greatest, alloc.table
      ensures done <==> SectorsFor(LeftOver(lv, |buf|)) <= old(alloc.greatest)
      ensures done ==> alloc.greatest == old(alloc.greatest) - SectorsFor(LeftOver(lv, |buf|))
      ensures done ==> Valid() && contents == old(contents)[h := old(contents)[h] + buf]
      ensures done ==> files == old(files)[h := file'] && LevelOf(file') == Filling(lv, |buf|)
    {
      var file := files[h];
      OldFile(disk, owner, h, file, contents[h]);
      ghost var d0, o0, was := disk, owner, PageAt(disk, file.lastEntryHdr);
      var ok, id, added, hdr := Extend(h, file.lastEntryHdr, file.lastEntryOff, buf, was, contents[h], lv);
      if !ok {
        return false, file;
      }
      file := file.(dataSize := file.dataSize + |buf|, lastEntryOff := id, size := file.size + SECTOR * added);
      Finish(h, file, hdr, contents[h] + buf, d0, o0);
      FilledLevel(lv, |buf|, added, LevelOf(file));
      return true, file;
    }

    // Aq_WriteFile_Append; false is a null dereference, which needs a full disk.
    method Append(h: nat, buf: seq<byte>) returns (done: bool, ghost file': File)
      requires Valid() && h in files && 0 < |buf| && Fits32(|contents[h]|, |buf|)
      requires Filling(LevelOf(files[h]), |buf|).entries <= ENTRIES
      modifies this, alloc`greatest, alloc.table
      ensures done <==> Needed(LevelOf(old(files)[h]), |buf|) <= old(alloc.greatest)
      ensures done ==> alloc.greatest == old(alloc.greatest) - Needed(LevelOf(old(files)[h]), |buf|)
      ensures done ==> Valid() && contents == old(contents)[h := old(contents)[h] + buf]
      ensures done ==> files == old(files)[h := file'] && LevelOf(file') == Filling(LevelOf(old(files)[h]), |buf|)
    {
      Paged(disk, owner, h, files[h], contents[h]);
      if files[h].lastEntryHdr == 0 {
        done, file' := AppendNew(h, buf);
      } else {
        done, file' := AppendOld(h, buf, LevelOf(files[h]));
      }
    }

    // Aq_FileGet_EntryCA: the entry holding byte `address`, with the byte's place in it. The
    // chain's end links back to entry 0, so only an address inside the file is ever found.
    method EntryCA(p: nat, address: nat, ghost h: nat, ghost hdr: Header, ghost content: seq<byte>)
      returns (j: nat, ie: Entry)
      requires PageAt(disk, p) == hdr && BodyOk(disk, owner, h, p, hdr, content) && address < |content|
      ensures j < hdr.usedEntrys && Start(hdr.entrys, j) <= address < Start(hdr.entrys, j) + hdr.entrys[j].used
      ensures ie == hdr.entrys[j].(offset := address - Start(hdr.entrys, j))
    {
      var page := PageAt(disk, p);
      var raddress := 0;
      j := 0;
      NextPiece(hdr, p, content, 0);
      while page.entrys[j].inUse && raddress + page.entrys[j].used <= address
        invariant j < hdr.usedEntrys && raddress == Start(hdr.entrys, j) <= address
        invariant page.entrys[j].inUse
        decreases hdr.usedEntrys - j
      {
        NextPiece(hdr, p, content, j);
        raddress := raddress + page.entrys[j].used;
        j := page.entrys[j].nextOff;
        NextPiece(hdr, p, content, j);
      }
      ie := page.entrys[j].(offset := address - raddress);
    }

    // Sectors t2 of an extent, and the bytes from..t1 copied out of them.
    method ReadExtent(ie: Entry, from: nat, t1: nat, t2: nat, ghost j: nat, ghost p: nat, ghost h: nat,
                      ghost hdr: Header,
                      ghost content: seq<byte>, ghost at: nat)
      returns (b: seq<byte>)
      requires BodyOk(disk, owner, h, p, hdr, content) && j < hdr.usedEntrys && at == Start(hdr.entrys, j) + from
      requires ie.location == hdr.entrys[j].location && from <= t1 <= hdr.entrys[j].used && t1 <= SECTOR * t2
      ensures |b| == t1 - from && IsPart(b, content, at)
    {
      ReadsPiece(disk, owner, h, p, hdr, content, j, from, t1, t2, at);
      b := ReadSectors(disk, ie.location, t2)[from..t1];
    }

    // Aq_ReadFile inside the file, on the page at p.
    method ReadChain(p: nat, offset: nat, size0: nat, ghost h: nat, ghost hdr: Header, ghost content: seq<byte>)
      returns (n: nat, buffer: seq<byte>)
      requires PageAt(disk, p) == hdr && BodyOk(disk, owner, h, p, hdr, content)
      requires offset < |content| && offset + size0 <= |content|
      ensures n == size0 == |buffer| && IsPart(buffer, content, offset)
    {
      var page, size: nat := PageAt(disk, p), size0;
      var j: nat, ie: Entry := EntryCA(p, offset, h, hdr, content);
      NextPiece(hdr, p, content, j);
      var t1: nat := Min(ie.used, ie.offset + size);
      var t2: nat := SectorsFor(t1);
      if t2 == 0 {
        t2 := 1;
      }
      buffer := ReadExtent(ie, ie.offset, t1, t2, j, p, h, hdr, content, offset);
      size := size - (t1 - ie.offset);
      ghost var at := offset + |buffer|;
      while size > 0
        invariant size <= size0 && j < hdr.usedEntrys && ie.nextOff == hdr.entrys[j].nextOff
        invariant |buffer| == size0 - size && IsPart(buffer, content, offset) && at == offset + |buffer|
        invariant size > 0 ==> at == Start(hdr.entrys, j) + hdr.entrys[j].used
      {
        var b;
        j, ie, t1, b := ReadNext(page, ie, size, j, at, p, h, content);
        PartsJoin(buffer, b, content, offset);
        buffer, at := buffer + b, at + t1;
        size := size - t1;
      }
      n := size0 - size;
    }

    // One round of its loop: what the next extent has of the bytes from `at` on.
    method ReadNext(page: Header, ie0: Entry, size: nat, ghost j0: nat, ghost at: nat, ghost p: nat, ghost h: nat,
                    ghost content: seq<byte>)
      returns (j: nat, ie: Entry, t1: nat, b: seq<byte>)
      requires PageAt(disk, p) == page && BodyOk(disk, owner, h, p, page, content) && 0 < size
      requires j0 < page.usedEntrys <= |page.entrys| && ie0.nextOff == page.entrys[j0].nextOff
      requires at == Start(page.entrys, j0) + page.entrys[j0].used && at + size <= |content|
      ensures j < page.usedEntrys && ie.nextOff == page.entrys[j].nextOff
      ensures 0 < t1 <= size && |b| == t1 && IsPart(b, content, at)
      ensures t1 < size ==> at + t1 == Start(page.entrys, j) + page.entrys[j].used
    {
      NextPiece(page, p, content, j0);
      j := ie0.nextOff;
      ie := page.entrys[j];
      NextPiece(page, p, content, j);
      t1 := Min(ie.used, size);
      var t2: nat := SectorsFor(t1);
      t1 := t1 - ie.offset;
      b := ReadExtent(ie, 0, t1, t2, j, p, h, page, content, at);
    }

    // Aq_ReadFile inside the file.
    method Read(h: nat, offset: nat, size: nat) returns (n: nat, buffer: seq<byte>)
      requires Valid() && h in files && offset < |contents[h]| && offset + size <= |contents[h]|
      ensures n == size && buffer == contents[h][offset..offset + size]
    {
      ghost var content, p := contents[h], files[h].firstFileHeader;
      Paged(disk, owner, h, files[h], content);
      OldFile(disk, owner, h, files[h], content);
      n, buffer := ReadChain(files[h].firstFileHeader, offset, size, h, PageAt(disk, p), content);
      PartIs(buffer, content, offset, size);
    }
  }

  lemma PartIs(b: seq<byte>, content: seq<byte>, at: nat, n: nat)
    requires |b| == n && IsPart(b, content, at)
    ensures b == content[at..at + n]
  {}

  // lv' is lv after n bytes, `added` sectors of them new.
  predicate Rises(lv: Level, n: nat, added: nat, lv': Level) {
    && lv'.entries == (if n <= lv.slack then lv.entries else lv.entries + 1)
    && lv'.slack + n == lv.slack + SECTOR * added
  }

  lemma FilledLevel(lv: Level, n: nat, added: nat, lv': Level)
    requires 0 <= lv.slack && added == SectorsFor(LeftOver(lv, n)) && Rises(lv, n, added, lv')
    ensures lv' == Filling(lv, n)
  {}

  // What is left over behind the slack, in sectors.
  lemma LeftIs(was: Header, last: nat, n: nat, t1: nat, m: nat, lv: Level)
    requires last < |was.entrys| && t1 == Min(Slack(was.entrys[last]), n) < n && m == n - t1
    requires lv == Level(last + 1, Slack(was.entrys[last])) && 0 <= lv.slack
    ensures LeftOver(lv, n) == m
  {}

  lemma RisesMore(was: Header, last: nat, n: nat, m: nat, hdr: Header, id: nat, added: nat, lv: Level)
    requires last < |was.entrys| && lv == Level(last + 1, Slack(was.entrys[last])) && 0 <= lv.slack < n &&
      m == n - lv.slack
    requires id == last + 1 < |hdr.entrys| && hdr.entrys[id].used == m && hdr.entrys[id].spread == added
    ensures Rises(lv, n, added, Level(id + 1, Slack(hdr.entrys[id])))
  {}

  lemma RisesNot(was: Header, last: nat, n: nat, hdr: Header, lv: Level)
    requires last < |was.entrys| && last < |hdr.entrys| && lv == Level(last + 1, Slack(was.entrys[last]))
    requires n <= lv.slack && Slack(hdr.entrys[last]) == lv.slack - n
    ensures LeftOver(lv, n) == 0 && Rises(lv, n, 0, Level(last + 1, Slack(hdr.entrys[last])))
  {}

  // The location of the page is zero as long as there is none.
  lemma Paged(disk: Disk, owner: Owner, h: nat, f: File, content: seq<byte>)
    requires FileOk(disk, owner, h, f, content)
    ensures f.headers == 0 <==> f.lastEntryHdr == 0
    ensures content != [] ==> f.headers != 0 && f.firstFileHeader == f.lastEntryHdr
  {}

  lemma OldFile(disk: Disk, owner: Owner, h: nat, f: File, content: seq<byte>)
    requires FileOk(disk, owner, h, f, content) && f.headers != 0
    ensures var hdr := PageAt(disk, f.lastEntryHdr);
      && Recorded(f, h, hdr, content) && BodyOk(disk, owner, h, f.lastEntryHdr, hdr, content)
      && LevelOf(f) == Level(hdr.usedEntrys, Slack(hdr.entrys[f.lastEntryOff])) && 0 < hdr.usedEntrys
      && 0 <= Slack(hdr.entrys[f.lastEntryOff])
  {
    var hdr := PageAt(disk, f.lastEntryHdr);
    assert EntryShape(hdr.entrys[f.lastEntryOff], f.lastEntryOff, hdr.usedEntrys);
  }

  lemma Joins(content: seq<byte>, buf: seq<byte>, k: nat)
    requires k <= |buf|
    ensures content + buf[..k] + buf[k..] == content + buf
    ensures k == |buf| ==> content + buf[..k] == content + buf
  {}

  lemma NewFile(disk: Disk, owner: Owner, h: nat, f: File, content: seq<byte>)
    requires FileOk(disk, owner, h, f, content) && f.headers == 0
    ensures content == [] && f.size == f.dataSize == 0 && f.location == h
  {}

  // A freshly handed out sector becomes a file's descriptor.
  lemma Created(disk: Disk, owner: Owner, disk': Disk, owner': Owner, files: map<nat, File>,
                contents: map<nat, seq<byte>>,
                h: nat, file: File)
    requires AllOk(disk, owner, files, contents) && Claimed(owner, owner', h, h, 1, Descriptor)
    requires h > 0 && file == File(0, 0, 0, 0, 0, h, 0, 0) && disk' == disk[h := Desc(file)]
    ensures h !in files && AllOk(disk', owner', files[h := file], contents[h := []])
  {
    var files', contents' := files[h := file], contents[h := []];
    if h in files {
      CreatedOther(disk, owner, disk', owner', h, files[h], contents[h], h, file);
    }
    forall g | g in files'
      ensures FileOk(disk', owner', g, files'[g], contents'[g])
    {
      if g != h {
        CreatedOther(disk, owner, disk', owner', g, files[g], contents[g], h, file);
      }
    }
  }

  lemma ClaimedOne(disk: Disk, owner: Owner, disk': Disk, owner': Owner, h: nat, file: File, g: nat)
    requires Claimed(owner, owner', h, h, 1, Descriptor) && disk' == disk[h := Desc(file)]
    ensures h !in owner && Kept(disk, owner, disk', owner', g)
  {}

  lemma CreatedOther(disk: Disk, owner: Owner, disk': Disk, owner': Owner, g: nat, f: File, content: seq<byte>,
                     h: nat, file: File)
    requires FileOk(disk, owner, g, f, content)
    requires Claimed(owner, owner', h, h, 1, Descriptor) && disk' == disk[h := Desc(file)]
    ensures g != h && FileOk(disk', owner', g, f, content)
  {
    ClaimedOne(disk, owner, disk', owner', h, file, g);
    FileKept(disk, owner, disk', owner', g, f, content);
  }

  lemma TwoSteps(disk: Disk, owner: Owner, disk1: Disk, owner1: Owner, disk': Disk, owner': Owner, h: nat)
    requires StepFor(disk, owner, disk1, owner1, h) && StepFor(disk1, owner1, disk', owner', h)
    ensures StepFor(disk, owner, disk', owner', h)
  {}

  // A file other than h is the same after a step for h and the saving of h's descriptor.
  lemma SavedOther(disk: Disk, owner: Owner, disk1: Disk, owner': Owner, g: nat, f: File, content: seq<byte>, h: nat,
                   file: File)
    requires FileOk(disk, owner, g, f, content) && g != h && StepFor(disk, owner, disk1, owner', h)
    requires Owns(owner', h, h, Descriptor)
    ensures FileOk(disk1[h := Desc(file)], owner', g, f, content)
  {
    var disk' := disk1[h := Desc(file)];
    forall a | a in owner && owner[a].0 == g
      ensures a in owner' && owner'[a] == owner[a] && Peek(disk', a) == Peek(disk, a)
    {
      assert a != h;
      assert Peek(disk1, a) == Peek(disk, a);
    }
    FileKept(disk, owner, disk', owner', g, f, content);
  }

  // What the fields of a file with a page say.
  predicate Recorded(file: File, h: nat, hdr: Header, content: seq<byte>) {
    && file.headers == 1 && file.lastEntryOff + 1 == hdr.usedEntrys <= |hdr.entrys| && file.location == h
    && file.firstFileHeader == file.lastFileHeader == file.lastEntryHdr
    && file.dataSize == |content| && file.size == |content| + Slack(hdr.entrys[file.lastEntryOff])
  }

  lemma SavedThis(disk: Disk, owner: Owner, h: nat, file: File, hdr: Header, content: seq<byte>)
    requires BodyOk(disk, owner, h, file.firstFileHeader, hdr, content) && Recorded(file, h, hdr, content)
    requires h > 0 && Owns(owner, h, h, Descriptor)
    ensures FileOk(disk[h := Desc(file)], owner, h, file, content)
  {
    var disk' := disk[h := Desc(file)];
    assert KeptBody(disk, owner, disk', owner, h);
    BodyKept(disk, owner, disk', owner, h, file.firstFileHeader, hdr, content);
    PageIs(disk', file.firstFileHeader, hdr);
  }

  lemma OwnDescriptor(disk: Disk, owner: Owner, disk1: Disk, owner': Owner, h: nat, f: File, content: seq<byte>)
    requires FileOk(disk, owner, h, f, content) && StepFor(disk, owner, disk1, owner', h)
    ensures h > 0 && Owns(owner', h, h, Descriptor)
  {}

  // With the descriptor saved last, every other file is the same as before.
  lemma Saved(disk: Disk, owner: Owner, disk1: Disk, owner': Owner, files: map<nat, File>,
              contents: map<nat, seq<byte>>,
              h: nat, file: File, content: seq<byte>)
    requires AllOk(disk, owner, files, contents) && StepFor(disk, owner, disk1, owner', h)
    requires FileOk(disk1[h := Desc(file)], owner', h, file, content)
    ensures AllOk(disk1[h := Desc(file)], owner', files[h := file], contents[h := content])
  {
    var files', contents' := files[h := file], contents[h := content];
    forall g | g in files'
      ensures FileOk(disk1[h := Desc(file)], owner', g, files'[g], contents'[g])
    {
      if g != h {
        SavedOther(disk, owner, disk1, owner', g, files[g], contents[g], h, file);
      }
    }
  }

  lemma SavedAll(disk: Disk, owner: Owner, disk1: Disk, owner': Owner, files: map<nat, File>,
                 contents: map<nat, seq<byte>>,
                 h: nat, file: File, hdr: Header, content: seq<byte>)
    requires AllOk(disk, owner, files, contents) && h in files && StepFor(disk, owner, disk1, owner', h)
    requires BodyOk(disk1, owner', h, file.firstFileHeader, hdr, content) && Recorded(file, h, hdr, content)
    ensures AllOk(disk1[h := Desc(file)], owner', files[h := file], contents[h := content])
  {
    OwnDescriptor(disk, owner, disk1, owner', h, files[h], contents[h]);
    SavedThis(disk1, owner', h, file, hdr, content);
    Saved(disk, owner, disk1, owner', files, contents, h, file, content);
  }

  // What the allocator hands out next is free of owners.
  lemma FreshSectors(owner: Owner, bound: nat, loc: nat, n: nat, h: nat, role: Role)
    requires Unowned(owner, bound) && loc + n == bound
    ensures Claimed(owner, Claim(owner, h, loc, n, role), h, loc, n, role)
    ensures Unowned(Claim(owner, h, loc, n, role), loc)
  {
    ClaimOk(owner, h, loc, n, role);
  }

  // The owners' sectors survive a write to sectors that had no owner.
  lemma FreshSteps(disk: Disk, disk1: Disk, owner: Owner, owner': Owner, h: nat, loc: nat, n: nat, role: Role)
    requires Claimed(owner, owner', h, loc, n, role) && SameOutside(disk, disk1, loc, n)
    ensures forall a :: a in owner ==> a in owner' && owner'[a] == owner[a] && Peek(disk1, a) == Peek(disk, a)
  {}

  lemma PageSteps(disk: Disk, disk1: Disk, disk': Disk, owner: Owner, owner': Owner, h: nat, hdr: Header)
    requires forall a :: a in owner ==> a in owner' && owner'[a] == owner[a] && Peek(disk1, a) == Peek(disk, a)
    requires PageOver(disk1, disk', hdr)
    requires forall s :: hdr.location <= s < hdr.location + PAGE ==> Owns(owner, s, h, PagePart)
    ensures StepFor(disk, owner, disk', owner', h)
  {
    forall a | a in owner && (owner[a].0 != h || owner[a].1 == Descriptor)
      ensures Peek(disk', a) == Peek(disk, a)
    {
      assert !Owns(owner, a, h, PagePart);
      assert Peek(disk', a) == Peek(disk1, a);
    }
  }

  lemma PageUnwritten(disk: Disk, disk1: Disk, owner: Owner, owner': Owner, h: nat, p: nat, hdr: Header,
                      loc: nat, n: nat, role: Role)
    requires Claimed(owner, owner', h, loc, n, role) && SameOutside(disk, disk1, loc, n)
    requires Intact(disk, p, hdr) && forall k :: p <= k < p + PAGE ==> Owns(owner, k, h, PagePart)
    ensures PageAt(disk1, p) == hdr
  {
    FreshSteps(disk, disk1, owner, owner', h, loc, n, role);
    PageIs(disk, p, hdr);
    PageStays(disk, disk1, owner, h, p);
  }

  lemma ExtentAdded(disk: Disk, disk1: Disk, disk': Disk, owner: Owner, owner': Owner, h: nat, p: nat,
                    hdr: Header, content: seq<byte>, e: Entry, chunk: seq<byte>)
    requires BodyOk(disk, owner, h, p, hdr, content) && hdr.usedEntrys < ENTRIES
    requires hdr.usedEntrys > 0 ==> Slack(hdr.entrys[hdr.usedEntrys - 1]) == 0
    requires e == NewEntry(hdr.usedEntrys, e.location, e.spread, e.used)
    requires Extends(disk, disk1, disk', owner, owner', h, hdr, e, chunk)
    ensures BodyOk(disk', owner', h, p, Extended(hdr, e), content + chunk)
    ensures StepFor(disk, owner, disk', owner', h)
  {
    ExtendBody(disk, disk1, disk', owner, owner', h, p, hdr, content, e, chunk);
    FreshSteps(disk, disk1, owner, owner', h, e.location, e.spread, Extent(hdr.usedEntrys));
    PageSteps(disk, disk1, disk', owner, owner', h, Extended(hdr, e));
  }

  // How many sectors n bytes take, and how many are left over in the last.
  lemma SectorsShape(m: nat, loc: nat, n: nat)
    requires 0 < n
    ensures LastShape(NewEntry(m, loc, SectorsFor(n), n))
  {}

  lemma Entered(disk: Disk, disk1: Disk, disk': Disk, owner: Owner, owner': Owner, h: nat, p: nat,
                hdr: Header, content: seq<byte>, loc: nat, chunk: seq<byte>)
    requires BodyOk(disk, owner, h, p, hdr, content) && hdr.usedEntrys < ENTRIES && 0 < |chunk|
    requires hdr.usedEntrys > 0 ==> Slack(hdr.entrys[hdr.usedEntrys - 1]) == 0
    requires Claimed(owner, owner', h, loc, SectorsFor(|chunk|), Extent(hdr.usedEntrys))
    requires SameOutside(disk, disk1, loc, SectorsFor(|chunk|))
    requires forall k :: 0 <= k < |chunk| ==> ByteOf(disk1, loc, k) == chunk[k]
    requires PageOver(disk1, disk', Extended(hdr, NewEntry(hdr.usedEntrys, loc, SectorsFor(|chunk|), |chunk|)))
    ensures var hdr' := Extended(hdr, NewEntry(hdr.usedEntrys, loc, SectorsFor(|chunk|), |chunk|));
      Grown(hdr, hdr', |chunk|) && BodyOk(disk', owner', h, p, hdr', content + chunk)
    ensures StepFor(disk, owner, disk', owner', h)
  {
    SectorsShape(hdr.usedEntrys, loc, |chunk|);
    ExtentAdded(disk, disk1, disk', owner, owner', h, p, hdr, content,
                NewEntry(hdr.usedEntrys, loc, SectorsFor(|chunk|), |chunk|), chunk);
  }

  lemma PageStays(disk: Disk, disk1: Disk, owner: Owner, h: nat, p: nat)
    requires Intact(disk, p, PageAt(disk, p))
    requires forall k :: p <= k < p + PAGE ==> Owns(owner, k, h, PagePart)
    requires forall a :: a in owner ==> Peek(disk1, a) == Peek(disk, a)
    ensures PageAt(disk1, p) == PageAt(disk, p)
  {
    forall k | 0 <= k < PAGE
      ensures Peek(disk1, p + k) == Page(PageAt(disk, p), k)
    {
      assert Owns(owner, p + k, h, PagePart);
    }
    PageIs(disk1, p, PageAt(disk, p));
  }

  // The page as the code leaves it is the extended one.
  lemma LinkedPage(hdr: Header, p: nat, loc: nat, n: nat, used: nat, prev: Option<nat>)
    requires Shape(hdr, p) && hdr.usedEntrys < ENTRIES && LinkedFrom(prev, hdr.usedEntrys)
    ensures Completed(TakeSlot(hdr, hdr.usedEntrys, loc), hdr.usedEntrys, n, used, prev) ==
            Extended(hdr, NewEntry(hdr.usedEntrys, loc, n, used))
  {
    var m := hdr.usedEntrys;
    assert EntryShape(hdr.entrys[m], m, m);
    assert Completed(TakeSlot(hdr, m, loc), m, n, used, prev).entrys == Extended(hdr, NewEntry(m, loc, n, used)).entrys;
  }

  // The entry an entry m is linked from: the one before, if there is one.
  predicate LinkedFrom(prev: Option<nat>, m: nat) { if prev.Some? then prev.value + 1 == m else m == 0 }

  // Aq_FileCreate_NewEntry, on the page: entry j is taken and located.
  function TakeSlot(page: Header, j: nat, loc: nat): Header
    requires j < |page.entrys|
  {
    var e := page.entrys[j];
    page.(usedEntrys := page.usedEntrys + 1, entrys := page.entrys[j := e.(inUse := true, id := j, location := loc)])
  }

  // The rest: size and use of the entry, and the link from the one before it.
  function Completed(page: Header, j: nat, n: nat, used: nat, prev: Option<nat>): Header
    requires j < |page.entrys| && (prev.Some? ==> prev.value < |page.entrys|)
  {
    var e := page.entrys[j];
    var es := page.entrys[j := e.(spread := n, used := e.used + used, nextOff := 0)];
    match prev
    case None => page.(entrys := es)
    case Some(k) => page.(entrys := es[k := es[k].(nextOff := es[j].id, nextHdr := page.location)])
  }

  // Read, patch and write back, in terms of the extent.
  method FillData(disk: Disk, e: Entry, buf: seq<byte>, ghost owner: Owner, ghost h: nat, ghost i: nat,
                  ghost bytes: seq<byte>)
    returns (disk': Disk)
    requires ExtentOk(disk, owner, h, i, e, bytes) && LastShape(e) && |buf| <= Slack(e)
    ensures SameOutside(disk, disk', e.location, e.spread)
    ensures ExtentOk(disk', owner, h, i, e.(used := e.used + |buf|), bytes + buf)
  {
    FillExtent(disk, owner, h, i, e, bytes, buf);
    disk' := FillSectors(disk, e, buf);
  }

  lemma FillSteps(disk: Disk, disk1: Disk, disk': Disk, owner: Owner, h: nat, hdr: Header, e: Entry, i: nat)
    requires SameOutside(disk, disk1, e.location, e.spread) && PageOver(disk1, disk', hdr)
    requires forall s :: e.location <= s < e.location + e.spread ==> Owns(owner, s, h, Extent(i))
    requires forall s :: hdr.location <= s < hdr.location + PAGE ==> Owns(owner, s, h, PagePart)
    ensures StepFor(disk, owner, disk', owner, h)
  {
    forall a | a in owner && (owner[a].0 != h || owner[a].1 == Descriptor)
      ensures Peek(disk', a) == Peek(disk, a)
    {
      assert !Owns(owner, a, h, Extent(i)) && !Owns(owner, a, h, PagePart);
      assert Peek(disk', a) == Peek(disk1, a);
    }
  }

  // ---------- runs of calls ----------

  datatype Event = Create | Append(h: nat, buf: seq<byte>)

  // All that decides what these calls do: the contents, how full the files are, and the free
  // sectors, which are those from `first` on.
  datatype Total = Total(first: nat, contents: map<nat, seq<byte>>, levels: map<nat, Level>, free: nat)

  function Levels(files: map<nat, File>): map<nat, Level> { map h | h in files :: LevelOf(files[h]) }

  ghost function TotalOf(fs: Aqfs): Total
    reads fs, fs.alloc
  {
    Total(fs.alloc.first, fs.contents, Levels(fs.files), fs.alloc.greatest)
  }

  // A call that can be asked for, and has its sectors and its entry.
  predicate Possible(t: Total, e: Event) {
    match e
    case Create => 1 <= t.free
    case Append(h, buf) =>
      && h in t.contents && h in t.levels && 0 < |buf| && Fits32(|t.contents[h]|, |buf|)
      && Filling(t.levels[h], |buf|).entries <= ENTRIES && Needed(t.levels[h], |buf|) <= t.free
  }

  function After(t: Total, e: Event): Total
    requires Possible(t, e)
  {
    match e
    case Create =>
      var h := t.first + t.free - 1;
      Total(t.first, t.contents[h := []], t.levels[h := Level(0, 0)], t.free - 1)
    case Append(h, buf) =>
      Total(t.first, t.contents[h := t.contents[h] + buf], t.levels[h := Filling(t.levels[h], |buf|)],
        t.free - Needed(t.levels[h], |buf|))
  }

  predicate AllPossible(t: Total, es: seq<Event>)
    decreases |es|
  {
    es == [] || (Possible(t, es[0]) && AllPossible(After(t, es[0]), es[1..]))
  }

  function AfterAll(t: Total, es: seq<Event>): Total
    requires AllPossible(t, es)
    decreases |es|
  {
    if es == [] then t else AfterAll(After(t, es[0]), es[1..])
  }

  // The files a run makes, in order.
  function Made(t: Total, es: seq<Event>): seq<nat>
    requires AllPossible(t, es)
    decreases |es|
  {
    if es == [] then [] else MadeBy(t, es[0]) + Made(After(t, es[0]), es[1..])
  }

  function MadeBy(t: Total, e: Event): seq<nat>
    requires Possible(t, e)
  {
    if e.Create? then [t.first + t.free - 1] else []
  }

  // What a run appends to file h.
  function WrittenTo(es: seq<Event>, h: nat): seq<byte>
    decreases |es|
  {
    if es == [] then [] else (if es[0].Append? && es[0].h == h then es[0].buf else []) + WrittenTo(es[1..], h)
  }

  // What file h holds; nothing if it does not exist.
  function Had(t: Total, h: nat): seq<byte> { if h in t.contents then t.contents[h] else [] }

  // Every file's descriptor lies above the free sectors.
  predicate WellPlaced(t: Total) { forall h :: h in t.contents ==> t.first + t.free <= h }

  lemma WellPlacedAfter(t: Total, e: Event, h: nat)
    requires Possible(t, e) && WellPlaced(t)
    ensures WellPlaced(After(t, e)) && (h in t.contents ==> h in After(t, e).contents)
    ensures Had(After(t, e), h) == Had(t, h) + if e.Append? && e.h == h then e.buf else []
  {}

  // However calls on different files interleave, a file ends up with its own buffers, in order,
  // behind what it had; one that is made on the way starts empty and keeps its own sector.
  lemma {:induction false} InterleavingIsInvisible(t: Total, es: seq<Event>, h: nat)
    requires AllPossible(t, es) && WellPlaced(t)
    ensures h in t.contents || h in Made(t, es) <==> h in AfterAll(t, es).contents
    ensures Had(AfterAll(t, es), h) == Had(t, h) + WrittenTo(es, h)
    decreases |es|
  {
    if es != [] {
      WellPlacedAfter(t, es[0], h);
      InterleavingIsInvisible(After(t, es[0]), es[1..], h);
      var part := if es[0].Append? && es[0].h == h then es[0].buf else [];
      assert Had(t, h) + (part + WrittenTo(es[1..], h)) == Had(t, h) + part + WrittenTo(es[1..], h);
    }
  }

  // The files of a run are new and all different.
  lemma {:induction false} MadeAreNew(t: Total, es: seq<Event>)
    requires AllPossible(t, es) && WellPlaced(t)
    ensures forall k :: 0 <= k < |Made(t, es)| ==> Made(t, es)[k] !in t.contents && Made(t, es)[k] < t.first + t.free
    ensures forall j, k :: 0 <= j < k < |Made(t, es)| ==> Made(t, es)[k] < Made(t, es)[j]
    decreases |es|
  {
    if es != [] {
      WellPlacedAfter(t, es[0], 0);
      MadeAreNew(After(t, es[0]), es[1..]);
    }
  }

  lemma TotalIsWellPlaced(fs: Aqfs)
    requires fs.Valid()
    ensures WellPlaced(TotalOf(fs))
  {
    forall h | h in fs.contents
      ensures fs.alloc.Bound() <= h
    {
      assert h in fs.files && FileOk(fs.disk, fs.owner, h, fs.files[h], fs.contents[h]);
      assert h in fs.owner;
    }
  }

  // Append does to the whole what After says.
  lemma AppendIsAfter(first: nat, contents: map<nat, seq<byte>>, files: map<nat, File>, free: nat, h: nat,
                      buf: seq<byte>, file': File)
    requires contents.Keys == files.Keys && Possible(Total(first, contents, Levels(files), free), Append(h, buf))
    requires LevelOf(file') == Filling(LevelOf(files[h]), |buf|)
    ensures After(Total(first, contents, Levels(files), free), Append(h, buf)) ==
            Total(first, contents[h := contents[h] + buf], Levels(files[h := file']),
              free - Needed(LevelOf(files[h]), |buf|))
  {
    assert Levels(files[h := file']) == Levels(files)[h := LevelOf(file')];
  }

  lemma CreateIsAfter(first: nat, contents: map<nat, seq<byte>>, files: map<nat, File>, free: nat, file: File)
    requires 1 <= free && file.headers == 0
    ensures var h := first + free - 1;
      After(Total(first, contents, Levels(files), free), Create) ==
        Total(first, contents[h := []], Levels(files[h := file]), free - 1)
  {
    var h := first + free - 1;
    assert Levels(files[h := file]) == Levels(files)[h := LevelOf(file)];
  }

  // A possible call succeeds, with the outcome After says.
  method AppendOne(fs: Aqfs, h: nat, buf: seq<byte>)
    requires fs.Valid() && Possible(TotalOf(fs), Append(h, buf))
    modifies fs, fs.alloc`greatest, fs.alloc.table
    ensures fs.Valid() && TotalOf(fs) == After(old(TotalOf(fs)), Append(h, buf))
  {
    ghost var contents, files, free := fs.contents, fs.files, fs.alloc.greatest;
    var done, file' := fs.Append(h, buf);
    AppendIsAfter(fs.alloc.first, contents, files, free, h, buf, file');
  }

  method CreateOne(fs: Aqfs) returns (h: nat)
    requires fs.Valid() && Possible(TotalOf(fs), Create)
    modifies fs, fs.alloc`greatest, fs.alloc.table
    ensures fs.Valid() && TotalOf(fs) == After(old(TotalOf(fs)), Create) &&
      h == old(TotalOf(fs)).first + old(TotalOf(fs)).free - 1
  {
    ghost var contents, files, free := fs.contents, fs.files, fs.alloc.greatest;
    var made := fs.Create();
    h := made.value;
    CreateIsAfter(fs.alloc.first, contents, files, free, fs.files[h]);
  }

  method CallOne(fs: Aqfs, e: Event) returns (made: seq<nat>)
    requires fs.Valid() && Possible(TotalOf(fs), e)
    modifies fs, fs.alloc`greatest, fs.alloc.table
    ensures fs.Valid() && TotalOf(fs) == After(old(TotalOf(fs)), e) && made == MadeBy(old(TotalOf(fs)), e)
  {
    match e {
      case Create =>
        var h := CreateOne(fs);
        made := [h];
      case Append(h, buf) =>
        AppendOne(fs, h, buf);
        made := [];
    }
  }

  // A run of calls. None of them fails, and what comes out is the run's outcome.
  method RunAll(fs: Aqfs, es: seq<Event>) returns (made: seq<nat>)
    requires fs.Valid() && AllPossible(TotalOf(fs), es)
    modifies fs, fs.alloc`greatest, fs.alloc.table
    ensures fs.Valid() && TotalOf(fs) == AfterAll(old(TotalOf(fs)), es) && made == Made(old(TotalOf(fs)), es)
  {
    ghost var t0 := TotalOf(fs);
    ghost var t := t0;
    var rest := es;
    made := [];
    while rest != []
      invariant fs.Valid() && TotalOf(fs) == t && ComesTo(t0, es, made, t, rest)
      decreases |rest|
    {
      CallFirst(t0, es, made, t, rest);
      var h := CallOne(fs, rest[0]);
      t := After(t, rest[0]);
      made := made + h;
      rest := rest[1..];
    }
  }

  // The run es from t0 is at t, with `made` behind it and `rest` to go.
  ghost predicate ComesTo(t0: Total, es: seq<Event>, made: seq<nat>, t: Total, rest: seq<Event>) {
    && AllPossible(t0, es) && AllPossible(t, rest)
    && AfterAll(t, rest) == AfterAll(t0, es) && made + Made(t, rest) == Made(t0, es)
  }

  lemma CallFirst(t0: Total, es: seq<Event>, made: seq<nat>, t: Total, rest: seq<Event>)
    requires rest != [] && ComesTo(t0, es, made, t, rest)
    ensures Possible(t, rest[0]) && ComesTo(t0, es, made + MadeBy(t, rest[0]), After(t, rest[0]), rest[1..])
  {
    var m := MadeBy(t, rest[0]);
    assert made + (m + Made(After(t, rest[0]), rest[1..])) == made + m + Made(After(t, rest[0]), rest[1..]);
  }

  // After any such run a read returns its slice of what the file had and was appended since.
  method RunAllThenRead(fs: Aqfs, es: seq<Event>, h: nat, offset: nat, size: nat) returns (n: nat, buffer: seq<byte>)
    requires fs.Valid() && AllPossible(TotalOf(fs), es) && (h in fs.contents || h in Made(TotalOf(fs), es))
    requires var c := Had(TotalOf(fs), h) + WrittenTo(es, h); offset < |c| && offset + size <= |c|
    modifies fs, fs.alloc`greatest, fs.alloc.table
    ensures n == size && buffer == (Had(old(TotalOf(fs)), h) + WrittenTo(es, h))[offset..offset + size]
  {
    TotalIsWellPlaced(fs);
    InterleavingIsInvisible(TotalOf(fs), es, h);
    var made := RunAll(fs, es);
    n, buffer := fs.Read(h, offset, size);
  }
}
