/** Directories and path names over the file system (fs.c:492-557, 599-649). */
module Names {
  import opened Layout
  import opened BlockTree
  import opened FileData
  import opened InodeCache
  import opened FileSystem
  import opened Path
  import opened Directory

  ghost function DirOf(img: Image, i: nat): seq<Entry>
    requires i < |img.ino|
  {
    Entries(Content(img, i))
  }

  // The caller holds slot ip, locked and read in, on the mounted device.
  ghost predicate Held(fs: FileSystem, ip: nat)
    reads fs
  {
    && fs.Valid() && ip < |fs.inode| && HandleOf(fs.inode, ip) in fs.handles
    && fs.inode[ip].dev == fs.dev && fs.inode[ip].valid && fs.inode[ip].locked
  }

  lemma RecordRead(c: seq<byte>, k: nat, off: nat, de: seq<byte>)
    requires off == DIRENT * k && off + DIRENT <= |c| && de == c[off..off + DIRENT]
    ensures Entries(c)[k] == Entry(Canon(de[2..]), Word16(de, 0))
  {}

  ghost function EntryAt(img: Image, i: nat, k: nat): Entry
    requires i < |img.ino| && k < |DirOf(img, i)|
  {
    DirOf(img, i)[k]
  }

  // es are the records of directory i.
  ghost predicate DirIs(img: Image, i: nat, es: seq<Entry>) {
    && i < |img.ino| && |es| == img.ino[i].size / DIRENT
    && forall k {:trigger EntryAt(img, i, k)} :: 0 <= k < |es| ==> EntryAt(img, i, k) == es[k]
  }

  lemma DirOfIs(img: Image, i: nat)
    requires i < |img.ino|
    ensures DirIs(img, i, DirOf(img, i))
  {}

  lemma WholeRecord(size: u32, k: nat, off: nat)
    requires off == DIRENT * k < size
    ensures k < size / DIRENT <==> Min(DIRENT, size - off) == DIRENT
    ensures (off + DIRENT) % U32 < off ==> k >= size / DIRENT
  {}

  // readi of the record at offset 16k of directory dp; the last one may be cut short.
  method ReadRecord(fs: FileSystem, dp: nat, k: nat, ghost es: seq<Entry>) returns (r: Result<seq<byte>>)
    requires Held(fs, dp) && fs.inode[dp].d.ty == T_DIR && DIRENT * k < fs.inode[dp].d.size
    requires DirIs(fs.t.img, fs.inode[dp].inum, es)
    modifies fs`raw, fs`t, fs`inode
    ensures unchanged(fs)
    ensures if k < |es| then r.Done? && |r.value| == DIRENT && es[k] == Entry(Canon(r.value[2..]), Word16(r.value, 0))
            else r == Panic(ShortRead)
  {
    var off := DIRENT * k;
    WholeRecord(fs.inode[dp].d.size, k, off);
    var n, de := fs.Readi(dp, off, DIRENT);
    if n != Done(DIRENT) {
      return Panic(ShortRead);
    }
    RecordRead(Content(fs.t.img, fs.inode[dp].inum), k, off, de);
    assert EntryAt(fs.t.img, fs.inode[dp].inum, k) == es[k];
    r := Done(de);
  }

  // Outcome of looking a name up among the records es: a counted handle on the inode of the
  // first live record with that name. A trailing partial record (`whole` is false) is only
  // run into if no earlier record matches.
  ghost predicate Looked(slots0: seq<Inode>, handles0: multiset<Handle>, slots: seq<Inode>, handles: multiset<Handle>,
                         dev: u32, es: seq<Entry>, whole: bool, name: seq<byte>, r: Result<Option<nat>>) {
    var k := Find(es, Canon(name));
    if k == |es| then slots == slots0 && handles == handles0 && r == if whole then Done(None) else Panic(ShortRead)
    else
      var s := Chosen(slots0, dev, es[k].inum);
      if s == |slots0| then r == Panic(NoSlots) && AllInUse(slots)
      else
        && r == Done(Some(s)) && slots == AfterGet(slots0, dev, es[k].inum)
        && handles == handles0 + multiset{Handle(s, dev, es[k].inum)}
  }

  lemma FindStep(es: seq<Entry>, name: seq<byte>, k: nat)
    requires k < |es| && k <= Find(es, name)
    ensures if es[k].inum != 0 && es[k].name == name then Find(es, name) == k else k + 1 <= Find(es, name)
  {}

  // dirlookup's scan: the first live record with the name, or where the records end.
  method ScanFor(fs: FileSystem, dp: nat, name: seq<byte>, ghost es: seq<Entry>) returns (r: Result<nat>, inum: u16)
    requires Held(fs, dp) && fs.inode[dp].d.ty == T_DIR
    requires DirIs(fs.t.img, fs.inode[dp].inum, es)
    modifies fs`raw, fs`t, fs`inode
    ensures unchanged(fs)
    ensures var k := Find(es, Canon(name));
      if k < |es| then r == Done(DIRENT * k) && inum == es[k].inum
      else inum == 0 && if fs.inode[dp].d.size % DIRENT == 0 then r == Done(fs.inode[dp].d.size)
        else r == Panic(ShortRead)
  {
    HandleGood(fs.inode, fs.handles, fs.dev, fs.t.img.ino, dp);
    var k := 0;
    while DIRENT * k < fs.inode[dp].d.size
      invariant fs.raw == old(fs.raw) && fs.t == old(fs.t) && fs.inode == old(fs.inode)
      invariant k <= Find(es, Canon(name))
      decreases fs.inode[dp].d.size - DIRENT * k
    {
      var de := ReadRecord(fs, dp, k, es);
      if de.Panic? {
        return Panic(ShortRead), 0;
      }
      inum := Word16(de.value, 0);
      SameIsCanon(name, de.value[2..], DIRSIZ);
      FindStep(es, Canon(name), k);
      if inum != 0 && SameUpTo(name, de.value[2..], DIRSIZ) {
        return Done(DIRENT * k), inum;
      }
      k := k + 1;
    }
    return Done(DIRENT * k), 0;
  }

  // A counted handle on the inode name stands for in directory dp, and where its record is.
  method Dirlookup(fs: FileSystem, dp: nat, name: seq<byte>, ghost es: seq<Entry>)
    returns (r: Result<Option<nat>>, poff: nat)
    requires Held(fs, dp) && DirIs(fs.t.img, fs.inode[dp].inum, es)
    modifies fs`raw, fs`t, fs`inode, fs`handles
    ensures fs.raw == old(fs.raw) && fs.t == old(fs.t) && CacheOk(fs.inode, fs.handles, fs.dev, fs.t.img.ino)
    ensures
      if old(fs.inode)[dp].d.ty != T_DIR then r == Panic(NotDir)
      else
        && Looked(old(fs.inode), old(fs.handles), fs.inode, fs.handles, fs.dev, es,
          old(fs.inode)[dp].d.size % DIRENT == 0, name, r)
        && (r.Done? && r.value.Some? ==> poff == DIRENT * Find(es, Canon(name)))
  {
    if fs.inode[dp].d.ty != T_DIR {
      return Panic(NotDir), 0;
    }
    var off, inum := ScanFor(fs, dp, name, es);
    if off.Panic? {
      return Panic(ShortRead), 0;
    }
    if inum == 0 {
      return Done(None), 0;
    }
    var ip := fs.Iget(fs.inode[dp].dev, inum);
    if ip.Panic? {
      return Panic(NoSlots), 0;
    }
    return Done(Some(ip.value)), off.value;
  }

  // ---------- dirlink ----------

  lemma EmptyStep(es: seq<Entry>, k: nat)
    requires k < |es| && k <= FirstEmpty(es)
    ensures if es[k].inum == 0 then FirstEmpty(es) == k else k + 1 <= FirstEmpty(es)
  {}

  // dirlink's search for an empty record, or the end of the directory.
  method FindEmpty(fs: FileSystem, dp: nat, ghost es: seq<Entry>) returns (r: Result<nat>)
    requires Held(fs, dp) && fs.inode[dp].d.ty == T_DIR && fs.inode[dp].d.size % DIRENT == 0
    requires DirIs(fs.t.img, fs.inode[dp].inum, es)
    modifies fs`raw, fs`t, fs`inode
    ensures unchanged(fs) && r == Done(DIRENT * FirstEmpty(es))
  {
    HandleGood(fs.inode, fs.handles, fs.dev, fs.t.img.ino, dp);
    var k := 0;
    while DIRENT * k < fs.inode[dp].d.size
      invariant fs.raw == old(fs.raw) && fs.t == old(fs.t) && fs.inode == old(fs.inode)
      invariant k <= FirstEmpty(es)
      decreases fs.inode[dp].d.size - DIRENT * k
    {
      var de := ReadRecord(fs, dp, k, es);
      EmptyStep(es, k);
      if Word16(de.value, 0) == 0 {
        break;
      }
      k := k + 1;
    }
    return Done(DIRENT * k);
  }

  lemma LinkedDir(img: Image, img': Image, i: nat, es: seq<Entry>, name: seq<byte>, inum: u16)
    requires DirIs(img, i, es) && |img'.ino| == |img.ino| && img.ino[i].size % DIRENT == 0
    requires Content(img', i) == Splice(Content(img, i), DIRENT * FirstEmpty(es), Dirent(name, inum))
    ensures DirIs(img', i, Linked(es, Entry(Canon(name), inum)))
  {
    assert forall k :: 0 <= k < |es| ==> DirOf(img, i)[k] == EntryAt(img, i, k);
    assert DirOf(img, i) == es;
    SplicedEntries(Content(img, i), FirstEmpty(es), name, inum);
    DirOfIs(img', i);
  }

  // Slots in use are as they were.
  ghost predicate KeptInUse(slots: seq<Inode>, slots': seq<Inode>) {
    |slots'| == |slots| && forall s {:trigger InUse(slots, s)} :: 0 <= s < |slots| && InUse(slots, s) ==>
      slots'[s] == slots[s]
  }

  // A handle just taken can be put back, and that is as if nothing had happened.
  lemma FreshHandle(slots: seq<Inode>, handles: multiset<Handle>, dev: u32, ino: seq<Dinode>, inum: u32)
    requires CacheOk(slots, handles, dev, ino) && Chosen(slots, dev, inum) < |slots|
    ensures var s := Chosen(slots, dev, inum); var slots' := AfterGet(slots, dev, inum);
      && !LastUnlinked(slots'[s]) && (slots'[s].locked ==> slots'[s].ref > 1) && slots'[s].ref > 0
      && slots'[s].dev == dev && slots'[s].inum == inum
      && KeptInUse(slots, slots'[s := slots'[s].(ref := slots'[s].ref - 1)])
  {}

  // dirlookup, then iput of what it found: whether the directory has the name.
  method Present(fs: FileSystem, dp: nat, name: seq<byte>, ghost es: seq<Entry>) returns (r: Result<bool>)
    requires Held(fs, dp) && DirIs(fs.t.img, fs.inode[dp].inum, es)
    modifies fs`raw, fs`t, fs`inode, fs`handles
    ensures fs.raw == old(fs.raw) && fs.t == old(fs.t)
    ensures var k := Find(es, Canon(name));
      if old(fs.inode)[dp].d.ty != T_DIR then r == Panic(NotDir)
      else if k == |es| then unchanged(fs) && r == if old(fs.inode)[dp].d.size % DIRENT == 0 then Done(false)
        else Panic(ShortRead)
      else if Chosen(old(fs.inode), fs.dev, es[k].inum) == |old(fs.inode)| then r == Panic(NoSlots)
      else r == Done(true) && fs.Valid() && fs.handles == old(fs.handles) && KeptInUse(old(fs.inode), fs.inode)
  {
    var ip, _ := Dirlookup(fs, dp, name, es);
    if ip.Panic? {
      return Panic(ip.why);
    }
    if ip.value == None {
      return Done(false);
    }
    PutBackFresh(fs, ip.value.value, old(fs.inode), old(fs.handles), es[Find(es, Canon(name))].inum);
    return Done(true);
  }

  // iput of a handle just taken.
  method PutBackFresh(fs: FileSystem, s: nat, ghost slots0: seq<Inode>, ghost handles0: multiset<Handle>,
                      ghost inum: u32)
    requires fs.Valid() && CacheOk(slots0, handles0, fs.dev, fs.t.img.ino) &&
      s == Chosen(slots0, fs.dev, inum) < |slots0|
    requires fs.inode == AfterGet(slots0, fs.dev, inum) && fs.handles == handles0 + multiset{Handle(s, fs.dev, inum)}
    modifies fs`raw, fs`t, fs`inode, fs`handles
    ensures fs.Valid() && fs.raw == old(fs.raw) && fs.t == old(fs.t) && fs.handles == handles0 &&
      KeptInUse(slots0, fs.inode)
  {
    FreshHandle(slots0, handles0, fs.dev, fs.t.img.ino, inum);
    var p := fs.Iput(s);
    assert fs.handles == handles0;
  }

  // What dirlink returns for directory d with records es: -1 for a name that is there, else 0
  // unless the directory cannot take one more record.
  ghost function LinkResult(d: Dinode, slots: seq<Inode>, used: seq<bool>, dev: u32, es: seq<Entry>,
                            name: seq<byte>): Result<int> {
    var k, off := Find(es, name), DIRENT * FirstEmpty(es);
    if d.ty != T_DIR then Panic(NotDir)
    else if k < |es| then if Chosen(slots, dev, es[k].inum) == |slots| then Panic(NoSlots) else Done(-1)
    else if d.size % DIRENT != 0 then Panic(ShortRead)
    else if off + DIRENT > MAXFILE * BSIZE then Panic(DirFull)
    else if TooFew(used, d.size, off + DIRENT) then Panic(OutOfBlocks)
    else Done(0)
  }

  // Bind name to inum in the directory dp, which must not have the name yet.
  method Dirlink(fs: FileSystem, dp: nat, name: seq<byte>, inum: u32, ghost es: seq<Entry>) returns (r: Result<int>)
    requires Held(fs, dp) && DirIs(fs.t.img, fs.inode[dp].inum, es)
    modifies fs`raw, fs`t, fs`inode, fs`handles
    ensures r == LinkResult(old(fs.inode)[dp].d, old(fs.inode), old(fs.t).img.used, fs.dev, es, Canon(name))
    ensures r.Done? ==> fs.Valid() && fs.handles == old(fs.handles)
    ensures r == Done(-1) ==> fs.raw == old(fs.raw) && fs.t == old(fs.t) && KeptInUse(old(fs.inode), fs.inode)
    ensures r == Done(0) ==> LinkEffect(old(fs.t), fs.t, old(fs.inode), fs.inode, dp, es, name, inum % 0x1_0000)
  {
    var present := Present(fs, dp, name, es);
    if present.Panic? {
      return Panic(present.why);
    }
    if present.value {
      return Done(-1);
    }
    r := AddRecord(fs, dp, name, inum % 0x1_0000, es);
  }

  // The record goes into the first empty place, or behind the last one.
  method AddRecord(fs: FileSystem, dp: nat, name: seq<byte>, inum: u16, ghost es: seq<Entry>) returns (r: Result<int>)
    requires Held(fs, dp) && DirIs(fs.t.img, fs.inode[dp].inum, es)
    requires fs.inode[dp].d.ty == T_DIR && Find(es, Canon(name)) == |es| && fs.inode[dp].d.size % DIRENT == 0
    modifies fs`raw, fs`t, fs`inode
    ensures r == LinkResult(old(fs.inode)[dp].d, old(fs.inode), old(fs.t).img.used, fs.dev, es, Canon(name))
    ensures r.Done? ==>
      r == Done(0) && fs.Valid() && LinkEffect(old(fs.t), fs.t, old(fs.inode), fs.inode, dp, es, name, inum)
  {
    HandleGood(fs.inode, fs.handles, fs.dev, fs.t.img.ino, dp);
    SizeBound(fs.sb, fs.raw, fs.t, fs.inode[dp].inum);
    var off := FindEmpty(fs, dp, es);
    OneRecordMore(fs.inode[dp].d.size, off.value);
    var w := WriteRecord(fs, dp, Dirent(name, inum), off.value);
    if w != Done(DIRENT) {
      return Panic(if w.Panic? then w.why else DirFull);
    }
    LinkedBy(old(fs.t), fs.t, old(fs.inode), fs.inode, dp, es, name, inum, off.value);
    return Done(0);
  }

  // writei of one record to a directory.
  method WriteRecord(fs: FileSystem, dp: nat, de: seq<byte>, off: u32) returns (w: Result<int>)
    requires Held(fs, dp) && fs.inode[dp].d.ty == T_DIR && |de| == DIRENT
    requires off <= fs.inode[dp].d.size && off + DIRENT < U32
    modifies fs`raw, fs`t, fs`inode
    ensures w == if off + DIRENT > MAXFILE * BSIZE then Done(-1)
            else if TooFew(old(fs.t).img.used, old(fs.inode)[dp].d.size, off + DIRENT) then Panic(OutOfBlocks)
            else Done(DIRENT)
    ensures w == Done(DIRENT) ==> fs.Valid() && WriteEffect(old(fs.t), fs.t, old(fs.inode), fs.inode, dp, off, de)
  {
    w := fs.Writei(dp, de, off);
  }

  lemma LinkedBy(t0: Tree, t: Tree, slots: seq<Inode>, slots': seq<Inode>, dp: nat, es: seq<Entry>, name: seq<byte>,
                 inum: u16, off: nat)
    requires WriteEffect(t0, t, slots, slots', dp, off, Dirent(name, inum)) && off == DIRENT * FirstEmpty(es)
    requires DirIs(t0.img, slots[dp].inum, es) && t0.img.ino[slots[dp].inum].size % DIRENT == 0
    ensures LinkEffect(t0, t, slots, slots', dp, es, name, inum)
  {
    LinkedDir(t0.img, t.img, slots[dp].inum, es, name, inum);
  }

  lemma OneRecordMore(size: nat, off: nat)
    requires off <= size <= MAXFILE * BSIZE
    ensures off + DIRENT < U32
  {}

  // A file never gets longer than its block tree can reach.
  lemma SizeBound(sb: Superblock, raw: seq<Block>, t: Tree, i: nat)
    requires DiskOk(sb, raw, t) && i < |t.img.ino|
    ensures t.img.ino[i].size <= MAXFILE * BSIZE
  {}

  // dirlink's effect: writei's, and the directory has one more live record.
  ghost predicate LinkEffect(t0: Tree, t: Tree, slots: seq<Inode>, slots': seq<Inode>, dp: nat,
                             es: seq<Entry>, name: seq<byte>, inum: u16) {
    && WriteEffect(t0, t, slots, slots', dp, DIRENT * FirstEmpty(es), Dirent(name, inum))
    && DirIs(t.img, slots[dp].inum, Linked(es, Entry(Canon(name), inum)))
  }

  // As a map from names: an existing name is refused, a new one is bound and nothing else
  // changes; a directory's names stay distinct.
  lemma DirlinkRefinesMap(es: seq<Entry>, name: seq<byte>, inum: u16)
    requires Unique(es)
    ensures Find(es, Canon(name)) < |es| <==> Canon(name) in DirMap(es)
    ensures Find(es, Canon(name)) == |es| ==>
      var es' := Linked(es, Entry(Canon(name), inum));
      Unique(es') && DirMap(es') == if inum == 0 then DirMap(es) else DirMap(es)[Canon(name) := inum]
  {
    FindIsLookup(es, Canon(name));
    if Find(es, Canon(name)) == |es| {
      LinkedUnique(es, Entry(Canon(name), inum));
      LinkedMap(es, Entry(Canon(name), inum));
    }
  }

  // Success promises that the name then stands for inum. It does exactly if inum fits the
  // record's 16 bits and is not 0.
  lemma DirlinkBinds(es: seq<Entry>, name: seq<byte>, inum: u32)
    requires Unique(es) && Canon(name) !in DirMap(es)
    ensures var es' := Linked(es, Entry(Canon(name), inum % 0x1_0000));
      && Unique(es')
      && (Canon(name) in DirMap(es') && DirMap(es')[Canon(name)] == inum <==> 0 < inum < 0x1_0000)
  {
    DirlinkRefinesMap(es, name, inum % 0x1_0000);
  }

  // Two numbers for which it does not.
  lemma Dirlink65536BindsNothing(es: seq<Entry>, name: seq<byte>)
    requires Unique(es) && Canon(name) !in DirMap(es)
    ensures var es' := Linked(es, Entry(Canon(name), 0x1_0000 % 0x1_0000)); Unique(es') && DirMap(es') == DirMap(es)
  {
    DirlinkRefinesMap(es, name, 0x1_0000 % 0x1_0000);
  }

  lemma Dirlink65537BindsOne(es: seq<Entry>, name: seq<byte>)
    requires Unique(es) && Canon(name) !in DirMap(es)
    ensures var es' := Linked(es, Entry(Canon(name), 0x1_0001 % 0x1_0000));
      Unique(es') && DirMap(es') == DirMap(es)[Canon(name) := 1]
  {
    DirlinkRefinesMap(es, name, 0x1_0001 % 0x1_0000);
  }
}
