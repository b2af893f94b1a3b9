/** Directory files (fs.c:492-557, struct dirent in fs.h): a sequence of 16-byte records, a
    16-bit inode number and a 14-byte name; inode number 0 marks an empty record. */
module Directory {
  import opened Layout
  import opened Path
  import opened FileData

  const DIRENT := 16

  function EntInum(c: seq<byte>, k: nat): u16
    requires DIRENT * k + DIRENT <= |c|
  {
    Word16(c, DIRENT * k)
  }

  function EntName(c: seq<byte>, k: nat): seq<byte>
    requires DIRENT * k + DIRENT <= |c|
  {
    Canon(c[DIRENT * k + 2..DIRENT * k + DIRENT])
  }

  function Dirent(name: seq<byte>, inum: u16): (s: seq<byte>)
    ensures |s| == DIRENT
  {
    Bytes16(inum) + Padded(name)
  }

  // A record read as (name, inode number).
  datatype Entry = Entry(name: seq<byte>, inum: u16)

  function Entries(c: seq<byte>): (es: seq<Entry>)
    ensures |es| == |c| / DIRENT
  {
    seq(|c| / DIRENT, k requires 0 <= k < |c| / DIRENT => Entry(EntName(c, k), EntInum(c, k)))
  }

  // Record k: an inode number in two bytes, and a name in fourteen.
  lemma EntryPlace(c: seq<byte>, k: nat)
    requires 16 * k + 16 <= |c|
    ensures k < |Entries(c)| && Entries(c)[k].inum == Number(c[16 * k..16 * k + 2])
    ensures Entries(c)[k].name == Canon(c[16 * k + 2..16 * k + 16])
  {
    Number16(c, 16 * k);
  }

  // First live record with the name, or the number of records.
  function Find(es: seq<Entry>, name: seq<byte>): (k: nat)
    ensures k <= |es|
    ensures k < |es| ==> es[k].inum != 0 && es[k].name == name
    ensures forall j :: 0 <= j < k ==> !(es[j].inum != 0 && es[j].name == name)
  {
    if es == [] || (es[0].inum != 0 && es[0].name == name) then 0
    else
      assert forall j :: 0 < j < |es| ==> es[j] == es[1..][j - 1];
      1 + Find(es[1..], name)
  }

  // First empty record, or the number of records.
  function FirstEmpty(es: seq<Entry>): (k: nat)
    ensures k <= |es| && (k < |es| ==> es[k].inum == 0)
    ensures forall j :: 0 <= j < k ==> es[j].inum != 0
  {
    if es == [] || es[0].inum == 0 then 0
    else
      assert forall j :: 0 < j < |es| ==> es[j] == es[1..][j - 1];
      1 + FirstEmpty(es[1..])
  }

  // ---------- a directory is a finite map ----------

  ghost predicate Unique(es: seq<Entry>) {
    forall j, k {:trigger es[j], es[k]} :: 0 <= j < k < |es| && es[j].inum != 0 && es[k].inum != 0 ==>
      es[j].name != es[k].name
  }

  ghost function DirMap(es: seq<Entry>): map<seq<byte>, u16>
    requires Unique(es)
  {
    map k | 0 <= k < |es| && es[k].inum != 0 :: es[k].name := es[k].inum
  }

  // Scanning for a name finds exactly what the map holds.
  lemma FindIsLookup(es: seq<Entry>, name: seq<byte>)
    requires Unique(es)
    ensures name in DirMap(es) <==> Find(es, name) < |es|
    ensures name in DirMap(es) ==> DirMap(es)[name] == es[Find(es, name)].inum
  {}

  // The records after a new one is put at k, which was empty or the end.
  ghost function Linked(es: seq<Entry>, e: Entry): seq<Entry> {
    var k := FirstEmpty(es);
    if k < |es| then es[k := e] else es + [e]
  }

  lemma LinkedUnique(es: seq<Entry>, e: Entry)
    requires Unique(es) && e.name !in DirMap(es)
    ensures Unique(Linked(es, e))
  {}

  lemma HoldsAt(es: seq<Entry>, k: nat)
    requires Unique(es) && k < |es| && es[k].inum != 0
    ensures es[k].name in DirMap(es) && DirMap(es)[es[k].name] == es[k].inum
  {}

  // Old bindings stay, and no others but the new one appear.
  lemma LinkedKeeps(es: seq<Entry>, e: Entry, n: seq<byte>)
    requires Unique(es) && Unique(Linked(es, e)) && n in DirMap(es)
    ensures n in DirMap(Linked(es, e)) && DirMap(Linked(es, e))[n] == DirMap(es)[n]
  {}

  lemma LinkedAdds(es: seq<Entry>, e: Entry, n: seq<byte>)
    requires Unique(es) && Unique(Linked(es, e)) && n in DirMap(Linked(es, e))
    ensures n in DirMap(es) || (n == e.name && e.inum != 0)
  {}

  // A new name adds exactly its binding, wherever its record goes; a 0 inode number adds none.
  lemma LinkedMap(es: seq<Entry>, e: Entry)
    requires Unique(es) && e.name !in DirMap(es) && Unique(Linked(es, e))
    ensures DirMap(Linked(es, e)) == if e.inum == 0 then DirMap(es) else DirMap(es)[e.name := e.inum]
  {
    forall n | n in DirMap(es)
      ensures n in DirMap(Linked(es, e)) && DirMap(Linked(es, e))[n] == DirMap(es)[n]
    {
      LinkedKeeps(es, e, n);
    }
    forall n | n in DirMap(Linked(es, e))
      ensures n in DirMap(es) || (n == e.name && e.inum != 0)
    {
      LinkedAdds(es, e, n);
    }
    if e.inum != 0 {
      HoldsAt(Linked(es, e), FirstEmpty(es));
    }
    MapWith(DirMap(es), DirMap(Linked(es, e)), e);
  }

  lemma MapWith(m: map<seq<byte>, u16>, m': map<seq<byte>, u16>, e: Entry)
    requires e.name !in m && forall n :: n in m ==> n in m' && m'[n] == m[n]
    requires forall n :: n in m' ==> n in m || (n == e.name && e.inum != 0)
    requires e.inum != 0 ==> e.name in m' && m'[e.name] == e.inum
    ensures m' == if e.inum == 0 then m else m[e.name := e.inum]
  {}

  lemma RecordWritten(c: seq<byte>, k: nat, name: seq<byte>, inum: u16)
    requires DIRENT * k + DIRENT <= |c| && c[DIRENT * k..DIRENT * k + DIRENT] == Dirent(name, inum)
    ensures EntInum(c, k) == inum && EntName(c, k) == Canon(name)
  {
    var o := DIRENT * k;
    assert c[o..o + 2] == c[o..o + DIRENT][..2] == Bytes16(inum);
    Word16RoundTrip(inum, c, o);
    assert c[o + 2..o + DIRENT] == c[o..o + DIRENT][2..] == Padded(name);
    PaddedName(name);
  }

  lemma RecordKept(c: seq<byte>, c': seq<byte>, k: nat)
    requires DIRENT * k + DIRENT <= |c| && DIRENT * k + DIRENT <= |c'|
    requires c'[DIRENT * k..DIRENT * k + DIRENT] == c[DIRENT * k..DIRENT * k + DIRENT]
    ensures EntInum(c', k) == EntInum(c, k) && EntName(c', k) == EntName(c, k)
  {
    var o := DIRENT * k;
    var s, s' := c[o..o + DIRENT], c'[o..o + DIRENT];
    assert c[o] == s[0] && c'[o] == s'[0] && c[o + 1] == s[1] && c'[o + 1] == s'[1];
    assert c[o + 2..o + DIRENT] == s[2..] && c'[o + 2..o + DIRENT] == s'[2..];
  }

  lemma SplicedRecord(c: seq<byte>, k: nat, src: seq<byte>, j: nat)
    requires |src| == DIRENT && DIRENT * k <= |c| && (DIRENT * j + DIRENT <= |c| || j == k)
    ensures DIRENT * j + DIRENT <= |Splice(c, DIRENT * k, src)|
    ensures Splice(c, DIRENT * k, src)[DIRENT * j..DIRENT * j + DIRENT] ==
            if j == k then src else c[DIRENT * j..DIRENT * j + DIRENT]
  {}

  lemma SplicedEntry(c: seq<byte>, k: nat, name: seq<byte>, inum: u16, j: nat)
    requires |c| % DIRENT == 0 && DIRENT * k <= |c| && (DIRENT * j + DIRENT <= |c| || j == k)
    ensures var c' := Splice(c, DIRENT * k, Dirent(name, inum));
      DIRENT * j + DIRENT <= |c'| && Entry(EntName(c', j), EntInum(c', j)) ==
      if j == k then Entry(Canon(name), inum) else Entry(EntName(c, j), EntInum(c, j))
  {
    var c' := Splice(c, DIRENT * k, Dirent(name, inum));
    SplicedRecord(c, k, Dirent(name, inum), j);
    if j == k {
      RecordWritten(c', k, name, inum);
    } else {
      RecordKept(c, c', j);
    }
  }

  // Splicing an encoded record over record k replaces that record and no other.
  lemma SplicedEntries(c: seq<byte>, k: nat, name: seq<byte>, inum: u16)
    requires |c| % DIRENT == 0 && DIRENT * k <= |c|
    ensures var es, e := Entries(c), Entry(Canon(name), inum);
      Entries(Splice(c, DIRENT * k, Dirent(name, inum))) == if k < |es| then es[k := e] else es + [e]
  {
    var c' := Splice(c, DIRENT * k, Dirent(name, inum));
    var es, e := Entries(c), Entry(Canon(name), inum);
    var want := if k < |es| then es[k := e] else es + [e];
    assert |Entries(c')| == |want|;
    forall j | 0 <= j < |want|
      ensures Entries(c')[j] == want[j]
    {
      SplicedEntry(c, k, name, inum, j);
    }
  }
}
