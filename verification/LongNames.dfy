/** Long file names on FAT (fat.c:570-600 and 688-830, the branch without MODE_EXFAT): putting
    the pieces of a name together while walking the 32-byte entries of a directory. */
module LongNames {
  import opened Layout
  import opened Path
  import Fat

  const ENTRY := 32
  const UNITS := 13
  const BUFFER := 832

  // The directory offset is an ssize_t, which is signed and has 32 bits on the i686 the kernel is
  // built for (Kernel/makefile:1).
  const SSIZE_MAX := 0x7FFF_FFFF

  type Raw = e: seq<byte> | |e| == 32 witness seq(32, _ => 0)
  type Buffer = b: seq<u16> | |b| == 832 witness seq(832, _ => 0)

  // ---------- one entry ----------

  predicate IsEnd(e: Raw) { e[0] == 0 }
  predicate IsLong(e: Raw) { e[11] == 0x0f }

  // Deleted, or with attribute bits outside FAT_ATTR_VALID.
  predicate IsSkipped(e: Raw) { !IsLong(e) && (e[0] == 0xe5 || e[11] & 0xc0 != 0) }
  predicate IsShort(e: Raw) { !IsLong(e) && !IsSkipped(e) }

  // The 13 UTF-16 units of a long-name entry: name1, name2 and name3.
  function Units(e: Raw): (u: seq<u16>)
    ensures |u| == UNITS
  {
    seq(5, i requires 0 <= i < 5 => Word16(e, 1 + 2 * i)) +
    seq(6, i requires 0 <= i < 6 => Word16(e, 14 + 2 * i)) +
    seq(2, i requires 0 <= i < 2 => Word16(e, 28 + 2 * i))
  }

  predicate Starts(e: Raw) { e[0] & 0x40 != 0 }

  // id & 0x3f for an entry that starts a name, id itself otherwise.
  function Id(e: Raw): (id: nat)
    ensures id < 0x100
    ensures Starts(e) ==> id < 0x40
  {
    ByteBound(e[0]);
    LowSix(e[0]);
    if Starts(e) then (e[0] & 0x3f) as int else e[0] as int
  }

  lemma LowSix(b: byte)
    ensures 0 <= (b & 0x3f) as int < 0x40
  {}

  function Checksum(e: Raw): (c: nat)
    ensures c < 0x100
  {
    ByteBound(e[13]);
    e[13] as int
  }

  // The workaround for Japanese: a first byte of 5 stands for 0xe5.
  function Fixed(e: Raw): Raw { if e[0] == 0x05 then e[0 := 0xe5] else e }

  // Rotate right and add, over a name's bytes.
  function Rotate(sum: byte, b: byte): byte { ((sum >> 1) | (sum << 7)) + b }
  function Sum(sum: byte, name: seq<byte>): byte
    decreases |name|
  {
    if name == [] then sum else Sum(Rotate(sum, name[0]), name[1..])
  }

  function NameSum(e: Raw): (c: nat)
    ensures c < 0x100
  {
    ByteBound(Sum(0, e[..11]));
    Sum(0, e[..11]) as int
  }

  // One round as arithmetic on bytes, which is modulo 256: half the sum, its lowest bit moved to
  // the top, plus the byte.
  function RoundOf(sum: byte, b: byte): byte { sum / 2 + 128 * (sum % 2) + b }

  lemma RotateIs(s: byte, b: byte)
    ensures Rotate(s, b) == RoundOf(s, b)
  {}

  function SumOf(sum: byte, name: seq<byte>): byte
    decreases |name|
  {
    if name == [] then sum else SumOf(RoundOf(sum, name[0]), name[1..])
  }

  lemma {:induction false} SumIs(s: byte, name: seq<byte>)
    ensures Sum(s, name) == SumOf(s, name)
    decreases |name|
  {
    if name != [] {
      RotateIs(s, name[0]);
      SumIs(Rotate(s, name[0]), name[1..]);
    }
  }

  // The checksum is taken over the eleven bytes of the short name.
  lemma NameSumIs(e: Raw)
    ensures NameSum(e) == SumOf(0, e[0..11]) as int
  {
    SumIs(0, e[..11]);
    assert e[..11] == e[0..11];
  }

  // ---------- the state machine ----------

  // The local variables slot, slots and checksum, and the buffer unibuf.
  datatype State = State(slot: int, slots: int, checksum: int, buf: Buffer)

  function Initial(buf: Buffer): State { State(-1, -1, -1, buf) }

  predicate Fits(s: State) { s.slot == s.slots == -1 || 0 <= s.slot <= s.slots < 0x40 }

  // An entry that is neither the end nor a short one.
  function Feed(s: State, e: Raw): (t: State)
    requires Fits(s)
    ensures Fits(t)
  {
    if !IsLong(e) then s
    else
      var a := if Starts(e) then s.(slot := Id(e), slots := Id(e), checksum := Checksum(e)) else s;
      if Id(e) != a.slot || a.slot == 0 || a.checksum != Checksum(e) then a.(checksum := -1)
      else a.(slot := a.slot - 1, buf := Put(a.buf, a.slot - 1, Units(e)))
  }

  function Put(b: Buffer, slot: nat, u: seq<u16>): Buffer
    requires slot < 0x40 && |u| == UNITS
  {
    b[..UNITS * slot] + u + b[UNITS * slot + UNITS..]
  }

  function FeedAll(s: State, es: seq<Raw>): (t: State)
    requires Fits(s)
    ensures Fits(t)
  {
    if es == [] then s else Feed(FeedAll(s, es[..|es| - 1]), es[|es| - 1])
  }

  // The long name a short entry gets, if any.
  function NameFor(s: State, e: Raw): Option<seq<u16>>
    requires Fits(s)
  {
    if s.checksum != -1 && s.slot == 0 && NameSum(Fixed(e)) == s.checksum
    then Some(s.buf[..UNITS * s.slots])
    else None
  }

  // ---------- what a name is made of ----------

  // The first r of the n entries of a long name: ids n, n-1, ... and one checksum.
  predicate Run(es: seq<Raw>, n: nat, sum: nat) {
    && 0 < |es| <= n < 0x40
    && (forall i :: 0 <= i < |es| ==> IsLong(es[i]) && Checksum(es[i]) == sum && Id(es[i]) == n - i)
    && (forall i :: 0 <= i < |es| ==> (Starts(es[i]) <==> i == 0))
  }

  // The units of the entries, last entry first.
  function Joined(es: seq<Raw>): (u: seq<u16>)
    ensures |u| == UNITS * |es|
  {
    if es == [] then [] else Units(es[|es| - 1]) + Joined(es[..|es| - 1])
  }

  // The state after the entries `run` of a name of n entries.
  predicate GotTo(t: State, n: nat, sum: nat, run: seq<Raw>)
    requires |run| <= n < 0x40
  {
    && t.slot == n - |run| && t.slots == n && t.checksum == sum
    && t.buf[UNITS * (n - |run|)..UNITS * n] == Joined(run)
  }

  lemma JoinedOneMore(run: seq<Raw>, e: Raw)
    ensures Joined(run + [e]) == Units(e) + Joined(run)
  {}

  lemma FeedStart(s: State, e: Raw, n: nat, sum: nat)
    requires Fits(s) && Run([e], n, sum)
    ensures GotTo(Feed(s, e), n, sum, [e])
  {
    assert [e][0] == e;
    JoinedOneMore([], e);
    AfterPut(s.buf, n - 1, n, Units(e), []);
    assert [] + [e] == [e];
  }

  lemma FeedMore(s: State, run: seq<Raw>, e: Raw, n: nat, sum: nat)
    requires Fits(s) && 0 < |run| < n < 0x40 && GotTo(s, n, sum, run)
    requires IsLong(e) && !Starts(e) && Checksum(e) == sum && Id(e) == n - |run|
    ensures GotTo(Feed(s, e), n, sum, run + [e])
  {
    JoinedOneMore(run, e);
    AfterPut(s.buf, n - |run| - 1, n, Units(e), Joined(run));
  }

  // After a run the state says exactly how far the name has got, whatever came before.
  lemma {:induction false} AfterRun(s: State, es: seq<Raw>, k: nat, n: nat, sum: nat)
    requires Fits(s) && k < |es| && Run(es[k..], n, sum)
    ensures GotTo(FeedAll(s, es), n, sum, es[k..])
    decreases |es|
  {
    var last, front := |es| - 1, es[..|es| - 1];
    assert es[k..][last - k] == es[last];
    if k < last {
      assert front[k..] == es[k..][..last - k];
      assert es[k..] == front[k..] + [es[last]];
      AfterRun(s, front, k, n, sum);
      FeedMore(FeedAll(s, front), front[k..], es[last], n, sum);
    } else {
      assert es[k..] == [es[last]];
      FeedStart(FeedAll(s, front), es[last], n, sum);
    }
  }

  lemma AfterPut(b: Buffer, slot: nat, n: nat, u: seq<u16>, rest: seq<u16>)
    requires slot < n < 0x40 && |u| == UNITS && |rest| == UNITS * (n - slot - 1)
    requires b[UNITS * (slot + 1)..UNITS * n] == rest
    ensures Put(b, slot, u)[UNITS * slot..UNITS * n] == u + rest
  {}

  // What a live checksum behind a long entry says about that entry and the state before.
  lemma LiveBehind(t: State, e: Raw)
    requires Fits(t) && IsLong(e) && Feed(t, e).checksum != -1
    ensures Starts(e) ==> Run([e], Feed(t, e).slots, Feed(t, e).checksum) && Feed(t, e).slot == Feed(t, e).slots - 1
    ensures !Starts(e) ==>
      && t.checksum == Checksum(e) == Feed(t, e).checksum && Id(e) == t.slot > 0
      && Feed(t, e).slot == t.slot - 1 && Feed(t, e).slots == t.slots
  {}

  // The state after a run that is still live.
  predicate Live(t: State, run: seq<Raw>) {
    t.slots >= 0 && t.checksum >= 0 && Run(run, t.slots, t.checksum) && t.slot == t.slots - |run|
  }

  lemma LiveFirst(u: State, e: Raw)
    requires Fits(u) && IsLong(e) && Starts(e) && Feed(u, e).checksum != -1
    ensures Live(Feed(u, e), [e])
  {}

  lemma LiveMore(u: State, run: seq<Raw>, e: Raw)
    requires Fits(u) && Live(u, run) && IsLong(e) && !Starts(e) && Feed(u, e).checksum != -1
    ensures Live(Feed(u, e), run + [e])
  {
    RunGrows(run, e, u.slots, u.checksum);
  }

  // A live checksum can only come from a run that reaches the last long entry.
  lemma {:induction false} FromRun(s: State, es: seq<Raw>) returns (k: nat)
    requires Fits(s) && s.checksum == -1 && FeedAll(s, es).checksum != -1
    requires forall i :: 0 <= i < |es| ==> IsLong(es[i])
    ensures k < |es| && Live(FeedAll(s, es), es[k..])
  {
    var last, front := |es| - 1, es[..|es| - 1];
    var u, e := FeedAll(s, front), es[last];
    assert FeedAll(s, es) == Feed(u, e);
    LiveBehind(u, e);
    if Starts(e) {
      k := last;
      LiveFirst(u, e);
      assert es[k..] == [e];
    } else {
      k := FromRun(s, front);
      LiveMore(u, front[k..], e);
      assert es[k..] == front[k..] + [e];
    }
  }

  lemma RunGrows(run: seq<Raw>, e: Raw, n: nat, sum: nat)
    requires Run(run, n, sum) && |run| < n
    requires IsLong(e) && !Starts(e) && Checksum(e) == sum && Id(e) == n - |run|
    ensures Run(run + [e], n, sum)
  {}

  function Longs(es: seq<Raw>): (ls: seq<Raw>)
    ensures forall i :: 0 <= i < |ls| ==> IsLong(ls[i])
  {
    if es == [] then []
    else Longs(es[..|es| - 1]) + if IsLong(es[|es| - 1]) then [es[|es| - 1]] else []
  }

  // Entries that are no part of a long name leave the state alone.
  lemma {:induction false} SkippingIsFree(s: State, es: seq<Raw>)
    requires Fits(s)
    ensures FeedAll(s, es) == FeedAll(s, Longs(es))
  {
    if es != [] {
      var front, e := es[..|es| - 1], es[|es| - 1];
      SkippingIsFree(s, front);
      if IsLong(e) {
        assert (Longs(front) + [e])[..|Longs(front)|] == Longs(front);
      } else {
        assert Longs(es) == Longs(front);
      }
    }
  }

  // The last n long-name entries are a whole name for a short entry with this checksum.
  predicate Named(ls: seq<Raw>, n: nat, sum: nat) { n <= |ls| && Run(ls[|ls| - n..], n, sum) }

  // Complete: whatever was read before, n entries with ids n..1 and the short entry's checksum
  // give that entry the 13n units in order.
  lemma Complete(buf: Buffer, es: seq<Raw>, e: Raw, n: nat)
    requires Named(Longs(es), n, NameSum(Fixed(e)))
    ensures NameFor(FeedAll(Initial(buf), es), e) == Some(Joined(Longs(es)[|Longs(es)| - n..]))
  {
    var ls := Longs(es);
    SkippingIsFree(Initial(buf), es);
    AfterRun(Initial(buf), ls, |ls| - n, n, NameSum(Fixed(e)));
    var b := FeedAll(Initial(buf), ls).buf;
    assert b[UNITS * 0..UNITS * n] == b[..UNITS * n];
  }

  // Sound: any long name comes from such a run, with nothing but skipped entries in between.
  lemma Sound(buf: Buffer, es: seq<Raw>, e: Raw) returns (n: nat)
    requires NameFor(FeedAll(Initial(buf), es), e).Some?
    ensures Named(Longs(es), n, NameSum(Fixed(e)))
    ensures NameFor(FeedAll(Initial(buf), es), e) == Some(Joined(Longs(es)[|Longs(es)| - n..]))
  {
    SkippingIsFree(Initial(buf), es);
    var k := FromRun(Initial(buf), Longs(es));
    n := |Longs(es)| - k;
    Complete(buf, es, e, n);
  }

  // ---------- the workaround and the checksum ----------

  lemma RotateInjective(s: byte, t: byte, b: byte)
    requires Rotate(s, b) == Rotate(t, b)
    ensures s == t
  {}

  lemma {:induction false} SumInjective(s: byte, t: byte, name: seq<byte>)
    requires Sum(s, name) == Sum(t, name)
    ensures s == t
    decreases |name|
  {
    if name != [] {
      SumInjective(Rotate(s, name[0]), Rotate(t, name[0]), name[1..]);
      RotateInjective(s, t, name[0]);
    }
  }

  // The checksum is taken after the workaround, so it agrees with the checksum of the bytes on
  // disk exactly when the workaround did not apply.
  lemma WorkaroundChangesSum(e: Raw)
    ensures NameSum(Fixed(e)) == NameSum(e) <==> e[0] != 0x05
  {
    if e[0] == 0x05 {
      assert Fixed(e)[..11][1..] == e[..11][1..];
      if Sum(0, Fixed(e)[..11]) == Sum(0, e[..11]) {
        SumInjective(Rotate(0, 0xe5), Rotate(0, 0x05), e[..11][1..]);
        RotateFirst(0xe5);
        RotateFirst(0x05);
      }
      SameByte(Sum(0, Fixed(e)[..11]), Sum(0, e[..11]));
    }
  }

  lemma RotateFirst(b: byte)
    ensures Rotate(0, b) == b
  {}

  lemma SameByte(a: byte, b: byte)
    ensures a as int == b as int <==> a == b
  {}

  lemma LastChecksum(ls: seq<Raw>, n: nat, sum: nat)
    requires Named(ls, n, sum)
    ensures ls != [] && Checksum(ls[|ls| - 1]) == sum
  {}

  // ---------- a long name as it is written ----------

  function BytesOf(u: seq<u16>): (s: seq<byte>)
    ensures |s| == 2 * |u|
  {
    if u == [] then [] else Bytes16(u[0]) + BytesOf(u[1..])
  }

  lemma {:induction false} BytesOfAt(u: seq<u16>, i: nat)
    requires i < |u|
    ensures BytesOf(u)[2 * i..2 * i + 2] == Bytes16(u[i])
  {
    if i == 0 {
      assert BytesOf(u)[0..2] == Bytes16(u[0]);
    } else {
      BytesOfAt(u[1..], i - 1);
      assert BytesOf(u)[2 * i..2 * i + 2] == BytesOf(u[1..])[2 * (i - 1)..2 * (i - 1) + 2];
    }
  }

  // A long-name entry with 13 units: five from byte 1 on, six from byte 14, two from byte 28; the
  // attribute in byte 11, the checksum in byte 13.
  function LongEntry(id: byte, u: seq<u16>, sum: byte): Raw
    requires |u| == 13
  {
    [id] + BytesOf(u[0..5]) + [0x0f, 0, sum] + BytesOf(u[5..11]) + [0, 0] + BytesOf(u[11..13])
  }

  lemma SubSlice(e: seq<byte>, o: nat, n: nat, j: nat, x: nat)
    requires o + n <= |e| && j + 2 <= n && x == o + j
    ensures e[x..x + 2] == e[o..o + n][j..j + 2]
  {
    var t := e[o..o + n];
    assert t[j] == e[x] && t[j + 1] == e[x + 1];
    assert e[x..x + 2] == [e[x], e[x + 1]] && t[j..j + 2] == [t[j], t[j + 1]];
  }

  lemma UnitAt(e: Raw, o: nat, part: seq<u16>, i: nat, x: nat)
    requires i < |part| && o + 2 * |part| <= 32 && e[o..o + 2 * |part|] == BytesOf(part) && x == o + 2 * i
    ensures Word16(e, x) == part[i]
  {
    BytesOfAt(part, i);
    SubSlice(e, o, 2 * |part|, 2 * i, x);
    Word16RoundTrip(part[i], e, x);
  }

  lemma PartUnits(e: Raw, o: nat, part: seq<u16>)
    requires o + 2 * |part| <= 32 && e[o..o + 2 * |part|] == BytesOf(part)
    ensures forall i :: 0 <= i < |part| ==> Word16(e, o + 2 * i) == part[i]
  {
    forall i | 0 <= i < |part|
      ensures Word16(e, o + 2 * i) == part[i]
    {
      UnitAt(e, o, part, i, o + 2 * i);
    }
  }

  lemma EntryParts(id: byte, a: seq<byte>, sum: byte, b: seq<byte>, c: seq<byte>)
    requires |a| == 10 && |b| == 12 && |c| == 4
    ensures var e := [id] + a + [0x0f, 0, sum] + b + [0, 0] + c;
      |e| == 32 && e[0] == id && e[1..11] == a && e[11] == 0x0f && e[13] == sum && e[14..26] == b && e[28..32] == c
  {}

  lemma UnitsFrom(e: Raw, a: seq<u16>, b: seq<u16>, c: seq<u16>, u: seq<u16>)
    requires |a| == 5 && |b| == 6 && |c| == 2 && u == a + b + c
    requires forall i :: 0 <= i < |a| ==> Word16(e, 1 + 2 * i) == a[i]
    requires forall i :: 0 <= i < |b| ==> Word16(e, 14 + 2 * i) == b[i]
    requires forall i :: 0 <= i < |c| ==> Word16(e, 28 + 2 * i) == c[i]
    ensures Units(e) == u
  {
    assert seq(5, i requires 0 <= i < 5 => Word16(e, 1 + 2 * i)) == a;
    assert seq(6, i requires 0 <= i < 6 => Word16(e, 14 + 2 * i)) == b;
    assert seq(2, i requires 0 <= i < 2 => Word16(e, 28 + 2 * i)) == c;
  }

  lemma UnitsOfEntry(id: byte, u: seq<u16>, sum: byte)
    requires |u| == 13
    ensures Units(LongEntry(id, u, sum)) == u
    ensures IsLong(LongEntry(id, u, sum)) && Checksum(LongEntry(id, u, sum)) == sum as int &&
      LongEntry(id, u, sum)[0] == id
  {
    var e, a, b, c := LongEntry(id, u, sum), u[0..5], u[5..11], u[11..13];
    EntryParts(id, BytesOf(a), sum, BytesOf(b), BytesOf(c));
    PartsTogether(e, a, b, c, u);
  }

  lemma PartsTogether(e: Raw, a: seq<u16>, b: seq<u16>, c: seq<u16>, u: seq<u16>)
    requires |a| == 5 && |b| == 6 && |c| == 2 && u == a + b + c
    requires e[1..11] == BytesOf(a) && e[14..26] == BytesOf(b) && e[28..32] == BytesOf(c)
    ensures Units(e) == u
  {
    PartUnits(e, 1, a);
    PartUnits(e, 14, b);
    PartUnits(e, 28, c);
    UnitsFrom(e, a, b, c, u);
  }

  // The entries of a long name of 13n units: numbered from n down to 1, the first one marked, and
  // entry i holds the i-th thirteen of them.
  function EntryId(n: nat, k: nat): byte
    requires k < n < 64
  {
    if k == 0 then 0x40 | (n as byte) else (n - k) as byte
  }

  function Thirteen(u: seq<u16>, at: nat): seq<u16>
    requires at + 13 <= |u|
  {
    u[at..at + 13]
  }

  function NameEntries(u: seq<u16>, n: nat, sum: byte): (es: seq<Raw>)
    requires n < 64 && |u| == 13 * n
  {
    seq(n, k requires 0 <= k < n => LongEntry(EntryId(n, k), Thirteen(u, 13 * (n - 1 - k)), sum))
  }

  lemma MarkedId(x: byte)
    requires x < 64
    ensures (0x40 | x) & 0x40 != 0 && (0x40 | x) & 0x3f == x && x & 0x40 == 0
  {}

  lemma SmallByte(n: nat)
    requires n < 64
    ensures (n as byte) as int == n && n as byte < 64
  {
    ByteRoundTrip(n);
  }

  lemma EntryIdIs(n: nat, k: nat, e: Raw)
    requires k < n < 64 && e[0] == EntryId(n, k)
    ensures Id(e) == n - k && (Starts(e) <==> k == 0)
  {
    SmallByte(n - k);
    MarkedId((n - k) as byte);
  }

  lemma NameEntriesRun(u: seq<u16>, n: nat, sum: byte)
    requires 0 < n < 64 && |u| == 13 * n
    ensures Run(NameEntries(u, n, sum), n, sum as int)
  {
    var es := NameEntries(u, n, sum);
    forall k | 0 <= k < n
      ensures IsLong(es[k]) && Checksum(es[k]) == sum as int && Id(es[k]) == n - k && (Starts(es[k]) <==> k == 0)
    {
      UnitsOfEntry(EntryId(n, k), Thirteen(u, 13 * (n - 1 - k)), sum);
      EntryIdIs(n, k, es[k]);
    }
  }

  lemma JoinedPrefix(es: seq<Raw>, r: nat)
    requires 0 < r <= |es|
    ensures Joined(es[..r]) == Units(es[r - 1]) + Joined(es[..r - 1])
  {
    assert es[..r][..r - 1] == es[..r - 1];
  }

  lemma ThirteenMore(u: seq<u16>, at: nat)
    requires at + 13 <= |u|
    ensures u[at..] == Thirteen(u, at) + u[at + 13..]
  {}

  lemma {:induction false} JoinedEntries(u: seq<u16>, n: nat, sum: byte, r: nat, at: nat)
    requires r <= n < 64 && |u| == 13 * n && at == 13 * (n - r)
    ensures Joined(NameEntries(u, n, sum)[..r]) == u[at..]
  {
    var es := NameEntries(u, n, sum);
    if r > 0 {
      JoinedEntries(u, n, sum, r - 1, at + 13);
      UnitsOfEntry(EntryId(n, r - 1), Thirteen(u, at), sum);
      assert es[r - 1] == LongEntry(EntryId(n, r - 1), Thirteen(u, at), sum);
      JoinedPrefix(es, r);
      ThirteenMore(u, at);
    } else {
      assert es[..0] == [] && u[at..] == [];
    }
  }

  lemma {:induction false} LongsOfLongs(es: seq<Raw>)
    requires forall k :: 0 <= k < |es| ==> IsLong(es[k])
    ensures Longs(es) == es
  {
    if es != [] {
      LongsOfLongs(es[..|es| - 1]);
    }
  }

  // A long name written into such entries, in front of a short entry with their checksum, comes
  // back whole.
  lemma LongNameRoundTrip(buf: Buffer, u: seq<u16>, n: nat, sum: byte, e: Raw)
    requires 0 < n < 64 && |u| == 13 * n && NameSum(Fixed(e)) == sum as int
    ensures NameFor(FeedAll(Initial(buf), NameEntries(u, n, sum)), e) == Some(u)
  {
    var es := NameEntries(u, n, sum);
    NameEntriesRun(u, n, sum);
    LongsOfLongs(es);
    assert es[|es| - n..] == es && es[..n] == es;
    Complete(buf, es, e, n);
    JoinedEntries(u, n, sum, n, 0);
  }

  // So a long name whose checksum is that of the short name on disk is found unless the first
  // byte on disk is 5.
  lemma FoundUnlessFive(buf: Buffer, es: seq<Raw>, e: Raw, n: nat)
    requires Named(Longs(es), n, NameSum(e))
    ensures NameFor(FeedAll(Initial(buf), es), e) ==
            if e[0] == 0x05 then None else Some(Joined(Longs(es)[|Longs(es)| - n..]))
  {
    WorkaroundChangesSum(e);
    var ls := Longs(es);
    if e[0] != 0x05 {
      Complete(buf, es, e, n);
    } else if NameFor(FeedAll(Initial(buf), es), e).Some? {
      var m := Sound(buf, es, e);
      LastChecksum(ls, n, NameSum(e));
      LastChecksum(ls, m, NameSum(Fixed(e)));
    }
  }

  // One such entry: a name of byte 5 and ten zeros, behind the one piece of its long name.
  function FiveShort(): Raw { seq(32, i => if i == 0 then 0x05 else 0) }
  function FiveLong(): Raw {
    seq(32, i => if i == 0 then 0x41 else if i == 11 then 0x0f else if i == 13 then Sum(0, FiveShort()[..11]) else 0)
  }

  lemma FiveLosesItsName(buf: Buffer)
    ensures Checksum(FiveLong()) == NameSum(FiveShort()) && IsShort(FiveShort())
    ensures NameFor(FeedAll(Initial(buf), [FiveLong()]), FiveShort()) == None
  {
    var e, l := FiveShort(), FiveLong();
    assert Starts(l) && Id(l) == 1;
    assert Longs([l]) == [l];
    assert [l][1 - 1..] == [l] && Run([l], 1, NameSum(e));
    FoundUnlessFive(buf, [l], e, 1);
  }

  // ---------- the iterator ----------

  datatype Found = Found(dir: Raw, longName: Option<seq<u16>>) | Eof | ReadError | OffsetOverflow

  // The read of the entry at an offset; `err` says that the error variable was set before.
  function EntryRead(v: Fat.Volume, err: bool, cluster: u32, offset: nat): (r: Fat.Outcome) {
    Fat.ReadSpec(v, err, cluster, offset, ENTRY)
  }

  predicate Passed(e: Raw) { !IsEnd(e) && !IsShort(e) }

  // The entries after `offset` that the iterator has passed over.
  ghost predicate PassedOver(v: Fat.Volume, err: bool, cluster: u32, offset: int, es: seq<Raw>) {
    forall k :: 0 <= k < |es| ==>
      && Passed(es[k])
      && offset + ENTRY * (k + 1) >= 0
      && EntryRead(v, err, cluster, offset + ENTRY * (k + 1)) == Fat.Got(es[k])
  }

  // Why the iterator can stop without an entry. The end is reported as an error if one is
  // left over from before; `OffsetOverflow` is the signed overflow of the offset, after which
  // the C code is undefined.
  predicate Stops(v: Fat.Volume, err: bool, cluster: u32, offset: nat, r: Found) {
    if offset > SSIZE_MAX then r == OffsetOverflow
    else match EntryRead(v, err, cluster, offset)
      case Fail => r == ReadError
      case Got(e) => (|e| != ENTRY || e[0] == 0) && r == if err then ReadError else Eof
  }

  predicate IsEntry(v: Fat.Volume, err: bool, cluster: u32, offset: nat, e: Raw) {
    offset <= SSIZE_MAX && EntryRead(v, err, cluster, offset) == Fat.Got(e) && !IsEnd(e)
  }

  // What the iterator answers at the entry that ended its loop: e if that is a short one.
  predicate Answers(v: Fat.Volume, err: bool, cluster: u32, offset: nat, s: State, r: Found, e: Raw)
    requires Fits(s)
  {
    if r.Found? then IsEntry(v, err, cluster, offset, e) && IsShort(e) && r == Found(Fixed(e), NameFor(s, e))
    else Stops(v, err, cluster, offset, r)
  }

  class Iterator {
    const reader: Fat.Reader
    const unibuf: array<u16>
    var offset: int

    ghost predicate Valid()
      reads this, reader
    {
      reader.CursorOk() && unibuf.Length == BUFFER && offset >= -ENTRY
    }

    // fat_iterate_init
    constructor (reader: Fat.Reader)
      requires reader.CursorOk()
      ensures Valid() && this.reader == reader && fresh(unibuf) && offset == -ENTRY
    {
      this.reader := reader;
      unibuf := new u16[BUFFER];
      offset := -ENTRY;
    }

    // The three memcpy of a long-name entry.
    method Store(slot: nat, e: Raw)
      requires slot < 0x40 && unibuf.Length == BUFFER
      modifies unibuf
      ensures unibuf[..] == Put(old(unibuf[..]), slot, Units(e))
    {
      var u := Units(e);
      forall i | 0 <= i < UNITS {
        unibuf[UNITS * slot + i] := u[i];
      }
    }

    // The long-name branch of the loop.
    method Long(e: Raw, slot0: int, slots0: int, checksum0: int) returns (slot: int, slots: int, checksum: int)
      requires IsLong(e) && unibuf.Length == BUFFER
      requires Fits(State(slot0, slots0, checksum0, unibuf[..]))
      modifies unibuf
      ensures State(slot, slots, checksum, unibuf[..]) ==
              Feed(State(slot0, slots0, checksum0, old(unibuf[..])), e)
    {
      slot, slots, checksum := slot0, slots0, checksum0;
      if Starts(e) {
        slots, slot, checksum := Id(e), Id(e), Checksum(e);
      }
      if Id(e) != slot || slot == 0 || checksum != Checksum(e) {
        checksum := -1;
        return;
      }
      slot := slot - 1;
      Store(slot, e);
    }

    // Advance to the next entry and read it.
    method ReadEntry() returns (e: Option<Raw>, stop: Found)
      requires Valid()
      modifies `offset, reader
      ensures Valid() && reader.fileCluster == old(reader.fileCluster) && offset == old(offset) + ENTRY
      ensures reader.errno == (old(reader.errno) || (e == None && stop == ReadError))
      ensures match e
        case Some(raw) => IsEntry(reader.v, old(reader.errno), reader.fileCluster, offset, raw)
        case None => !stop.Found? && Stops(reader.v, old(reader.errno), reader.fileCluster, offset, stop)
    {
      offset := offset + ENTRY;
      if offset > SSIZE_MAX {
        return None, OffsetOverflow;
      }
      var got := reader.ReadData(offset, ENTRY);
      if got.Fail? {
        return None, ReadError;
      }
      if |got.bytes| != ENTRY || got.bytes[0] == 0 {
        return None, if reader.errno then ReadError else Eof;
      }
      return Some(got.bytes), Eof;
    }

    // fat_iterate_dir_next, up to the conversion of the name to UTF-8.
    method Next() returns (r: Found, ghost es: seq<Raw>, ghost last: Raw)
      requires Valid()
      modifies this, reader, unibuf
      ensures Valid() && reader.fileCluster == old(reader.fileCluster) &&
        reader.errno == (old(reader.errno) || r == ReadError)
      ensures offset == old(offset) + ENTRY * (|es| + 1)
      ensures PassedOver(reader.v, old(reader.errno), reader.fileCluster, old(offset), es)
      ensures Answers(reader.v, old(reader.errno), reader.fileCluster, offset,
        FeedAll(Initial(old(unibuf[..])), es), r, last)
      ensures r.Found? ==> last[0] != 0 && last[0] != 0xe5 && last[11] != 0x0f && last[11] < 0x40
      ensures r.Found? ==> r.dir[1..] == last[1..] && r.dir[0] == if last[0] == 0x05 then 0xe5 else last[0]
      ensures forall k :: 0 <= k < |es| ==>
        es[k][0] != 0 && (es[k][11] == 0x0f || es[k][0] == 0xe5 || es[k][11] >= 0x40)
    {
      var slot, slots, checksum := -1, -1, -1;
      es, last := [], seq(ENTRY, _ => 0);
      ghost var start := Initial(unibuf[..]);
      while true
        invariant Valid() && reader.fileCluster == old(reader.fileCluster) && reader.errno == old(reader.errno)
        invariant offset == old(offset) + ENTRY * |es|
        invariant PassedOver(reader.v, old(reader.errno), reader.fileCluster, old(offset), es)
        invariant State(slot, slots, checksum, unibuf[..]) == FeedAll(start, es)
        invariant forall k :: 0 <= k < |es| ==>
          es[k][0] != 0 && (es[k][11] == 0x0f || es[k][0] == 0xe5 || es[k][11] >= 0x40)
        decreases SSIZE_MAX - offset
      {
        var got, stop := ReadEntry();
        if got == None {
          return stop, es, last;
        }
        var e: Raw := got.value;
        HighBits(e[11]);
        if IsShort(e) {
          var name := if checksum != -1 && slot == 0 && NameSum(Fixed(e)) == checksum
                      then Some(unibuf[..UNITS * slots]) else None;
          return Found(Fixed(e), name), es, e;
        }
        if IsLong(e) {
          slot, slots, checksum := Long(e, slot, slots, checksum);
        }
        FeedOne(start, es, e);
        PassOne(reader.v, old(reader.errno), reader.fileCluster, old(offset), es, e, offset);
        es := es + [e];
      }
    }
  }

  lemma HighBits(b: byte)
    ensures b & 0xc0 != 0 <==> b >= 0x40
  {}

  lemma PassOne(v: Fat.Volume, err: bool, cluster: u32, start: int, es: seq<Raw>, e: Raw, offset: nat)
    requires PassedOver(v, err, cluster, start, es) && offset == start + ENTRY * (|es| + 1)
    requires Passed(e) && IsEntry(v, err, cluster, offset, e)
    ensures PassedOver(v, err, cluster, start, es + [e])
  {
    forall k | 0 <= k < |es + [e]|
      ensures Passed((es + [e])[k]) && start + ENTRY * (k + 1) >= 0
      ensures EntryRead(v, err, cluster, start + ENTRY * (k + 1)) == Fat.Got((es + [e])[k])
    {
      if k < |es| {
        assert Passed(es[k]);
      } else {
        assert start + ENTRY * (k + 1) == offset;
      }
    }
  }

  lemma FeedOne(s: State, es: seq<Raw>, e: Raw)
    requires Fits(s)
    ensures FeedAll(s, es + [e]) == Feed(FeedAll(s, es), e)
  {}
}
