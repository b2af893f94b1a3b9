/** The reference-counted table of in-memory inodes (fs.c:98-342), as pure steps over the
    table. A handle is what a caller of iget or idup holds until it calls iput: the slot, and
    the inode it was promised to be. Every step runs under icache.lock, so the interleavings
    of all callers are exactly the sequences of these steps. */
module InodeCache {
  import opened Layout

  // struct inode; of ip->flags only I_VALID is ever used.
  datatype Inode = Inode(dev: u32, inum: u32, ref: nat, valid: bool, locked: bool, d: Dinode)

  datatype Handle = Handle(s: nat, dev: u32, inum: u32)

  // First slot in use for (dev, inum), or |slots|.
  function Cached(slots: seq<Inode>, dev: u32, inum: u32): (s: nat)
    ensures s <= |slots|
    ensures s < |slots| ==> slots[s].ref > 0 && slots[s].dev == dev && slots[s].inum == inum
    ensures forall t :: 0 <= t < s ==> !(slots[t].ref > 0 && slots[t].dev == dev && slots[t].inum == inum)
  {
    if slots == [] then 0
    else if slots[0].ref > 0 && slots[0].dev == dev && slots[0].inum == inum then 0
    else
      assert forall t :: 0 < t < |slots| ==> slots[t] == slots[1..][t - 1];
      1 + Cached(slots[1..], dev, inum)
  }

  // First slot not in use, or |slots|.
  function Empty(slots: seq<Inode>): (s: nat)
    ensures s <= |slots|
    ensures s < |slots| ==> slots[s].ref == 0
    ensures forall t :: 0 <= t < s ==> slots[t].ref > 0
  {
    if slots == [] || slots[0].ref == 0 then 0
    else
      assert forall t :: 0 < t < |slots| ==> slots[t] == slots[1..][t - 1];
      1 + Empty(slots[1..])
  }

  predicate AllInUse(slots: seq<Inode>) { forall s :: 0 <= s < |slots| ==> slots[s].ref > 0 }

  // iget succeeds with this slot; |slots| is the "no inodes" panic.
  function Chosen(slots: seq<Inode>, dev: u32, inum: u32): (s: nat)
    ensures s <= |slots|
  {
    if Cached(slots, dev, inum) < |slots| then Cached(slots, dev, inum) else Empty(slots)
  }

  function AfterGet(slots: seq<Inode>, dev: u32, inum: u32): seq<Inode>
    requires Chosen(slots, dev, inum) < |slots|
  {
    var s := Chosen(slots, dev, inum);
    if Cached(slots, dev, inum) < |slots| then slots[s := slots[s].(ref := slots[s].ref + 1)]
    else slots[s := slots[s].(dev := dev, inum := inum, ref := 1, valid := false)]
  }

  function HandleOf(slots: seq<Inode>, s: nat): Handle
    requires s < |slots|
  {
    Handle(s, slots[s].dev, slots[s].inum)
  }

  predicate InUse(slots: seq<Inode>, s: nat)
    requires s < |slots|
  {
    slots[s].ref > 0
  }

  // The cache's invariant: one slot in use per inode; every handle still finds its inode in
  // its slot; `ref` counts the handles; only slots in use are locked.
  ghost predicate CacheInv(slots: seq<Inode>, handles: multiset<Handle>) {
    && (forall s, t {:trigger InUse(slots, s), InUse(slots, t)}
          | 0 <= s < |slots| && 0 <= t < |slots| && InUse(slots, s) && InUse(slots, t) ::
          (slots[s].dev == slots[t].dev && slots[s].inum == slots[t].inum ==> s == t))
    && (forall h {:trigger handles[h]} :: h in handles ==>
      h.s < |slots| && slots[h.s].ref > 0 && h == HandleOf(slots, h.s))
    && (forall s :: 0 <= s < |slots| ==> handles[HandleOf(slots, s)] == slots[s].ref)
    && (forall s :: 0 <= s < |slots| && slots[s].locked ==> slots[s].ref > 0)
  }

  // A slot in use gets a new count, lock or contents, and its handles are counted anew.
  lemma ReplaceSlot(slots: seq<Inode>, handles: multiset<Handle>, s: nat, ip: Inode)
    requires CacheInv(slots, handles) && s < |slots| && slots[s].ref > 0
    requires ip.dev == slots[s].dev && ip.inum == slots[s].inum && (ip.locked ==> ip.ref > 0)
    ensures CacheInv(slots[s := ip], handles[HandleOf(slots, s) := ip.ref])
  {
    var slots' := slots[s := ip];
    var handles' := handles[HandleOf(slots, s) := ip.ref];
    forall t | 0 <= t < |slots'|
      ensures HandleOf(slots', t) == HandleOf(slots, t) && (InUse(slots', t) ==> InUse(slots, t))
    {}
    forall h | h in handles'
      ensures h.s < |slots'| && slots'[h.s].ref > 0 && h == HandleOf(slots', h.s)
    {
      if h != HandleOf(slots, s) {
        assert h in handles;
      }
    }
  }

  // A free slot is taken for an inode no slot in use stands for.
  lemma TakeSlot(slots: seq<Inode>, handles: multiset<Handle>, s: nat, ip: Inode)
    requires CacheInv(slots, handles) && s < |slots| && slots[s].ref == 0 && ip.ref == 1
    requires forall t :: 0 <= t < |slots| ==> !(slots[t].ref > 0 && slots[t].dev == ip.dev && slots[t].inum == ip.inum)
    ensures CacheInv(slots[s := ip], handles[Handle(s, ip.dev, ip.inum) := 1])
  {
    var slots' := slots[s := ip];
    var g := Handle(s, ip.dev, ip.inum);
    var handles' := handles[g := 1];
    forall t | 0 <= t < |slots'| && t != s
      ensures InUse(slots', t) ==> InUse(slots, t)
    {}
    forall h | h in handles'
      ensures h.s < |slots'| && slots'[h.s].ref > 0 && h == HandleOf(slots', h.s)
    {
      if h != g {
        assert h in handles;
      }
    }
  }

  lemma GetKeepsInv(slots: seq<Inode>, handles: multiset<Handle>, dev: u32, inum: u32)
    requires CacheInv(slots, handles) && Chosen(slots, dev, inum) < |slots|
    ensures var s := Chosen(slots, dev, inum); var slots' := AfterGet(slots, dev, inum);
      && HandleOf(slots', s) == Handle(s, dev, inum)
      && CacheInv(slots', handles + multiset{Handle(s, dev, inum)})
  {
    var s := Chosen(slots, dev, inum);
    var g := Handle(s, dev, inum);
    var ip := AfterGet(slots, dev, inum)[s];
    assert handles + multiset{g} == handles[g := handles[g] + 1];
    if Cached(slots, dev, inum) < |slots| {
      ReplaceSlot(slots, handles, s, ip);
    } else {
      TakeSlot(slots, handles, s, ip);
      assert g !in handles;
    }
  }

  // ---------- all interleavings ----------

  datatype State = State(slots: seq<Inode>, handles: multiset<Handle>)

  // A step names the handle it uses; ilock brings the on-disk record it read.
  datatype Event =
    | IGet(dev: u32, inum: u32)
    | IDup(h: Handle)
    | ILock(h: Handle, disk: Dinode)
    | IUnlock(h: Handle)
    | IPut(h: Handle, truncated: bool)

  // When a step can happen without a panic: callers use handles they hold, a locked inode is
  // waited for, and the holder of a lock lets go of it before its last handle.
  predicate Enabled(st: State, e: Event) {
    match e
    case IGet(dev, inum) => Chosen(st.slots, dev, inum) < |st.slots|
    case IDup(h) => h in st.handles && h.s < |st.slots|
    case ILock(h, _) => h in st.handles && h.s < |st.slots| && !st.slots[h.s].locked
    case IUnlock(h) => h in st.handles && h.s < |st.slots| && st.slots[h.s].locked
    case IPut(h, truncated) =>
      && h in st.handles && h.s < |st.slots| && st.slots[h.s].ref > 0
      && (st.slots[h.s].locked ==> st.slots[h.s].ref > 1)
      && (truncated <==> st.slots[h.s].ref == 1 && st.slots[h.s].valid && st.slots[h.s].d.nlink == 0)
  }

  ghost function Apply(st: State, e: Event): State
    requires Enabled(st, e)
  {
    match e
    case IGet(dev, inum) =>
      State(AfterGet(st.slots, dev, inum), st.handles + multiset{Handle(Chosen(st.slots, dev, inum), dev, inum)})
    case IDup(h) =>
      State(st.slots[h.s := st.slots[h.s].(ref := st.slots[h.s].ref + 1)], st.handles + multiset{h})
    case ILock(h, disk) =>
      var ip := st.slots[h.s];
      State(st.slots[h.s := if ip.valid then ip.(locked := true)
        else ip.(locked := true, valid := true, d := disk)], st.handles)
    case IUnlock(h) =>
      State(st.slots[h.s := st.slots[h.s].(locked := false)], st.handles)
    case IPut(h, truncated) =>
      var ip := st.slots[h.s];
      var d := if truncated then Emptied(ip.d) else ip.d;
      State(st.slots[h.s := ip.(ref := ip.ref - 1, valid := ip.valid && !truncated, d := d)], st.handles - multiset{h})
  }

  function Emptied(d: Dinode): Dinode { d.(ty := 0, size := 0, addrs := NoAddrs()) }

  // e can happen in st, and leads to st'.
  ghost predicate Steps(st: State, e: Event, st': State) { Enabled(st, e) && Apply(st, e) == st' }

  lemma DupIs(slots: seq<Inode>, handles: multiset<Handle>, s: nat)
    requires CacheInv(slots, handles) && s < |slots| && HandleOf(slots, s) in handles
    ensures Steps(State(slots, handles), IDup(HandleOf(slots, s)),
              State(slots[s := slots[s].(ref := slots[s].ref + 1)], handles + multiset{HandleOf(slots, s)}))
  {}

  lemma GetIs(slots: seq<Inode>, handles: multiset<Handle>, dev: u32, inum: u32, s: nat)
    requires s == Chosen(slots, dev, inum) < |slots|
    ensures Steps(State(slots, handles), IGet(dev, inum),
              State(AfterGet(slots, dev, inum), handles + multiset{Handle(s, dev, inum)}))
  {}

  // What is left of a slot when a handle is put back.
  function AfterPut(ip: Inode, truncated: bool): Inode
    requires ip.ref > 0
  {
    if truncated then ip.(ref := ip.ref - 1, valid := false, d := Emptied(ip.d)) else ip.(ref := ip.ref - 1)
  }

  lemma PutIs(slots: seq<Inode>, handles: multiset<Handle>, s: nat, truncated: bool)
    requires CacheInv(slots, handles) && s < |slots| && HandleOf(slots, s) in handles && slots[s].ref > 0
    requires slots[s].locked ==> slots[s].ref > 1
    requires truncated <==> slots[s].ref == 1 && slots[s].valid && slots[s].d.nlink == 0
    ensures Steps(State(slots, handles), IPut(HandleOf(slots, s), truncated),
              State(slots[s := AfterPut(slots[s], truncated)], handles - multiset{HandleOf(slots, s)}))
  {}

  // A lock is exclusive: once a slot is locked, nobody locks it again, and it stays locked until
  // somebody unlocks it.
  lemma LockIsExclusive(st: State, e: Event, s: nat)
    requires CacheInv(st.slots, st.handles) && Enabled(st, e) && s < |st.slots| && st.slots[s].locked
    ensures e.ILock? ==> e.h.s != s
    ensures s < |Apply(st, e).slots| && (Apply(st, e).slots[s].locked <==> !(e.IUnlock? && e.h.s == s))
  {}

  // A slot becomes locked by ilock on it and by nothing else.
  lemma OnlyILockLocks(st: State, e: Event, s: nat)
    requires CacheInv(st.slots, st.handles) && Enabled(st, e) && s < |st.slots| && !st.slots[s].locked
    ensures s < |Apply(st, e).slots| && (Apply(st, e).slots[s].locked <==> e.ILock? && e.h.s == s)
  {}

  lemma StepKeepsInv(st: State, e: Event)
    requires CacheInv(st.slots, st.handles) && Enabled(st, e)
    ensures CacheInv(Apply(st, e).slots, Apply(st, e).handles)
  {
    var st' := Apply(st, e);
    if e.IGet? {
      GetKeepsInv(st.slots, st.handles, e.dev, e.inum);
    } else {
      var h := e.h;
      assert h == HandleOf(st.slots, h.s) && st.handles[h] == st.slots[h.s].ref;
      ReplaceSlot(st.slots, st.handles, h.s, st'.slots[h.s]);
      assert st'.handles == st.handles[h := st'.slots[h.s].ref];
    }
  }

  ghost predicate CanRun(st: State, es: seq<Event>)
    decreases |es|
  {
    es == [] || (Enabled(st, es[0]) && CanRun(Apply(st, es[0]), es[1..]))
  }

  ghost function Run(st: State, es: seq<Event>): State
    requires CanRun(st, es)
    decreases |es|
  {
    if es == [] then st else Run(Apply(st, es[0]), es[1..])
  }

  // Over every interleaving from an empty table: one slot per inode in use, every handle ever
  // handed out and not yet put back still denotes its inode, and ref counts the handles.
  lemma {:induction false} EveryRunIsSafe(st: State, es: seq<Event>)
    requires CacheInv(st.slots, st.handles) && CanRun(st, es)
    ensures CacheInv(Run(st, es).slots, Run(st, es).handles)
    decreases |es|
  {
    if es != [] {
      StepKeepsInv(st, es[0]);
      EveryRunIsSafe(Apply(st, es[0]), es[1..]);
    }
  }

  lemma InitialState(slots: seq<Inode>)
    requires forall s :: 0 <= s < |slots| ==> slots[s].ref == 0 && !slots[s].locked
    ensures CacheInv(slots, multiset{})
  {}

  // A slot changes the inode it stands for only when nobody holds a handle on it.
  lemma RecycledOnlyWhenFree(st: State, e: Event, s: nat)
    requires CacheInv(st.slots, st.handles) && Enabled(st, e) && s < |st.slots|
    ensures |Apply(st, e).slots| == |st.slots|
    ensures HandleOf(Apply(st, e).slots, s) != HandleOf(st.slots, s) ==>
              st.slots[s].ref == 0 && forall h :: h in st.handles ==> h.s != s
  {}
}
