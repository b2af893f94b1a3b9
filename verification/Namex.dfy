/** Path name lookup (fs.c:599-649): namex as a walk through directories. */
module Namex {
  import opened Layout
  import opened BlockTree
  import opened FileData
  import opened InodeCache
  import opened FileSystem
  import opened Path
  import opened Directory
  import opened Names

  const ROOTINO: u32 := 1

  // ---------- what a path means ----------

  // The inode a name stands for in directory i, if i is a directory that has it.
  ghost function LookupIn(img: Image, i: nat, name: seq<byte>): Option<nat> {
    if i >= |img.ino| || img.ino[i].ty != T_DIR || Find(DirOf(img, i), name) == |DirOf(img, i)| then None
    else Some(DirOf(img, i)[Find(DirOf(img, i), name)].inum)
  }

  // The file system as a walk finds it.
  datatype Origin = Origin(raw: seq<Block>, t: Tree, slots: seq<Inode>, handles: multiset<Handle>)

  // What a walk sees of an inode: whether it is a directory, or free, or holds whole records
  // only; whether somebody holds it, or has it locked; and whether it goes away with its last
  // reference because nothing names it and nobody holds it.
  datatype Node = Node(dir: bool, free: bool, whole: bool, held: bool, busy: bool, lone: bool)

  ghost predicate HeldBy(hs: multiset<Handle>, dev: u32, i: nat) {
    exists h :: h in hs && h.dev == dev && h.inum == i
  }

  ghost predicate LockedIn(slots: seq<Inode>, dev: u32, i: nat) {
    exists s :: 0 <= s < |slots| && slots[s].locked && slots[s].dev == dev && slots[s].inum == i
  }

  ghost function NodeOf(o: Origin, dev: u32, i: nat): Node {
    var held, busy := HeldBy(o.handles, dev, i), LockedIn(o.slots, dev, i);
    if i >= |o.t.img.ino| then Node(false, true, true, held, busy, false)
    else
      var d := o.t.img.ino[i];
      Node(d.ty == T_DIR, d.ty == 0, d.size % DIRENT == 0, held, busy, d.nlink == 0 && !held)
  }

  // At most one slot is not in use.
  predicate Tight(slots: seq<Inode>) {
    forall s, t :: 0 <= s < |slots| && 0 <= t < |slots| && slots[s].ref == 0 && slots[t].ref == 0 ==> s == t
  }

  // The directories of a disk as a graph, and how much room the inode cache has.
  datatype Graph = Graph(node: nat -> Node, child: (nat, seq<byte>) -> Option<nat>, full: bool, tight: bool)

  ghost predicate GraphIs(o: Origin, dev: u32, g: Graph) {
    && (forall i: nat {:trigger g.node(i)} :: g.node(i) == NodeOf(o, dev, i))
    && (forall i: nat, n {:trigger g.child(i, n)} :: g.child(i, n) == LookupIn(o.t.img, i, n))
    && g.full == AllInUse(o.slots) && g.tight == Tight(o.slots)
  }

  ghost function GraphOf(o: Origin, dev: u32): (g: Graph)
    ensures GraphIs(o, dev, g)
  {
    Graph((i: nat) => NodeOf(o, dev, i), (i: nat, n: seq<byte>) => LookupIn(o.t.img, i, n), AllInUse(o.slots),
      Tight(o.slots))
  }

  // A left fold of lookup over the components.
  ghost function Walk(g: Graph, i: nat, comps: seq<seq<byte>>): Option<nat>
    decreases |comps|
  {
    if comps == [] then Some(i)
    else if !g.node(i).dir then None
    else match g.child(i, comps[0])
      case None => None
      case Some(j) => Walk(g, j, comps[1..])
  }

  // The same, stopping one component early; what it stops at must be a directory.
  ghost function WalkParent(g: Graph, i: nat, comps: seq<seq<byte>>): Option<nat>
    decreases |comps|
  {
    if comps == [] || !g.node(i).dir then None
    else if |comps| == 1 then Some(i)
    else match g.child(i, comps[0])
      case None => None
      case Some(j) => WalkParent(g, j, comps[1..])
  }

  // namei(p) is the lookup of p's last component in nameiparent(p).
  lemma {:induction false} WalkViaParent(g: Graph, i: nat, comps: seq<seq<byte>>)
    requires comps != []
    ensures Walk(g, i, comps) == match WalkParent(g, i, comps)
      case None => None
      case Some(p) => g.child(p, comps[|comps| - 1])
    decreases |comps|
  {
    if |comps| > 1 && g.node(i).dir && g.child(i, comps[0]).Some? {
      assert comps[1..][|comps| - 2] == comps[|comps| - 1];
      WalkViaParent(g, g.child(i, comps[0]).value, comps[1..]);
    }
  }

  // Walking a longer path is walking on from where the shorter one ends.
  lemma {:induction false} WalkAppend(g: Graph, i: nat, a: seq<seq<byte>>, b: seq<seq<byte>>)
    ensures Walk(g, i, a + b) == match Walk(g, i, a)
      case None => None
      case Some(j) => Walk(g, j, b)
    decreases |a|
  {
    if a == [] {
      assert a + b == b;
    } else {
      assert (a + b)[1..] == a[1..] + b;
      if g.node(i).dir && g.child(i, a[0]).Some? {
        WalkAppend(g, g.child(i, a[0]).value, a[1..], b);
      }
    }
  }

  // ---------- what namex does with it ----------

  datatype Outcome = At(i: nat) | Nowhere | Waiting | Broken(why: Why)

  // No slot for inode j as long as the walk holds inode i.
  predicate NoRoom(g: Graph, i: nat, j: nat) {
    !g.node(j).held && j != i && if g.node(i).held then g.full else g.tight
  }

  // One step from inode i by a name; inodes in `gone` were freed on the way. A walk that is
  // to `stop` here only makes sure that i is a directory.
  ghost function Next(g: Graph, gone: set<nat>, i: nat, name: seq<byte>, stop: bool): Outcome {
    if g.node(i).busy then Waiting
    else if i in gone || g.node(i).free then Broken(NoType)
    else if !g.node(i).dir then Nowhere
    else if stop then At(i)
    else match g.child(i, name)
      case None => if g.node(i).whole then Nowhere else Broken(ShortRead)
      case Some(j) => if NoRoom(g, i, j) then Broken(NoSlots) else At(j)
  }

  // Letting go of inode i frees it if nothing else keeps it.
  ghost function Leave(g: Graph, gone: set<nat>, i: nat, to: Outcome): set<nat> {
    if g.node(i).lone && to != At(i) then gone + {i} else gone
  }

  // The whole walk: where it ends, and which inodes it frees.
  ghost function Run(g: Graph, gone: set<nat>, i: nat, comps: seq<seq<byte>>, parent: bool): (Outcome, set<nat>)
    decreases |comps|
  {
    if comps == [] then (if parent then Nowhere else At(i), gone)
    else
      var stop := parent && |comps| == 1;
      var n := Next(g, gone, i, comps[0], stop);
      if n.Broken? || n.Waiting? then (n, gone)
      else if n.Nowhere? || stop then (n, Leave(g, gone, i, n))
      else Run(g, Leave(g, gone, i, n), n.i, comps[1..], parent)
  }

  ghost function Target(g: Graph, i: nat, comps: seq<seq<byte>>, parent: bool): Outcome {
    match if parent then WalkParent(g, i, comps) else Walk(g, i, comps)
    case None => Nowhere
    case Some(j) => At(j)
  }

  // A walk that comes to an end comes to where the path leads in the graph as it was before
  // the walk, whatever the walk freed on its way.
  lemma {:induction false} RunReachesTarget(g: Graph, gone: set<nat>, i: nat, comps: seq<seq<byte>>, parent: bool)
    ensures var end := Run(g, gone, i, comps, parent).0;
      end.Broken? || end.Waiting? || end == Target(g, i, comps, parent)
    decreases |comps|
  {
    if comps != [] {
      var n := Next(g, gone, i, comps[0], parent && |comps| == 1);
      if n.At? && !(parent && |comps| == 1) {
        RunReachesTarget(g, Leave(g, gone, i, n), n.i, comps[1..], parent);
      }
    }
  }

  // A walk frees only inodes that no name and no other handle keeps.
  lemma {:induction false} RunFreesOnlyLone(g: Graph, gone: set<nat>, i: nat, comps: seq<seq<byte>>, parent: bool)
    ensures forall k :: k in Run(g, gone, i, comps, parent).1 ==> k in gone || g.node(k).lone
    decreases |comps|
  {
    if comps != [] {
      var n := Next(g, gone, i, comps[0], parent && |comps| == 1);
      if n.At? && !(parent && |comps| == 1) {
        RunFreesOnlyLone(g, Leave(g, gone, i, n), n.i, comps[1..], parent);
      }
    }
  }

  // ---------- when a walk comes to an end, and what it frees ----------

  // Where the path leads with its first k components.
  ghost function Station(g: Graph, i: nat, comps: seq<seq<byte>>, k: nat): Option<nat>
    requires k <= |comps|
  {
    Walk(g, i, comps[..k])
  }

  // Behind component k the path goes on from inode x to another one, or nowhere. A walk to
  // the parent stays at the directory in front of the last component.
  ghost predicate Leaves(g: Graph, i: nat, comps: seq<seq<byte>>, parent: bool, k: nat, x: nat)
    requires k < |comps|
  {
    && Station(g, i, comps, k) == Some(x) && Station(g, i, comps, k + 1) != Some(x)
    && !(parent && k + 1 == |comps| && g.node(x).dir)
  }

  // Inode x is freed before the walk is at component k.
  ghost predicate FreedBefore(g: Graph, i: nat, comps: seq<seq<byte>>, parent: bool, k: nat, x: nat)
    requires k <= |comps|
  {
    g.node(x).lone && exists m :: 0 <= m < k && Leaves(g, i, comps, parent, m, x)
  }

  // What keeps a walk from passing inode j: its lock is taken; it is free; the name is not in
  // its records and the last of them is cut short; or there is no slot for what is found.
  predicate Obstacle(g: Graph, j: nat, name: seq<byte>, stop: bool) {
    || g.node(j).busy || g.node(j).free
    || (g.node(j).dir && !stop &&
        match g.child(j, name)
        case None => !g.node(j).whole
        case Some(c) => NoRoom(g, j, c))
  }

  // The walk is held up in front of component k: by an obstacle there, or because it comes
  // back to an inode that went away.
  ghost predicate Trips(g: Graph, gone: set<nat>, i: nat, comps: seq<seq<byte>>, parent: bool, k: nat)
    requires k < |comps|
  {
    match Station(g, i, comps, k)
    case None => false
    case Some(j) =>
      || j in gone || FreedBefore(g, i, comps, parent, k, j)
      || Obstacle(g, j, comps[k], parent && k + 1 == |comps|)
  }

  lemma StationShift(g: Graph, i: nat, comps: seq<seq<byte>>, j: nat, k: nat)
    requires comps != [] && g.node(i).dir && g.child(i, comps[0]) == Some(j) && k < |comps|
    ensures Station(g, i, comps, k + 1) == Station(g, j, comps[1..], k)
  {
    assert comps[..k + 1][1..] == comps[1..][..k];
  }

  lemma NoStation(g: Graph, i: nat, comps: seq<seq<byte>>, k: nat)
    requires comps != [] && (!g.node(i).dir || g.child(i, comps[0]) == None) && k < |comps|
    ensures Station(g, i, comps, k + 1) == None
  {
    assert comps[..k + 1][0] == comps[0];
  }

  lemma LeavesShift(g: Graph, i: nat, comps: seq<seq<byte>>, parent: bool, j: nat, m: nat, x: nat)
    requires comps != [] && g.node(i).dir && g.child(i, comps[0]) == Some(j) && m + 1 < |comps|
    ensures Leaves(g, i, comps, parent, m + 1, x) <==> Leaves(g, j, comps[1..], parent, m, x)
  {
    StationShift(g, i, comps, j, m);
    StationShift(g, i, comps, j, m + 1);
  }

  lemma LeavesFirst(g: Graph, i: nat, comps: seq<seq<byte>>, parent: bool, j: nat, x: nat)
    requires comps != [] && g.node(i).dir && g.child(i, comps[0]) == Some(j) && !(parent && |comps| == 1)
    ensures Leaves(g, i, comps, parent, 0, x) <==> x == i && j != i
  {
    StationShift(g, i, comps, j, 0);
  }

  // What was freed is what was gone, or the first inode, or freed on the rest of the path.
  lemma FreedShift(g: Graph, gone: set<nat>, i: nat, comps: seq<seq<byte>>, parent: bool, j: nat, k: nat, x: nat)
    requires comps != [] && g.node(i).dir && g.child(i, comps[0]) == Some(j) && !(parent && |comps| == 1) && k < |comps|
    ensures x in gone || FreedBefore(g, i, comps, parent, k + 1, x) <==>
      x in Leave(g, gone, i, At(j)) || FreedBefore(g, j, comps[1..], parent, k, x)
  {
    LeavesFirst(g, i, comps, parent, j, x);
    if m :| 0 <= m < k + 1 && Leaves(g, i, comps, parent, m, x) {
      if m > 0 {
        LeavesShift(g, i, comps, parent, j, m - 1, x);
      }
    }
    if m :| 0 <= m < k && Leaves(g, j, comps[1..], parent, m, x) {
      LeavesShift(g, i, comps, parent, j, m, x);
    }
  }

  lemma TripsShift(g: Graph, gone: set<nat>, i: nat, comps: seq<seq<byte>>, parent: bool, j: nat, k: nat)
    requires comps != [] && g.node(i).dir && g.child(i, comps[0]) == Some(j) && k + 1 < |comps|
    ensures Trips(g, gone, i, comps, parent, k + 1) <==> Trips(g, Leave(g, gone, i, At(j)), j, comps[1..], parent, k)
  {
    StationShift(g, i, comps, j, k);
    match Station(g, j, comps[1..], k)
    case None =>
    case Some(x) =>
      FreedShift(g, gone, i, comps, parent, j, k, x);
  }

  ghost predicate Clear(g: Graph, gone: set<nat>, i: nat, comps: seq<seq<byte>>, parent: bool) {
    forall k :: 0 <= k < |comps| ==> !Trips(g, gone, i, comps, parent, k)
  }

  lemma ClearFirst(g: Graph, gone: set<nat>, i: nat, comps: seq<seq<byte>>, parent: bool)
    requires comps != []
    ensures var n := Next(g, gone, i, comps[0], parent && |comps| == 1);
      Trips(g, gone, i, comps, parent, 0) <==> n.Broken? || n.Waiting?
  {
    assert Station(g, i, comps, 0) == Some(i);
  }

  lemma ClearShift(g: Graph, gone: set<nat>, i: nat, comps: seq<seq<byte>>, parent: bool, j: nat)
    requires comps != [] && g.node(i).dir && g.child(i, comps[0]) == Some(j) && !Trips(g, gone, i, comps, parent, 0)
    ensures Clear(g, gone, i, comps, parent) <==> Clear(g, Leave(g, gone, i, At(j)), j, comps[1..], parent)
  {
    var rest, gone' := comps[1..], Leave(g, gone, i, At(j));
    forall k | 0 <= k < |rest|
      ensures Trips(g, gone', j, rest, parent, k) == Trips(g, gone, i, comps, parent, k + 1)
    {
      TripsShift(g, gone, i, comps, parent, j, k);
    }
    if Clear(g, gone', j, rest, parent) {
      forall k | 0 <= k < |comps|
        ensures !Trips(g, gone, i, comps, parent, k)
      {
        if k > 0 {
          assert !Trips(g, gone', j, rest, parent, k - 1);
        }
      }
    }
  }

  lemma ClearEnd(g: Graph, gone: set<nat>, i: nat, comps: seq<seq<byte>>, parent: bool)
    requires comps != [] && !Trips(g, gone, i, comps, parent, 0)
    requires !g.node(i).dir || g.child(i, comps[0]) == None || |comps| == 1
    ensures Clear(g, gone, i, comps, parent)
  {
    forall k | 0 < k < |comps|
      ensures !Trips(g, gone, i, comps, parent, k)
    {
      NoStation(g, i, comps, k - 1);
    }
  }

  // A walk comes to an end exactly if nothing on the path holds it up, and then ends where the
  // path leads.
  lemma {:induction false} RunEndsExactly(g: Graph, gone: set<nat>, i: nat, comps: seq<seq<byte>>, parent: bool)
    ensures Run(g, gone, i, comps, parent).0 == Target(g, i, comps, parent) <==> Clear(g, gone, i, comps, parent)
    decreases |comps|
  {
    if comps != [] {
      var stop := parent && |comps| == 1;
      var n := Next(g, gone, i, comps[0], stop);
      ClearFirst(g, gone, i, comps, parent);
      if n.At? && !stop {
        ClearShift(g, gone, i, comps, parent, n.i);
        RunEndsExactly(g, Leave(g, gone, i, n), n.i, comps[1..], parent);
      } else if n.At? || n.Nowhere? {
        ClearEnd(g, gone, i, comps, parent);
      }
    }
  }

  // Such a walk frees exactly the inodes it leaves that no name and no other handle keeps.
  lemma {:induction false} RunFreesExactly(g: Graph, gone: set<nat>, i: nat, comps: seq<seq<byte>>, parent: bool,
                                           x: nat)
    requires Clear(g, gone, i, comps, parent)
    ensures x in Run(g, gone, i, comps, parent).1 <==> x in gone || FreedBefore(g, i, comps, parent, |comps|, x)
    decreases |comps|
  {
    if comps != [] {
      var stop := parent && |comps| == 1;
      var n := Next(g, gone, i, comps[0], stop);
      assert !Trips(g, gone, i, comps, parent, 0);
      ClearFirst(g, gone, i, comps, parent);
      if n.At? && !stop {
        ClearShift(g, gone, i, comps, parent, n.i);
        RunFreesExactly(g, Leave(g, gone, i, n), n.i, comps[1..], parent, x);
        FreedShift(g, gone, i, comps, parent, n.i, |comps| - 1, x);
      } else {
        FreedAtEnd(g, i, comps, parent, x);
      }
    }
  }

  lemma FreedAtEnd(g: Graph, i: nat, comps: seq<seq<byte>>, parent: bool, x: nat)
    requires comps != [] && (!g.node(i).dir || (parent && |comps| == 1) || g.child(i, comps[0]) == None)
    ensures FreedBefore(g, i, comps, parent, |comps|, x) <==>
      g.node(x).lone && x == i && !(parent && |comps| == 1 && g.node(i).dir)
  {
    assert Station(g, i, comps, 0) == Some(i);
    if !g.node(i).dir || g.child(i, comps[0]) == None {
      forall m | 0 < m < |comps|
        ensures !Leaves(g, i, comps, parent, m, x)
      {
        NoStation(g, i, comps, m - 1);
      }
      NoStation(g, i, comps, 0);
      assert Leaves(g, i, comps, parent, 0, i) <==> !(parent && |comps| == 1 && g.node(i).dir);
    }
  }

  ghost predicate LeavesNoLone(g: Graph, i: nat, comps: seq<seq<byte>>, parent: bool) {
    forall k, x :: 0 <= k < |comps| && Leaves(g, i, comps, parent, k, x) ==> !g.node(x).lone
  }

  // So a walk ends where the path leads and leaves the disk alone exactly if nothing holds it
  // up and it leaves no inode that only the walk keeps.
  lemma RunUndisturbedExactly(g: Graph, i: nat, comps: seq<seq<byte>>, parent: bool)
    ensures Run(g, {}, i, comps, parent) == (Target(g, i, comps, parent), {}) <==>
      Clear(g, {}, i, comps, parent) && LeavesNoLone(g, i, comps, parent)
  {
    RunEndsExactly(g, {}, i, comps, parent);
    if Clear(g, {}, i, comps, parent) {
      var freed := Run(g, {}, i, comps, parent).1;
      forall x: nat
        ensures x in freed <==> FreedBefore(g, i, comps, parent, |comps|, x)
      {
        RunFreesExactly(g, {}, i, comps, parent, x);
      }
      if LeavesNoLone(g, i, comps, parent) {
        forall x: nat
          ensures x !in freed
        {}
        assert freed == {};
      } else {
        var k, x :| 0 <= k < |comps| && Leaves(g, i, comps, parent, k, x) && g.node(x).lone;
        assert FreedBefore(g, i, comps, parent, |comps|, x);
      }
    }
  }

  // ---------- two walks that do not come to an end ----------

  // The current directory 2 is removed, and so is the directory 1 its ".." names.
  ghost function RemovedTwice(up: seq<byte>): Graph {
    Graph((i: nat) => Node(i == 2, i != 2, true, i == 2, false, false),
          (i: nat, n: seq<byte>) => if i == 2 && n == up then Some(1) else None, false, false)
  }

  lemma ParentIsFree(up: seq<byte>, x: seq<byte>)
    ensures var g, comps := RemovedTwice(up), [up, x];
      Run(g, {}, 2, comps, false).0 == Broken(NoType) && Target(g, 2, comps, false) == Nowhere
  {
    var g := RemovedTwice(up);
    assert [up, x][1..] == [x];
    assert Run(g, {}, 1, [x], false).0 == Broken(NoType) && Walk(g, 1, [x]) == None;
  }

  // Nothing keeps directory 2 but the entry d for it.
  ghost function LoneChild(d: seq<byte>, up: seq<byte>): Graph {
    Graph((i: nat) => Node(i == 1 || i == 2, i != 1 && i != 2, true, i == 1, false, i == 2),
          (i: nat, n: seq<byte>) => if i == 1 && n == d then Some(2) else if i == 2 && n == up then Some(1) else None,
          false, false)
  }

  lemma LoneGoesAway(d: seq<byte>, up: seq<byte>)
    ensures var g, comps := LoneChild(d, up), [d, up, d, up];
      Run(g, {}, 1, comps, false).0 == Broken(NoType) && Target(g, 1, comps, false) == At(1)
  {
    var g := LoneChild(d, up);
    var a, b, c := [up, d, up], [d, up], [up];
    assert [d, up, d, up][1..] == a && a[1..] == b && b[1..] == c && c[1..] == [];
    assert Walk(g, 2, c) == Some(1) && Walk(g, 1, b) == Some(1) && Walk(g, 2, a) == Some(1);
    assert Leave(g, {}, 2, At(1)) == {2} && Leave(g, {2}, 1, At(2)) == {2};
    assert Run(g, {2}, 2, c, false).0 == Broken(NoType);
    assert Run(g, {2}, 1, b, false).0 == Broken(NoType);
    assert Run(g, {}, 2, a, false).0 == Broken(NoType);
  }

  // Directories of whole records, whose names stand for inodes in use that stay and that
  // nobody has locked, and a cache with room.
  ghost predicate Tidy(g: Graph) {
    && !g.full && !g.tight
    && (forall i: nat {:trigger g.node(i)} :: g.node(i).dir ==> g.node(i).whole)
    && (forall i: nat, n {:trigger g.child(i, n)} :: g.child(i, n).Some? ==> Stays(g.node(g.child(i, n).value)))
  }

  predicate Stays(n: Node) { !n.free && !n.busy && !n.lone }

  // In a tidy tree a walk always comes to an end, and frees nothing.
  lemma {:induction false} RunInTidyTree(g: Graph, i: nat, comps: seq<seq<byte>>, parent: bool)
    requires Tidy(g) && Stays(g.node(i))
    ensures Run(g, {}, i, comps, parent) == (Target(g, i, comps, parent), {})
    decreases |comps|
  {
    if comps != [] {
      var n := Next(g, {}, i, comps[0], parent && |comps| == 1);
      if n.At? && !(parent && |comps| == 1) {
        assert g.child(i, comps[0]) == Some(n.i);
        RunInTidyTree(g, n.i, comps[1..], parent);
      }
    }
  }

  // ---------- the state of a walk ----------

  // Names stand for numbers inside the inode table.
  ghost predicate InTable(img: Image) {
    && ROOTINO < |img.ino|
    && forall i, k {:trigger DirOf(img, i)[k]}
         | 0 <= i < |img.ino| && img.ino[i].ty == T_DIR && 0 <= k < |DirOf(img, i)| ::
      DirOf(img, i)[k].inum < |img.ino|
  }

  ghost predicate Charted(o: Origin, dev: u32, g: Graph) {
    InTable(o.t.img) && GraphIs(o, dev, g) && CacheInv(o.slots, o.handles)
  }

  // All that changed on the disk is that the inodes in `gone` are free and empty.
  ghost predicate OnlyGone(o: Origin, raw: seq<Block>, t: Tree, gone: set<nat>) {
    && |t.img.ino| == |o.t.img.ino| && (gone == {} ==> raw == o.raw && t == o.t)
    && forall j {:trigger t.img.ino[j]} :: 0 <= j < |t.img.ino| ==>
      if j in gone then t.img.ino[j] == Emptied(o.t.img.ino[j])
      else t.img.ino[j] == o.t.img.ino[j] && Content(t.img, j) == Content(o.t.img, j)
  }

  ghost predicate SameLocks(slots0: seq<Inode>, slots: seq<Inode>) {
    |slots| == |slots0| && forall s {:trigger slots[s]} :: 0 <= s < |slots| ==> slots[s].locked == slots0[s].locked
  }

  // The disk is as it was but for `gone`; no lock has changed hands.
  ghost predicate From(fs: FileSystem, o: Origin, gone: set<nat>)
    reads fs
  {
    fs.Valid() && OnlyGone(o, fs.raw, fs.t, gone) && SameLocks(o.slots, fs.inode)
  }

  // A slot that somebody else may have locked, but then somebody else holds it too.
  ghost predicate Standing(fs: FileSystem, ip: nat)
    reads fs
  {
    && ip < |fs.inode| && fs.inode[ip].dev == fs.dev && fs.inode[ip].inum < |fs.t.img.ino|
    && HandleOf(fs.inode, ip) in fs.handles && (fs.inode[ip].locked ==> fs.inode[ip].ref > 1)
  }

  // The walk stands on slot ip, unlocked, with one handle on it and no other.
  ghost predicate Walking(fs: FileSystem, o: Origin, gone: set<nat>, ip: nat)
    reads fs
  {
    From(fs, o, gone) && Standing(fs, ip) && fs.handles == o.handles + multiset{HandleOf(fs.inode, ip)}
  }

  // The walk has locked slot ip and read it in.
  ghost predicate Inside(fs: FileSystem, o: Origin, gone: set<nat>, ip: nat)
    reads fs
  {
    && Held(fs, ip) && OnlyGone(o, fs.raw, fs.t, gone)
    && SameLocks(o.slots, fs.inode[ip := fs.inode[ip].(locked := false)])
    && fs.inode[ip].inum < |fs.t.img.ino| && fs.inode[ip].d == fs.t.img.ino[fs.inode[ip].inum] && fs.inode[ip].d.ty != 0
  }

  // The walk has ended: at an inode, with one more handle on it than before, or nowhere, with
  // none, or at a lock that somebody else has, or in a panic.
  ghost predicate Ended(fs: FileSystem, o: Origin, end: Outcome, gone: set<nat>, r: Result<Option<nat>>)
    reads fs
  {
    match end
    case Broken(why) => r == Panic(why)
    case Waiting => r == Waits
    case Nowhere => r == Done(None) && From(fs, o, gone) && fs.handles == o.handles
    case At(j) => r.Done? && r.value.Some? && Walking(fs, o, gone, r.value.value) && fs.inode[r.value.value].inum == j
  }

  // ---------- one step of the walk ----------

  // Whoever holds the only handle on a slot is the only one to hold the inode.
  lemma LastHandle(slots: seq<Inode>, handles: multiset<Handle>, hs: multiset<Handle>, ip: nat)
    requires CacheInv(slots, handles) && ip < |slots| && hs <= handles && slots[ip].ref == hs[HandleOf(slots, ip)] + 1
    ensures slots[ip].ref == 1 <==> !HeldBy(hs, slots[ip].dev, slots[ip].inum)
  {
    var h := HandleOf(slots, ip);
    assert InUse(slots, ip);
    if hs[h] > 0 {
      assert h in hs;
    }
    forall k | k in hs && k.dev == slots[ip].dev && k.inum == slots[ip].inum
      ensures k == h
    {
      assert k in handles && handles[k] > 0;
      assert InUse(slots, k.s);
    }
  }

  lemma OneMoreGone(o: Origin, t: Tree, raw: seq<Block>, raw': seq<Block>, t': Tree, gone: set<nat>, i: nat)
    requires OnlyGone(o, raw, t, gone) && i < |t.img.ino| && Freed(t, t', i, t.img.ino[i])
    ensures OnlyGone(o, raw', t', gone + {i})
  {}

  // Unlock slot ip and give back the walk's handle on it.
  method Iunlockput(fs: FileSystem, ip: nat, ghost o: Origin, ghost gone: set<nat>)
    requires Inside(fs, o, gone, ip)
    modifies fs`raw, fs`t, fs`inode, fs`handles
    ensures fs.Valid() && fs.handles == old(fs.handles) - multiset{HandleOf(old(fs.inode), ip)}
    ensures |fs.inode| == |old(fs.inode)| && forall s :: 0 <= s < |fs.inode| && s != ip ==>
      fs.inode[s] == old(fs.inode)[s]
    ensures HandleOf(fs.inode, ip) == HandleOf(old(fs.inode), ip) && !fs.inode[ip].locked
    ensures var ip0 := old(fs.inode)[ip];
      OnlyGone(o, fs.raw, fs.t, if ip0.ref == 1 && ip0.d.nlink == 0 then gone + {ip0.inum} else gone)
  {
    ghost var ip0, t0 := fs.inode[ip], fs.t;
    var u := fs.Iunlock(ip);
    var p := fs.Iput(ip);
    if ip0.ref == 1 && ip0.d.nlink == 0 {
      OneMoreGone(o, t0, old(fs.raw), fs.raw, fs.t, gone, ip0.inum);
    }
  }

  // Giving back the walk's handle on slot ip frees the inode exactly if it is lone and the
  // walk has no second handle on it among `next`.
  lemma WhatLeavingFrees(o: Origin, g: Graph, gone: set<nat>, dev: u32, raw: seq<Block>, t: Tree, slots: seq<Inode>,
                         handles: multiset<Handle>, next: multiset<Handle>, ip: nat)
    requires CacheInv(slots, handles) && ip < |slots| && handles == o.handles + multiset{HandleOf(slots, ip)} + next
    requires OnlyGone(o, raw, t, gone) && GraphIs(o, dev, g) && slots[ip].dev == dev
    requires slots[ip].inum < |t.img.ino| && slots[ip].d == t.img.ino[slots[ip].inum] && slots[ip].d.ty != 0
    ensures slots[ip].ref == 1 && slots[ip].d.nlink == 0 <==>
      g.node(slots[ip].inum).lone && HandleOf(slots, ip) !in next
    ensures handles - multiset{HandleOf(slots, ip)} == o.handles + next
  {
    var h, i := HandleOf(slots, ip), slots[ip].inum;
    assert t.img.ino[i].ty != 0 && i !in gone;
    assert g.node(i) == NodeOf(o, dev, i);
    assert handles[h] == o.handles[h] + 1 + next[h] == slots[ip].ref;
    if h !in next {
      LastHandle(slots, handles, o.handles, ip);
    }
  }

  lemma LocksAfterLeaving(slots0: seq<Inode>, slots: seq<Inode>, slots': seq<Inode>, ip: nat)
    requires ip < |slots| == |slots'| && SameLocks(slots0, slots[ip := slots[ip].(locked := false)]) &&
      !slots'[ip].locked
    requires forall s :: 0 <= s < |slots'| && s != ip ==> slots'[s] == slots[s]
    ensures SameLocks(slots0, slots')
  {
    forall s | 0 <= s < |slots'|
      ensures slots'[s].locked == slots0[s].locked
    {
      assert slots'[s].locked == slots[ip := slots[ip].(locked := false)][s].locked;
    }
  }

  // Let go of slot ip, on the way to `to`. `next` is what else the walk holds by now.
  method LeaveDir(fs: FileSystem, ip: nat, ghost o: Origin, ghost gone: set<nat>, ghost g: Graph, ghost to: Outcome,
                  ghost next: multiset<Handle>)
    requires Inside(fs, o, gone, ip) && fs.handles == o.handles + multiset{HandleOf(fs.inode, ip)} + next
    requires GraphIs(o, fs.dev, g) && (HandleOf(fs.inode, ip) in next <==> to == At(fs.inode[ip].inum))
    modifies fs`raw, fs`t, fs`inode, fs`handles
    ensures From(fs, o, Leave(g, gone, old(fs.inode)[ip].inum, to)) && fs.handles == o.handles + next
    ensures |fs.inode| == |old(fs.inode)| && HandleOf(fs.inode, ip) == HandleOf(old(fs.inode), ip) &&
      !fs.inode[ip].locked
    ensures forall s :: 0 <= s < |fs.inode| && s != ip ==> fs.inode[s] == old(fs.inode)[s]
  {
    ghost var slots := fs.inode;
    WhatLeavingFrees(o, g, gone, fs.dev, fs.raw, fs.t, slots, fs.handles, next, ip);
    Iunlockput(fs, ip, o, gone);
    LocksAfterLeaving(o.slots, slots, fs.inode, ip);
  }

  // Who held a slot before the walk holds it still, and it stands for the same inode.
  lemma SameSlot(o: Origin, slots: seq<Inode>, handles: multiset<Handle>, s: nat)
    requires CacheInv(o.slots, o.handles) && CacheInv(slots, handles) && |slots| == |o.slots| && o.handles <= handles
    requires s < |slots| && o.slots[s].ref > 0
    ensures slots[s].ref > 0 && HandleOf(slots, s) == HandleOf(o.slots, s) && HandleOf(slots, s) in o.handles
  {
    var h := HandleOf(o.slots, s);
    assert o.handles[h] == o.slots[s].ref && h in handles;
  }

  // The slot the walk stands on is locked exactly if somebody has its inode locked.
  lemma BusyIs(o: Origin, g: Graph, dev: u32, slots: seq<Inode>, handles: multiset<Handle>, ip: nat)
    requires CacheInv(o.slots, o.handles) && CacheInv(slots, handles) && |slots| == |o.slots| && o.handles <= handles
    requires GraphIs(o, dev, g) && ip < |slots| && slots[ip].ref > 0 && slots[ip].dev == dev
    ensures g.node(slots[ip].inum).busy <==> o.slots[ip].locked
  {
    var i := slots[ip].inum;
    assert g.node(i) == NodeOf(o, dev, i);
    if o.slots[ip].locked {
      SameSlot(o, slots, handles, ip);
    }
    if s :| 0 <= s < |o.slots| && o.slots[s].locked && o.slots[s].dev == dev && o.slots[s].inum == i {
      SameSlot(o, slots, handles, s);
      assert InUse(slots, s) && InUse(slots, ip);
    }
  }

  lemma ChosenNone(slots: seq<Inode>, dev: u32, j: u32)
    ensures Chosen(slots, dev, j) == |slots| <==>
      AllInUse(slots) && forall s :: 0 <= s < |slots| ==>
        !(slots[s].ref > 0 && slots[s].dev == dev && slots[s].inum == j)
  {}

  lemma InUseThen(o: Origin, slots: seq<Inode>, handles: multiset<Handle>, ip: nat, s: nat)
    requires CacheInv(o.slots, o.handles) && CacheInv(slots, handles) && |slots| == |o.slots| && ip < |slots| &&
      s < |slots|
    requires handles == o.handles + multiset{HandleOf(slots, ip)}
    ensures slots[s].ref > 0 <==> s == ip || o.slots[s].ref > 0
    ensures slots[s].ref > 0 && s != ip ==> HandleOf(slots, s) in o.handles
  {
    assert handles[HandleOf(slots, s)] == slots[s].ref;
    if o.slots[s].ref > 0 {
      SameSlot(o, slots, handles, s);
    }
  }

  // The walk's own handle is on a slot that was in use before exactly if somebody holds i.
  lemma HeldIs(o: Origin, slots: seq<Inode>, handles: multiset<Handle>, ip: nat)
    requires CacheInv(o.slots, o.handles) && CacheInv(slots, handles) && |slots| == |o.slots| && ip < |slots|
    requires handles == o.handles + multiset{HandleOf(slots, ip)}
    ensures HeldBy(o.handles, slots[ip].dev, slots[ip].inum) <==> o.slots[ip].ref > 0
  {
    assert HandleOf(slots, ip) in handles && InUse(slots, ip);
    if o.slots[ip].ref > 0 {
      SameSlot(o, slots, handles, ip);
    }
    if h :| h in o.handles && h.dev == slots[ip].dev && h.inum == slots[ip].inum {
      assert h in handles && InUse(slots, h.s);
      assert h.s == ip;
    }
  }

  lemma FullIs(o: Origin, slots: seq<Inode>, handles: multiset<Handle>, ip: nat)
    requires CacheInv(o.slots, o.handles) && CacheInv(slots, handles) && |slots| == |o.slots| && ip < |slots|
    requires handles == o.handles + multiset{HandleOf(slots, ip)}
    ensures AllInUse(slots) <==> if o.slots[ip].ref > 0 then AllInUse(o.slots) else Tight(o.slots)
  {
    forall s | 0 <= s < |slots|
      ensures slots[s].ref > 0 <==> s == ip || o.slots[s].ref > 0
    {
      InUseThen(o, slots, handles, ip, s);
    }
  }

  lemma CachedIs(o: Origin, slots: seq<Inode>, handles: multiset<Handle>, ip: nat, dev: u32, j: u32)
    requires CacheInv(o.slots, o.handles) && CacheInv(slots, handles) && |slots| == |o.slots| && ip < |slots|
    requires handles == o.handles + multiset{HandleOf(slots, ip)} && slots[ip].dev == dev
    ensures HeldBy(o.handles, dev, j) || slots[ip].inum == j <==>
      exists s :: 0 <= s < |slots| && slots[s].ref > 0 && slots[s].dev == dev && slots[s].inum == j
  {
    assert HandleOf(slots, ip) in handles && slots[ip].ref > 0;
    if h :| h in o.handles && h.dev == dev && h.inum == j {
      assert h in handles && slots[h.s].ref > 0 && h == HandleOf(slots, h.s);
    }
    if s :| 0 <= s < |slots| && slots[s].ref > 0 && slots[s].dev == dev && slots[s].inum == j {
      InUseThen(o, slots, handles, ip, s);
    }
  }

  // There is no slot for inode j exactly if the state before the walk says so.
  lemma RoomIs(o: Origin, g: Graph, dev: u32, slots: seq<Inode>, handles: multiset<Handle>, ip: nat, j: u32)
    requires CacheInv(o.slots, o.handles) && CacheInv(slots, handles) && |slots| == |o.slots| && ip < |slots|
    requires handles == o.handles + multiset{HandleOf(slots, ip)} && slots[ip].dev == dev && GraphIs(o, dev, g)
    ensures Chosen(slots, dev, j) == |slots| <==> NoRoom(g, slots[ip].inum, j)
  {
    var i := slots[ip].inum;
    assert g.node(i) == NodeOf(o, dev, i) && g.node(j) == NodeOf(o, dev, j);
    ChosenNone(slots, dev, j);
    HeldIs(o, slots, handles, ip);
    FullIs(o, slots, handles, ip);
    CachedIs(o, slots, handles, ip, dev, j);
  }

  // Lock slot ip and read it in.
  method EnterInode(fs: FileSystem, ip: nat, ghost o: Origin, ghost gone: set<nat>, ghost g: Graph)
    returns (r: Result<()>)
    requires Walking(fs, o, gone, ip) && Charted(o, fs.dev, g)
    modifies fs`inode
    ensures var i := old(fs.inode)[ip].inum;
      if g.node(i).busy then r == Waits
      else if fs.t.img.ino[i].ty == 0 then r == Panic(NoType)
      else
        && r == Done(()) && Inside(fs, o, gone, ip) && HandleOf(fs.inode, ip) == HandleOf(old(fs.inode), ip)
        && fs.handles == o.handles + multiset{HandleOf(fs.inode, ip)}
  {
    HandleGood(fs.inode, fs.handles, fs.dev, fs.t.img.ino, ip);
    BusyIs(o, g, fs.dev, fs.inode, fs.handles, ip);
    assert fs.inode[ip].locked == o.slots[ip].locked;
    r := fs.Ilock(ip);
    if r.Done? {
      LockedFrom(o.slots, old(fs.inode), fs.inode, ip);
    }
  }

  lemma LockedFrom(slots0: seq<Inode>, slots: seq<Inode>, slots': seq<Inode>, ip: nat)
    requires ip < |slots| == |slots'| && SameLocks(slots0, slots) && !slots[ip].locked &&
      slots' == slots[ip := slots'[ip]]
    ensures SameLocks(slots0, slots'[ip := slots'[ip].(locked := false)])
  {
    var u := slots'[ip := slots'[ip].(locked := false)];
    forall s | 0 <= s < |u|
      ensures u[s].locked == slots0[s].locked
    {
      assert slots[s].locked == slots0[s].locked;
    }
  }

  // One more handle, on the inode a name stands for, while slot ip is locked.
  lemma GetWhileInside(slots0: seq<Inode>, slots: seq<Inode>, handles: multiset<Handle>, dev: u32, j: u32, ip: nat)
    requires CacheInv(slots, handles) && ip < |slots| && slots[ip].ref > 0 && slots[ip].dev == dev
    requires SameLocks(slots0, slots[ip := slots[ip].(locked := false)]) && Chosen(slots, dev, j) < |slots|
    ensures var r, slots' := Chosen(slots, dev, j), AfterGet(slots, dev, j);
      && SameLocks(slots0, slots'[ip := slots'[ip].(locked := false)])
      && slots'[ip] == slots[ip].(ref := slots'[ip].ref)
      && slots'[r].dev == dev && slots'[r].inum == j && (slots'[r].locked ==> slots'[r].ref > 1)
      && (r == ip <==> slots[ip].inum == j)
  {
    var slots' := AfterGet(slots, dev, j);
    var u, u' := slots[ip := slots[ip].(locked := false)], slots'[ip := slots'[ip].(locked := false)];
    forall s | 0 <= s < |u'|
      ensures u'[s].locked == slots0[s].locked
    {
      assert u[s].locked == slots0[s].locked;
    }
    assert InUse(slots, ip);
    var c := Cached(slots, dev, j);
    assert c < |slots| ==> InUse(slots, c);
  }

  function FoundIn(es: seq<Entry>, name: seq<byte>): Option<nat> {
    if Find(es, name) == |es| then None else Some(es[Find(es, name)].inum)
  }

  // A directory the walk has reached is as it was at the start.
  lemma RecordsOf(o: Origin, raw: seq<Block>, t: Tree, gone: set<nat>, g: Graph, dev: u32, i: nat, name: seq<byte>)
    requires OnlyGone(o, raw, t, gone) && Charted(o, dev, g) && i < |t.img.ino| && t.img.ino[i].ty != 0
    ensures i !in gone && !g.node(i).free && (g.node(i).dir <==> t.img.ino[i].ty == T_DIR)
    ensures g.node(i).whole <==> t.img.ino[i].size % DIRENT == 0
    ensures DirIs(t.img, i, DirOf(t.img, i))
    ensures t.img.ino[i].ty == T_DIR ==>
      var found := FoundIn(DirOf(t.img, i), name);
      g.child(i, name) == found && (found.Some? ==> found.value < |t.img.ino|)
  {
    assert g.node(i) == NodeOf(o, dev, i);
    assert g.child(i, name) == LookupIn(o.t.img, i, name);
    assert t.img.ino[i] == o.t.img.ino[i] && DirOf(t.img, i) == DirOf(o.t.img, i);
  }

  // Look a name up in the locked directory; what is found is held from then on.
  method LookupInside(fs: FileSystem, ip: nat, name: seq<byte>, ghost es: seq<Entry>, ghost o: Origin,
                      ghost gone: set<nat>, ghost found: Option<nat>)
    returns (r: Result<Option<nat>>)
    requires Inside(fs, o, gone, ip) && fs.handles == o.handles + multiset{HandleOf(fs.inode, ip)}
    requires fs.inode[ip].d.ty == T_DIR && DirIs(fs.t.img, fs.inode[ip].inum, es) && found == FoundIn(es, Canon(name))
    requires found.Some? ==> found.value < |fs.t.img.ino|
    modifies fs`raw, fs`t, fs`inode, fs`handles
    ensures match found
      case None => if old(fs.inode)[ip].d.size % DIRENT == 0 then r == Done(None) && unchanged(fs)
        else r == Panic(ShortRead)
      case Some(j) =>
        if Chosen(old(fs.inode), fs.dev, j) == |old(fs.inode)| then r == Panic(NoSlots)
        else
          && r.Done? && r.value.Some? && Inside(fs, o, gone, ip)
          && HandleOf(fs.inode, ip) == HandleOf(old(fs.inode), ip)
          && Reached(fs, r.value.value, j) && (r.value.value == ip <==> fs.inode[ip].inum == j)
          && fs.handles == o.handles + multiset{HandleOf(fs.inode, ip)} + multiset{HandleOf(fs.inode, r.value.value)}
  {
    HandleGood(fs.inode, fs.handles, fs.dev, fs.t.img.ino, ip);
    if found.Some? && Chosen(fs.inode, fs.dev, found.value) < |fs.inode| {
      GetWhileInside(o.slots, fs.inode, fs.handles, fs.dev, found.value, ip);
    }
    var next, _ := Dirlookup(fs, ip, name, es);
    return next;
  }

  ghost predicate Reached(fs: FileSystem, r: nat, j: nat)
    reads fs
  {
    r < |fs.inode| && fs.inode[r].dev == fs.dev && fs.inode[r].inum == j && (fs.inode[r].locked ==> fs.inode[r].ref > 1)
  }

  // Go from the locked directory to the inode a name stands for in it.
  method NextInode(fs: FileSystem, ip: nat, name: seq<byte>, ghost es: seq<Entry>, ghost o: Origin,
                   ghost gone: set<nat>, ghost g: Graph,
                   ghost found: Option<nat>)
    returns (r: Result<Option<nat>>)
    requires Inside(fs, o, gone, ip) && fs.handles == o.handles + multiset{HandleOf(fs.inode, ip)}
    requires fs.inode[ip].d.ty == T_DIR && DirIs(fs.t.img, fs.inode[ip].inum, es) && found == FoundIn(es, Canon(name))
    requires Charted(o, fs.dev, g) && (found.Some? ==> found.value < |fs.t.img.ino|)
    modifies fs`raw, fs`t, fs`inode, fs`handles
    ensures var i := old(fs.inode)[ip].inum;
      match found
      case None => if old(fs.inode)[ip].d.size % DIRENT == 0
        then Ended(fs, o, Nowhere, Leave(g, gone, i, Nowhere), r) else r == Panic(ShortRead)
      case Some(j) => if NoRoom(g, i, j) then r == Panic(NoSlots) else Ended(fs, o, At(j), Leave(g, gone, i, At(j)), r)
  {
    if found.Some? {
      RoomIs(o, g, fs.dev, fs.inode, fs.handles, ip, found.value);
    }
    r := LookupInside(fs, ip, name, es, o, gone, found);
    if r == Done(None) {
      LeaveDir(fs, ip, o, gone, g, Nowhere, multiset{});
    } else if r.Done? {
      LeaveFor(fs, ip, r.value.value, o, gone, g);
    }
  }

  method LeaveFor(fs: FileSystem, ip: nat, next: nat, ghost o: Origin, ghost gone: set<nat>, ghost g: Graph)
    requires Inside(fs, o, gone, ip) && GraphIs(o, fs.dev, g)
    requires next < |fs.inode| && Reached(fs, next, fs.inode[next].inum) && fs.inode[next].inum < |fs.t.img.ino|
    requires next == ip <==> fs.inode[ip].inum == fs.inode[next].inum
    requires fs.handles == o.handles + multiset{HandleOf(fs.inode, ip)} + multiset{HandleOf(fs.inode, next)}
    modifies fs`raw, fs`t, fs`inode, fs`handles
    ensures Walking(fs, o, Leave(g, gone, old(fs.inode)[ip].inum, At(old(fs.inode)[next].inum)), next)
    ensures fs.inode[next].inum == old(fs.inode)[next].inum
  {
    LeaveDir(fs, ip, o, gone, g, At(fs.inode[next].inum), multiset{HandleOf(fs.inode, next)});
  }

  lemma FreeInode(o: Origin, raw: seq<Block>, t: Tree, gone: set<nat>, g: Graph, dev: u32, i: nat)
    requires OnlyGone(o, raw, t, gone) && Charted(o, dev, g) && i < |t.img.ino| && t.img.ino[i].ty == 0
    ensures i in gone || g.node(i).free
  {
    assert g.node(i) == NodeOf(o, dev, i);
  }

  // One round of namex's loop behind skipelem.
  method Descend(fs: FileSystem, ip: nat, name: seq<byte>, stop: bool, ghost o: Origin, ghost gone: set<nat>,
                 ghost g: Graph)
    returns (r: Result<Option<nat>>)
    requires Walking(fs, o, gone, ip) && Charted(o, fs.dev, g)
    modifies fs`raw, fs`t, fs`inode, fs`handles
    ensures var i := old(fs.inode)[ip].inum; var n := Next(g, gone, i, Canon(name), stop);
      Ended(fs, o, n, Leave(g, gone, i, n), r)
  {
    ghost var i := fs.inode[ip].inum;
    if fs.t.img.ino[i].ty == 0 {
      FreeInode(o, fs.raw, fs.t, gone, g, fs.dev, i);
    }
    var l := EnterInode(fs, ip, o, gone, g);
    if l.Panic? {
      return Panic(l.why);
    }
    if l == Waits {
      return Waits;
    }
    r := GoOn(fs, ip, name, stop, o, gone, g);
  }

  // The same, from the locked inode.
  method GoOn(fs: FileSystem, ip: nat, name: seq<byte>, stop: bool, ghost o: Origin, ghost gone: set<nat>,
              ghost g: Graph)
    returns (r: Result<Option<nat>>)
    requires Inside(fs, o, gone, ip) && fs.handles == o.handles + multiset{HandleOf(fs.inode, ip)}
    requires Charted(o, fs.dev, g) && !g.node(fs.inode[ip].inum).busy
    modifies fs`raw, fs`t, fs`inode, fs`handles
    ensures var i := old(fs.inode)[ip].inum; var n := Next(g, gone, i, Canon(name), stop);
      Ended(fs, o, n, Leave(g, gone, i, n), r)
  {
    ghost var i := fs.inode[ip].inum;
    RecordsOf(o, fs.raw, fs.t, gone, g, fs.dev, i, Canon(name));
    if fs.inode[ip].d.ty != T_DIR {
      LeaveDir(fs, ip, o, gone, g, Nowhere, multiset{});
      return Done(None);
    }
    if stop {
      StopAt(fs, ip, o, gone);
      return Done(Some(ip));
    }
    r := NextInode(fs, ip, name, DirOf(fs.t.img, i), o, gone, g, g.child(i, Canon(name)));
  }

  // Unlock the directory the walk is to stop at.
  method StopAt(fs: FileSystem, ip: nat, ghost o: Origin, ghost gone: set<nat>)
    requires Inside(fs, o, gone, ip) && fs.handles == o.handles + multiset{HandleOf(fs.inode, ip)}
    modifies fs`inode
    ensures Walking(fs, o, gone, ip) && fs.inode[ip].inum == old(fs.inode)[ip].inum
  {
    var u := fs.Iunlock(ip);
    LocksAfterLeaving(o.slots, old(fs.inode), fs.inode, ip);
  }

  // ---------- namex ----------

  // A process and its current directory.
  ghost predicate AtRest(fs: FileSystem, cwd: nat)
    reads fs
  {
    && fs.Valid() && InTable(fs.t.img)
    && cwd < |fs.inode| && HandleOf(fs.inode, cwd) in fs.handles && fs.inode[cwd].dev == fs.dev
    && fs.inode[cwd].inum < |fs.t.img.ino|
  }

  ghost predicate Fresh(fs: FileSystem, o: Origin)
    reads fs
  {
    o == Origin(fs.raw, fs.t, fs.inode, fs.handles)
  }

  function StartOf(path: seq<byte>, cwd: nat): nat {
    if path != [] && path[0] == SLASH then ROOTINO else cwd
  }

  // With a leading slash a path starts at inode 1, without one at the current directory.
  lemma PathStarts(p: seq<byte>, cwd: nat)
    ensures StartOf([47] + p, cwd) == 1
    ensures p == [] || p[0] != 47 ==> StartOf(p, cwd) == cwd
  {}

  // One handle more, by iget or idup, on an inode that may be locked.
  lemma GetAnyhow(slots: seq<Inode>, handles: multiset<Handle>, dev: u32, j: u32)
    requires CacheInv(slots, handles) && Chosen(slots, dev, j) < |slots|
    ensures var r, slots' := Chosen(slots, dev, j), AfterGet(slots, dev, j);
      && SameLocks(slots, slots') && HandleOf(slots', r) == Handle(r, dev, j)
      && (slots'[r].locked ==> slots'[r].ref > 1) && !LastUnlinked(slots'[r])
  {}

  predicate FromRoot(path: seq<byte>) { path != [] && path[0] == SLASH }

  // The walk over a path's components from where the path starts, which takes a slot too.
  ghost function RunPath(g: Graph, path: seq<byte>, cwd: nat, parent: bool): (Outcome, set<nat>) {
    if FromRoot(path) && !g.node(ROOTINO).held && g.full then (Broken(NoSlots), {})
    else Run(g, {}, StartOf(path, cwd), Components(path), parent)
  }

  lemma RootRoom(o: Origin, g: Graph, dev: u32)
    requires CacheInv(o.slots, o.handles) && GraphIs(o, dev, g)
    ensures Chosen(o.slots, dev, ROOTINO) == |o.slots| <==> !g.node(ROOTINO).held && g.full
  {
    assert g.node(ROOTINO) == NodeOf(o, dev, ROOTINO);
    ChosenNone(o.slots, dev, ROOTINO);
    if h :| h in o.handles && h.dev == dev && h.inum == ROOTINO {
      assert o.slots[h.s].ref > 0 && h == HandleOf(o.slots, h.s);
    }
    if s :| 0 <= s < |o.slots| && o.slots[s].ref > 0 && o.slots[s].dev == dev && o.slots[s].inum == ROOTINO {
      assert o.handles[HandleOf(o.slots, s)] > 0;
    }
  }

  lemma NothingGone(o: Origin)
    ensures OnlyGone(o, o.raw, o.t, {})
  {}

  method StartAtRoot(fs: FileSystem, ghost o: Origin) returns (r: Result<nat>)
    requires fs.Valid() && Fresh(fs, o) && ROOTINO < |fs.t.img.ino|
    modifies fs`inode, fs`handles
    ensures if Chosen(o.slots, fs.dev, ROOTINO) == |o.slots| then r == Panic(NoSlots)
      else r.Done? && Started(fs, o, r.value, ROOTINO)
  {
    NothingGone(o);
    if Chosen(fs.inode, fs.dev, ROOTINO) < |fs.inode| {
      GetAnyhow(fs.inode, fs.handles, fs.dev, ROOTINO);
    }
    r := fs.Iget(fs.dev, ROOTINO);
  }

  method StartHere(fs: FileSystem, cwd: nat, ghost o: Origin) returns (r: Result<nat>)
    requires AtRest(fs, cwd) && Fresh(fs, o)
    modifies fs`inode, fs`handles
    ensures r.Done? && Started(fs, o, r.value, o.slots[cwd].inum)
  {
    NothingGone(o);
    HandleGood(fs.inode, fs.handles, fs.dev, fs.t.img.ino, cwd);
    fs.Idup(cwd);
    r := Done(cwd);
  }

  method Start(fs: FileSystem, path: seq<byte>, cwd: nat, ghost o: Origin, ghost g: Graph) returns (r: Result<nat>)
    requires AtRest(fs, cwd) && Fresh(fs, o) && GraphIs(o, fs.dev, g)
    modifies fs`inode, fs`handles
    ensures if FromRoot(path) && !g.node(ROOTINO).held && g.full then r == Panic(NoSlots)
      else r.Done? && Started(fs, o, r.value, StartOf(path, o.slots[cwd].inum))
  {
    if path != [] && path[0] == SLASH {
      RootRoom(o, g, fs.dev);
      r := StartAtRoot(fs, o);
    } else {
      r := StartHere(fs, cwd, o);
    }
  }

  ghost predicate Started(fs: FileSystem, o: Origin, ip: nat, i: nat)
    reads fs
  {
    Walking(fs, o, {}, ip) && fs.inode[ip].inum == i && !LastUnlinked(fs.inode[ip])
  }

  // iput of the inode the walk has not even looked into
  method PutBack(fs: FileSystem, ip: nat, ghost o: Origin, ghost gone: set<nat>)
    requires Walking(fs, o, gone, ip) && !LastUnlinked(fs.inode[ip])
    modifies fs`raw, fs`t, fs`inode, fs`handles
    ensures From(fs, o, gone) && fs.handles == o.handles
  {
    assert o.handles + multiset{HandleOf(fs.inode, ip)} - multiset{HandleOf(fs.inode, ip)} == o.handles;
    var p := fs.Iput(ip);
  }

  // Both end in the same component, unless the first is empty.
  predicate SameLast(rest: seq<seq<byte>>, comps: seq<seq<byte>>) {
    rest == [] || (comps != [] && Last(rest) == Last(comps))
  }

  function Last(comps: seq<seq<byte>>): seq<byte> { if comps == [] then [] else comps[|comps| - 1] }

  lemma RunStep(g: Graph, gone: set<nat>, i: nat, name: seq<byte>, rest: seq<seq<byte>>, parent: bool)
    ensures var stop := parent && rest == []; var n := Next(g, gone, i, name, stop);
      Run(g, gone, i, [name] + rest, parent) ==
      if n.Broken? || n.Waiting? then (n, gone)
      else if n.Nowhere? || stop then (n, Leave(g, gone, i, n))
      else Run(g, Leave(g, gone, i, n), n.i, rest, parent)
  {
    assert ([name] + rest)[1..] == rest;
  }

  // The walk stands on ip with `path` still to go, and will end as the whole walk does.
  ghost predicate OnTheWay(fs: FileSystem, o: Origin, gone: set<nat>, g: Graph, ip: nat, path: seq<byte>,
                           parent: bool, end: (Outcome, set<nat>))
    reads fs
  {
    && Walking(fs, o, gone, ip) && 0 !in path && Run(g, gone, fs.inode[ip].inum, Components(path), parent) == end
    && (parent && Components(path) == [] ==> !LastUnlinked(fs.inode[ip]))
  }

  // No component is left: the walk is there, and too far if it was to stop at the parent.
  method PathDone(fs: FileSystem, ip: nat, ghost path: seq<byte>, parent: bool, ghost o: Origin, ghost gone: set<nat>,
                  ghost g: Graph,
                  ghost end: (Outcome, set<nat>))
    returns (r: Result<Option<nat>>)
    requires OnTheWay(fs, o, gone, g, ip, path, parent, end) && Components(path) == []
    modifies fs`raw, fs`t, fs`inode, fs`handles
    ensures Ended(fs, o, end.0, end.1, r) && (parent ==> r == Done(None))
  {
    if parent {
      PutBack(fs, ip, o, gone);
      return Done(None);
    }
    return Done(Some(ip));
  }

  // What the loop relies on when skipelem took an element off.
  ghost predicate TookElement(path: seq<byte>, name: seq<byte>, rest: seq<byte>) {
    && Components(path) == [Canon(name)] + Components(rest) && 0 !in rest
    && (rest == [] <==> Components(rest) == [])
  }

  method TakeElement(path: seq<byte>, name0: seq<byte>) returns (rest: Option<seq<byte>>, name: seq<byte>)
    requires 0 !in path && |name0| == DIRSIZ
    ensures |name| == DIRSIZ && (rest == None <==> Components(path) == [])
    ensures rest.Some? ==> TookElement(path, name, rest.value) && |rest.value| < |path|
    ensures rest.Some? ==> SameLast(Components(rest.value), Components(path))
  {
    ghost var i, j, k;
    rest, name, i, j, k := Skipelem(path, name0);
  }

  // One round of namex's loop: either it is over, or the walk goes on from slot r along the
  // shorter path `rest`.
  method Advance(fs: FileSystem, ip: nat, path: seq<byte>, parent: bool, name0: seq<byte>, ghost o: Origin,
                 ghost gone: set<nat>, ghost g: Graph,
                 ghost end: (Outcome, set<nat>))
    returns (r: Result<Option<nat>>, over: bool, rest: seq<byte>, name: seq<byte>, ghost gone': set<nat>)
    requires OnTheWay(fs, o, gone, g, ip, path, parent, end) && Charted(o, fs.dev, g) && |name0| == DIRSIZ
    modifies fs`raw, fs`t, fs`inode, fs`handles
    ensures |name| == DIRSIZ
    ensures over ==>
      && Ended(fs, o, end.0, end.1, r)
      && (parent && r.Done? && r.value.Some? ==> Components(path) != [] && Canon(name) == Last(Components(path)))
    ensures !over ==>
      && r.Done? && r.value.Some? && OnTheWay(fs, o, gone', g, r.value.value, rest, parent, end)
      && |rest| < |path| && SameLast(Components(rest), Components(path))
  {
    var next: Option<seq<byte>>;
    next, name := TakeElement(path, name0);
    rest, over, gone' := [], true, gone;
    if next == None {
      r := PathDone(fs, ip, path, parent, o, gone, g, end);
      return;
    }
    rest := next.value;
    r, over, gone' := PassElement(fs, ip, path, name, rest, parent, o, gone, g, end);
  }

  // The same behind skipelem, which took `name` off the path.
  method PassElement(fs: FileSystem, ip: nat, ghost path: seq<byte>, name: seq<byte>, rest: seq<byte>, parent: bool,
                     ghost o: Origin, ghost gone: set<nat>, ghost g: Graph, ghost end: (Outcome, set<nat>))
    returns (r: Result<Option<nat>>, over: bool, ghost gone': set<nat>)
    requires OnTheWay(fs, o, gone, g, ip, path, parent, end) && Charted(o, fs.dev, g)
    requires TookElement(path, name, rest)
    modifies fs`raw, fs`t, fs`inode, fs`handles
    ensures over ==>
      && Ended(fs, o, end.0, end.1, r)
      && (parent && r.Done? && r.value.Some? ==> Components(path) != [] && Canon(name) == Last(Components(path)))
    ensures !over ==> r.Done? && r.value.Some? && OnTheWay(fs, o, gone', g, r.value.value, rest, parent, end)
  {
    ghost var i := fs.inode[ip].inum;
    RunStep(g, gone, i, Canon(name), Components(rest), parent);
    r := Descend(fs, ip, name, parent && rest == [], o, gone, g);
    gone' := Leave(g, gone, i, Next(g, gone, i, Canon(name), parent && rest == []));
    over := !r.Done? || r.value == None || (parent && rest == []);
  }

  // namex's loop, from the slot it starts at.
  method Follow(fs: FileSystem, start: nat, path0: seq<byte>, parent: bool, name0: seq<byte>, ghost o: Origin,
                ghost g: Graph)
    returns (r: Result<Option<nat>>, name: seq<byte>)
    requires start < |fs.inode| && Started(fs, o, start, fs.inode[start].inum) && Charted(o, fs.dev, g)
    requires 0 !in path0 && |name0| == DIRSIZ
    modifies fs`raw, fs`t, fs`inode, fs`handles
    ensures var end := Run(g, {}, old(fs.inode)[start].inum, Components(path0), parent);
      Ended(fs, o, end.0, end.1, r)
    ensures parent && r.Done? && r.value.Some? ==> Components(path0) != [] && Canon(name) == Last(Components(path0))
  {
    var path, over := path0, false;
    r, name := Done(Some(start)), name0;
    ghost var gone: set<nat> := {};
    ghost var end := Run(g, {}, fs.inode[start].inum, Components(path0), parent);
    while !over
      invariant |name| == DIRSIZ
      invariant over ==>
        && Ended(fs, o, end.0, end.1, r)
        && (parent && r.Done? && r.value.Some? ==> Components(path0) != [] && Canon(name) == Last(Components(path0)))
      invariant !over ==>
        && r.Done? && r.value.Some? && OnTheWay(fs, o, gone, g, r.value.value, path, parent, end)
        && SameLast(Components(path), Components(path0))
      decreases !over, |path|
    {
      var rest;
      r, over, rest, name, gone := Advance(fs, r.value.value, path, parent, name, o, gone, g, end);
      if !over {
        path := rest;
      }
    }
  }

  // The inode a path leads to, from the root or from the current directory; with `parent` the
  // directory that should hold the path's last component, and that component in `name`. The
  // outcome is a function of the state before the call.
  method Namex(fs: FileSystem, path: seq<byte>, parent: bool, name0: seq<byte>, cwd: nat, ghost o: Origin,
               ghost g: Graph)
    returns (r: Result<Option<nat>>, name: seq<byte>)
    requires AtRest(fs, cwd) && 0 !in path && |name0| == DIRSIZ && Fresh(fs, o) && GraphIs(o, fs.dev, g)
    modifies fs`raw, fs`t, fs`inode, fs`handles
    ensures var end := RunPath(g, path, o.slots[cwd].inum, parent); Ended(fs, o, end.0, end.1, r)
    ensures parent && r.Done? && r.value.Some? ==> Components(path) != [] && Canon(name) == Last(Components(path))
  {
    name := name0;
    var s := Start(fs, path, cwd, o, g);
    if s.Panic? {
      return Panic(NoSlots), name;
    }
    r, name := Follow(fs, s.value, path, parent, name, o, g);
  }

  // The number of the inode in slot r.
  ghost function InumAt(fs: FileSystem, r: Option<nat>): Option<nat>
    reads fs
  {
    match r
    case None => None
    case Some(ip) => if ip < |fs.inode| then Some(fs.inode[ip].inum) else None
  }

  method Namei(fs: FileSystem, path: seq<byte>, cwd: nat) returns (r: Result<Option<nat>>)
    requires AtRest(fs, cwd) && 0 !in path
    modifies fs`raw, fs`t, fs`inode, fs`handles
    ensures
      var o := Origin(old(fs.raw), old(fs.t), old(fs.inode), old(fs.handles));
      var g, i := GraphOf(o, fs.dev), o.slots[cwd].inum;
      var end := RunPath(g, path, i, false);
      && Ended(fs, o, end.0, end.1, r)
      && (r.Done? ==> InumAt(fs, r.value) == Walk(g, StartOf(path, i), Components(path)))
  {
    ghost var o := Origin(fs.raw, fs.t, fs.inode, fs.handles);
    ghost var g := GraphOf(o, fs.dev);
    RunReachesTarget(g, {}, StartOf(path, o.slots[cwd].inum), Components(path), false);
    var name: seq<byte> := seq(DIRSIZ, _ => 0);
    r, name := Namex(fs, path, false, name, cwd, o, g);
  }

  method Nameiparent(fs: FileSystem, path: seq<byte>, name0: seq<byte>, cwd: nat)
    returns (r: Result<Option<nat>>, name: seq<byte>)
    requires AtRest(fs, cwd) && 0 !in path && |name0| == DIRSIZ
    modifies fs`raw, fs`t, fs`inode, fs`handles
    ensures
      var o := Origin(old(fs.raw), old(fs.t), old(fs.inode), old(fs.handles));
      var g, i := GraphOf(o, fs.dev), o.slots[cwd].inum;
      var end := RunPath(g, path, i, true);
      && Ended(fs, o, end.0, end.1, r)
      && (r.Done? ==> InumAt(fs, r.value) == WalkParent(g, StartOf(path, i), Components(path)))
    ensures r.Done? && r.value.Some? ==> Components(path) != [] && Canon(name) == Last(Components(path))
  {
    ghost var o := Origin(fs.raw, fs.t, fs.inode, fs.handles);
    ghost var g := GraphOf(o, fs.dev);
    RunReachesTarget(g, {}, StartOf(path, o.slots[cwd].inum), Components(path), true);
    r, name := Namex(fs, path, true, name0, cwd, o, g);
  }
}
