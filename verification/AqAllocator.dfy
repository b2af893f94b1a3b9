/** The sector allocator of AqFS 2 (AqfsAllocator.c): a table of free chunks, cut from the top. */
module AqAllocator {
  import opened Layout
  import opened Path

  const MAX_ENTRIES := 682
  const TABLE_BLOCKS := 16

  datatype Chunk = Chunk(start: u32, size: u32)

  class Allocator {
    const first: u32
    const total: u32
    var nAvailable: nat
    var greatest: u32
    const table: array<Chunk>

    // All that a formatted disk ever reaches, because AqFree does nothing: one table with one
    // live chunk that shrinks from above, and `greatest` its size.
    ghost predicate Valid()
      reads this, table
    {
      && nAvailable == 1 && table.Length == MAX_ENTRIES && 0 < first && first + total < U32
      && table[0].start == first && table[0].size == greatest <= total
      && forall j :: 1 <= j < MAX_ENTRIES ==> table[j].size == 0
    }

    // First sector that has been handed out so far.
    ghost function Bound(): nat
      reads this
    {
      first + greatest
    }

    // AqAllocInit: one chunk of the whole size, starting behind the table; the other entries of
    // the fresh table are taken to be zero.
    constructor (base: u32, diskSize: u32)
      requires base + TABLE_BLOCKS + 2 + diskSize < U32
      ensures Valid() && fresh(table)
      ensures first == base + TABLE_BLOCKS + 2 && total == diskSize == greatest
    {
      first, total := base + TABLE_BLOCKS + 2, diskSize;
      nAvailable, greatest := 1, diskSize;
      table := new Chunk[MAX_ENTRIES](j => if j == 0 then Chunk(base + TABLE_BLOCKS + 2, diskSize) else Chunk(0, 0));
    }

    // The pointers tmp2 (a smallest chunk that fits) and tmp3 (the last fitting one that did not
    // become tmp2), both the first chunk to begin with.
    method Choose(size: u32) returns (smallest: nat, biggest: nat)
      requires table.Length == MAX_ENTRIES
      ensures smallest < MAX_ENTRIES && (smallest == 0 || table[smallest].size >= size)
      ensures forall j :: 0 <= j < MAX_ENTRIES && table[j].size >= size ==> table[smallest].size <= table[j].size
      ensures biggest < MAX_ENTRIES && (biggest == 0 || table[biggest].size >= size)
    {
      smallest, biggest := 0, 0;
      var j := 0;
      while j < MAX_ENTRIES
        invariant 0 <= j <= MAX_ENTRIES && smallest < MAX_ENTRIES && biggest < MAX_ENTRIES
        invariant smallest == 0 || table[smallest].size >= size
        invariant biggest == 0 || table[biggest].size >= size
        invariant forall k :: 0 <= k < j && table[k].size >= size ==> table[smallest].size <= table[k].size
      {
        if table[j].size >= size {
          if table[j].size < table[smallest].size {
            smallest := j;
          } else {
            biggest := j;
          }
        }
        j := j + 1;
      }
    }

    // AqAlloc; None is its null result.
    method Alloc(size: u32) returns (loc: Option<u32>)
      requires Valid() && 0 < size
      modifies `greatest, table
      ensures Valid()
      ensures loc == if size <= old(greatest) then Some(first + old(greatest) - size) else None
      ensures greatest == if size <= old(greatest) then old(greatest) - size else old(greatest)
    {
      var i := 0;
      while i < nAvailable
        invariant 0 <= i <= nAvailable && Valid() && greatest == old(greatest)
        invariant i == 1 ==> greatest < size
      {
        if greatest >= size {
          var smallest, biggest := Choose(size);
          var chunk := table[smallest];
          table[smallest] := Chunk(chunk.start, chunk.size - size);
          loc := Some(chunk.start + table[smallest].size);
          greatest := table[biggest].size;
          return;
        }
        i := i + 1;
      }
      return None;
    }
  }

  // ---------- a run of allocations ----------

  // Free sectors left of g after trying to allocate each of these sizes.
  function Left(g: nat, sizes: seq<u32>): (l: nat)
    ensures l <= g
  {
    if sizes == [] then g
    else
      var l, size := Left(g, sizes[..|sizes| - 1]), sizes[|sizes| - 1];
      if size <= l then l - size else l
  }

  // Where the i-th of the run goes, if it goes anywhere.
  function Extent(first: nat, g: nat, sizes: seq<u32>, i: nat): Option<u32>
    requires i < |sizes| && first + g < U32
  {
    var l := Left(g, sizes[..i]);
    if sizes[i] <= l then Some(first + l - sizes[i]) else None
  }

  lemma LeftOneMore(g: nat, sizes: seq<u32>, i: nat)
    requires i < |sizes|
    ensures Left(g, sizes[..i + 1]) ==
            if sizes[i] <= Left(g, sizes[..i]) then Left(g, sizes[..i]) - sizes[i] else Left(g, sizes[..i])
  {
    assert sizes[..i + 1][..i] == sizes[..i];
  }

  // The calls, one after the other.
  method AllocAll(a: Allocator, sizes: seq<u32>) returns (locs: seq<Option<u32>>)
    requires a.Valid() && forall i :: 0 <= i < |sizes| ==> 0 < sizes[i]
    modifies a`greatest, a.table
    ensures a.Valid() && a.greatest == Left(old(a.greatest), sizes)
    ensures |locs| == |sizes| && forall i :: 0 <= i < |sizes| ==> locs[i] == Extent(a.first, old(a.greatest), sizes, i)
  {
    locs := [];
    var i := 0;
    assert sizes[..0] == [];
    while i < |sizes|
      invariant 0 <= i == |locs| <= |sizes| && a.Valid() && a.greatest == Left(old(a.greatest), sizes[..i])
      invariant forall j :: 0 <= j < i ==> locs[j] == Extent(a.first, old(a.greatest), sizes, j)
    {
      LeftOneMore(old(a.greatest), sizes, i);
      var loc := a.Alloc(sizes[i]);
      locs := locs + [loc];
      i := i + 1;
    }
    assert sizes[..|sizes|] == sizes;
  }

  lemma {:induction false} LeftShrinks(g: nat, sizes: seq<u32>, i: nat, j: nat)
    requires i <= j <= |sizes|
    ensures Left(g, sizes[..j]) <= Left(g, sizes[..i])
  {
    if i < j {
      LeftShrinks(g, sizes, i, j - 1);
      LeftOneMore(g, sizes, j - 1);
    }
  }

  // Extents handed out at different times do not overlap.
  lemma ExtentsDisjoint(first: nat, g: nat, sizes: seq<u32>, i: nat, j: nat)
    requires first + g < U32 && i < j < |sizes| && Extent(first, g, sizes, i).Some? && Extent(first, g, sizes, j).Some?
    ensures Extent(first, g, sizes, j).value + sizes[j] <= Extent(first, g, sizes, i).value
  {
    LeftOneMore(g, sizes, i);
    LeftShrinks(g, sizes, i + 1, j);
  }

  // ---------- formatting a partition ----------

  // Aqfs2_burn's call for a partition of `total` sectors from `begin` on whose meta table takes
  // `meta` sectors: all of the partition's sectors are handed over, from begin + meta + 20 on.
  method Burn(begin: u32, total: u32, meta: u32) returns (a: Allocator)
    requires begin + meta + 20 + total < U32
    ensures a.Valid() && fresh(a) && fresh(a.table)
    ensures a.first == begin + meta + 20 && a.greatest == total
  {
    a := new Allocator(begin + 2 + meta, total);
  }

  // Of the extents such an allocator hands out, those inside the partition are exactly those
  // before which meta + 20 sectors are gone already.
  lemma InsidePartition(begin: nat, total: nat, meta: nat, sizes: seq<u32>, i: nat)
    requires begin + meta + 20 + total < U32 && i < |sizes| && Extent(begin + meta + 20, total, sizes, i).Some?
    ensures var at := Extent(begin + meta + 20, total, sizes, i).value;
      begin <= at && at + sizes[i] <= begin + total <==> meta + 20 <= total - Left(total, sizes[..i])
  {}

  // The root directory's descriptor is the first thing allocated: its sector is not in the
  // partition.
  method RootOutside(begin: u32, total: u32, meta: u32) returns (loc: Option<u32>)
    requires begin + meta + 20 + total < U32 && 0 < total
    ensures loc.Some? && loc.value >= begin + total
  {
    var a := Burn(begin, total, meta);
    loc := a.Alloc(1);
  }
}
