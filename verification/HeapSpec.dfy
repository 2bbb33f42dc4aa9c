/** The kernel heap as an address-ordered list of blocks: first fit, splitting, forward merging. */
module HeapSpec {
  import opened Options

  const HEADER: nat := 32         // bytes of a block header
  const HEAP_SIZE: nat := 0x10_0000

  /** A header at addr, followed by size bytes of payload. */
  datatype Blk = Blk(addr: nat, size: nat, used: bool) {
    function Payload(): nat {
      addr + HEADER
    }

    function End(): nat {
      addr + HEADER + size
    }
  }

  /** The blocks cover [lo, hi) without gap or overlap. */
  ghost predicate Tiles(blocks: seq<Blk>, lo: nat, hi: nat) {
    if blocks == [] then lo == hi
    else blocks[0].addr == lo && Tiles(blocks[1..], blocks[0].End(), hi)
  }

  // ---------------------------------------------------------------------------
  // The operations
  // ---------------------------------------------------------------------------

  predicate Fits(b: Blk, n: nat) {
    !b.used && b.size >= n
  }

  /** First block from i on that can take n bytes, or the number of blocks. */
  function FirstFit(blocks: seq<Blk>, n: nat, i: nat): (r: nat)
    requires i <= |blocks|
    decreases |blocks| - i
    ensures i <= r <= |blocks| && (r < |blocks| ==> Fits(blocks[r], n))
    ensures forall j :: i <= j < r ==> !Fits(blocks[j], n)
  {
    if i == |blocks| || Fits(blocks[i], n) then i else FirstFit(blocks, n, i + 1)
  }

  /** Block b cut for n bytes: with the rest as a free block, if that has room for a header and more. */
  function Cut(b: Blk, n: nat): seq<Blk>
    requires b.size >= n
  {
    if b.size > n + HEADER then [Blk(b.addr, n, true), Blk(b.addr + HEADER + n, b.size - n - HEADER, false)]
    else [b.(used := true)]
  }

  /** kmalloc: the new list and the address of the payload. */
  function Alloc(blocks: seq<Blk>, n: nat): (seq<Blk>, Option<nat>) {
    var i := FirstFit(blocks, n, 0);
    if i == |blocks| then (blocks, None)
    else (blocks[..i] + Cut(blocks[i], n) + blocks[i + 1..], Some(blocks[i].Payload()))
  }

  /** Block i swallows the one behind it. */
  function MergeOne(blocks: seq<Blk>, i: nat): (r: seq<Blk>)
    requires i + 1 < |blocks|
    ensures |r| == |blocks| - 1
  {
    blocks[..i] + [blocks[i].(size := blocks[i].size + HEADER + blocks[i + 1].size)] + blocks[i + 2..]
  }

  /** merge_blocks: block i swallows the free blocks behind it. */
  function Merge(blocks: seq<Blk>, i: nat): (r: seq<Blk>)
    requires i < |blocks|
    decreases |blocks|
  {
    if i + 1 < |blocks| && !blocks[i + 1].used then
      Merge(MergeOne(blocks, i), i)
    else blocks
  }

  function FreeAt(blocks: seq<Blk>, i: nat): seq<Blk>
    requires i < |blocks|
  {
    Merge(blocks[i := blocks[i].(used := false)], i)
  }

  /** Position of the block with that payload address, or the number of blocks. */
  function FindBlock(blocks: seq<Blk>, p: nat, i: nat): (r: nat)
    requires i <= |blocks|
    decreases |blocks| - i
    ensures i <= r <= |blocks| && (r < |blocks| ==> blocks[r].Payload() == p)
    ensures forall j :: i <= j < r ==> blocks[j].Payload() != p
  {
    if i == |blocks| || blocks[i].Payload() == p then i else FindBlock(blocks, p, i + 1)
  }

  /** kfree of a pointer that kmalloc returned (or of NULL). */
  function Free(blocks: seq<Blk>, p: Option<nat>): seq<Blk> {
    if p.None? || FindBlock(blocks, p.value, 0) == |blocks| then blocks
    else FreeAt(blocks, FindBlock(blocks, p.value, 0))
  }

  // ---------------------------------------------------------------------------
  // Tiling
  // ---------------------------------------------------------------------------

  lemma {:induction false} TilesConcat(a: seq<Blk>, b: seq<Blk>, lo: nat, mid: nat, hi: nat)
    requires Tiles(a, lo, mid) && Tiles(b, mid, hi)
    ensures Tiles(a + b, lo, hi)
  {
    if a == [] {
      assert a + b == b;
    } else {
      TilesConcat(a[1..], b, a[0].End(), mid, hi);
      assert (a + b)[1..] == a[1..] + b;
    }
  }

  /** A tiling splits at every block. */
  lemma {:induction false} TilesSplit(blocks: seq<Blk>, lo: nat, hi: nat, i: nat)
    requires Tiles(blocks, lo, hi) && i < |blocks|
    ensures lo <= blocks[i].addr && blocks[i].End() <= hi
    ensures Tiles(blocks[..i], lo, blocks[i].addr) && Tiles(blocks[i + 1..], blocks[i].End(), hi)
    decreases i
  {
    if i == 0 {
      TilesOrdered(blocks[1..], blocks[0].End(), hi);
    } else {
      TilesSplit(blocks[1..], blocks[0].End(), hi, i - 1);
      assert blocks[..i] == [blocks[0]] + blocks[1..][..i - 1];
      assert blocks[..i][1..] == blocks[1..][..i - 1];
      assert blocks[i + 1..] == blocks[1..][i..];
    }
  }

  lemma {:induction false} TilesOrdered(blocks: seq<Blk>, lo: nat, hi: nat)
    requires Tiles(blocks, lo, hi)
    ensures lo <= hi
  {
    if blocks != [] {
      TilesOrdered(blocks[1..], blocks[0].End(), hi);
    }
  }

  /** Blocks lie in ascending order and do not overlap; in particular payloads are disjoint. */
  lemma PayloadsDisjoint(blocks: seq<Blk>, lo: nat, hi: nat, i: nat, j: nat)
    requires Tiles(blocks, lo, hi) && i < j < |blocks|
    ensures lo <= blocks[i].addr && blocks[i].End() <= blocks[j].addr && blocks[j].End() <= hi
  {
    TilesSplit(blocks, lo, hi, i);
    TilesSplit(blocks, lo, hi, j);
    TilesSplit(blocks[i + 1..], blocks[i].End(), hi, j - i - 1);
  }

  /** Replacing one block by others that cover the same bytes keeps the tiling. */
  lemma Replace(blocks: seq<Blk>, lo: nat, hi: nat, i: nat, k: nat, part: seq<Blk>)
    requires Tiles(blocks, lo, hi) && i < k <= |blocks|
    requires Tiles(part, blocks[i].addr, blocks[k - 1].End())
    ensures Tiles(blocks[..i] + part + blocks[k..], lo, hi)
  {
    TilesSplit(blocks, lo, hi, i);
    TilesSplit(blocks, lo, hi, k - 1);
    TilesConcat(blocks[..i], part, lo, blocks[i].addr, blocks[k - 1].End());
    TilesConcat(blocks[..i] + part, blocks[k..], lo, blocks[k - 1].End(), hi);
  }

  lemma CutTiles(b: Blk, n: nat)
    requires b.size >= n
    ensures Tiles(Cut(b, n), b.addr, b.End())
  {
  }

  lemma AllocKeepsTiling(blocks: seq<Blk>, lo: nat, hi: nat, n: nat)
    requires Tiles(blocks, lo, hi)
    ensures Tiles(Alloc(blocks, n).0, lo, hi)
  {
    var i := FirstFit(blocks, n, 0);
    if i < |blocks| {
      CutTiles(blocks[i], n);
      Replace(blocks, lo, hi, i, i + 1, Cut(blocks[i], n));
    }
  }

  lemma {:induction false} MergeKeepsTiling(blocks: seq<Blk>, lo: nat, hi: nat, i: nat)
    requires Tiles(blocks, lo, hi) && i < |blocks|
    ensures Tiles(Merge(blocks, i), lo, hi)
    decreases |blocks|
  {
    if i + 1 < |blocks| && !blocks[i + 1].used {
      MergeOneTiles(blocks, lo, hi, i);
      MergeKeepsTiling(MergeOne(blocks, i), lo, hi, i);
    }
  }

  lemma FreeKeepsTiling(blocks: seq<Blk>, lo: nat, hi: nat, i: nat)
    requires Tiles(blocks, lo, hi) && i < |blocks|
    ensures Tiles(FreeAt(blocks, i), lo, hi)
  {
    var b := blocks[i].(used := false);
    assert [b][1..] == [];
    Replace(blocks, lo, hi, i, i + 1, [b]);
    assert blocks[i := b] == blocks[..i] + [b] + blocks[i + 1..];
    MergeKeepsTiling(blocks[i := b], lo, hi, i);
  }

  // ---------------------------------------------------------------------------
  // What an allocation gives
  // ---------------------------------------------------------------------------

  ghost predicate Satisfiable(blocks: seq<Blk>, n: nat) {
    exists i :: 0 <= i < |blocks| && Fits(blocks[i], n)
  }

  /** Allocation fails exactly when no free block is large enough. Otherwise the payload has between
      n and n + 32 bytes, lay in a free block, and all blocks in use before are still there. */
  lemma AllocEffect(blocks: seq<Blk>, n: nat)
    ensures Alloc(blocks, n).1.None? <==> !Satisfiable(blocks, n)
    ensures Alloc(blocks, n).1.None? ==> Alloc(blocks, n).0 == blocks
    ensures Alloc(blocks, n).1.Some? ==>
              var i := FirstFit(blocks, n, 0);
              && i < |blocks| && i < |Alloc(blocks, n).0|
              && !blocks[i].used && Alloc(blocks, n).1.value == blocks[i].Payload()
              && var b := Alloc(blocks, n).0[i];
              && b.used && b.addr == blocks[i].addr && n <= b.size <= n + HEADER && b.End() <= blocks[i].End()
    ensures forall b :: b in blocks && b.used ==> b in Alloc(blocks, n).0
  {
  }

  /** An allocation takes the first free block that is large enough, whole if at most a header would be left
      of it; otherwise the rest becomes a free block right behind. All other blocks stay as they are. */
  lemma AllocIsFirstFit(blocks: seq<Blk>, n: nat, i: nat)
    requires i < |blocks| && !blocks[i].used && blocks[i].size >= n
    requires forall j :: 0 <= j < i ==> blocks[j].used || blocks[j].size < n
    ensures var (after, p) := Alloc(blocks, n);
            var b, split := blocks[i], blocks[i].size > n + 32;
            && p == Some(b.addr + 32) && |after| == |blocks| + (if split then 1 else 0)
            && (forall j :: 0 <= j < i ==> after[j] == blocks[j])
            && after[i] == Blk(b.addr, if split then n else b.size, true)
            && (split ==> after[i + 1] == Blk(b.addr + 32 + n, b.size - 32 - n, false))
            && (forall j :: i < j < |blocks| ==> after[if split then j + 1 else j] == blocks[j])
  {
    assert FirstFit(blocks, n, 0) == i;
  }

  /** The blocks from i + 1 up to j are free, and no further one behind them is. */
  ghost predicate FreeUpTo(blocks: seq<Blk>, i: nat, j: nat) {
    && i <= j < |blocks| && (forall k :: i < k <= j ==> !blocks[k].used)
    && (j + 1 < |blocks| ==> blocks[j + 1].used)
  }

  /** One block from the start of block i to the end of block j. */
  function Joined(blocks: seq<Blk>, i: nat, j: nat): seq<Blk>
    requires i <= j < |blocks| && blocks[i].addr + HEADER <= blocks[j].End()
  {
    blocks[..i] + [blocks[i].(size := blocks[j].End() - blocks[i].addr - HEADER)] + blocks[j + 1..]
  }

  lemma {:induction false} MergeJoins(blocks: seq<Blk>, lo: nat, hi: nat, i: nat, j: nat)
    requires Tiles(blocks, lo, hi) && FreeUpTo(blocks, i, j)
    ensures blocks[i].addr + HEADER <= blocks[j].End() && Merge(blocks, i) == Joined(blocks, i, j)
    decreases j - i
  {
    hide Merge, Tiles, FreeUpTo, Joined;
    StretchEnds(blocks, i, j);
    if i < j {
      MergeUnfold(blocks, i);
      MergeOneTiles(blocks, lo, hi, i);
      OneJoined(blocks, i, j);
      MergeJoins(MergeOne(blocks, i), lo, hi, i, j - 1);
    } else {
      MergeStops(blocks, i);
    }
  }

  lemma StretchEnds(blocks: seq<Blk>, i: nat, j: nat)
    requires FreeUpTo(blocks, i, j)
    ensures i <= j < |blocks| && (i < j ==> !blocks[i + 1].used)
    ensures i == j ==> (j + 1 < |blocks| ==> blocks[j + 1].used) && Joined(blocks, i, i) == blocks
  {
  }

  lemma OneJoined(blocks: seq<Blk>, i: nat, j: nat)
    requires FreeUpTo(blocks, i, j) && i < j && blocks[i].End() == blocks[i + 1].addr
    ensures FreeUpTo(MergeOne(blocks, i), i, j - 1)
    ensures MergeOne(blocks, i)[i].addr == blocks[i].addr && MergeOne(blocks, i)[j - 1].End() == blocks[j].End()
    ensures blocks[i].addr + HEADER <= blocks[j].End() ==> Joined(MergeOne(blocks, i), i, j - 1) == Joined(blocks, i, j)
  {
    var merged := MergeOne(blocks, i);
    assert merged[j - 1].End() == blocks[j].End();
    assert merged[..i] == blocks[..i] && merged[j..] == blocks[j + 1..];
  }

  lemma MergeOneTiles(blocks: seq<Blk>, lo: nat, hi: nat, i: nat)
    requires Tiles(blocks, lo, hi) && i + 1 < |blocks|
    ensures Tiles(MergeOne(blocks, i), lo, hi) && blocks[i].End() == blocks[i + 1].addr
  {
    TilesSplit(blocks, lo, hi, i);
    assert blocks[i + 1..][0] == blocks[i + 1];
    var b := MergeOne(blocks, i)[i];
    assert [b][1..] == [];
    Replace(blocks, lo, hi, i, i + 2, [b]);
  }

  lemma FreeUpToMarked(blocks: seq<Blk>, i: nat, j: nat)
    requires FreeUpTo(blocks, i, j)
    ensures i <= j < |blocks| && FreeUpTo(blocks[i := blocks[i].(used := false)], i, j)
  {
  }

  lemma OneTile(b: Blk)
    ensures Tiles([b], b.addr, b.End())
  {
    assert [b][1..] == [];
  }

  /** kfree of block i: it becomes one free block with all the free ones directly behind it, up to the end of
      the last of them; no other block changes. */
  lemma FreeJoins(blocks: seq<Blk>, lo: nat, hi: nat, i: nat, j: nat)
    requires Tiles(blocks, lo, hi) && FreeUpTo(blocks, i, j)
    ensures blocks[i].addr + 32 <= blocks[j].End()
    ensures FreeAt(blocks, i)
            == blocks[..i] + [Blk(blocks[i].addr, blocks[j].End() - blocks[i].addr - 32, false)] + blocks[j + 1..]
  {
    hide Merge, FreeUpTo, Tiles;
    FreeUpToMarked(blocks, i, j);
    var b := blocks[i].(used := false);
    var freed := blocks[i := b];
    OneTile(b);
    assert freed == blocks[..i] + [b] + blocks[i + 1..];
    Replace(blocks, lo, hi, i, i + 1, [b]);
    MergeJoins(freed, lo, hi, i, j);
    assert freed[j + 1..] == blocks[j + 1..];
  }

  lemma {:induction false} MergeKeepsUsed(blocks: seq<Blk>, i: nat, j: nat)
    requires i < |blocks| && j < |blocks| && j != i && blocks[j].used
    ensures blocks[j] in Merge(blocks, i)
    decreases |blocks|
  {
    if i + 1 < |blocks| && !blocks[i + 1].used {
      var merged := MergeOne(blocks, i);
      var k := if j < i then j else j - 1;
      assert merged[k] == blocks[j];
      MergeKeepsUsed(merged, i, k);
    }
  }

  /** Freeing leaves every other block in use as it is. */
  lemma FreeKeepsOthers(blocks: seq<Blk>, i: nat, j: nat)
    requires i < |blocks| && j < |blocks| && j != i && blocks[j].used
    ensures blocks[j] in FreeAt(blocks, i)
  {
    MergeKeepsUsed(blocks[i := blocks[i].(used := false)], i, j);
  }

  lemma {:induction false} MergeKeepsSatisfiable(blocks: seq<Blk>, i: nat, n: nat)
    requires i < |blocks| && !blocks[i].used && Satisfiable(blocks, n)
    ensures Satisfiable(Merge(blocks, i), n)
    decreases |blocks|
  {
    if i + 1 < |blocks| && !blocks[i + 1].used {
      var merged := MergeOne(blocks, i);
      var j :| 0 <= j < |blocks| && Fits(blocks[j], n);
      var k := if j <= i then j else j - 1;
      assert Fits(merged[k], n);
      MergeKeepsSatisfiable(merged, i, n);
    }
  }

  /** kfree never makes a request fail that would have succeeded before, and makes a request for
      the freed block's own size succeed. */
  lemma FreeKeepsSatisfiable(blocks: seq<Blk>, i: nat, n: nat)
    requires i < |blocks| && (Satisfiable(blocks, n) || n <= blocks[i].size)
    ensures Satisfiable(FreeAt(blocks, i), n)
  {
    var freed := blocks[i := blocks[i].(used := false)];
    if Satisfiable(blocks, n) {
      var j :| 0 <= j < |blocks| && Fits(blocks[j], n);
      assert Fits(freed[j], n);
    } else {
      assert Fits(freed[i], n);
    }
    MergeKeepsSatisfiable(freed, i, n);
  }

  // ---------------------------------------------------------------------------
  // Allocate, then free
  // ---------------------------------------------------------------------------

  ghost predicate NoFreeNeighbours(blocks: seq<Blk>) {
    forall i :: 0 <= i && i + 1 < |blocks| ==> blocks[i].used || blocks[i + 1].used
  }

  lemma AllocKeepsNoFreeNeighbours(blocks: seq<Blk>, n: nat)
    requires NoFreeNeighbours(blocks)
    ensures NoFreeNeighbours(Alloc(blocks, n).0)
  {
  }

  lemma {:induction false} MergeShrinks(blocks: seq<Blk>, i: nat)
    requires i < |blocks|
    ensures |Merge(blocks, i)| <= |blocks|
    decreases |blocks|
  {
    if i + 1 < |blocks| && !blocks[i + 1].used {
      MergeShrinks(MergeOne(blocks, i), i);
    }
  }

  /** Freeing the block just cut first gives back the block it was cut from. */
  lemma FreeUndoesCut(blocks: seq<Blk>, n: nat, i: nat)
    requires i < |blocks| && Fits(blocks[i], n)
    ensures FreeAt(blocks[..i] + Cut(blocks[i], n) + blocks[i + 1..], i) == Merge(blocks, i)
  {
    hide Merge;
    var b := blocks[i];
    if b.size > n + HEADER {
      CutThenMerge(blocks, n, i);
    } else {
      var cut := blocks[..i] + [b.(used := true)] + blocks[i + 1..];
      assert cut[i].(used := false) == b && cut[i := b] == blocks;
    }
  }

  lemma CutThenMerge(blocks: seq<Blk>, n: nat, i: nat)
    requires i < |blocks| && Fits(blocks[i], n) && blocks[i].size > n + HEADER
    ensures FreeAt(blocks[..i] + Cut(blocks[i], n) + blocks[i + 1..], i) == Merge(blocks, i)
  {
    hide Merge;
    var b, a, z := blocks[i], blocks[..i], blocks[i + 1..];
    var front, rest := Blk(b.addr, n, false), Blk(b.addr + HEADER + n, b.size - n - HEADER, false);
    FreeFront(a, front, rest, z);
    assert a + [b] + z == blocks;
    MergeUnfold(a + [front, rest] + z, i);
  }

  lemma FreeFront(a: seq<Blk>, front: Blk, rest: Blk, z: seq<Blk>)
    ensures (a + [front.(used := true), rest] + z)[|a| := front] == a + [front, rest] + z
    ensures MergeOne(a + [front, rest] + z, |a|) == a + [front.(size := front.size + HEADER + rest.size)] + z
  {
  }

  lemma MergeUnfold(blocks: seq<Blk>, i: nat)
    requires i + 1 < |blocks| && !blocks[i + 1].used
    ensures Merge(blocks, i) == Merge(MergeOne(blocks, i), i)
  {
  }

  lemma MergeStops(blocks: seq<Blk>, i: nat)
    requires i < |blocks| && (i + 1 < |blocks| ==> blocks[i + 1].used)
    ensures Merge(blocks, i) == blocks
  {
  }

  lemma PayloadFound(blocks: seq<Blk>, lo: nat, hi: nat, i: nat)
    requires Tiles(blocks, lo, hi) && i < |blocks|
    ensures FindBlock(blocks, blocks[i].Payload(), 0) == i
  {
    var r := FindBlock(blocks, blocks[i].Payload(), 0);
    if r < i {
      PayloadsDisjoint(blocks, lo, hi, r, i);
    }
  }

  /** kfree(kmalloc(n)) restores the block list exactly when the request fails or the block that it
      is served from has no free block behind it. */
  lemma FreeAfterAlloc(blocks: seq<Blk>, lo: nat, hi: nat, n: nat)
    requires Tiles(blocks, lo, hi)
    ensures var (after, p) := Alloc(blocks, n);
            var i := FirstFit(blocks, n, 0);
            Free(after, p) == blocks
            <==> i == |blocks| || i + 1 == |blocks| || blocks[i + 1].used
  {
    var (after, p) := Alloc(blocks, n);
    var i := FirstFit(blocks, n, 0);
    if i < |blocks| {
      AllocKeepsTiling(blocks, lo, hi, n);
      assert after[i].Payload() == p.value;
      PayloadFound(after, lo, hi, i);
      FreeUndoesCut(blocks, n, i);
      if i + 1 < |blocks| && !blocks[i + 1].used {
        MergeShrinks(MergeOne(blocks, i), i);
      }
    }
  }

  /** Properly nested use of the heap: allocate, run the inner part, free, run the rest. */
  datatype Nested = Done | Nest(size: nat, inner: Nested, rest: Nested)

  function Execute(blocks: seq<Blk>, run: Nested): seq<Blk>
    decreases run
  {
    match run
    case Done => blocks
    case Nest(n, inner, rest) =>
      var (after, p) := Alloc(blocks, n);
      Execute(Free(Execute(after, inner), p), rest)
  }

  /** From a heap without free neighbours, every properly nested run ends in the heap it began with. */
  lemma {:induction false} NestedRunRestores(blocks: seq<Blk>, lo: nat, hi: nat, run: Nested)
    requires Tiles(blocks, lo, hi) && NoFreeNeighbours(blocks)
    ensures Execute(blocks, run) == blocks
    decreases run
  {
    match run
    case Done =>
    case Nest(n, inner, rest) =>
      var (after, p) := Alloc(blocks, n);
      AllocKeepsTiling(blocks, lo, hi, n);
      AllocKeepsNoFreeNeighbours(blocks, n);
      NestedRunRestores(after, lo, hi, inner);
      FreeAfterAlloc(blocks, lo, hi, n);
      var i := FirstFit(blocks, n, 0);
      assert i + 1 < |blocks| ==> blocks[i].used || blocks[i + 1].used;
      NestedRunRestores(blocks, lo, hi, rest);
  }

  function InitialHeap(start: nat): seq<Blk> {
    [Blk(start, HEAP_SIZE - HEADER, false)]
  }

  lemma InitialHeapIsTidy(start: nat)
    ensures Tiles(InitialHeap(start), start, start + 0x10_0000) && NoFreeNeighbours(InitialHeap(start))
    ensures forall n :: Satisfiable(InitialHeap(start), n) <==> n <= 0x10_0000 - 32
  {
    assert !InitialHeap(start)[0].used;
  }

  // ---------------------------------------------------------------------------
  // Who owns which block
  // ---------------------------------------------------------------------------

  ghost predicate Tiled(blocks: seq<Blk>) {
    exists lo, hi :: Tiles(blocks, lo, hi)
  }

  /** p is the payload address of a block in use. */
  ghost predicate InUseAt(blocks: seq<Blk>, p: nat) {
    exists i :: 0 <= i < |blocks| && blocks[i].used && blocks[i].Payload() == p
  }

  ghost function UsedCount(blocks: seq<Blk>): nat {
    if blocks == [] then 0 else (if blocks[0].used then 1 else 0) + UsedCount(blocks[1..])
  }

  lemma {:induction false} UsedConcat(a: seq<Blk>, b: seq<Blk>)
    ensures UsedCount(a + b) == UsedCount(a) + UsedCount(b)
  {
    if a == [] {
      assert a + b == b;
    } else {
      UsedConcat(a[1..], b);
      assert (a + b)[1..] == a[1..] + b;
    }
  }

  /** The count around position i. */
  lemma UsedAround(a: seq<Blk>, b: Blk, c: seq<Blk>)
    ensures UsedCount(a + [b] + c) == UsedCount(a) + (if b.used then 1 else 0) + UsedCount(c)
  {
    UsedConcat(a + [b], c);
    UsedConcat(a, [b]);
    assert [b][1..] == [];
  }

  /** An allocation puts one more block in use, at an address that no block in use had, and takes none away. */
  lemma AllocOwns(blocks: seq<Blk>, n: nat)
    requires Tiled(blocks) && Alloc(blocks, n).1.Some?
    ensures var (after, p) := Alloc(blocks, n);
            && Tiled(after) && InUseAt(after, p.value) && !InUseAt(blocks, p.value) && p.value > 0
            && UsedCount(after) == UsedCount(blocks) + 1
            && forall q :: InUseAt(blocks, q) ==> InUseAt(after, q)
  {
    var (after, p) := Alloc(blocks, n);
    var i := FirstFit(blocks, n, 0);
    var lo, hi :| Tiles(blocks, lo, hi);
    AllocEffect(blocks, n);
    AllocKeepsTiling(blocks, lo, hi, n);
    PayloadFound(blocks, lo, hi, i);
    forall j | 0 <= j < |blocks| && blocks[j].Payload() == p.value ensures j == i {
      PayloadFound(blocks, lo, hi, j);
    }
    forall q | InUseAt(blocks, q) ensures InUseAt(after, q) {
      var j :| 0 <= j < |blocks| && blocks[j].used && blocks[j].Payload() == q;
      assert blocks[j] in after;
    }
    AllocCounts(blocks, n, i);
  }

  lemma AllocCounts(blocks: seq<Blk>, n: nat, i: nat)
    requires i < |blocks| && Fits(blocks[i], n)
    ensures UsedCount(blocks[..i] + Cut(blocks[i], n) + blocks[i + 1..]) == UsedCount(blocks) + 1
  {
    var a, c, cut := blocks[..i], blocks[i + 1..], Cut(blocks[i], n);
    assert blocks == a + [blocks[i]] + c;
    UsedAround(a, blocks[i], c);
    hide UsedCount;
    if |cut| == 2 {
      assert a + cut + c == (a + [cut[0]]) + [cut[1]] + c;
      UsedAround(a + [cut[0]], cut[1], c);
      UsedAround(a, cut[0], []);
      assert a + [cut[0]] + [] == a + [cut[0]];
    } else {
      assert cut == [cut[0]];
      UsedAround(a, cut[0], c);
    }
  }

  lemma {:induction false} MergeCounts(blocks: seq<Blk>, i: nat)
    requires i < |blocks|
    ensures UsedCount(Merge(blocks, i)) == UsedCount(blocks)
    decreases |blocks|
  {
    if i + 1 < |blocks| && !blocks[i + 1].used {
      var a, c := blocks[..i], blocks[i + 2..];
      assert blocks == a + [blocks[i]] + ([blocks[i + 1]] + c);
      UsedAround(a, blocks[i], [blocks[i + 1]] + c);
      assert ([blocks[i + 1]] + c)[1..] == c;
      UsedAround(a, MergeOne(blocks, i)[i], c);
      MergeCounts(MergeOne(blocks, i), i);
    }
  }

  /** Freeing a block in use takes it, and only it, out of use. */
  lemma FreeDisowns(blocks: seq<Blk>, p: nat)
    requires Tiled(blocks) && InUseAt(blocks, p)
    ensures FindBlock(blocks, p, 0) < |blocks|
    ensures var after := Free(blocks, Some(p));
            && Tiled(after) && UsedCount(after) == UsedCount(blocks) - 1
            && forall q :: InUseAt(blocks, q) && q != p ==> InUseAt(after, q)
  {
    var after := Free(blocks, Some(p));
    var lo, hi :| Tiles(blocks, lo, hi);
    var i :| 0 <= i < |blocks| && blocks[i].used && blocks[i].Payload() == p;
    PayloadFound(blocks, lo, hi, i);
    FreeKeepsTiling(blocks, lo, hi, i);
    forall q | InUseAt(blocks, q) && q != p ensures InUseAt(after, q) {
      var j :| 0 <= j < |blocks| && blocks[j].used && blocks[j].Payload() == q;
      FreeKeepsOthers(blocks, i, j);
    }
    FreeCounts(blocks, i);
  }

  lemma FreeCounts(blocks: seq<Blk>, i: nat)
    requires i < |blocks| && blocks[i].used
    ensures UsedCount(FreeAt(blocks, i)) == UsedCount(blocks) - 1
  {
    var a, c, b := blocks[..i], blocks[i + 1..], blocks[i].(used := false);
    assert blocks == a + [blocks[i]] + c && blocks[i := b] == a + [b] + c;
    UsedAround(a, blocks[i], c);
    UsedAround(a, b, c);
    MergeCounts(blocks[i := b], i);
  }
}
