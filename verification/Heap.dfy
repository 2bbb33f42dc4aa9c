/** kmalloc and kfree on headers in memory, refining HeapSpec. */
module Heap {
  import opened Options
  import opened HeapSpec

  /** A block header as it lies in memory; next is the address of the next header or 0. */
  datatype Header = Header(size: nat, used: nat, next: nat)

  ghost function HeaderOf(blocks: seq<Blk>, i: nat): Header
    requires i < |blocks|
  {
    Header(blocks[i].size, if blocks[i].used then 1 else 0, if i + 1 < |blocks| then blocks[i + 1].addr else 0)
  }

  /** The headers in memory describe exactly that list of blocks. */
  ghost predicate Linked(hdr: map<nat, Header>, blocks: seq<Blk>) {
    forall i :: 0 <= i < |blocks| ==> blocks[i].addr in hdr && hdr[blocks[i].addr] == HeaderOf(blocks, i)
  }

  class KernelHeap {
    var heapStart: nat
    var hdr: map<nat, Header>

    ghost var blocks: seq<Blk>

    ghost predicate Valid()
      reads this
    {
      || (heapStart == 0 && blocks == [])
      || (heapStart > 0 && blocks != [] && Tiles(blocks, heapStart, heapStart + HEAP_SIZE) && Linked(hdr, blocks))
    }

    /** Before kmalloc_init there is no heap. */
    constructor ()
      ensures Valid() && blocks == [] && heapStart == 0
    {
      heapStart, hdr, blocks := 0, map[], [];
    }

    method Init(start: nat)
      requires start > 0
      modifies this
      ensures Valid() && heapStart == start && blocks == InitialHeap(start)
    {
      heapStart := start;
      hdr := hdr[start := Header(HEAP_SIZE - HEADER, 0, 0)];
      blocks := InitialHeap(start);
      InitialHeapIsTidy(start);
    }

    lemma IsTiled()
      requires Valid()
      ensures Tiled(blocks)
    {
      if blocks == [] { assert Tiles(blocks, 0, 0); }
    }

    method Kmalloc(n: nat) returns (p: nat)
      requires Valid()
      modifies this`hdr, this`blocks
      ensures Valid() && blocks == Alloc(old(blocks), n).0
      ensures p == if Alloc(old(blocks), n).1.Some? then Alloc(old(blocks), n).1.value else 0
    {
      if heapStart == 0 { return 0; }
      NonZeroAddress(blocks, heapStart, heapStart + HEAP_SIZE);
      var current := heapStart;
      ghost var i := 0;
      while current != 0
        invariant 0 <= i <= |blocks| && blocks == old(blocks) && hdr == old(hdr)
        invariant current == if i < |blocks| then blocks[i].addr else 0
        invariant FirstFit(blocks, n, i) == FirstFit(blocks, n, 0)
        decreases |blocks| - i
      {
        assert hdr[current] == HeaderOf(blocks, i);
        if hdr[current].used == 0 && hdr[current].size >= n {
          p := Claim(current, i, n);
          return;
        }
        current := hdr[current].next;
        i := i + 1;
      }
      return 0;
    }

    /** Uses the block at current, cutting off what is too much. */
    method Claim(current: nat, ghost i: nat, n: nat) returns (p: nat)
      requires Valid() && i < |blocks| && current == blocks[i].addr && Fits(blocks[i], n)
      requires hdr[current] == HeaderOf(blocks, i)
      modifies this`hdr, this`blocks
      ensures Valid() && p == old(blocks)[i].Payload()
      ensures blocks == old(blocks)[..i] + Cut(old(blocks)[i], n) + old(blocks)[i + 1..]
    {
      ghost var was, lo, hi := blocks, heapStart, heapStart + HEAP_SIZE;
      blocks := was[..i] + Cut(was[i], n) + was[i + 1..];
      CutTiles(was[i], n);
      Replace(was, lo, hi, i, i + 1, Cut(was[i], n));
      ghost var before := hdr;
      var h := hdr[current];
      if h.size > n + HEADER {
        var neu := current + HEADER + n;
        hdr := hdr[neu := Header(h.size - n - HEADER, 0, h.next)];
        hdr := hdr[current := Header(n, 1, neu)];
        CutShape(was, blocks, i, n);
        CutLinked(before, hdr, was, blocks, lo, hi, i, n);
      } else {
        hdr := hdr[current := h.(used := 1)];
        UsedLinked(before, hdr, was, blocks, lo, hi, i);
      }
      p := current + HEADER;
    }

    /** kfree of NULL or of a pointer to a block. */
    method Kfree(p: nat)
      requires Valid() && (p == 0 || FindBlock(blocks, p, 0) < |blocks|)
      modifies this`hdr, this`blocks
      ensures Valid() && blocks == Free(old(blocks), if p == 0 then None else Some(p))
    {
      if p == 0 { return; }
      ghost var i := FindBlock(blocks, p, 0);
      var block := p - HEADER;
      MarkFree(block, i);
      MergeBlocks(block, i);
    }

    method MarkFree(block: nat, ghost i: nat)
      requires Valid() && i < |blocks| && block == blocks[i].addr
      modifies this`hdr, this`blocks
      ensures Valid() && |blocks| == |old(blocks)| && blocks == old(blocks)[i := old(blocks)[i].(used := false)]
    {
      ghost var was, before := blocks, hdr;
      assert hdr[block] == HeaderOf(blocks, i);
      hdr := hdr[block := hdr[block].(used := 0)];
      blocks := was[i := was[i].(used := false)];
      FreedTiles(was, heapStart, heapStart + HEAP_SIZE, i);
      FlagLinked(before, hdr, was, blocks, heapStart, heapStart + HEAP_SIZE, i);
    }

    method MergeBlocks(block: nat, ghost i: nat)
      requires Valid() && i < |blocks| && block == blocks[i].addr
      modifies this`hdr, this`blocks
      ensures Valid() && blocks == Merge(old(blocks), i)
    {
      hide Merge, Tiles;
      ghost var goal, lo, hi := Merge(blocks, i), heapStart, heapStart + HEAP_SIZE;
      assert hdr[block] == HeaderOf(blocks, i);
      NextHeader(hdr, blocks, lo, hi, i);
      while hdr[block].next != 0 && hdr[hdr[block].next].used == 0
        invariant Valid() && i < |blocks| && block == blocks[i].addr && Merge(blocks, i) == goal
        invariant hdr[block] == HeaderOf(blocks, i)
        invariant hdr[block].next != 0 <==> i + 1 < |blocks|
        invariant hdr[block].next != 0 ==> hdr[block].next in hdr && hdr[hdr[block].next] == HeaderOf(blocks, i + 1)
        decreases |blocks|
      {
        var next := hdr[hdr[block].next];
        ghost var was, before := blocks, hdr;
        hdr := hdr[block := Header(hdr[block].size + HEADER + next.size, hdr[block].used, next.next)];
        MergeUnfold(was, i);
        blocks := MergeOne(was, i);
        MergedLinked(before, hdr, was, blocks, lo, hi, i);
        NextHeader(hdr, blocks, lo, hi, i);
      }
      MergeStops(blocks, i);
    }
  }

  lemma {:induction false} NonZeroAddress(blocks: seq<Blk>, lo: nat, hi: nat)
    requires Tiles(blocks, lo, hi) && lo > 0
    ensures forall i :: 0 <= i < |blocks| ==> blocks[i].addr > 0
  {
    forall i | 0 <= i < |blocks| ensures blocks[i].addr > 0 {
      TilesSplit(blocks, lo, hi, i);
    }
  }

  lemma NextHeader(hdr: map<nat, Header>, blocks: seq<Blk>, lo: nat, hi: nat, i: nat)
    requires Tiles(blocks, lo, hi) && lo > 0 && Linked(hdr, blocks) && i < |blocks|
    ensures HeaderOf(blocks, i).next != 0 <==> i + 1 < |blocks|
    ensures i + 1 < |blocks| ==> blocks[i + 1].addr in hdr && hdr[blocks[i + 1].addr] == HeaderOf(blocks, i + 1)
  {
    NonZeroAddress(blocks, lo, hi);
  }

  lemma AddressesApart(blocks: seq<Blk>, lo: nat, hi: nat)
    requires Tiles(blocks, lo, hi)
    ensures forall i, j :: 0 <= i < j < |blocks| ==> blocks[i].addr != blocks[j].addr
  {
    forall i, j | 0 <= i < j < |blocks| ensures blocks[i].addr != blocks[j].addr {
      PayloadsDisjoint(blocks, lo, hi, i, j);
    }
  }

  lemma FlagLinked(hdr: map<nat, Header>, hdr': map<nat, Header>, was: seq<Blk>, blocks: seq<Blk>, lo: nat, hi: nat, i: nat)
    requires Tiles(was, lo, hi) && Linked(hdr, was) && i < |was|
    requires |blocks| == |was| && blocks == was[i := was[i].(used := blocks[i].used)]
    requires hdr' == hdr[was[i].addr := HeaderOf(was, i).(used := if blocks[i].used then 1 else 0)]
    ensures Linked(hdr', blocks)
  {
    AddressesApart(was, lo, hi);
  }

  lemma FreedTiles(was: seq<Blk>, lo: nat, hi: nat, i: nat)
    requires Tiles(was, lo, hi) && i < |was|
    ensures Tiles(was[i := was[i].(used := false)], lo, hi)
  {
    var b := was[i].(used := false);
    assert [b][1..] == [];
    Replace(was, lo, hi, i, i + 1, [b]);
    assert was[i := b] == was[..i] + [b] + was[i + 1..];
  }

  lemma UsedLinked(hdr: map<nat, Header>, hdr': map<nat, Header>, was: seq<Blk>, blocks: seq<Blk>, lo: nat, hi: nat, i: nat)
    requires Tiles(was, lo, hi) && Linked(hdr, was) && i < |was|
    requires blocks == was[..i] + [was[i].(used := true)] + was[i + 1..]
    requires hdr' == hdr[was[i].addr := HeaderOf(was, i).(used := 1)]
    ensures Linked(hdr', blocks)
  {
    assert blocks == was[i := was[i].(used := true)];
    FlagLinked(hdr, hdr', was, blocks, lo, hi, i);
  }

  /** Block i of was has become two blocks; the others have kept their place in the order. */
  ghost predicate CutApart(was: seq<Blk>, blocks: seq<Blk>, i: nat, n: nat) {
    && i < |was| && |blocks| == |was| + 1 && was[i].size > n + HEADER
    && blocks[i] == Blk(was[i].addr, n, true)
    && blocks[i + 1] == Blk(was[i].addr + HEADER + n, was[i].size - n - HEADER, false)
    && (forall j :: 0 <= j < i ==> blocks[j] == was[j])
    && (forall j :: i + 1 < j < |blocks| ==> blocks[j] == was[j - 1])
  }

  lemma CutShape(was: seq<Blk>, blocks: seq<Blk>, i: nat, n: nat)
    requires i < |was| && was[i].size > n + HEADER && blocks == was[..i] + Cut(was[i], n) + was[i + 1..]
    ensures CutApart(was, blocks, i, n)
  {
  }

  lemma CutLinked(hdr: map<nat, Header>, hdr': map<nat, Header>, was: seq<Blk>, blocks: seq<Blk>, lo: nat, hi: nat, i: nat, n: nat)
    requires Tiles(blocks, lo, hi) && Linked(hdr, was) && CutApart(was, blocks, i, n)
    requires var a, h := was[i].addr, HeaderOf(was, i);
             hdr' == hdr[a + HEADER + n := Header(h.size - n - HEADER, 0, h.next)][a := Header(n, 1, a + HEADER + n)]
    ensures Linked(hdr', blocks)
  {
    hide Tiles;
    AddressesApart(blocks, lo, hi);
    forall j | 0 <= j < |blocks| && j != i && j != i + 1
      ensures blocks[j].addr in hdr' && hdr'[blocks[j].addr] == HeaderOf(blocks, j)
    {
      var k := if j < i then j else j - 1;
      assert HeaderOf(blocks, j) == HeaderOf(was, k);
      assert blocks[j].addr != blocks[i].addr && blocks[j].addr != blocks[i + 1].addr;
    }
    assert HeaderOf(blocks, i + 1).next == HeaderOf(was, i).next;
  }

  /** All headers but the merged one stay as they were. */
  lemma MergeShape(was: seq<Blk>, i: nat, j: nat)
    requires i + 1 < |was| && j < |was| - 1
    ensures MergeOne(was, i)[j].addr == was[if j <= i then j else j + 1].addr
    ensures j != i ==> HeaderOf(MergeOne(was, i), j) == HeaderOf(was, if j < i then j else j + 1)
    ensures j == i ==> HeaderOf(MergeOne(was, i), j)
                       == Header(was[i].size + HEADER + was[i + 1].size, HeaderOf(was, i).used, HeaderOf(was, i + 1).next)
  {
  }

  lemma MergedLinked(hdr: map<nat, Header>, hdr': map<nat, Header>, was: seq<Blk>, blocks: seq<Blk>, lo: nat, hi: nat, i: nat)
    requires Tiles(was, lo, hi) && Linked(hdr, was) && i + 1 < |was| && blocks == MergeOne(was, i)
    requires hdr' == hdr[was[i].addr := Header(was[i].size + HEADER + was[i + 1].size, HeaderOf(was, i).used,
                                               HeaderOf(was, i + 1).next)]
    ensures Tiles(blocks, lo, hi) && Linked(hdr', blocks)
  {
    hide MergeOne, Tiles;
    MergeOneTiles(was, lo, hi, i);
    AddressesApart(was, lo, hi);
    forall j | 0 <= j < |blocks| ensures blocks[j].addr in hdr' && hdr'[blocks[j].addr] == HeaderOf(blocks, j) {
      MergeShape(was, i, j);
      var k := if j <= i then j else j + 1;
      assert j != i ==> was[k].addr != was[i].addr;
    }
  }
}
