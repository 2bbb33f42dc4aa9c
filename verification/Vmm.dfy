/** Mapping and unmapping pages; new tables come from the page allocator. */
module Vmm {
  import opened Options
  import opened Pmm
  import PT = PageTables

  class AddressSpace {
    const pmm: PageAllocator
    var mem: array<PT.uint64>

    ghost var level: map<nat, nat>  // the table pages, and how far each lies above the leaves

    /** The tables form a tree below the root; each is a page that is taken; free pages read as zero. */
    ghost predicate Valid()
      reads this, mem, pmm, pmm.bitmap
    {
      && pmm.Valid() && pmm.maxPages < 0x1_0000_0000 && mem.Length == 512 * pmm.maxPages
      && (mem as object) != (pmm.bitmap as object)
      && InUse(mem[..], pmm.Bits(), level)
    }

    /** Takes over the tables that the boot loader has built. */
    constructor (pages: PageAllocator, memory: array<PT.uint64>, ghost tables: map<nat, nat>)
      requires pages.Valid() && pages.maxPages < 0x1_0000_0000 && memory.Length == 512 * pages.maxPages
      requires (memory as object) != (pages.bitmap as object)
      requires InUse(memory[..], pages.Bits(), tables)
      ensures Valid() && pmm == pages && mem == memory && level == tables
    {
      pmm, mem, level := pages, memory, tables;
    }

    /** The step made at each of the three upper levels: the table that entry i of table f points to,
        allocated if the entry is absent. Each table allocated is one the path lacked. */
    method EnsureTable(f: nat, i: nat, ghost path: seq<nat>) returns (child: nat)
      requires Valid() && f in level && level[f] == |path| >= 2 && PT.IsPath(path) && i == path[0]
      requires CountFree(pmm.Bits()) >= PT.Missing(mem[..], f, path)
      modifies this`level, mem, pmm`freePages, pmm.bitmap
      ensures Valid()
      ensures CountFree(pmm.Bits()) - PT.Missing(mem[..], child, path[1..])
              == old(CountFree(pmm.Bits()) - PT.Missing(mem[..], f, path))
      ensures Extended(old(mem[..]), old(level), mem[..], level)
      ensures Points(mem[..], level, f, i, child)
      ensures PT.Word(mem[..], f, i)
              == if old(PT.Present(PT.Word(mem[..], f, i))) then old(PT.Word(mem[..], f, i)) else 4096 * child + 3
    {
      hide Took, BitsOf, CountFree, Extended, PT.Word, PT.Tree, PT.LinksDescend, PT.LinksDistinct, PageOf;
      ghost var m, bits := mem[..], pmm.Bits();
      TableFits(m, bits, level, f, i);
      var e := mem[512 * f + i];
      if !PT.Present(e) {
        var neu := pmm.Alloc();
        ghost var n, bits' := PageOf(neu), pmm.Bits();
        TakenAddress(bits, bits', neu);
        assert mem[..] == m;
        mem[512 * f + i] := neu + 3;
        assert pmm.Bits() == bits';
        NewTable(m, mem[..], bits, bits', level, f, i, neu);
        level := level[n := level[f] - 1];
        MissingBelow(m, mem[..], f, i, n, path, neu + 3);
      } else {
        NothingNew(m, level);
        PresentPoints(m, bits, level, f, i);
      }
      child := PT.FrameOf(mem[512 * f + i]);
    }

    /** The present leaf entry for a virtual address. */
    ghost function Translation(virt: PT.uint64): Option<PT.uint64>
      reads this, mem
    {
      PT.Lookup(mem[..], PT.ROOT, PT.Indices(virt))
    }

    /** Maps the page of virt to phys; the translation of every other page stays. It takes exactly as
        many pages as tables are missing. */
    method MapPage(virt: PT.uint64, phys: PT.uint64, flags: PT.uint64)
      requires Valid() && CountFree(pmm.Bits()) >= PT.Missing(mem[..], PT.ROOT, PT.Indices(virt))
      requires phys % 4096 == 0 && flags < 4096
      modifies this`level, mem, pmm`freePages, pmm.bitmap
      ensures Valid()
      ensures CountFree(pmm.Bits()) == old(CountFree(pmm.Bits()) - PT.Missing(mem[..], PT.ROOT, PT.Indices(virt)))
      ensures forall a: PT.uint64 :: Translation(a) ==
                if PT.PageNumber(a) != PT.PageNumber(virt) then old(Translation(a))
                else if flags % 2 == 1 then Some(phys + flags) else None
    {
      hide BitsOf, CountFree, Extended, Points, InUse, PT.Lookup, PT.LeafTable, PT.PageNumber, PT.Pml4Index, PT.PdptIndex, PT.PdIndex, PT.PtIndex;
      var i4, i3 := PT.Pml4Index(virt), PT.PdptIndex(virt);
      var i2, i1 := PT.PdIndex(virt), PT.PtIndex(virt);
      ghost var m0, l0 := mem[..], level;
      RootIsTop(m0, pmm.Bits(), level);
      ghost var path := PT.Indices(virt);
      var pdpt := EnsureTable(PT.ROOT, i4, path);
      ghost var m1, l1 := mem[..], level;
      PointsDown(m1, l1, PT.ROOT, i4, pdpt);
      ExtendedLevel(m0, l0, m1, l1, PT.ROOT);
      var pd := EnsureTable(pdpt, i3, path[1..]);
      ghost var m2, l2 := mem[..], level;
      PointsDown(m2, l2, pdpt, i3, pd);
      ExtendedLevel(m1, l1, m2, l2, pdpt);
      ExtendedLevel(m1, l1, m2, l2, PT.ROOT);
      var pt := EnsureTable(pd, i2, path[1..][1..]);
      ghost var m, l := mem[..], level;
      PointsDown(m, l, pd, i2, pt);
      ExtendedLevel(m2, l2, m, l, pd);
      SameTranslations(m0, l0, m1, l1);
      SameTranslations(m1, l1, m2, l2);
      SameTranslations(m2, l2, m, l);
      StillPoints(m1, l1, m2, l2, PT.ROOT, i4, pdpt);
      StillPoints(m2, l2, m, l, PT.ROOT, i4, pdpt);
      StillPoints(m2, l2, m, l, pdpt, i3, pd);
      TableFits(m, pmm.Bits(), l, pt, i1);
      ghost var bits := pmm.Bits();
      PathLeads(m, l, PT.Indices(virt), pdpt, pd, pt);
      mem[512 * pt + i1] := phys + flags;
      assert pmm.Bits() == bits;
      LeafWritten(m, mem[..], bits, l, virt, pt, phys + flags);
    }

    /** The entry of the last-level table for virt, present or not; none if a link is absent. */
    ghost function LeafEntry(virt: PT.uint64): Option<PT.uint64>
      reads this, mem
    {
      var t := PT.LeafTable(mem[..], PT.ROOT, PT.Indices(virt));
      if t.None? then None else Some(PT.Word(mem[..], t.value, PT.PtIndex(virt)))
    }

    /** Removes the translation of the page of virt and no other one. All links on the way must be
        present, since the source follows them unchecked. */
    method UnmapPage(virt: PT.uint64)
      requires Valid() && PT.LeafTable(mem[..], PT.ROOT, PT.Indices(virt)).Some?
      modifies mem
      ensures Valid()
      ensures forall a: PT.uint64 :: Translation(a) ==
                if PT.PageNumber(a) == PT.PageNumber(virt) then None else old(Translation(a))
      ensures LeafEntry(virt) == Some(0)
    {
      hide BitsOf, CountFree, PT.Lookup, PT.PageNumber, PT.Pml4Index, PT.PdptIndex, PT.PdIndex, PT.PtIndex;
      ghost var m, bits := mem[..], pmm.Bits();
      var pt := Descend(virt);
      TableFits(m, bits, level, pt, PT.PtIndex(virt));
      mem[512 * pt + PT.PtIndex(virt)] := 0;
      assert pmm.Bits() == bits;
      LeafWritten(m, mem[..], bits, level, virt, pt, 0);
    }

    /** Follows the three links without testing them. */
    method Descend(virt: PT.uint64) returns (pt: nat)
      requires Valid() && PT.LeafTable(mem[..], PT.ROOT, PT.Indices(virt)).Some?
      ensures PT.LeafTable(mem[..], PT.ROOT, PT.Indices(virt)) == Some(pt)
      ensures pt in level && level[pt] == 1
    {
      hide BitsOf, PT.Pml4Index, PT.PdptIndex, PT.PdIndex, PT.PtIndex, PT.Word;
      ghost var m, bits, path := mem[..], pmm.Bits(), PT.Indices(virt);
      OneDown(m, bits, level, PT.ROOT, path);
      var pdpt := PT.FrameOf(mem[512 * PT.ROOT + PT.Pml4Index(virt)]);
      OneDown(m, bits, level, pdpt, path[1..]);
      var pd := PT.FrameOf(mem[512 * pdpt + PT.PdptIndex(virt)]);
      OneDown(m, bits, level, pd, path[2..]);
      pt := PT.FrameOf(mem[512 * pd + PT.PdIndex(virt)]);
    }

    /** virt_to_phys: 0 if a link is absent; otherwise the address in the leaf entry, whether or not
        that entry is present, plus the offset in the page. */
    method VirtToPhys(virt: PT.uint64) returns (phys: nat)
      requires Valid()
      ensures LeafEntry(virt).None? ==> phys == 0
      ensures LeafEntry(virt).Some? ==> phys == PT.FrameOf(LeafEntry(virt).value) * 4096 + virt % 4096
      ensures Translation(virt).Some? ==> phys == PT.FrameOf(Translation(virt).value) * 4096 + virt % 4096
    {
      phys := ReadTables(virt);
    }

    method ReadTables(virt: PT.uint64) returns (phys: nat)
      requires Valid()
      ensures LeafEntry(virt).None? ==> phys == 0
      ensures LeafEntry(virt).Some? ==> phys == PT.FrameOf(LeafEntry(virt).value) * 4096 + virt % 4096
    {
      hide BitsOf, PT.Pml4Index, PT.PdptIndex, PT.PdIndex, PT.PtIndex, PT.Word;
      ghost var m, bits, path := mem[..], pmm.Bits(), PT.Indices(virt);
      OneDown(m, bits, level, PT.ROOT, path);
      var e4 := mem[512 * PT.ROOT + PT.Pml4Index(virt)];
      if !PT.Present(e4) { return 0; }
      var pdpt := PT.FrameOf(e4);
      OneDown(m, bits, level, pdpt, path[1..]);
      var e3 := mem[512 * pdpt + PT.PdptIndex(virt)];
      if !PT.Present(e3) { return 0; }
      var pd := PT.FrameOf(e3);
      OneDown(m, bits, level, pd, path[2..]);
      var e2 := mem[512 * pd + PT.PdIndex(virt)];
      if !PT.Present(e2) { return 0; }
      var pt := PT.FrameOf(e2);
      assert PT.LeafTable(m, pt, path[3..]) == Some(pt);
      TableFits(m, bits, level, pt, PT.PtIndex(virt));
      phys := PT.FrameOf(mem[512 * pt + PT.PtIndex(virt)]) * 4096 + virt % 4096;
    }

    /** A page just unmapped does not translate to 0 but to the offset of the address. */
    method UnmapThenTranslate(virt: PT.uint64) returns (phys: nat)
      requires Valid() && PT.LeafTable(mem[..], PT.ROOT, PT.Indices(virt)).Some?
      modifies mem
      ensures Valid() && Translation(virt) == None && phys == virt % 4096
    {
      UnmapPage(virt);
      phys := VirtToPhys(virt);
    }

    /** A page just mapped translates to its physical page plus the offset. */
    method MapThenTranslate(virt: PT.uint64, phys: PT.uint64, flags: PT.uint64) returns (translated: nat)
      requires Valid() && CountFree(pmm.Bits()) >= PT.Missing(mem[..], PT.ROOT, PT.Indices(virt))
      requires phys % 4096 == 0 && flags < 4096 && PT.Present(flags)
      modifies this`level, mem, pmm`freePages, pmm.bitmap
      ensures Valid() && translated == phys + virt % 4096
    {
      MapPage(virt, phys, flags);
      translated := VirtToPhys(virt);
      PageFrame(phys, flags);
    }
  }

  /** Below a new table everything is missing. */
  lemma MissingBelow(m: PT.Memory, m': PT.Memory, f: nat, i: nat, n: nat, path: seq<nat>, e: PT.uint64)
    requires |path| >= 2 && PT.ZeroFrame(m, n) && n != f && i < 512 && 512 * f + i < |m| && m' == m[512 * f + i := e]
    requires PT.IsPath(path)
    ensures PT.Missing(m', n, path[1..]) == |path| - 2
  {
    if |path| > 2 {
      PT.WordAfterStore(m, f, i, e, n, path[1]);
      assert path[1..][0] == path[1];
    }
  }

  /** One link of the walk. */
  lemma OneDown(m: PT.Memory, bits: seq<bool>, level: map<nat, nat>, f: nat, path: seq<nat>)
    requires InUse(m, bits, level) && |path| >= 2 && PT.IsPath(path) && (f == PT.ROOT || f in level)
    requires (if f in level then level[f] else 4) == |path|
    ensures 512 * f + path[0] < |m| && f in level
    ensures PT.LeafTable(m, f, path) ==
              if PT.Present(m[512 * f + path[0]]) then PT.LeafTable(m, PT.FrameOf(m[512 * f + path[0]]), path[1..]) else None
    ensures PT.Present(m[512 * f + path[0]]) ==>
              PT.FrameOf(m[512 * f + path[0]]) in level && level[PT.FrameOf(m[512 * f + path[0]])] == |path| - 1
  {
  }

  lemma SameTranslations(m: PT.Memory, level: map<nat, nat>, m': PT.Memory, level': map<nat, nat>)
    requires Extended(m, level, m', level')
    ensures forall a: PT.uint64 :: PT.Lookup(m', PT.ROOT, PT.Indices(a)) == PT.Lookup(m, PT.ROOT, PT.Indices(a))
  {
  }

  lemma RootIsTop(m: PT.Memory, bits: seq<bool>, level: map<nat, nat>)
    requires InUse(m, bits, level)
    ensures PT.ROOT in level && level[PT.ROOT] == 4
  {
  }

  lemma PointsDown(m: PT.Memory, level: map<nat, nat>, f: nat, i: nat, child: nat)
    requires Points(m, level, f, i, child)
    ensures f in level && child in level && level[child] + 1 == level[f]
  {
  }

  lemma ExtendedLevel(m: PT.Memory, level: map<nat, nat>, m': PT.Memory, level': map<nat, nat>, f: nat)
    requires Extended(m, level, m', level') && f in level
    ensures f in level' && level'[f] == level[f] && |m'| == |m|
  {
  }

  lemma StillPoints(m: PT.Memory, level: map<nat, nat>, m': PT.Memory, level': map<nat, nat>, f: nat, i: nat, child: nat)
    requires Extended(m, level, m', level') && Points(m, level, f, i, child) && i < 512
    ensures Points(m', level', f, i, child)
  {
  }

  lemma PageFrame(phys: PT.uint64, flags: PT.uint64)
    requires phys % 4096 == 0 && flags < 4096 && phys + flags < 0x1_0000_0000_0000_0000
    ensures PT.FrameOf(phys + flags) * 4096 == phys
  {
  }

  lemma PathLeads(m: PT.Memory, level: map<nat, nat>, path: seq<nat>, t3: nat, t2: nat, t1: nat)
    requires |path| == 4 && PT.ROOT in level && level[PT.ROOT] == 4
    requires Points(m, level, PT.ROOT, path[0], t3) && Points(m, level, t3, path[1], t2) && Points(m, level, t2, path[2], t1)
    ensures PT.LeafTable(m, PT.ROOT, path) == Some(t1) && t1 in level && level[t1] == 1
  {
    var p := path[1..];
    var q := p[1..];
    assert PT.LeafTable(m, PT.ROOT, path) == PT.LeafTable(m, t3, p);
    assert PT.LeafTable(m, t3, p) == PT.LeafTable(m, t2, q);
    assert PT.LeafTable(m, t2, q) == PT.LeafTable(m, t1, q[1..]);
  }

  /** Storing an entry in the last-level table of a page changes that page's translation only. */
  lemma LeafWritten(m: PT.Memory, m': PT.Memory, bits: seq<bool>, level: map<nat, nat>, virt: PT.uint64, t: nat, e: PT.uint64)
    requires InUse(m, bits, level) && t in level && level[t] == 1
    requires PT.LeafTable(m, PT.ROOT, PT.Indices(virt)) == Some(t)
    requires 512 * t + PT.PtIndex(virt) < |m| && m' == m[512 * t + PT.PtIndex(virt) := e]
    ensures InUse(m', bits, level)
    ensures PT.LeafTable(m', PT.ROOT, PT.Indices(virt)) == Some(t) && PT.Word(m', t, PT.PtIndex(virt)) == e
    ensures forall a: PT.uint64 :: PT.Lookup(m', PT.ROOT, PT.Indices(a)) ==
              if PT.PageNumber(a) != PT.PageNumber(virt) then PT.Lookup(m, PT.ROOT, PT.Indices(a))
              else if PT.Present(e) then Some(e) else None
  {
    hide PT.PageNumber, PT.Lookup, PT.LeafTable, PT.Pml4Index, PT.PdptIndex, PT.PdIndex, PT.PtIndex;
    var path := PT.Indices(virt);
    PT.LeafStoreKeepsTree(m, m', level, PT.ROOT, t, PT.PtIndex(virt), e);
    PT.LeafStoreKeepsTables(m, m', level, PT.ROOT, t, PT.PtIndex(virt), e, PT.ROOT, path);
    PT.WordAfterStore(m, t, PT.PtIndex(virt), e, t, PT.PtIndex(virt));
    forall a: PT.uint64
      ensures PT.Lookup(m', PT.ROOT, PT.Indices(a)) ==
              if PT.PageNumber(a) != PT.PageNumber(virt) then PT.Lookup(m, PT.ROOT, PT.Indices(a))
              else if PT.Present(e) then Some(e) else None
    {
      PT.SamePathSamePage(a, virt);
      PT.LeafStoreLookup(m, m', level, PT.ROOT, path, e, PT.Indices(a));
    }
    forall f | 0 <= f < |bits| && !bits[f] ensures PT.ZeroFrame(m', f) {
      forall j | 0 <= j < 512 ensures PT.Word(m', f, j) == PT.Word(m, f, j) {
        PT.WordAfterStore(m, t, PT.PtIndex(virt), e, f, j);
      }
    }
  }

  /** Entry i of f is present and points to table child, one level down. */
  ghost predicate Points(m: PT.Memory, level: map<nat, nat>, f: nat, i: nat, child: nat) {
    && PT.Present(PT.Word(m, f, i)) && child == PT.FrameOf(PT.Word(m, f, i))
    && f in level && child in level && level[child] + 1 == level[f]
  }

  /** From m to m' tables may have been added, but no translation has changed and no link is lost. */
  ghost predicate Extended(m: PT.Memory, level: map<nat, nat>, m': PT.Memory, level': map<nat, nat>) {
    && |m'| == |m|
    && (forall path :: |path| == 4 && PT.IsPath(path) ==> PT.Lookup(m', PT.ROOT, path) == PT.Lookup(m, PT.ROOT, path))
    && (forall g :: g in level ==> g in level' && level'[g] == level[g])
    && (forall g, j :: g in level && 0 <= j < 512 && PT.Present(PT.Word(m, g, j)) ==> PT.Word(m', g, j) == PT.Word(m, g, j))
  }

  lemma NothingNew(m: PT.Memory, level: map<nat, nat>)
    ensures Extended(m, level, m, level)
  {
  }

  lemma TableFits(m: PT.Memory, bits: seq<bool>, level: map<nat, nat>, f: nat, i: nat)
    requires InUse(m, bits, level) && f in level && i < 512
    ensures 512 * f + i < |m| && PT.Word(m, f, i) == m[512 * f + i]
  {
  }

  lemma PresentPoints(m: PT.Memory, bits: seq<bool>, level: map<nat, nat>, f: nat, i: nat)
    requires InUse(m, bits, level) && f in level && level[f] >= 2 && i < 512 && PT.Present(PT.Word(m, f, i))
    ensures Points(m, level, f, i, PT.FrameOf(PT.Word(m, f, i)))
  {
  }

  lemma TakenAddress(bits: seq<bool>, bits': seq<bool>, addr: nat)
    requires Took(bits, bits', addr) && |bits| < 0x1_0000_0000
    ensures addr + 3 < 0x1_0000_0000_0000_0000
  {
  }

  /** The memory as the page allocator and the page tables share it. */
  ghost predicate InUse(m: PT.Memory, bits: seq<bool>, level: map<nat, nat>) {
    && PT.Tree(m, level, PT.ROOT) && level[PT.ROOT] == 4
    && (forall f :: f in level ==> f < |bits| && bits[f])
    && (forall f :: 0 <= f < |bits| && !bits[f] ==> PT.ZeroFrame(m, f))
  }

  lemma NewTable(m: PT.Memory, m': PT.Memory, bits: seq<bool>, bits': seq<bool>, level: map<nat, nat>, f: nat, i: nat, addr: nat)
    requires InUse(m, bits, level) && |m| == 512 * |bits| && |bits| < 0x1_0000_0000
    requires f in level && level[f] >= 2 && i < 512 && !PT.Present(PT.Word(m, f, i))
    requires Took(bits, bits', addr) && addr + 3 < 0x1_0000_0000_0000_0000
    requires 512 * f + i < |m| && m' == m[512 * f + i := addr + 3]
    ensures InUse(m', bits', level[PageOf(addr) := level[f] - 1])
    ensures Points(m', level[PageOf(addr) := level[f] - 1], f, i, PageOf(addr))
    ensures PT.FrameOf(m'[512 * f + i]) == PageOf(addr) && PT.Word(m', f, i) == 4096 * PageOf(addr) + 3
    ensures Extended(m, level, m', level[PageOf(addr) := level[f] - 1])
    ensures PT.ZeroFrame(m, PageOf(addr)) && PageOf(addr) != f
  {
    var n := PageOf(addr);
    assert PT.TableEntry(n) == addr + 3;
    PT.NewTableKeepsTree(m, m', level, PT.ROOT, f, i, n);
    forall path | |path| == 4 && PT.IsPath(path)
      ensures PT.Lookup(m', PT.ROOT, path) == PT.Lookup(m, PT.ROOT, path)
    {
      PT.NewTableKeepsLookups(m, m', level, PT.ROOT, f, i, n, PT.ROOT, path);
    }
    forall g, j | 0 <= j < 512 && (g != f || j != i) ensures PT.Word(m', g, j) == PT.Word(m, g, j) {
      PT.WordAfterStore(m, f, i, addr + 3, g, j);
    }
  }
}
