/** The driver: a disk, one cached table sector with a dirty flag, and the file operations on top. */
module FatDriver {
  import opened Options
  import opened SectorBytes
  import opened FatVolume
  import opened FatChain
  import opened FatFile
  import opened FatLaws
  import opened FatSearch

  const NOTHING_CACHED: nat := 0xFFFF_FFFF

  class Fat32 {
    var disk: Volume
    var g: Geometry
    var cwdCluster: nat
    var cachedNr: nat
    var cacheBuf: array<byte>
    var dirty: bool

    /** The cache holds nothing or a sector of the table. */
    ghost predicate Shape()
      reads this, cacheBuf
    {
      && g.Valid(|disk|)
      && cacheBuf.Length == 512
      && (InTable(g, cachedNr) || (cachedNr == NOTHING_CACHED && !dirty))
    }

    /** In addition, a clean copy equals the disk. */
    ghost predicate Valid()
      reads this, cacheBuf
    {
      Shape() && (InTable(g, cachedNr) && !dirty ==> cacheBuf[..] == disk[cachedNr])
    }

    /** The disk as the driver sees it: with the cached sector in its place. */
    ghost function View(): (v: Volume)
      requires Shape()
      reads this, cacheBuf
      ensures |v| == |disk|
      ensures Valid() && !dirty ==> v == disk
      ensures forall n :: 0 <= n < |disk| && !InTable(g, n) ==> v[n] == disk[n]
    {
      if InTable(g, cachedNr) then disk[cachedNr := cacheBuf[..]] else disk
    }

    // -------------------------------------------------------------------------
    // The cache
    // -------------------------------------------------------------------------

    /** fat_init, from the numbers of the boot sector. */
    constructor (sectors: Volume, reservedSectors: nat, fatCount: nat, fatSize: nat, sectorsPerCluster: nat,
                 totalSectors: nat, rootCluster: nat)
      requires Geometry(2048 + reservedSectors, 2048 + reservedSectors + fatCount * fatSize,
                        sectorsPerCluster, totalSectors).Valid(|sectors|)
      ensures Valid() && !dirty && disk == sectors && cwdCluster == rootCluster && fresh(cacheBuf)
      ensures g == Geometry(2048 + reservedSectors, 2048 + reservedSectors + fatCount * fatSize,
                            sectorsPerCluster, totalSectors)
    {
      disk := sectors;
      var fatStart := 2048 + reservedSectors;
      g := Geometry(fatStart, fatStart + fatCount * fatSize, sectorsPerCluster, totalSectors);
      cwdCluster := rootCluster;
      cachedNr, dirty := NOTHING_CACHED, false;
      cacheBuf := new byte[512](_ => 0);
    }

    method CacheFlush()
      requires Shape()
      modifies this`disk, this`dirty
      ensures Shape() && !dirty && cachedNr == old(cachedNr)
      ensures old(Valid()) ==> Valid() && disk == View() == old(View())
      ensures old(!dirty) ==> disk == old(disk)
    {
      if dirty {
        disk := disk[cachedNr := cacheBuf[..]];
        dirty := false;
      }
    }

    /** Makes the given table sector the cached one; the buffer is read from disk unless that
        sector was cached already. */
    method CacheSector(nr: nat)
      requires Shape() && InTable(g, nr)
      modifies this`disk, this`cachedNr, this`dirty, cacheBuf
      ensures Shape() && cachedNr == nr
      ensures old(Valid()) ==> Valid() && View() == old(View())
      ensures old(!dirty) ==> !dirty && disk == old(disk)
      ensures old(cachedNr) == nr ==> cacheBuf[..] == old(cacheBuf[..])
      ensures old(cachedNr) != nr ==> !dirty && cacheBuf[..] == disk[nr]
    {
      if nr != cachedNr {
        CacheFlush();
        cachedNr := nr;
        var sec := disk[nr];
        forall i | 0 <= i < 512 {
          cacheBuf[i] := sec[i];
        }
        assert cacheBuf[..] == sec;
      }
    }

    /** The entry of cluster c in the cached sector. */
    function CachedEntry(c: nat): uint32
      requires cacheBuf.Length == 512
      reads this, cacheBuf
    {
      U32(cacheBuf[..], g.EntryOffset(c))
    }

    method ReadEntry(c: nat) returns (x: uint32)
      requires Valid() && c < g.Clusters() + 2
      modifies this`disk, this`cachedNr, this`dirty, cacheBuf
      ensures Valid() && View() == old(View()) && cachedNr == g.FatSector(c)
      ensures x == Table(g, View())[c]
      ensures old(!dirty) ==> !dirty && disk == old(disk)
    {
      TableAt(g, View(), c);
      CacheSector(g.FatSector(c));
      x := CachedEntry(c);
    }

    method StoreEntry(c: nat, x: uint32)
      requires Valid() && c < g.Clusters() + 2 && cachedNr == g.FatSector(c)
      modifies this`dirty, cacheBuf
      ensures Valid() && dirty
      ensures g.FatSector(c) < |disk| && View() == SetEntry(g, old(View()), c, x)
    {
      ghost var was := cacheBuf[..];
      EntryInTable(g, |disk|, c);
      var o := g.EntryOffset(c);
      cacheBuf[o], cacheBuf[o + 1] := ByteOf(x, 0), ByteOf(x, 1);
      cacheBuf[o + 2], cacheBuf[o + 3] := ByteOf(x, 2), ByteOf(x, 3);
      dirty := true;
      assert cacheBuf[..] == PutU32(was, o, x);
    }

    method NextCluster(c: nat) returns (r: nat)
      requires Shape() && c < g.Clusters() + 2
      modifies this`disk, this`cachedNr, this`dirty, cacheBuf
      ensures Shape() && cachedNr == g.FatSector(c) && r == CachedEntry(c) % 0x1000_0000
      ensures old(Valid()) ==> Valid() && View() == old(View()) && r == Next(Table(g, View()), c)
      ensures old(!dirty) ==> !dirty && disk == old(disk)
      ensures old(cachedNr) == g.FatSector(c) ==> cacheBuf[..] == old(cacheBuf[..])
      ensures old(cachedNr) != g.FatSector(c) ==> !dirty && g.FatSector(c) < |disk| && cacheBuf[..] == disk[g.FatSector(c)]
    {
      TableAt(g, View(), c);
      CacheSector(g.FatSector(c));
      r := CachedEntry(c) % 0x1000_0000;
    }

    // -------------------------------------------------------------------------
    // Chains
    // -------------------------------------------------------------------------

    /** Claims the lowest free clusters for that many bytes, as far as there are any, and links
        them in order; returns the first one, or 0. */
    method AllocCluster(size: uint32) returns (first: nat)
      requires Valid()
      modifies this`disk, this`cachedNr, this`dirty, cacheBuf
      ensures Valid() && !dirty
      ensures var t := Take(FreeList(Table(g, old(View()))), ClusterCount(g, size));
              && Within(t, g.Clusters() + 2) && disk == ClaimOnVolume(g, old(View()), t)
              && first == (if t == [] then 0 else t[0])
              && LeastCount(g, size, ClusterCount(g, size))
              && Allocated(Table(g, old(View())), Table(g, disk), t, ClusterCount(g, size))
    {
      hide ClaimOnVolume, Table, View, ClusterCount, Take, FreeFrom, SetEntry, Geometry.FatSector, Allocated, LeastCount;
      var count := ClusterCount(g, size);
      ClusterCountSuffices(g, size);
      AllocationEffect(g, View(), size, count);
      var totalClusters := g.Clusters();
      var prev := 0;
      first := 0;
      ghost var v0 := View();
      ghost var fat0 := Table(g, v0);
      ghost var goal := Take(FreeList(fat0), count);
      ghost var taken: seq<nat> := [];
      NothingClaimed(g, v0);
      var i := 2;
      while i < totalClusters + 2 && count > 0
        invariant Valid() && 2 <= i <= totalClusters + 2
        invariant forall k :: 0 <= k < |taken| ==> 2 <= taken[k] < i
        invariant View() == ClaimOnVolume(g, v0, taken)
        invariant count >= 0 && taken + Take(FreeFrom(fat0, i), count) == goal
        invariant prev == (if taken == [] then 0 else taken[|taken| - 1])
        invariant first == (if taken == [] then 0 else taken[0])
      {
        var entry := ReadEntry(i);
        ClaimedEntry(g, v0, taken, i);
        TakeOne(fat0, taken, i, count);
        if entry == 0 {
          if first == 0 { first := i; }
          ClaimCluster(i, prev, v0, taken);
          taken := taken + [i];
          prev := i;
          count := count - 1;
        }
        i := i + 1;
      }
      TakeDone(fat0, taken, i, count);
      CacheFlush();
    }

    /** Marks cluster i as the end of a chain and links it from prev, unless prev is 0. */
    method ClaimCluster(i: nat, prev: nat, ghost v0: Volume, ghost taken: seq<nat>)
      requires Valid() && g.Valid(|v0|) && 2 <= i < g.Clusters() + 2 && cachedNr == g.FatSector(i)
      requires Within(taken, g.Clusters() + 2) && View() == ClaimOnVolume(g, v0, taken)
      requires prev == if taken == [] then 0 else taken[|taken| - 1]
      modifies this`disk, this`cachedNr, this`dirty, cacheBuf
      ensures Valid() && Within(taken + [i], g.Clusters() + 2)
      ensures View() == ClaimOnVolume(g, v0, taken + [i])
    {
      hide View, SetEntry;
      assert (taken + [i])[..|taken|] == taken;
      StoreEntry(i, 0x0FFF_FFFF);
      if prev != 0 {
        EntryInTable(g, |disk|, prev);
        CacheSector(g.FatSector(prev));
        StoreEntry(prev, i);
      }
    }

    /** Writes a sector behind the table straight to the disk. */
    method WriteDataSector(lba: nat, sec: Sector)
      requires Shape() && g.dataStart <= lba < |disk|
      modifies this`disk
      ensures Shape() && View() == old(View())[lba := sec] && disk == old(disk)[lba := sec]
      ensures old(Valid()) ==> Valid()
    {
      disk := disk[lba := sec];
    }

    /** The source's formula for the first sector of a cluster. */
    function SectorOfCluster(c: nat): (n: nat)
      requires c >= 2
      reads this
      ensures n == g.FirstSector(c)
    {
      FirstSectorFormula(g, c);
      g.dataStart + (c - 2) * g.sectorsPerCluster
    }

    method ZeroCluster(c: nat)
      requires Valid() && 2 <= c < g.Clusters() + 2
      modifies this`disk
      ensures Valid() && |disk| == old(|disk|) && g.FirstSector(c) + g.sectorsPerCluster <= |disk|
      ensures View() == ZeroSectors(g, old(View()), c, 0)
    {
      hide View, SectorOfCluster;
      ClusterInside(g, |disk|, c);
      var base := SectorOfCluster(c);
      ghost var v0 := View();
      var s := 0;
      while s < g.sectorsPerCluster
        invariant 0 <= s <= g.sectorsPerCluster && Valid() && |disk| == |v0|
        invariant ZeroSectors(g, View(), c, s) == ZeroSectors(g, v0, c, 0)
      {
        WriteDataSector(base + s, ZeroSector());
        s := s + 1;
      }
    }

    /** Hangs the lowest free cluster, zeroed, behind prev; an end-of-chain mark if none is free. */
    method ExtendChain(prev: nat) returns (c: nat)
      requires Valid() && 2 <= prev < g.Clusters() + 2
      modifies this`disk, this`cachedNr, this`dirty, cacheBuf
      ensures Valid() && (View(), c) == Extend(g, old(View()), prev)
      ensures old(!dirty) || !EndOfChain(c) ==> !dirty && disk == View()
    {
      hide View, Table, ZeroSectors;
      var totalClusters := g.Clusters();
      var newCluster := 0;
      ghost var v0 := View();
      ghost var fat0 := Table(g, v0);
      var i := 2;
      while i < totalClusters + 2
        invariant Valid() && 2 <= i <= totalClusters + 2 && newCluster == 0
        invariant View() == v0 && FreeFrom(fat0, i) == FreeList(fat0)
        invariant old(!dirty) ==> !dirty
      {
        var entry := ReadEntry(i);
        if entry == 0 {
          newCluster := i;
          StoreEntry(i, 0x0FFF_FFFF);
          CacheFlush();
          ZeroCluster(i);
          break;
        }
        i := i + 1;
      }
      if newCluster == 0 {
        return 0x0FFF_FFFF;
      }
      EntryInTable(g, |disk|, prev);
      CacheSector(g.FatSector(prev));
      StoreEntry(prev, newCluster);
      CacheFlush();
      return newCluster;
    }

    // -------------------------------------------------------------------------
    // Searching the directory
    // -------------------------------------------------------------------------

    static method StrEqualFat(stored: seq<byte>, name: seq<byte>) returns (equal: bool)
      requires |stored| == 8 && |name| >= 9
      ensures equal == SameName(stored, name)
    {
      var i := 0;
      while i < 8
        invariant 0 <= i <= 8 && stored[..i] == name[..i]
        invariant forall k :: 0 <= k < i ==> !(stored[k] == 0x20 && name[k] == 0)
      {
        if stored[i] == 0x20 && name[i] == 0 { return true; }
        if stored[i] != name[i] {
          NoMatch(stored, name, i);
          return false;
        }
        i := i + 1;
      }
      assert stored == stored[..8];
      return name[8] == 0;
    }

    static lemma NoMatch(stored: seq<byte>, name: seq<byte>, i: nat)
      requires |stored| == 8 && |name| >= 9 && i < 8 && stored[i] != name[i]
      requires forall k :: 0 <= k <= i ==> !(stored[k] == 0x20 && name[k] == 0)
      ensures !SameName(stored, name)
    {
    }

    /** Index of the first entry with that name in a directory sector, or 16. */
    static method SearchSector(sec: Sector, name: seq<byte>, from: nat) returns (i: nat)
      requires |name| >= 9 && from <= 16
      ensures i == FindInSector(sec, name, from)
    {
      i := from;
      while i < 16
        invariant from <= i <= 16 && FindInSector(sec, name, i) == FindInSector(sec, name, from)
      {
        var equal := StrEqualFat(EntryName(sec, i), name);
        if equal { return; }
        i := i + 1;
      }
    }

    method SearchCluster(c: nat, name: seq<byte>) returns (slot: Option<Slot>)
      requires Shape() && |name| >= 9 && 2 <= c < g.Clusters() + 2
      ensures g.FirstSector(c) + g.sectorsPerCluster <= |disk|
      ensures slot == FindInCluster(g, View(), c, 0, name)
    {
      hide View, SectorOfCluster, FindInSector;
      ClusterInside(g, |disk|, c);
      var base := SectorOfCluster(c);
      var s := 0;
      while s < g.sectorsPerCluster
        invariant 0 <= s <= g.sectorsPerCluster
        invariant FindInCluster(g, View(), c, s, name) == FindInCluster(g, View(), c, 0, name)
      {
        var i := SearchSector(disk[base + s], name, 0);
        if i < 16 { return Some(Slot(c, s, i)); }
        s := s + 1;
      }
      return None;
    }

    /** The search that reading, writing and deleting a file start with. */
    method FindEntry(name: seq<byte>) returns (slot: Option<Slot>)
      requires Valid() && |name| >= 9
      requires HasChain(Table(g, View()), cwdCluster) && InUse(Table(g, View()), cwdCluster)
      modifies this`disk, this`cachedNr, this`dirty, cacheBuf
      ensures Valid() && View() == old(View()) && slot == Lookup(g, View(), cwdCluster, name)
      ensures var d := ChainOf(Table(g, View()), cwdCluster);
              if slot.Some? then FirstMatch(g, View(), d, name, slot.value)
              else forall s: Slot :: s.cluster in d ==> !Matches(g, View(), s, name)
      ensures old(!dirty) ==> !dirty && disk == old(disk)
    {
      hide View, Table, FindInCluster, FirstMatch, Matches;
      ghost var v0 := View();
      LookupIff(g, v0, cwdCluster, name);
      ghost var fat := Table(g, v0);
      ghost var p := ChainOf(fat, cwdCluster);
      ChainOnDisk(g, v0, cwdCluster, p);
      var current := cwdCluster;
      ghost var k := 0;
      assert p[0..] == p;
      while true
        invariant Valid() && View() == v0
        invariant 0 <= k < |p| && current == p[k]
        invariant FindInChain(g, v0, p[k..], name) == FindInChain(g, v0, p, name)
        invariant old(!dirty) ==> !dirty && disk == old(disk)
        decreases |p| - k
      {
        ChainSuffix(fat, cwdCluster, p, k);
        assert p[k..][0] == p[k] && p[k..][1..] == p[k + 1..];
        slot := SearchCluster(current, name);
        if slot.Some? { return; }
        var next := NextCluster(current);
        if next >= 0x0FFF_FFF8 { return; }
        current := next;
        k := k + 1;
      }
    }

    // -------------------------------------------------------------------------
    // Reading and writing files
    // -------------------------------------------------------------------------

    static method CopySector(sec: Sector, buf: array<byte>, at: nat)
      requires at + 512 <= buf.Length
      modifies buf
      ensures buf[..] == Overlay(old(buf[..]), at, sec)
    {
      forall j | 0 <= j < 512 {
        buf[at + j] := sec[j];
      }
    }

    /** Copies a cluster into buf from offset on. */
    method ReadCluster(c: nat, buf: array<byte>, offset: nat)
      requires Shape() && buf != cacheBuf && 2 <= c < g.Clusters() + 2
      requires offset + g.ClusterBytes() <= buf.Length
      modifies buf
      ensures g.FirstSector(c) + g.sectorsPerCluster <= |disk|
      ensures buf[..] == Overlay(old(buf[..]), offset, SectorRun(g, View(), c, 0))
    {
      hide View, SectorOfCluster, Quotient, Overlay, SectorRun, Geometry.FirstSector;
      ClusterInside(g, |disk|, c);
      var base := SectorOfCluster(c);
      ghost var was, v := buf[..], View();
      ghost var run, done: seq<byte> := SectorRun(g, v, c, 0), [];
      OverlayNothing(was, offset);
      var s := 0;
      while s < g.sectorsPerCluster
        invariant 0 <= s <= g.sectorsPerCluster && |done| == 512 * s
        invariant done + SectorRun(g, v, c, s) == run
        invariant buf[..] == Overlay(was, offset, done)
      {
        var sec := disk[base + s];
        RunStep(g, v, c, s, done);
        CopySector(sec, buf, offset + 512 * s);
        OverlayMore(was, offset, done, sec);
        done := done + sec;
        s := s + 1;
      }
      RunEnd(g, v, c, s, done);
    }

    static lemma RunStep(g: Geometry, v: Volume, c: nat, s: nat, done: seq<byte>)
      requires 2 <= c && s < g.sectorsPerCluster && g.FirstSector(c) + g.sectorsPerCluster <= |v|
      ensures done + SectorRun(g, v, c, s) == done + v[g.FirstSector(c) + s] + SectorRun(g, v, c, s + 1)
    {
    }

    static lemma RunEnd(g: Geometry, v: Volume, c: nat, s: nat, done: seq<byte>)
      requires 2 <= c && s == g.sectorsPerCluster && g.FirstSector(c) + g.sectorsPerCluster <= |v|
      ensures done + SectorRun(g, v, c, s) == done
    {
    }

    /** What a caller of fat_read_file must provide: a chain to follow and room for all of it. */
    ghost predicate Readable(name: seq<byte>, room: nat)
      requires Valid() && |name| >= 9 && HasChain(Table(g, View()), cwdCluster)
      reads this, cacheBuf
    {
      var slot := Lookup(g, View(), cwdCluster, name);
      slot.Some? && StoredSize(g, View(), slot.value) != 0 ==>
        && HasChain(Table(g, View()), StoredCluster(g, View(), slot.value))
        && |ChainOf(Table(g, View()), StoredCluster(g, View(), slot.value))| * g.ClusterBytes() <= room
    }

    /** Reads the whole chain of the file into buf; size 0 and an untouched buffer if there is no
        such file or it is empty. */
    method ReadFile(name: seq<byte>, buf: array<byte>) returns (size: uint32)
      requires Valid() && |name| >= 9 && buf != cacheBuf
      requires HasChain(Table(g, View()), cwdCluster) && InUse(Table(g, View()), cwdCluster)
      requires Readable(name, buf.Length)
      modifies this`disk, this`cachedNr, this`dirty, cacheBuf, buf
      ensures Valid() && View() == old(View())
      ensures old(!dirty) ==> !dirty && disk == old(disk)
      ensures var v, slot := View(), Lookup(g, View(), cwdCluster, name);
              && size == (if slot.None? then 0 else StoredSize(g, v, slot.value))
              && (size == 0 ==> buf[..] == old(buf[..]))
              && (size != 0 ==>
                    var q := ChainOf(Table(g, v), StoredCluster(g, v, slot.value));
                    && OnDisk(g, v, q) && |ChainBytes(g, v, q)| <= buf.Length
                    && buf[..] == Overlay(old(buf[..]), 0, ChainBytes(g, v, q)))
    {
      hide View, Table;
      ghost var v := View();
      var slot := FindEntry(name);
      if slot.None? { return 0; }
      var sec := disk[SlotSector(g, slot.value)];
      var c := EntryCluster(sec, slot.value.index);
      size := EntrySize(sec, slot.value.index);
      if size == 0 { return; }
      ghost var q := ChainOf(Table(g, v), c);
      ChainOnDisk(g, v, c, q);
      ChainBytesLength(g, v, q);
      ReadChain(c, q, buf);
    }

    method ReadChain(first: nat, ghost q: seq<nat>, buf: array<byte>)
      requires Valid() && buf != cacheBuf && IsChain(Table(g, View()), first, q)
      requires OnDisk(g, View(), q) && |ChainBytes(g, View(), q)| <= buf.Length
      modifies this`disk, this`cachedNr, this`dirty, cacheBuf, buf
      ensures Valid() && View() == old(View())
      ensures old(!dirty) ==> !dirty && disk == old(disk)
      ensures OnDisk(g, View(), q) && |ChainBytes(g, View(), q)| <= buf.Length
      ensures buf[..] == Overlay(old(buf[..]), 0, ChainBytes(g, View(), q))
    {
      hide View, Table, Quotient, SectorRun, Overlay, ChainBytes;
      ghost var v, was := View(), buf[..];
      ghost var fat := Table(g, v);
      var c: nat, offset: nat := first, 0;
      ghost var k, done: seq<byte> := 0, [];
      assert q[0..] == q;
      OverlayNothing(was, 0);
      while c < 0x0FFF_FFF8
        invariant Valid() && View() == v
        invariant old(!dirty) ==> !dirty && disk == old(disk)
        invariant 0 <= k <= |q| && IsChain(fat, c, q[k..])
        invariant |done| == offset && done + ChainBytes(g, v, q[k..]) == ChainBytes(g, v, q)
        invariant buf[..] == Overlay(was, 0, done)
        decreases |q| - k
      {
        ChainSuffix(fat, c, q[k..], 0);
        assert q[k..][1..] == q[k + 1..];
        ghost var run := SectorRun(g, v, c, 0);
        NextRun(g, v, q[k..], done);
        ReadCluster(c, buf, offset);
        OverlayMore(was, 0, done, run);
        done := done + run;
        offset := offset + g.ClusterBytes();
        c := NextCluster(c);
        k := k + 1;
      }
      NoMoreRuns(g, v, q[k..], done);
    }

    static lemma NextRun(g: Geometry, v: Volume, q: seq<nat>, done: seq<byte>)
      requires OnDisk(g, v, q) && q != []
      ensures OnDisk(g, v, q[1..]) && done + ChainBytes(g, v, q) == done + SectorRun(g, v, q[0], 0) + ChainBytes(g, v, q[1..])
    {
    }

    static lemma NoMoreRuns(g: Geometry, v: Volume, q: seq<nat>, done: seq<byte>)
      requires q == []
      ensures done + ChainBytes(g, v, q) == done
    {
    }

    /** Stores data in the clusters of an existing file, extending its chain where needed. */
    method WriteData(name: seq<byte>, data: seq<byte>)
      requires Valid() && |name| >= 9 && |data| < 0x1_0000_0000 - 512
      requires HasChain(Table(g, View()), cwdCluster) && InUse(Table(g, View()), cwdCluster)
      requires var slot := Lookup(g, View(), cwdCluster, name);
               slot.Some? && 2 <= StoredCluster(g, View(), slot.value) < g.Clusters() + 2
      modifies this`disk, this`cachedNr, this`dirty, cacheBuf
      ensures Valid() && (old(!dirty) ==> !dirty)
      ensures View() == WriteFile(g, old(View()), Lookup(g, old(View()), cwdCluster, name).value, data)
    {
      hide View, Table, WriteFrom, FirstMatch, Matches, SameName;
      var slot := FindEntry(name);
      var n := SlotSector(g, slot.value);
      var sec := disk[n];
      var c := EntryCluster(sec, slot.value.index);
      WriteDataSector(n, PutU32(sec, 32 * slot.value.index + 28, |data|));
      WriteClusters(c, data);
    }

    method WriteClusters(first: nat, data: seq<byte>)
      requires Valid() && 2 <= first < g.Clusters() + 2
      modifies this`disk, this`cachedNr, this`dirty, cacheBuf
      ensures Valid() && (old(!dirty) ==> !dirty)
      ensures View() == WriteFrom(g, old(View()), first, data, 0)
    {
      hide View, Table, Extend, WriteSectors;
      ghost var goal := WriteFrom(g, View(), first, data, 0);
      var c: nat, offset: nat := first, 0;
      while c < 0x0FFF_FFF8
        invariant Valid() && (old(!dirty) ==> !dirty)
        invariant EndOfChain(c) || 2 <= c < g.Clusters() + 2
        invariant WriteFrom(g, View(), c, data, offset) == goal
        decreases !EndOfChain(c), |data| - offset
      {
        var stored := WriteCluster(c, data, offset);
        if offset + stored < |data| {
          c := ExtendChain(c);
          offset := offset + stored;
        } else {
          break;
        }
      }
    }

    /** One cluster of data; returns the number of bytes stored. */
    method WriteCluster(c: nat, data: seq<byte>, offset: nat) returns (stored: nat)
      requires Valid() && 2 <= c < g.Clusters() + 2
      modifies this`disk
      ensures Valid() && |disk| == old(|disk|) && g.FirstSector(c) + g.sectorsPerCluster <= |disk|
      ensures View() == WriteSectors(g, old(View()), c, 0, data, offset)
      ensures offset + stored < |data| ==> stored == g.ClusterBytes()
      ensures offset + g.ClusterBytes() < |data| ==> stored == g.ClusterBytes()
    {
      hide View, SectorOfCluster;
      ClusterInside(g, |disk|, c);
      var base := SectorOfCluster(c);
      ghost var v0 := View();
      stored := 0;
      var s := 0;
      while s < g.sectorsPerCluster
        invariant 0 <= s <= g.sectorsPerCluster && stored == 512 * s && Valid() && |disk| == |v0|
        invariant WriteSectors(g, View(), c, s, data, offset + stored) == WriteSectors(g, v0, c, 0, data, offset)
      {
        if offset + stored >= |data| { break; }
        WriteDataSector(base + s, Chunk(data, offset + stored));
        stored := stored + 512;
        s := s + 1;
      }
    }

    /** Saving a file and opening it again gives back the same bytes, if enough clusters are free
        and the reader's buffer holds the chain. */
    method SaveAndReload(name: seq<byte>, data: seq<byte>, buf: array<byte>, ghost slot: Slot) returns (size: uint32)
      requires Valid() && |data| < 0x1_0000_0000 - 512 && buf != cacheBuf
      requires InUse(Table(g, View()), cwdCluster) && Writable(g, View(), cwdCluster, name, slot)
      requires MoreClusters(|data|, g.ClusterBytes()) <= |FreeList(Table(g, View()))|
      requires |ChainAfter(g, View(), slot, |data|)| * g.ClusterBytes() <= buf.Length
      modifies this`disk, this`cachedNr, this`dirty, cacheBuf, buf
      ensures Valid() && View() == WriteFile(g, old(View()), slot, data)
      ensures size == |data| <= buf.Length && buf[..size] == data
    {
      hide View, Table, WriteFile, Part, MoreClusters, FreeFrom, ChainAfter, Room, Quotient;
      ghost var v := View();
      WriteThenRead(g, v, cwdCluster, name, slot, data);
      WrittenBytes(g, v, slot, data);
      WholeDataIffEnoughFree(g, v, slot, data);
      WriteData(name, data);
      size := ReadFile(name, buf);
      if size != 0 {
        ReadPrefix(ChainBytes(g, View(), ChainOf(Table(g, View()), StoredCluster(g, View(), slot))), data, buf[..]);
      }
    }

    static lemma ReadPrefix(bytes: seq<byte>, data: seq<byte>, buf: seq<byte>)
      requires StartsWith(bytes, data)
      ensures |bytes| <= |buf| && buf[..|bytes|] == bytes ==> |data| <= |buf| && buf[..|data|] == data
    {
    }

    // -------------------------------------------------------------------------
    // Deleting files
    // -------------------------------------------------------------------------

    /** Every cached entry is the disk's, except possibly those of clusters in freed. */
    ghost predicate StaleAtMost(freed: seq<nat>)
      reads this, cacheBuf
    {
      && Shape() && !dirty
      && forall c :: 0 <= c < g.Clusters() + 2 && g.FatSector(c) == cachedNr && c !in freed
                     ==> CachedEntry(c) == Table(g, disk)[c]
    }

    /** Deletes the file: on disk, exactly the entries of its chain become 0 and its directory entry
        is marked. The table is written past the cache: the cached sector differs from the disk at
        most in freed entries, and it does differ unless the chain was empty. */
    method Delete(name: seq<byte>, ghost p: seq<nat>) returns (found: bool)
      requires Valid() && !dirty && |name| >= 9
      requires HasChain(Table(g, disk), cwdCluster) && InUse(Table(g, disk), cwdCluster)
      requires var slot := Lookup(g, disk, cwdCluster, name);
               slot.Some? ==>
                 && IsChain(Table(g, disk), StoredCluster(g, disk, slot.value), p)
                 && FindInSector(disk[SlotSector(g, slot.value)], name, slot.value.index + 1) == 16
      modifies this`disk, this`cachedNr, this`dirty, cacheBuf
      ensures found == Lookup(g, old(disk), cwdCluster, name).Some?
      ensures !found ==> Valid() && !dirty && disk == old(disk)
      ensures found ==>
                && Freeing(Table(g, old(disk)), p, |p|)
                && disk == DeleteFile(g, old(disk), Lookup(g, old(disk), cwdCluster, name).value, p)
                && (Valid() <==> p == [])
    {
      hide Table, Quotient, Lookup, FindInSector, ClearOnVolume, View, Freeing, SameName, Clear;
      ghost var v := disk;
      var slot := FindEntry(name);
      found := slot.Some?;
      if !found { return; }
      var n, j := SlotSector(g, slot.value), slot.value.index;
      var sec := disk[n];
      ghost var fat := Table(g, v);
      ChainWithin(fat, StoredCluster(g, v, slot.value), p);
      var first := EntryCluster(sec, j);
      sec := sec[32 * j := 0xE5];
      WriteDataSector(n, sec);
      MarkKeepsTable(g, v, slot.value);
      assert disk == MarkDeleted(g, v, slot.value);
      FreeChain(first, p);
      RestOfSector(v[n], sec, name, j);
      var again := SearchSector(sec, name, j + 1);
      assert again == 16;
      if p != [] {
        LastFreed(fat, StoredCluster(g, v, slot.value), p);
        StaleCopy(p[|p| - 1]);
      }
    }

    /** After a non-empty chain was freed, the cached sector differs from the disk. */
    lemma StaleCopy(c: nat)
      requires Shape() && c < g.Clusters() + 2 && g.FatSector(c) == cachedNr && !dirty
      requires CachedEntry(c) != Table(g, disk)[c]
      ensures !Valid()
    {
      TableAt(g, disk, c);
    }

    lemma LastFreed(fat: Fat, c: nat, p: seq<nat>)
      requires Freeing(fat, p, |p|) && IsChain(fat, c, p) && p != []
      ensures var last := p[|p| - 1];
              && last < g.Clusters() + 2 && Shape() && !dirty
              && g.FatSector(last) == cachedNr && CachedEntry(last) != Table(g, disk)[last]
    {
      ChainSuffix(fat, c, p, |p| - 1);
      assert p[|p| - 1] in p[..|p|];
    }

    lemma RestOfSector(was: Sector, sec: Sector, name: seq<byte>, j: nat)
      requires j < 16 && |name| >= 9 && sec == was[32 * j := 0xE5]
      ensures FindInSector(sec, name, j + 1) == FindInSector(was, name, j + 1)
    {
      SameFrom(was, sec, name, j + 1);
    }

    lemma {:induction false} SameFrom(a: Sector, b: Sector, name: seq<byte>, i: nat)
      requires i <= 16 && |name| >= 9 && forall k :: 32 * i <= k < 512 ==> a[k] == b[k]
      ensures FindInSector(b, name, i) == FindInSector(a, name, i)
      decreases 16 - i
    {
      if i < 16 {
        assert EntryName(a, i) == EntryName(b, i);
        SameFrom(a, b, name, i + 1);
      }
    }

    /** While a chain p of the table fat is being freed: the first k entries are 0 on disk, and the
        cached sector still has the last one of them. */
    ghost predicate Freeing(fat: Fat, p: seq<nat>, k: nat)
      reads this, cacheBuf
    {
      && Shape() && |fat| == g.Clusters() + 2 && Within(p, |fat|) && k <= |p|
      && StaleAtMost(p[..k])
      && (forall x :: 0 <= x < |fat| ==> Table(g, disk)[x] == if x in p[..k] then 0 else fat[x])
      && (k > 0 ==> cachedNr == g.FatSector(p[k - 1]) && CachedEntry(p[k - 1]) == fat[p[k - 1]])
    }

    lemma NothingFreed(p: seq<nat>)
      requires Valid() && !dirty && Within(p, g.Clusters() + 2)
      ensures Freeing(Table(g, disk), p, 0)
    {
      forall c | 0 <= c < g.Clusters() + 2 && g.FatSector(c) == cachedNr ensures CachedEntry(c) == Table(g, disk)[c] {
        TableAt(g, disk, c);
      }
    }

    /** The loop of fat_delete_file: follow the chain through the cache, write zeros to the disk. */
    method FreeChain(first: nat, ghost p: seq<nat>)
      requires Valid() && !dirty && IsChain(Table(g, disk), first, p) && Within(p, g.Clusters() + 2)
      modifies this`disk, this`cachedNr, this`dirty, cacheBuf
      ensures Freeing(Table(g, old(disk)), p, |p|) && disk == ClearOnVolume(g, old(disk), p)
      ensures p == [] ==> Valid()
    {
      hide Quotient, Table, View, Freeing, StaleAtMost;
      ghost var v := disk;
      ghost var fat := Table(g, v);
      var c: nat := first;
      ChainWithin(fat, first, p);
      ghost var k := 0;
      assert p[0..] == p && p[..0] == [];
      NothingFreed(p);
      while c < 0x0FFF_FFF8
        invariant 0 <= k <= |p| && IsChain(fat, c, p[k..])
        invariant Freeing(fat, p, k) && |disk| == |v|
        invariant ClearOnVolume(g, disk, p[k..]) == ClearOnVolume(g, v, p)
        invariant k == 0 ==> Valid()
        decreases |p| - k
      {
        ChainSuffix(fat, c, p[k..], 0);
        assert p[k..][1..] == p[k + 1..];
        c := FreeOne(c, fat, p, k);
        k := k + 1;
      }
      assert p[k..] == [];
    }

    method FreeOne(c: nat, ghost fat: Fat, ghost p: seq<nat>, ghost k: nat) returns (next: nat)
      requires Freeing(fat, p, k) && k < |p| && c == p[k] && c < |fat| && Distinct(p)
      modifies this`disk, this`cachedNr, this`dirty, cacheBuf
      ensures Freeing(fat, p, k + 1) && Shape() && next == Next(fat, c)
      ensures g.FatSector(c) < |disk| == old(|disk|) && disk == SetEntry(g, old(disk), c, 0)
    {
      hide Quotient, Table, View;
      ghost var v := disk;
      TableAt(g, v, c);
      next := NextCluster(c);
      SetEntryInTable(g, v, c, 0);
      var sec := disk[g.FatSector(c)];
      forall x | 0 <= x < |fat| && g.FatSector(x) == cachedNr && x !in p[..k] ensures CachedEntry(x) == fat[x] {
        TableAt(g, v, x);
      }
      disk := disk[g.FatSector(c) := PutU32(sec, g.EntryOffset(c), 0)];
      hide Freeing;
      OneMoreFreed(v, fat, p, k);
    }

    /** The entry of p[k] has become 0 on disk, and the cached sector still has it. */
    lemma OneMoreFreed(v: Volume, fat: Fat, p: seq<nat>, k: nat)
      requires Shape() && !dirty && g.Valid(|v|) && |fat| == g.Clusters() + 2 && Within(p, |fat|) && Distinct(p) && k < |p|
      requires Table(g, disk) == Table(g, v)[p[k] := 0] && cachedNr == g.FatSector(p[k])
      requires forall x :: 0 <= x < |fat| ==> Table(g, v)[x] == if x in p[..k] then 0 else fat[x]
      requires forall x :: 0 <= x < |fat| && g.FatSector(x) == cachedNr && x !in p[..k] ==> CachedEntry(x) == fat[x]
      ensures Freeing(fat, p, k + 1)
    {
      hide Quotient, Table, CachedEntry;
      assert p[..k + 1] == p[..k] + [p[k]] && p[k] !in p[..k];
    }
  }
}
