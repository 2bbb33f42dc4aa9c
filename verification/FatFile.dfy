/** Files on the volume: directory entries, and what reading, writing and deleting a file mean. */
module FatFile {
  import opened Options
  import opened SectorBytes
  import opened FatVolume
  import opened FatChain

  // ---------------------------------------------------------------------------
  // Directory entries: 32 bytes each, 16 to a sector
  // ---------------------------------------------------------------------------

  /** An entry of a directory: cluster of the directory, sector within it, index within that. */
  datatype Slot = Slot(cluster: nat, sector: nat, index: nat)

  predicate ValidSlot(g: Geometry, slot: Slot) {
    2 <= slot.cluster && slot.sector < g.sectorsPerCluster && slot.index < 16
  }

  function SlotSector(g: Geometry, slot: Slot): nat {
    g.FirstSector(slot.cluster) + slot.sector
  }

  function EntryName(sec: Sector, i: nat): (r: seq<byte>)
    requires i < 16
    ensures |r| == 8
  {
    sec[32 * i..32 * i + 8]
  }

  function EntryCluster(sec: Sector, i: nat): nat
    requires i < 16
  {
    0x1_0000 * U16(sec, 32 * i + 20) + U16(sec, 32 * i + 26)
  }

  function EntrySize(sec: Sector, i: nat): uint32
    requires i < 16
  {
    U32(sec, 32 * i + 28)
  }

  /** The comparison of str_equal_fat: name is a zero-terminated string in a buffer. */
  predicate SameName(stored: seq<byte>, name: seq<byte>)
    requires |stored| == 8 && |name| >= 9
  {
    || (exists k :: 0 <= k < 8 && stored[..k] == name[..k] && stored[k] == 0x20 && name[k] == 0)
    || (stored == name[..8] && name[8] == 0)
  }

  function FindInSector(sec: Sector, name: seq<byte>, i: nat): (r: nat)
    requires |name| >= 9 && i <= 16
    decreases 16 - i
    ensures i <= r <= 16
    ensures r < 16 ==> SameName(EntryName(sec, r), name)
    ensures forall j :: i <= j < r ==> !SameName(EntryName(sec, j), name)
  {
    if i == 16 || SameName(EntryName(sec, i), name) then i else FindInSector(sec, name, i + 1)
  }

  ghost function FindInCluster(g: Geometry, v: Volume, c: nat, s: nat, name: seq<byte>): (r: Option<Slot>)
    requires |name| >= 9 && s <= g.sectorsPerCluster && 2 <= c
    requires g.FirstSector(c) + g.sectorsPerCluster <= |v|
    decreases g.sectorsPerCluster - s
    ensures r.Some? ==> ValidSlot(g, r.value) && r.value.cluster == c && s <= r.value.sector
                        && SameName(EntryName(v[SlotSector(g, r.value)], r.value.index), name)
  {
    if s == g.sectorsPerCluster then None
    else
      var i := FindInSector(v[g.FirstSector(c) + s], name, 0);
      if i < 16 then Some(Slot(c, s, i)) else FindInCluster(g, v, c, s + 1, name)
  }

  ghost predicate OnDisk(g: Geometry, v: Volume, p: seq<nat>) {
    forall i :: 0 <= i < |p| ==> 2 <= p[i] && g.FirstSector(p[i]) + g.sectorsPerCluster <= |v|
  }

  /** The first entry with that name in the directory whose clusters are p. */
  ghost function FindInChain(g: Geometry, v: Volume, p: seq<nat>, name: seq<byte>): (r: Option<Slot>)
    requires |name| >= 9 && OnDisk(g, v, p)
    ensures r.Some? ==> ValidSlot(g, r.value) && r.value.cluster in p
    ensures r.Some? ==> SlotSector(g, r.value) < |v|
                        && SameName(EntryName(v[SlotSector(g, r.value)], r.value.index), name)
  {
    if p == [] then None
    else
      var here := FindInCluster(g, v, p[0], 0, name);
      if here.Some? then here else FindInChain(g, v, p[1..], name)
  }

  lemma ChainOnDisk(g: Geometry, v: Volume, c: nat, p: seq<nat>)
    requires g.Valid(|v|) && IsChain(Table(g, v), c, p)
    ensures OnDisk(g, v, p)
  {
    forall i | 0 <= i < |p| ensures 2 <= p[i] && g.FirstSector(p[i]) + g.sectorsPerCluster <= |v| {
      ChainSuffix(Table(g, v), c, p, i);
      ClusterInside(g, |v|, p[i]);
    }
  }

  // ---------------------------------------------------------------------------
  // Frames
  // ---------------------------------------------------------------------------

  predicate InTable(g: Geometry, n: nat) {
    g.fatStart <= n < g.dataStart
  }

  predicate InCluster(g: Geometry, c: nat, n: nat) {
    g.FirstSector(c) <= n < g.FirstSector(c) + g.sectorsPerCluster
  }

  /** Outside the table and outside the clusters of t, v and w agree. */
  ghost predicate Untouched(g: Geometry, v: Volume, w: Volume, t: seq<nat>) {
    && |w| == |v|
    && forall n :: 0 <= n < |v| && !InTable(g, n) && (forall i :: 0 <= i < |t| ==> !InCluster(g, t[i], n))
                   ==> w[n] == v[n]
  }

  // ---------------------------------------------------------------------------
  // Allocation and extension on the volume
  // ---------------------------------------------------------------------------

  /** Clusters needed for that many bytes; the addition is made in 32 bits. */
  function ClusterCount(g: Geometry, size: uint32): nat
    requires g.sectorsPerCluster > 0
  {
    Quotient((size + g.ClusterBytes() - 1) % 0x1_0000_0000, g.ClusterBytes())
  }

  ghost function ClaimOnVolume(g: Geometry, v: Volume, t: seq<nat>): (r: Volume)
    requires g.Valid(|v|) && Within(t, g.Clusters() + 2)
    ensures |r| == |v|
  {
    if t == [] then v
    else
      var k := |t| - 1;
      var before := ClaimOnVolume(g, v, t[..k]);
      EntryInTable(g, |v|, t[k]);
      var ended := SetEntry(g, before, t[k], 0x0FFF_FFFF);
      if k == 0 then ended
      else
        EntryInTable(g, |v|, t[k - 1]);
        SetEntry(g, ended, t[k - 1], t[k])
  }

  lemma {:induction false} ClaimOnVolumeTable(g: Geometry, v: Volume, t: seq<nat>)
    requires g.Valid(|v|) && Within(t, g.Clusters() + 2)
    ensures Table(g, ClaimOnVolume(g, v, t)) == Claim(Table(g, v), t)
    ensures forall n :: 0 <= n < |v| && !InTable(g, n) ==> ClaimOnVolume(g, v, t)[n] == v[n]
  {
    if t != [] {
      var k := |t| - 1;
      ClaimOnVolumeTable(g, v, t[..k]);
      var before := ClaimOnVolume(g, v, t[..k]);
      SetEntryInTable(g, before, t[k], 0x0FFF_FFFF);
      if k > 0 {
        SetEntryInTable(g, SetEntry(g, before, t[k], 0x0FFF_FFFF), t[k - 1], t[k]);
      }
    }
  }

  ghost function ZeroSectors(g: Geometry, v: Volume, c: nat, s: nat): (r: Volume)
    requires 2 <= c && s <= g.sectorsPerCluster && g.FirstSector(c) + g.sectorsPerCluster <= |v|
    decreases g.sectorsPerCluster - s
    ensures |r| == |v|
    ensures forall n :: 0 <= n < |v| ==>
              r[n] == if g.FirstSector(c) + s <= n < g.FirstSector(c) + g.sectorsPerCluster
                      then ZeroSector() else v[n]
  {
    if s == g.sectorsPerCluster then v
    else ZeroSectors(g, v[g.FirstSector(c) + s := ZeroSector()], c, s + 1)
  }

  /** fat_extend_chain: the new volume, and the new cluster or an end-of-chain mark. */
  ghost function Extend(g: Geometry, v: Volume, prev: nat): (r: (Volume, nat))
    requires g.Valid(|v|) && 2 <= prev < g.Clusters() + 2
    ensures |r.0| == |v|
    ensures FreeList(Table(g, v)) == [] ==> r == (v, 0x0FFF_FFFF)
    ensures FreeList(Table(g, v)) != [] ==>
              && r.1 == FreeList(Table(g, v))[0]
              && r.1 in FreeList(Table(g, v))
              && Table(g, r.0) == Hang(Table(g, v), prev, r.1)
              && Untouched(g, v, r.0, [r.1])
  {
    var fat := Table(g, v);
    if FreeList(fat) == [] then (v, 0x0FFF_FFFF)
    else
      var f := FreeList(fat)[0];
      assert f in FreeList(fat);
      ClusterInside(g, |v|, f);
      SetEntryInTable(g, v, f, 0x0FFF_FFFF);
      var marked := SetEntry(g, v, f, 0x0FFF_FFFF);
      var zeroed := ZeroSectors(g, marked, f, 0);
      DataWriteKeepsTable(g, marked, zeroed);
      SetEntryInTable(g, zeroed, prev, f);
      var linked := SetEntry(g, zeroed, prev, f);
      ExtendFrame(g, v, marked, zeroed, linked, f);
      (linked, f)
  }

  lemma ExtendFrame(g: Geometry, v: Volume, marked: Volume, zeroed: Volume, linked: Volume, f: nat)
    requires |v| == |marked| == |zeroed| == |linked|
    requires forall n :: 0 <= n < |v| && !InTable(g, n) ==> marked[n] == v[n] && linked[n] == zeroed[n]
    requires forall n :: 0 <= n < |v| && !InCluster(g, f, n) ==> zeroed[n] == marked[n]
    ensures Untouched(g, v, linked, [f])
  {
    forall n | 0 <= n < |v| && !InTable(g, n) && (forall i :: 0 <= i < |[f]| ==> !InCluster(g, [f][i], n))
      ensures linked[n] == v[n]
    {
      assert !InCluster(g, [f][0], n);
    }
  }

  lemma ExtendZeroes(g: Geometry, v: Volume, prev: nat, n: nat)
    requires g.Valid(|v|) && 2 <= prev < g.Clusters() + 2 && FreeList(Table(g, v)) != []
    requires InCluster(g, Extend(g, v, prev).1, n) && n < |v|
    ensures Extend(g, v, prev).0[n] == ZeroSector()
  {
    var f := FreeList(Table(g, v))[0];
    assert f in FreeList(Table(g, v));
    ClusterInside(g, |v|, f);
    EntryInTable(g, |v|, prev);
  }

  // ---------------------------------------------------------------------------
  // Writing file contents
  // ---------------------------------------------------------------------------

  /** 512 bytes of data from off on, filled up with zeros. */
  function Chunk(data: seq<byte>, off: nat): Sector {
    seq(512, j requires 0 <= j < 512 => if off + j < |data| then data[off + j] else 0)
  }

  ghost function WriteSectors(g: Geometry, v: Volume, c: nat, s: nat, data: seq<byte>, off: nat): (r: Volume)
    requires 2 <= c && s <= g.sectorsPerCluster && g.FirstSector(c) + g.sectorsPerCluster <= |v|
    decreases g.sectorsPerCluster - s
    ensures |r| == |v|
    ensures forall n :: 0 <= n < |v| && !InCluster(g, c, n) ==> r[n] == v[n]
  {
    if s == g.sectorsPerCluster || off >= |data| then v
    else WriteSectors(g, v[g.FirstSector(c) + s := Chunk(data, off)], c, s + 1, data, off + 512)
  }

  /** The loop of fat_write_data from cluster c on, with off bytes already stored. */
  ghost function WriteFrom(g: Geometry, v: Volume, c: nat, data: seq<byte>, off: nat): (r: Volume)
    requires g.Valid(|v|) && (EndOfChain(c) || 2 <= c < g.Clusters() + 2)
    decreases |data| - off
    ensures |r| == |v|
  {
    if EndOfChain(c) then v
    else
      ClusterInside(g, |v|, c);
      var stored := WriteSectors(g, v, c, 0, data, off);
      if off + g.ClusterBytes() < |data| then
        var (extended, f) := Extend(g, stored, c);
        WriteFrom(g, extended, f, data, off + g.ClusterBytes())
      else stored
  }

  ghost function SetSize(g: Geometry, v: Volume, slot: Slot, size: uint32): (r: Volume)
    requires ValidSlot(g, slot) && SlotSector(g, slot) < |v|
    ensures |r| == |v|
  {
    var n := SlotSector(g, slot);
    v[n := PutU32(v[n], 32 * slot.index + 28, size)]
  }

  ghost function StoredCluster(g: Geometry, v: Volume, slot: Slot): nat
    requires ValidSlot(g, slot) && SlotSector(g, slot) < |v|
  {
    EntryCluster(v[SlotSector(g, slot)], slot.index)
  }

  ghost function StoredSize(g: Geometry, v: Volume, slot: Slot): uint32
    requires ValidSlot(g, slot) && SlotSector(g, slot) < |v|
  {
    EntrySize(v[SlotSector(g, slot)], slot.index)
  }

  // ---------------------------------------------------------------------------
  // Reading file contents
  // ---------------------------------------------------------------------------

  ghost function SectorRun(g: Geometry, v: Volume, c: nat, s: nat): (r: seq<byte>)
    requires 2 <= c && s <= g.sectorsPerCluster && g.FirstSector(c) + g.sectorsPerCluster <= |v|
    decreases g.sectorsPerCluster - s
    ensures |r| == 512 * (g.sectorsPerCluster - s)
  {
    if s == g.sectorsPerCluster then [] else v[g.FirstSector(c) + s] + SectorRun(g, v, c, s + 1)
  }

  /** All bytes of the clusters of p, in order. */
  ghost function ChainBytes(g: Geometry, v: Volume, p: seq<nat>): (r: seq<byte>)
    requires OnDisk(g, v, p)
  {
    if p == [] then [] else SectorRun(g, v, p[0], 0) + ChainBytes(g, v, p[1..])
  }

  lemma {:induction false} ChainBytesLength(g: Geometry, v: Volume, p: seq<nat>)
    requires OnDisk(g, v, p)
    ensures |ChainBytes(g, v, p)| == |p| * g.ClusterBytes()
  {
    if p != [] {
      ChainBytesLength(g, v, p[1..]);
      OneMore(|p[1..]|, g.ClusterBytes());
    }
  }

  lemma OneMore(n: nat, k: nat)
    ensures (n + 1) * k == n * k + k
  {
  }

  /** buf with bytes copied over it from at on. */
  ghost function Overlay(buf: seq<byte>, at: nat, bytes: seq<byte>): (r: seq<byte>)
    requires at + |bytes| <= |buf|
    ensures |r| == |buf|
  {
    buf[..at] + bytes + buf[at + |bytes|..]
  }

  lemma OverlayNothing(buf: seq<byte>, at: nat)
    requires at <= |buf|
    ensures Overlay(buf, at, []) == buf
  {
  }

  lemma OverlayMore(buf: seq<byte>, at: nat, a: seq<byte>, b: seq<byte>)
    requires at + |a| + |b| <= |buf|
    ensures Overlay(Overlay(buf, at, a), at + |a|, b) == Overlay(buf, at, a + b)
  {
  }

  // ---------------------------------------------------------------------------
  // Whole operations
  // ---------------------------------------------------------------------------

  /** The entry that a search for name from directory cluster cwd ends at. */
  ghost function Lookup(g: Geometry, v: Volume, cwd: nat, name: seq<byte>): (r: Option<Slot>)
    requires g.Valid(|v|) && HasChain(Table(g, v), cwd) && |name| >= 9
    ensures r.Some? ==> ValidSlot(g, r.value) && r.value.cluster in ChainOf(Table(g, v), cwd)
    ensures r.Some? ==> g.dataStart <= SlotSector(g, r.value) < |v|
    ensures r.Some? ==> SameName(EntryName(v[SlotSector(g, r.value)], r.value.index), name)
  {
    var p := ChainOf(Table(g, v), cwd);
    ChainOnDisk(g, v, cwd, p);
    var r := FindInChain(g, v, p, name);
    if r.Some? then SlotBehindTable(g, v, cwd, p, r.value); r else r
  }

  lemma SlotBehindTable(g: Geometry, v: Volume, cwd: nat, p: seq<nat>, slot: Slot)
    requires g.Valid(|v|) && IsChain(Table(g, v), cwd, p) && slot.cluster in p
    ensures g.dataStart <= SlotSector(g, slot)
  {
    var i :| 0 <= i < |p| && p[i] == slot.cluster;
    ChainSuffix(Table(g, v), cwd, p, i);
    ClusterInside(g, |v|, p[i]);
  }

  /** fat_write_data on an entry that exists. */
  ghost function WriteFile(g: Geometry, v: Volume, slot: Slot, data: seq<byte>): (r: Volume)
    requires g.Valid(|v|) && ValidSlot(g, slot) && SlotSector(g, slot) < |v| && |data| < 0x1_0000_0000
    requires 2 <= StoredCluster(g, v, slot) < g.Clusters() + 2
    ensures |r| == |v|
  {
    WriteFrom(g, SetSize(g, v, slot, |data|), StoredCluster(g, v, slot), data, 0)
  }

  /** Writing 0 to the table entries of p, one by one. */
  ghost function ClearOnVolume(g: Geometry, v: Volume, p: seq<nat>): (r: Volume)
    requires g.Valid(|v|) && Within(p, g.Clusters() + 2)
    decreases |p|
    ensures |r| == |v|
  {
    if p == [] then v
    else
      EntryInTable(g, |v|, p[0]);
      ClearOnVolume(g, SetEntry(g, v, p[0], 0), p[1..])
  }

  lemma {:induction false} ClearOnVolumeTable(g: Geometry, v: Volume, p: seq<nat>)
    requires g.Valid(|v|) && Within(p, g.Clusters() + 2)
    decreases |p|
    ensures Table(g, ClearOnVolume(g, v, p)) == Clear(Table(g, v), p)
    ensures forall n :: 0 <= n < |v| && !InTable(g, n) ==> ClearOnVolume(g, v, p)[n] == v[n]
  {
    if p != [] {
      SetEntryInTable(g, v, p[0], 0);
      ClearOnVolumeTable(g, SetEntry(g, v, p[0], 0), p[1..]);
    }
  }

  /** The entry's name starts with the byte that marks deleted files. */
  ghost function MarkDeleted(g: Geometry, v: Volume, slot: Slot): (r: Volume)
    requires ValidSlot(g, slot) && SlotSector(g, slot) < |v|
    ensures |r| == |v|
  {
    var n := SlotSector(g, slot);
    v[n := v[n][32 * slot.index := 0xE5]]
  }

  /** What fat_delete_file leaves on disk for an entry whose clusters are p. */
  ghost function DeleteFile(g: Geometry, v: Volume, slot: Slot, p: seq<nat>): (r: Volume)
    requires g.Valid(|v|) && ValidSlot(g, slot) && SlotSector(g, slot) < |v| && Within(p, g.Clusters() + 2)
    ensures |r| == |v|
  {
    ClearOnVolume(g, MarkDeleted(g, v, slot), p)
  }
}
