/** What a write or a deletion leaves of the other files of the directory, found by their names. */
module FatNames {
  import opened Options
  import opened SectorBytes
  import opened FatVolume
  import opened FatChain
  import opened FatFile
  import opened FatLaws

  /** All 32 bytes of an entry. */
  function EntryBytes(sec: Sector, i: nat): seq<byte>
    requires i < 16
  {
    sec[32 * i..32 * i + 32]
  }

  lemma FieldsOfBytes(a: Sector, b: Sector, i: nat)
    requires i < 16 && EntryBytes(a, i) == EntryBytes(b, i)
    ensures EntryName(a, i) == EntryName(b, i) && EntryCluster(a, i) == EntryCluster(b, i)
    ensures EntrySize(a, i) == EntrySize(b, i)
  {
    assert forall k :: 32 * i <= k < 32 * i + 32 ==> a[k] == EntryBytes(a, i)[k - 32 * i];
    assert forall k :: 32 * i <= k < 32 * i + 32 ==> b[k] == EntryBytes(b, i)[k - 32 * i];
    assert EntryName(a, i) == EntryBytes(a, i)[..8] && EntryName(b, i) == EntryBytes(b, i)[..8];
  }

  /** Different entries lie in different sectors or at different places of one. */
  lemma SlotsApart(g: Geometry, a: Slot, b: Slot)
    requires ValidSlot(g, a) && ValidSlot(g, b) && a != b && SlotSector(g, a) == SlotSector(g, b)
    ensures a.index != b.index
  {
    if a.cluster != b.cluster {
      ClustersApart(g, a.cluster, b.cluster, a.sector, b.sector);
    }
  }

  /** v and w agree on all 32 bytes of that entry. */
  ghost predicate SameEntry(g: Geometry, v: Volume, w: Volume, slot: Slot) {
    && ValidSlot(g, slot) && SlotSector(g, slot) < |v| && |w| == |v|
    && EntryBytes(w[SlotSector(g, slot)], slot.index) == EntryBytes(v[SlotSector(g, slot)], slot.index)
  }

  lemma SameEntryFields(g: Geometry, v: Volume, w: Volume, slot: Slot)
    requires SameEntry(g, v, w, slot)
    ensures StoredCluster(g, w, slot) == StoredCluster(g, v, slot) && StoredSize(g, w, slot) == StoredSize(g, v, slot)
    ensures EntryName(w[SlotSector(g, slot)], slot.index) == EntryName(v[SlotSector(g, slot)], slot.index)
  {
    FieldsOfBytes(w[SlotSector(g, slot)], v[SlotSector(g, slot)], slot.index);
  }

  /** A file keeps its first cluster, its size, its chain and its bytes. */
  ghost predicate SameFile(g: Geometry, v: Volume, w: Volume, slot: Slot) {
    && g.Valid(|v|) && |w| == |v| && ValidSlot(g, slot) && SlotSector(g, slot) < |v|
    && StoredCluster(g, w, slot) == StoredCluster(g, v, slot) && StoredSize(g, w, slot) == StoredSize(g, v, slot)
  }

  ghost predicate SameContents(g: Geometry, v: Volume, w: Volume, q: seq<nat>, c: nat) {
    && g.Valid(|v|) && g.Valid(|w|) && OnDisk(g, v, q) && OnDisk(g, w, q)
    && IsChain(Table(g, w), c, q) && ChainBytes(g, w, q) == ChainBytes(g, v, q)
  }

  // ---------------------------------------------------------------------------
  // Write
  // ---------------------------------------------------------------------------

  lemma SizeLeavesOthers(sec: Sector, index: nat, size: uint32, other: nat)
    requires index < 16 && other < 16 && other != index
    ensures EntryBytes(PutU32(sec, 32 * index + 28, size), other) == EntryBytes(sec, other)
  {
  }

  /** A write leaves every other entry of its directory as it is, byte for byte. */
  lemma WriteKeepsOtherEntries(g: Geometry, v: Volume, cwd: nat, name: seq<byte>, slot: Slot, data: seq<byte>,
                               other: Slot)
    requires Writable(g, v, cwd, name, slot) && |data| < 0x1_0000_0000
    requires ValidSlot(g, other) && other.cluster in ChainOf(Table(g, v), cwd) && other != slot
    ensures SameEntry(g, v, WriteFile(g, v, slot, data), other)
  {
    hide WriteFile, Lookup, DataClusters, Table, HangAll, EntryBytes;
    var fat, p := Table(g, v), ChainOf(Table(g, v), cwd);
    var v1, w := SetSize(g, v, slot, |data|), WriteFile(g, v, slot, data);
    var t, n := DataClusters(g, v, slot, |data|), SlotSector(g, other);
    WriteEffect(g, v, slot, data);
    SetSizeEffect(g, v, slot, |data|);
    AvoidedChainStays(g, v1, w, t, data, cwd, p);
    ChainWithin(fat, cwd, p);
    ClusterInside(g, |v|, other.cluster);
    ClusterSectorsKept(g, v1, w, t, other.cluster);
    assert InCluster(g, other.cluster, n) && w[n] == v1[n];
    if n == SlotSector(g, slot) {
      SlotsApart(g, slot, other);
      SizeLeavesOthers(v[n], slot.index, |data|, other.index);
    }
  }

  /** Another file of the directory is found under its name as before, with its size and its first
      cluster; and with its chain and bytes, if it shares no cluster with the file or the directory. */
  lemma WriteKeepsOtherNames(g: Geometry, v: Volume, cwd: nat, name: seq<byte>, slot: Slot, data: seq<byte>,
                             name2: seq<byte>, other: Slot)
    requires Writable(g, v, cwd, name, slot) && |data| < 0x1_0000_0000
    requires |name2| >= 9 && Lookup(g, v, cwd, name2) == Some(other) && other != slot
    ensures var w, c := WriteFile(g, v, slot, data), StoredCluster(g, v, other);
            && HasChain(Table(g, w), cwd) && Lookup(g, w, cwd, name2) == Some(other) && SameFile(g, v, w, other)
            && (HasChain(Table(g, v), c) ==>
                  var q := ChainOf(Table(g, v), c);
                  StoredCluster(g, v, slot) !in q && slot.cluster !in q ==> SameContents(g, v, w, q, c))
  {
    hide WriteFile, DataClusters, ChainBytes;
    var w, c := WriteFile(g, v, slot, data), StoredCluster(g, v, other);
    WriteKeepsOtherEntries(g, v, cwd, name, slot, data, other);
    SameEntryFields(g, v, w, other);
    WriteKeepsSearch(g, v, cwd, name, slot, data, name2);
    if HasChain(Table(g, v), c) {
      var q := ChainOf(Table(g, v), c);
      if StoredCluster(g, v, slot) !in q && slot.cluster !in q {
        WriteKeepsOtherFiles(g, v, cwd, name, slot, data, c, q);
      }
    }
  }

  /** A write changes the result of no search in its directory. */
  lemma WriteKeepsSearch(g: Geometry, v: Volume, cwd: nat, name: seq<byte>, slot: Slot, data: seq<byte>, name2: seq<byte>)
    requires Writable(g, v, cwd, name, slot) && |data| < 0x1_0000_0000 && |name2| >= 9
    ensures var w := WriteFile(g, v, slot, data);
            HasChain(Table(g, w), cwd) && Lookup(g, w, cwd, name2) == Lookup(g, v, cwd, name2)
  {
    hide WriteFile, DataClusters, Stored, FindInChain;
    var w, t := WriteFile(g, v, slot, data), DataClusters(g, v, slot, |data|);
    WriteEffect(g, v, slot, data);
    SetSizeEffect(g, v, slot, |data|);
    SearchStays(g, v, w, t, data, cwd, name2, slot);
  }

  // ---------------------------------------------------------------------------
  // Delete
  // ---------------------------------------------------------------------------

  lemma MarkLeavesOthers(sec: Sector, index: nat, other: nat)
    requires index < 16 && other < 16 && other != index
    ensures EntryBytes(sec[32 * index := 0xE5], other) == EntryBytes(sec, other)
  {
  }

  /** The file whose entry is slot can be deleted, and no cluster of its chain p is one of the directory's. */
  ghost predicate Deletable(g: Geometry, v: Volume, cwd: nat, slot: Slot, p: seq<nat>) {
    && g.Valid(|v|) && HasChain(Table(g, v), cwd)
    && ValidSlot(g, slot) && slot.cluster in ChainOf(Table(g, v), cwd) && g.dataStart <= SlotSector(g, slot) < |v|
    && Within(p, g.Clusters() + 2) && forall x :: x in ChainOf(Table(g, v), cwd) ==> x !in p
  }

  /** A deletion leaves every other entry of its directory as it is, byte for byte. */
  lemma DeleteKeepsOtherEntries(g: Geometry, v: Volume, cwd: nat, slot: Slot, p: seq<nat>, other: Slot)
    requires Deletable(g, v, cwd, slot, p)
    requires ValidSlot(g, other) && other.cluster in ChainOf(Table(g, v), cwd) && other != slot
    ensures SameEntry(g, v, DeleteFile(g, v, slot, p), other)
  {
    hide ClearOnVolume, EntryBytes, Table, Clear;
    ClearOnVolumeTable(g, MarkDeleted(g, v, slot), p);
    DirectoryInside(g, v, cwd, other);
    var n := SlotSector(g, other);
    if n == SlotSector(g, slot) {
      SlotsApart(g, slot, other);
      MarkLeavesOthers(v[n], slot.index, other.index);
    }
  }

  lemma DirectoryInside(g: Geometry, v: Volume, cwd: nat, slot: Slot)
    requires g.Valid(|v|) && HasChain(Table(g, v), cwd)
    requires ValidSlot(g, slot) && slot.cluster in ChainOf(Table(g, v), cwd)
    ensures SlotSector(g, slot) < |v| && !InTable(g, SlotSector(g, slot))
  {
    var p := ChainOf(Table(g, v), cwd);
    ChainWithin(Table(g, v), cwd, p);
    ClusterInside(g, |v|, slot.cluster);
    SlotBehindTable(g, v, cwd, p, slot);
  }

  /** The directory is still there, with the same clusters. */
  lemma DeleteKeepsDirectory(g: Geometry, v: Volume, cwd: nat, slot: Slot, p: seq<nat>)
    requires Deletable(g, v, cwd, slot, p)
    ensures var w, d := DeleteFile(g, v, slot, p), ChainOf(Table(g, v), cwd);
            && HasChain(Table(g, w), cwd) && ChainOf(Table(g, w), cwd) == d
            && OnDisk(g, v, d) && OnDisk(g, w, d)
  {
    var w, d := DeleteFile(g, v, slot, p), ChainOf(Table(g, v), cwd);
    MarkKeepsTable(g, v, slot);
    ClearOnVolumeTable(g, MarkDeleted(g, v, slot), p);
    ClearKeepsOthers(Table(g, v), p, cwd, d);
    ChainUnique(Table(g, w), cwd, d, ChainOf(Table(g, w), cwd));
    ChainOnDisk(g, v, cwd, d);
    ChainOnDisk(g, w, cwd, d);
  }

  /** After a deletion, no entry answers to a name that it did not answer to before. */
  lemma DeleteAddsNoMatch(g: Geometry, v: Volume, cwd: nat, slot: Slot, p: seq<nat>, name: seq<byte>, c: nat)
    requires Deletable(g, v, cwd, slot, p) && |name| >= 9 && name[0] != 0xE5
    requires c in ChainOf(Table(g, v), cwd)
    ensures NoNewMatch(g, v, DeleteFile(g, v, slot, p), c, name)
  {
    hide DeleteFile, SameName, Table;
    var w := DeleteFile(g, v, slot, p);
    forall s: Slot | s.cluster == c && Matches(g, w, s, name) ensures Matches(g, v, s, name) {
      if s == slot {
        DeletedEntryIsGone(g, v, slot, p, name);
      } else {
        DeleteKeepsOtherEntries(g, v, cwd, slot, p, s);
        SameEntryFields(g, v, w, s);
      }
    }
  }

  /** Another file of the directory is found under its name as before, with its size and its first
      cluster; and with its chain and bytes, if it shares no cluster with the file or the directory.
      Only a name that starts with the deletion mark may meet the deleted entry. */
  lemma DeleteKeepsOtherNames(g: Geometry, v: Volume, cwd: nat, slot: Slot, p: seq<nat>, name2: seq<byte>, other: Slot)
    requires Deletable(g, v, cwd, slot, p)
    requires |name2| >= 9 && name2[0] != 0xE5 && Lookup(g, v, cwd, name2) == Some(other) && other != slot
    ensures var w, c := DeleteFile(g, v, slot, p), StoredCluster(g, v, other);
            && HasChain(Table(g, w), cwd) && Lookup(g, w, cwd, name2) == Some(other) && SameFile(g, v, w, other)
            && (HasChain(Table(g, v), c) ==>
                  var q := ChainOf(Table(g, v), c);
                  (forall x :: x in q ==> x !in p) && slot.cluster !in q ==> SameContents(g, v, w, q, c))
  {
    hide DeleteFile, SameName, ChainBytes, FindInCluster;
    var w, c, d := DeleteFile(g, v, slot, p), StoredCluster(g, v, other), ChainOf(Table(g, v), cwd);
    DeleteKeepsDirectory(g, v, cwd, slot, p);
    DeleteKeepsOtherEntries(g, v, cwd, slot, p, other);
    SameEntryFields(g, v, w, other);
    forall i | 0 <= i < |d| ensures NoNewMatch(g, v, w, d[i], name2) {
      DeleteAddsNoMatch(g, v, cwd, slot, p, name2, d[i]);
    }
    SearchNarrowed(g, v, w, d, name2);
    if HasChain(Table(g, v), c) {
      var q := ChainOf(Table(g, v), c);
      if (forall x :: x in q ==> x !in p) && slot.cluster !in q {
        DeleteKeepsOtherFiles(g, v, slot, p, c, q);
      }
    }
  }

  /** If only the deleted entry answered to the name, a search for it finds nothing afterwards. */
  lemma DeletedNameIsGone(g: Geometry, v: Volume, cwd: nat, slot: Slot, p: seq<nat>, name: seq<byte>)
    requires Deletable(g, v, cwd, slot, p) && |name| >= 9 && name[0] != 0xE5
    requires forall s: Slot :: s.cluster in ChainOf(Table(g, v), cwd) && Matches(g, v, s, name) ==> s == slot
    ensures var w := DeleteFile(g, v, slot, p);
            HasChain(Table(g, w), cwd) && Lookup(g, w, cwd, name) == None
  {
    hide DeleteFile, SameName, FindInCluster, NoNewMatch;
    var w := DeleteFile(g, v, slot, p);
    DeleteKeepsDirectory(g, v, cwd, slot, p);
    var r := Lookup(g, w, cwd, name);
    if r.Some? {
      assert Matches(g, w, r.value, name);
      DeleteAddsNoMatch(g, v, cwd, slot, p, name, r.value.cluster);
      MatchWas(g, v, w, r.value, name);
      DeletedEntryIsGone(g, v, slot, p, name);
    }
  }

  lemma MatchWas(g: Geometry, v: Volume, w: Volume, slot: Slot, name: seq<byte>)
    requires NoNewMatch(g, v, w, slot.cluster, name) && Matches(g, w, slot, name)
    ensures Matches(g, v, slot, name)
  {
  }
}
