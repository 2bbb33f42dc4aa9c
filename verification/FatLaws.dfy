/** What a reader gets back after a write, and what a write leaves alone. */
module FatLaws {
  import opened Options
  import opened SectorBytes
  import opened FatVolume
  import opened FatChain
  import opened FatFile

  // ---------------------------------------------------------------------------
  // One cluster
  // ---------------------------------------------------------------------------

  lemma {:induction false} RunFrame(g: Geometry, v: Volume, w: Volume, c: nat, s: nat)
    requires 2 <= c && s <= g.sectorsPerCluster && g.FirstSector(c) + g.sectorsPerCluster <= |v| == |w|
    requires forall n :: 0 <= n < |v| && InCluster(g, c, n) ==> w[n] == v[n]
    ensures SectorRun(g, w, c, s) == SectorRun(g, v, c, s)
    decreases g.sectorsPerCluster - s
  {
    if s < g.sectorsPerCluster {
      assert InCluster(g, c, g.FirstSector(c) + s);
      RunFrame(g, v, w, c, s + 1);
    }
  }

  lemma {:induction false} EarlierSectorsKept(g: Geometry, v: Volume, c: nat, s: nat, data: seq<byte>, off: nat, n: nat)
    requires 2 <= c && s <= g.sectorsPerCluster && g.FirstSector(c) + g.sectorsPerCluster <= |v|
    requires n < g.FirstSector(c) + s
    ensures WriteSectors(g, v, c, s, data, off)[n] == v[n]
    decreases g.sectorsPerCluster - s
  {
    if s < g.sectorsPerCluster && off < |data| {
      EarlierSectorsKept(g, v[g.FirstSector(c) + s := Chunk(data, off)], c, s + 1, data, off + 512, n);
    }
  }

  /** The part of data from off on that fits into n bytes. */
  function Part(data: seq<byte>, off: nat, n: nat): seq<byte> {
    if off >= |data| then [] else if |data| - off <= n then data[off..] else data[off..off + n]
  }

  predicate StartsWith(s: seq<byte>, prefix: seq<byte>) {
    |prefix| <= |s| && s[..|prefix|] == prefix
  }

  lemma NothingToHold(s: seq<byte>, data: seq<byte>, off: nat, n: nat)
    requires n == 0 || off >= |data|
    ensures StartsWith(s, Part(data, off, n))
  {
  }

  lemma {:induction false} ClusterHoldsData(g: Geometry, v: Volume, c: nat, s: nat, data: seq<byte>, off: nat)
    requires 2 <= c && s <= g.sectorsPerCluster && g.FirstSector(c) + g.sectorsPerCluster <= |v|
    ensures StartsWith(SectorRun(g, WriteSectors(g, v, c, s, data, off), c, s),
                       Part(data, off, 512 * (g.sectorsPerCluster - s)))
    decreases g.sectorsPerCluster - s
  {
    hide Quotient, StartsWith, Part, Chunk;
    if s == g.sectorsPerCluster || off >= |data| {
      NothingToHold(SectorRun(g, v, c, s), data, off, 512 * (g.sectorsPerCluster - s));
    } else {
      var n := g.FirstSector(c) + s;
      var v1 := v[n := Chunk(data, off)];
      var r := WriteSectors(g, v1, c, s + 1, data, off + 512);
      ClusterHoldsData(g, v1, c, s + 1, data, off + 512);
      EarlierSectorsKept(g, v1, c, s + 1, data, off + 512, n);
      assert r[n] == Chunk(data, off);
      var rest := 512 * (g.sectorsPerCluster - s - 1);
      PartSplit(data, off, rest);
      Glue(Chunk(data, off), SectorRun(g, r, c, s + 1), Part(data, off, 512), Part(data, off + 512, rest));
    }
  }

  lemma PartSplit(data: seq<byte>, off: nat, n: nat)
    requires off < |data|
    ensures Part(data, off, 512 + n) == Part(data, off, 512) + Part(data, off + 512, n)
    ensures StartsWith(Chunk(data, off), Part(data, off, 512))
    ensures |Part(data, off, 512)| < 512 ==> Part(data, off + 512, n) == []
  {
  }

  lemma PartSplitAt(data: seq<byte>, off: nat, k: nat, n: nat)
    ensures Part(data, off, k + n) == Part(data, off, k) + Part(data, off + k, n)
    ensures |Part(data, off, k)| < k ==> Part(data, off + k, n) == []
  {
  }

  lemma Glue(a: seq<byte>, b: seq<byte>, p: seq<byte>, q: seq<byte>)
    requires StartsWith(a, p) && StartsWith(b, q) && (|p| == |a| || q == [])
    ensures StartsWith(a + b, p + q)
  {
  }

  lemma GlueParts(first: seq<byte>, rest: seq<byte>, data: seq<byte>, off: nat)
    requires StartsWith(first, Part(data, off, |first|))
    requires StartsWith(rest, Part(data, off + |first|, |rest|))
    ensures StartsWith(first + rest, Part(data, off, |first| + |rest|))
  {
    PartSplitAt(data, off, |first|, |rest|);
    Glue(first, rest, Part(data, off, |first|), Part(data, off + |first|, |rest|));
  }

  // ---------------------------------------------------------------------------
  // The clusters of a file after a write
  // ---------------------------------------------------------------------------

  /** Clusters that fat_write_data fills, starting with c, for n more bytes. */
  ghost function Filled(fat: Fat, c: nat, n: nat, clusterBytes: nat): (t: seq<nat>)
    requires SmallTable(fat) && 2 <= c < |fat| && clusterBytes > 0
    decreases n
    ensures t != [] && t[0] == c
  {
    if n > clusterBytes && FreeList(fat) != [] then
      var f := FreeList(fat)[0];
      assert f in FreeList(fat);
      [c] + Filled(Hang(fat, c, f), f, n - clusterBytes, clusterBytes)
    else [c]
  }

  /** Further clusters needed when the first one takes clusterBytes of n bytes. */
  function MoreClusters(n: nat, clusterBytes: nat): nat
    requires clusterBytes > 0
    decreases n
  {
    if n <= clusterBytes then 0 else 1 + MoreClusters(n - clusterBytes, clusterBytes)
  }

  /** The file gets its first cluster and then the lowest free ones, as far as there are any. */
  lemma {:induction false} FilledShape(fat: Fat, c: nat, n: nat, clusterBytes: nat)
    requires SmallTable(fat) && InUse(fat, c) && clusterBytes > 0
    ensures Filled(fat, c, n, clusterBytes) == [c] + Take(FreeList(fat), MoreClusters(n, clusterBytes))
    decreases n
  {
    var free := FreeList(fat);
    if n > clusterBytes && free != [] {
      var f := free[0];
      assert f in free;
      var fat' := Hang(fat, c, f);
      TakeLowest(fat, 2, 0x0FFF_FFFF);
      FreeFromFrame(fat[f := 0x0FFF_FFFF], fat', 2);
      assert FreeList(fat') == free[1..];
      FilledShape(fat', f, n - clusterBytes, clusterBytes);
      var more := MoreClusters(n - clusterBytes, clusterBytes);
      assert [f] + Take(free[1..], more) == Take(free, 1 + more);
    }
  }

  /** The table after linking the clusters of t one behind the other, t[0] being in use. */
  ghost function HangAll(fat: Fat, t: seq<nat>): (r: Fat)
    requires Within(t, |fat|)
    ensures |r| == |fat|
    decreases |t|
  {
    if |t| <= 1 then fat else HangAll(Hang(fat, t[0], t[1]), t[1..])
  }

  lemma {:induction false} HangAllFrame(fat: Fat, t: seq<nat>, x: nat)
    requires Within(t, |fat|) && x < |fat| && x !in t
    ensures HangAll(fat, t)[x] == fat[x]
    decreases |t|
  {
    if |t| > 1 {
      HangAllFrame(Hang(fat, t[0], t[1]), t[1..], x);
    }
  }

  lemma {:induction false} HangAllIsChain(fat: Fat, t: seq<nat>)
    requires Within(t, |fat|) && Distinct(t) && t != [] && InUse(fat, t[0])
    requires |t| > 1 || EndOfChain(Next(fat, t[0]))
    ensures IsChain(HangAll(fat, t), t[0], t)
    decreases |t|
  {
    if |t| == 1 {
      assert t[1..] == [];
    } else {
      var fat' := Hang(fat, t[0], t[1]);
      HangAllIsChain(fat', t[1..]);
      assert forall i :: 1 <= i < |t| ==> t[i] != t[0];
      HangAllFrame(fat', t[1..], t[0]);
    }
  }

  lemma {:induction false} HangAllKeepsForest(fat: Fat, t: seq<nat>)
    requires Within(t, |fat|) && Forest(fat) && t != [] && InUse(fat, t[0]) && Distinct(t)
    requires forall i :: 1 <= i < |t| ==> Free(fat, t[i])
    ensures Forest(HangAll(fat, t))
    decreases |t|
  {
    if |t| > 1 {
      HangKeepsForest(fat, t[0], t[1]);
      assert forall i :: 2 <= i < |t| ==> t[i] != t[0] && t[i] != t[1];
      HangAllKeepsForest(Hang(fat, t[0], t[1]), t[1..]);
    }
  }

  /** All clusters of a write but the first are free beforehand; no cluster occurs twice. */
  lemma FilledClusters(fat: Fat, c: nat, n: nat, clusterBytes: nat)
    requires SmallTable(fat) && InUse(fat, c) && clusterBytes > 0
    ensures var t := Filled(fat, c, n, clusterBytes);
            && Within(t, |fat|) && Distinct(t)
            && forall i :: 1 <= i < |t| ==> Free(fat, t[i])
  {
    FilledShape(fat, c, n, clusterBytes);
    var more := MoreClusters(n, clusterBytes);
    LowestFreeAreClaimable(fat, more);
    var t := Filled(fat, c, n, clusterBytes);
    assert forall i :: 1 <= i < |t| ==> t[i] == Take(FreeList(fat), more)[i - 1];
  }

  // ---------------------------------------------------------------------------
  // fat_write_data as a whole
  // ---------------------------------------------------------------------------

  /** A cluster outside t keeps its bytes. */
  lemma UntouchedRun(g: Geometry, v: Volume, w: Volume, t: seq<nat>, c: nat)
    requires g.Valid(|v|) && Untouched(g, v, w, t) && 2 <= c < g.Clusters() + 2 && c !in t
    requires Within(t, g.Clusters() + 2)
    requires g.FirstSector(c) + g.sectorsPerCluster <= |v|
    ensures SectorRun(g, w, c, 0) == SectorRun(g, v, c, 0)
  {
    ClusterInside(g, |v|, c);
    forall n | 0 <= n < |v| && InCluster(g, c, n) ensures w[n] == v[n] {
      forall i | 0 <= i < |t| ensures !InCluster(g, t[i], n) {
        if InCluster(g, t[i], n) {
          ClustersApart(g, c, t[i], n - g.FirstSector(c), n - g.FirstSector(t[i]));
          assert false;
        }
      }
    }
    RunFrame(g, v, w, c, 0);
  }

  /** a is v with the bytes of data from off on stored in cluster c, and nothing else changed. */
  ghost predicate OneClusterStored(g: Geometry, v: Volume, a: Volume, c: nat, data: seq<byte>, off: nat) {
    && g.Valid(|v|) && |a| == |v|
    && 2 <= c < g.Clusters() + 2 && g.FirstSector(c) + g.sectorsPerCluster <= |v|
    && Table(g, a) == Table(g, v)
    && (forall n :: 0 <= n < |v| && !InCluster(g, c, n) ==> a[n] == v[n])
    && StartsWith(SectorRun(g, a, c, 0), Part(data, off, 512 * g.sectorsPerCluster))
  }

  lemma FirstWrite(g: Geometry, v: Volume, c: nat, data: seq<byte>, off: nat)
    requires g.Valid(|v|) && 2 <= c < g.Clusters() + 2
    ensures g.FirstSector(c) + g.sectorsPerCluster <= |v|
    ensures OneClusterStored(g, v, WriteSectors(g, v, c, 0, data, off), c, data, off)
  {
    ClusterInside(g, |v|, c);
    var w := WriteSectors(g, v, c, 0, data, off);
    DataWriteKeepsTable(g, v, w);
    ClusterHoldsData(g, v, c, 0, data, off);
  }

  /** b is a with the free cluster f hung behind c. */
  ghost predicate OneClusterAdded(g: Geometry, a: Volume, b: Volume, c: nat, f: nat) {
    && g.Valid(|a|) && |b| == |a|
    && 2 <= c < g.Clusters() + 2
    && InUse(Table(g, b), f)
    && FreeList(Table(g, a)) != [] && f == FreeList(Table(g, a))[0]
    && Table(g, b) == Hang(Table(g, a), c, f)
    && Untouched(g, a, b, [f])
  }

  /** The result of the write loop: the clusters of t, linked in order, start with the data,
      and nothing outside t and the table changes. */
  ghost predicate Stored(g: Geometry, v: Volume, w: Volume, t: seq<nat>, data: seq<byte>, off: nat) {
    && g.Valid(|v|) && |w| == |v| && Within(t, g.Clusters() + 2) && OnDisk(g, w, t)
    && Table(g, w) == HangAll(Table(g, v), t)
    && Untouched(g, v, w, t)
    && StartsWith(ChainBytes(g, w, t), Part(data, off, |ChainBytes(g, w, t)|))
  }

  /** One round of the write loop. */
  lemma WriteRound(g: Geometry, v: Volume, c: nat, data: seq<byte>, off: nat, a: Volume)
    requires g.Valid(|v|) && 2 <= c < g.Clusters() + 2
    requires g.FirstSector(c) + g.sectorsPerCluster <= |v| && a == WriteSectors(g, v, c, 0, data, off)
    ensures off + g.ClusterBytes() < |data| && FreeList(Table(g, a)) != [] ==>
              var x := Extend(g, a, c);
              OneClusterAdded(g, a, x.0, c, x.1)
              && WriteFrom(g, v, c, data, off) == WriteFrom(g, x.0, x.1, data, off + g.ClusterBytes())
    ensures off + g.ClusterBytes() >= |data| || FreeList(Table(g, a)) == [] ==>
              WriteFrom(g, v, c, data, off) == a
  {
    hide Extend, WriteSectors;
  }

  lemma {:induction false} WriteStores(g: Geometry, v: Volume, c: nat, data: seq<byte>, off: nat)
    requires g.Valid(|v|) && InUse(Table(g, v), c) && off <= |data|
    ensures Stored(g, v, WriteFrom(g, v, c, data, off),
                   Filled(Table(g, v), c, |data| - off, g.ClusterBytes()), data, off)
    decreases |data| - off
  {
    hide Extend, WriteSectors, WriteFrom, Filled, Stored, OneClusterAdded;
    FirstWrite(g, v, c, data, off);
    var a := WriteSectors(g, v, c, 0, data, off);
    WriteRound(g, v, c, data, off, a);
    var t := Filled(Table(g, v), c, |data| - off, g.ClusterBytes());
    if off + g.ClusterBytes() < |data| && FreeList(Table(g, v)) != [] {
      var x := Extend(g, a, c);
      WriteStores(g, x.0, x.1, data, off + g.ClusterBytes());
      FilledClusters(Table(g, v), c, |data| - off, g.ClusterBytes());
      FilledRest(Table(g, v), c, |data| - off, g.ClusterBytes());
      StoredStep(g, v, a, x.0, WriteFrom(g, v, c, data, off), t, data, off);
    } else {
      FilledAlone(Table(g, v), c, |data| - off, g.ClusterBytes());
      StoredLast(g, v, a, c, data, off);
    }
  }

  lemma FilledAlone(fat: Fat, c: nat, n: nat, clusterBytes: nat)
    requires SmallTable(fat) && 2 <= c < |fat| && clusterBytes > 0 && (n <= clusterBytes || FreeList(fat) == [])
    ensures Filled(fat, c, n, clusterBytes) == [c]
  {
  }

  lemma FilledRest(fat: Fat, c: nat, n: nat, clusterBytes: nat)
    requires SmallTable(fat) && 2 <= c < |fat| && n > clusterBytes > 0 && FreeList(fat) != []
    ensures FreeList(fat)[0] in FreeList(fat)
    ensures var f := FreeList(fat)[0];
            && Filled(fat, c, n, clusterBytes)[1..] == Filled(Hang(fat, c, f), f, n - clusterBytes, clusterBytes)
            && |Filled(fat, c, n, clusterBytes)| > 1
            && Filled(fat, c, n, clusterBytes)[1] == f
  {
  }

  lemma StoredLast(g: Geometry, v: Volume, w: Volume, c: nat, data: seq<byte>, off: nat)
    requires OneClusterStored(g, v, w, c, data, off)
    ensures Stored(g, v, w, [c], data, off)
  {
    var t := [c];
    assert t[1..] == [];
    assert OnDisk(g, w, t);
    assert ChainBytes(g, w, t) == SectorRun(g, w, c, 0);
    forall n | 0 <= n < |v| && !InTable(g, n) && (forall i :: 0 <= i < |t| ==> !InCluster(g, t[i], n))
      ensures w[n] == v[n]
    {
      assert !InCluster(g, t[0], n);
    }
  }

  lemma StoredStep(g: Geometry, v: Volume, a: Volume, b: Volume, w: Volume, t: seq<nat>, data: seq<byte>, off: nat)
    requires |t| > 1 && g.Valid(|v|) && Within(t, g.Clusters() + 2) && Distinct(t)
    requires OneClusterStored(g, v, a, t[0], data, off)
    requires OneClusterAdded(g, a, b, t[0], t[1])
    requires Stored(g, b, w, t[1..], data, off + g.ClusterBytes())
    ensures Stored(g, v, w, t, data, off)
  {
    hide StartsWith, Part, Quotient, FreeFrom;
    forall i | 0 <= i < |t| ensures 2 <= t[i] && g.FirstSector(t[i]) + g.sectorsPerCluster <= |w| {
      ClusterInside(g, |v|, t[i]);
    }
    StepContents(g, a, b, w, t, data, off);
  }

  lemma StepContents(g: Geometry, a: Volume, b: Volume, w: Volume, t: seq<nat>, data: seq<byte>, off: nat)
    requires |t| > 1 && g.Valid(|a|) && |a| == |b| == |w| && Within(t, g.Clusters() + 2) && Distinct(t)
    requires OnDisk(g, w, t)
    requires g.FirstSector(t[0]) + g.sectorsPerCluster <= |a|
    requires StartsWith(SectorRun(g, a, t[0], 0), Part(data, off, 512 * g.sectorsPerCluster))
    requires Untouched(g, a, b, [t[1]]) && Untouched(g, b, w, t[1..]) && OnDisk(g, w, t[1..])
    requires StartsWith(ChainBytes(g, w, t[1..]), Part(data, off + g.ClusterBytes(), |ChainBytes(g, w, t[1..])|))
    ensures StartsWith(ChainBytes(g, w, t), Part(data, off, |ChainBytes(g, w, t)|))
  {
    hide StartsWith, Part, Quotient, Untouched;
    assert t[0] !in t[1..];
    assert t[0] !in [t[1]];
    assert Within([t[1]], g.Clusters() + 2);
    UntouchedRun(g, a, b, [t[1]], t[0]);
    UntouchedRun(g, b, w, t[1..], t[0]);
    var first, rest := SectorRun(g, w, t[0], 0), ChainBytes(g, w, t[1..]);
    assert ChainBytes(g, w, t) == first + rest;
    GlueParts(first, rest, data, off);
  }

  // ---------------------------------------------------------------------------
  // The directory while a file changes
  // ---------------------------------------------------------------------------

  ghost predicate SameNames(a: Sector, b: Sector) {
    forall i :: 0 <= i < 16 ==> EntryName(a, i) == EntryName(b, i)
  }

  ghost predicate SameNamesIn(g: Geometry, v: Volume, w: Volume, c: nat) {
    |w| == |v| && forall n :: 0 <= n < |v| && InCluster(g, c, n) ==> SameNames(v[n], w[n])
  }

  ghost predicate Matches(g: Geometry, v: Volume, slot: Slot, name: seq<byte>) {
    && ValidSlot(g, slot) && SlotSector(g, slot) < |v| && |name| >= 9
    && SameName(EntryName(v[SlotSector(g, slot)], slot.index), name)
  }

  /** In that cluster, no entry answers to the name that did not before. */
  ghost predicate NoNewMatch(g: Geometry, v: Volume, w: Volume, c: nat, name: seq<byte>) {
    |w| == |v| && forall slot: Slot :: slot.cluster == c && Matches(g, w, slot, name) ==> Matches(g, v, slot, name)
  }

  lemma {:induction false} SectorNarrowed(a: Sector, b: Sector, name: seq<byte>, i: nat)
    requires |name| >= 9 && i <= 16
    requires forall j :: 0 <= j < 16 && SameName(EntryName(b, j), name) ==> SameName(EntryName(a, j), name)
    ensures var r := FindInSector(a, name, i);
            r == 16 || SameName(EntryName(b, r), name) ==> FindInSector(b, name, i) == r
    decreases 16 - i
  {
    hide SameName;
    if i < 16 { SectorNarrowed(a, b, name, i + 1); }
  }

  lemma {:induction false} ClusterNarrowed(g: Geometry, v: Volume, w: Volume, c: nat, s: nat, name: seq<byte>)
    requires |name| >= 9 && s <= g.sectorsPerCluster && 2 <= c && NoNewMatch(g, v, w, c, name)
    requires g.FirstSector(c) + g.sectorsPerCluster <= |v|
    ensures var r := FindInCluster(g, v, c, s, name);
            r.None? || Matches(g, w, r.value, name) ==> FindInCluster(g, w, c, s, name) == r
    decreases g.sectorsPerCluster - s
  {
    hide SameName, FindInSector;
    if s < g.sectorsPerCluster {
      var n := g.FirstSector(c) + s;
      forall j | 0 <= j < 16 && SameName(EntryName(w[n], j), name) ensures SameName(EntryName(v[n], j), name) {
        assert Matches(g, w, Slot(c, s, j), name);
      }
      SectorNarrowed(v[n], w[n], name, 0);
      ClusterNarrowed(g, v, w, c, s + 1, name);
    }
  }

  /** A search ends at the same entry if that one still answers and no other one does that did not. */
  lemma {:induction false} SearchNarrowed(g: Geometry, v: Volume, w: Volume, p: seq<nat>, name: seq<byte>)
    requires |name| >= 9 && OnDisk(g, v, p) && OnDisk(g, w, p)
    requires forall i :: 0 <= i < |p| ==> NoNewMatch(g, v, w, p[i], name)
    ensures var r := FindInChain(g, v, p, name);
            r.None? || Matches(g, w, r.value, name) ==> FindInChain(g, w, p, name) == r
  {
    hide SameName, FindInSector, FindInCluster, NoNewMatch;
    if p != [] {
      ClusterNarrowed(g, v, w, p[0], 0, name);
      SearchNarrowed(g, v, w, p[1..], name);
    }
  }

  lemma SameNamesMatch(g: Geometry, v: Volume, w: Volume, slot: Slot, name: seq<byte>)
    requires SameNamesIn(g, v, w, slot.cluster)
    ensures Matches(g, w, slot, name) <==> Matches(g, v, slot, name)
  {
    if ValidSlot(g, slot) && SlotSector(g, slot) < |v| {
      assert InCluster(g, slot.cluster, SlotSector(g, slot));
    }
  }

  lemma SizeFieldOnly(sec: Sector, index: nat, size: uint32)
    requires index < 16
    ensures var r := PutU32(sec, 32 * index + 28, size);
            && SameNames(sec, r) && EntryCluster(r, index) == EntryCluster(sec, index)
            && EntrySize(r, index) == size
  {
    var r := PutU32(sec, 32 * index + 28, size);
    PutThenGet(sec, 32 * index + 28, size, 0);
    forall i | 0 <= i < 16 ensures EntryName(sec, i) == EntryName(r, i) {
      assert forall k :: 32 * i <= k < 32 * i + 8 ==> r[k] == sec[k];
    }
  }

  // ---------------------------------------------------------------------------
  // Write, then read
  // ---------------------------------------------------------------------------

  /** A file that can be written: its entry is the one a search finds, its first cluster starts
      a chain, and that cluster is not one of the directory's. */
  ghost predicate Writable(g: Geometry, v: Volume, cwd: nat, name: seq<byte>, slot: Slot) {
    && g.Valid(|v|) && |name| >= 9
    && HasChain(Table(g, v), cwd) && Lookup(g, v, cwd, name) == Some(slot)
    && InUse(Table(g, v), StoredCluster(g, v, slot))
    && HasChain(Table(g, v), StoredCluster(g, v, slot))
    && StoredCluster(g, v, slot) !in ChainOf(Table(g, v), cwd)
  }

  /** The clusters that hold the data after a write. */
  ghost function DataClusters(g: Geometry, v: Volume, slot: Slot, n: nat): (t: seq<nat>)
    requires g.Valid(|v|) && ValidSlot(g, slot) && SlotSector(g, slot) < |v|
    requires InUse(Table(g, v), StoredCluster(g, v, slot))
  {
    [StoredCluster(g, v, slot)] + Take(FreeList(Table(g, v)), MoreClusters(n, g.ClusterBytes()))
  }

  /** Bytes that fit into those clusters. */
  ghost function Room(g: Geometry, v: Volume, slot: Slot, n: nat): (r: nat)
    requires g.Valid(|v|) && ValidSlot(g, slot) && SlotSector(g, slot) < |v|
    requires InUse(Table(g, v), StoredCluster(g, v, slot))
  {
    NonNegativeProduct(|DataClusters(g, v, slot, n)|, g.ClusterBytes());
    |DataClusters(g, v, slot, n)| * g.ClusterBytes()
  }

  lemma SetSizeEffect(g: Geometry, v: Volume, slot: Slot, size: uint32)
    requires g.Valid(|v|) && ValidSlot(g, slot) && g.dataStart <= SlotSector(g, slot) < |v|
    ensures Table(g, SetSize(g, v, slot, size)) == Table(g, v)
    ensures SameNames(v[SlotSector(g, slot)], SetSize(g, v, slot, size)[SlotSector(g, slot)])
    ensures StoredCluster(g, SetSize(g, v, slot, size), slot) == StoredCluster(g, v, slot)
    ensures StoredSize(g, SetSize(g, v, slot, size), slot) == size
  {
    SizeFieldOnly(v[SlotSector(g, slot)], slot.index, size);
    DataWriteKeepsTable(g, v, SetSize(g, v, slot, size));
  }

  /** Everything a write does, in one place. */
  lemma WriteEffect(g: Geometry, v: Volume, slot: Slot, data: seq<byte>)
    requires g.Valid(|v|) && ValidSlot(g, slot) && g.dataStart <= SlotSector(g, slot) < |v|
    requires |data| < 0x1_0000_0000 && InUse(Table(g, v), StoredCluster(g, v, slot))
    ensures var t := DataClusters(g, v, slot, |data|);
            && Stored(g, SetSize(g, v, slot, |data|), WriteFile(g, v, slot, data), t, data, 0)
            && Distinct(t) && t != [] && t[0] == StoredCluster(g, v, slot)
            && (forall i :: 1 <= i < |t| ==> Free(Table(g, v), t[i]))
            && Table(g, WriteFile(g, v, slot, data)) == HangAll(Table(g, v), t)
  {
    hide WriteFrom, Stored;
    var v1 := SetSize(g, v, slot, |data|);
    SetSizeEffect(g, v, slot, |data|);
    var c := StoredCluster(g, v, slot);
    WriteStores(g, v1, c, data, 0);
    FilledShape(Table(g, v), c, |data|, g.ClusterBytes());
    FilledClusters(Table(g, v), c, |data|, g.ClusterBytes());
    StoredTable(g, v1, WriteFrom(g, v1, c, data, 0), DataClusters(g, v, slot, |data|), data);
  }

  lemma StoredTable(g: Geometry, v: Volume, w: Volume, t: seq<nat>, data: seq<byte>)
    requires Stored(g, v, w, t, data, 0)
    ensures g.Valid(|v|) && |w| == |v| && Within(t, |Table(g, v)|) && Table(g, w) == HangAll(Table(g, v), t)
  {
  }

  /** A chain that avoids the clusters of a write stays, with all its bytes. */
  lemma AvoidedChainStays(g: Geometry, v: Volume, w: Volume, t: seq<nat>, data: seq<byte>, b: nat, q: seq<nat>)
    requires Stored(g, v, w, t, data, 0) && t != []
    requires forall i :: 1 <= i < |t| ==> Free(Table(g, v), t[i])
    requires IsChain(Table(g, v), b, q) && t[0] !in q
    ensures forall x :: x in q ==> x !in t
    ensures IsChain(Table(g, w), b, q)
    ensures OnDisk(g, v, q) && OnDisk(g, w, q) && ChainBytes(g, w, q) == ChainBytes(g, v, q)
  {
    var fat := Table(g, v);
    forall x | x in q ensures x !in t && x < |fat| {
      var i :| 0 <= i < |q| && q[i] == x;
      ChainSuffix(fat, b, q, i);
      assert InUse(fat, x);
    }
    forall x | x in q && x < |fat| ensures HangAll(fat, t)[x] == fat[x] {
      HangAllFrame(fat, t, x);
    }
    ChainFrame(fat, HangAll(fat, t), b, q);
    ChainOnDisk(g, v, b, q);
    ChainOnDisk(g, w, b, q);
    ChainWithin(fat, b, q);
    BytesFrame(g, v, w, t, q);
  }

  lemma {:induction false} BytesFrame(g: Geometry, v: Volume, w: Volume, t: seq<nat>, q: seq<nat>)
    requires g.Valid(|v|) && Untouched(g, v, w, t) && Within(t, g.Clusters() + 2) && Within(q, g.Clusters() + 2)
    requires OnDisk(g, v, q) && OnDisk(g, w, q) && forall x :: x in q ==> x !in t
    ensures ChainBytes(g, w, q) == ChainBytes(g, v, q)
  {
    if q != [] {
      UntouchedRun(g, v, w, t, q[0]);
      BytesFrame(g, v, w, t, q[1..]);
    }
  }

  /** Every search in the directory ends as before the write. */
  lemma SearchStays(g: Geometry, v: Volume, w: Volume, t: seq<nat>, data: seq<byte>, cwd: nat,
                    name: seq<byte>, slot: Slot)
    requires g.Valid(|v|) && |name| >= 9 && HasChain(Table(g, v), cwd)
    requires ValidSlot(g, slot) && g.dataStart <= SlotSector(g, slot) < |v|
    requires |data| < 0x1_0000_0000 && Stored(g, SetSize(g, v, slot, |data|), w, t, data, 0) && t != []
    requires t[0] !in ChainOf(Table(g, v), cwd)
    requires forall i :: 1 <= i < |t| ==> Free(Table(g, v), t[i])
    ensures HasChain(Table(g, w), cwd) && Lookup(g, w, cwd, name) == Lookup(g, v, cwd, name)
    ensures forall x :: x in ChainOf(Table(g, v), cwd) ==> x !in t && 2 <= x < g.Clusters() + 2
  {
    hide FindInChain;
    var v1 := SetSize(g, v, slot, |data|);
    SetSizeEffect(g, v, slot, |data|);
    var p := ChainOf(Table(g, v), cwd);
    AvoidedChainStays(g, v1, w, t, data, cwd, p);
    ChainUnique(Table(g, w), cwd, p, ChainOf(Table(g, w), cwd));
    ChainWithin(Table(g, v), cwd, p);
    hide Matches;
    forall s: Slot | s.cluster in p ensures Matches(g, w, s, name) <==> Matches(g, v, s, name) {
      DirectoryClusterKept(g, v, v1, w, t, s.cluster, SlotSector(g, slot));
      SameNamesMatch(g, v, w, s, name);
    }
    SearchNarrowed(g, v, w, p, name);
  }

  lemma ClusterSectorsKept(g: Geometry, v: Volume, w: Volume, t: seq<nat>, c: nat)
    requires g.Valid(|v|) && Untouched(g, v, w, t) && Within(t, g.Clusters() + 2)
    requires 2 <= c < g.Clusters() + 2 && c !in t
    ensures forall n :: 0 <= n < |v| && InCluster(g, c, n) ==> w[n] == v[n]
  {
    ClusterInside(g, |v|, c);
    forall n | 0 <= n < |v| && InCluster(g, c, n) ensures w[n] == v[n] {
      forall i | 0 <= i < |t| ensures !InCluster(g, t[i], n) {
        if InCluster(g, t[i], n) {
          ClustersApart(g, c, t[i], n - g.FirstSector(c), n - g.FirstSector(t[i]));
          assert false;
        }
      }
    }
  }

  lemma EntryStays(g: Geometry, v: Volume, w: Volume, t: seq<nat>, data: seq<byte>, slot: Slot)
    requires Stored(g, v, w, t, data, 0) && ValidSlot(g, slot) && slot.cluster < g.Clusters() + 2 && slot.cluster !in t
    ensures SlotSector(g, slot) < |v| && w[SlotSector(g, slot)] == v[SlotSector(g, slot)]
  {
    ClusterInside(g, |v|, slot.cluster);
    ClusterSectorsKept(g, v, w, t, slot.cluster);
    assert InCluster(g, slot.cluster, SlotSector(g, slot));
  }

  lemma DirectoryClusterKept(g: Geometry, v: Volume, v1: Volume, w: Volume, t: seq<nat>, c: nat, lba: nat)
    requires g.Valid(|v|) && |v1| == |v| && Untouched(g, v1, w, t) && Within(t, g.Clusters() + 2)
    requires 2 <= c < g.Clusters() + 2 && c !in t && lba < |v|
    requires SameNames(v[lba], v1[lba]) && forall n :: 0 <= n < |v| && n != lba ==> v1[n] == v[n]
    ensures SameNamesIn(g, v, w, c)
  {
    ClusterSectorsKept(g, v1, w, t, c);
  }

  /** The chain of the written file afterwards: the data clusters, or the old chain if the data fits
      into its first cluster or no cluster was free. */
  lemma ChainAfterWrite(fat: Fat, t: seq<nat>, p: seq<nat>)
    requires Within(t, |fat|) && Distinct(t) && t != [] && InUse(fat, t[0])
    requires IsChain(fat, t[0], p)
    ensures IsChain(HangAll(fat, t), t[0], if |t| == 1 then p else t)
    ensures p != [] && p[0] == t[0]
  {
    if |t| > 1 {
      HangAllIsChain(fat, t);
    }
  }

  lemma BytesOfPrefix(g: Geometry, w: Volume, c: nat, p: seq<nat>, prefix: seq<byte>)
    requires OnDisk(g, w, p) && OnDisk(g, w, [c]) && p != [] && p[0] == c
    requires StartsWith(ChainBytes(g, w, [c]), prefix)
    ensures StartsWith(ChainBytes(g, w, p), prefix)
  {
    assert [c][1..] == [];
    assert ChainBytes(g, w, [c]) == SectorRun(g, w, c, 0);
    assert ChainBytes(g, w, p) == SectorRun(g, w, c, 0) + ChainBytes(g, w, p[1..]);
  }

  /** The file's chain after writing n bytes: the data clusters, or the old chain if the write
      added no cluster. */
  ghost function ChainAfter(g: Geometry, v: Volume, slot: Slot, n: nat): seq<nat>
    requires g.Valid(|v|) && ValidSlot(g, slot) && SlotSector(g, slot) < |v|
    requires InUse(Table(g, v), StoredCluster(g, v, slot)) && HasChain(Table(g, v), StoredCluster(g, v, slot))
  {
    var t := DataClusters(g, v, slot, n);
    if |t| == 1 then ChainOf(Table(g, v), StoredCluster(g, v, slot)) else t
  }

  /** The contents: the bytes of the file's chain start with as much of the data as fits into
      the file's first cluster and the free clusters that the write could add. */
  lemma WrittenBytes(g: Geometry, v: Volume, slot: Slot, data: seq<byte>)
    requires g.Valid(|v|) && ValidSlot(g, slot) && g.dataStart <= SlotSector(g, slot) < |v|
    requires |data| < 0x1_0000_0000 && InUse(Table(g, v), StoredCluster(g, v, slot))
    requires HasChain(Table(g, v), StoredCluster(g, v, slot))
    ensures var w, c := WriteFile(g, v, slot, data), StoredCluster(g, v, slot);
            && HasChain(Table(g, w), c) && OnDisk(g, w, ChainOf(Table(g, w), c))
            && ChainOf(Table(g, w), c) == ChainAfter(g, v, slot, |data|)
            && StartsWith(ChainBytes(g, w, ChainOf(Table(g, w), c)),
                          Part(data, 0, Room(g, v, slot, |data|)))
  {
    hide WriteFile, SetSize, DataClusters, Table, HangAll;
    var w, c := WriteFile(g, v, slot, data), StoredCluster(g, v, slot);
    var v1, t := SetSize(g, v, slot, |data|), DataClusters(g, v, slot, |data|);
    WriteEffect(g, v, slot, data);
    SetSizeEffect(g, v, slot, |data|);
    var p := ChainOf(Table(g, v), c);
    ChainAfterWrite(Table(g, v), t, p);
    var q := if |t| == 1 then p else t;
    ChainUnique(Table(g, w), c, q, ChainOf(Table(g, w), c));
    ChainOnDisk(g, w, c, q);
    ChainBytesLength(g, w, t);
    if |t| == 1 {
      assert t == [c];
      BytesOfPrefix(g, w, c, p, Part(data, 0, |ChainBytes(g, w, t)|));
    }
  }

  /** What comes back: the search finds the same entry with the same first cluster, the size field
      is the size written, and the file's bytes start with the data (as far as it fits). */
  lemma WriteThenRead(g: Geometry, v: Volume, cwd: nat, name: seq<byte>, slot: Slot, data: seq<byte>)
    requires Writable(g, v, cwd, name, slot) && |data| < 0x1_0000_0000
    ensures var w, c := WriteFile(g, v, slot, data), StoredCluster(g, v, slot);
            && HasChain(Table(g, w), cwd) && Lookup(g, w, cwd, name) == Some(slot)
            && StoredSize(g, w, slot) == |data| && StoredCluster(g, w, slot) == c
            && HasChain(Table(g, w), c) && OnDisk(g, w, ChainOf(Table(g, w), c))
            && ChainOf(Table(g, w), c) == ChainAfter(g, v, slot, |data|)
            && StartsWith(ChainBytes(g, w, ChainOf(Table(g, w), c)),
                          Part(data, 0, Room(g, v, slot, |data|)))
  {
    hide WriteFile, SetSize, Lookup, Stored, Table, StartsWith, Part, ChainBytes, Room, ChainAfter;
    var w := WriteFile(g, v, slot, data);
    var t := DataClusters(g, v, slot, |data|);
    WrittenBytes(g, v, slot, data);
    WriteEffect(g, v, slot, data);
    SetSizeEffect(g, v, slot, |data|);
    SearchStays(g, v, w, t, data, cwd, name, slot);
    EntryStays(g, SetSize(g, v, slot, |data|), w, t, data, slot);
  }

  lemma {:induction false} MoreClustersEnough(n: nat, clusterBytes: nat, k: nat)
    requires clusterBytes > 0
    ensures n <= (k + 1) * clusterBytes <==> MoreClusters(n, clusterBytes) <= k
    decreases n
  {
    OneMore(k, clusterBytes);
    if n > clusterBytes {
      if k > 0 {
        MoreClustersEnough(n - clusterBytes, clusterBytes, k - 1);
        OneMore(k - 1, clusterBytes);
      }
    } else {
      NonNegativeProduct(k, clusterBytes);
    }
  }

  lemma NonNegativeProduct(a: nat, b: nat)
    ensures a * b >= 0
  {
  }

  /** The whole data comes back exactly when enough clusters were free. */
  lemma WholeDataIffEnoughFree(g: Geometry, v: Volume, slot: Slot, data: seq<byte>)
    requires g.Valid(|v|) && ValidSlot(g, slot) && SlotSector(g, slot) < |v|
    requires InUse(Table(g, v), StoredCluster(g, v, slot))
    ensures Part(data, 0, Room(g, v, slot, |data|)) == data
            <==> MoreClusters(|data|, g.ClusterBytes()) <= |FreeList(Table(g, v))|
  {
    hide MoreClusters, Part, FreeFrom, Table;
    var k := |DataClusters(g, v, slot, |data|)| - 1;
    MoreClustersEnough(|data|, g.ClusterBytes(), k);
    PartWhole(data, Room(g, v, slot, |data|));
  }

  lemma PartWhole(data: seq<byte>, n: nat)
    ensures Part(data, 0, n) == data <==> |data| <= n
  {
  }

  /** No other file is affected: a chain that neither starts at the written file nor runs through
      the directory cluster of its entry keeps its clusters and its bytes. */
  lemma WriteKeepsOtherFiles(g: Geometry, v: Volume, cwd: nat, name: seq<byte>, slot: Slot, data: seq<byte>,
                             b: nat, q: seq<nat>)
    requires Writable(g, v, cwd, name, slot) && |data| < 0x1_0000_0000
    requires IsChain(Table(g, v), b, q)
    requires StoredCluster(g, v, slot) !in q && slot.cluster !in q
    ensures var w := WriteFile(g, v, slot, data);
            && IsChain(Table(g, w), b, q) && OnDisk(g, v, q) && OnDisk(g, w, q)
            && ChainBytes(g, w, q) == ChainBytes(g, v, q)
  {
    hide WriteFile;
    var w := WriteFile(g, v, slot, data);
    var v1, t := SetSize(g, v, slot, |data|), DataClusters(g, v, slot, |data|);
    WriteEffect(g, v, slot, data);
    SetSizeEffect(g, v, slot, |data|);
    AvoidedChainStays(g, v1, w, t, data, b, q);
    ChainWithin(Table(g, v), b, q);
    SlotSectorOutside(g, v, v1, slot, q);
  }

  lemma SlotSectorOutside(g: Geometry, v: Volume, v1: Volume, slot: Slot, q: seq<nat>)
    requires g.Valid(|v|) && |v1| == |v| && Within(q, g.Clusters() + 2) && slot.cluster !in q
    requires ValidSlot(g, slot) && OnDisk(g, v, q) && OnDisk(g, v1, q)
    requires forall n :: 0 <= n < |v| && n != SlotSector(g, slot) ==> v1[n] == v[n]
    ensures ChainBytes(g, v1, q) == ChainBytes(g, v, q)
  {
    var t := [slot.cluster];
    if q != [] {
      forall n | 0 <= n < |v| && InCluster(g, q[0], n) ensures v1[n] == v[n] {
        if n == SlotSector(g, slot) {
          ClustersApart(g, q[0], slot.cluster, n - g.FirstSector(q[0]), slot.sector);
          assert false;
        }
      }
      RunFrame(g, v, v1, q[0], 0);
      SlotSectorOutside(g, v, v1, slot, q[1..]);
    }
  }

  /** A write keeps the table a forest. */
  lemma WriteKeepsForest(g: Geometry, v: Volume, slot: Slot, data: seq<byte>)
    requires g.Valid(|v|) && ValidSlot(g, slot) && g.dataStart <= SlotSector(g, slot) < |v|
    requires |data| < 0x1_0000_0000 && InUse(Table(g, v), StoredCluster(g, v, slot))
    requires Forest(Table(g, v))
    ensures Forest(Table(g, WriteFile(g, v, slot, data)))
  {
    hide WriteFile, Stored;
    WriteEffect(g, v, slot, data);
    StoredTable(g, SetSize(g, v, slot, |data|), WriteFile(g, v, slot, data), DataClusters(g, v, slot, |data|), data);
    SetSizeEffect(g, v, slot, |data|);
    HangAllKeepsForest(Table(g, v), DataClusters(g, v, slot, |data|));
  }

  /** Rewriting a file that had more than one cluster with data that needs more than one: the old
      tail stays allocated, as a chain of its own that the file no longer reaches. */
  lemma RewriteStrandsTail(g: Geometry, v: Volume, slot: Slot, data: seq<byte>, p: seq<nat>)
    requires g.Valid(|v|) && ValidSlot(g, slot) && g.dataStart <= SlotSector(g, slot) < |v|
    requires |data| < 0x1_0000_0000 && InUse(Table(g, v), StoredCluster(g, v, slot))
    requires IsChain(Table(g, v), StoredCluster(g, v, slot), p) && |p| > 1
    requires |data| > g.ClusterBytes() && FreeList(Table(g, v)) != []
    ensures var w, c := WriteFile(g, v, slot, data), StoredCluster(g, v, slot);
            && IsChain(Table(g, w), p[1], p[1..])
            && HasChain(Table(g, w), c)
            && forall x :: x in p[1..] ==> InUse(Table(g, w), x) && x !in ChainOf(Table(g, w), c)
  {
    hide WriteFile, Stored;
    var w, c := WriteFile(g, v, slot, data), StoredCluster(g, v, slot);
    var t, fat := DataClusters(g, v, slot, |data|), Table(g, v);
    WriteEffect(g, v, slot, data);
    StoredTable(g, SetSize(g, v, slot, |data|), w, t, data);
    SetSizeEffect(g, v, slot, |data|);
    HangAllIsChain(fat, t);
    ChainUnique(Table(g, w), c, t, ChainOf(Table(g, w), c));
    ChainSuffix(fat, c, p, 1);
    ChainHead(fat, c, p);
    forall x | x in p[1..] ensures x !in t && InUse(fat, x) && HangAll(fat, t)[x] == fat[x] {
      var i :| 0 <= i < |p[1..]| && p[1..][i] == x;
      ChainSuffix(fat, p[1], p[1..], i);
      HangAllFrame(fat, t, x);
    }
    ChainFrame(fat, HangAll(fat, t), p[1], p[1..]);
  }

  /** A rewrite keeps all clusters of the file exactly if it had only one, or the data fits into one,
      or no cluster is free. */
  lemma RewriteKeepsClustersIff(g: Geometry, v: Volume, slot: Slot, data: seq<byte>, p: seq<nat>)
    requires g.Valid(|v|) && ValidSlot(g, slot) && g.dataStart <= SlotSector(g, slot) < |v|
    requires |data| < 0x1_0000_0000 && InUse(Table(g, v), StoredCluster(g, v, slot))
    requires IsChain(Table(g, v), StoredCluster(g, v, slot), p)
    ensures HasChain(Table(g, WriteFile(g, v, slot, data)), StoredCluster(g, v, slot))
    ensures (forall x :: x in p ==> x in ChainOf(Table(g, WriteFile(g, v, slot, data)), StoredCluster(g, v, slot)))
            <==> |p| <= 1 || |data| <= g.ClusterBytes() || FreeList(Table(g, v)) == []
  {
    var c := StoredCluster(g, v, slot);
    assert HasChain(Table(g, v), c);
    ChainUnique(Table(g, v), c, p, ChainOf(Table(g, v), c));
    hide WriteFile, Table, DataClusters, FreeFrom;
    WrittenBytes(g, v, slot, data);
    var w := WriteFile(g, v, slot, data);
    if |data| <= g.ClusterBytes() || FreeList(Table(g, v)) == [] {
    } else if |p| > 1 {
      RewriteStrandsTail(g, v, slot, data, p);
      assert p[1..][0] == p[1] && p[1] in p;
    } else {
      ChainStart(Table(g, w), c);
      ChainStart(Table(g, v), c);
    }
  }

  lemma ChainStart(fat: Fat, c: nat)
    requires HasChain(fat, c) && !EndOfChain(c)
    ensures ChainOf(fat, c) != [] && ChainOf(fat, c)[0] == c
  {
  }

  // ---------------------------------------------------------------------------
  // Delete
  // ---------------------------------------------------------------------------

  lemma MarkKeepsTable(g: Geometry, v: Volume, slot: Slot)
    requires g.Valid(|v|) && ValidSlot(g, slot) && g.dataStart <= SlotSector(g, slot) < |v|
    ensures Table(g, MarkDeleted(g, v, slot)) == Table(g, v)
  {
    DataWriteKeepsTable(g, v, MarkDeleted(g, v, slot));
  }

  /** Deletion frees exactly the clusters of p, and on disk touches nothing else but the first
      byte of the entry's name. */
  lemma DeleteEffect(g: Geometry, v: Volume, slot: Slot, p: seq<nat>)
    requires g.Valid(|v|) && ValidSlot(g, slot) && g.dataStart <= SlotSector(g, slot) < |v|
    requires IsChain(Table(g, v), StoredCluster(g, v, slot), p) && Within(p, g.Clusters() + 2)
    ensures var w := DeleteFile(g, v, slot, p);
            && Table(g, w) == Clear(Table(g, v), p)
            && |FreeList(Table(g, w))| == |FreeList(Table(g, v))| + |p|
            && (forall c :: 0 <= c < g.Clusters() + 2 ==> Table(g, w)[c] == if c in p then 0 else Table(g, v)[c])
            && (forall n :: 0 <= n < |v| && !InTable(g, n) && n != SlotSector(g, slot) ==> w[n] == v[n])
            && w[SlotSector(g, slot)] == v[SlotSector(g, slot)][32 * slot.index := 0xE5]
  {
    var fat := Table(g, v);
    MarkKeepsTable(g, v, slot);
    ClearOnVolumeTable(g, MarkDeleted(g, v, slot), p);
    ChainWithin(fat, StoredCluster(g, v, slot), p);
    forall i | 0 <= i < |p| ensures fat[p[i]] != 0 {
      ChainSuffix(fat, StoredCluster(g, v, slot), p, i);
    }
    ClearCounts(fat, p);
    forall c | 0 <= c < g.Clusters() + 2 ensures Clear(fat, p)[c] == if c in p then 0 else fat[c] {
      ClearAt(fat, p, c);
    }
  }

  /** The deleted entry no longer answers to any name that does not itself start with 0xE5. */
  lemma DeletedEntryIsGone(g: Geometry, v: Volume, slot: Slot, p: seq<nat>, name: seq<byte>)
    requires g.Valid(|v|) && ValidSlot(g, slot) && g.dataStart <= SlotSector(g, slot) < |v|
    requires Within(p, g.Clusters() + 2) && |name| >= 9
    ensures SameName(EntryName(DeleteFile(g, v, slot, p)[SlotSector(g, slot)], slot.index), name)
            ==> name[0] == 0xE5
  {
    ClearOnVolumeTable(g, MarkDeleted(g, v, slot), p);
    var stored := EntryName(DeleteFile(g, v, slot, p)[SlotSector(g, slot)], slot.index);
    assert stored[0] == 0xE5;
    if SameName(stored, name) {
      if stored == name[..8] {
        assert name[..8][0] == name[0];
      } else {
        var k :| 0 <= k < 8 && stored[..k] == name[..k] && stored[k] == 0x20 && name[k] == 0;
        assert stored[..k][0] == name[..k][0];
      }
    }
  }

  /** Files that share no cluster with the deleted one keep their chain and their bytes. */
  lemma DeleteKeepsOtherFiles(g: Geometry, v: Volume, slot: Slot, p: seq<nat>, b: nat, q: seq<nat>)
    requires g.Valid(|v|) && ValidSlot(g, slot) && g.dataStart <= SlotSector(g, slot) < |v|
    requires Within(p, g.Clusters() + 2)
    requires IsChain(Table(g, v), b, q) && (forall x :: x in q ==> x !in p) && slot.cluster !in q
    ensures var w := DeleteFile(g, v, slot, p);
            && IsChain(Table(g, w), b, q) && OnDisk(g, v, q) && OnDisk(g, w, q)
            && ChainBytes(g, w, q) == ChainBytes(g, v, q)
  {
    var marked, w := MarkDeleted(g, v, slot), DeleteFile(g, v, slot, p);
    MarkKeepsTable(g, v, slot);
    ClearOnVolumeTable(g, marked, p);
    ClearKeepsOthers(Table(g, v), p, b, q);
    ChainOnDisk(g, v, b, q);
    ChainOnDisk(g, w, b, q);
    ChainWithin(Table(g, v), b, q);
    SlotSectorOutside(g, v, marked, slot, q);
    BytesFrame(g, marked, w, [], q);
  }

  // ---------------------------------------------------------------------------
  // Names
  // ---------------------------------------------------------------------------

  /** A name as fat_write_file stores it: eight bytes, filled up with spaces. */
  function Padded(name: seq<byte>): (r: seq<byte>)
    requires |name| <= 8
    ensures |r| == 8
  {
    name + seq(8 - |name|, _ => 0x20)
  }

  /** A stored name without spaces or zeros answers exactly to itself, possibly followed by spaces,
      and then the terminator. */
  lemma StoredNameAnswersTo(stored: seq<byte>, name: seq<byte>)
    requires |stored| <= 8 && |name| >= 9
    requires forall i :: 0 <= i < |stored| ==> stored[i] != 0x20 && stored[i] != 0
    ensures SameName(Padded(stored), name)
            <==> exists k :: |stored| <= k <= 8 && name[..k] == Padded(stored)[..k] && name[k] == 0
  {
  }

  // ---------------------------------------------------------------------------
  // Allocation
  // ---------------------------------------------------------------------------

  lemma NothingClaimed(g: Geometry, v: Volume)
    requires g.Valid(|v|)
    ensures ClaimOnVolume(g, v, []) == v
  {
  }

  /** The search for free clusters moves on by one entry. */
  lemma TakeOne(fat: Fat, taken: seq<nat>, i: nat, count: nat)
    requires i < |fat| && count > 0
    ensures taken + Take(FreeFrom(fat, i), count)
            == if fat[i] == 0 then taken + [i] + Take(FreeFrom(fat, i + 1), count - 1)
               else taken + Take(FreeFrom(fat, i + 1), count)
  {
  }

  lemma TakeDone(fat: Fat, taken: seq<nat>, i: nat, count: nat)
    requires i >= |fat| || count == 0
    ensures taken + Take(FreeFrom(fat, i), count) == taken
  {
  }

  /** n is the least number of clusters with room for that many bytes; none at all if rounding up leaves
      the 32-bit range. */
  ghost predicate LeastCount(g: Geometry, size: uint32, n: nat) {
    if size + g.ClusterBytes() - 1 >= 0x1_0000_0000 then n == 0
    else n * g.ClusterBytes() >= size && (n == 0 || (n - 1) * g.ClusterBytes() < size)
  }

  /** A chain t of free clusters has been added to fat, of n clusters or of all free ones if there are
      fewer; no free cluster that is left is lower; every other chain is still there. */
  ghost predicate Allocated(fat: Fat, fat': Fat, t: seq<nat>, n: nat) {
    && AllFree(fat, t) && (t != [] ==> IsChain(fat', t[0], t))
    && |t| <= n && (|t| < n ==> forall x :: Free(fat, x) ==> x in t)
    && (forall x: nat, y: nat :: y in t && Free(fat, x) && x !in t ==> y < x)
    && (forall x :: Free(fat', x) <==> Free(fat, x) && x !in t)
    && (Forest(fat) ==> Forest(fat'))
    && (forall c, p :: IsChain(fat, c, p) ==> IsChain(fat', c, p))
  }

  /** fat_alloc_cluster claims the least number of clusters that hold the bytes, or all free ones if there
      are fewer: the lowest ones. */
  lemma AllocationEffect(g: Geometry, v: Volume, size: uint32, n: nat)
    requires g.Valid(|v|) && LeastCount(g, size, n)
    ensures ClusterCount(g, size) == n
    ensures var fat, t := Table(g, v), Take(FreeList(Table(g, v)), n);
            && Within(t, g.Clusters() + 2)
            && Allocated(fat, Table(g, ClaimOnVolume(g, v, t)), t, n)
            && |FreeList(Table(g, ClaimOnVolume(g, v, t)))| == |FreeList(fat)| - |t|
  {
    hide Allocated, FreeFrom, ClusterCount, Table, Quotient;
    var fat := Table(g, v);
    var t := Take(FreeList(fat), n);
    ClusterCountIs(g, size, n);
    LowestFreeAreClaimable(fat, n);
    ClaimOnVolumeTable(g, v, t);
    ClaimAllocates(fat, n);
    ClaimCounts(fat, t);
  }

  lemma ClaimAllocates(fat: Fat, n: nat)
    requires SmallTable(fat)
    ensures var t := Take(FreeList(fat), n); Within(t, |fat|) && Allocated(fat, Claim(fat, t), t, n)
  {
    hide FreeFrom, Claim, Forest, IsChain, Free, Within, Distinct;
    var t := Take(FreeList(fat), n);
    LowestFreeAreClaimable(fat, n);
    LowestAreTaken(fat, n);
    ClaimUses(fat, t);
    if t != [] {
      ClaimIsChain(fat, t);
    }
    if Forest(fat) {
      ClaimKeepsForest(fat, t);
    }
    forall c, p | IsChain(fat, c, p) ensures IsChain(Claim(fat, t), c, p) {
      ClaimKeepsChains(fat, t, c, p);
    }
  }

  lemma LowestAreTaken(fat: Fat, n: nat)
    ensures var t := Take(FreeList(fat), n);
            && (|t| < n ==> forall x :: Free(fat, x) ==> x in t)
            && (forall x: nat, y: nat :: y in t && Free(fat, x) && x !in t ==> y < x)
  {
    hide FreeFrom;
    var free, t := FreeList(fat), Take(FreeList(fat), n);
    forall x | Free(fat, x) ensures x in free {
      FreeFromComplete(fat, 2, x);
    }
    forall k | 0 <= k < |t| ensures free[k] in t {
      assert t[k] == free[k];
    }
    forall x: nat, y: nat | y in t && Free(fat, x) && x !in t ensures y < x {
      var i :| 0 <= i < |t| && t[i] == y;
      var j :| 0 <= j < |free| && free[j] == x;
      FreeFromAscending(fat, 2, i, j);
    }
  }

  lemma ClaimUses(fat: Fat, t: seq<nat>)
    requires Within(t, |fat|) && Distinct(t)
    ensures forall x :: Free(Claim(fat, t), x) <==> Free(fat, x) && x !in t
  {
    forall x | 2 <= x < |fat| ensures Free(Claim(fat, t), x) <==> Free(fat, x) && x !in t {
      if x in t {
        var i :| 0 <= i < |t| && t[i] == x;
        ClaimLinks(fat, t, i);
      } else {
        ClaimFrame(fat, t, x);
      }
    }
  }

  /** The count is the least one that suffices, unless rounding up leaves the 32-bit range: then it is 0. */
  lemma ClusterCountIs(g: Geometry, size: uint32, n: nat)
    requires 0 < g.sectorsPerCluster < 256 && LeastCount(g, size, n)
    ensures ClusterCount(g, size) == n
  {
    hide Quotient;
    var b := g.ClusterBytes();
    var sum := size + b - 1;
    QuotientIsDivision(sum % 0x1_0000_0000, b);
    if sum >= 0x1_0000_0000 {
      DivisionUnique(sum % 0x1_0000_0000, b, 0);
    } else {
      OneLess(n, b);
      DivisionUnique(sum, b, n);
    }
  }

  lemma OneLess(n: nat, b: nat)
    ensures n > 0 ==> (n - 1) * b == n * b - b
  {
  }

  /** The clusters asked for can hold the bytes exactly when the rounding up does not leave the 32-bit
      range, and then one cluster less could not. */
  lemma ClusterCountSuffices(g: Geometry, size: uint32)
    requires 0 < g.sectorsPerCluster < 256
    ensures LeastCount(g, size, ClusterCount(g, size))
    ensures ClusterCount(g, size) * g.ClusterBytes() >= size
            <==> size + g.ClusterBytes() - 1 < 0x1_0000_0000
  {
    hide Quotient;
    var b := g.ClusterBytes();
    var sum, n := size + b - 1, ClusterCount(g, size);
    QuotientIsDivision(sum % 0x1_0000_0000, b);
    OneLess(n, b);
    if sum >= 0x1_0000_0000 {
      NotLess(sum % 0x1_0000_0000, b, 0, n);
      DivisionUnique(sum % 0x1_0000_0000, b, 0);
    }
  }

  /** While clusters are being claimed in ascending order, the entries still ahead are the old ones. */
  lemma ClaimedEntry(g: Geometry, v0: Volume, taken: seq<nat>, i: nat)
    requires g.Valid(|v0|) && Within(taken, g.Clusters() + 2)
    requires i < g.Clusters() + 2 && forall k :: 0 <= k < |taken| ==> taken[k] < i
    ensures Table(g, ClaimOnVolume(g, v0, taken))[i] == Table(g, v0)[i]
  {
    ClaimOnVolumeTable(g, v0, taken);
    ClaimFrame(Table(g, v0), taken, i);
  }
}
