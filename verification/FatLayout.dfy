/** Where every byte lies: the table, the contents of files, and a new directory entry. */
module FatLayout {
  import opened Options
  import opened SectorBytes
  import opened FatVolume
  import opened FatChain
  import opened FatFile
  import opened FatLaws

  // ---------------------------------------------------------------------------
  // The table
  // ---------------------------------------------------------------------------

  /** The bytes of n sectors from lo on. */
  ghost function Raw(v: Volume, lo: nat, n: nat): (r: seq<byte>)
    requires lo + n <= |v|
    ensures |r| == 512 * n
  {
    if n == 0 then [] else Raw(v, lo, n - 1) + v[lo + n - 1]
  }

  lemma {:induction false} RawAt(v: Volume, lo: nat, n: nat, k: nat)
    requires lo + n <= |v| && k < 512 * n
    ensures Raw(v, lo, n)[k] == v[lo + k / 512][k % 512]
  {
    if k < 512 * (n - 1) {
      RawAt(v, lo, n - 1, k);
    }
  }

  /** Entry c of the table is the little-endian word at byte 4 * c of the table's sectors. */
  lemma TableIsLittleEndian(g: Geometry, v: Volume, c: nat)
    requires g.Valid(|v|) && c < g.Clusters() + 2
    ensures var t := Raw(v, g.fatStart, g.dataStart - g.fatStart);
            && 4 * c + 4 <= |t|
            && Table(g, v)[c] as int == t[4 * c] as int + 0x100 * t[4 * c + 1] as int
                                        + 0x1_0000 * t[4 * c + 2] as int + 0x100_0000 * t[4 * c + 3] as int
  {
    hide Quotient, Raw, Table;
    TableAt(g, v, c);
    EntryInTable(g, |v|, c);
    TableByte(g, v, c, 0);
    TableByte(g, v, c, 1);
    TableByte(g, v, c, 2);
    TableByte(g, v, c, 3);
  }

  lemma TableByte(g: Geometry, v: Volume, c: nat, b: nat)
    requires g.Valid(|v|) && c < g.Clusters() + 2 && b < 4
    ensures g.FatSector(c) < |v| && 4 * c + b < |Raw(v, g.fatStart, g.dataStart - g.fatStart)|
    ensures Raw(v, g.fatStart, g.dataStart - g.fatStart)[4 * c + b] == v[g.FatSector(c)][g.EntryOffset(c) + b]
  {
    hide Quotient;
    EntryInTable(g, |v|, c);
    RawAt(v, g.fatStart, g.dataStart - g.fatStart, 4 * c + b);
  }

  // ---------------------------------------------------------------------------
  // The contents of a file
  // ---------------------------------------------------------------------------

  lemma {:induction false} RunAt(g: Geometry, v: Volume, c: nat, s: nat, z: nat, o: nat)
    requires 2 <= c && s <= z < g.sectorsPerCluster && g.FirstSector(c) + g.sectorsPerCluster <= |v| && o < 512
    ensures SectorRun(g, v, c, s)[512 * (z - s) + o] == v[g.FirstSector(c) + z][o]
    decreases z - s
  {
    if s < z {
      RunAt(g, v, c, s + 1, z, o);
    }
  }

  /** Byte o of sector z of the i-th cluster is found at that place of the file, and on the disk in the
      sector that the multiplication of the source gives. */
  lemma {:induction false} ChainByteAt(g: Geometry, v: Volume, p: seq<nat>, i: nat, z: nat, o: nat)
    requires OnDisk(g, v, p) && i < |p| && z < g.sectorsPerCluster && o < 512
    ensures 0 <= i * g.ClusterBytes() + 512 * z + o < |ChainBytes(g, v, p)|
    ensures 0 <= g.dataStart + (p[i] - 2) * g.sectorsPerCluster + z < |v|
    ensures ChainBytes(g, v, p)[i * g.ClusterBytes() + 512 * z + o]
            == v[g.dataStart + (p[i] - 2) * g.sectorsPerCluster + z][o]
  {
    FirstSectorFormula(g, p[i]);
    if i == 0 {
      RunAt(g, v, p[0], 0, z, o);
    } else {
      ChainByteAt(g, v, p[1..], i - 1, z, o);
      OneMore(i - 1, g.ClusterBytes());
    }
  }

  /** data filled up with zeros to whole sectors. */
  function Filled512(data: seq<byte>): (r: seq<byte>)
    ensures |r| % 512 == 0 && |data| <= |r| < |data| + 512
    ensures forall k :: 0 <= k < |r| ==> r[k] == if k < |data| then data[k] else 0
  {
    data + seq((|data| + 511) / 512 * 512 - |data|, _ => 0)
  }

  lemma SameChunk(data: seq<byte>, off: nat)
    requires off % 512 == 0
    ensures Chunk(data, off) == Chunk(Filled512(data), off) && (off >= |data| <==> off >= |Filled512(data)|)
  {
  }

  lemma {:induction false} SameSectors(g: Geometry, v: Volume, c: nat, s: nat, data: seq<byte>, off: nat)
    requires 2 <= c && s <= g.sectorsPerCluster && g.FirstSector(c) + g.sectorsPerCluster <= |v| && off % 512 == 0
    ensures WriteSectors(g, v, c, s, data, off) == WriteSectors(g, v, c, s, Filled512(data), off)
    decreases g.sectorsPerCluster - s
  {
    hide Chunk, Filled512;
    SameChunk(data, off);
    if s < g.sectorsPerCluster && off < |data| {
      SameSectors(g, v[g.FirstSector(c) + s := Chunk(data, off)], c, s + 1, data, off + 512);
    }
  }

  lemma {:induction false} SameWrite(g: Geometry, v: Volume, c: nat, data: seq<byte>, off: nat)
    requires g.Valid(|v|) && (EndOfChain(c) || 2 <= c < g.Clusters() + 2) && off % 512 == 0
    ensures WriteFrom(g, v, c, data, off) == WriteFrom(g, v, c, Filled512(data), off)
    decreases |data| - off
  {
    hide Filled512, WriteSectors, Table, Quotient, Extend, FreeFrom, Chunk;
    if !EndOfChain(c) {
      ClusterInside(g, |v|, c);
      SameSectors(g, v, c, 0, data, off);
      SameChunk(data, off + g.ClusterBytes());
      if off + g.ClusterBytes() < |data| {
        var (extended, f) := Extend(g, WriteSectors(g, v, c, 0, data, off), c);
        SameWrite(g, extended, f, data, off + g.ClusterBytes());
      }
    }
  }

  lemma WholeSectors(data: seq<byte>, k: nat, sectors: nat)
    ensures |data| <= (k + 1) * (sectors * 512) <==> |Filled512(data)| <= (k + 1) * (sectors * 512)
  {
    assert (k + 1) * (sectors * 512) == ((k + 1) * sectors) * 512;
  }

  lemma SameClusters(g: Geometry, data: seq<byte>)
    requires g.sectorsPerCluster > 0
    ensures MoreClusters(|Filled512(data)|, g.ClusterBytes()) == MoreClusters(|data|, g.ClusterBytes())
  {
    hide MoreClusters, Filled512;
    var m, n, b := MoreClusters(|data|, g.ClusterBytes()), MoreClusters(|Filled512(data)|, g.ClusterBytes()), g.ClusterBytes();
    MoreClustersEnough(|data|, b, m);
    MoreClustersEnough(|data|, b, n);
    MoreClustersEnough(|Filled512(data)|, b, m);
    MoreClustersEnough(|Filled512(data)|, b, n);
    WholeSectors(data, m, g.sectorsPerCluster);
    WholeSectors(data, n, g.sectorsPerCluster);
  }

  /** After a write the bytes of the file's chain start with the data and zeros to the end of its last
      sector, as far as there is room. */
  lemma RestIsZero(g: Geometry, v: Volume, slot: Slot, data: seq<byte>)
    requires g.Valid(|v|) && ValidSlot(g, slot) && g.dataStart <= SlotSector(g, slot) < |v|
    requires |data| < 0x1_0000_0000 && InUse(Table(g, v), StoredCluster(g, v, slot))
    requires HasChain(Table(g, v), StoredCluster(g, v, slot))
    ensures var w, c := WriteFile(g, v, slot, data), StoredCluster(g, v, slot);
            && HasChain(Table(g, w), c) && OnDisk(g, w, ChainOf(Table(g, w), c))
            && StartsWith(ChainBytes(g, w, ChainOf(Table(g, w), c)),
                          Part(Filled512(data), 0, Room(g, v, slot, |data|)))
  {
    hide Filled512, SetSize, WriteFrom, Table, ChainBytes, StartsWith, Part, Filled, FreeFrom, MoreClusters, Quotient;
    var c, v1 := StoredCluster(g, v, slot), SetSize(g, v, slot, |data|);
    var w, t := WriteFile(g, v, slot, data), DataClusters(g, v, slot, |data|);
    SetSizeEffect(g, v, slot, |data|);
    SameWrite(g, v1, c, data, 0);
    WriteStores(g, v1, c, Filled512(data), 0);
    SameClusters(g, data);
    FilledShape(Table(g, v), c, |Filled512(data)|, g.ClusterBytes());
    ChainBytesLength(g, w, t);
    WrittenBytes(g, v, slot, data);
    if |t| == 1 {
      assert t == [c];
      ChainStart(Table(g, v), c);
      BytesOfPrefix(g, w, c, ChainOf(Table(g, w), c), Part(Filled512(data), 0, |ChainBytes(g, w, t)|));
    }
  }

  // ---------------------------------------------------------------------------
  // A new directory entry
  // ---------------------------------------------------------------------------

  /** Position of the first zero, at most n. */
  function Terminator(s: seq<byte>, n: nat): (r: nat)
    requires n <= |s|
    ensures r <= n && (r < n ==> s[r] == 0) && forall k :: 0 <= k < r ==> s[k] != 0
  {
    if n == 0 then 0
    else
      var r := Terminator(s, n - 1);
      if r < n - 1 || s[n - 1] == 0 then r else n
  }

  /** The field that one of the two filling loops leaves: the string up to its end or the end of the
      field, then spaces. */
  method FillField(buf: array<byte>, at: nat, size: nat, s: seq<byte>)
    requires at + size <= buf.Length && size <= |s|
    modifies buf
    ensures buf[at..at + size] == s[..Terminator(s, size)] + seq(size - Terminator(s, size), _ => 0x20)
    ensures forall k :: 0 <= k < buf.Length && !(at <= k < at + size) ==> buf[k] == old(buf[k])
  {
    var j := 0;
    while j < size
      invariant 0 <= j <= size
      invariant forall k :: at <= k < at + j ==> buf[k] == 0x20
      invariant forall k :: 0 <= k < buf.Length && !(at <= k < at + size) ==> buf[k] == old(buf[k])
    {
      buf[at + j] := 0x20;
      j := j + 1;
    }
    j := 0;
    while j < size && s[j] != 0
      invariant 0 <= j <= size && forall k :: 0 <= k < j ==> s[k] != 0
      invariant forall k :: at <= k < at + size ==> buf[k] == if k < at + j then s[k - at] else 0x20
      invariant forall k :: 0 <= k < buf.Length && !(at <= k < at + size) ==> buf[k] == old(buf[k])
    {
      buf[at + j] := s[j];
      j := j + 1;
    }
    assert j == Terminator(s, size);
  }

  /** Fills entry i of a directory sector for a new empty file, as fat_write_file does. What the reader takes
      for its name, size and first cluster are the name, 0 and that cluster; the fields in between and the
      other entries stay. */
  method FillSlot(buf: array<byte>, i: nat, name: seq<byte>, ext: seq<byte>, cluster: uint32)
    requires buf.Length == 512 && i < 16 && |name| >= 8 && |ext| >= 3
    modifies buf
    ensures EntryName(buf[..], i) == Padded(name[..Terminator(name, 8)])
    ensures EntrySize(buf[..], i) == 0 && EntryCluster(buf[..], i) == cluster && buf[32 * i + 11] == 0x20
    ensures buf[32 * i + 8..32 * i + 11] == ext[..Terminator(ext, 3)] + seq(3 - Terminator(ext, 3), _ => 0x20)
    ensures forall k :: 0 <= k < 512 && (k < 32 * i || 12 <= k - 32 * i < 20 || 22 <= k - 32 * i < 26 || k >= 32 * i + 32)
              ==> buf[k] == old(buf[k])
  {
    FillField(buf, 32 * i, 8, name);
    FillField(buf, 32 * i + 8, 3, ext);
    assert buf[32 * i..32 * i + 8] == Padded(name[..Terminator(name, 8)]);
    ghost var stored, after := buf[32 * i..32 * i + 8], buf[32 * i + 8..32 * i + 11];
    buf[32 * i + 11] := 0x20;
    buf[32 * i + 28], buf[32 * i + 29], buf[32 * i + 30], buf[32 * i + 31] := 0, 0, 0, 0;
    buf[32 * i + 20], buf[32 * i + 21] := cluster / 0x1_0000 % 0x100, cluster / 0x100_0000;
    buf[32 * i + 26], buf[32 * i + 27] := cluster % 0x100, cluster / 0x100 % 0x100;
    assert buf[32 * i..32 * i + 8] == stored;
    assert EntryName(buf[..], i) == stored && buf[32 * i + 8..32 * i + 11] == after;
    BytesAddUp(cluster);
  }

  /** A file can be found under the name it was created with exactly if the name has at most eight
      characters. */
  lemma CreatedNameFoundIff(name: seq<byte>)
    requires |name| >= 9
    ensures SameName(Padded(name[..Terminator(name, 8)]), name) <==> exists k :: 0 <= k <= 8 && name[k] == 0
  {
    var k := Terminator(name, 8);
    var stored := Padded(name[..k]);
    if k < 8 {
      assert stored[..k] == name[..k] && stored[k] == 0x20;
    } else {
      assert stored == name[..8];
    }
  }
}
