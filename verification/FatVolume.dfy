/** Where things lie on a FAT32 volume: the table of cluster entries and the data sectors. */
module FatVolume {
  import opened SectorBytes

  type Volume = seq<Sector>

  /** a / b, by repeated subtraction. */
  function Quotient(a: nat, b: nat): nat
    requires b > 0
    decreases a
  {
    if a < b then 0 else 1 + Quotient(a - b, b)
  }

  lemma {:induction false} QuotientIsDivision(a: nat, b: nat)
    requires b > 0
    ensures Quotient(a, b) == a / b && Quotient(a, b) * b <= a < Quotient(a, b) * b + b
    decreases a
  {
    if a >= b {
      QuotientIsDivision(a - b, b);
      var q := Quotient(a - b, b);
      assert (q + 1) * b == q * b + b;
      DivisionUnique(a, b, q + 1);
    } else {
      DivisionUnique(a, b, 0);
    }
  }

  lemma DivisionUnique(a: nat, b: nat, q: nat)
    requires b > 0 && q * b <= a < q * b + b
    ensures a / b == q
  {
    var d := a / b;
    assert d * b <= a < d * b + b;
    NotLess(a, b, d, q);
    NotLess(a, b, q, d);
  }

  lemma NotLess(a: nat, b: nat, d: nat, q: nat)
    requires q * b <= a < d * b + b
    ensures q <= d
  {
    assert (d + 1 - q) * b == d * b + b - q * b;
    PositiveFactor(d + 1 - q, b);
  }

  lemma PositiveFactor(x: int, b: nat)
    requires x * b > 0
    ensures x > 0
  {
  }

  /** The numbers that fat_init takes from the boot sector. */
  datatype Geometry = Geometry(fatStart: nat, dataStart: nat, sectorsPerCluster: nat, totalSectors: nat)
  {
    /** Number of data clusters, as fat_alloc_cluster and fat_extend_chain compute it. */
    function Clusters(): nat
      requires sectorsPerCluster > 0 && 2048 <= dataStart <= 2048 + totalSectors
    {
      Quotient(totalSectors - (dataStart - 2048), sectorsPerCluster)
    }

    function ClusterBytes(): nat {
      sectorsPerCluster * 512
    }

    /** A consistent boot sector for a disk of that many sectors. */
    ghost predicate Valid(sectors: nat) {
      && 0 < sectorsPerCluster < 256
      && 2048 <= fatStart < dataStart <= 2048 + totalSectors <= sectors <= 0x1000_0000
      && Clusters() + 2 <= 128 * (dataStart - fatStart)
      && Clusters() + 2 <= 0x0FFF_FFF7
    }

    /** Sector and byte offset of a cluster's table entry. */
    function FatSector(c: nat): nat {
      fatStart + c * 4 / 512
    }

    function EntryOffset(c: nat): (o: nat)
      ensures o % 4 == 0 && o + 4 <= 512
    {
      c * 4 % 512 / 4 * 4
    }

    /** First sector of a data cluster; cluster numbers start at 2. */
    function FirstSector(c: nat): nat
      decreases c
    {
      if c <= 2 then dataStart else FirstSector(c - 1) + sectorsPerCluster
    }
  }

  lemma {:induction false} FirstSectorFormula(g: Geometry, c: nat)
    requires c >= 2
    ensures g.FirstSector(c) == g.dataStart + (c - 2) * g.sectorsPerCluster
  {
    if c > 2 {
      FirstSectorFormula(g, c - 1);
      assert (c - 2) * g.sectorsPerCluster == (c - 3) * g.sectorsPerCluster + g.sectorsPerCluster;
    }
  }

  lemma {:induction false} ClustersInOrder(g: Geometry, c: nat, d: nat)
    requires 2 <= c < d
    ensures g.FirstSector(c) + g.sectorsPerCluster <= g.FirstSector(d)
    decreases d
  {
    if d > c + 1 {
      ClustersInOrder(g, c, d - 1);
    }
  }

  lemma DataAreaFits(g: Geometry, sectors: nat)
    requires g.Valid(sectors)
    ensures g.FirstSector(g.Clusters() + 2) <= sectors
  {
    FirstSectorFormula(g, g.Clusters() + 2);
    QuotientIsDivision(g.totalSectors - (g.dataStart - 2048), g.sectorsPerCluster);
  }

  /** The clusters counted are exactly those that lie in the partition as a whole. */
  lemma AllClustersCounted(g: Geometry, sectors: nat, c: nat)
    requires g.Valid(sectors) && c >= 2
    ensures c < g.Clusters() + 2 <==> g.FirstSector(c) + g.sectorsPerCluster <= 2048 + g.totalSectors
  {
    hide Quotient;
    QuotientIsDivision(g.totalSectors - (g.dataStart - 2048), g.sectorsPerCluster);
    FirstSectorFormula(g, g.Clusters() + 2);
    FirstSectorFormula(g, g.Clusters() + 3);
    var n, k := g.Clusters(), g.sectorsPerCluster;
    assert (n + 1) * k == n * k + k;
    if c < n + 2 {
      ClustersInOrder(g, c, n + 2);
    } else if c > n + 2 {
      ClustersInOrder(g, n + 2, c);
    }
  }

  /** Every data cluster lies inside the disk, behind the table. */
  lemma ClusterInside(g: Geometry, sectors: nat, c: nat)
    requires g.Valid(sectors) && 2 <= c < g.Clusters() + 2
    ensures g.dataStart <= g.FirstSector(c) && g.FirstSector(c) + g.sectorsPerCluster <= sectors
  {
    hide Quotient;
    DataAreaFits(g, sectors);
    ClustersInOrder(g, c, g.Clusters() + 2);
    if c > 2 {
      ClustersInOrder(g, 2, c);
    }
  }

  /** Different clusters share no sector. */
  lemma ClustersApart(g: Geometry, c: nat, d: nat, s: nat, t: nat)
    requires 2 <= c && 2 <= d && c != d && s < g.sectorsPerCluster && t < g.sectorsPerCluster
    ensures g.FirstSector(c) + s != g.FirstSector(d) + t
  {
    if c < d { ClustersInOrder(g, c, d); } else { ClustersInOrder(g, d, c); }
  }

  lemma EntryInTable(g: Geometry, sectors: nat, c: nat)
    requires g.Valid(sectors) && c < g.Clusters() + 2
    ensures g.fatStart <= g.FatSector(c) < g.dataStart
  {
  }

  lemma EntriesApart(g: Geometry, c: nat, d: nat)
    ensures c != d && g.FatSector(c) == g.FatSector(d)
            ==> g.EntryOffset(c) + 4 <= g.EntryOffset(d) || g.EntryOffset(d) + 4 <= g.EntryOffset(c)
  {
  }

  // ---------------------------------------------------------------------------
  // The flat table
  // ---------------------------------------------------------------------------

  function Entry(g: Geometry, v: Volume, c: nat): uint32
    requires g.FatSector(c) < |v|
  {
    U32(v[g.FatSector(c)], g.EntryOffset(c))
  }

  function SetEntry(g: Geometry, v: Volume, c: nat, x: uint32): (r: Volume)
    requires g.FatSector(c) < |v|
    ensures |r| == |v|
  {
    v[g.FatSector(c) := PutU32(v[g.FatSector(c)], g.EntryOffset(c), x)]
  }

  /** The table as one sequence, entry c for cluster c. */
  function Table(g: Geometry, v: Volume): (fat: seq<uint32>)
    requires g.Valid(|v|)
    ensures |fat| == g.Clusters() + 2
  {
    Entries(g, v, g.Clusters() + 2)
  }

  function Entries(g: Geometry, v: Volume, n: nat): (r: seq<uint32>)
    requires g.Valid(|v|) && n <= g.Clusters() + 2
    ensures |r| == n
  {
    if n == 0 then []
    else
      EntryInTable(g, |v|, n - 1);
      Entries(g, v, n - 1) + [Entry(g, v, n - 1)]
  }

  lemma {:induction false} EntriesAt(g: Geometry, v: Volume, n: nat, c: nat)
    requires g.Valid(|v|) && c < n <= g.Clusters() + 2
    ensures g.FatSector(c) < |v| && Entries(g, v, n)[c] == Entry(g, v, c)
  {
    EntryInTable(g, |v|, c);
    if c < n - 1 {
      EntriesAt(g, v, n - 1, c);
    }
  }

  lemma TableAt(g: Geometry, v: Volume, c: nat)
    requires g.Valid(|v|) && c < g.Clusters() + 2
    ensures g.fatStart <= g.FatSector(c) < g.dataStart
    ensures Table(g, v)[c] == Entry(g, v, c)
  {
    EntryInTable(g, |v|, c);
    EntriesAt(g, v, g.Clusters() + 2, c);
  }

  lemma SetEntryInTable(g: Geometry, v: Volume, c: nat, x: uint32)
    requires g.Valid(|v|) && c < g.Clusters() + 2
    ensures g.fatStart <= g.FatSector(c) < g.dataStart
    ensures Table(g, SetEntry(g, v, c, x)) == Table(g, v)[c := x]
  {
    EntryInTable(g, |v|, c);
    var w := SetEntry(g, v, c, x);
    forall d | 0 <= d < g.Clusters() + 2
      ensures Table(g, w)[d] == Table(g, v)[c := x][d]
    {
      TableAt(g, v, d);
      TableAt(g, w, d);
      EntriesApart(g, c, d);
      PutThenGet(v[g.FatSector(c)], g.EntryOffset(c), x, g.EntryOffset(d));
    }
  }

  /** Writing behind the table leaves the table alone. */
  lemma DataWriteKeepsTable(g: Geometry, v: Volume, w: Volume)
    requires g.Valid(|v|) && |w| == |v|
    requires forall n :: g.fatStart <= n < g.dataStart ==> w[n] == v[n]
    ensures Table(g, w) == Table(g, v)
  {
    forall d | 0 <= d < g.Clusters() + 2
      ensures Table(g, w)[d] == Table(g, v)[d]
    {
      TableAt(g, v, d);
      TableAt(g, w, d);
    }
  }
}
