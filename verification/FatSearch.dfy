/** Which entry a search ends at, in terms of the entries themselves. */
module FatSearch {
  import opened Options
  import opened SectorBytes
  import opened FatVolume
  import opened FatChain
  import opened FatFile
  import opened FatLaws

  /** Entry a comes before entry b in a directory with the clusters d: in an earlier cluster of the chain,
      or in an earlier sector of the same one, or further to the front of the same sector. */
  ghost predicate Precedes(d: seq<nat>, a: Slot, b: Slot) {
    exists i, j :: 0 <= i <= j < |d| && d[i] == a.cluster && d[j] == b.cluster && Before(i, a, j, b)
  }

  predicate Before(i: nat, a: Slot, j: nat, b: Slot) {
    i < j || (i == j && (a.sector < b.sector || (a.sector == b.sector && a.index < b.index)))
  }

  lemma {:induction false} ClusterSearch(g: Geometry, v: Volume, c: nat, s: nat, name: seq<byte>, slot: Slot)
    requires |name| >= 9 && s <= g.sectorsPerCluster && 2 <= c
    requires g.FirstSector(c) + g.sectorsPerCluster <= |v|
    requires slot.cluster == c && s <= slot.sector && Matches(g, v, slot, name)
    ensures var r := FindInCluster(g, v, c, s, name);
            r.Some? && (r.value == slot || Before(0, r.value, 0, slot))
    decreases g.sectorsPerCluster - s
  {
    hide SameName, EntryName, FindInSector, Quotient;
    var i := FindInSector(v[g.FirstSector(c) + s], name, 0);
    if i == 16 {
      assert slot.sector != s;
      ClusterSearch(g, v, c, s + 1, name, slot);
    }
  }

  lemma {:induction false} ChainSearch(g: Geometry, v: Volume, p: seq<nat>, name: seq<byte>, slot: Slot)
    requires |name| >= 9 && OnDisk(g, v, p) && slot.cluster in p && Matches(g, v, slot, name)
    ensures var r := FindInChain(g, v, p, name);
            r.Some? && (r.value == slot || Precedes(p, r.value, slot))
  {
    hide FindInCluster, Matches;
    var here := FindInCluster(g, v, p[0], 0, name);
    var j :| 0 <= j < |p| && p[j] == slot.cluster;
    if j == 0 {
      ClusterSearch(g, v, p[0], 0, name, slot);
      assert here.value != slot ==> Before(0, here.value, 0, slot);
    } else if here.Some? {
      assert Before(0, here.value, j, slot);
    } else {
      assert p[1..][j - 1] == p[j];
      ChainSearch(g, v, p[1..], name, slot);
      var r := FindInChain(g, v, p[1..], name).value;
      if r != slot {
        var i, k :| 0 <= i <= k < |p[1..]| && p[1..][i] == r.cluster && p[1..][k] == slot.cluster && Before(i, r, k, slot);
        assert p[i + 1] == r.cluster && p[k + 1] == slot.cluster && Before(i + 1, r, k + 1, slot);
      }
    }
  }

  lemma PrecedesOneWay(d: seq<nat>, a: Slot, b: Slot)
    requires Distinct(d) && Precedes(d, a, b)
    ensures !Precedes(d, b, a)
  {
  }

  /** The first of all entries of the directory that answer to the name. */
  ghost predicate FirstMatch(g: Geometry, v: Volume, d: seq<nat>, name: seq<byte>, slot: Slot) {
    && slot.cluster in d && Matches(g, v, slot, name)
    && forall s: Slot :: s.cluster in d && Matches(g, v, s, name) && s != slot ==> Precedes(d, slot, s)
  }

  /** A search ends at an entry exactly if it is the first one that answers to the name, in the order of
      the clusters of the chain, the sectors and the entries in a sector; it finds none exactly if no
      entry in any cluster of the chain answers. */
  lemma LookupIff(g: Geometry, v: Volume, cwd: nat, name: seq<byte>)
    requires g.Valid(|v|) && HasChain(Table(g, v), cwd) && |name| >= 9
    ensures var d, r := ChainOf(Table(g, v), cwd), Lookup(g, v, cwd, name);
            && (forall slot :: r == Some(slot) <==> FirstMatch(g, v, d, name, slot))
            && (r == None <==> forall slot: Slot :: slot.cluster in d ==> !Matches(g, v, slot, name))
  {
    hide FindInChain, Precedes;
    var d, r := ChainOf(Table(g, v), cwd), Lookup(g, v, cwd, name);
    ChainOnDisk(g, v, cwd, d);
    forall i, j | 0 <= i < j < |d| ensures d[i] != d[j] {
      ChainDistinct(Table(g, v), cwd, d, i, j);
    }
    forall slot: Slot | slot.cluster in d && Matches(g, v, slot, name)
      ensures r.Some? && (r.value == slot || Precedes(d, r.value, slot))
    {
      ChainSearch(g, v, d, name, slot);
    }
    forall slot | FirstMatch(g, v, d, name, slot) ensures r == Some(slot) {
      if r.value != slot {
        PrecedesOneWay(d, r.value, slot);
      }
    }
  }
}
