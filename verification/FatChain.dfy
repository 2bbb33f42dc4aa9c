/** Cluster chains on the flat table: what allocation, extension and deletion do to the chains. */
module FatChain {
  import opened SectorBytes

  type Fat = seq<uint32>

  /** The cluster after c; 0x0FFFFFF8 and above mean that the chain ends. */
  function Next(fat: Fat, c: nat): (r: nat)
    requires c < |fat|
  {
    fat[c] % 0x1000_0000
  }

  predicate EndOfChain(c: nat) {
    c >= 0x0FFF_FFF8
  }

  predicate InUse(fat: Fat, c: nat) {
    2 <= c < |fat| && fat[c] != 0
  }

  predicate Free(fat: Fat, c: nat) {
    2 <= c < |fat| && fat[c] == 0
  }

  predicate SmallTable(fat: Fat) {
    |fat| <= 0x0FFF_FFF7
  }

  /** p lists the clusters met when following the table from c to the end of the chain. */
  ghost predicate IsChain(fat: Fat, c: nat, p: seq<nat>)
    decreases |p|
  {
    if EndOfChain(c) then p == []
    else p != [] && p[0] == c && InUse(fat, c) && IsChain(fat, Next(fat, c), p[1..])
  }

  /** The chain ends exactly at the eight marks from 0x0FFFFFF8 on in the low 28 bits, whatever the high four
      bits of an entry are. */
  lemma EndMarks(fat: Fat, c: nat)
    requires c < |fat|
    ensures EndOfChain(Next(fat, c)) <==> 0x0FFF_FFF8 <= fat[c] % 0x1000_0000 <= 0x0FFF_FFFF
  {
  }

  lemma {:induction false} HighBitsIgnored(fat: Fat, fat': Fat, c: nat, p: seq<nat>)
    requires |fat'| == |fat| && IsChain(fat, c, p)
    requires forall x :: 0 <= x < |fat| ==> fat'[x] % 0x1000_0000 == fat[x] % 0x1000_0000 && (fat'[x] == 0 <==> fat[x] == 0)
    ensures IsChain(fat', c, p)
    decreases |p|
  {
    if !EndOfChain(c) {
      HighBitsIgnored(fat, fat', Next(fat, c), p[1..]);
    }
  }

  ghost predicate HasChain(fat: Fat, c: nat) {
    exists p :: IsChain(fat, c, p)
  }

  ghost function ChainOf(fat: Fat, c: nat): (p: seq<nat>)
    requires HasChain(fat, c)
    ensures IsChain(fat, c, p)
  {
    var p :| IsChain(fat, c, p); p
  }

  lemma {:induction false} ChainUnique(fat: Fat, c: nat, p: seq<nat>, q: seq<nat>)
    requires IsChain(fat, c, p) && IsChain(fat, c, q)
    ensures p == q
    decreases |p|
  {
    if !EndOfChain(c) {
      ChainUnique(fat, Next(fat, c), p[1..], q[1..]);
      assert p == [c] + p[1..] && q == [c] + q[1..];
    }
  }

  /** A suffix of a chain is a chain. */
  lemma {:induction false} ChainSuffix(fat: Fat, c: nat, p: seq<nat>, i: nat)
    requires IsChain(fat, c, p) && i < |p|
    ensures InUse(fat, p[i]) && !EndOfChain(p[i]) && IsChain(fat, p[i], p[i..])
    ensures IsChain(fat, Next(fat, p[i]), p[i + 1..])
    decreases i
  {
    if i == 0 {
      assert p[0..] == p;
    } else {
      ChainSuffix(fat, Next(fat, c), p[1..], i - 1);
      assert p[1..][i - 1..] == p[i..];
      assert p[1..][i..] == p[i + 1..];
    }
  }

  /** A chain never meets the same cluster twice, so following it terminates. */
  lemma ChainDistinct(fat: Fat, c: nat, p: seq<nat>, i: nat, j: nat)
    requires IsChain(fat, c, p) && i < j < |p|
    ensures p[i] != p[j]
  {
    if p[i] == p[j] {
      ChainSuffix(fat, c, p, i);
      ChainSuffix(fat, c, p, j);
      ChainUnique(fat, p[i], p[i..], p[j..]);
      assert false;
    }
  }

  lemma ChainHead(fat: Fat, c: nat, p: seq<nat>)
    requires IsChain(fat, c, p) && p != []
    ensures c !in p[1..]
  {
    forall j | 1 <= j < |p| ensures p[j] != c {
      ChainDistinct(fat, c, p, 0, j);
    }
  }

  /** A chain looks only at its own entries. */
  lemma {:induction false} ChainFrame(fat: Fat, fat': Fat, c: nat, p: seq<nat>)
    requires IsChain(fat, c, p) && |fat'| == |fat|
    requires forall x :: x in p && x < |fat| ==> fat'[x] == fat[x]
    ensures IsChain(fat', c, p)
    decreases |p|
  {
    if p != [] {
      ChainFrame(fat, fat', Next(fat, c), p[1..]);
    }
  }

  // ---------------------------------------------------------------------------
  // The table as a forest of chains
  // ---------------------------------------------------------------------------

  ghost predicate OnePredecessor(fat: Fat) {
    forall c, d :: InUse(fat, c) && InUse(fat, d) && c != d && Next(fat, c) == Next(fat, d)
                   ==> EndOfChain(Next(fat, c))
  }

  /** Every cluster in use starts a chain that ends properly (so there is no cycle and no link to
      a free or non-existing cluster), and no two clusters link to the same one. */
  ghost predicate Forest(fat: Fat) {
    && SmallTable(fat)
    && (forall c :: InUse(fat, c) ==> HasChain(fat, c))
    && OnePredecessor(fat)
  }

  ghost predicate NoPredecessor(fat: Fat, c: nat) {
    forall d :: InUse(fat, d) ==> Next(fat, d) != c
  }

  lemma LinkTargetInUse(fat: Fat, c: nat)
    requires Forest(fat) && InUse(fat, c)
    ensures EndOfChain(Next(fat, c)) || InUse(fat, Next(fat, c))
  {
    var p :| IsChain(fat, c, p);
    assert IsChain(fat, Next(fat, c), p[1..]);
  }

  // ---------------------------------------------------------------------------
  // Free clusters in ascending order
  // ---------------------------------------------------------------------------

  /** The free clusters from i on, lowest first. */
  ghost function FreeFrom(fat: Fat, i: nat): (r: seq<nat>)
    decreases |fat| - i
    ensures forall x :: x in r ==> i <= x < |fat| && fat[x] == 0
  {
    if i >= |fat| then []
    else if fat[i] == 0 then [i] + FreeFrom(fat, i + 1)
    else FreeFrom(fat, i + 1)
  }

  ghost function FreeList(fat: Fat): (r: seq<nat>)
    ensures forall x :: x in r ==> Free(fat, x)
  {
    FreeFrom(fat, 2)
  }

  lemma {:induction false} FreeFromComplete(fat: Fat, i: nat, x: nat)
    requires i <= x < |fat| && fat[x] == 0
    ensures x in FreeFrom(fat, i)
    decreases |fat| - i
  {
    if i < x {
      FreeFromComplete(fat, i + 1, x);
    }
  }

  lemma {:induction false} FreeFromAscending(fat: Fat, i: nat, a: nat, b: nat)
    requires a < b < |FreeFrom(fat, i)|
    ensures FreeFrom(fat, i)[a] < FreeFrom(fat, i)[b]
    decreases |fat| - i
  {
    var r := FreeFrom(fat, i + 1);
    if fat[i] == 0 {
      if a == 0 {
        assert FreeFrom(fat, i)[b] == r[b - 1];
        assert r[b - 1] in r;
      } else {
        FreeFromAscending(fat, i + 1, a - 1, b - 1);
      }
    } else {
      FreeFromAscending(fat, i + 1, a, b);
    }
  }

  lemma {:induction false} FreeFromFrame(fat: Fat, fat': Fat, i: nat)
    requires |fat'| == |fat| && forall x :: i <= x < |fat| ==> (fat'[x] == 0 <==> fat[x] == 0)
    ensures FreeFrom(fat', i) == FreeFrom(fat, i)
    decreases |fat| - i
  {
    if i < |fat| {
      FreeFromFrame(fat, fat', i + 1);
    }
  }

  /** Taking the lowest free cluster removes the head of the list of free clusters. */
  lemma {:induction false} TakeLowest(fat: Fat, i: nat, x: uint32)
    requires FreeFrom(fat, i) != [] && x != 0
    ensures FreeFrom(fat, i)[0] in FreeFrom(fat, i)
    ensures FreeFrom(fat[FreeFrom(fat, i)[0] := x], i) == FreeFrom(fat, i)[1..]
    decreases |fat| - i
  {
    var f := FreeFrom(fat, i)[0];
    if fat[i] == 0 {
      FreeFromFrame(fat, fat[f := x], i + 1);
    } else {
      TakeLowest(fat, i + 1, x);
    }
  }

  function Min(a: nat, b: nat): nat {
    if a < b then a else b
  }

  ghost function Take(s: seq<nat>, n: nat): seq<nat> {
    s[..Min(n, |s|)]
  }

  // ---------------------------------------------------------------------------
  // fat_alloc_cluster
  // ---------------------------------------------------------------------------

  ghost predicate Within(t: seq<nat>, n: nat) {
    n <= 0x0FFF_FFF7 && forall i :: 0 <= i < |t| ==> 2 <= t[i] < n
  }

  ghost predicate AllFree(fat: Fat, t: seq<nat>) {
    forall i :: 0 <= i < |t| ==> Free(fat, t[i])
  }

  ghost predicate Distinct(t: seq<nat>) {
    forall i, j :: 0 <= i < j < |t| ==> t[i] != t[j]
  }

  /** The table after claiming the clusters of t one by one, each linked from the one before. */
  ghost function Claim(fat: Fat, t: seq<nat>): (r: Fat)
    requires Within(t, |fat|)
    ensures |r| == |fat|
  {
    if t == [] then fat
    else
      var k := |t| - 1;
      var before := Claim(fat, t[..k])[t[k] := 0x0FFF_FFFF];
      if k == 0 then before else before[t[k - 1] := t[k]]
  }

  lemma {:induction false} ClaimFrame(fat: Fat, t: seq<nat>, c: nat)
    requires Within(t, |fat|)
    requires c < |fat| && c !in t
    ensures Claim(fat, t)[c] == fat[c]
  {
    if t != [] {
      var k := |t| - 1;
      ClaimFrame(fat, t[..k], c);
      assert t[k] in t;
      assert k > 0 ==> t[k - 1] in t;
    }
  }

  lemma {:induction false} ClaimLinks(fat: Fat, t: seq<nat>, i: nat)
    requires Within(t, |fat|)
    requires Distinct(t) && i < |t|
    ensures Claim(fat, t)[t[i]] == if i + 1 < |t| then t[i + 1] else 0x0FFF_FFFF
  {
    var k := |t| - 1;
    if i < k {
      ClaimLinks(fat, t[..k], i);
      assert t[i] != t[k];
      assert i < k - 1 ==> t[i] != t[k - 1];
    }
  }

  lemma {:induction false} LinkedPath(fat: Fat, t: seq<nat>, i: nat)
    requires SmallTable(fat) && i < |t|
    requires forall j :: i <= j < |t| ==> 2 <= t[j] < |fat|
    requires forall j :: i <= j < |t| ==> fat[t[j]] == if j + 1 < |t| then t[j + 1] else 0x0FFF_FFFF
    ensures IsChain(fat, t[i], t[i..])
    decreases |t| - i
  {
    if i + 1 < |t| {
      LinkedPath(fat, t, i + 1);
      assert t[i..][1..] == t[i + 1..];
    }
  }

  /** The claimed clusters form one chain, in order; all other entries keep their value. */
  lemma ClaimIsChain(fat: Fat, t: seq<nat>)
    requires SmallTable(fat) && Distinct(t) && t != []
    requires AllFree(fat, t)
    ensures IsChain(Claim(fat, t), t[0], t)
    ensures forall c :: 0 <= c < |fat| && c !in t ==> Claim(fat, t)[c] == fat[c]
  {
    forall i | 0 <= i < |t| { ClaimLinks(fat, t, i); }
    LinkedPath(Claim(fat, t), t, 0);
    assert t[0..] == t;
    forall c | 0 <= c < |fat| && c !in t { ClaimFrame(fat, t, c); }
  }

  /** Chains that existed before are chains afterwards. */
  lemma ClaimKeepsChains(fat: Fat, t: seq<nat>, c: nat, p: seq<nat>)
    requires SmallTable(fat) && IsChain(fat, c, p)
    requires AllFree(fat, t)
    ensures IsChain(Claim(fat, t), c, p)
  {
    forall x | x in p ensures x < |fat| && Claim(fat, t)[x] == fat[x] {
      var i :| 0 <= i < |p| && p[i] == x;
      ChainSuffix(fat, c, p, i);
      ClaimFrame(fat, t, x);
    }
    ChainFrame(fat, Claim(fat, t), c, p);
  }

  /** Allocation keeps the table a forest. */
  lemma ClaimKeepsForest(fat: Fat, t: seq<nat>)
    requires Forest(fat) && Distinct(t)
    requires AllFree(fat, t)
    ensures Forest(Claim(fat, t))
  {
    var fat' := Claim(fat, t);
    if t != [] {
      ClaimIsChain(fat, t);
      forall c | InUse(fat', c) ensures HasChain(fat', c) {
        if c in t {
          var i :| 0 <= i < |t| && t[i] == c;
          ChainSuffix(fat', t[0], t, i);
        } else {
          ClaimFrame(fat, t, c);
          assert HasChain(fat, c);
          ClaimKeepsChains(fat, t, c, ChainOf(fat, c));
        }
      }
      forall c, d | InUse(fat', c) && InUse(fat', d) && c != d && Next(fat', c) == Next(fat', d)
        ensures EndOfChain(Next(fat', c))
      {
        if !EndOfChain(Next(fat', c)) {
          ClaimTarget(fat, t, c);
          ClaimTarget(fat, t, d);
        }
      }
    }
  }

  /** After allocation a link leads from one claimed cluster to the next, or is an old link. */
  lemma ClaimTarget(fat: Fat, t: seq<nat>, c: nat)
    requires Forest(fat) && Distinct(t) && AllFree(fat, t)
    requires InUse(Claim(fat, t), c) && !EndOfChain(Next(Claim(fat, t), c))
    ensures c in t ==> exists i :: 0 <= i && i + 1 < |t| && t[i] == c && t[i + 1] == Next(Claim(fat, t), c)
    ensures c !in t ==> InUse(fat, c) && Next(fat, c) == Next(Claim(fat, t), c) && Next(fat, c) !in t
  {
    if c in t {
      var i :| 0 <= i < |t| && t[i] == c;
      ClaimLinks(fat, t, i);
      if i + 1 < |t| {
        assert t[i + 1] in t;
      }
    } else {
      ClaimFrame(fat, t, c);
      LinkTargetInUse(fat, c);
    }
  }

  /** The lowest n free clusters can be claimed. */
  lemma LowestFreeAreClaimable(fat: Fat, n: nat)
    requires SmallTable(fat)
    ensures AllFree(fat, Take(FreeList(fat), n)) && Distinct(Take(FreeList(fat), n))
    ensures Within(Take(FreeList(fat), n), |fat|)
  {
    var t := Take(FreeList(fat), n);
    forall i | 0 <= i < |t| ensures Free(fat, t[i]) {
      assert t[i] in FreeList(fat);
    }
    forall i, j | 0 <= i < j < |t| ensures t[i] != t[j] {
      FreeFromAscending(fat, 2, i, j);
    }
  }

  // ---------------------------------------------------------------------------
  // fat_extend_chain
  // ---------------------------------------------------------------------------

  /** The table after hanging cluster f behind prev. */
  ghost function Hang(fat: Fat, prev: nat, f: nat): (r: Fat)
    requires SmallTable(fat) && prev < |fat| && f < |fat|
    ensures |r| == |fat|
  {
    fat[f := 0x0FFF_FFFF][prev := f]
  }

  /** p cut off behind prev and continued with f; p itself where prev does not occur. */
  ghost function Redirect(p: seq<nat>, prev: nat, f: nat): seq<nat> {
    if p == [] then []
    else if p[0] == prev then [prev, f]
    else [p[0]] + Redirect(p[1..], prev, f)
  }

  lemma {:induction false} RedirectSame(p: seq<nat>, prev: nat, f: nat)
    requires prev !in p
    ensures Redirect(p, prev, f) == p
  {
    if p != [] {
      RedirectSame(p[1..], prev, f);
    }
  }

  lemma {:induction false} RedirectTail(p: seq<nat>, prev: nat, f: nat)
    requires p != [] && p[|p| - 1] == prev && Distinct(p)
    ensures Redirect(p, prev, f) == p + [f]
  {
    if |p| > 1 {
      assert p[0] != p[|p| - 1];
      RedirectTail(p[1..], prev, f);
      assert p == [p[0]] + p[1..];
    }
  }

  /** Extending from prev: every chain through prev now ends prev -> f, all others stay. */
  lemma {:induction false} HangChains(fat: Fat, prev: nat, f: nat, c: nat, p: seq<nat>)
    requires SmallTable(fat) && InUse(fat, prev) && Free(fat, f) && IsChain(fat, c, p)
    ensures IsChain(Hang(fat, prev, f), c, Redirect(p, prev, f))
    decreases |p|
  {
    var fat' := Hang(fat, prev, f);
    if p != [] {
      if p[0] == prev {
        assert IsChain(fat', Next(fat', f), []);
        assert [f][1..] == [];
        assert IsChain(fat', f, [f]);
        assert [prev, f][1..] == [f];
      } else {
        HangChains(fat, prev, f, Next(fat, c), p[1..]);
      }
    }
  }

  /** fat_extend_chain on the last cluster of a chain appends exactly the new cluster to it. */
  lemma HangOnTail(fat: Fat, c: nat, p: seq<nat>, f: nat)
    requires SmallTable(fat) && IsChain(fat, c, p) && p != [] && Free(fat, f) && Within(p, |fat|)
    ensures IsChain(Hang(fat, p[|p| - 1], f), c, p + [f])
  {
    var prev := p[|p| - 1];
    ChainSuffix(fat, c, p, |p| - 1);
    forall i, j | 0 <= i < j < |p| ensures p[i] != p[j] {
      ChainDistinct(fat, c, p, i, j);
    }
    HangChains(fat, prev, f, c, p);
    RedirectTail(p, prev, f);
  }

  /** Chains that do not pass through prev stay exactly as they were. */
  lemma HangKeepsOthers(fat: Fat, prev: nat, f: nat, c: nat, p: seq<nat>)
    requires SmallTable(fat) && InUse(fat, prev) && Free(fat, f) && IsChain(fat, c, p) && prev !in p
    ensures IsChain(Hang(fat, prev, f), c, p)
  {
    HangChains(fat, prev, f, c, p);
    RedirectSame(p, prev, f);
  }

  /** Extension keeps the table a forest, wherever in a chain prev lies. */
  lemma HangKeepsForest(fat: Fat, prev: nat, f: nat)
    requires Forest(fat) && InUse(fat, prev) && Free(fat, f)
    ensures Forest(Hang(fat, prev, f))
  {
    var fat' := Hang(fat, prev, f);
    forall c | InUse(fat', c) ensures HasChain(fat', c) {
      if c == f {
        assert IsChain(fat', Next(fat', f), []);
        assert [f][1..] == [];
        assert IsChain(fat', f, [f]);
      } else {
        assert HasChain(fat, c);
        HangChains(fat, prev, f, c, ChainOf(fat, c));
      }
    }
    forall c, d | InUse(fat', c) && InUse(fat', d) && c != d && Next(fat', c) == Next(fat', d)
      ensures EndOfChain(Next(fat', c))
    {
      if c != f && d != f {
        LinkTargetInUse(fat, c);
        LinkTargetInUse(fat, d);
      }
    }
  }

  /** The clusters behind prev stay allocated but are no longer part of prev's chain. */
  lemma HangOrphans(fat: Fat, c: nat, p: seq<nat>, i: nat, f: nat)
    requires SmallTable(fat) && IsChain(fat, c, p) && i < |p| && Free(fat, f) && Within(p, |fat|)
    ensures IsChain(Hang(fat, p[i], f), c, p[..i + 1] + [f])
    ensures i + 1 < |p| ==> IsChain(Hang(fat, p[i], f), p[i + 1], p[i + 1..])
  {
    ChainSuffix(fat, c, p, i);
    HangChains(fat, p[i], f, c, p);
    forall a, b | 0 <= a < b < |p| ensures p[a] != p[b] {
      ChainDistinct(fat, c, p, a, b);
    }
    RedirectAt(p, i, f);
    if i + 1 < |p| {
      ChainSuffix(fat, c, p, i + 1);
      assert p[i] !in p[i + 1..];
      HangKeepsOthers(fat, p[i], f, p[i + 1], p[i + 1..]);
    }
  }

  lemma {:induction false} RedirectAt(p: seq<nat>, i: nat, f: nat)
    requires Distinct(p) && i < |p|
    ensures Redirect(p, p[i], f) == p[..i + 1] + [f]
  {
    if i > 0 {
      RedirectAt(p[1..], i - 1, f);
      assert p[..i + 1] == [p[0]] + p[1..][..i];
    }
  }

  // ---------------------------------------------------------------------------
  // fat_delete_file
  // ---------------------------------------------------------------------------

  /** The table after writing 0 to the entries of p, one by one. */
  ghost function Clear(fat: Fat, p: seq<nat>): (r: Fat)
    requires Within(p, |fat|)
    ensures |r| == |fat|
    decreases |p|
  {
    if p == [] then fat else Clear(fat[p[0] := 0], p[1..])
  }

  lemma {:induction false} ClearAt(fat: Fat, p: seq<nat>, c: nat)
    requires Within(p, |fat|) && c < |fat|
    ensures Clear(fat, p)[c] == if c in p then 0 else fat[c]
    decreases |p|
  {
    if p != [] {
      ClearAt(fat[p[0] := 0], p[1..], c);
    }
  }

  lemma ChainWithin(fat: Fat, c: nat, p: seq<nat>)
    requires SmallTable(fat) && IsChain(fat, c, p)
    ensures Within(p, |fat|) && Distinct(p)
  {
    forall i | 0 <= i < |p| ensures 2 <= p[i] < |fat| {
      ChainSuffix(fat, c, p, i);
    }
    forall i, j | 0 <= i < j < |p| ensures p[i] != p[j] {
      ChainDistinct(fat, c, p, i, j);
    }
  }

  /** In a forest, a chain that starts outside p never runs into p, provided that nothing
      links to the first cluster of p. */
  lemma {:induction false} ChainsStayApart(fat: Fat, b: nat, p: seq<nat>, c: nat, q: seq<nat>)
    requires Forest(fat) && IsChain(fat, b, p) && NoPredecessor(fat, b)
    requires IsChain(fat, c, q) && c !in p
    ensures forall x :: x in q ==> x !in p
    decreases |q|
  {
    if q != [] {
      var n := Next(fat, c);
      if n in p {
        var j :| 0 <= j < |p| && p[j] == n;
        ChainSuffix(fat, b, p, j);
        if j > 0 {
          ChainSuffix(fat, b, p, j - 1);
        }
        assert false;
      }
      ChainsStayApart(fat, b, p, n, q[1..]);
    }
  }

  /** Freeing a chain keeps every chain that shares no cluster with it. */
  lemma ClearKeepsOthers(fat: Fat, p: seq<nat>, c: nat, q: seq<nat>)
    requires Within(p, |fat|) && IsChain(fat, c, q) && forall x :: x in q ==> x !in p
    ensures IsChain(Clear(fat, p), c, q)
  {
    forall x | x in q && x < |fat| ensures Clear(fat, p)[x] == fat[x] {
      ClearAt(fat, p, x);
    }
    ChainFrame(fat, Clear(fat, p), c, q);
  }

  /** Freeing a whole chain leaves a forest exactly when no cluster linked to its first one. */
  lemma ClearKeepsForestIff(fat: Fat, b: nat, p: seq<nat>)
    requires Forest(fat) && IsChain(fat, b, p) && p != []
    requires Within(p, |fat|)
    ensures Forest(Clear(fat, p)) <==> NoPredecessor(fat, b)
  {
    var fat' := Clear(fat, p);
    forall c | 0 <= c < |fat| ensures fat'[c] == if c in p then 0 else fat[c] {
      ClearAt(fat, p, c);
    }
    if NoPredecessor(fat, b) {
      forall c | InUse(fat', c) ensures HasChain(fat', c) {
        assert HasChain(fat, c);
        ChainsStayApart(fat, b, p, c, ChainOf(fat, c));
        ClearKeepsOthers(fat, p, c, ChainOf(fat, c));
      }
      forall c, d | InUse(fat', c) && InUse(fat', d) && c != d && Next(fat', c) == Next(fat', d)
        ensures EndOfChain(Next(fat', c))
      {
        assert InUse(fat, c) && InUse(fat, d);
      }
    } else {
      var d :| InUse(fat, d) && Next(fat, d) == b;
      StrayLink(fat, b, p, d);
    }
  }

  lemma StrayLink(fat: Fat, b: nat, p: seq<nat>, d: nat)
    requires Forest(fat) && IsChain(fat, b, p) && p != [] && Within(p, |fat|)
    requires InUse(fat, d) && Next(fat, d) == b
    ensures !Forest(Clear(fat, p))
  {
    var fat' := Clear(fat, p);
    if d in p {
      var k :| 0 <= k < |p| && p[k] == d;
      ChainSuffix(fat, b, p, k);
      if k + 1 < |p| {
        assert p[k + 1..][0] == b;
        ChainDistinct(fat, b, p, 0, k + 1);
      }
      assert false;
    }
    ClearAt(fat, p, d);
    ClearAt(fat, p, b);
    forall q: seq<nat> ensures !IsChain(fat', d, q) {
      if q != [] {
        assert !IsChain(fat', b, q[1..]);
      }
    }
    assert InUse(fat', d) && !HasChain(fat', d);
  }

  /** Freeing what was just allocated restores the table. */
  lemma ClaimThenClear(fat: Fat, t: seq<nat>)
    requires SmallTable(fat) && AllFree(fat, t) && Distinct(t)
    ensures Clear(Claim(fat, t), t) == fat
  {
    forall c | 0 <= c < |fat| ensures Clear(Claim(fat, t), t)[c] == fat[c] {
      ClearAt(Claim(fat, t), t, c);
      if c !in t {
        ClaimFrame(fat, t, c);
      }
    }
  }

  // ---------------------------------------------------------------------------
  // How many clusters are free
  // ---------------------------------------------------------------------------

  lemma {:induction false} FreeCountUpdate(fat: Fat, i: nat, c: nat, x: uint32)
    requires i <= c < |fat|
    ensures |FreeFrom(fat[c := x], i)|
            == |FreeFrom(fat, i)| + (if x == 0 then 1 else 0) - (if fat[c] == 0 then 1 else 0)
    decreases |fat| - i
  {
    if i == c {
      FreeFromFrame(fat, fat[c := x], i + 1);
    } else {
      FreeCountUpdate(fat, i + 1, c, x);
    }
  }

  lemma {:induction false} ClaimCounts(fat: Fat, t: seq<nat>)
    requires SmallTable(fat) && AllFree(fat, t) && Distinct(t)
    ensures |FreeList(Claim(fat, t))| == |FreeList(fat)| - |t|
  {
    if t != [] {
      var k := |t| - 1;
      ClaimCounts(fat, t[..k]);
      ClaimFrame(fat, t[..k], t[k]);
      var mid := Claim(fat, t[..k]);
      FreeCountUpdate(mid, 2, t[k], 0x0FFF_FFFF);
      if k > 0 {
        ClaimLinks(fat, t[..k], k - 1);
        FreeCountUpdate(mid[t[k] := 0x0FFF_FFFF], 2, t[k - 1], t[k]);
      }
    }
  }

  lemma {:induction false} ClearCounts(fat: Fat, p: seq<nat>)
    requires Within(p, |fat|) && Distinct(p) && forall i :: 0 <= i < |p| ==> fat[p[i]] != 0
    ensures |FreeList(Clear(fat, p))| == |FreeList(fat)| + |p|
    decreases |p|
  {
    if p != [] {
      FreeCountUpdate(fat, 2, p[0], 0);
      assert forall i :: 0 <= i < |p[1..]| ==> p[1..][i] != p[0];
      ClearCounts(fat[p[0] := 0], p[1..]);
    }
  }
}
