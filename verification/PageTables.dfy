/** Four-level page tables as a tree in physical memory. */
module PageTables {
  import opened Options

  type uint64 = x: int | 0 <= x < 0x1_0000_0000_0000_0000

  /** Physical memory as 64-bit words; frame f holds the words 512 * f to 512 * f + 511. */
  type Memory = seq<uint64>

  const ROOT: nat := 1  // the top-level table lies at address 0x1000

  predicate Present(entry: uint64) {
    entry % 2 == 1
  }

  /** The frame an entry points to: the entry without its low twelve bits. */
  function FrameOf(entry: uint64): nat {
    entry / 4096
  }

  function Word(m: Memory, f: nat, i: nat): uint64 {
    if 512 * f + i < |m| then m[512 * f + i] else 0
  }

  // ---------------------------------------------------------------------------
  // Virtual addresses
  // ---------------------------------------------------------------------------

  function Pml4Index(virt: uint64): (i: nat)
    ensures i < 512
  {
    virt / 0x80_0000_0000 % 512
  }

  function PdptIndex(virt: uint64): (i: nat)
    ensures i < 512
  {
    virt / 0x4000_0000 % 512
  }

  function PdIndex(virt: uint64): (i: nat)
    ensures i < 512
  {
    virt / 0x20_0000 % 512
  }

  function PtIndex(virt: uint64): (i: nat)
    ensures i < 512
  {
    virt / 4096 % 512
  }

  function Indices(virt: uint64): (path: seq<nat>)
    ensures |path| == 4 && IsPath(path)
  {
    [Pml4Index(virt), PdptIndex(virt), PdIndex(virt), PtIndex(virt)]
  }

  predicate IsPath(path: seq<nat>) {
    forall i :: 0 <= i < |path| ==> path[i] < 512
  }

  /** The 36-bit page number of a virtual address. */
  function PageNumber(virt: uint64): nat {
    virt / 4096 % 0x10_0000_0000
  }

  /** The number with those four digits to base 512. */
  function FromDigits(p: seq<nat>): nat
    requires |p| == 4
  {
    ((p[0] * 512 + p[1]) * 512 + p[2]) * 512 + p[3]
  }

  lemma PageNumberFromIndices(virt: uint64)
    ensures PageNumber(virt) == FromDigits(Indices(virt))
  {
    var p := virt / 4096;
    var a := p / 512;
    var b := a / 512;
    var c := b / 512;
    assert virt / 0x20_0000 == a && virt / 0x4000_0000 == b && virt / 0x80_0000_0000 == c;
    TopDigits(p, a, b, c, FromDigits([c % 512, b % 512, a % 512, p % 512]));
  }

  lemma TopDigits(p: nat, a: nat, b: nat, c: nat, h: nat)
    requires a == p / 512 && b == a / 512 && c == b / 512
    requires h == ((c % 512 * 512 + b % 512) * 512 + a % 512) * 512 + p % 512
    ensures p % 0x10_0000_0000 == h
  {
    var d := c / 512;
    assert c == 512 * d + c % 512;
    assert b == 512 * c + b % 512;
    assert a == 512 * b + a % 512;
    assert p == 512 * a + p % 512;
    assert p == 0x10_0000_0000 * d + h;
    assert 0 <= h < 0x10_0000_0000;
  }

  /** Two addresses take the same path exactly when they lie in the same page. */
  lemma SamePathSamePage(a: uint64, b: uint64)
    ensures Indices(a) == Indices(b) <==> PageNumber(a) == PageNumber(b)
  {
    hide PageNumber, Pml4Index, PdptIndex, PdIndex, PtIndex;
    PageNumberFromIndices(a);
    PageNumberFromIndices(b);
    UniqueDigits(Indices(a), Indices(b));
  }

  lemma UniqueDigits(p: seq<nat>, q: seq<nat>)
    requires |p| == |q| == 4 && IsPath(p) && IsPath(q)
    ensures p == q <==> FromDigits(p) == FromDigits(q)
  {
    if FromDigits(p) == FromDigits(q) {
      OneDigit((p[0] * 512 + p[1]) * 512 + p[2], p[3], (q[0] * 512 + q[1]) * 512 + q[2], q[3]);
      OneDigit(p[0] * 512 + p[1], p[2], q[0] * 512 + q[1], q[2]);
      OneDigit(p[0], p[1], q[0], q[1]);
    }
  }

  lemma OneDigit(x: nat, r: nat, y: nat, s: nat)
    requires r < 512 && s < 512 && x * 512 + r == y * 512 + s
    ensures x == y && r == s
  {
  }

  // ---------------------------------------------------------------------------
  // Walking the tables
  // ---------------------------------------------------------------------------

  /** The last-level table on the path from table f, if all links to it are present. */
  function LeafTable(m: Memory, f: nat, path: seq<nat>): Option<nat>
    requires path != []
    decreases |path|
  {
    if |path| == 1 then Some(f)
    else if !Present(Word(m, f, path[0])) then None
    else LeafTable(m, FrameOf(Word(m, f, path[0])), path[1..])
  }

  /** How many tables the path from table f still lacks. */
  function Missing(m: Memory, f: nat, path: seq<nat>): nat
    requires path != []
    decreases |path|
  {
    if |path| == 1 then 0
    else if !Present(Word(m, f, path[0])) then |path| - 1
    else Missing(m, FrameOf(Word(m, f, path[0])), path[1..])
  }

  /** The present leaf entry at the end of the path, if there is one. */
  function Lookup(m: Memory, f: nat, path: seq<nat>): Option<uint64>
    requires path != []
  {
    var t := LeafTable(m, f, path);
    if t.None? then None
    else
      var e := Word(m, t.value, path[|path| - 1]);
      if Present(e) then Some(e) else None
  }

  // ---------------------------------------------------------------------------
  // Well-formed trees
  // ---------------------------------------------------------------------------

  /** Entry i of f is a link to a lower table. */
  ghost predicate Link(m: Memory, level: map<nat, nat>, f: nat, i: nat) {
    f in level && level[f] >= 2 && i < 512 && Present(Word(m, f, i))
  }

  ghost predicate TablesInMemory(m: Memory, level: map<nat, nat>) {
    forall f :: f in level ==> 1 <= level[f] && 512 * f + 512 <= |m|
  }

  ghost predicate LinksDescend(m: Memory, level: map<nat, nat>, root: nat) {
    forall f, i :: Link(m, level, f, i) ==>
      && FrameOf(Word(m, f, i)) in level && level[FrameOf(Word(m, f, i))] == level[f] - 1
      && FrameOf(Word(m, f, i)) != root
  }

  ghost predicate LinksDistinct(m: Memory, level: map<nat, nat>) {
    forall f, i, g, j ::
      (Link(m, level, f, i) && Link(m, level, g, j) && FrameOf(Word(m, f, i)) == FrameOf(Word(m, g, j))
       ==> f == g && i == j)
  }

  /** level says of each table page how far above the leaves it is. Links go down one level, and no
      table is linked from two places. */
  ghost predicate Tree(m: Memory, level: map<nat, nat>, root: nat) {
    root in level && TablesInMemory(m, level) && LinksDescend(m, level, root) && LinksDistinct(m, level)
  }

  ghost predicate ZeroFrame(m: Memory, f: nat) {
    forall i :: 0 <= i < 512 ==> Word(m, f, i) == 0
  }

  lemma WordAfterStore(m: Memory, f: nat, i: nat, e: uint64, g: nat, j: nat)
    requires i < 512 && 512 * f + i < |m| && j < 512
    ensures Word(m[512 * f + i := e], g, j) == if g == f && j == i then e else Word(m, g, j)
  {
  }

  // ---------------------------------------------------------------------------
  // Adding a table
  // ---------------------------------------------------------------------------

  function TableEntry(n: nat): uint64
    requires n < 0x1_0000_0000
  {
    n * 4096 + 3
  }

  lemma TableEntryPoints(n: nat)
    requires n < 0x1_0000_0000
    ensures Present(TableEntry(n)) && FrameOf(TableEntry(n)) == n
  {
  }

  /** A new, zeroed table below an absent entry leaves every lookup as it was. */
  lemma {:induction false} NewTableKeepsLookups(m: Memory, m': Memory, level: map<nat, nat>, root: nat, f: nat, i: nat,
                                                n: nat, g: nat, path: seq<nat>)
    requires Tree(m, level, root) && f in level && level[f] >= 2 && i < 512 && n < 0x1_0000_0000
    requires !Present(Word(m, f, i)) && n !in level && ZeroFrame(m, n)
    requires m' == m[512 * f + i := TableEntry(n)]
    requires g in level && level[g] == |path| && path != [] && IsPath(path)
    ensures Lookup(m', g, path) == Lookup(m, g, path)
    decreases |path|
  {
    WordAfterStore(m, f, i, TableEntry(n), g, path[0]);
    if |path| > 1 {
      var rest := path[1..];
      if g == f && path[0] == i {
        TableEntryPoints(n);
        assert n != f;
        WordAfterStore(m, f, i, TableEntry(n), n, rest[0]);
        assert !Present(Word(m', n, rest[0]));
        assert Lookup(m', g, path) == Lookup(m', n, rest);
      } else if Present(Word(m, g, path[0])) {
        assert Link(m, level, g, path[0]);
        NewTableKeepsLookups(m, m', level, root, f, i, n, FrameOf(Word(m, g, path[0])), rest);
      }
    }
  }

  lemma NewTableKeepsTree(m: Memory, m': Memory, level: map<nat, nat>, root: nat, f: nat, i: nat, n: nat)
    requires Tree(m, level, root) && f in level && level[f] >= 2 && i < 512 && n < 0x1_0000_0000
    requires !Present(Word(m, f, i)) && n !in level && ZeroFrame(m, n) && 512 * n + 512 <= |m|
    requires m' == m[512 * f + i := TableEntry(n)]
    ensures Tree(m', level[n := level[f] - 1], root)
    ensures Present(Word(m', f, i)) && FrameOf(Word(m', f, i)) == n
  {
    var level' := level[n := level[f] - 1];
    TableEntryPoints(n);
    WordAfterStore(m, f, i, TableEntry(n), f, i);
    forall g, j | Link(m', level', g, j)
      ensures (g == f && j == i && FrameOf(Word(m', g, j)) == n)
              || (Link(m, level, g, j) && Word(m', g, j) == Word(m, g, j) && FrameOf(Word(m, g, j)) != n)
    {
      WordAfterStore(m, f, i, TableEntry(n), g, j);
      assert Word(m, n, j) == 0;
    }
  }

  // ---------------------------------------------------------------------------
  // Writing a leaf entry
  // ---------------------------------------------------------------------------

  /** In a tree, the last-level table determines the way to it. */
  lemma {:induction false} LeafTableUnique(m: Memory, level: map<nat, nat>, root: nat, g: nat, p: seq<nat>, h: nat, q: seq<nat>)
    requires Tree(m, level, root) && p != [] && |p| == |q| && IsPath(p) && IsPath(q)
    requires g in level && h in level && level[g] == level[h] == |p|
    requires LeafTable(m, g, p).Some? && LeafTable(m, g, p) == LeafTable(m, h, q)
    ensures g == h && p[..|p| - 1] == q[..|p| - 1]
    decreases |p|
  {
    if |p| > 1 {
      assert Link(m, level, g, p[0]) && Link(m, level, h, q[0]);
      var g', h' := FrameOf(Word(m, g, p[0])), FrameOf(Word(m, h, q[0]));
      LeafTableUnique(m, level, root, g', p[1..], h', q[1..]);
      assert p[..|p| - 1] == [p[0]] + p[1..][..|p| - 2];
      assert q[..|p| - 1] == [q[0]] + q[1..][..|p| - 2];
    }
  }

  lemma {:induction false} LeafTableLevel(m: Memory, level: map<nat, nat>, root: nat, g: nat, path: seq<nat>)
    requires Tree(m, level, root) && path != [] && IsPath(path) && g in level && level[g] == |path|
    requires LeafTable(m, g, path).Some?
    ensures LeafTable(m, g, path).value in level && level[LeafTable(m, g, path).value] == 1
    decreases |path|
  {
    if |path| > 1 {
      assert Link(m, level, g, path[0]);
      LeafTableLevel(m, level, root, FrameOf(Word(m, g, path[0])), path[1..]);
    }
  }

  lemma {:induction false} LeafStoreKeepsTables(m: Memory, m': Memory, level: map<nat, nat>, root: nat, t: nat, i: nat,
                                                e: uint64, g: nat, path: seq<nat>)
    requires Tree(m, level, root) && t in level && level[t] == 1 && i < 512 && m' == m[512 * t + i := e]
    requires path != [] && IsPath(path) && g in level && level[g] == |path|
    ensures LeafTable(m', g, path) == LeafTable(m, g, path)
    decreases |path|
  {
    if |path| > 1 {
      WordAfterStore(m, t, i, e, g, path[0]);
      if Present(Word(m, g, path[0])) {
        assert Link(m, level, g, path[0]);
        LeafStoreKeepsTables(m, m', level, root, t, i, e, FrameOf(Word(m, g, path[0])), path[1..]);
      }
    }
  }

  lemma LeafStoreKeepsTree(m: Memory, m': Memory, level: map<nat, nat>, root: nat, t: nat, i: nat, e: uint64)
    requires Tree(m, level, root) && t in level && level[t] == 1 && i < 512 && m' == m[512 * t + i := e]
    ensures Tree(m', level, root)
  {
    forall g, j | Link(m', level, g, j) ensures Link(m, level, g, j) && Word(m', g, j) == Word(m, g, j) {
      WordAfterStore(m, t, i, e, g, j);
    }
  }

  /** Storing e at the leaf that path leads to changes the lookup of path, and of no other one. */
  lemma LeafStoreLookup(m: Memory, m': Memory, level: map<nat, nat>, root: nat, path: seq<nat>, e: uint64, q: seq<nat>)
    requires Tree(m, level, root) && path != [] && IsPath(path) && |path| == level[root]
    requires LeafTable(m, root, path).Some?
    requires LeafTable(m, root, path).value in level && level[LeafTable(m, root, path).value] == 1
    requires m' == m[512 * LeafTable(m, root, path).value + path[|path| - 1] := e]
    requires |q| == |path| && IsPath(q)
    ensures Lookup(m', root, q)
            == if q == path then (if Present(e) then Some(e) else None) else Lookup(m, root, q)
  {
    hide Link, LinksDescend, LinksDistinct, FrameOf;
    var t, i := LeafTable(m, root, path).value, path[|path| - 1];
    LeafStoreKeepsTables(m, m', level, root, t, i, e, root, q);
    LeafStoreKeepsTables(m, m', level, root, t, i, e, root, path);
    var u := LeafTable(m, root, q);
    if u.Some? {
      WordAfterStore(m, t, i, e, u.value, q[|q| - 1]);
      if u.value == t && q[|q| - 1] == i {
        LeafTableUnique(m, level, root, root, path, root, q);
        assert path == path[..|path| - 1] + [i] && q == q[..|path| - 1] + [i];
      }
    }
  }
}
