/** The physical page allocator: one bit per 4096-byte page, set when the page is taken,
    and a running count of the free pages. */
module Pmm {
  const PAGE_SIZE: nat := 4096
  const OUT_OF_MEMORY: nat := 0xFFFF_FFFF_FFFF_FFFF
  const HEAP_SIZE: nat := 0x10_0000
  const E820_FREE: nat := 1

  type uint64 = x: int | 0 <= x < 0x1_0000_0000_0000_0000

  /** One entry of the firmware's memory map. */
  datatype E820Entry = E820Entry(base: uint64, length: uint64, kind: nat)

  /** Unsigned 64-bit arithmetic. */
  function Wrap(a: nat): uint64 {
    a % 0x1_0000_0000_0000_0000
  }

  // ---------------------------------------------------------------------------
  // Bits of the bitmap
  // ---------------------------------------------------------------------------

  function Mask(k: nat): bv8
    requires k < 8
  {
    match k
    case 0 => 0x01 case 1 => 0x02 case 2 => 0x04 case 3 => 0x08
    case 4 => 0x10 case 5 => 0x20 case 6 => 0x40 case 7 => 0x80
  }

  predicate BitAt(bytes: seq<bv8>, p: nat)
    requires p < 8 * |bytes|
  {
    BitOf(bytes[p / 8], p % 8)
  }

  predicate BitOf(b: bv8, k: nat)
    requires k < 8
  {
    b & Mask(k) != 0
  }

  /** The first n bits: entry p says whether page p is taken. */
  function BitsOf(bytes: seq<bv8>, n: nat): (bits: seq<bool>)
    requires n <= 8 * |bytes|
    ensures |bits| == n
    ensures forall p :: 0 <= p < n ==> bits[p] == BitAt(bytes, p)
  {
    seq(n, p requires 0 <= p < n => BitAt(bytes, p))
  }

  lemma MaskSelects(b: bv8, k: nat, j: nat)
    requires k < 8 && j < 8
    ensures BitOf(b | Mask(k), j) == (j == k || BitOf(b, j))
    ensures BitOf(b & !Mask(k), j) == (j != k && BitOf(b, j))
  {
    hide BitOf, Mask;
    if j == k { OwnBit(b, k); } else { OtherBit(b, k, j); OtherBitCleared(b, k, j); }
  }

  lemma OwnBit(b: bv8, k: nat)
    requires k < 8
    ensures BitOf(b | Mask(k), k) && !BitOf(b & !Mask(k), k)
  {
    MaskDisjoint(k, k);
  }

  lemma OtherBit(b: bv8, k: nat, j: nat)
    requires k < 8 && j < 8 && k != j
    ensures BitOf(b | Mask(k), j) == BitOf(b, j)
  {
    MaskDisjoint(k, j);
    OtherMask(b, Mask(k), Mask(j));
  }

  lemma OtherBitCleared(b: bv8, k: nat, j: nat)
    requires k < 8 && j < 8 && k != j
    ensures BitOf(b & !Mask(k), j) == BitOf(b, j)
  {
    MaskDisjoint(k, j);
    OtherMask(b, Mask(k), Mask(j));
  }

  lemma MaskDisjoint(k: nat, j: nat)
    requires k < 8 && j < 8
    ensures Mask(k) != 0
    ensures k != j ==> Mask(k) & Mask(j) == 0
  {
  }

  lemma OtherMask(b: bv8, m: bv8, n: bv8)
    requires m & n == 0
    ensures (b | m) & n == b & n
    ensures (b & !m) & n == b & n
  {
  }

  lemma BitAfterStore(bytes: seq<bv8>, p: nat, q: nat)
    requires p < 8 * |bytes| && q < 8 * |bytes|
    ensures BitAt(bytes[p / 8 := bytes[p / 8] | Mask(p % 8)], q) == (q == p || BitAt(bytes, q))
    ensures BitAt(bytes[p / 8 := bytes[p / 8] & !Mask(p % 8)], q) == (q != p && BitAt(bytes, q))
  {
    hide BitOf, Mask;
    if q / 8 == p / 8 {
      assert q == p <==> q % 8 == p % 8;
      MaskSelects(bytes[p / 8], p % 8, q % 8);
    }
  }

  lemma SettingOneBit(bytes: seq<bv8>, n: nat, p: nat, stored: seq<bv8>)
    requires p < n <= 8 * |bytes|
    requires stored == bytes[p / 8 := bytes[p / 8] | Mask(p % 8)]
    ensures BitsOf(stored, n) == BitsOf(bytes, n)[p := true]
  {
    forall q | 0 <= q < n
      ensures BitsOf(stored, n)[q] == BitsOf(bytes, n)[p := true][q]
    {
      BitAfterStore(bytes, p, q);
    }
  }

  lemma ClearingOneBit(bytes: seq<bv8>, n: nat, p: nat, stored: seq<bv8>)
    requires p < n <= 8 * |bytes|
    requires stored == bytes[p / 8 := bytes[p / 8] & !Mask(p % 8)]
    ensures BitsOf(stored, n) == BitsOf(bytes, n)[p := false]
  {
    forall q | 0 <= q < n
      ensures BitsOf(stored, n)[q] == BitsOf(bytes, n)[p := false][q]
    {
      BitAfterStore(bytes, p, q);
    }
  }

  // ---------------------------------------------------------------------------
  // Counting and marking pages
  // ---------------------------------------------------------------------------

  ghost function CountFree(bits: seq<bool>): nat
  {
    if bits == [] then 0
    else CountFree(bits[..|bits| - 1]) + (if bits[|bits| - 1] then 0 else 1)
  }

  lemma {:induction false} CountAfterUpdate(bits: seq<bool>, p: nat, taken: bool)
    requires p < |bits|
    ensures CountFree(bits[p := taken])
            == CountFree(bits) + (if bits[p] then 1 else 0) - (if taken then 1 else 0)
  {
    var n := |bits| - 1;
    if p == n {
      assert bits[p := taken][..n] == bits[..n];
    } else {
      assert bits[p := taken][..n] == bits[..n][p := taken];
      CountAfterUpdate(bits[..n], p, taken);
    }
  }

  lemma {:induction false} NoneFree(bits: seq<bool>)
    ensures CountFree(bits) == 0 <==> forall p :: 0 <= p < |bits| ==> bits[p]
  {
    if bits != [] {
      var n := |bits| - 1;
      NoneFree(bits[..n]);
      assert forall p :: 0 <= p < n ==> bits[..n][p] == bits[p];
    }
  }

  /** Give every page in [lo, hi) the same mark. */
  ghost function Marked(bits: seq<bool>, lo: nat, hi: nat, taken: bool): (r: seq<bool>)
    ensures |r| == |bits|
    ensures forall p :: 0 <= p < |bits| ==> r[p] == if lo <= p < hi then taken else bits[p]
  {
    seq(|bits|, p requires 0 <= p < |bits| => if lo <= p < hi then taken else bits[p])
  }

  lemma MarkedNone(bits: seq<bool>, lo: nat, hi: nat)
    ensures Marked(bits, lo, if lo < hi then lo else hi, true) == bits
  {
  }

  lemma MarkedOneMore(bits: seq<bool>, lo: nat, p: nat)
    requires lo <= p < |bits|
    ensures Marked(bits, lo, p + 1, true) == Marked(bits, lo, p, true)[p := true]
  {
  }

  lemma MarkedBeyond(bits: seq<bool>, lo: nat, p: nat, hi: nat)
    requires lo <= p && (p >= |bits| || p >= hi)
    ensures Marked(bits, lo, hi, true) == Marked(bits, lo, if p < hi then p else hi, true)
  {
  }

  /** How many pages of [lo, hi) are already free. */
  ghost function FreeIn(bits: seq<bool>, lo: nat, hi: nat): nat
    requires hi <= |bits|
    decreases hi
  {
    if hi <= lo then 0
    else FreeIn(bits, lo, hi - 1) + (if bits[hi - 1] then 0 else 1)
  }

  lemma {:induction false} NoneFreeIn(bits: seq<bool>, lo: nat, hi: nat)
    requires hi <= |bits|
    ensures FreeIn(bits, lo, hi) == 0 <==> forall p :: lo <= p < hi ==> bits[p]
  {
    if lo < hi {
      NoneFreeIn(bits, lo, hi - 1);
    }
  }

  lemma {:induction false} CountReleased(bits: seq<bool>, lo: nat, hi: nat)
    requires hi <= |bits|
    ensures CountFree(Marked(bits, lo, hi, false))
            == CountFree(bits) + (if lo < hi then hi - lo else 0) - FreeIn(bits, lo, hi)
    decreases hi
  {
    if hi <= lo {
      assert Marked(bits, lo, hi, false) == bits;
    } else {
      CountReleased(bits, lo, hi - 1);
      var step := Marked(bits, lo, hi - 1, false);
      assert Marked(bits, lo, hi, false) == step[hi - 1 := false];
      CountAfterUpdate(step, hi - 1, false);
    }
  }

  // ---------------------------------------------------------------------------
  // What the boot-time count is worth
  // ---------------------------------------------------------------------------

  /** The page an address lies in, and the number of pages that cover n bytes. */
  function PageOf(addr: nat): nat {
    addr / 4096
  }

  function PagesFor(n: nat): (r: nat)
    ensures r < 0x10_0000_0000_0000
  {
    Wrap(n + 4095) / 4096
  }

  function PageAddress(page: nat): nat {
    page * 4096
  }

  /** First and one-past-last full page of an entry, clipped to the bitmap;
      an empty range for an entry that is not free memory. */
  function FirstPage(e: E820Entry): nat {
    if e.kind != E820_FREE then 0 else PagesFor(e.base)
  }

  function LastPage(e: E820Entry, maxPages: nat): (r: nat)
    ensures r <= maxPages
  {
    if e.kind != E820_FREE || PagesFor(e.base) >= maxPages then 0
    else
      var end := PageOf(Wrap(e.base + e.length));
      if end > maxPages then maxPages else end
  }

  ghost function Released(bits: seq<bool>, entries: seq<E820Entry>): (r: seq<bool>)
    ensures |r| == |bits|
  {
    if entries == [] then bits
    else
      var k := |entries| - 1;
      Marked(Released(bits, entries[..k]),
             FirstPage(entries[k]), LastPage(entries[k], |bits|), false)
  }

  /** Pages that an entry releases although an earlier entry had released them already. */
  ghost function CountedTwice(bits: seq<bool>, entries: seq<E820Entry>): nat {
    if entries == [] then 0
    else
      var k := |entries| - 1;
      CountedTwice(bits, entries[..k])
      + FreeIn(Released(bits, entries[..k]), FirstPage(entries[k]), LastPage(entries[k], |bits|))
  }

  ghost function AllTaken(n: nat): (bits: seq<bool>)
    ensures |bits| == n && forall p :: 0 <= p < n ==> bits[p]
  {
    seq(n, _ => true)
  }

  function HighestAddress(entries: seq<E820Entry>): uint64 {
    if entries == [] then 0
    else
      var k := |entries| - 1;
      var end := Wrap(entries[k].base + entries[k].length);
      var h := HighestAddress(entries[..k]);
      if end >= h then end else h
  }

  function EndOf(e: E820Entry): nat {
    (e.base + e.length) % 0x1_0000_0000_0000_0000
  }

  /** It is the greatest end of an entry, or 0 if there is none. */
  lemma {:induction false} HighestIsGreatest(entries: seq<E820Entry>)
    ensures forall i :: 0 <= i < |entries| ==> EndOf(entries[i]) <= HighestAddress(entries)
    ensures if entries == [] then HighestAddress(entries) == 0
            else exists i :: 0 <= i < |entries| && EndOf(entries[i]) == HighestAddress(entries)
  {
    if entries != [] {
      var k := |entries| - 1;
      HighestIsGreatest(entries[..k]);
      assert EndOf(entries[k]) == Wrap(entries[k].base + entries[k].length);
      hide EndOf, Wrap;
      if HighestAddress(entries) != EndOf(entries[k]) {
        var i :| 0 <= i < k && EndOf(entries[..k][i]) == HighestAddress(entries[..k]);
        assert entries[i] == entries[..k][i];
      }
      forall i | 0 <= i < k ensures EndOf(entries[i]) <= HighestAddress(entries) {
        assert entries[i] == entries[..k][i];
      }
    }
  }

  function RoundUp(a: nat): (r: uint64)
    ensures a + 4095 < 0x1_0000_0000_0000_0000 ==> a <= r
  {
    PageAddress(PagesFor(a))
  }

  /** The size of the kernel is a 32-bit number, and so is the sum that rounds it up. */
  function RoundUp32(a: nat): nat {
    PageAddress((a + 4095) % 0x1_0000_0000 / 4096)
  }

  /** First page boundary behind a bitmap for that many pages. */
  function BitmapEnd(bitmapAddr: uint64, pages: nat): (r: uint64) {
    RoundUp(bitmapAddr + (pages + 7) / 8)
  }

  ghost function Reserved(bits: seq<bool>, addr: nat, length: nat): (r: seq<bool>)
    ensures |r| == |bits|
  {
    Marked(bits, PageOf(addr), PagesFor(addr + length), true)
  }

  /** Reserving takes the pages that the bytes from addr to addr + length touch, and no others. */
  lemma ReservedTouches(bits: seq<bool>, addr: nat, length: nat, p: nat)
    requires p < |bits| && addr + length + 4095 < 0x1_0000_0000_0000_0000
    ensures Reserved(bits, addr, length)[p] <==> bits[p] || (4096 * p < addr + length && addr < 4096 * p + 4096)
  {
  }

  function Minus(a: uint64, b: uint64): uint64 {
    Wrap(a + 0x1_0000_0000_0000_0000 - b)
  }

  /** The reservations made at boot, in order: page 0, the loader's paging tables, the kernel,
      the bitmap and the heap. */
  ghost function BootMarks(bits: seq<bool>, bitmapAddr: uint64, kernelBytes: nat, bitmapEnd: uint64): (r: seq<bool>)
    ensures |r| == |bits|
  {
    var b1 := Reserved(bits, 0, PAGE_SIZE);
    var b2 := Reserved(b1, 0x1000, 3 * PAGE_SIZE);
    var b3 := Reserved(b2, 0x10_0000, kernelBytes);
    var b4 := Reserved(b3, bitmapAddr, Minus(bitmapEnd, bitmapAddr));
    Reserved(b4, bitmapEnd, HEAP_SIZE)
  }

  lemma BootMarksKeepPageZero(bits: seq<bool>, bitmapAddr: uint64, kernelBytes: nat, bitmapEnd: uint64)
    requires |bits| > 0
    ensures BootMarks(bits, bitmapAddr, kernelBytes, bitmapEnd)[0]
  {
  }

  /** Page p lies wholly inside a free entry of the map; the end of the entry is a 64-bit number. */
  predicate FreePage(e: E820Entry, p: nat) {
    && e.kind == E820_FREE
    && (e.base + 4095) / 4096 % 0x10_0000_0000_0000 <= p < (e.base + e.length) / 4096 % 0x10_0000_0000_0000
  }

  /** Without overflow that means what one expects: all its bytes are. */
  lemma FreePageInside(e: E820Entry, p: nat)
    requires e.base + 4095 < 0x1_0000_0000_0000_0000 && e.base + e.length < 0x1_0000_0000_0000_0000
    ensures FreePage(e, p) <==> e.kind == E820_FREE && e.base <= 4096 * p && 4096 * p + 4096 <= e.base + e.length
  {
  }

  /** The first page of the bitmap, behind the kernel, and the first page of the heap, behind the bitmap. */
  function BitmapPage(kernelEnd: nat): nat {
    (kernelEnd + 4095) / 4096 % 0x10_0000_0000_0000
  }

  function HeapPage(kernelEnd: nat, pages: nat): nat {
    (BitmapPage(kernelEnd) + ((pages + 7) / 8 + 4095) / 4096) % 0x10_0000_0000_0000
  }

  /** A page that boot takes for the firmware and the loader, for the kernel from 1 MB on, for the bitmap
      or for the 1 MB heap. Sums are made in 64 bits, the rounding of the kernel's size in 32. */
  predicate SystemPage(p: nat, pages: nat, kernelEnd: nat, kernelSize: nat) {
    OwnPage(p, kernelSize, BitmapPage(kernelEnd), HeapPage(kernelEnd, pages))
  }

  predicate OwnPage(p: nat, kernelSize: nat, bitmap: nat, heap: nat) {
    || p < 4
    || 0x100 <= p < 0x100 + (kernelSize + 4095) % 0x1_0000_0000 / 4096
    || bitmap <= p < heap
    || heap <= p < (heap + 256) % 0x10_0000_0000_0000
  }

  lemma CoversIff(e: E820Entry, n: nat, p: nat)
    requires p < n
    ensures Covers(e, n, p) <==> FreePage(e, p)
  {
    WrapPages(e.base + 4095);
    WrapPages(e.base + e.length);
  }

  /** The page of a sum that wraps around at 2^64. */
  lemma WrapPages(a: nat)
    ensures Wrap(a) / 4096 == a / 4096 % 0x10_0000_0000_0000
  {
  }

  lemma ReservedPages(bits: seq<bool>, first: nat, n: nat, p: nat)
    requires p < |bits| < 0x10_0000_0000_0000 && n < 0x10_0000_0000_0000 && first < 0x10_0000_0000_0000
    ensures Reserved(bits, PageAddress(first), PageAddress(n))[p]
            <==> bits[p] || first <= p < (first + n) % 0x10_0000_0000_0000
  {
    WrapPages(PageAddress(first) + PageAddress(n) + 4095);
  }

  lemma Places(kernelEnd: nat, pages: nat)
    requires pages < 0x10_0000_0000_0000
    ensures var b, h := BitmapPage(kernelEnd), HeapPage(kernelEnd, pages);
            && RoundUp(kernelEnd) == PageAddress(b) && BitmapEnd(RoundUp(kernelEnd), pages) == PageAddress(h)
            && b < 0x10_0000_0000_0000 && h < 0x10_0000_0000_0000
            && Minus(PageAddress(h), PageAddress(b)) == PageAddress((h + 0x10_0000_0000_0000 - b) % 0x10_0000_0000_0000)
            && (b + (h + 0x10_0000_0000_0000 - b) % 0x10_0000_0000_0000) % 0x10_0000_0000_0000 == h
  {
    hide Wrap;
    var b, bytes := BitmapPage(kernelEnd), (pages + 7) / 8;
    WrapPages(kernelEnd + 4095);
    WrapPages(PageAddress(b) + bytes + 4095);
    assert (PageAddress(b) + bytes + 4095) / 4096 == b + (bytes + 4095) / 4096;
    hide BitmapPage, HeapPage;
    Apart(b, HeapPage(kernelEnd, pages));
  }

  lemma Apart(b: nat, h: nat)
    requires b < 0x10_0000_0000_0000 && h < 0x10_0000_0000_0000
    ensures Minus(PageAddress(h), PageAddress(b)) == PageAddress((h + 0x10_0000_0000_0000 - b) % 0x10_0000_0000_0000)
    ensures (b + (h + 0x10_0000_0000_0000 - b) % 0x10_0000_0000_0000) % 0x10_0000_0000_0000 == h
  {
  }

  /** The five reservations, one after the other. */
  lemma MarkedAtBoot(bits: seq<bool>, kernelEnd: nat, kernelSize: nat, p: nat)
    requires p < |bits| < 0x10_0000_0000_0000
    ensures BootMarks(bits, RoundUp(kernelEnd), RoundUp32(kernelSize), BitmapEnd(RoundUp(kernelEnd), |bits|))[p]
            <==> bits[p] || SystemPage(p, |bits|, kernelEnd, kernelSize)
  {
    hide Reserved, PageAddress, RoundUp, BitmapEnd, BitmapPage, HeapPage, Minus;
    var b, h, k := BitmapPage(kernelEnd), HeapPage(kernelEnd, |bits|), (kernelSize + 4095) % 0x1_0000_0000 / 4096;
    Places(kernelEnd, |bits|);
    PageMultiples(k);
    PageMultiples(kernelSize);
    var b1 := Reserved(bits, 0, PAGE_SIZE);
    ReservedPages(bits, 0, 1, p);
    var b2 := Reserved(b1, 0x1000, 3 * PAGE_SIZE);
    ReservedPages(b1, 1, 3, p);
    var b3 := Reserved(b2, 0x10_0000, RoundUp32(kernelSize));
    ReservedPages(b2, 0x100, k, p);
    var b4 := Reserved(b3, PageAddress(b), PageAddress((h + 0x10_0000_0000_0000 - b) % 0x10_0000_0000_0000));
    ReservedPages(b3, b, (h + 0x10_0000_0000_0000 - b) % 0x10_0000_0000_0000, p);
    ReservedPages(b4, h, 256, p);
  }

  lemma PageMultiples(k: nat)
    ensures PageAddress(0) == 0 && PageAddress(1) == PAGE_SIZE == 0x1000 && PageAddress(3) == 3 * PAGE_SIZE
    ensures PageAddress(0x100) == 0x10_0000 == HEAP_SIZE && PageAddress(k) == 4096 * k
    ensures RoundUp32(k) == PageAddress((k + 4095) % 0x1_0000_0000 / 4096)
  {
  }

  /** What the set-up takes: page p is taken afterwards exactly if no free entry contains it or it is one
      of the system's own. */
  lemma TakenAfterBoot(entries: seq<E820Entry>, pages: nat, kernelEnd: nat, kernelSize: nat, p: nat)
    requires p < pages < 0x10_0000_0000_0000
    ensures var bitmapAddr := RoundUp(kernelEnd);
            BootMarks(Released(AllTaken(pages), entries), bitmapAddr, RoundUp32(kernelSize), BitmapEnd(bitmapAddr, pages))[p]
            <==> SystemPage(p, pages, kernelEnd, kernelSize)
                 || forall i :: 0 <= i < |entries| ==> !FreePage(entries[i], p)
  {
    hide SystemPage, FreePage, Covers, BootMarks, Released, RoundUp, RoundUp32, BitmapEnd;
    MarkedAtBoot(Released(AllTaken(pages), entries), kernelEnd, kernelSize, p);
    ReleasedIsUnion(AllTaken(pages), entries, p);
    forall i | 0 <= i < |entries| ensures Covers(entries[i], pages, p) <==> FreePage(entries[i], p) {
      CoversIff(entries[i], pages, p);
    }
  }

  lemma AllAfterBoot(entries: seq<E820Entry>, pages: nat, kernelEnd: nat, kernelSize: nat)
    requires pages < 0x10_0000_0000_0000
    ensures var bitmapAddr := RoundUp(kernelEnd);
            var bits := BootMarks(Released(AllTaken(pages), entries), bitmapAddr, RoundUp32(kernelSize), BitmapEnd(bitmapAddr, pages));
            forall p :: 0 <= p < pages ==>
              (bits[p] <==> || SystemPage(p, pages, kernelEnd, kernelSize)
                            || forall i :: 0 <= i < |entries| ==> !FreePage(entries[i], p))
  {
    hide SystemPage, FreePage, BootMarks, Released, RoundUp, RoundUp32, BitmapEnd;
    forall p | 0 <= p < pages { TakenAfterBoot(entries, pages, kernelEnd, kernelSize, p); }
  }

  lemma AllOnes(bytes: seq<bv8>, n: nat)
    requires n <= 8 * |bytes| && forall i :: 0 <= i < |bytes| ==> bytes[i] == 0xFF
    ensures BitsOf(bytes, n) == AllTaken(n)
  {
    forall p | 0 <= p < n ensures BitAt(bytes, p) {
    }
  }

  ghost predicate Covers(e: E820Entry, maxPages: nat, p: nat) {
    FirstPage(e) <= p < LastPage(e, maxPages)
  }

  /** No page lies in two of the free ranges. */
  ghost predicate PageDisjoint(entries: seq<E820Entry>, maxPages: nat) {
    forall i, j, p: nat :: 0 <= i < j < |entries| && Covers(entries[i], maxPages, p)
                      ==> !Covers(entries[j], maxPages, p)
  }

  lemma {:induction false} ReleasedIsUnion(bits: seq<bool>, entries: seq<E820Entry>, p: nat)
    requires p < |bits|
    ensures !Released(bits, entries)[p]
            <==> !bits[p] || exists i :: 0 <= i < |entries| && Covers(entries[i], |bits|, p)
  {
    if entries != [] {
      var k := |entries| - 1;
      ReleasedIsUnion(bits, entries[..k], p);
      assert forall i :: 0 <= i < k ==> entries[..k][i] == entries[i];
      if Covers(entries[k], |bits|, p) {
      } else if exists i :: 0 <= i < |entries| && Covers(entries[i], |bits|, p) {
        var i :| 0 <= i < |entries| && Covers(entries[i], |bits|, p);
        assert Covers(entries[..k][i], |bits|, p);
      }
    }
  }

  lemma DisjointMeansFirstRelease(bits: seq<bool>, entries: seq<E820Entry>, e: E820Entry, p: nat)
    requires forall q :: 0 <= q < |bits| ==> bits[q]
    requires PageDisjoint(entries + [e], |bits|) && Covers(e, |bits|, p)
    ensures Released(bits, entries)[p]
  {
    var all := entries + [e];
    forall i | 0 <= i < |entries| ensures !Covers(entries[i], |bits|, p) {
      assert all[i] == entries[i] && all[|entries|] == e;
    }
    ReleasedIsUnion(bits, entries, p);
  }

  lemma FirstReleaseMeansDisjoint(bits: seq<bool>, entries: seq<E820Entry>, e: E820Entry)
    requires forall q :: 0 <= q < |bits| ==> bits[q]
    requires PageDisjoint(entries, |bits|)
    requires forall p: nat :: Covers(e, |bits|, p) ==> Released(bits, entries)[p]
    ensures PageDisjoint(entries + [e], |bits|)
  {
    var all := entries + [e];
    forall i, j, p: nat | 0 <= i < j < |all| && Covers(all[i], |bits|, p)
      ensures !Covers(all[j], |bits|, p)
    {
      assert Covers(entries[i], |bits|, p);
      ReleasedIsUnion(bits, entries, p);
    }
  }

  lemma PrefixDisjoint(entries: seq<E820Entry>, e: E820Entry, n: nat)
    requires PageDisjoint(entries + [e], n)
    ensures PageDisjoint(entries, n)
  {
    var all := entries + [e];
    forall i, j, p: nat | 0 <= i < j < |entries| && Covers(entries[i], n, p)
      ensures !Covers(entries[j], n, p)
    {
      assert Covers(all[i], n, p) && all[j] == entries[j];
    }
  }

  /** Starting from an all-taken bitmap, no page is counted twice exactly when the free
      ranges share no page. */
  lemma {:induction false} CountedOnceIffDisjoint(bits: seq<bool>, entries: seq<E820Entry>)
    requires forall p :: 0 <= p < |bits| ==> bits[p]
    ensures CountedTwice(bits, entries) == 0 <==> PageDisjoint(entries, |bits|)
  {
    if entries != [] {
      var k := |entries| - 1;
      var before, e := entries[..k], entries[k];
      assert entries == before + [e];
      CountedOnceIffDisjoint(bits, before);
      NoneFreeIn(Released(bits, before), FirstPage(e), LastPage(e, |bits|));
      if CountedTwice(bits, entries) == 0 {
        FirstReleaseMeansDisjoint(bits, before, e);
      }
      if PageDisjoint(entries, |bits|) {
        PrefixDisjoint(before, e, |bits|);
        forall p | FirstPage(e) <= p < LastPage(e, |bits|) ensures Released(bits, before)[p] {
          DisjointMeansFirstRelease(bits, before, e, p);
        }
      }
    }
  }

  /** The page at addr was the lowest free one and is the only one that changed. */
  ghost predicate Took(before: seq<bool>, after: seq<bool>, addr: nat) {
    var page := PageOf(addr);
    && addr == PageAddress(page)
    && 0 < page < |before|
    && !before[page] && (forall q :: 0 <= q < page ==> before[q])
    && after == before[page := true]
  }

  // ---------------------------------------------------------------------------
  // The system's own pages are never handed out
  // ---------------------------------------------------------------------------

  /** The kernel, the bitmap and the heap lie in the system's pages, as long as no sum overflows. */
  lemma SystemBytes(a: nat, pages: nat, kernelEnd: nat, kernelSize: nat)
    requires kernelSize + 4095 < 0x1_0000_0000 && pages < 0x10_0000_0000_0000
    requires kernelEnd + pages + 0x20_0000 < 0x1_0000_0000_0000_0000
    requires || 0x10_0000 <= a < 0x10_0000 + kernelSize
             || RoundUp(kernelEnd) <= a < RoundUp(kernelEnd) + (pages + 7) / 8
             || BitmapEnd(RoundUp(kernelEnd), pages) <= a < BitmapEnd(RoundUp(kernelEnd), pages) + HEAP_SIZE
    ensures SystemPage(PageOf(a), pages, kernelEnd, kernelSize)
  {
    Places(kernelEnd, pages);
    PlainPlaces(kernelEnd, pages);
    hide BitmapPage, HeapPage, RoundUp, BitmapEnd, Minus, PageOf, Wrap, OwnPage;
    PageBetween(a, BitmapPage(kernelEnd), HeapPage(kernelEnd, pages), (pages + 7) / 8, kernelSize);
  }

  lemma PlainPlaces(kernelEnd: nat, pages: nat)
    requires kernelEnd + pages + 0x20_0000 < 0x1_0000_0000_0000_0000
    ensures var b, h := BitmapPage(kernelEnd), HeapPage(kernelEnd, pages);
            h == b + ((pages + 7) / 8 + 4095) / 4096 && h + 256 < 0x10_0000_0000_0000
  {
    var b := (kernelEnd + 4095) / 4096;
    assert b + ((pages + 7) / 8 + 4095) / 4096 + 256 < 0x10_0000_0000_0000;
  }

  lemma PageBetween(a: nat, b: nat, h: nat, bytes: nat, size: nat)
    requires h == b + (bytes + 4095) / 4096 && h + 256 < 0x10_0000_0000_0000 && size + 4095 < 0x1_0000_0000
    requires || 0x10_0000 <= a < 0x10_0000 + size
             || PageAddress(b) <= a < PageAddress(b) + bytes
             || PageAddress(h) <= a < PageAddress(h) + HEAP_SIZE
    ensures OwnPage(PageOf(a), size, b, h)
  {
  }

  /** What one call of the allocator can do to the marks, if nobody gives back a page of the system. */
  ghost predicate Called(before: seq<bool>, after: seq<bool>, kernelEnd: nat, kernelSize: nat) {
    || after == before
    || (exists addr :: Took(before, after, addr))
    || (exists p :: 0 <= p < |before| && !SystemPage(p, |before|, kernelEnd, kernelSize) && after == before[p := false])
  }

  ghost predicate SystemTaken(bits: seq<bool>, kernelEnd: nat, kernelSize: nat) {
    forall p :: 0 <= p < |bits| && SystemPage(p, |bits|, kernelEnd, kernelSize) ==> bits[p]
  }

  lemma {:induction false} SystemStaysTaken(trace: seq<seq<bool>>, kernelEnd: nat, kernelSize: nat, k: nat)
    requires k < |trace| && SystemTaken(trace[0], kernelEnd, kernelSize)
    requires forall i {:trigger trace[i]} :: 0 <= i < |trace| - 1 ==> Called(trace[i], trace[i + 1], kernelEnd, kernelSize)
    ensures SystemTaken(trace[k], kernelEnd, kernelSize) && |trace[k]| == |trace[0]|
  {
    if k > 0 {
      hide SystemPage;
      SystemStaysTaken(trace, kernelEnd, kernelSize, k - 1);
      assert Called(trace[k - 1], trace[k], kernelEnd, kernelSize);
    }
  }

  /** Whatever is allocated and given back after boot, no page of the kernel, the bitmap or the heap is ever
      handed out, unless it was given back itself. */
  lemma NeverHandedOut(trace: seq<seq<bool>>, kernelEnd: nat, kernelSize: nat, k: nat, addr: nat)
    requires k + 1 < |trace| && SystemTaken(trace[0], kernelEnd, kernelSize)
    requires forall i {:trigger trace[i]} :: 0 <= i < |trace| - 1 ==> Called(trace[i], trace[i + 1], kernelEnd, kernelSize)
    requires Took(trace[k], trace[k + 1], addr)
    ensures !SystemPage(PageOf(addr), |trace[0]|, kernelEnd, kernelSize)
  {
    hide SystemPage;
    SystemStaysTaken(trace, kernelEnd, kernelSize, k);
  }

  // ---------------------------------------------------------------------------
  // The allocator
  // ---------------------------------------------------------------------------

  class PageAllocator {
    var bitmap: array<bv8>
    var maxPages: nat
    var totalPages: nat
    var freePages: nat
    var bitmapEnd: uint64

    /** The bitmap covers every page, page addresses are 64-bit numbers, and the counter is at least the
        number of clear bits. */
    ghost predicate Shape()
      reads this, bitmap
    {
      && maxPages <= 8 * bitmap.Length && maxPages < 0x10_0000_0000_0000
      && freePages >= CountFree(Bits())
    }

    ghost predicate Valid()
      reads this, bitmap
    {
      Shape() && (maxPages > 0 ==> Bits()[0])
    }

    ghost function Bits(): (bits: seq<bool>)
      requires maxPages <= 8 * bitmap.Length
      reads this, bitmap
      ensures |bits| == maxPages
    {
      BitsOf(bitmap[..], maxPages)
    }

    /** By how much the counter exceeds the number of clear bits. */
    ghost function Drift(): nat
      requires Shape()
      reads this, bitmap
    {
      freePages - CountFree(Bits())
    }

    /** Boot-time set-up from the firmware's map: everything taken, then the free ranges released,
        then page 0, the loader's tables, the kernel, the bitmap and the heap taken again. */
    constructor (entries: seq<E820Entry>, kernelEnd: nat, kernelSize: nat)
      ensures Valid() && fresh(bitmap)
      ensures maxPages == PagesFor(HighestAddress(entries))
      ensures Drift() == CountedTwice(AllTaken(maxPages), entries)
      ensures totalPages == CountFree(Released(AllTaken(maxPages), entries)) + CountedTwice(AllTaken(maxPages), entries)
      ensures bitmapEnd == BitmapEnd(RoundUp(kernelEnd), maxPages)
      ensures bitmapEnd == PageAddress(HeapPage(kernelEnd, maxPages))
      ensures forall p :: 0 <= p < maxPages ==>
                (Bits()[p] <==> || SystemPage(p, maxPages, kernelEnd, kernelSize)
                                || forall i :: 0 <= i < |entries| ==> !FreePage(entries[i], p))
      ensures Bits() == BootMarks(Released(AllTaken(maxPages), entries), RoundUp(kernelEnd), RoundUp32(kernelSize), bitmapEnd)
    {
      hide Wrap, PagesFor, BitsOf, BitmapEnd, RoundUp, RoundUp32, Released, BootMarks, CountedTwice;
      hide SystemPage, FreePage, HeapPage, PageAddress;
      var highest := FindHighest(entries);
      var pages := PagesFor(highest);
      var bitmapBytes := (pages + 7) / 8;
      maxPages := pages;
      bitmap := new bv8[bitmapBytes](_ => 0xFF);
      bitmapEnd := BitmapEnd(RoundUp(kernelEnd), pages);
      totalPages, freePages := 0, 0;
      new;
      AllOnes(bitmap[..], maxPages);
      NoneFree(AllTaken(maxPages));
      assert Bits() == AllTaken(maxPages);
      Boot(entries, RoundUp(kernelEnd), RoundUp32(kernelSize));
      Places(kernelEnd, maxPages);
      AllAfterBoot(entries, maxPages, kernelEnd, kernelSize);
    }

    static method FindHighest(entries: seq<E820Entry>) returns (highest: nat)
      ensures highest == HighestAddress(entries)
    {
      highest := 0;
      var n := 0;
      while n < |entries|
        invariant 0 <= n <= |entries|
        invariant highest == HighestAddress(entries[..n])
      {
        var end := Wrap(entries[n].base + entries[n].length);
        assert entries[..n + 1][..n] == entries[..n];
        if end >= highest {
          highest := end;
        }
        n := n + 1;
      }
      assert entries[..n] == entries;
    }

    /** The part of the set-up behind the placing of the bitmap. */
    method Boot(entries: seq<E820Entry>, bitmapAddr: uint64, kernelBytes: nat)
      requires Shape() && Bits() == AllTaken(maxPages) && Drift() == totalPages == freePages == 0
      modifies this`totalPages, this`freePages, bitmap
      ensures Valid() && Drift() == CountedTwice(AllTaken(maxPages), entries)
      ensures totalPages == CountFree(Released(AllTaken(maxPages), entries)) + CountedTwice(AllTaken(maxPages), entries)
      ensures Bits() == BootMarks(Released(AllTaken(maxPages), entries), bitmapAddr, kernelBytes, bitmapEnd)
    {
      hide BitsOf, CountFree, AllTaken, Reserved, BootMarks, Released, CountedTwice;
      ReleaseEntries(entries);
      ghost var released := Bits();
      ReserveAtBoot(bitmapAddr, kernelBytes);
      if maxPages > 0 {
        BootMarksKeepPageZero(released, bitmapAddr, kernelBytes, bitmapEnd);
      }
    }

    method ReleaseEntries(entries: seq<E820Entry>)
      requires Shape() && Bits() == AllTaken(maxPages) && Drift() == totalPages == freePages == 0
      modifies this`totalPages, this`freePages, bitmap
      ensures Shape() && Bits() == Released(AllTaken(maxPages), entries)
      ensures Drift() == CountedTwice(AllTaken(maxPages), entries)
      ensures totalPages == freePages
    {
      var k := 0;
      while k < |entries|
        invariant 0 <= k <= |entries|
        invariant Shape() && Bits() == Released(AllTaken(maxPages), entries[..k])
        invariant Drift() == CountedTwice(AllTaken(maxPages), entries[..k])
        invariant totalPages == freePages
      {
        assert entries[..k + 1][..k] == entries[..k];
        ReleaseEntry(entries[k]);
        k := k + 1;
      }
      assert entries[..k] == entries;
    }

    method ReserveAtBoot(bitmapAddr: uint64, kernelBytes: nat)
      requires Shape()
      modifies this`freePages, bitmap
      ensures Shape() && Drift() == old(Drift())
      ensures Bits() == BootMarks(old(Bits()), bitmapAddr, kernelBytes, bitmapEnd)
    {
      hide BitsOf, CountFree, Reserved;
      ReserveRange(0, PAGE_SIZE);
      ReserveRange(0x1000, 3 * PAGE_SIZE);
      ReserveRange(0x10_0000, kernelBytes);
      ReserveRange(bitmapAddr, Minus(bitmapEnd, bitmapAddr));
      ReserveRange(bitmapEnd, HEAP_SIZE);
    }

    /** Stage 2a of the set-up, for one entry of the map. */
    method ReleaseEntry(e: E820Entry)
      requires Shape()
      modifies this`totalPages, this`freePages, bitmap
      ensures Shape()
      ensures Bits() == Marked(old(Bits()), FirstPage(e), LastPage(e, maxPages), false)
      ensures Drift() == old(Drift()) + FreeIn(old(Bits()), FirstPage(e), LastPage(e, maxPages))
      ensures totalPages - old(totalPages) == freePages - old(freePages)
    {
      hide BitsOf, CountFree, PageOf, PagesFor;
      if e.kind != E820_FREE { return; }
      var start := PagesFor(e.base);
      var end := PageOf(Wrap(e.base + e.length));
      if start >= maxPages {
        assert Marked(Bits(), FirstPage(e), LastPage(e, maxPages), false) == Bits();
        return;
      }
      if end > maxPages { end := maxPages; }
      ReleasePages(start, end);
    }

    method ReleasePages(start: nat, end: nat)
      requires Shape() && end <= maxPages
      modifies this`totalPages, this`freePages, bitmap
      ensures Shape()
      ensures Bits() == Marked(old(Bits()), start, end, false)
      ensures Drift() == old(Drift()) + FreeIn(old(Bits()), start, end)
      ensures totalPages - old(totalPages) == freePages - old(freePages)
    {
      hide BitsOf, CountFree, FreeIn;
      ghost var was := Bits();
      var p := start;
      while p < end
        invariant start <= p && (p <= end || p == start)
        invariant maxPages <= 8 * bitmap.Length && Bits() == Marked(was, start, p, false)
        invariant totalPages - old(totalPages) == freePages - old(freePages) == p - start
      {
        ClearBit(p);
        assert Bits() == Marked(was, start, p + 1, false);
        totalPages := totalPages + 1;
        freePages := freePages + 1;
        p := p + 1;
      }
      assert Bits() == Marked(was, start, end, false);
      CountReleased(was, start, end);
    }

    predicate ReadBit(page: nat)
      requires maxPages <= 8 * bitmap.Length
      reads this, bitmap
      ensures ReadBit(page) == (page >= maxPages || Bits()[page])
    {
      page >= maxPages || BitOf(bitmap[page / 8], page % 8)
    }

    method SetBit(page: nat)
      requires maxPages <= 8 * bitmap.Length
      modifies bitmap
      ensures Bits() == if page < maxPages then old(Bits())[page := true] else old(Bits())
    {
      if page >= maxPages { return; }
      ghost var was := bitmap[..];
      bitmap[page / 8] := bitmap[page / 8] | Mask(page % 8);
      SettingOneBit(was, maxPages, page, bitmap[..]);
    }

    method ClearBit(page: nat)
      requires maxPages <= 8 * bitmap.Length
      modifies bitmap
      ensures Bits() == if page < maxPages then old(Bits())[page := false] else old(Bits())
    {
      if page >= maxPages { return; }
      ghost var was := bitmap[..];
      bitmap[page / 8] := bitmap[page / 8] & !Mask(page % 8);
      ClearingOneBit(was, maxPages, page, bitmap[..]);
    }

    method ReserveRange(addr: nat, length: nat)
      requires Shape()
      modifies this`freePages, bitmap
      ensures Shape() && Drift() == old(Drift())
      ensures Bits() == Reserved(old(Bits()), addr, length)
    {
      hide BitsOf, CountFree, PageOf, PagesFor, Marked;
      var start := PageOf(addr);
      var end := PagesFor(addr + length);
      var p := start;
      ghost var was := Bits();
      MarkedNone(was, start, end);
      while p < end && p < maxPages
        invariant start <= p
        invariant Shape() && Drift() == old(Drift())
        invariant Bits() == Marked(was, start, if p < end then p else end, true)
      {
        CountAfterUpdate(Bits(), p, true);
        MarkedOneMore(was, start, p);
        if !ReadBit(p) {
          freePages := freePages - 1;
        }
        SetBit(p);
        p := p + 1;
      }
      MarkedBeyond(was, start, p, end);
    }

    method TakePage(i: nat) returns (addr: nat)
      requires Valid() && 0 < i < maxPages && !Bits()[i] && forall q :: 0 <= q < i ==> Bits()[q]
      modifies this`freePages, bitmap
      ensures Valid() && Drift() == old(Drift()) && freePages == old(freePages) - 1
      ensures addr != OUT_OF_MEMORY && Took(old(Bits()), Bits(), addr)
    {
      hide BitsOf, CountFree;
      CountAfterUpdate(Bits(), i, true);
      SetBit(i);
      freePages := freePages - 1;
      addr := PageAddress(i);
      assert PageOf(addr) == i;
    }

    /** Takes the lowest free page; fails exactly when no page is free. */
    method Alloc() returns (addr: nat)
      requires Valid()
      modifies this`freePages, bitmap
      ensures Valid() && Drift() == old(Drift())
      ensures addr == OUT_OF_MEMORY <==> CountFree(old(Bits())) == 0
      ensures addr == OUT_OF_MEMORY ==> Bits() == old(Bits()) && freePages == old(freePages)
      ensures addr != OUT_OF_MEMORY ==> Took(old(Bits()), Bits(), addr) && freePages == old(freePages) - 1
    {
      hide BitsOf, CountFree, Took;
      NoneFree(Bits());
      var i := 1;
      while i < maxPages
        invariant 1 <= i
        invariant Valid() && freePages == old(freePages) && Bits() == old(Bits())
        invariant forall q :: 0 <= q < i && q < maxPages ==> Bits()[q]
      {
        if !ReadBit(i) {
          addr := TakePage(i);
          return;
        }
        i := i + 1;
      }
      return OUT_OF_MEMORY;
    }

    /** Gives a page back; page 0, pages outside the bitmap and pages already free are ignored. */
    method Free(addr: nat)
      requires Valid()
      modifies this`freePages, bitmap
      ensures Valid() && Drift() == old(Drift())
      ensures var page := PageOf(addr);
              if 0 < page < maxPages && old(Bits())[page]
              then Bits() == old(Bits())[page := false] && freePages == old(freePages) + 1
              else Bits() == old(Bits()) && freePages == old(freePages)
    {
      var page := PageOf(addr);
      if page == 0 || page >= maxPages { return; }
      if !ReadBit(page) { return; }
      CountAfterUpdate(Bits(), page, false);
      ClearBit(page);
      freePages := freePages + 1;
    }
  }
}
