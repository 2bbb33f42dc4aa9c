/** Bytes of a 512-byte disk sector and the little-endian integers stored in it. */
module SectorBytes {
  type byte = b: int | 0 <= b < 256
  type uint32 = x: int | 0 <= x < 0x1_0000_0000

  type Sector = s: seq<byte> | |s| == 512 witness seq(512, _ => 0)

  function ZeroSector(): (r: Sector)
    ensures forall k :: 0 <= k < 512 ==> r[k] == 0
  {
    seq(512, _ => 0)
  }

  function U16(s: seq<byte>, o: nat): (r: int)
    requires o + 2 <= |s|
    ensures 0 <= r < 0x1_0000
  {
    s[o] as int + 0x100 * s[o + 1] as int
  }

  function U32(s: seq<byte>, o: nat): (r: uint32)
    requires o + 4 <= |s|
  {
    s[o] as int + 0x100 * s[o + 1] as int + 0x1_0000 * s[o + 2] as int + 0x100_0000 * s[o + 3] as int
  }

  function ByteOf(v: uint32, k: nat): byte
    requires k < 4
  {
    match k
    case 0 => v % 0x100
    case 1 => v / 0x100 % 0x100
    case 2 => v / 0x1_0000 % 0x100
    case 3 => v / 0x100_0000
  }

  /** s with v stored at offsets o to o + 3. */
  function PutU32(s: seq<byte>, o: nat, v: uint32): (r: seq<byte>)
    requires o + 4 <= |s|
    ensures |r| == |s|
    ensures forall k :: 0 <= k < |s| ==> r[k] == if o <= k < o + 4 then ByteOf(v, k - o) else s[k]
  {
    s[o := ByteOf(v, 0)][o + 1 := ByteOf(v, 1)][o + 2 := ByteOf(v, 2)][o + 3 := ByteOf(v, 3)]
  }

  lemma BytesAddUp(v: uint32)
    ensures ByteOf(v, 0) as int + 0x100 * ByteOf(v, 1) as int + 0x1_0000 * ByteOf(v, 2) as int
            + 0x100_0000 * ByteOf(v, 3) as int == v
  {
    var h := v / 0x100;
    assert h / 0x100 == v / 0x1_0000;
    assert v / 0x1_0000 / 0x100 == v / 0x100_0000;
  }

  /** Reading a stored word back gives the word; every other aligned word is untouched. */
  lemma PutThenGet(s: seq<byte>, o: nat, v: uint32, q: nat)
    requires o + 4 <= |s| && q + 4 <= |s|
    ensures U32(PutU32(s, o, v), o) == v
    ensures q + 4 <= o || o + 4 <= q ==> U32(PutU32(s, o, v), q) == U32(s, q)
  {
    BytesAddUp(v);
  }
}
