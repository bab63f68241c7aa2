/** Bytes and the unsigned little-endian integers read from them. */
module Bytes {

  type byte = x: int | 0 <= x < 256

  const TWO_TO_THE_32: nat := 0x1_0000_0000
  const TWO_TO_THE_64: nat := 0x1_0000_0000_0000_0000

  /** 256 to the power k: the number of values a k-byte integer can hold */
  function Pow256(k: nat): (r: nat)
    ensures r >= 1
  {
    if k == 0 then 1 else 256 * Pow256(k - 1)
  }

  lemma Pow256Widths()
    ensures Pow256(4) == TWO_TO_THE_32
    ensures Pow256(8) == TWO_TO_THE_64
  {
    assert Pow256(2) == 0x1_0000;
    assert Pow256(4) == 0x1_0000_0000;
  }

  /** The unsigned integer whose little-endian encoding is `s`:
      the sum of s[k] * 256^k over all positions k. */
  function LittleEndian(s: seq<byte>): (r: nat)
    ensures r < Pow256(|s|)
  {
    if |s| == 0 then 0 else s[0] + 256 * LittleEndian(s[1..])
  }

  /** The `width`-byte little-endian encoding of `n`, least significant byte first */
  function ToLittleEndian(n: nat, width: nat): (r: seq<byte>)
    ensures |r| == width
  {
    if width == 0 then [] else [n % 256] + ToLittleEndian(n / 256, width - 1)
  }

  /** Every integer that fits in `width` bytes is read back from its encoding. */
  lemma {:induction false} LittleEndianOfEncoding(n: nat, width: nat)
    requires n < Pow256(width)
    ensures LittleEndian(ToLittleEndian(n, width)) == n
  {
    if width > 0 {
      var r := ToLittleEndian(n, width);
      assert r[1..] == ToLittleEndian(n / 256, width - 1);
      LittleEndianOfEncoding(n / 256, width - 1);
    }
  }

  /** Every byte string is the encoding of the integer read from it, so two
      windows of equal width read the same integer only if they are equal. */
  lemma {:induction false} EncodingOfLittleEndian(s: seq<byte>)
    ensures ToLittleEndian(LittleEndian(s), |s|) == s
  {
    if |s| > 0 {
      var n := LittleEndian(s);
      assert n % 256 == s[0] && n / 256 == LittleEndian(s[1..]);
      EncodingOfLittleEndian(s[1..]);
    }
  }

  lemma LittleEndianInjective(a: seq<byte>, b: seq<byte>)
    requires |a| == |b|
    ensures LittleEndian(a) == LittleEndian(b) <==> a == b
  {
    if LittleEndian(a) == LittleEndian(b) {
      EncodingOfLittleEndian(a);
      EncodingOfLittleEndian(b);
    }
  }
}

/** The JavaScript buffer views the decoder reads through. Each one throws a
    RangeError when its window does not lie inside the buffer; here that is `Nothing`. */
module Views {
  import opened Results
  import opened Bytes

  /** `new Uint8Array(buffer, start, length)` */
  function View(buf: seq<byte>, start: nat, length: nat): (r: Maybe<seq<byte>>)
    ensures r.Just? <==> start + length <= |buf|
    ensures r.Just? ==> r.value == buf[start..start + length]
  {
    if start + length <= |buf| then Just(buf[start..start + length]) else Nothing
  }

  /** `DataView.getBigUint64(at, true)`: an unsigned 64-bit little-endian read */
  function ReadU64(buf: seq<byte>, at: nat): (r: Maybe<nat>)
    ensures r.Just? <==> at + 8 <= |buf|
    ensures r.Just? ==> r.value == LittleEndian(buf[at..at + 8]) && r.value < TWO_TO_THE_64
  {
    if at + 8 <= |buf| then
      Pow256Widths();
      Just(LittleEndian(buf[at..at + 8]))
    else Nothing
  }

  /** `DataView.getUint32(at, true)`: an unsigned 32-bit little-endian read */
  function ReadU32(buf: seq<byte>, at: nat): (r: Maybe<bv32>)
    ensures r.Just? <==> at + 4 <= |buf|
    ensures r.Just? ==> LittleEndian(buf[at..at + 4]) < TWO_TO_THE_32 && r.value == LittleEndian(buf[at..at + 4]) as bv32
  {
    if at + 4 <= |buf| then
      Pow256Widths();
      Just(LittleEndian(buf[at..at + 4]) as bv32)
    else Nothing
  }
}
