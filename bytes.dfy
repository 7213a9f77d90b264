/**
 * Bytes of the EEPROM image and the fixed-width little-endian integer
 * encodings the EEPROM library uses for `writeInt`/`readInt` (signed 32-bit)
 * and `writeULong`/`readULong` (unsigned 32-bit on the ESP32).
 *
 * The library's buffer is modelled as a sequence of bytes. A write that does
 * not fit inside the buffer is dropped; a word read that does not fit yields 0.
 */
module Bytes {

  newtype Byte = b: int | 0 <= b < 256

  /** `unsigned long` on the ESP32 (a 32-bit target). */
  newtype U32 = x: int | 0 <= x < 0x1_0000_0000

  const U32_LIMIT: int := 0x1_0000_0000
  const INT32_MIN: int := -0x8000_0000
  const INT32_MAX: int := 0x7FFF_FFFF

  predicate InInt32(x: int) { INT32_MIN <= x <= INT32_MAX }

  function Pow256(n: nat): (r: nat)
    ensures r > 0
  {
    if n == 0 then 1 else 256 * Pow256(n - 1)
  }

  lemma Pow256Four()
    ensures Pow256(4) == U32_LIMIT
  {
  }

  /** The `n` low-order bytes of `v`, least significant first. */
  function EncodeLE(v: nat, n: nat): (r: seq<Byte>)
    ensures |r| == n
  {
    if n == 0 then [] else [(v % 256) as Byte] + EncodeLE(v / 256, n - 1)
  }

  /** The unsigned value of little-endian bytes. */
  function DecodeLE(bs: seq<Byte>): (r: nat)
    ensures r < Pow256(|bs|)
  {
    if bs == [] then 0 else bs[0] as nat + 256 * DecodeLE(bs[1..])
  }

  /** Decoding undoes encoding for every value that fits in `n` bytes. */
  lemma {:induction false} DecodeEncodeLE(v: nat, n: nat)
    requires v < Pow256(n)
    ensures DecodeLE(EncodeLE(v, n)) == v
  {
    if n > 0 {
      DecodeEncodeLE(v / 256, n - 1);
    }
  }

  /** Encoding undoes decoding: the two are inverse bijections. */
  lemma {:induction false} EncodeDecodeLE(bs: seq<Byte>)
    ensures EncodeLE(DecodeLE(bs), |bs|) == bs
  {
    if bs != [] {
      EncodeDecodeLE(bs[1..]);
      var d := DecodeLE(bs);
      assert d % 256 == bs[0] as nat && d / 256 == DecodeLE(bs[1..]);
    }
  }

  function EncodeU32(v: U32): (r: seq<Byte>)
    ensures |r| == 4
  {
    EncodeLE(v as nat, 4)
  }

  function DecodeU32(bs: seq<Byte>): U32
    requires |bs| == 4
  {
    Pow256Four();
    DecodeLE(bs) as U32
  }

  /** The 32-bit two's complement image of `x` (its low 32 bits). */
  function EncodeI32(x: int): (r: seq<Byte>)
    ensures |r| == 4
  {
    EncodeLE(x % U32_LIMIT, 4)
  }

  function DecodeI32(bs: seq<Byte>): (r: int)
    requires |bs| == 4
    ensures InInt32(r)
  {
    Pow256Four();
    var u := DecodeLE(bs);
    if u > INT32_MAX then u - U32_LIMIT else u
  }

  lemma U32RoundTrip(v: U32)
    ensures DecodeU32(EncodeU32(v)) == v
  {
    Pow256Four();
    DecodeEncodeLE(v as nat, 4);
  }

  /** A signed word survives encoding exactly when it fits in 32 bits. */
  lemma I32RoundTrip(x: int)
    requires InInt32(x)
    ensures DecodeI32(EncodeI32(x)) == x
  {
    Pow256Four();
    DecodeEncodeLE(x % U32_LIMIT, 4);
  }

  /** Whether `len` bytes at `off` lie inside a buffer of `size` bytes. */
  predicate Fits(size: int, off: int, len: int)
  {
    0 <= off && off + len <= size
  }

  /**
   * `bs` copied into `img` at `off` when it fits; otherwise the buffer is
   * left as it was.
   */
  function Write(img: seq<Byte>, off: int, bs: seq<Byte>): (r: seq<Byte>)
    ensures |r| == |img|
    ensures forall i :: 0 <= i < |img| ==>
      r[i] == if Fits(|img|, off, |bs|) && off <= i < off + |bs| then bs[i - off] else img[i]
  {
    if Fits(|img|, off, |bs|) then img[..off] + bs + img[off + |bs|..] else img
  }

  /** A write that fits leaves exactly its bytes at its offset. */
  lemma WriteThenSlice(img: seq<Byte>, off: int, bs: seq<Byte>)
    requires Fits(|img|, off, |bs|)
    ensures Write(img, off, bs)[off..off + |bs|] == bs
  {
    var r := Write(img, off, bs);
    assert forall k | 0 <= k < |bs| :: r[off + k] == bs[k];
  }

  /** A write leaves every range that it does not overlap unchanged. */
  lemma WriteOutside(img: seq<Byte>, off: int, bs: seq<Byte>, lo: int, hi: int)
    requires 0 <= lo <= hi <= |img|
    requires off + |bs| <= lo || hi <= off
    ensures Write(img, off, bs)[lo..hi] == img[lo..hi]
  {
    var r := Write(img, off, bs);
    assert forall i | lo <= i < hi :: r[i] == img[i];
  }

  /**
   * `readULong`: the word whose encoding is the four bytes at `off`; 0 when
   * they do not lie inside the buffer.
   */
  function ReadU32(img: seq<Byte>, off: int): (r: U32)
    ensures !Fits(|img|, off, 4) ==> r == 0
  {
    if Fits(|img|, off, 4) then DecodeU32(img[off..off + 4]) else 0
  }

  /** The word `readULong` returns is the one whose encoding is the four bytes read. */
  lemma ReadU32Encodes(img: seq<Byte>, off: int)
    requires Fits(|img|, off, 4)
    ensures EncodeU32(ReadU32(img, off)) == img[off..off + 4]
  {
    Pow256Four();
    EncodeDecodeLE(img[off..off + 4]);
  }

  /**
   * `readInt`: the signed 32-bit value whose two's complement image is the
   * four bytes at `off`; 0 when they do not lie inside the buffer.
   */
  function ReadI32(img: seq<Byte>, off: int): (r: int)
    ensures InInt32(r)
    ensures !Fits(|img|, off, 4) ==> r == 0
  {
    if Fits(|img|, off, 4) then DecodeI32(img[off..off + 4]) else 0
  }

  /** The value `readInt` returns is the one whose two's complement image is the four bytes read. */
  lemma ReadI32Encodes(img: seq<Byte>, off: int)
    requires Fits(|img|, off, 4)
    ensures EncodeI32(ReadI32(img, off)) == img[off..off + 4]
  {
    var bs := img[off..off + 4];
    Pow256Four();
    EncodeDecodeLE(bs);
    assert ReadI32(img, off) % U32_LIMIT == DecodeLE(bs);
  }

  /** A non-negative table word, read back as an unsigned word, is the same number. */
  lemma ReadU32OfI32(img: seq<Byte>, off: int, x: int)
    requires Fits(|img|, off, 4) && 0 <= x <= INT32_MAX
    requires img[off..off + 4] == EncodeI32(x)
    ensures ReadU32(img, off) == x as U32
  {
    Pow256Four();
    assert x % U32_LIMIT == x;
    DecodeEncodeLE(x, 4);
  }

  /** `writeULong` then `readULong` at the same offset gives the value back. */
  lemma WriteReadU32(img: seq<Byte>, off: int, v: U32)
    requires Fits(|img|, off, 4)
    ensures ReadU32(Write(img, off, EncodeU32(v)), off) == v
  {
    WriteThenSlice(img, off, EncodeU32(v));
    U32RoundTrip(v);
  }

  /** `writeInt` then `readInt` at the same offset gives the value back. */
  lemma WriteReadI32(img: seq<Byte>, off: int, x: int)
    requires Fits(|img|, off, 4) && InInt32(x)
    ensures ReadI32(Write(img, off, EncodeI32(x)), off) == x
  {
    WriteThenSlice(img, off, EncodeI32(x));
    I32RoundTrip(x);
  }
}
