/**
 * NUL-terminated text in the EEPROM image, as `writeString`/`readString`
 * store it: the characters of the C string (everything before the first NUL
 * byte of the value) followed by one NUL byte.
 */
module CText {
  import opened Wrappers
  import opened Bytes

  const NUL: Byte := 0

  /** The C-string view of a byte string: its longest prefix without NUL. */
  function CStr(s: seq<Byte>): (r: seq<Byte>)
    ensures r <= s
    ensures NUL !in r
    ensures |r| < |s| ==> s[|r|] == NUL
  {
    if s == [] || s[0] == NUL then [] else [s[0]] + CStr(s[1..])
  }

  /** A string without NUL is its own C string. */
  lemma {:induction false} CStrOfPlain(s: seq<Byte>)
    requires NUL !in s
    ensures CStr(s) == s
  {
    if s != [] {
      CStrOfPlain(s[1..]);
    }
  }

  /** The bytes `writeString` puts into the buffer. */
  function Encode(s: seq<Byte>): (r: seq<Byte>)
    ensures |r| == |CStr(s)| + 1
    ensures r[|r| - 1] == NUL && NUL !in r[..|r| - 1]
    ensures NUL !in s ==> r[..|r| - 1] == s
  {
    if NUL !in s then CStrOfPlain(s); CStr(s) + [NUL]
    else assert (CStr(s) + [NUL])[..|CStr(s)|] == CStr(s); CStr(s) + [NUL]
  }

  /** The first NUL at or after index `i`, if there is one. */
  function ScanNul(img: seq<Byte>, i: nat): (r: Option<nat>)
    requires i <= |img|
    decreases |img| - i
    ensures r.Some? ==> i <= r.value < |img| && img[r.value] == NUL && NUL !in img[i..r.value]
    ensures r.None? ==> NUL !in img[i..]
  {
    if i == |img| then None
    else if img[i] == NUL then Some(i)
    else
      var r := ScanNul(img, i + 1);
      assert img[i..] == [img[i]] + img[i + 1..];
      if r.Some? then
        assert img[i..r.value] == [img[i]] + img[i + 1..r.value];
        r
      else r
  }

  /**
   * `readString`: the bytes from `off` up to the next NUL; the empty string
   * when `off` is outside the buffer or no NUL follows it.
   */
  function ReadText(img: seq<Byte>, off: int): (r: seq<Byte>)
    ensures NUL !in r
    ensures r != [] ==> 0 <= off && off + |r| < |img| && img[off..off + |r|] == r && img[off + |r|] == NUL
  {
    if 0 <= off < |img| then
      match ScanNul(img, off)
      case Some(j) => img[off..j]
      case None => []
    else []
  }

  /** Text laid out with its terminator at `off` reads back as that text. */
  lemma ReadEncoded(img: seq<Byte>, off: int, t: seq<Byte>)
    requires NUL !in t
    requires Fits(|img|, off, |t| + 1)
    requires img[off..off + |t| + 1] == t + [NUL]
    ensures ReadText(img, off) == t
  {
    var end := off + |t|;
    assert img[end] == (t + [NUL])[|t|];
    assert img[off..end] == t by {
      assert img[off..end] == img[off..off + |t| + 1][..|t|];
    }
    assert ScanNul(img, off) == Some(end);
  }

  /** `writeString` then `readString` at the same offset gives the C string back. */
  lemma WriteReadText(img: seq<Byte>, off: int, s: seq<Byte>)
    requires Fits(|img|, off, |Encode(s)|)
    ensures ReadText(Write(img, off, Encode(s)), off) == CStr(s)
  {
    WriteThenSlice(img, off, Encode(s));
    ReadEncoded(Write(img, off, Encode(s)), off, CStr(s));
  }
}
