/** Bytes and the two text conversions the string reader relies on:
    `chr(x).encode()`, the UTF-8 encoding of one code point below 256, and
    `bytearray.decode()`, UTF-8 decoding of the accumulated buffer. */
module Utf8 {
  import opened Results

  /** One byte of the binary image. */
  type byte = b: int | 0 <= b < 0x100

  /** The text whose character i has code point `bs[i]` (Latin-1 reading). */
  function Latin1(bs: seq<byte>): (s: string)
    ensures |s| == |bs|
  {
    seq(|bs|, i requires 0 <= i < |bs| => bs[i] as char)
  }

  /** `chr(x).encode()`: one byte below 0x80, otherwise the two-byte form
      `110xxxxx 10xxxxxx`. */
  function EncodeCodePoint(x: byte): seq<byte>
  {
    if x < 0x80 then [x] else [0xC0 + x / 64, 0x80 + x % 64]
  }

  /** The buffer obtained by encoding every byte of `bs` in turn. */
  function EncodeAll(bs: seq<byte>): seq<byte>
  {
    if bs == [] then [] else EncodeCodePoint(bs[0]) + EncodeAll(bs[1..])
  }

  /** `bytes.decode()` (UTF-8), for the one- and two-byte forms; any other
      byte pattern is a decoding error (`None`). */
  function Decode(bs: seq<byte>): Option<string>
    decreases |bs|
  {
    if bs == [] then Some([])
    else if bs[0] < 0x80 then
      match Decode(bs[1..])
      case Some(t) => Some([bs[0] as char] + t)
      case None => None
    else if 0xC2 <= bs[0] < 0xE0 && |bs| >= 2 && 0x80 <= bs[1] < 0xC0 then
      match Decode(bs[2..])
      case Some(t) => Some([((bs[0] as int - 0xC0) * 64 + (bs[1] as int - 0x80)) as char] + t)
      case None => None
    else None
  }

  /** Appending one more encoded byte extends the buffer at its end, which is
      how the reader's loop builds it. */
  lemma {:induction false} EncodeAllSnoc(bs: seq<byte>, x: byte)
    ensures EncodeAll(bs + [x]) == EncodeAll(bs) + EncodeCodePoint(x)
  {
    if bs == [] {
      assert [x][1..] == [];
    } else {
      assert (bs + [x])[1..] == bs[1..] + [x];
      EncodeAllSnoc(bs[1..], x);
    }
  }

  /** Decoding what `EncodeAll` produced never fails and gives back every byte
      as the code point of one character. */
  lemma {:induction false} DecodeEncodeAll(bs: seq<byte>)
    ensures Decode(EncodeAll(bs)) == Some(Latin1(bs))
  {
    if bs != [] {
      var x, rest := bs[0], bs[1..];
      var e := EncodeAll(bs);
      assert e == EncodeCodePoint(x) + EncodeAll(rest);
      DecodeEncodeAll(rest);
      assert Latin1(bs) == [x as char] + Latin1(rest);
      if x < 0x80 {
        assert e[1..] == EncodeAll(rest);
      } else {
        assert e[2..] == EncodeAll(rest);
        assert (e[0] as int - 0xC0) * 64 + (e[1] as int - 0x80) == x;
      }
    }
  }
}
