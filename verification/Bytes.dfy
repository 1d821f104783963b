/** The character set facts and the result codes that the stream layer uses. */
module Bytes {
  type byte = x: int | 0 <= x < 256

  const NL: byte := 0x15     // '\n' in EBCDIC
  const BLANK: byte := 0x40  // ' '  in EBCDIC
  const EOF: int := -1

  const SEEK_SET := 0
  const SEEK_CUR := 1
  const SEEK_END := 2

  datatype Errno = NoErr | EBADF | EIO | ENOSPC | EOPNOTSUPP | EINVAL | ESPIPE

  /** n copies of b. */
  function Fill(b: byte, n: nat): (r: seq<byte>)
    ensures |r| == n && forall i :: 0 <= i < n ==> r[i] == b
  {
    seq(n, _ => b)
  }

  /** s with byte i replaced by c. */
  function SetAt(s: seq<byte>, i: nat, c: byte): (r: seq<byte>)
    requires i < |s|
    ensures |r| == |s| && r[i] == c && forall k :: 0 <= k < |s| && k != i ==> r[k] == s[k]
  {
    s[i := c]
  }

  /** memcpy: data laid over dst from its start. */
  function Overlay(dst: seq<byte>, data: seq<byte>): (r: seq<byte>)
    requires |data| <= |dst|
    ensures |r| == |dst| && r[..|data|] == data && r[|data|..] == dst[|data|..]
  {
    data + dst[|data|..]
  }

  /** A text record without its trailing X'00's. */
  function StripNul(data: seq<byte>): (r: seq<byte>)
    ensures r <= data
    ensures r == [] || r[|r| - 1] != 0
    ensures forall i :: |r| <= i < |data| ==> data[i] == 0
  {
    if data != [] && data[|data| - 1] == 0 then StripNul(data[..|data| - 1]) else data
  }
}
