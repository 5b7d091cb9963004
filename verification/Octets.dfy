/** Bytes: the unsigned char of the C sources, kept as the integers 0..255. */
module Octets {
  type byte = x: int | 0 <= x < 256

  /** The C conversion of an integer to unsigned char. */
  function Cast(n: int): byte
  {
    n % 256
  }

  /** The bytes of a string of characters below 256. */
  function BytesOf(s: string): (r: seq<byte>)
    ensures |r| == |s| && forall i :: 0 <= i < |s| ==> r[i] == s[i] as int % 256
  {
    seq(|s|, i requires 0 <= i < |s| => s[i] as int % 256)
  }

  function Concat(l: seq<seq<byte>>): seq<byte>
  {
    if l == [] then [] else l[0] + Concat(l[1..])
  }
}
