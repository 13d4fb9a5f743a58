/** Bytes and the numbers they spell. */
module Bytes {

  type byte = bv8

  function LittleEndian(s: seq<byte>): (v: nat)
    ensures |s| == 1 ==> v < 0x100
    ensures |s| == 2 ==> v < 0x1_0000
    ensures |s| == 4 ==> v < 0x1_0000_0000
  {
    if s == [] then 0
    else if |s| == 1 then s[0] as nat
    else s[0] as nat + 256 * LittleEndian(s[1..])
  }

  lemma Spelled(a: byte, b: byte, c: byte, d: byte)
    ensures LittleEndian([a, b, c, d]) == a as nat + 256 * (b as nat + 256 * (c as nat + 256 * d as nat))
  {
    assert [a, b, c, d][1..] == [b, c, d] && [b, c, d][1..] == [c, d] && [c, d][1..] == [d];
    assert LittleEndian([d]) == d as nat;
    assert LittleEndian([c, d]) == c as nat + 256 * LittleEndian([d]);
  }
}
