/** Octets and the two `Uint8Array` buffer operations the firmware path uses. */
module Bytes {

  newtype byte = b: int | 0 <= b < 0x100

  /** `new Uint8Array(n).fill(v)`. */
  function Fill(n: nat, v: byte): (r: seq<byte>)
    ensures |r| == n
    ensures forall i :: 0 <= i < n ==> r[i] == v
  {
    seq(n, _ => v)
  }

  /** `buf.set(src, offset)` on a copy of `buf`: the bytes of `src` replace those at
      `offset ..`, everything else is kept, and the length does not change. */
  function Overwrite(buf: seq<byte>, offset: nat, src: seq<byte>): (r: seq<byte>)
    requires offset + |src| <= |buf|
    ensures |r| == |buf|
    ensures forall i :: 0 <= i < |r| ==>
      r[i] == (if offset <= i < offset + |src| then src[i - offset] else buf[i])
  {
    buf[..offset] + src + buf[offset + |src|..]
  }
}
