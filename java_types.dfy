/** The few Java primitives the stream's code relies on. */
module JavaTypes {

  /** Java's `byte`: a signed 8-bit integer. */
  newtype int8 = x: int | -128 <= x < 128

  /** `0xFF & b`: the byte read as an unsigned value. */
  function Unsigned(b: int8): (r: int)
    ensures 0 <= r < 256
    ensures (r - b as int) % 256 == 0
  {
    if b < 0 then b as int + 256 else b as int
  }

  /** `Math.min` */
  function Min(a: int, b: int): (r: int)
    ensures r <= a && r <= b
    ensures r == a || r == b
  {
    if a <= b then a else b
  }

  function Max(a: int, b: int): (r: int)
    ensures a <= r && b <= r
    ensures r == a || r == b
  {
    if a <= b then b else a
  }

  /**
   * `r` is `orig` with the `n` elements `src[lo..lo + n]` written over it
   * from position `at` on, stated position by position.
   */
  lemma Spliced(r: seq<int8>, orig: seq<int8>, at: int, src: seq<int8>, lo: int, n: int)
    requires 0 <= at && 0 <= lo && 0 <= n && lo + n <= |src| && at + n <= |orig| == |r|
    requires forall k :: 0 <= k < |r| && !(at <= k < at + n) ==> r[k] == orig[k]
    requires forall k :: at <= k < at + n ==> r[k] == src[lo + (k - at)]
    ensures r == orig[..at] + src[lo..lo + n] + orig[at + n..]
  {
    var s := orig[..at] + src[lo..lo + n] + orig[at + n..];
    forall k | 0 <= k < |r|
      ensures r[k] == s[k]
    {
      if k < at {
      } else if k < at + n {
      } else {
      }
    }
  }

  /**
   * `System.arraycopy(src, srcPos, dest, destPos, length)` with `src` a
   * block that is no longer written to: `dest[destPos..destPos+length]`
   * receives `src[srcPos..srcPos+length]` and the rest of `dest` is kept.
   */
  method ArrayCopy(src: seq<int8>, srcPos: int, dest: array<int8>, destPos: int, length: int)
    requires 0 <= srcPos && 0 <= length && srcPos + length <= |src|
    requires 0 <= destPos && destPos + length <= dest.Length
    modifies dest
    ensures forall k :: 0 <= k < dest.Length && !(destPos <= k < destPos + length) ==> dest[k] == old(dest[k])
    ensures forall k :: destPos <= k < destPos + length ==> dest[k] == src[srcPos + (k - destPos)]
  {
    var i := 0;
    while i < length
      invariant 0 <= i <= length
      invariant forall k :: 0 <= k < dest.Length && !(destPos <= k < destPos + i) ==> dest[k] == old(dest[k])
      invariant forall k :: destPos <= k < destPos + i ==> dest[k] == src[srcPos + (k - destPos)]
    {
      dest[destPos + i] := src[srcPos + i];
      i := i + 1;
    }
  }
}
