/**
 * The underlying input stream the lazy stream wraps (`in`), reduced to the
 * one call the stream makes on it: `read(byte[])`.
 */
module ByteSources {
  import opened JavaTypes

  /**
   * A single-pass source of bytes.  `remaining` is what it has still to
   * deliver.  Its `Read` is the contract the lazy stream depends on: a read
   * fills the whole buffer unless fewer bytes remain, and reports the end of
   * the stream (-1) only when nothing remains.
   */
  class ByteSource {
    var remaining: seq<int8>

    constructor (content: seq<int8>)
      ensures remaining == content
    {
      remaining := content;
    }

    /** `InputStream.read(byte[] buf)` for a source that never returns a short count early. */
    method Read(buf: array<int8>) returns (n: int)
      modifies this, buf
      ensures buf.Length == 0 ==> n == 0 && remaining == old(remaining) && buf[..] == old(buf[..])
      ensures buf.Length > 0 && old(remaining) == [] ==>
        n == -1 && remaining == old(remaining) && buf[..] == old(buf[..])
      ensures buf.Length > 0 && old(remaining) != [] ==>
        && n == Min(buf.Length, |old(remaining)|)
        && buf[..n] == old(remaining)[..n]
        && buf[n..] == old(buf[n..])
        && remaining == old(remaining)[n..]
    {
      if buf.Length == 0 {
        return 0;
      }
      if remaining == [] {
        return -1;
      }
      n := Min(buf.Length, |remaining|);
      var i := 0;
      while i < n
        invariant 0 <= i <= n && remaining == old(remaining)
        invariant buf[..i] == remaining[..i]
        invariant buf[i..] == old(buf[i..])
      {
        buf[i] := remaining[i];
        i := i + 1;
      }
      remaining := remaining[n..];
    }
  }
}
