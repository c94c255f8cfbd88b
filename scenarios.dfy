/**
 * Clients of the lazy stream: the worked examples of its behaviour, and a
 * reader that drains a stream byte by byte.
 */
module Scenarios {
  import opened JavaTypes
  import opened ByteSources
  import opened LazyInput

  /** Each byte read as an unsigned value, in order: what successive `read()` calls return. */
  function UnsignedBytes(bs: seq<int8>): (r: seq<int>)
    ensures |r| == |bs|
    ensures forall i :: 0 <= i < |bs| ==> r[i] == Unsigned(bs[i])
  {
    if bs == [] then [] else UnsignedBytes(bs[..|bs| - 1]) + [Unsigned(bs[|bs| - 1])]
  }

  /** Reading one more byte extends the bytes read by its unsigned value. */
  lemma UnsignedBytesSnoc(bs: seq<int8>, i: int, j: int)
    requires 0 <= i < j <= |bs|
    ensures UnsignedBytes(bs[i..j]) == UnsignedBytes(bs[i..j - 1]) + [Unsigned(bs[j - 1])]
  {
    assert bs[i..j][..j - i - 1] == bs[i..j - 1];
  }

  /** "ABCDEFG" as Java bytes. */
  const Letters: seq<int8> := [65, 66, 67, 68, 69, 70, 71]

  /**
   * Block capacity 4 over "ABCDEFG": reading 5 bytes gives "ABCDE" and
   * loads two blocks, 7 bytes in all; skipping 10 then skips the 2 bytes
   * left, after which nothing is available.
   */
  method ReadThenSkip() returns (count: int, bytes: seq<int8>, blockCount: int, loaded: int, skipped: int, available: int)
    ensures count == 5 && bytes == [65, 66, 67, 68, 69]
    ensures blockCount == 2 && loaded == 7
    ensures skipped == 2 && available == 0
  {
    var input := new ByteSource(Letters);
    var stream := new LazyInputStream(input, 4);
    var b := new int8[5];
    count := stream.ReadArray(b);
    bytes := b[..];
    blockCount := stream.GetBlockCount();
    loaded := stream.GetBufferSize();
    skipped := stream.Skip(10);
    available := stream.Available(0);
  }

  /**
   * Marking at position 2, reading to the end and resetting rewinds to
   * 'C' without another load from the input; the mark is used up, so a
   * second reset rewinds to the start.
   */
  method MarkReadReset() returns (again: int, loadedBefore: int, loadedAfter: int, blocksBefore: int, blocksAfter: int, rewound: int)
    ensures again == 67
    ensures loadedAfter == loadedBefore == 7 && blocksAfter == blocksBefore == 2
    ensures rewound == 0
  {
    var input := new ByteSource(Letters);
    var stream := new LazyInputStream(input, 4);
    var skipped := stream.Skip(2);
    stream.Mark(0);
    var rest := new int8[10];
    var count := stream.ReadArray(rest);
    loadedBefore, blocksBefore := stream.GetBufferSize(), stream.GetBlockCount();
    stream.Reset();
    again := stream.Read();
    loadedAfter, blocksAfter := stream.GetBufferSize(), stream.GetBlockCount();
    stream.Reset();
    rewound := stream.GetOffset();
  }

  /**
   * `mark` followed at once by `reset` leaves the read position where it
   * was and clears the mark.
   */
  method MarkThenReset(stream: LazyInputStream)
    requires stream.Valid()
    modifies stream
    ensures stream.Valid()
    ensures stream.offset == old(stream.offset) && stream.mark == 0
    ensures stream.blocks == old(stream.blocks) && stream.bufferSize == old(stream.bufferSize)
  {
    stream.Mark(0);
    stream.Reset();
  }

  /**
   * Reads single bytes until the end of the stream: the bytes returned,
   * in order, are the whole of the source from the read position on.
   */
  method ReadToEnd(stream: LazyInputStream) returns (out: seq<int>)
    requires stream.Valid()
    modifies stream, stream.input
    ensures stream.Valid()
    ensures out == UnsignedBytes(stream.source[old(stream.offset)..])
    ensures stream.offset == |stream.source|
  {
    out := [];
    ghost var start := stream.offset;
    while true
      invariant stream.Valid() && start <= stream.offset
      invariant out == UnsignedBytes(stream.source[start..stream.offset])
      decreases |stream.source| - stream.offset
    {
      var r := stream.Read();
      if r == -1 {
        return;
      }
      UnsignedBytesSnoc(stream.source, start, stream.offset);
      out := out + [r];
    }
  }
}
