/**
 * A re-readable input stream over a single-pass source: bytes are pulled
 * from the source one block of `blockCapacity` bytes at a time, and only
 * when a read or skip needs them; every block ever loaded is kept, so the
 * stream can be rewound to any marked position.
 */
module LazyInput {
  import opened JavaTypes
  import opened BlockStore
  import opened ByteSources

  class LazyInputStream {
    const blockCapacity: int
    var blocks: seq<seq<int8>>
    var bufferSize: int
    const input: ByteSource
    var mark: int
    var offset: int

    /** Everything `input` delivers from the moment it is wrapped. */
    ghost const source: seq<int8>

    /**
     * The store agrees with `size` bytes loaded: the blocks lay out
     * `source[..size]` and the input has delivered exactly those bytes.
     */
    ghost predicate Consistent(size: int)
      reads this`blocks, input
    {
      && Layout(blocks, source, size, blockCapacity)
      && input.remaining == source[size..]
    }

    /** The stream invariant: a consistent store and a cursor inside the loaded bytes. */
    ghost predicate Valid()
      reads this, input
    {
      && Consistent(bufferSize)
      && 0 <= offset <= bufferSize
      && 0 <= mark <= bufferSize
    }

    /**
     * Demand loading took the store from `blocks0` (holding `size0` bytes)
     * to what covering position `needed` requires, appending blocks only.
     */
    ghost predicate LoadedFrom(blocks0: seq<seq<int8>>, size0: int, needed: int)
      reads this`blocks, this`bufferSize
      requires blockCapacity > 0 && 0 <= size0 <= |source|
    {
      && bufferSize == LoadTarget(size0, needed, |source|, blockCapacity)
      && blocks0 <= blocks
      && (bufferSize == size0 ==> blocks == blocks0)
    }

    constructor (input: ByteSource, blockCapacity: int)
      requires blockCapacity > 0
      ensures Valid()
      ensures this.input == input && this.blockCapacity == blockCapacity && source == input.remaining
      ensures blocks == [] && bufferSize == 0 && offset == 0 && mark == 0
    {
      this.input := input;
      this.blockCapacity := blockCapacity;
      source := input.remaining;
      blocks := [];
      bufferSize := 0;
      offset := 0;
      mark := 0;
    }

    /**
     * The bytes that can be read without blocking: those loaded and not yet
     * read, plus the input's own estimate `inAvailable` (`in.available()`).
     */
    method Available(inAvailable: int) returns (r: int)
      requires Valid() && inAvailable >= 0
      ensures r == |source[offset..bufferSize]| + inAvailable
      ensures r >= bufferSize - offset >= 0
    {
      r := bufferSize - offset + inAvailable;
    }

    /**
     * Copies up to `needed` loaded bytes from `offset` on into
     * `userBuffer[userOffset..]`, block by block, and advances `offset`
     * past them.
     */
    method CopyFromBuffer(userBuffer: array<int8>, userOffset: int, needed: int) returns (copied: int)
      requires Valid()
      requires 0 <= userOffset <= userBuffer.Length && Min(needed, bufferSize - offset) <= userBuffer.Length - userOffset
      modifies this`offset, userBuffer
      ensures Valid()
      ensures copied == if needed <= 0 then 0 else Min(needed, bufferSize - old(offset))
      ensures offset == old(offset) + copied
      ensures userBuffer[..] == old(userBuffer[..])[..userOffset] + source[old(offset)..old(offset) + copied] + old(userBuffer[..])[userOffset + copied..]
    {
      ghost var orig := userBuffer[..];
      copied := CopyBlocks(userBuffer, userOffset, needed, orig);
      Spliced(userBuffer[..], orig, userOffset, source, old(offset), copied);
    }

    /**
     * The work of `CopyFromBuffer` on the block store: starting at the block
     * of `offset` (`offset / blockCapacity`), one block per pass until
     * `needed` bytes are copied or the loaded bytes run out.
     */
    method CopyBlocks(userBuffer: array<int8>, userOffset: int, needed: int, ghost orig: seq<int8>)
        returns (copied: int)
      requires Layout(blocks, source, bufferSize, blockCapacity) && 0 <= offset <= bufferSize
      requires 0 <= userOffset <= userBuffer.Length == |orig| && Min(needed, bufferSize - offset) <= userBuffer.Length - userOffset
      requires userBuffer[..] == orig
      modifies this`offset, userBuffer
      ensures copied == if needed <= 0 then 0 else Min(needed, bufferSize - old(offset))
      ensures offset == old(offset) + copied
      ensures forall k :: 0 <= k < userBuffer.Length && !(userOffset <= k < userOffset + copied) ==> userBuffer[k] == orig[k]
      ensures forall k :: userOffset <= k < userOffset + copied ==> userBuffer[k] == source[old(offset) + (k - userOffset)]
    {
      copied := 0;
      var block := offset / blockCapacity;
      BlockIndexDiv(offset, blockCapacity);
      if block >= |blocks| {
        PastStore(blocks, source, bufferSize, blockCapacity, offset);
      }
      while needed - copied > 0 && block < |blocks|
        invariant 0 <= offset <= bufferSize
        invariant 0 <= block && 0 <= copied <= Max(needed, 0) && offset == old(offset) + copied
        invariant copied < needed ==>
          if block < |blocks| then block == BlockIndex(offset, blockCapacity) else offset == bufferSize
        invariant forall k :: 0 <= k < userBuffer.Length && !(userOffset <= k < userOffset + copied) ==> userBuffer[k] == orig[k]
        invariant forall k :: userOffset <= k < userOffset + copied ==> userBuffer[k] == source[old(offset) + (k - userOffset)]
        decreases |blocks| - block
      {
        var toCopy := CopyFromBlock(block, userBuffer, userOffset, userOffset + copied, needed - copied, orig, old(offset));
        copied := copied + toCopy;
        block := block + 1;
      }
    }

    /**
     * One pass of the copy loop: copies the loaded bytes of block `current`
     * from `offset` on, at most `wanted` of them, to `userBuffer[at..]`,
     * extending the copy of `source[start..offset]` that `userBuffer[first..at]`
     * already holds, and advances `offset` past them.  Taking all of the
     * block's remaining bytes leads to the start of the next block, or to
     * the end of the loaded bytes.
     */
    method CopyFromBlock(current: int, userBuffer: array<int8>, first: int, at: int, wanted: int,
                         ghost orig: seq<int8>, ghost start: int) returns (toCopy: int)
      requires Layout(blocks, source, bufferSize, blockCapacity) && 0 <= offset <= bufferSize
      requires 0 <= current < |blocks| && current == BlockIndex(offset, blockCapacity) && wanted > 0
      requires 0 <= first <= at && at + Min(wanted, bufferSize - offset) <= userBuffer.Length == |orig|
      requires 0 <= start <= offset && at - first == offset - start
      requires forall k :: 0 <= k < userBuffer.Length && !(first <= k < at) ==> userBuffer[k] == orig[k]
      requires forall k :: first <= k < at ==> userBuffer[k] == source[start + (k - first)]
      modifies this`offset, userBuffer
      ensures toCopy == Min(Min(blockCapacity, bufferSize - BlockStart(current, blockCapacity)) - InBlock(old(offset), blockCapacity), wanted)
      ensures 0 <= toCopy <= wanted && InBlock(old(offset), blockCapacity) + toCopy <= blockCapacity
      ensures offset == old(offset) + toCopy <= bufferSize
      ensures forall k :: 0 <= k < userBuffer.Length && !(first <= k < at + toCopy) ==> userBuffer[k] == orig[k]
      ensures forall k :: first <= k < at + toCopy ==> userBuffer[k] == source[start + (k - first)]
      ensures toCopy < wanted ==>
        && (current + 1 < |blocks| ==> BlockIndex(offset, blockCapacity) == current + 1 && offset == BlockStart(current + 1, blockCapacity))
        && (current + 1 >= |blocks| ==> offset == bufferSize)
    {
      BlockStartMul(current, blockCapacity);
      BlockStartMul(current + 1, blockCapacity);
      InBlockMod(offset, blockCapacity);
      var blockSize := ComputeBlockSize(current);
      var offsetInBlock := offset % blockCapacity;
      var availableInBlock := blockSize - offsetInBlock;
      toCopy := Min(availableInBlock, wanted);
      CopyStep(blocks, source, bufferSize, blockCapacity, offset, current, wanted, toCopy);
      ArrayCopy(blocks[current], offsetInBlock, userBuffer, at, toCopy);
      offset := offset + toCopy;
    }

    /**
     * Loads blocks until `bytesToRead` bytes from `offset` on are loaded or
     * a load comes back short of a full block.
     */
    method EnsureAvailable(bytesToRead: int)
      requires Valid()
      modifies this`blocks, this`bufferSize, input
      ensures Valid()
      ensures LoadedFrom(old(blocks), old(bufferSize), offset + bytesToRead)
    {
      var loadedBlockSize := blockCapacity;
      while bufferSize < offset + bytesToRead && loadedBlockSize == blockCapacity
        invariant Valid()
        invariant old(bufferSize) <= bufferSize && old(blocks) <= blocks
        invariant bufferSize == old(bufferSize) ==> blocks == old(blocks)
        invariant loadedBlockSize != blockCapacity ==> bufferSize == |source|
        invariant bufferSize == old(bufferSize) ||
          (old(bufferSize) < offset + bytesToRead && (|blocks| - 1) * blockCapacity < offset + bytesToRead)
        decreases |source| - bufferSize + (if loadedBlockSize == blockCapacity then 1 else 0)
      {
        loadedBlockSize := LoadBlock();
        bufferSize := bufferSize + loadedBlockSize;
      }
      LoadLoopExit(old(bufferSize), bufferSize, |blocks|, offset + bytesToRead, |source|, blockCapacity);
    }

    /** The test hook for the number of blocks loaded: `ceil(bufferSize / blockCapacity)`. */
    function GetBlockCount(): (r: int)
      reads this, input
      requires Valid()
      ensures r == BlocksFor(bufferSize, blockCapacity)
    {
      BlockCount(blocks, source, bufferSize, blockCapacity);
      |blocks|
    }

    /**
     * The number of loaded bytes in block `blockIndex`: `blockCapacity` for
     * every block but the last; for the last, `bufferSize % blockCapacity`,
     * or `blockCapacity` when that is 0.
     */
    function ComputeBlockSize(blockIndex: int): (r: int)
      reads this
      requires Layout(blocks, source, bufferSize, blockCapacity)
      ensures 0 < r <= blockCapacity
      ensures 0 <= blockIndex < |blocks| ==> r == Min(blockCapacity, bufferSize - blockIndex * blockCapacity)
    {
      BlockFill(blocks, source, bufferSize, blockCapacity, blockIndex);
      if blockIndex < |blocks| - 1 then
        blockCapacity
      else
        var blockSize := bufferSize % blockCapacity;
        if blockSize == 0 then blockCapacity else blockSize
    }

    /** The test hook for the loaded byte count: exactly the bytes taken from the input. */
    function GetBufferSize(): (r: int)
      reads this, input
      requires Valid()
      ensures 0 <= r <= |source| && input.remaining == source[r..]
    {
      bufferSize
    }

    /** The test hook for the mark: always a position among the loaded bytes. */
    function GetMark(): (r: int)
      reads this, input
      requires Valid()
      ensures 0 <= r <= bufferSize
    {
      mark
    }

    /** The test hook for the read position: never past the loaded bytes. */
    function GetOffset(): (r: int)
      reads this, input
      requires Valid()
      ensures 0 <= r <= bufferSize
    {
      offset
    }

    /**
     * Reads one block's worth from the input and, unless the input is at
     * its end, appends it as a new block; returns the number of bytes read
     * (0 at the end).  `bufferSize` is left for the caller to advance.
     */
    method LoadBlock() returns (readCount: int)
      requires Valid()
      modifies this`blocks, input
      ensures readCount == Min(blockCapacity, |source| - bufferSize)
      ensures Consistent(bufferSize + readCount)
      ensures readCount == 0 ==> blocks == old(blocks)
      ensures readCount > 0 ==>
        && |blocks| == |old(blocks)| + 1
        && blocks[..|old(blocks)|] == old(blocks)
        && blocks[|old(blocks)|][..readCount] == source[bufferSize..bufferSize + readCount]
    {
      var newBlock := new int8[blockCapacity];
      readCount := input.Read(newBlock);
      if readCount == -1 {
        return 0;
      }
      blocks := blocks + [newBlock[..]];
      AppendBlock(old(blocks), source, bufferSize, blockCapacity, newBlock[..], readCount);
    }

    /** Remembers the current position for `Reset`; the read limit is ignored. */
    method Mark(readlimit: int)
      requires Valid()
      modifies this`mark
      ensures Valid() && mark == offset
    {
      mark := offset;
    }

    /**
     * Returns the next byte as a value in 0..255, or -1 once every byte of
     * the source has been read.
     */
    method Read() returns (r: int)
      requires Valid()
      modifies this`blocks, this`bufferSize, this`offset, input
      ensures Valid()
      ensures LoadedFrom(old(blocks), old(bufferSize), old(offset) + 1)
      ensures r == -1 <==> old(offset) == |source|
      ensures r == -1 ==> offset == old(offset)
      ensures r != -1 ==> r == Unsigned(source[old(offset)]) && offset == old(offset) + 1
    {
      EnsureAvailable(1);
      if bufferSize <= offset {
        return -1;
      }
      assert Stored(blocks, blockCapacity, offset) == source[offset];
      r := Unsigned(blocks[offset / blockCapacity][offset % blockCapacity]);
      offset := offset + 1;
    }

    /** `read(b)`: reads into the whole of `b`. */
    method ReadArray(b: array<int8>) returns (r: int)
      requires Valid()
      modifies this`blocks, this`bufferSize, this`offset, input, b
      ensures Valid()
      ensures LoadedFrom(old(blocks), old(bufferSize), old(offset) + b.Length)
      ensures offset - old(offset) == Min(b.Length, |source| - old(offset))
      ensures b[..] == source[old(offset)..offset] + old(b[..])[offset - old(offset)..]
      ensures r == if offset == old(offset) then -1 else offset - old(offset)
    {
      r := ReadArrayRange(b, 0, b.Length);
    }

    /**
     * `read(b, off, len)`: copies the next `len` bytes of the source, or as
     * many as remain, into `b[off..]`; returns their number, or -1 when
     * there are none (so also when `len <= 0`).
     */
    method ReadArrayRange(b: array<int8>, off: int, len: int) returns (r: int)
      requires Valid()
      requires 0 <= off <= b.Length && Min(len, |source| - offset) <= b.Length - off
      modifies this`blocks, this`bufferSize, this`offset, input, b
      ensures Valid()
      ensures LoadedFrom(old(blocks), old(bufferSize), old(offset) + len)
      ensures offset - old(offset) == if len <= 0 then 0 else Min(len, |source| - old(offset))
      ensures b[..] == old(b[..])[..off] + source[old(offset)..offset] + old(b[..])[off + (offset - old(offset))..]
      ensures r == if offset == old(offset) then -1 else offset - old(offset)
    {
      EnsureAvailable(len);
      var copied := CopyFromBuffer(b, off, len);
      r := if copied == 0 then -1 else copied;
    }

    /**
     * Rewinds to the mark and clears it, so a second `Reset` without a new
     * `Mark` rewinds to position 0.
     */
    method Reset()
      requires Valid()
      modifies this`offset, this`mark
      ensures Valid() && offset == old(mark) && mark == 0
    {
      offset := mark;
      mark := 0;
    }

    /**
     * Skips the next `toSkip` bytes, or as many as remain, and returns how
     * many were skipped; a count of 0 or less skips and loads nothing.
     */
    method Skip(toSkip: int) returns (skipped: int)
      requires Valid()
      modifies this`blocks, this`bufferSize, this`offset, input
      ensures Valid()
      ensures toSkip <= 0 ==> skipped == 0 && blocks == old(blocks) && bufferSize == old(bufferSize)
      ensures toSkip > 0 ==>
        && LoadedFrom(old(blocks), old(bufferSize), old(offset) + toSkip)
        && skipped == Min(toSkip, |source| - old(offset))
      ensures 0 <= skipped && offset == old(offset) + skipped
    {
      if toSkip <= 0 {
        return 0;
      }
      EnsureAvailable(toSkip);
      skipped := Min(toSkip, bufferSize - offset);
      offset := offset + skipped;
    }
  }
}
